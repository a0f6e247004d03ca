/** The strftime-like formatter `DateLikeFormatter` of format.js:102-148: a mark
    character (`%`) followed by a key is replaced by the key's handler applied to
    the value, and an even run of marks stands for half as many literal marks. */
module DateLike {
  import opened Results
  import opened Text

  // ------------------------------------------------------- the pattern text

  /** Characters with a meaning of their own in a JavaScript regular expression. */
  predicate IsMetachar(c: char)
  {
    c in "\\^$.|?*+()[]{}"
  }

  /** The configurations the model covers: the mark is one UTF-16 code unit
      (`mark.length` is 1, as format.js:112-114 asks), the mark and the keys are
      read literally by the regular expression, no key contains the mark, and no
      key occurs twice (an object's property names never do). */
  predicate Plain(mark: char, keys: seq<string>)
  {
    && IsCodeUnit(mark)
    && !IsMetachar(mark)
    && (forall i :: 0 <= i < |keys| ==> mark !in keys[i] && forall c :: c in keys[i] ==> !IsMetachar(c))
    && (forall i, j :: 0 <= i < j < |keys| ==> keys[i] != keys[j])
  }

  /** One alternative of the key group: a key whose `length` (in UTF-16 code
      units) is 1 as it is, any other in `(?:…)`. */
  function Alternative(k: string): string
  {
    if JsLength(k) == 1 then k else "(?:" + k + ")"
  }

  /** `Array.from(keys, Alternative)`. */
  function Alternatives(keys: seq<string>): (alts: seq<string>)
    ensures |alts| == |keys|
    ensures forall i :: 0 <= i < |keys| ==> Unwrap(alts[i]) == keys[i]
  {
    UnwrapAlternatives(keys);
    seq(|keys|, i requires 0 <= i < |keys| => Alternative(keys[i]))
  }

  /** `pieces.join("|")`. */
  function JoinBars(pieces: seq<string>): string
  {
    if pieces == [] then ""
    else if |pieces| == 1 then pieces[0]
    else pieces[0] + "|" + JoinBars(pieces[1..])
  }

  /** The source text of the pattern built at format.js:119-121. */
  function PatternSource(mark: char, keys: seq<string>): string
  {
    "(" + [mark] + "+)(" + JoinBars(Alternatives(keys)) + ")"
  }

  /** The pieces of s between the `|` characters. */
  function SplitBars(s: string): (r: seq<string>)
    ensures |r| >= 1
  {
    if s == [] then [""]
    else
      var rest := SplitBars(s[1..]);
      if s[0] == '|' then [""] + rest else [[s[0]] + rest[0]] + rest[1..]
  }

  /** An alternative read back: `(?:k)` is k; anything else is itself. */
  function Unwrap(s: string): string
  {
    if |s| >= 4 && s[..3] == "(?:" && s[|s| - 1] == ')' then s[3..|s| - 1] else s
  }

  /** The alternatives of the key group of a pattern `(m+)(…)`, in order; an
      empty group is the single empty alternative. */
  function PatternAlternatives(re: string): (alts: seq<string>)
  {
    if |re| < 6 then []
    else
      var pieces := SplitBars(re[5..|re| - 1]);
      seq(|pieces|, i requires 0 <= i < |pieces| => Unwrap(pieces[i]))
  }

  // ----------------------------------------------------------- the routing

  /** The handler table as `Object.entries(routing)` lists it. */
  type Routing<!T> = seq<(string, T -> string)>

  function Keys<T>(routing: Routing<T>): (keys: seq<string>)
    ensures |keys| == |routing| && forall i :: 0 <= i < |routing| ==> keys[i] == routing[i].0
  {
    seq(|routing|, i requires 0 <= i < |routing| => routing[i].0)
  }

  /** `this.routing.get(key)`. */
  function Lookup<T>(routing: Routing<T>, key: string): Option<T -> string>
  {
    if |routing| == 0 then None
    else if routing[0].0 == key then Some(routing[0].1)
    else Lookup(routing[1..], key)
  }

  /** The table has a handler for exactly its keys: the first entry with the key. */
  lemma {:induction false} LookupSpec<T>(routing: Routing<T>, key: string)
    ensures Lookup(routing, key).Some? <==> key in Keys(routing)
    ensures Lookup(routing, key).Some? ==>
      exists i :: 0 <= i < |routing| && routing[i] == (key, Lookup(routing, key).value)
  {
    if |routing| > 0 {
      assert Keys(routing) == [routing[0].0] + Keys(routing[1..]);
      if routing[0].0 != key {
        LookupSpec(routing[1..], key);
        if Lookup(routing, key).Some? {
          var i :| 0 <= i < |routing[1..]| && routing[1..][i] == (key, Lookup(routing, key).value);
          assert routing[i + 1] == (key, Lookup(routing, key).value);
        }
      } else {
        assert routing[0] == (key, Lookup(routing, key).value);
      }
    }
  }

  // -------------------------------------------------------------- matching

  /** The alternative the key group matches at the start of s: the first in
      order that s starts with. */
  function FirstAlternative(alts: seq<string>, s: string): (r: Option<nat>)
    ensures r.Some? ==> r.value < |alts| && |alts[r.value]| <= |s|
  {
    if alts == [] then None
    else if IsPrefix(alts[0], s) then Some(0)
    else
      match FirstAlternative(alts[1..], s)
      case None => None
      case Some(i) => Some(i + 1)
  }

  /** The regular expression's alternation: the first alternative that matches wins. */
  lemma {:induction false} FirstAlternativeSpec(alts: seq<string>, s: string)
    ensures var r := FirstAlternative(alts, s);
            && (r.Some? ==> IsPrefix(alts[r.value], s) && forall j :: 0 <= j < r.value ==> !IsPrefix(alts[j], s))
            && (r.None? ==> forall j :: 0 <= j < |alts| ==> !IsPrefix(alts[j], s))
  {
    if alts != [] && !IsPrefix(alts[0], s) {
      FirstAlternativeSpec(alts[1..], s);
      var r := FirstAlternative(alts, s);
      forall j | 1 <= j < |alts| && (r.None? || j < r.value) ensures !IsPrefix(alts[j], s) {
        assert alts[1..][j - 1] == alts[j];
      }
    }
  }

  /** The length of the run of marks at the start of s, matched greedily by `(m+)`. */
  function RunLength(s: string, mark: char): (n: nat)
    ensures n <= |s|
  {
    if s == [] || s[0] != mark then 0 else 1 + RunLength(s[1..], mark)
  }

  /** The run is all marks and is not followed by another mark. */
  lemma {:induction false} RunLengthSpec(s: string, mark: char)
    ensures var n := RunLength(s, mark);
            (forall j :: 0 <= j < n ==> s[j] == mark) && (n < |s| ==> s[n] != mark)
  {
    if s != [] && s[0] == mark {
      RunLengthSpec(s[1..], mark);
      forall j | 1 <= j < RunLength(s, mark) ensures s[j] == mark {
        assert s[1..][j - 1] == s[j];
      }
    }
  }

  // ----------------------------------------------------------- replacement

  /** How an odd run of marks before a key is replaced. */
  datatype Escaping =
    | AsWritten  // format.js:145: the handler's text alone, the leading marks dropped
    | Intended   // half the marks, rounded down, then the handler's text

  datatype DirectiveError = UnknownFormat(key: string)

  /** The callback of format.js:132-146 for a run of n marks followed by key. */
  function ReplaceDirective<T>(mark: char, n: nat, key: string, routing: Routing<T>, v: T, mode: Escaping)
    : Result<string, DirectiveError>
  {
    var esc := Repeat(mark, n / 2);
    if n % 2 == 0 then Success(esc + key)
    else
      match Lookup(routing, key)
      case None => Failure(UnknownFormat(key))
      case Some(h) => Success(if mode == Intended then esc + h(v) else h(v))
  }

  /** The directive at the start of s, if any: the length of the run of marks
      and the index of the alternative that follows it. */
  function Directive(mark: char, alts: seq<string>, s: string): (d: Option<(nat, nat)>)
    ensures d.Some? ==> 1 <= d.value.0 && d.value.1 < |alts| && d.value.0 + |alts[d.value.1]| <= |s|
  {
    var n := RunLength(s, mark);
    if n == 0 then None
    else
      match FirstAlternative(alts, s[n..])
      case None => None
      case Some(a) => Some((n, a))
  }

  /** `msg.replaceAll(re, callback)` for a pattern whose key group has the
      alternatives alts: at each position a run of marks followed by an
      alternative is a directive; anything else is copied one character at a time. */
  function Expand<T>(mark: char, alts: seq<string>, routing: Routing<T>, msg: string, v: T, mode: Escaping)
    : Result<string, DirectiveError>
    decreases |msg|
  {
    if msg == [] then Success([])
    else
      var d := Directive(mark, alts, msg);
      if d.None? then Prefix([msg[0]], Expand(mark, alts, routing, msg[1..], v, mode))
      else
        var key := alts[d.value.1];
        var rep := ReplaceDirective(mark, d.value.0, key, routing, v, mode);
        if rep.Failure? then Failure(rep.error)
        else Prefix(rep.value, Expand(mark, alts, routing, msg[d.value.0 + |key|..], v, mode))
  }

  // ------------------------------------------------------------- the class

  class DateLikeFormatter<T> {
    const mark: char
    const routing: Routing<T>
    /** The source text of the pattern `this.re`. */
    const re: string

    predicate Valid()
    {
      Plain(mark, Keys(routing)) && re == PatternSource(mark, Keys(routing))
    }

    /** format.js:108-122. */
    constructor(mark: char, routing: Routing<T>)
      requires Plain(mark, Keys(routing))
      ensures this.mark == mark && this.routing == routing && Valid()
    {
      this.mark := mark;
      this.routing := routing;
      this.re := PatternSource(mark, Keys(routing));
    }

    /** format.js:129-147, with the marks of an odd run halved as for an even one. */
    method Format(msg: string, v: T) returns (r: Result<string, DirectiveError>)
      requires Valid()
      ensures r == Expand(mark, PatternAlternatives(re), routing, msg, v, Intended)
    {
      var alts := PatternAlternatives(re);
      var out := "";
      var rest := msg;
      ghost var total := Expand(mark, alts, routing, msg, v, Intended);
      PrefixEmpty(total);
      while rest != []
        invariant total == Prefix(out, Expand(mark, alts, routing, rest, v, Intended))
        decreases |rest|
      {
        var step, next := ScanStep(total, mark, alts, routing, out, rest, v);
        if step.Failure? {
          return step;
        }
        out, rest := step.value, next;
      }
      assert out + [] == out;
      return Success(out);
    }
  }

  // ----------------------------------------------------------- loop steps

  /** One step of the scan at the start of rest, the part of the message not yet
      scanned: a directive there is replaced, any other character is copied. The
      output so far with this step's text appended and what is left of the message,
      or the failure that ends the scan. */
  method ScanStep<T>(ghost total: Result<string, DirectiveError>, mark: char, alts: seq<string>,
                     routing: Routing<T>, out: string, rest: string, v: T)
    returns (r: Result<string, DirectiveError>, next: string)
    requires rest != [] && total == Prefix(out, Expand(mark, alts, routing, rest, v, Intended))
    ensures |next| < |rest|
    ensures r.Failure? ==> r == total
    ensures r.Success? ==> total == Prefix(r.value, Expand(mark, alts, routing, next, v, Intended))
  {
    var n := MarkRun(rest, mark);
    var a := FirstAlternative(alts, rest[n..]);
    if n == 0 || a.None? {
      assert Directive(mark, alts, rest).None?;
      TextStep(mark, alts, routing, rest, v, out);
      r, next := Success(out + [rest[0]]), rest[1..];
    } else {
      assert Directive(mark, alts, rest) == Some((n, a.value));
      r, next := ReplaceAt(total, mark, alts, routing, out, rest, v, n, a.value);
    }
  }

  /** The callback at a directive at the start of rest: the output so far with
      the replacement appended, or the failure that ends the scan. */
  method ReplaceAt<T>(ghost total: Result<string, DirectiveError>, mark: char, alts: seq<string>,
                      routing: Routing<T>, out: string, rest: string, v: T, n: nat, a: nat)
    returns (r: Result<string, DirectiveError>, next: string)
    requires Directive(mark, alts, rest) == Some((n, a))
    requires total == Prefix(out, Expand(mark, alts, routing, rest, v, Intended))
    ensures |next| < |rest|
    ensures r.Failure? ==> r == total
    ensures r.Success? ==> total == Prefix(r.value, Expand(mark, alts, routing, next, v, Intended))
  {
    var rep := ReplaceDirective(mark, n, alts[a], routing, v, Intended);
    if rep.Failure? {
      FailStep(mark, alts, routing, rest, v, out, n, a);
      return Failure(rep.error), rest[n + |alts[a]|..];
    }
    DirectiveStep(mark, alts, routing, rest, v, out, n, a);
    return Success(out + rep.value), rest[n + |alts[a]|..];
  }

  /** The `(m+)` part of the match at the start of s: the number of marks there. */
  method MarkRun(s: string, mark: char) returns (n: nat)
    ensures n == RunLength(s, mark)
  {
    n := 0;
    while n < |s| && s[n] == mark
      invariant 0 <= n <= |s|
      invariant forall j :: 0 <= j < n ==> s[j] == mark
      decreases |s| - n
    {
      n := n + 1;
    }
    RunLengthOf(s, mark, n);
  }

  /** A run of n marks not followed by a mark has length n. */
  lemma {:induction false} RunLengthOf(s: string, mark: char, n: nat)
    requires n <= |s| && (forall j :: 0 <= j < n ==> s[j] == mark) && (n < |s| ==> s[n] != mark)
    ensures RunLength(s, mark) == n
  {
    if n > 0 {
      assert s[0] == mark;
      forall j | 0 <= j < n - 1 ensures s[1..][j] == mark {
        assert s[1..][j] == s[j + 1];
      }
      RunLengthOf(s[1..], mark, n - 1);
    }
  }

  lemma TextStep<T>(mark: char, alts: seq<string>, routing: Routing<T>, msg: string, v: T, out: string)
    requires msg != [] && Directive(mark, alts, msg).None?
    ensures Prefix(out, Expand(mark, alts, routing, msg, v, Intended))
         == Prefix(out + [msg[0]], Expand(mark, alts, routing, msg[1..], v, Intended))
  {
    PrefixPrefix(out, [msg[0]], Expand(mark, alts, routing, msg[1..], v, Intended));
  }

  lemma FailStep<T>(mark: char, alts: seq<string>, routing: Routing<T>, msg: string, v: T, out: string, n: nat, a: nat)
    requires msg != [] && Directive(mark, alts, msg) == Some((n, a))
    requires ReplaceDirective(mark, n, alts[a], routing, v, Intended).Failure?
    ensures Prefix(out, Expand(mark, alts, routing, msg, v, Intended))
         == Failure(ReplaceDirective(mark, n, alts[a], routing, v, Intended).error)
  {
  }

  lemma DirectiveStep<T>(mark: char, alts: seq<string>, routing: Routing<T>, msg: string, v: T, out: string, n: nat, a: nat)
    requires msg != [] && Directive(mark, alts, msg) == Some((n, a))
    requires ReplaceDirective(mark, n, alts[a], routing, v, Intended).Success?
    ensures n + |alts[a]| <= |msg|
    ensures Prefix(out, Expand(mark, alts, routing, msg, v, Intended))
         == Prefix(out + ReplaceDirective(mark, n, alts[a], routing, v, Intended).value,
                   Expand(mark, alts, routing, msg[n + |alts[a]|..], v, Intended))
  {
    var rep := ReplaceDirective(mark, n, alts[a], routing, v, Intended);
    var after := Expand(mark, alts, routing, msg[n + |alts[a]|..], v, Intended);
    assert Expand(mark, alts, routing, msg, v, Intended) == Prefix(rep.value, after);
    PrefixPrefix(out, rep.value, after);
  }

  // ------------------------------------------------------- the pattern text

  lemma {:induction false} SplitBarsPlain(a: string)
    requires '|' !in a
    ensures SplitBars(a) == [a]
  {
    if a != [] {
      SplitBarsPlain(a[1..]);
      assert [a[0]] + a[1..] == a;
    }
  }

  lemma {:induction false} SplitBarsJoin(a: string, b: string)
    requires '|' !in a
    ensures SplitBars(a + "|" + b) == [a] + SplitBars(b)
  {
    if a == [] {
      assert a + "|" + b == "|" + b;
      assert ("|" + b)[1..] == b;
    } else {
      assert (a + "|" + b)[1..] == a[1..] + "|" + b;
      SplitBarsJoin(a[1..], b);
      assert [a[0]] + a[1..] == a;
    }
  }

  lemma UnwrapAlternative(k: string)
    ensures Unwrap(Alternative(k)) == k
  {
    if JsLength(k) != 1 {
      var w := "(?:" + k + ")";
      assert w[..3] == "(?:" && w[|w| - 1] == ')';
      assert w[3..|w| - 1] == k;
    }
  }

  lemma UnwrapAlternatives(keys: seq<string>)
    ensures forall i :: 0 <= i < |keys| ==> Unwrap(Alternative(keys[i])) == keys[i]
  {
    forall i | 0 <= i < |keys| ensures Unwrap(Alternative(keys[i])) == keys[i] {
      UnwrapAlternative(keys[i]);
    }
  }

  lemma AlternativeNoBar(k: string)
    requires '|' !in k
    ensures '|' !in Alternative(k)
  {
  }

  /** Splitting pieces joined with bars at the bars gives back the pieces. */
  lemma {:induction false} SplitJoin(pieces: seq<string>)
    requires pieces != [] && forall i :: 0 <= i < |pieces| ==> '|' !in pieces[i]
    ensures SplitBars(JoinBars(pieces)) == pieces
    decreases |pieces|
  {
    if |pieces| == 1 {
      SplitBarsPlain(pieces[0]);
    } else {
      SplitJoin(pieces[1..]);
      SplitBarsJoin(pieces[0], JoinBars(pieces[1..]));
      assert [pieces[0]] + pieces[1..] == pieces;
    }
  }

  /** The pattern built by the constructor reads back as its keys, in order; an
      empty table gives the one empty alternative. */
  lemma PatternRoundTrip(mark: char, keys: seq<string>)
    requires forall i :: 0 <= i < |keys| ==> '|' !in keys[i]
    ensures PatternAlternatives(PatternSource(mark, keys)) == if keys == [] then [""] else keys
  {
    var re := PatternSource(mark, keys);
    var alts := Alternatives(keys);
    var group := JoinBars(alts);
    assert re == "(" + [mark] + "+)(" + group + ")";
    assert re[5..|re| - 1] == group;
    var pieces := SplitBars(group);
    if keys == [] {
      assert pieces == [""];
    } else {
      forall i | 0 <= i < |alts| ensures '|' !in alts[i] {
        AlternativeNoBar(keys[i]);
      }
      SplitJoin(alts);
      forall i | 0 <= i < |keys| ensures Unwrap(pieces[i]) == keys[i] {
        UnwrapAlternative(keys[i]);
      }
    }
  }

  /** A valid formatter's pattern has exactly the table's keys as alternatives. */
  lemma ValidAlternatives<T>(f: DateLikeFormatter<T>)
    requires f.Valid()
    ensures PatternAlternatives(f.re) == if |f.routing| == 0 then [""] else Keys(f.routing)
  {
    var keys := Keys(f.routing);
    forall i | 0 <= i < |keys| ensures '|' !in keys[i] {
      assert IsMetachar('|');
    }
    PatternRoundTrip(f.mark, keys);
  }

  // ------------------------------------------------------------ properties

  /** A run of n marks followed by an alternative: an even run becomes half the
      marks and the key as literal text, an odd run half the marks (rounded
      down) and the handler's text. */
  lemma EscapeParity<T>(mark: char, alts: seq<string>, routing: Routing<T>, n: nat, tail: string, v: T)
    requires n >= 1 && (tail == [] || tail[0] != mark)
    requires FirstAlternative(alts, tail).Some?
    requires n % 2 == 1 ==> Lookup(routing, alts[FirstAlternative(alts, tail).value]).Some?
    ensures var key := alts[FirstAlternative(alts, tail).value];
            var rest := Expand(mark, alts, routing, tail[|key|..], v, Intended);
            Expand(mark, alts, routing, Repeat(mark, n) + tail, v, Intended)
            == if n % 2 == 0 then Prefix(Repeat(mark, n / 2) + key, rest)
               else Prefix(Repeat(mark, n / 2) + Lookup(routing, key).value(v), rest)
  {
    DirectiveShape(mark, alts, routing, n, tail, v, Intended);
  }

  /** The same run under the code as written: an odd run loses its marks. */
  lemma EscapeParityAsWritten<T>(mark: char, alts: seq<string>, routing: Routing<T>, n: nat, tail: string, v: T)
    requires n >= 1 && (tail == [] || tail[0] != mark)
    requires FirstAlternative(alts, tail).Some?
    requires n % 2 == 1 ==> Lookup(routing, alts[FirstAlternative(alts, tail).value]).Some?
    ensures var key := alts[FirstAlternative(alts, tail).value];
            var rest := Expand(mark, alts, routing, tail[|key|..], v, AsWritten);
            Expand(mark, alts, routing, Repeat(mark, n) + tail, v, AsWritten)
            == if n % 2 == 0 then Prefix(Repeat(mark, n / 2) + key, rest)
               else Prefix(Lookup(routing, key).value(v), rest)
  {
    DirectiveShape(mark, alts, routing, n, tail, v, AsWritten);
  }

  lemma DirectiveShape<T>(mark: char, alts: seq<string>, routing: Routing<T>, n: nat, tail: string, v: T, mode: Escaping)
    requires n >= 1 && (tail == [] || tail[0] != mark)
    requires FirstAlternative(alts, tail).Some?
    ensures var key := alts[FirstAlternative(alts, tail).value];
            var rep := ReplaceDirective(mark, n, key, routing, v, mode);
            |key| <= |tail|
            && Expand(mark, alts, routing, Repeat(mark, n) + tail, v, mode)
               == if rep.Failure? then Failure(rep.error)
                  else Prefix(rep.value, Expand(mark, alts, routing, tail[|key|..], v, mode))
  {
    var msg := Repeat(mark, n) + tail;
    var a := FirstAlternative(alts, tail).value;
    DropRun(mark, n, tail, |alts[a]|);
    RunDirective(mark, alts, n, tail);
    ExpandAtDirective(mark, alts, routing, msg, v, mode, n, a, tail[|alts[a]|..]);
  }

  /** A run of n marks before an alternative is a directive. */
  lemma RunDirective(mark: char, alts: seq<string>, n: nat, tail: string)
    requires n >= 1 && (tail == [] || tail[0] != mark)
    requires FirstAlternative(alts, tail).Some?
    ensures Directive(mark, alts, Repeat(mark, n) + tail) == Some((n, FirstAlternative(alts, tail).value))
  {
    var msg := Repeat(mark, n) + tail;
    RunLengthOf(msg, mark, n);
    assert msg[n..] == tail;
  }

  /** Expand at a directive: its replacement, then the rest of the message. */
  lemma ExpandAtDirective<T>(mark: char, alts: seq<string>, routing: Routing<T>, msg: string, v: T, mode: Escaping,
                             n: nat, a: nat, after: string)
    requires Directive(mark, alts, msg) == Some((n, a))
    requires after == msg[n + |alts[a]|..]
    ensures var rep := ReplaceDirective(mark, n, alts[a], routing, v, mode);
            Expand(mark, alts, routing, msg, v, mode)
            == if rep.Failure? then Failure(rep.error)
               else Prefix(rep.value, Expand(mark, alts, routing, after, v, mode))
  {
    assert msg != [];
  }

  lemma DropRun(mark: char, n: nat, tail: string, k: nat)
    requires k <= |tail|
    ensures (Repeat(mark, n) + tail)[n + k..] == tail[k..]
  {
  }

  /** A run of n marks and the alternative at index i, then rest: the directive's
      replacement, then the rest expanded. */
  lemma KeyRun<T>(mark: char, alts: seq<string>, routing: Routing<T>, msg: string, i: nat, n: nat, rest: string,
                  v: T, mode: Escaping, text: string)
    requires n >= 1 && i < |alts| && alts[i] != [] && alts[i][0] != mark
    requires msg == Repeat(mark, n) + (alts[i] + rest)
    requires FirstAlternative(alts, alts[i] + rest) == Some(i)
    requires ReplaceDirective(mark, n, alts[i], routing, v, mode) == Success(text)
    ensures Expand(mark, alts, routing, msg, v, mode) == Prefix(text, Expand(mark, alts, routing, rest, v, mode))
  {
    var tail := alts[i] + rest;
    DropRun(mark, n, tail, |alts[i]|);
    assert tail[|alts[i]|..] == rest;
    RunDirective(mark, alts, n, tail);
    ExpandAtDirective(mark, alts, routing, msg, v, mode, n, i, rest);
  }

  /** Marks followed by no key are copied as they are, however many there are. */
  lemma {:induction false} UnmatchedRun<T>(mark: char, alts: seq<string>, routing: Routing<T>, n: nat, tail: string, v: T, mode: Escaping)
    requires tail == [] || tail[0] != mark
    requires FirstAlternative(alts, tail).None?
    ensures Expand(mark, alts, routing, Repeat(mark, n) + tail, v, mode)
         == Prefix(Repeat(mark, n), Expand(mark, alts, routing, tail, v, mode))
    decreases n
  {
    if n == 0 {
      assert Repeat(mark, 0) + tail == tail;
      PrefixEmpty(Expand(mark, alts, routing, tail, v, mode));
    } else {
      var msg := Repeat(mark, n) + tail;
      RunLengthOf(msg, mark, n);
      assert msg[n..] == tail;
      assert msg[1..] == Repeat(mark, n - 1) + tail;
      UnmatchedRun(mark, alts, routing, n - 1, tail, v, mode);
      PrefixPrefix([mark], Repeat(mark, n - 1), Expand(mark, alts, routing, tail, v, mode));
      assert [mark] + Repeat(mark, n - 1) == Repeat(mark, n);
    }
  }

  /** Text without the mark is returned as it is. */
  lemma {:induction false} ExpandWithoutMark<T>(mark: char, alts: seq<string>, routing: Routing<T>, msg: string, v: T, mode: Escaping)
    requires mark !in msg
    ensures Expand(mark, alts, routing, msg, v, mode) == Success(msg)
    decreases |msg|
  {
    if msg != [] {
      assert RunLength(msg, mark) == 0;
      ExpandWithoutMark(mark, alts, routing, msg[1..], v, mode);
      assert [msg[0]] + msg[1..] == msg;
    }
  }

  /** Text without the mark in front of a message is copied, and the message
      after it expands as it would alone: a directive may follow plain text. */
  lemma {:induction false} ExpandAppend<T>(mark: char, alts: seq<string>, routing: Routing<T>, a: string, b: string,
                                           v: T, mode: Escaping)
    requires mark !in a
    ensures Expand(mark, alts, routing, a + b, v, mode) == Prefix(a, Expand(mark, alts, routing, b, v, mode))
    decreases |a|
  {
    var rest := Expand(mark, alts, routing, b, v, mode);
    if a == [] {
      assert a + b == b;
      PrefixEmpty(rest);
    } else {
      var msg := a + b;
      assert msg[0] == a[0] && RunLength(msg, mark) == 0;
      assert msg[1..] == a[1..] + b;
      ExpandAppend(mark, alts, routing, a[1..], b, v, mode);
      PrefixPrefix([a[0]], a[1..], rest);
      assert [a[0]] + a[1..] == a;
    }
  }

  /** When every alternative has a handler, formatting never throws. */
  lemma {:induction false} ExpandNeverFails<T>(mark: char, alts: seq<string>, routing: Routing<T>, msg: string, v: T, mode: Escaping)
    requires forall i :: 0 <= i < |alts| ==> alts[i] in Keys(routing)
    ensures Expand(mark, alts, routing, msg, v, mode).Success?
    decreases |msg|
  {
    if msg != [] {
      var d := Directive(mark, alts, msg);
      if d.None? {
        ExpandNeverFails(mark, alts, routing, msg[1..], v, mode);
      } else {
        LookupSpec(routing, alts[d.value.1]);
        ExpandNeverFails(mark, alts, routing, msg[d.value.0 + |alts[d.value.1]|..], v, mode);
      }
    }
  }

  /** A formatter built from a non-empty table never throws `Unknown Format`. */
  lemma FormatNeverFails<T>(f: DateLikeFormatter<T>, msg: string, v: T)
    requires f.Valid() && |f.routing| > 0
    ensures Expand(f.mark, PatternAlternatives(f.re), f.routing, msg, v, Intended).Success?
  {
    ValidAlternatives(f);
    ExpandNeverFails(f.mark, PatternAlternatives(f.re), f.routing, msg, v, Intended);
  }

  /** With an empty table the key group is empty, so a lone mark is a directive
      with the empty key, which has no handler. */
  lemma EmptyTableRejectsLoneMark<T>(mark: char, v: T, mode: Escaping)
    ensures Expand(mark, [""], [], [mark], v, mode) == Failure(UnknownFormat(""))
  {
    var msg := [mark];
    RunLengthOf(msg, mark, 1);
    assert msg[1..] == [];
    assert IsPrefix("", msg[1..]);
  }

  /** With one-letter keys the alternative matched is the one naming the next character. */
  lemma {:induction false} FirstSingleChar(alts: seq<string>, s: string, i: nat)
    requires s != [] && i < |alts| && alts[i] == [s[0]]
    requires forall j :: 0 <= j < i ==> |alts[j]| == 1 && alts[j] != alts[i]
    ensures FirstAlternative(alts, s) == Some(i)
  {
    assert s[..1] == [s[0]];
    if i > 0 {
      assert !IsPrefix(alts[0], s);
      forall j | 0 <= j < i - 1 ensures |alts[1..][j]| == 1 && alts[1..][j] != alts[1..][i - 1] {
        assert alts[1..][j] == alts[j + 1];
      }
      FirstSingleChar(alts[1..], s, i - 1);
    }
  }

  /** The handler found for an entry's key is that entry's handler when no earlier
      entry has the same key. */
  lemma {:induction false} LookupAt<T>(routing: Routing<T>, i: nat)
    requires i < |routing| && forall j :: 0 <= j < i ==> routing[j].0 != routing[i].0
    ensures Lookup(routing, routing[i].0) == Some(routing[i].1)
  {
    if i > 0 {
      forall j | 0 <= j < i - 1 ensures routing[1..][j].0 != routing[1..][i - 1].0 {
        assert routing[1..][j] == routing[j + 1];
      }
      LookupAt(routing[1..], i - 1);
    }
  }
}
