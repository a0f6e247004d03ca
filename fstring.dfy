/** The positional placeholder formatter `format(msg, ...args)` of format.js:
    every `{idx[:[align]width[.precision]key]}` in the template is replaced by
    the argument at `idx`, converted by the key and padded to the width. */
module FString {
  import opened Results
  import opened Text

  /** Precision handed to the floating-point keys when a placeholder gives none. */
  const DefaultPrecision: nat := 6

  /** Number.MAX_SAFE_INTEGER: every integer up to it is held exactly by a JavaScript number. */
  const MaxSafeInteger: int := 0x1F_FFFF_FFFF_FFFF

  type SafeInteger = n: int | -MaxSafeInteger <= n <= MaxSafeInteger

  /** The arguments the model handles: JavaScript integers and strings. */
  datatype Value = Int(n: SafeInteger) | Str(s: string)

  /** The twelve format keys of the placeholder grammar. */
  datatype Key =
    | StringKey        // s
    | BinaryKey        // b
    | CodePointKey     // c
    | IntegerKey       // d
    | OctalKey         // o
    | HexKey           // x
    | HexUpperKey      // X
    | ExponentKey      // e
    | ExponentUpperKey // E
    | FixedKey         // f
    | FixedUpperKey    // F
    | PercentKey       // %

  function KeyOf(c: char): Option<Key>
  {
    match c
    case 's' => Some(StringKey)
    case 'b' => Some(BinaryKey)
    case 'c' => Some(CodePointKey)
    case 'd' => Some(IntegerKey)
    case 'o' => Some(OctalKey)
    case 'x' => Some(HexKey)
    case 'X' => Some(HexUpperKey)
    case 'e' => Some(ExponentKey)
    case 'E' => Some(ExponentUpperKey)
    case 'f' => Some(FixedKey)
    case 'F' => Some(FixedUpperKey)
    case '%' => Some(PercentKey)
    case _ => None
  }

  function KeyChar(k: Key): (c: char)
    ensures KeyOf(c) == Some(k) && !IsDecimalDigit(c) && c != '.'
  {
    match k
    case StringKey => 's'
    case BinaryKey => 'b'
    case CodePointKey => 'c'
    case IntegerKey => 'd'
    case OctalKey => 'o'
    case HexKey => 'x'
    case HexUpperKey => 'X'
    case ExponentKey => 'e'
    case ExponentUpperKey => 'E'
    case FixedKey => 'f'
    case FixedUpperKey => 'F'
    case PercentKey => '%'
  }

  datatype AlignKind = Left | Center | Right

  function AlignOf(c: char): Option<AlignKind>
  {
    match c
    case '<' => Some(Left)
    case '^' => Some(Center)
    case '>' => Some(Right)
    case _ => None
  }

  function AlignChar(a: AlignKind): (c: char)
    ensures AlignOf(c) == Some(a) && KeyOf(c).None? && !IsDecimalDigit(c) && c != '.'
  {
    match a
    case Left => '<'
    case Center => '^'
    case Right => '>'
  }

  /** The part after the colon. An empty width is `None`; the key is never absent. */
  datatype Spec = Spec(align: Option<AlignKind>, width: Option<nat>, precision: Option<nat>, key: Key)

  /** One placeholder: the argument index and, when a colon part is present, its spec. */
  datatype Field = Field(index: nat, spec: Option<Spec>)

  /** The JavaScript built-ins behind the floating-point and code-point keys. */
  datatype Builtin = FromCodePoint | ToExponential | ToFixed | PercentToFixed

  /** What a built-in gives for a value and a precision; `None` when it throws. */
  type External = (Builtin, Value, nat) -> Option<string>

  datatype FormatError =
    | NotAnInteger(index: nat, key: Key)
    | BuiltinFailed(index: nat, key: Key)

  // ---------------------------------------------------------------- parsing

  /** The length of the run of ASCII digits at the start of s. */
  function DigitSpan(s: string): (n: nat)
    ensures n <= |s| && IsDecimalNumeral(s[..n]) && (n < |s| ==> !IsDecimalDigit(s[n]))
  {
    if s == [] || !IsDecimalDigit(s[0]) then 0 else 1 + DigitSpan(s[1..])
  }

  /** `(?<align><|\^|>)?`: the alignment and the length matched (0 or 1). */
  function ParseAlign(t: string): (r: (Option<AlignKind>, nat))
    ensures r.1 <= |t|
  {
    if t != [] && AlignOf(t[0]).Some? then (AlignOf(t[0]), 1) else (None, 0)
  }

  /** `[0-9]*` read as a number; the empty match is `None` (parseInt gives NaN). */
  function ParseNumber(t: string): (r: (Option<nat>, nat))
    ensures r.1 == DigitSpan(t) <= |t|
  {
    var w := DigitSpan(t);
    (NumberValue(t[..w]), w)
  }

  /** `(?:\.(?<precision>[0-9]+))?`: nothing is matched when no digit follows the dot. */
  function ParsePrecision(t: string): (r: (Option<nat>, nat))
    ensures r.1 <= |t|
  {
    if t != [] && t[0] == '.' && DigitSpan(t[1..]) > 0 then
      var q := DigitSpan(t[1..]);
      (NumberValue(t[1..][..q]), 1 + q)
    else (None, 0)
  }

  /** Matches `[<^>]?[0-9]*(\.[0-9]+)?key` at the start of t; the length matched. */
  function ParseSpec(t: string): (r: Option<(Spec, nat)>)
    ensures r.Some? ==> r.value.1 <= |t|
  {
    var align := ParseAlign(t);
    var width := ParseNumber(t[align.1..]);
    var precision := ParsePrecision(t[align.1 + width.1..]);
    var k := align.1 + width.1 + precision.1;
    if k < |t| && KeyOf(t[k]).Some? then
      Some((Spec(align.0, width.0, precision.0, KeyOf(t[k]).value), k + 1))
    else
      None
  }

  /** Matches the placeholder grammar of format.js:4 at the start of s; the field and the
      length matched. A `{` where this fails is ordinary text. */
  function ParseField(s: string): (r: Option<(Field, nat)>)
    ensures r.Some? ==> 3 <= r.value.1 <= |s| && s[0] == '{' && s[r.value.1 - 1] == '}'
  {
    if s == [] || s[0] != '{' then None
    else
      var index := ParseNumber(s[1..]);
      var e := 1 + index.1;
      if index.0.None? || e == |s| then None
      else
        if s[e] == '}' then Some((Field(index.0.value, None), e + 1))
        else if s[e] != ':' then None
        else SpecField(index.0.value, s, e + 1)
  }

  /** The `:spec}` part of a placeholder, from position start of s (just after the colon). */
  function SpecField(index: nat, s: string, start: nat): (r: Option<(Field, nat)>)
    requires start <= |s|
    ensures r.Some? ==> start < r.value.1 <= |s| && s[r.value.1 - 1] == '}'
  {
    match ParseSpec(s[start..])
    case None => None
    case Some((spec, m)) =>
      var close := start + m;
      if close < |s| && s[close] == '}' then Some((Field(index, Some(spec)), close + 1))
      else None
  }

  // ------------------------------------------------------------ the grammar

  /** What the groups `align`, `width`, `precision` and `fmt` of format.js:4
      capture after the colon: `width` may be empty, and `precision` is absent
      when its optional group takes no part in the match. */
  datatype SpecText = SpecText(align: Option<AlignKind>, width: string, precision: Option<string>, key: Key)

  /** What the groups of one placeholder capture: `idx` and, when the colon part
      takes part in the match, the groups after the colon. */
  datatype FieldText = FieldText(index: string, spec: Option<SpecText>)

  /** `[0-9]+`. */
  predicate IsDigits(s: string)
  {
    s != [] && IsDecimalNumeral(s)
  }

  predicate IsSpecText(g: SpecText)
  {
    IsDecimalNumeral(g.width) && (g.precision.Some? ==> IsDigits(g.precision.value))
  }

  predicate IsFieldText(g: FieldText)
  {
    IsDigits(g.index) && (g.spec.Some? ==> IsSpecText(g.spec.value))
  }

  function AlignText(align: Option<AlignKind>): string
  {
    if align.Some? then [AlignChar(align.value)] else []
  }

  function PrecisionWord(precision: Option<string>): string
  {
    if precision.Some? then "." + precision.value else []
  }

  /** The text after the colon that the groups make up. */
  function SpecWord(g: SpecText): string
  {
    AlignText(g.align) + g.width + PrecisionWord(g.precision) + [KeyChar(g.key)]
  }

  /** The placeholder the groups make up: a word of the grammar of format.js:4. */
  function Word(g: FieldText): string
  {
    "{" + g.index + (if g.spec.Some? then ":" + SpecWord(g.spec.value) else "") + "}"
  }

  /** `parseInt` of a `[0-9]*` group; the empty text gives NaN, here `None`. */
  function NumberValue(d: string): Option<nat>
    requires IsDecimalNumeral(d)
  {
    if d == [] then None else Some(ReadDigits(d, 10))
  }

  /** The spec the callback of format.js:15-98 reads from the groups. */
  function SpecMeaning(g: SpecText): Spec
    requires IsSpecText(g)
  {
    Spec(g.align, NumberValue(g.width), if g.precision.Some? then NumberValue(g.precision.value) else None, g.key)
  }

  /** The field the callback reads from the groups: `parseInt(idx)` and the spec. */
  function Meaning(g: FieldText): Field
    requires IsFieldText(g)
  {
    Field(ReadDigits(g.index, 10), if g.spec.Some? then Some(SpecMeaning(g.spec.value)) else None)
  }

  /** The groups of the placeholder the scanner matches at the start of s. */
  function GroupsOf(s: string): FieldText
    requires ParseField(s).Some?
  {
    var e := 1 + ParseNumber(s[1..]).1;
    FieldText(s[1..e], if s[e] == '}' then None else Some(SpecGroupsOf(s[e + 1..])))
  }

  /** The groups after the colon of the spec matched at the start of t. */
  function SpecGroupsOf(t: string): SpecText
    requires ParseSpec(t).Some?
  {
    var a := ParseAlign(t).1;
    var w := ParseNumber(t[a..]).1;
    var q := ParsePrecision(t[a + w..]).1;
    SpecText(ParseAlign(t).0, t[a..a + w], if q == 0 then None else Some(t[a + w + 1..a + w + q]),
             KeyOf(t[a + w + q]).value)
  }

  function NumberText(n: Option<nat>): string
  {
    if n.Some? then Decimal(n.value) else []
  }

  /** The groups of the shortest placeholder text for a spec: numbers without leading zeros. */
  function CanonicalSpec(spec: Spec): SpecText
  {
    SpecText(spec.align, NumberText(spec.width),
             if spec.precision.Some? then Some(Decimal(spec.precision.value)) else None, spec.key)
  }

  function Canonical(f: Field): FieldText
  {
    FieldText(Decimal(f.index), if f.spec.Some? then Some(CanonicalSpec(f.spec.value)) else None)
  }

  /** The canonical text of a spec. */
  function UnparseSpec(spec: Spec): string
  {
    SpecWord(CanonicalSpec(spec))
  }

  /** The canonical text of a field, the inverse of ParseField. */
  function Unparse(f: Field): string
  {
    Word(Canonical(f))
  }

  // ------------------------------------------------------------- conversion

  /** `v.toString()`. */
  function ToString(v: Value): string
  {
    match v
    case Int(n) => Decimal(n)
    case Str(s) => s
  }

  /** `Math.round(v).toString(base)`, and `v.toFixed(0)` for base 10, of an integer. */
  function IntegerIn(v: Value, base: nat, index: nat, key: Key): Result<string, FormatError>
    requires 2 <= base <= 16
  {
    match v
    case Int(n) => Success(Radix(n, base))
    case Str(_) => Failure(NotAnInteger(index, key))
  }

  function CallBuiltin(ext: External, b: Builtin, v: Value, precision: nat, index: nat, key: Key): Result<string, FormatError>
  {
    match ext(b, v, precision)
    case Some(s) => Success(s)
    case None => Failure(BuiltinFailed(index, key))
  }

  function Upper(r: Result<string, FormatError>): Result<string, FormatError>
  {
    if r.Success? then Success(AsciiUpper(r.value)) else r
  }

  /** The `switch(fmt)` of format.js:39-78: the unpadded text for one key. */
  function Convert(key: Key, v: Value, precision: nat, index: nat, ext: External): Result<string, FormatError>
  {
    match key
    case StringKey => Success(ToString(v))
    case BinaryKey => IntegerIn(v, 2, index, key)
    case CodePointKey => CallBuiltin(ext, FromCodePoint, v, precision, index, key)
    case IntegerKey => IntegerIn(v, 10, index, key)
    case OctalKey => IntegerIn(v, 8, index, key)
    case HexKey => IntegerIn(v, 16, index, key)
    case HexUpperKey => Upper(IntegerIn(v, 16, index, key))
    case ExponentKey => CallBuiltin(ext, ToExponential, v, precision, index, key)
    case ExponentUpperKey => Upper(CallBuiltin(ext, ToExponential, v, precision, index, key))
    case FixedKey => CallBuiltin(ext, ToFixed, v, precision, index, key)
    case FixedUpperKey => Upper(CallBuiltin(ext, ToFixed, v, precision, index, key))
    case PercentKey => CallBuiltin(ext, PercentToFixed, v, precision, index, key)
  }

  /** `parseInt(width)`; an empty width is NaN, which padStart and padEnd read as 0. */
  function EffectiveWidth(width: Option<nat>): nat
  {
    if width.Some? then width.value else 0
  }

  /** The `switch(align)` of format.js:82-94. */
  function AlignField(align: Option<AlignKind>, vv: string, width: nat): (r: string)
    ensures JsLength(r) == Max(JsLength(vv), width)
    ensures width <= JsLength(vv) ==> r == vv
    ensures align == Some(Left) ==> PaddedBack(r, vv, ' ')
    ensures align.None? || align == Some(Right) ==> PaddedFront(r, vv, ' ')
  {
    match align
    case Some(Left) =>
      if width <= JsLength(vv) then PadWithin(vv, width, ' '); PadEnd(vv, width, ' ')
      else PadEnd(vv, width, ' ')
    case Some(Center) =>
      CenterWithin(vv, width);
      PadEnd(PadStart(vv, width / 2, ' '), width, ' ')
    case _ =>
      if width <= JsLength(vv) then PadWithin(vv, width, ' '); PadStart(vv, width, ' ')
      else PadStart(vv, width, ' ')
  }

  /** Centering pads to the full width, and not at all when the text is already that wide. */
  lemma CenterWithin(vv: string, width: nat)
    ensures JsLength(PadEnd(PadStart(vv, width / 2, ' '), width, ' ')) == Max(JsLength(vv), width)
    ensures width <= JsLength(vv) ==> PadEnd(PadStart(vv, width / 2, ' '), width, ' ') == vv
  {
    if width <= JsLength(vv) {
      PadWithin(vv, width / 2, ' ');
      PadWithin(vv, width, ' ');
    }
  }

  /** What replaces one placeholder (the callback of format.js:15-98). */
  function Replacement(field: Field, args: seq<Value>, ext: External): Result<string, FormatError>
  {
    if field.index >= |args| then Success("undefined")
    else
      var v := args[field.index];
      match field.spec
      case None => Success(ToString(v))
      case Some(spec) =>
        var precision := if spec.precision.Some? then spec.precision.value else DefaultPrecision;
        var vv := Convert(spec.key, v, precision, field.index, ext);
        if vv.Failure? then vv
        else Success(AlignField(spec.align, vv.value, EffectiveWidth(spec.width)))
  }

  /** `msg.replaceAll(ArgExp, callback)`: the template with every placeholder replaced,
      left to right; the first failing placeholder fails the whole call. */
  function Render(template: string, args: seq<Value>, ext: External): Result<string, FormatError>
    decreases |template|
  {
    if template == [] then Success([])
    else
      match ParseField(template)
      case Some((field, n)) =>
        var rep := Replacement(field, args, ext);
        if rep.Failure? then Failure(rep.error)
        else Prefix(rep.value, Render(template[n..], args, ext))
      case None => Prefix([template[0]], Render(template[1..], args, ext))
  }

  /** `format(msg, ...args)` of format.js:13-99, scanning the template once. */
  method Format(template: string, args: seq<Value>, ext: External) returns (r: Result<string, FormatError>)
    ensures r == Render(template, args, ext)
  {
    var out := "";
    var rest := template;
    ghost var total := Render(template, args, ext);
    PrefixEmpty(total);
    while rest != []
      invariant total == Prefix(out, Render(rest, args, ext))
      decreases |rest|
    {
      var step, next := ScanStep(total, out, rest, args, ext);
      if step.Failure? {
        return step;
      }
      out, rest := step.value, next;
    }
    EndStep(total, out, args, ext);
    return Success(out);
  }

  /** One step of the scan at the start of rest, the part of the template not yet
      scanned: a placeholder there is replaced, any other character is copied. The
      output so far with this step's text appended and what is left of the template,
      or the failure that ends the scan. */
  method ScanStep(ghost total: Result<string, FormatError>, out: string, rest: string,
                  args: seq<Value>, ext: External)
    returns (r: Result<string, FormatError>, next: string)
    requires rest != [] && total == Prefix(out, Render(rest, args, ext))
    ensures |next| < |rest|
    ensures r.Failure? ==> r == total
    ensures r.Success? ==> total == Prefix(r.value, Render(next, args, ext))
  {
    match ParseField(rest)
    case Some((field, n)) =>
      r, next := ReplaceAt(total, out, rest, field, n, args, ext);
    case None =>
      TextStep(out, rest, args, ext);
      r, next := Success(out + [rest[0]]), rest[1..];
  }

  /** The callback at a placeholder at the start of rest: the output so far with
      the replacement appended, or the failure that ends the scan. */
  method ReplaceAt(ghost total: Result<string, FormatError>, out: string, rest: string,
                   field: Field, n: nat, args: seq<Value>, ext: External)
    returns (r: Result<string, FormatError>, next: string)
    requires ParseField(rest) == Some((field, n))
    requires total == Prefix(out, Render(rest, args, ext))
    ensures |next| < |rest|
    ensures r.Failure? ==> r == total
    ensures r.Success? ==> total == Prefix(r.value, Render(next, args, ext))
  {
    var rep := Replacement(field, args, ext);
    if rep.Failure? {
      FailStep(out, rest, field, n, args, ext);
      return Failure(rep.error), rest[n..];
    }
    FieldStep(out, rest, field, n, args, ext);
    return Success(out + rep.value), rest[n..];
  }

  // ----------------------------------------------------------------- lemmas

  /** One placeholder step of Format's scan. */
  lemma FieldStep(out: string, rest: string, field: Field, n: nat, args: seq<Value>, ext: External)
    requires ParseField(rest) == Some((field, n))
    requires Replacement(field, args, ext).Success?
    ensures n <= |rest|
    ensures Prefix(out, Render(rest, args, ext))
         == Prefix(out + Replacement(field, args, ext).value, Render(rest[n..], args, ext))
  {
    PrefixPrefix(out, Replacement(field, args, ext).value, Render(rest[n..], args, ext));
  }

  /** A placeholder whose replacement fails ends Format's scan with that failure. */
  lemma FailStep(out: string, rest: string, field: Field, n: nat, args: seq<Value>, ext: External)
    requires ParseField(rest) == Some((field, n))
    requires Replacement(field, args, ext).Failure?
    ensures Prefix(out, Render(rest, args, ext)) == Failure(Replacement(field, args, ext).error)
  {
  }

  /** One step of Format's scan over a character that starts no placeholder. */
  lemma TextStep(out: string, rest: string, args: seq<Value>, ext: External)
    requires rest != [] && ParseField(rest).None?
    ensures Prefix(out, Render(rest, args, ext)) == Prefix(out + [rest[0]], Render(rest[1..], args, ext))
  {
    PrefixPrefix(out, [rest[0]], Render(rest[1..], args, ext));
  }

  /** At the end of the template Format's scan has the whole result. */
  lemma EndStep(total: Result<string, FormatError>, out: string, args: seq<Value>, ext: External)
    requires total == Prefix(out, Render([], args, ext))
    ensures total == Success(out)
  {
    assert out + [] == out;
  }

  lemma {:induction false} DigitSpanOf(d: string, r: string)
    requires IsDecimalNumeral(d) && (r == [] || !IsDecimalDigit(r[0]))
    ensures DigitSpan(d + r) == |d|
    decreases |d|
  {
    if d == [] {
      assert d + r == r;
    } else {
      assert (d + r)[0] == d[0];
      assert (d + r)[1..] == d[1..] + r;
      DigitSpanOf(d[1..], r);
    }
  }

  lemma ParseAlignText(align: Option<AlignKind>, rest: string)
    requires rest != [] && AlignOf(rest[0]).None?
    ensures ParseAlign(AlignText(align) + rest) == (align, |AlignText(align)|)
  {
    assert align.None? ==> AlignText(align) + rest == rest;
  }

  /** Digits followed by a non-digit are read as parseInt reads them. */
  lemma ParseNumberDigits(d: string, rest: string)
    requires IsDecimalNumeral(d) && (rest == [] || !IsDecimalDigit(rest[0]))
    ensures ParseNumber(d + rest) == (NumberValue(d), |d|)
  {
    DigitSpanOf(d, rest);
    assert (d + rest)[..|d|] == d;
  }

  lemma ParsePrecisionWord(precision: Option<string>, rest: string)
    requires precision.Some? ==> IsDigits(precision.value)
    requires rest != [] && !IsDecimalDigit(rest[0]) && rest[0] != '.'
    ensures ParsePrecision(PrecisionWord(precision) + rest)
         == (if precision.Some? then NumberValue(precision.value) else None, |PrecisionWord(precision)|)
  {
    if precision.Some? {
      ParsePrecisionDigits(precision.value, rest);
    } else {
      assert PrecisionWord(precision) + rest == rest;
    }
  }

  /** A dot and digits are read back as the precision those digits denote. */
  lemma ParsePrecisionDigits(p: string, rest: string)
    requires IsDigits(p) && rest != [] && !IsDecimalDigit(rest[0])
    ensures ParsePrecision("." + p + rest) == (NumberValue(p), 1 + |p|)
  {
    var t := "." + p + rest;
    assert t[1..] == p + rest;
    DigitSpanOf(p, rest);
    assert t[1..][..|p|] == p;
  }

  /** Any text after the colon that groups make up is matched back to what the
      groups mean, whatever follows it. */
  lemma {:induction false} ParseSpecWord(g: SpecText, rest: string)
    requires IsSpecText(g)
    ensures ParseSpec(SpecWord(g) + rest) == Some((SpecMeaning(g), |SpecWord(g)|))
  {
    var t, a, w, p := SpecWord(g) + rest, |AlignText(g.align)|, |g.width|, |PrecisionWord(g.precision)|;
    SpecWordParts(g, rest, t, a, w, p);
    ParseSpecFromParts(t, SpecMeaning(g), a, w, p, |SpecWord(g)|);
  }

  /** Each group of the spec text is matched back to its part of the spec. */
  lemma {:induction false} SpecWordParts(g: SpecText, rest: string, t: string, a: nat, w: nat, p: nat)
    requires IsSpecText(g) && t == SpecWord(g) + rest
    requires a == |AlignText(g.align)| && w == |g.width| && p == |PrecisionWord(g.precision)|
    ensures && a + w + p + 1 == |SpecWord(g)|
            && ParseAlign(t) == (g.align, a)
            && ParseNumber(t[a..]) == (SpecMeaning(g).width, w)
            && ParsePrecision(t[a + w..]) == (SpecMeaning(g).precision, p)
            && KeyOf(t[a + w + p]) == Some(g.key)
  {
    var W := g.width;
    var P := PrecisionWord(g.precision);
    var K := [KeyChar(g.key)] + rest;
    SpecWordSplit(g, rest);
    AlignPart(g, W + (P + K));
    NumberPart(g, P + K);
    ParsePrecisionWord(g.precision, K);
  }

  lemma SpecWordSplit(g: SpecText, rest: string)
    ensures var A := AlignText(g.align);
            var W := g.width;
            var P := PrecisionWord(g.precision);
            var K := [KeyChar(g.key)] + rest;
            var t := SpecWord(g) + rest;
            && t == A + (W + (P + K))
            && t[|A|..] == W + (P + K)
            && t[|A| + |W|..] == P + K
            && t[|A| + |W| + |P|] == KeyChar(g.key)
  {
  }

  lemma AlignPart(g: SpecText, wtail: string)
    requires IsSpecText(g) && wtail != []
    requires wtail[0] == (if g.width != [] then g.width[0] else if g.precision.Some? then '.' else KeyChar(g.key))
    ensures ParseAlign(AlignText(g.align) + wtail) == (g.align, |AlignText(g.align)|)
  {
    if g.width != [] {
      assert IsDecimalDigit(g.width[0]);
    }
    ParseAlignText(g.align, wtail);
  }

  lemma NumberPart(g: SpecText, ptail: string)
    requires IsSpecText(g)
    requires ptail != [] && (ptail[0] == '.' || ptail[0] == KeyChar(g.key))
    ensures ParseNumber(g.width + ptail) == (SpecMeaning(g).width, |g.width|)
  {
    ParseNumberDigits(g.width, ptail);
  }

  lemma ParseSpecFromParts(t: string, spec: Spec, a: nat, w: nat, p: nat, n: nat)
    requires n == a + w + p + 1 <= |t|
    requires ParseAlign(t) == (spec.align, a)
    requires ParseNumber(t[a..]) == (spec.width, w)
    requires ParsePrecision(t[a + w..]) == (spec.precision, p)
    requires KeyOf(t[a + w + p]) == Some(spec.key)
    ensures ParseSpec(t) == Some((spec, n))
  {
  }

  /** Completeness: every word of the grammar is matched, whatever text follows
      it, with its full length and the field its groups mean. */
  lemma {:induction false} ParseFieldWord(g: FieldText, rest: string)
    requires IsFieldText(g)
    ensures ParseField(Word(g) + rest) == Some((Meaning(g), |Word(g)|))
  {
    if g.spec.Some? {
      ParseSpecFieldWord(g.index, g.spec.value, rest);
    } else {
      ParsePlainFieldWord(g.index, rest);
    }
  }

  lemma IndexPart(index: string, tail: string)
    requires IsDigits(index) && tail != [] && (tail[0] == ':' || tail[0] == '}')
    ensures ParseNumber(index + tail) == (Some(ReadDigits(index, 10)), |index|)
  {
    ParseNumberDigits(index, tail);
  }

  lemma ParsePlainFieldWord(index: string, rest: string)
    requires IsDigits(index)
    ensures ParseField(Word(FieldText(index, None)) + rest)
         == Some((Meaning(FieldText(index, None)), |Word(FieldText(index, None))|))
  {
    var s := Word(FieldText(index, None)) + rest;
    var d := |index|;
    assert |Word(FieldText(index, None))| == d + 2 && s[0] == '{' && s[1..] == index + ("}" + rest) by {
      assert s == "{" + (index + ("}" + rest));
    }
    assert ParseNumber(s[1..]) == (Some(ReadDigits(index, 10)), d) by {
      IndexPart(index, "}" + rest);
    }
    assert s[1 + d] == '}' by {
      assert s[1..][d] == '}';
    }
    PlainFieldFromParts(s, ReadDigits(index, 10), d);
  }

  lemma ParseSpecFieldWord(index: string, g: SpecText, rest: string)
    requires IsDigits(index) && IsSpecText(g)
    ensures ParseField(Word(FieldText(index, Some(g))) + rest)
         == Some((Meaning(FieldText(index, Some(g))), |Word(FieldText(index, Some(g)))|))
  {
    var U := SpecWord(g);
    var n := |Word(FieldText(index, Some(g)))|;
    var s := Word(FieldText(index, Some(g))) + rest;
    SpecFieldShape(index, g, rest);
    IndexPart(index, ":" + (U + ("}" + rest)));
    ParseSpecWord(g, "}" + rest);
    SpecFieldAt(ReadDigits(index, 10), s, 1 + |index| + 1, SpecMeaning(g), |U|, n);
    SpecFieldFromParts(s, ReadDigits(index, 10), |index|, SpecMeaning(g), n);
  }

  lemma SpecFieldShape(index: string, g: SpecText, rest: string)
    ensures var U := SpecWord(g);
            var s := Word(FieldText(index, Some(g))) + rest;
            && |Word(FieldText(index, Some(g)))| == |index| + |U| + 3
            && s[0] == '{' && s[1..] == index + (":" + (U + ("}" + rest)))
            && s[1 + |index|] == ':' && s[|index| + 2..] == U + ("}" + rest)
            && s[|index| + 2 + |U|] == '}'
  {
    assert Word(FieldText(index, Some(g))) == "{" + index + (":" + SpecWord(g)) + "}";
    SpecFieldLayout(index, SpecWord(g), rest);
  }

  /** Where the parts of `{D:U}` followed by rest sit. */
  lemma SpecFieldLayout(D: string, U: string, rest: string)
    ensures var s := "{" + D + (":" + U) + "}" + rest;
            && |"{" + D + (":" + U) + "}"| == |D| + |U| + 3
            && s[0] == '{' && s[1..] == D + (":" + (U + ("}" + rest)))
            && s[1 + |D|] == ':' && s[|D| + 2..] == U + ("}" + rest)
            && s[|D| + 2 + |U|] == '}'
  {
    var s := "{" + D + (":" + U) + "}" + rest;
    assert s == "{" + (D + (":" + (U + ("}" + rest))));
    assert s[1..][|D|..] == ":" + (U + ("}" + rest));
    assert s[|D| + 2..][|U|] == '}';
  }

  lemma PlainFieldFromParts(s: string, index: nat, d: nat)
    requires 1 + d < |s| && s[0] == '{'
    requires ParseNumber(s[1..]) == (Some(index), d)
    requires s[1 + d] == '}'
    ensures ParseField(s) == Some((Field(index, None), d + 2))
  {
  }

  lemma SpecFieldFromParts(s: string, index: nat, d: nat, spec: Spec, n: nat)
    requires 1 + d < |s| && s[0] == '{'
    requires ParseNumber(s[1..]) == (Some(index), d)
    requires s[1 + d] == ':'
    requires SpecField(index, s, 1 + d + 1) == Some((Field(index, Some(spec)), n))
    ensures ParseField(s) == Some((Field(index, Some(spec)), n))
  {
  }

  lemma SpecFieldAt(index: nat, s: string, start: nat, spec: Spec, m: nat, n: nat)
    requires n == start + m + 1 <= |s|
    requires ParseSpec(s[start..]) == Some((spec, m))
    requires s[start + m] == '}'
    ensures SpecField(index, s, start) == Some((Field(index, Some(spec)), n))
  {
  }

  lemma AlignCharOf(c: char)
    requires AlignOf(c).Some?
    ensures AlignChar(AlignOf(c).value) == c
  {
  }

  lemma KeyCharOf(c: char)
    requires KeyOf(c).Some?
    ensures KeyChar(KeyOf(c).value) == c
  {
  }

  /** The groups of a matched spec make up exactly the text matched. */
  lemma {:induction false} SpecGroupsWord(t: string)
    requires ParseSpec(t).Some?
    ensures IsSpecText(SpecGroupsOf(t)) && SpecWord(SpecGroupsOf(t)) == t[..ParseSpec(t).value.1]
  {
    var a := ParseAlign(t).1;
    var w := ParseNumber(t[a..]).1;
    var q := ParsePrecision(t[a + w..]).1;
    SpecSpans(t, a, w, q);
    SpecGroupsFrom(t, a, w, q);
  }

  /** Where the groups of a matched spec sit in t. */
  lemma SpecSpans(t: string, a: nat, w: nat, q: nat)
    requires ParseSpec(t).Some?
    requires a == ParseAlign(t).1 && w == ParseNumber(t[a..]).1 && q == ParsePrecision(t[a + w..]).1
    ensures a + w + q < |t| && ParseSpec(t).value.1 == a + w + q + 1 && KeyOf(t[a + w + q]).Some?
    ensures SpecGroupsOf(t) == SpecText(ParseAlign(t).0, t[a..a + w],
              if q == 0 then None else Some(t[a + w + 1..a + w + q]), KeyOf(t[a + w + q]).value)
  {
  }

  /** The groups read off the spans of a spec make up the spec's text. */
  lemma SpecGroupsFrom(t: string, a: nat, w: nat, q: nat)
    requires a + w + q < |t| && KeyOf(t[a + w + q]).Some?
    requires a == ParseAlign(t).1 && w == ParseNumber(t[a..]).1 && q == ParsePrecision(t[a + w..]).1
    ensures var g := SpecText(ParseAlign(t).0, t[a..a + w],
                              if q == 0 then None else Some(t[a + w + 1..a + w + q]), KeyOf(t[a + w + q]).value);
            IsSpecText(g) && SpecWord(g) == t[..a + w + q + 1]
  {
    var g := SpecText(ParseAlign(t).0, t[a..a + w],
                      if q == 0 then None else Some(t[a + w + 1..a + w + q]), KeyOf(t[a + w + q]).value);
    AlignGroup(t);
    WidthGroup(t, a, w);
    PrecisionGroup(t, a + w, q, g.precision);
    KeyCharOf(t[a + w + q]);
    SpecGroupsAt(t, g, a, w, q);
  }

  /** The width group of a spec whose alignment ends at position a of t. */
  lemma WidthGroup(t: string, a: nat, w: nat)
    requires a <= |t| && w == ParseNumber(t[a..]).1
    ensures a + w <= |t| && IsDecimalNumeral(t[a..a + w])
  {
    assert t[a..][..w] == t[a..a + w];
  }

  /** Groups whose texts sit end to end in t make up that much of t. */
  lemma SpecGroupsAt(t: string, g: SpecText, a: nat, w: nat, q: nat)
    requires a + w + q < |t|
    requires AlignText(g.align) == t[..a] && g.width == t[a..a + w]
    requires PrecisionWord(g.precision) == t[a + w..a + w + q] && KeyChar(g.key) == t[a + w + q]
    requires IsDecimalNumeral(g.width) && (g.precision.Some? ==> IsDigits(g.precision.value))
    ensures IsSpecText(g) && SpecWord(g) == t[..a + w + q + 1]
  {
    Assemble(AlignText(g.align), g.width, PrecisionWord(g.precision), KeyChar(g.key), t, a, w, q);
  }

  lemma AlignGroup(t: string)
    ensures AlignText(ParseAlign(t).0) == t[..ParseAlign(t).1]
  {
    if ParseAlign(t).1 == 1 {
      AlignCharOf(t[0]);
    }
  }

  /** The precision group of a precision matched at position b of t, and the
      text it makes up. */
  lemma PrecisionGroup(t: string, b: nat, q: nat, p: Option<string>)
    requires b <= |t| && q == ParsePrecision(t[b..]).1
    requires p == if q == 0 then None else Some(t[b + 1..b + q])
    ensures b + q <= |t|
    ensures (p.Some? ==> IsDigits(p.value)) && PrecisionWord(p) == t[b..b + q]
  {
    var u := t[b..];
    if q > 0 {
      assert u[1..][..q - 1] == t[b + 1..b + q];
      assert t[b] == u[0] == '.';
      assert "." + t[b + 1..b + q] == t[b..b + q];
    }
  }

  /** The four pieces of a spec text laid end to end in t. */
  lemma Assemble(A: string, W: string, P: string, c: char, t: string, a: nat, w: nat, q: nat)
    requires a + w + q < |t|
    requires A == t[..a] && W == t[a..a + w] && P == t[a + w..a + w + q] && c == t[a + w + q]
    ensures A + W + P + [c] == t[..a + w + q + 1]
  {
    assert t[..a + w + q + 1] == t[..a] + t[a..a + w] + t[a + w..a + w + q] + [t[a + w + q]];
  }

  /** The groups of a matched placeholder are a word of the grammar that starts s. */
  lemma {:induction false} GroupsWord(s: string)
    requires ParseField(s).Some?
    ensures IsFieldText(GroupsOf(s)) && IsPrefix(Word(GroupsOf(s)), s)
  {
    var e := 1 + ParseNumber(s[1..]).1;
    GroupsSpans(s, e);
    if s[e] == '}' {
      PlainWordAt(s, s[1..e], e);
    } else {
      var t := s[e + 1..];
      SpecGroupsWord(t);
      SpecWordAt(s, s[1..e], e, SpecGroupsOf(t), ParseSpec(t).value.1);
    }
  }

  /** Where the groups of a matched placeholder sit in s. */
  lemma GroupsSpans(s: string, e: nat)
    requires ParseField(s).Some? && e == 1 + ParseNumber(s[1..]).1
    ensures 1 < e < |s| && s[0] == '{' && IsDigits(s[1..e])
    ensures s[e] == '}' ==> GroupsOf(s) == FieldText(s[1..e], None)
    ensures s[e] != '}' ==>
      && s[e] == ':' && ParseSpec(s[e + 1..]).Some?
      && e + 1 + ParseSpec(s[e + 1..]).value.1 < |s| && s[e + 1 + ParseSpec(s[e + 1..]).value.1] == '}'
      && GroupsOf(s) == FieldText(s[1..e], Some(SpecGroupsOf(s[e + 1..])))
  {
    assert s[1..][..e - 1] == s[1..e];
  }

  lemma PlainWordAt(s: string, index: string, e: nat)
    requires 1 <= e < |s| && s[0] == '{' && s[e] == '}' && index == s[1..e]
    ensures IsPrefix(Word(FieldText(index, None)), s)
  {
    assert Word(FieldText(index, None)) == "{" + index + "}";
    assert s[..e + 1] == [s[0]] + s[1..e] + [s[e]];
  }

  lemma SpecWordAt(s: string, index: string, e: nat, g: SpecText, m: nat)
    requires 1 <= e && e + 1 + m < |s| && s[0] == '{' && s[e] == ':' && s[e + 1 + m] == '}'
    requires index == s[1..e] && SpecWord(g) == s[e + 1..][..m]
    ensures IsPrefix(Word(FieldText(index, Some(g))), s)
  {
    assert Word(FieldText(index, Some(g))) == "{" + index + (":" + SpecWord(g)) + "}";
    assert s[..e + m + 2] == [s[0]] + s[1..e] + ([s[e]] + s[e + 1..][..m]) + [s[e + 1 + m]];
  }

  /** Soundness: what the scanner matches is a word of the grammar, and the field
      it reads is what that word's groups mean. */
  lemma ParseFieldSound(s: string)
    requires ParseField(s).Some?
    ensures var n := ParseField(s).value.1;
            && IsFieldText(GroupsOf(s)) && Word(GroupsOf(s)) == s[..n]
            && Meaning(GroupsOf(s)) == ParseField(s).value.0
  {
    var g := GroupsOf(s);
    GroupsWord(s);
    assert s == Word(g) + s[|Word(g)|..];
    ParseFieldWord(g, s[|Word(g)|..]);
  }

  /** The scanner recognises exactly the grammar of format.js:4: it matches n
      characters read as f just when those characters are a word whose groups
      mean f. */
  lemma ParseFieldExactly(s: string, f: Field, n: nat)
    ensures ParseField(s) == Some((f, n)) <==>
            n <= |s| && exists g :: IsFieldText(g) && Word(g) == s[..n] && Meaning(g) == f
  {
    if n <= |s| && exists g :: IsFieldText(g) && Word(g) == s[..n] && Meaning(g) == f {
      var g :| IsFieldText(g) && Word(g) == s[..n] && Meaning(g) == f;
      assert s == Word(g) + s[n..];
      ParseFieldWord(g, s[n..]);
    }
    if ParseField(s) == Some((f, n)) {
      ParseFieldSound(s);
    }
  }

  /** The scanner finds no placeholder at the start of s just when no word of the
      grammar starts s; the `{` there is then ordinary text. */
  lemma ParseFieldNone(s: string)
    ensures ParseField(s).None? <==> forall g :: IsFieldText(g) ==> !IsPrefix(Word(g), s)
  {
    forall g | IsFieldText(g) && IsPrefix(Word(g), s)
      ensures ParseField(s) == Some((Meaning(g), |Word(g)|))
    {
      assert s == Word(g) + s[|Word(g)|..];
      ParseFieldWord(g, s[|Word(g)|..]);
    }
    if ParseField(s).Some? {
      GroupsWord(s);
    }
  }

  /** The canonical groups of a field are groups of the grammar and mean that field. */
  lemma CanonicalMeaning(f: Field)
    ensures IsFieldText(Canonical(f)) && Meaning(Canonical(f)) == f
  {
    DecimalRoundTrip(f.index);
    if f.spec.Some? {
      CanonicalSpecMeaning(f.spec.value);
    }
  }

  lemma CanonicalSpecMeaning(spec: Spec)
    ensures IsSpecText(CanonicalSpec(spec)) && SpecMeaning(CanonicalSpec(spec)) == spec
  {
    if spec.width.Some? {
      DecimalRoundTrip(spec.width.value);
    }
    if spec.precision.Some? {
      DecimalRoundTrip(spec.precision.value);
    }
  }

  /** The canonical spec text is matched back to the same spec, whatever follows it. */
  lemma ParseSpecUnparse(spec: Spec, rest: string)
    ensures ParseSpec(UnparseSpec(spec) + rest) == Some((spec, |UnparseSpec(spec)|))
  {
    CanonicalSpecMeaning(spec);
    ParseSpecWord(CanonicalSpec(spec), rest);
  }

  /** Round trip: the canonical text of a field is matched back to that field,
      whatever text follows it. */
  lemma ParseFieldUnparse(f: Field, rest: string)
    ensures ParseField(Unparse(f) + rest) == Some((f, |Unparse(f)|))
  {
    CanonicalMeaning(f);
    ParseFieldWord(Canonical(f), rest);
  }

  /** Leading zeros are allowed by the grammar and ignored by parseInt: `{00}` is
      argument 0, and `{0:04.02d}` has width 4 and precision 2. */
  lemma LeadingZeros()
    ensures ParseField("{00}") == Some((Field(0, None), 4))
    ensures ParseField("{0:04.02d}") == Some((Field(0, Some(Spec(None, Some(4), Some(2), IntegerKey))), 10))
  {
    LeadingZerosIndex();
    LeadingZerosSpec();
  }

  lemma LeadingZerosIndex()
    ensures ParseField("{00}") == Some((Field(0, None), 4))
  {
    var g := FieldText("00", None);
    assert Word(g) == "{00}" && "{00}" + [] == "{00}";
    SmallNumerals();
    ParseFieldWord(g, []);
  }

  lemma LeadingZerosSpec()
    ensures ParseField("{0:04.02d}") == Some((Field(0, Some(Spec(None, Some(4), Some(2), IntegerKey))), 10))
  {
    var g := FieldText("0", Some(SpecText(None, "04", Some("02"), IntegerKey)));
    LeadingZerosText(g);
    ParseFieldWhole("{0:04.02d}", g);
  }

  lemma LeadingZerosText(g: FieldText)
    requires g == FieldText("0", Some(SpecText(None, "04", Some("02"), IntegerKey)))
    ensures IsFieldText(g) && Word(g) == "{0:04.02d}"
    ensures Meaning(g) == Field(0, Some(Spec(None, Some(4), Some(2), IntegerKey)))
  {
    SmallNumerals();
  }

  /** A whole text that is a placeholder word parses to its meaning. */
  lemma ParseFieldWhole(s: string, g: FieldText)
    requires IsFieldText(g) && Word(g) == s
    ensures ParseField(s) == Some((Meaning(g), |s|))
  {
    assert s + [] == s;
    ParseFieldWord(g, []);
  }

  lemma SmallNumerals()
    ensures ReadDigits("0", 10) == 0 && ReadDigits("00", 10) == 0
    ensures ReadDigits("04", 10) == 4 && ReadDigits("02", 10) == 2
  {
    assert "00"[..1] == "04"[..1] == "02"[..1] == "0" && "0"[..0] == [];
  }

  /** Any placeholder the grammar accepts, leading zeros included, is replaced
      by the Replacement of what its groups mean, and the scan goes on right
      after it. */
  lemma RenderWord(g: FieldText, rest: string, args: seq<Value>, ext: External)
    requires IsFieldText(g)
    ensures Render(Word(g) + rest, args, ext)
         == (var rep := Replacement(Meaning(g), args, ext);
             if rep.Failure? then Failure(rep.error) else Prefix(rep.value, Render(rest, args, ext)))
  {
    ParseFieldWord(g, rest);
    assert (Word(g) + rest)[|Word(g)|..] == rest;
  }

  /** Any placeholder whose index names no argument becomes exactly
      "undefined", whatever its spec says and however its digits are written. */
  lemma MissingArgumentWord(g: FieldText, rest: string, args: seq<Value>, ext: External)
    requires IsFieldText(g) && Meaning(g).index >= |args|
    ensures Render(Word(g) + rest, args, ext) == Prefix("undefined", Render(rest, args, ext))
  {
    RenderWord(g, rest, args, ext);
  }

  /** Any `{idx}` the grammar accepts becomes the argument's toString(),
      unpadded; for an integer that is its decimal form. */
  lemma PlainWord(g: FieldText, rest: string, args: seq<Value>, ext: External)
    requires IsFieldText(g) && g.spec.None? && Meaning(g).index < |args|
    ensures Render(Word(g) + rest, args, ext)
         == Prefix(ToString(args[Meaning(g).index]), Render(rest, args, ext))
    ensures args[Meaning(g).index].Int? ==> ReadSigned(ToString(args[Meaning(g).index]), 10) == args[Meaning(g).index].n
  {
    RenderWord(g, rest, args, ext);
    if args[Meaning(g).index].Int? {
      RadixRoundTrip(args[Meaning(g).index].n, 10);
    }
  }

  /** A template that is one placeholder the grammar accepts renders to its
      replacement. */
  lemma OneWord(g: FieldText, args: seq<Value>, ext: External)
    requires IsFieldText(g) && Replacement(Meaning(g), args, ext).Success?
    ensures Render(Word(g), args, ext) == Replacement(Meaning(g), args, ext)
  {
    RenderWord(g, [], args, ext);
    assert Word(g) + [] == Word(g);
    assert Replacement(Meaning(g), args, ext).value + [] == Replacement(Meaning(g), args, ext).value;
  }

  /** `{00}` with no arguments is `undefined`, like `{0}`. */
  lemma LeadingZeroMissing(ext: External)
    ensures Render("{00}", [], ext) == Success("undefined")
  {
    var g := FieldText("00", None);
    assert Word(g) == "{00}";
    assert ReadDigits("00", 10) == 0 by {
      SmallNumerals();
    }
    assert Word(g) + [] == "{00}";
    MissingArgumentWord(g, [], [], ext);
    assert "undefined" + [] == "undefined";
  }

  /** A `{` that starts no placeholder is copied, and the placeholder after it
      is replaced: `{{0}` with 5 gives `{5`. */
  lemma BraceBeforePlaceholder(ext: External)
    ensures Render("{{0}", [Int(5)], ext) == Success("{5")
  {
    var s := "{{0}";
    assert ParseNumber(s[1..]).0.None? by {
      assert s[1..][0] == '{';
    }
    assert s[1..] == "{0}" + [];
    DigitPlaceholder(0, "{0}", [], [Int(5)], ext);
    assert ToString(Int(5)) == "5" by {
      assert Decimal(5) == [DigitChar(5)];
    }
    assert "{" + ("5" + []) == "{5";
  }

  /** A placeholder in its standard spelling is replaced by its Replacement and
      the scan goes on right after it. */
  lemma RenderField(f: Field, rest: string, args: seq<Value>, ext: External)
    ensures Render(Unparse(f) + rest, args, ext)
         == (var rep := Replacement(f, args, ext);
             if rep.Failure? then Failure(rep.error) else Prefix(rep.value, Render(rest, args, ext)))
  {
    CanonicalMeaning(f);
    RenderWord(Canonical(f), rest, args, ext);
  }

  /** A placeholder in its standard spelling whose index has no argument becomes
      exactly "undefined", whatever its spec says. */
  lemma MissingArgument(f: Field, rest: string, args: seq<Value>, ext: External)
    requires f.index >= |args|
    ensures Render(Unparse(f) + rest, args, ext) == Prefix("undefined", Render(rest, args, ext))
  {
    CanonicalMeaning(f);
    MissingArgumentWord(Canonical(f), rest, args, ext);
  }

  /** `{idx}` with no colon part becomes the argument's toString(), unpadded;
      for an integer that is its decimal form. */
  lemma PlainPlaceholder(index: nat, rest: string, args: seq<Value>, ext: External)
    requires index < |args|
    ensures Render(Unparse(Field(index, None)) + rest, args, ext)
         == Prefix(ToString(args[index]), Render(rest, args, ext))
    ensures args[index].Int? ==> ReadSigned(ToString(args[index]), 10) == args[index].n
  {
    RenderField(Field(index, None), rest, args, ext);
    if args[index].Int? {
      RadixRoundTrip(args[index].n, 10);
    }
  }

  /** `{i}` for a one-digit index, then rest. */
  lemma DigitPlaceholder(i: nat, s: string, rest: string, args: seq<Value>, ext: External)
    requires i < 10 && i < |args| && s == ['{', DigitChar(i), '}'] + rest
    ensures Render(s, args, ext) == Prefix(ToString(args[i]), Render(rest, args, ext))
  {
    assert Unparse(Field(i, None)) == ['{', DigitChar(i), '}'] by {
      assert Decimal(i) == [DigitChar(i)];
    }
    PlainPlaceholder(i, rest, args, ext);
  }

  /** Text in which no position starts a placeholder is returned as it is. */
  lemma {:induction false} RenderUnmatched(t: string, args: seq<Value>, ext: External)
    requires forall i :: 0 <= i < |t| ==> ParseField(t[i..]).None?
    ensures Render(t, args, ext) == Success(t)
    decreases |t|
  {
    if t != [] {
      assert ParseField(t[0..]).None?;
      assert t[0..] == t;
      forall i | 0 <= i < |t[1..]| ensures ParseField(t[1..][i..]).None? {
        assert t[1..][i..] == t[i + 1..];
      }
      RenderUnmatched(t[1..], args, ext);
      assert [t[0]] + t[1..] == t;
    }
  }

  /** Text in which no position starts a word of the grammar of format.js:4 is
      returned as it is. */
  lemma RenderWithoutPlaceholders(t: string, args: seq<Value>, ext: External)
    requires forall i, g :: 0 <= i < |t| && IsFieldText(g) ==> !IsPrefix(Word(g), t[i..])
    ensures Render(t, args, ext) == Success(t)
  {
    forall i | 0 <= i < |t| ensures ParseField(t[i..]).None? {
      ParseFieldNone(t[i..]);
    }
    RenderUnmatched(t, args, ext);
  }

  /** A template without `{` is returned as it is. */
  lemma RenderWithoutBraces(t: string, args: seq<Value>, ext: External)
    requires '{' !in t
    ensures Render(t, args, ext) == Success(t)
  {
    forall i | 0 <= i < |t| ensures ParseField(t[i..]).None? {
      assert t[i..][0] == t[i];
    }
    RenderUnmatched(t, args, ext);
  }

  /** A colon part without a format key (`{0:4}`, `{0:}`) is not a placeholder:
      the text stays as it is. */
  lemma ColonWithoutKeyIsText(index: string, width: string, args: seq<Value>, ext: External)
    requires index != [] && IsDecimalNumeral(index) && IsDecimalNumeral(width)
    ensures Render("{" + index + ":" + width + "}", args, ext) == Success("{" + index + ":" + width + "}")
  {
    var t := "{" + index + ":" + width + "}";
    ColonWithoutKeyAtStart(index, width);
    forall i | 0 <= i < |t| ensures ParseField(t[i..]).None? {
      if i > 0 {
        assert t[i..][0] == t[i];
        NoBraceAfterStart(index, width, i);
      }
    }
    RenderUnmatched(t, args, ext);
  }

  /** `{index:width}` does not match the placeholder grammar at its start. */
  lemma ColonWithoutKeyAtStart(index: string, width: string)
    requires index != [] && IsDecimalNumeral(index) && IsDecimalNumeral(width)
    ensures ParseField("{" + index + ":" + width + "}").None?
  {
    var t := "{" + index + ":" + width + "}";
    assert t[1..] == index + (":" + width + "}");
    DigitSpanOf(index, ":" + width + "}");
    assert ParseNumber(t[1..]).1 == |index|;
    var e := 1 + |index|;
    assert t[e] == ':';
    assert t[e + 1..] == width + "}";
    SpecWithoutKey(width);
  }

  /** Digits and a closing brace carry no format key. */
  lemma SpecWithoutKey(width: string)
    requires IsDecimalNumeral(width)
    ensures ParseSpec(width + "}").None?
  {
    var u := width + "}";
    assert ParseAlign(u) == (None, 0) by {
      assert u[0] == '}' || IsDecimalDigit(u[0]);
    }
    assert u[0..] == u;
    DigitSpanOf(width, "}");
    assert ParseNumber(u).1 == |width|;
    assert u[|width|..] == "}";
    assert ParsePrecision("}") == (None, 0);
    assert KeyOf(u[|width|]) == KeyOf('}') == None;
  }

  /** Only the first character of `{index:width}` is a brace. */
  lemma NoBraceAfterStart(index: string, width: string, i: nat)
    requires IsDecimalNumeral(index) && IsDecimalNumeral(width)
    requires 0 < i < |"{" + index + ":" + width + "}"|
    ensures ("{" + index + ":" + width + "}")[i] != '{'
  {
    var t := "{" + index + ":" + width + "}";
    if i <= |index| {
      assert t[i] == index[i - 1];
    } else if i == |index| + 1 {
      assert t[i] == ':';
    } else if i < |t| - 1 {
      assert t[i] == width[i - |index| - 2];
    } else {
      assert t[i] == '}';
    }
  }

  /** Centre alignment: floor(width/2) - length spaces (if positive) in front,
      then spaces behind up to the width, lengths counted in UTF-16 code units. */
  lemma CenterAlign(vv: string, width: nat)
    ensures AlignField(Some(Center), vv, width)
         == Repeat(' ', CenterLeft(JsLength(vv), width)) + vv + Repeat(' ', CenterRight(JsLength(vv), width))
  {
    var n := JsLength(vv);
    CenterPadding(vv, width, n, CenterLeft(n, width), CenterRight(n, width));
  }

  /** The spaces `^` puts in front of text of length n: floor(width/2) - n, if positive. */
  function CenterLeft(n: nat, width: nat): nat
  {
    Max(0, width / 2 - n)
  }

  /** The spaces `^` puts behind text of length n: what is left up to the width. */
  function CenterRight(n: nat, width: nat): nat
  {
    Max(0, width - n - CenterLeft(n, width))
  }

  lemma CenterPadding(vv: string, width: nat, n: nat, left: nat, right: nat)
    requires n == JsLength(vv) && left == CenterLeft(n, width) && right == CenterRight(n, width)
    ensures AlignField(Some(Center), vv, width) == Repeat(' ', left) + vv + Repeat(' ', right)
  {
    var s := PadStart(vv, width / 2, ' ');
    assert JsLength(s) == left + n && s == Repeat(' ', left) + vv;
    assert PadEnd(s, width, ' ') == s + Repeat(' ', right);
  }

  function BaseOf(key: Key): nat
  {
    match key
    case BinaryKey => 2
    case OctalKey => 8
    case HexKey => 16
    case HexUpperKey => 16
    case _ => 10
  }

  /** The integer keys `b o x X d` write an integer in base 2, 8, 16, 16 and 10, and
      reading the digits back in that base gives the integer again; a string
      argument is refused. */
  lemma IntegerKeys(key: Key, v: Value, precision: nat, index: nat, ext: External)
    requires key in {BinaryKey, OctalKey, HexKey, HexUpperKey, IntegerKey}
    ensures v.Str? ==> Convert(key, v, precision, index, ext) == Failure(NotAnInteger(index, key))
    ensures v.Int? ==> Convert(key, v, precision, index, ext).Success?
    ensures v.Int? ==> var r := Convert(key, v, precision, index, ext).value;
      IsSignedNumeral(r) && ReadSigned(r, BaseOf(key)) == v.n
  {
    if v.Int? {
      RadixRoundTrip(v.n, BaseOf(key));
      if key == HexUpperKey {
        UpperSignedKeepsValue(Radix(v.n, 16), 16);
      }
    }
  }

  /** `x` writes lower-case digits; `X` is the same text upper-cased, so it
      holds no lower-case letter. */
  lemma HexCase(n: SafeInteger, precision: nat, index: nat, ext: External)
    ensures var lower := Convert(HexKey, Int(n), precision, index, ext).value;
            var upper := Convert(HexUpperKey, Int(n), precision, index, ext).value;
            upper == AsciiUpper(lower)
            && (forall i :: 0 <= i < |lower| ==> !('A' <= lower[i] <= 'Z'))
            && (forall i :: 0 <= i < |upper| ==> !('a' <= upper[i] <= 'z'))
  {
    var lower := Radix(n, 16);
    var m := if n < 0 then -n else n;
    var d := Digits(m, 16);
    forall i | 0 <= i < |lower| ensures !('A' <= lower[i] <= 'Z') {
      if n < 0 && i > 0 {
        assert lower[i] == d[i - 1];
      } else if n >= 0 {
        assert lower[i] == d[i];
      }
    }
  }

  /** A template made of one placeholder renders to its replacement. */
  lemma OneField(f: Field, args: seq<Value>, ext: External)
    requires Replacement(f, args, ext).Success?
    ensures Render(Unparse(f), args, ext) == Replacement(f, args, ext)
  {
    RenderField(f, [], args, ext);
    assert Unparse(f) + [] == Unparse(f);
    assert Replacement(f, args, ext).value + [] == Replacement(f, args, ext).value;
  }

  /** A single-digit placeholder field `{i:[align]w<key>}`, with its text. */
  lemma DigitField(i: nat, align: Option<AlignKind>, w: Option<nat>, key: Key)
    requires i < 10 && (w.Some? ==> w.value < 10)
    ensures Unparse(Field(i, Some(Spec(align, w, None, key))))
         == ['{', DigitChar(i), ':'] + AlignText(align)
            + (if w.Some? then [DigitChar(w.value)] else []) + [KeyChar(key), '}']
  {
    assert Decimal(i) == [DigitChar(i)];
    if w.Some? {
      assert Decimal(w.value) == [DigitChar(w.value)];
    }
  }

  /** `{0}` gives the argument's text, "undefined" when it is missing, and the
      indices pick the arguments in any order (format.test.js:12, 14, 16). */
  lemma PlainTestCases(ext: External)
    ensures Render("{0}", [Int(2)], ext) == Success("2")
    ensures Render("{0}", [], ext) == Success("undefined")
    ensures Render("{1} {0}", [Str("a"), Str("b")], ext) == Success("b a")
  {
    IndexTestCase(ext);
    UndefinedTestCase(ext);
    SwapTestCase(ext);
  }

  lemma IndexTestCase(ext: External)
    ensures Render("{0}", [Int(2)], ext) == Success("2")
  {
    var f0 := Field(0, None);
    assert Unparse(f0) == "{0}" by { assert Decimal(0) == "0"; }
    assert Decimal(2) == "2";
    OneField(f0, [Int(2)], ext);
  }

  lemma UndefinedTestCase(ext: External)
    ensures Render("{0}", [], ext) == Success("undefined")
  {
    var f0 := Field(0, None);
    assert Unparse(f0) == "{0}" by { assert Decimal(0) == "0"; }
    OneField(f0, [], ext);
  }

  lemma SwapTestCase(ext: External)
    ensures Render("{1} {0}", [Str("a"), Str("b")], ext) == Success("b a")
  {
    var args := [Str("a"), Str("b")];
    SpaceThenFirst(args, ext);
    SwapSpelling();
    DigitPlaceholder(1, "{1} {0}", " {0}", args, ext);
  }

  lemma SwapSpelling()
    ensures "{1} {0}" == ['{', DigitChar(1), '}'] + " {0}" && "b" + " a" == "b a"
  {
  }

  lemma SpaceThenFirst(args: seq<Value>, ext: External)
    requires args == [Str("a"), Str("b")]
    ensures Render(" {0}", args, ext) == Success(" a")
  {
    var f0 := Field(0, None);
    assert Unparse(f0) == "{0}" by { assert Decimal(0) == "0"; }
    assert ParseField(" {0}").None?;
    assert " {0}"[1..] == Unparse(f0);
    OneField(f0, args, ext);
    assert [' '] + "a" == " a";
  }

  /** `{0:x}` with 15 gives "f" (format.test.js:20). */
  lemma HexTestCase(ext: External)
    ensures Render("{0:x}", [Int(15)], ext) == Success("f")
  {
    var f := Field(0, Some(Spec(None, None, None, HexKey)));
    assert Unparse(f) == "{0:x}" by {
      DigitField(0, None, None, HexKey);
    }
    assert Replacement(f, [Int(15)], ext) == Success("f") by {
      assert Convert(HexKey, Int(15), DefaultPrecision, 0, ext) == Success("f") by {
        assert Radix(15, 16) == "f";
      }
      assert AlignField(None, "f", 0) == "f";
    }
    OneField(f, [Int(15)], ext);
  }
  /** `{0:X}` with 15 gives "F" (format.test.js:21). */
  lemma HexUpperTestCase(ext: External)
    ensures Render("{0:X}", [Int(15)], ext) == Success("F")
  {
    var f := Field(0, Some(Spec(None, None, None, HexUpperKey)));
    assert Unparse(f) == "{0:X}" by {
      DigitField(0, None, None, HexUpperKey);
    }
    assert Replacement(f, [Int(15)], ext) == Success("F") by {
      assert Convert(HexUpperKey, Int(15), DefaultPrecision, 0, ext) == Success("F") by {
        assert Radix(15, 16) == "f";
        assert AsciiUpper("f") == "F" by {
          assert AsciiUpper("f")[0] == UpperChar('f') == 'F';
        }
      }
      assert AlignField(None, "F", 0) == "F";
    }
    OneField(f, [Int(15)], ext);
  }
  /** `{0:o}` with 8 gives "10" (format.test.js:22). */
  lemma OctalTestCase(ext: External)
    ensures Render("{0:o}", [Int(8)], ext) == Success("10")
  {
    var f := Field(0, Some(Spec(None, None, None, OctalKey)));
    assert Unparse(f) == "{0:o}" by {
      DigitField(0, None, None, OctalKey);
    }
    assert Replacement(f, [Int(8)], ext) == Success("10") by {
      assert Convert(OctalKey, Int(8), DefaultPrecision, 0, ext) == Success("10") by {
        assert Radix(8, 8) == "10" by { DivStep(8, 8); }
      }
      assert AlignField(None, "10", 0) == "10";
    }
    OneField(f, [Int(8)], ext);
  }
  /** `{0:b}` with 3 gives "11" (format.test.js:23). */
  lemma BinaryTestCase(ext: External)
    ensures Render("{0:b}", [Int(3)], ext) == Success("11")
  {
    var f := Field(0, Some(Spec(None, None, None, BinaryKey)));
    assert Unparse(f) == "{0:b}" by {
      DigitField(0, None, None, BinaryKey);
    }
    assert Replacement(f, [Int(3)], ext) == Success("11") by {
      assert Convert(BinaryKey, Int(3), DefaultPrecision, 0, ext) == Success("11") by {
        assert Radix(3, 2) == "11" by { DivStep(3, 2); }
      }
      assert AlignField(None, "11", 0) == "11";
    }
    OneField(f, [Int(3)], ext);
  }
  /** `{0:<4d}` with 1 gives "1   " (format.test.js:24). */
  lemma LeftTestCase(ext: External)
    ensures Render("{0:<4d}", [Int(1)], ext) == Success("1   ")
  {
    var f := Field(0, Some(Spec(Some(Left), Some(4), None, IntegerKey)));
    assert Unparse(f) == "{0:<4d}" by {
      DigitField(0, Some(Left), Some(4), IntegerKey);
    }
    assert Replacement(f, [Int(1)], ext) == Success("1   ") by {
      assert Convert(IntegerKey, Int(1), DefaultPrecision, 0, ext) == Success("1") by {
        assert Radix(1, 10) == "1";
      }
      assert AlignField(Some(Left), "1", 4) == "1   ";
    }
    OneField(f, [Int(1)], ext);
  }
  /** `{0:^4d}` with 1 gives " 1  " (format.test.js:25). */
  lemma CenterTestCase(ext: External)
    ensures Render("{0:^4d}", [Int(1)], ext) == Success(" 1  ")
  {
    var f := Field(0, Some(Spec(Some(Center), Some(4), None, IntegerKey)));
    assert Unparse(f) == "{0:^4d}" by {
      DigitField(0, Some(Center), Some(4), IntegerKey);
    }
    assert Replacement(f, [Int(1)], ext) == Success(" 1  ") by {
      assert Convert(IntegerKey, Int(1), DefaultPrecision, 0, ext) == Success("1") by {
        assert Radix(1, 10) == "1";
      }
      CenterOneInFour();
    }
    OneField(f, [Int(1)], ext);
  }
  lemma CenterOneInFour()
    ensures AlignField(Some(Center), "1", 4) == " 1  "
  {
    JsLengthBmp("1");
    CenterAlign("1", 4);
    assert Repeat(' ', 1) + "1" + Repeat(' ', 2) == " 1  ";
  }

  /** `{0:3s}` with an emoji outside the Basic Multilingual Plane: the emoji
      already takes two of the three code units, so one space goes in front. */
  lemma AstralPaddingCase(ext: External)
    ensures Render("{0:3s}", [Str("\U{1F600}")], ext) == Success(" \U{1F600}")
  {
    var f := Field(0, Some(Spec(None, Some(3), None, StringKey)));
    assert Unparse(f) == "{0:3s}" by {
      DigitField(0, None, Some(3), StringKey);
    }
    assert Replacement(f, [Str("\U{1F600}")], ext) == Success(" \U{1F600}") by {
      AstralInThree();
    }
    OneField(f, [Str("\U{1F600}")], ext);
  }

  /** Padding to 3 code units adds one space to an emoji, leaving two characters. */
  lemma AstralInThree()
    ensures AlignField(None, "\U{1F600}", 3) == " \U{1F600}"
    ensures |AlignField(None, "\U{1F600}", 3)| == 2
  {
    var e := "\U{1F600}";
    assert JsLength(e) == 2 by {
      assert e[1..] == [];
    }
    assert Repeat(' ', 1) + e == " \U{1F600}";
  }

  /** `{0:>4d}` with 1 gives "   1" (format.test.js:26). */
  lemma RightTestCase(ext: External)
    ensures Render("{0:>4d}", [Int(1)], ext) == Success("   1")
  {
    var f := Field(0, Some(Spec(Some(Right), Some(4), None, IntegerKey)));
    assert Unparse(f) == "{0:>4d}" by {
      DigitField(0, Some(Right), Some(4), IntegerKey);
    }
    assert Replacement(f, [Int(1)], ext) == Success("   1") by {
      assert Convert(IntegerKey, Int(1), DefaultPrecision, 0, ext) == Success("1") by {
        assert Radix(1, 10) == "1";
      }
      assert AlignField(Some(Right), "1", 4) == "   1";
    }
    OneField(f, [Int(1)], ext);
  }

  /** `{0:4d}` with 2 gives "   2" (format.test.js:17). */
  lemma WidthTestCase(ext: External)
    ensures Render("{0:4d}", [Int(2)], ext) == Success("   2")
  {
    var f := Field(0, Some(Spec(None, Some(4), None, IntegerKey)));
    assert Unparse(f) == "{0:4d}" by {
      DigitField(0, None, Some(4), IntegerKey);
    }
    assert Replacement(f, [Int(2)], ext) == Success("   2") by {
      assert Convert(IntegerKey, Int(2), DefaultPrecision, 0, ext) == Success("2") by {
        assert Radix(2, 10) == "2";
      }
      assert AlignField(None, "2", 4) == "   2";
    }
    OneField(f, [Int(2)], ext);
  }
}
