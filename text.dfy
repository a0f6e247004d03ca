/** Digit strings as JavaScript's Number.prototype.toString(radix) writes
    them for integers, reading them back, ASCII upper-casing, and the
    padding of String.prototype.padStart and padEnd. */
module Text {

  function Max(a: int, b: int): int { if a < b then b else a }

  function Pow(b: nat, k: nat): nat
  {
    if k == 0 then 1 else b * Pow(b, k - 1)
  }

  /** The character writing digit d in lower case, as toString(radix) does. */
  function DigitChar(d: nat): (c: char)
    requires d < 16
    ensures IsHexDigit(c) && DigitValue(c) == d && !('A' <= c <= 'F')
    ensures d < 10 ==> IsDecimalDigit(c)
  {
    if d < 10 then ('0' as int + d) as char else ('a' as int + d - 10) as char
  }

  predicate IsDecimalDigit(c: char) { '0' <= c <= '9' }

  predicate IsHexDigit(c: char) { '0' <= c <= '9' || 'a' <= c <= 'f' || 'A' <= c <= 'F' }

  function DigitValue(c: char): nat
    requires IsHexDigit(c)
  {
    if '0' <= c <= '9' then c as int - '0' as int
    else if 'a' <= c <= 'f' then c as int - 'a' as int + 10
    else c as int - 'A' as int + 10
  }

  /** Every character is a digit, in either case. */
  predicate IsNumeral(s: string)
  {
    forall i :: 0 <= i < |s| ==> IsHexDigit(s[i])
  }

  predicate IsDecimalNumeral(s: string)
  {
    forall i :: 0 <= i < |s| ==> IsDecimalDigit(s[i])
  }

  /** The digits of n in the given radix, most significant first. */
  function Digits(n: nat, base: nat): (r: string)
    requires 2 <= base <= 16
    ensures 1 <= |r| && IsNumeral(r)
    ensures forall i :: 0 <= i < |r| ==> DigitValue(r[i]) < base && !('A' <= r[i] <= 'F')
    ensures base == 10 ==> IsDecimalNumeral(r)
    ensures r[0] == '0' <==> n == 0
    decreases n
  {
    if n < base then [DigitChar(n)]
    else
      DivStep(n, base);
      Digits(n / base, base) + [DigitChar(n % base)]
  }

  lemma DivStep(n: nat, base: nat)
    requires 2 <= base <= n
    ensures 1 <= n / base < n && n % base < base
    ensures n == (n / base) * base + n % base
  {
  }

  /** The number a numeral denotes in the given radix. */
  function ReadDigits(s: string, base: nat): nat
    requires IsNumeral(s)
    decreases |s|
  {
    if s == [] then 0 else ReadDigits(s[..|s| - 1], base) * base + DigitValue(s[|s| - 1])
  }

  lemma {:induction false} ReadDigitsOfDigits(n: nat, base: nat)
    requires 2 <= base <= 16
    ensures ReadDigits(Digits(n, base), base) == n
    decreases n
  {
    var s := Digits(n, base);
    if n < base {
      assert s[..|s| - 1] == [];
    } else {
      DivStep(n, base);
      assert s[..|s| - 1] == Digits(n / base, base);
      ReadDigitsOfDigits(n / base, base);
    }
  }

  /** Number.prototype.toString(radix) of an integer: a minus sign, then the digits of |n|. */
  function Radix(n: int, base: nat): string
    requires 2 <= base <= 16
  {
    if n < 0 then "-" + Digits(-n, base) else Digits(n, base)
  }

  /** The decimal form toString() and toFixed(0) give a safe integer. */
  function Decimal(n: int): string
  {
    Radix(n, 10)
  }

  predicate IsSignedNumeral(s: string)
  {
    if |s| > 0 && s[0] == '-' then IsNumeral(s[1..]) else IsNumeral(s)
  }

  function ReadSigned(s: string, base: nat): int
    requires IsSignedNumeral(s)
  {
    if |s| > 0 && s[0] == '-' then 0 - ReadDigits(s[1..], base) as int else ReadDigits(s, base)
  }

  /** Reading back what toString(radix) wrote gives the integer again. */
  lemma RadixRoundTrip(n: int, base: nat)
    requires 2 <= base <= 16
    ensures IsSignedNumeral(Radix(n, base)) && ReadSigned(Radix(n, base), base) == n
  {
    var r := Radix(n, base);
    if n < 0 {
      assert r[0] == '-' && r[1..] == Digits(-n, base);
      ReadDigitsOfDigits(-n, base);
    } else {
      assert IsHexDigit(r[0]);
      ReadDigitsOfDigits(n, base);
    }
  }

  /** For k at least 1, a number below base^k has at most k digits. */
  lemma {:induction false} DigitsLength(n: nat, base: nat, k: nat)
    requires 2 <= base <= 16 && 1 <= k && n < Pow(base, k)
    ensures |Digits(n, base)| <= k
    decreases k
  {
    if n >= base {
      assert n / base < Pow(base, k - 1) by {
        DivBelow(n, base, Pow(base, k - 1));
      }
      DigitsLength(n / base, base, k - 1);
    }
  }

  lemma DivBelow(n: nat, b: nat, p: nat)
    requires 0 < b && n < b * p
    ensures n / b < p
  {
    assert b * (n / b) <= n;
    MulCancel(b, n / b, p);
  }

  lemma MulCancel(b: nat, x: nat, y: nat)
    requires b * x < b * y
    ensures x < y
  {
  }

  /** JavaScript's String.prototype.toUpperCase on ASCII letters. */
  function UpperChar(c: char): char
  {
    if 'a' <= c <= 'z' then (c as int - 32) as char else c
  }

  /** ASCII case folding, used to say that two characters differ only in case. */
  function LowerChar(c: char): char
  {
    if 'A' <= c <= 'Z' then (c as int + 32) as char else c
  }

  /** toUpperCase on the ASCII text of a number: the same text up to case, with
      no lower-case letter left. */
  function AsciiUpper(s: string): (r: string)
    ensures |r| == |s|
    ensures forall i :: 0 <= i < |r| ==> !('a' <= r[i] <= 'z') && LowerChar(r[i]) == LowerChar(s[i])
  {
    seq(|s|, i requires 0 <= i < |s| => UpperChar(s[i]))
  }

  /** Upper-casing a numeral does not change the number it denotes. */
  lemma {:induction false} UpperKeepsValue(s: string, base: nat)
    requires IsNumeral(s)
    ensures IsNumeral(AsciiUpper(s)) && ReadDigits(AsciiUpper(s), base) == ReadDigits(s, base)
    decreases |s|
  {
    var u := AsciiUpper(s);
    assert IsNumeral(u) by {
      forall i | 0 <= i < |u| ensures IsHexDigit(u[i]) && DigitValue(u[i]) == DigitValue(s[i]) {
        assert u[i] == UpperChar(s[i]);
      }
    }
    if s != [] {
      assert u[..|u| - 1] == AsciiUpper(s[..|s| - 1]);
      UpperKeepsValue(s[..|s| - 1], base);
      assert DigitValue(u[|u| - 1]) == DigitValue(s[|s| - 1]);
    }
  }

  function Repeat(c: char, n: nat): (r: string)
    ensures |r| == n && forall i :: 0 <= i < n ==> r[i] == c
  {
    seq(n, _ => c)
  }

  // ------------------------------------------- lengths in UTF-16 code units

  /** The UTF-16 code units a JavaScript string spends on c: two for a character
      outside the Basic Multilingual Plane (a surrogate pair), one for any other. */
  function CodeUnits(c: char): nat
  {
    if c as int < 0x1_0000 then 1 else 2
  }

  /** A character JavaScript stores in one code unit. */
  predicate IsCodeUnit(c: char)
  {
    c as int < 0x1_0000
  }

  /** Text made of characters from the Basic Multilingual Plane only. */
  predicate InBmp(s: string)
  {
    forall i :: 0 <= i < |s| ==> IsCodeUnit(s[i])
  }

  /** JavaScript's `s.length`: the number of UTF-16 code units. */
  function JsLength(s: string): (n: nat)
    ensures |s| <= n <= 2 * |s|
  {
    if s == [] then 0 else CodeUnits(s[0]) + JsLength(s[1..])
  }

  /** `length` counts characters exactly when every one of them is in the
      Basic Multilingual Plane. */
  lemma {:induction false} JsLengthBmp(s: string)
    ensures JsLength(s) == |s| <==> InBmp(s)
  {
    if s != [] {
      var tail := s[1..];
      JsLengthBmp(tail);
      if InBmp(s) {
        assert InBmp(tail) by {
          forall i | 0 <= i < |tail| ensures IsCodeUnit(tail[i]) {
            assert tail[i] == s[i + 1];
          }
        }
      }
      if JsLength(s) == |s| {
        assert CodeUnits(s[0]) == 1 && JsLength(tail) == |tail|;
        forall i | 0 <= i < |s| ensures IsCodeUnit(s[i]) {
          if i > 0 {
            assert tail[i - 1] == s[i];
          }
        }
      }
    }
  }

  /** `length` of a concatenation is the sum of the lengths. */
  lemma {:induction false} JsLengthAppend(a: string, b: string)
    ensures JsLength(a + b) == JsLength(a) + JsLength(b)
  {
    if a == [] {
      assert a + b == b;
    } else {
      var ab := a + b;
      assert ab[0] == a[0] && ab[1..] == a[1..] + b;
      JsLengthAppend(a[1..], b);
    }
  }

  /** k copies of a one-unit fill in front of s add k to its length. */
  lemma FillLength(fill: char, k: nat, s: string)
    requires IsCodeUnit(fill)
    ensures JsLength(Repeat(fill, k) + s) == k + JsLength(s)
    ensures JsLength(s + Repeat(fill, k)) == JsLength(s) + k
  {
    JsLengthBmp(Repeat(fill, k));
    JsLengthAppend(Repeat(fill, k), s);
    JsLengthAppend(s, Repeat(fill, k));
  }

  /** r is s with fill in front, as many as r is longer, in UTF-16 code units. */
  predicate PaddedFront(r: string, s: string, fill: char)
  {
    JsLength(s) <= JsLength(r) && r == Repeat(fill, JsLength(r) - JsLength(s)) + s
  }

  /** r is s with fill behind, as many as r is longer, in UTF-16 code units. */
  predicate PaddedBack(r: string, s: string, fill: char)
  {
    JsLength(s) <= JsLength(r) && r == s + Repeat(fill, JsLength(r) - JsLength(s))
  }

  /** k copies of a one-unit fill in front of s pad s by k. */
  lemma FrontPadded(fill: char, k: nat, s: string)
    requires IsCodeUnit(fill)
    ensures JsLength(Repeat(fill, k) + s) == k + JsLength(s) && PaddedFront(Repeat(fill, k) + s, s, fill)
  {
    FillLength(fill, k, s);
  }

  /** k copies of a one-unit fill behind s pad s by k. */
  lemma BackPadded(fill: char, k: nat, s: string)
    requires IsCodeUnit(fill)
    ensures JsLength(s + Repeat(fill, k)) == JsLength(s) + k && PaddedBack(s + Repeat(fill, k), s, fill)
  {
    FillLength(fill, k, s);
  }

  /** Any text is itself padded by nothing. */
  lemma Unpadded(s: string, fill: char)
    ensures PaddedFront(s, s, fill) && PaddedBack(s, s, fill)
  {
    assert Repeat(fill, 0) + s == s && s + Repeat(fill, 0) == s;
  }

  /** String.prototype.padStart with a one-unit fill: fill in front up to the
      width, both counted in UTF-16 code units; never shortens. */
  function PadStart(s: string, width: nat, fill: char): (r: string)
    requires IsCodeUnit(fill)
    ensures JsLength(r) == Max(JsLength(s), width)
    ensures PaddedFront(r, s, fill)
  {
    if width <= JsLength(s) then
      Unpadded(s, fill);
      s
    else
      FrontPadded(fill, width - JsLength(s), s);
      Repeat(fill, width - JsLength(s)) + s
  }

  /** String.prototype.padEnd with a one-unit fill: fill behind up to the width,
      both counted in UTF-16 code units; never shortens. */
  function PadEnd(s: string, width: nat, fill: char): (r: string)
    requires IsCodeUnit(fill)
    ensures JsLength(r) == Max(JsLength(s), width)
    ensures PaddedBack(r, s, fill)
  {
    if width <= JsLength(s) then
      Unpadded(s, fill);
      s
    else
      BackPadded(fill, width - JsLength(s), s);
      s + Repeat(fill, width - JsLength(s))
  }

  /** Text already as wide as the width is left alone. */
  lemma PadWithin(s: string, width: nat, fill: char)
    requires IsCodeUnit(fill) && width <= JsLength(s)
    ensures PadStart(s, width, fill) == s && PadEnd(s, width, fill) == s
  {
  }

  /** On text from the Basic Multilingual Plane, such as numerals, the padded
      length is counted in characters. */
  lemma PadStartBmp(s: string, width: nat, fill: char)
    requires IsCodeUnit(fill) && InBmp(s)
    ensures |PadStart(s, width, fill)| == Max(|s|, width)
  {
    JsLengthBmp(s);
    JsLengthBmp(Repeat(fill, JsLength(PadStart(s, width, fill)) - JsLength(s)));
  }

  /** Digits are in the Basic Multilingual Plane. */
  lemma NumeralBmp(s: string)
    requires IsNumeral(s)
    ensures InBmp(s)
  {
  }

  /** The decimal form of a natural number: not empty, all digits, and it reads
      back to the number. */
  lemma DecimalRoundTrip(n: nat)
    ensures Decimal(n) != [] && Decimal(n)[0] != '-'
    ensures IsDecimalNumeral(Decimal(n)) && ReadDigits(Decimal(n), 10) == n
  {
    ReadDigitsOfDigits(n, 10);
  }

  predicate IsPrefix(p: string, s: string)
  {
    |p| <= |s| && s[..|p|] == p
  }

  /** Zeros in front of a numeral do not change the number it denotes. */
  lemma {:induction false} ReadDigitsLeadingZeros(k: nat, s: string, base: nat)
    requires IsNumeral(s)
    ensures IsNumeral(Repeat('0', k) + s)
    ensures ReadDigits(Repeat('0', k) + s, base) == ReadDigits(s, base)
    decreases |s|, k
  {
    var t := Repeat('0', k) + s;
    if s == [] {
      assert t == Repeat('0', k);
      if k > 0 {
        assert t[..|t| - 1] == Repeat('0', k - 1) + s;
        ReadDigitsLeadingZeros(k - 1, s, base);
      }
    } else {
      assert t[..|t| - 1] == Repeat('0', k) + s[..|s| - 1];
      ReadDigitsLeadingZeros(k, s[..|s| - 1], base);
    }
  }

  /** `padStart(w, "0")` of the decimal form of n: at least w digits, still denoting n,
      and exactly w digits when w is at least 1 and n < 10^w. */
  lemma ZeroPadded(n: nat, width: nat)
    ensures var r := PadStart(Decimal(n), width, '0');
      |r| == Max(|Decimal(n)|, width) && IsDecimalNumeral(r) && ReadDigits(r, 10) == n
    ensures 1 <= width && n < Pow(10, width) ==> |PadStart(Decimal(n), width, '0')| == width
  {
    ZeroPaddedValue(n, width);
    NumeralBmp(Decimal(n));
    PadStartBmp(Decimal(n), width, '0');
    if 1 <= width && n < Pow(10, width) {
      DigitsLength(n, 10, width);
    }
  }

  lemma ZeroPaddedValue(n: nat, width: nat)
    ensures var r := PadStart(Decimal(n), width, '0');
      IsDecimalNumeral(r) && ReadDigits(r, 10) == n
  {
    var d := Decimal(n);
    var r := PadStart(d, width, '0');
    ReadDigitsOfDigits(n, 10);
    ReadDigitsLeadingZeros(JsLength(r) - JsLength(d), d, 10);
  }

  lemma UpperSignedKeepsValue(s: string, base: nat)
    requires IsSignedNumeral(s)
    ensures IsSignedNumeral(AsciiUpper(s)) && ReadSigned(AsciiUpper(s), base) == ReadSigned(s, base)
  {
    var u := AsciiUpper(s);
    if |s| > 0 && s[0] == '-' {
      assert u[0] == '-' && u[1..] == AsciiUpper(s[1..]);
      UpperKeepsValue(s[1..], base);
    } else {
      UpperKeepsValue(s, base);
      if |s| > 0 {
        assert IsHexDigit(u[0]);
      }
    }
  }
}
