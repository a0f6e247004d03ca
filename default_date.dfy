/** The default table of DefaultDateFormatter (format.js:150-175) and the
    `format_date` facade (format.js:183): `%` followed by one of
    `y Y m d H I p M S s f T w` is replaced by a field of the date. */
module DefaultDate {
  import opened Results
  import opened Text
  import opened DateLike

  /** The largest time value, in milliseconds from the epoch, a Date can hold. */
  const MaxTime: int := 8_640_000_000_000_000

  /** What the Date getters return (local time): getFullYear, getMonth,
      getDate, getHours, getMinutes, getSeconds, getMilliseconds, getDay and getTime. */
  datatype DateFields = DateFields(
    year: int, month0: int, day: int, hours: int, minutes: int, seconds: int,
    ms: int, weekday: int, time: int)

  predicate IsCalendarDate(d: DateFields)
  {
    && -271821 <= d.year <= 275760
    && 0 <= d.month0 <= 11 && 1 <= d.day <= 31
    && 0 <= d.hours <= 23 && 0 <= d.minutes <= 59 && 0 <= d.seconds <= 59
    && 0 <= d.ms <= 999 && 0 <= d.weekday <= 6
    && -MaxTime <= d.time <= MaxTime
  }

  type CalendarDate = d: DateFields | IsCalendarDate(d) witness DateFields(1970, 0, 1, 0, 0, 0, 0, 4, 0)

  // ------------------------------------------------------------- helpers

  /** `n.toFixed(0).padStart(width, "0")` for a non-negative integer. */
  function Padded(n: nat, width: nat): (r: string)
    ensures IsDecimalNumeral(r) && ReadDigits(r, 10) == n
    ensures |r| == Max(|Decimal(n)|, width)
    ensures 1 <= width && n < Pow(10, width) ==> |r| == width
  {
    ZeroPadded(n, width);
    PadStart(Decimal(n), width, '0')
  }

  /** `year % 100` in JavaScript, whose remainder takes the sign of the year. */
  function YearRem(year: int): (r: int)
    ensures -100 < r < 100
    ensures year >= 0 ==> r == year % 100
    ensures year < 0 ==> r <= 0 && (year - r) % 100 == 0
  {
    if year >= 0 then year % 100 else 0 - (0 - year) % 100
  }

  // ------------------------------------------------------------ handlers

  /** `y`: `(getFullYear() % 100).toFixed(0).padStart(2, "0")`. */
  function YearTwoDigits(d: CalendarDate): (r: string)
    ensures IsSignedNumeral(r) && ReadSigned(r, 10) == YearRem(d.year)
    ensures d.year >= 0 ==> |r| == 2 && IsDecimalNumeral(r)
  {
    var y := YearRem(d.year);
    if y >= 0 then
      assert Pow(10, 2) == 100;
      Padded(y, 2)
    else
      RadixRoundTrip(y, 10);
      assert |Decimal(y)| >= 2;
      PadStart(Decimal(y), 2, '0')
  }

  /** `Y`: `getFullYear().toFixed(0).padStart(4, "0")`. */
  function Year(d: CalendarDate): (r: string)
    ensures d.year >= 0 ==> IsDecimalNumeral(r) && ReadDigits(r, 10) == d.year
    ensures 0 <= d.year <= 9999 ==> |r| == 4
    ensures d.year >= 0 ==> |r| == Max(|Decimal(d.year)|, 4)
    ensures d.year < 0 ==> r == PadStart(Decimal(d.year), 4, '0')
  {
    if d.year >= 0 then
      assert Pow(10, 4) == 10000;
      Padded(d.year, 4)
    else PadStart(Decimal(d.year), 4, '0')
  }

  /** `m`: the month counted from 1, two digits. */
  function Month(d: CalendarDate): (r: string)
    ensures |r| == 2 && IsDecimalNumeral(r) && ReadDigits(r, 10) == d.month0 + 1
  {
    assert Pow(10, 2) == 100;
    Padded(d.month0 + 1, 2)
  }

  /** `d`: the day of the month, two digits. */
  function Day(d: CalendarDate): (r: string)
    ensures |r| == 2 && IsDecimalNumeral(r) && ReadDigits(r, 10) == d.day
  {
    assert Pow(10, 2) == 100;
    Padded(d.day, 2)
  }

  /** `H`: the hour on the 24-hour clock, two digits. */
  function Hours(d: CalendarDate): (r: string)
    ensures |r| == 2 && IsDecimalNumeral(r) && ReadDigits(r, 10) == d.hours
  {
    assert Pow(10, 2) == 100;
    Padded(d.hours, 2)
  }

  /** `I`: the hour on the 12-hour clock, 12 for hours 0 and 12, two digits. */
  function Hours12(d: CalendarDate): (r: string)
    ensures |r| == 2 && IsDecimalNumeral(r)
    ensures 1 <= ReadDigits(r, 10) <= 12 && ReadDigits(r, 10) % 12 == d.hours % 12
  {
    assert Pow(10, 2) == 100;
    Padded(ClockHour(d.hours), 2)
  }

  /** The hour on the 12-hour clock: 12 in place of 0. */
  function ClockHour(hours: int): (v: nat)
    ensures 1 <= v <= 12 && v % 12 == hours % 12
  {
    var h := hours % 12;
    if h == 0 then 12 else h
  }

  /** `p` as format.js:165 writes it: hours up to and including 12 are "AM". */
  function MeridiemAsWritten(d: CalendarDate): (r: string)
    ensures r == "AM" || r == "PM"
    ensures r == "AM" <==> d.hours <= 12
  {
    if d.hours <= 12 then "AM" else "PM"
  }

  /** `p` on the 12-hour clock: "AM" before noon, "PM" from noon on. */
  function Meridiem(d: CalendarDate): (r: string)
    ensures r == "AM" || r == "PM"
    ensures r == "AM" <==> d.hours < 12
  {
    if d.hours < 12 then "AM" else "PM"
  }

  /** `M`: the minutes, two digits. */
  function Minutes(d: CalendarDate): (r: string)
    ensures |r| == 2 && IsDecimalNumeral(r) && ReadDigits(r, 10) == d.minutes
  {
    assert Pow(10, 2) == 100;
    Padded(d.minutes, 2)
  }

  /** `S`: the seconds, two digits. */
  function Seconds(d: CalendarDate): (r: string)
    ensures |r| == 2 && IsDecimalNumeral(r) && ReadDigits(r, 10) == d.seconds
  {
    assert Pow(10, 2) == 100;
    Padded(d.seconds, 2)
  }

  /** `s`: `(getTime() / 1000).toFixed(0)`. toFixed writes the sign of a negative
      number and rounds its magnitude, a tie going up: so the seconds are
      rounded half away from zero and a time in (-500, 0) gives "-0". Within
      the Date range the quotient is close enough to the exact one for the
      rounding to be exact. */
  function EpochSeconds(d: CalendarDate): string
  {
    var m := if d.time < 0 then 0 - d.time else d.time;
    (if d.time < 0 then "-" else "") + Decimal((m + 500) / 1000)
  }

  /** `f`: the milliseconds, three digits. */
  function Milliseconds(d: CalendarDate): (r: string)
    ensures |r| == 3 && IsDecimalNumeral(r) && ReadDigits(r, 10) == d.ms
  {
    assert Pow(10, 3) == 1000;
    Padded(d.ms, 3)
  }

  /** `T`: `HH:MM:SS`. */
  function Time(d: CalendarDate): string
  {
    Hours(d) + ":" + Minutes(d) + ":" + Seconds(d)
  }

  /** `w`: getDay(), a number, which replaceAll turns into its decimal text. */
  function Weekday(d: CalendarDate): (r: string)
    ensures |r| == 1 && IsDecimalDigit(r[0]) && ReadDigits(r, 10) == d.weekday
  {
    DecimalOfDigit(d.weekday);
    Decimal(d.weekday)
  }

  lemma DecimalOfDigit(n: nat)
    requires n < 10
    ensures Decimal(n) == [DigitChar(n)]
  {
  }

  // -------------------------------------------------------------- the table

  /** The keys in the order of the object literal of format.js:152-174. */
  function DefaultKeys(): seq<string>
  {
    ["y", "Y", "m", "d", "H", "I", "p", "M", "S", "s", "f", "T", "w"]
  }

  function DefaultRouting(): Routing<CalendarDate>
  {
    [ ("y", YearTwoDigits), ("Y", Year), ("m", Month), ("d", Day), ("H", Hours),
      ("I", Hours12), ("p", Meridiem), ("M", Minutes), ("S", Seconds),
      ("s", EpochSeconds), ("f", Milliseconds), ("T", Time), ("w", Weekday) ]
  }

  /** The default table's keys are thirteen distinct letters, none of them `%`
      or a regular-expression metacharacter. */
  lemma DefaultTablePlain()
    ensures Keys(DefaultRouting()) == DefaultKeys()
    ensures Plain('%', DefaultKeys())
    ensures forall i :: 0 <= i < |DefaultKeys()| ==> |DefaultKeys()[i]| == 1
  {
    DefaultTableKeys();
    DefaultKeysPlain();
  }

  lemma DefaultTableKeys()
    ensures Keys(DefaultRouting()) == DefaultKeys()
  {
    assert |Keys(DefaultRouting())| == |DefaultKeys()|;
  }

  lemma DefaultKeysPlain()
    ensures Plain('%', DefaultKeys())
    ensures forall i :: 0 <= i < |DefaultKeys()| ==> |DefaultKeys()[i]| == 1
  {
    DefaultKeysLetters();
    DefaultKeysDistinct();
  }

  lemma DefaultKeysLetters()
    ensures forall i :: 0 <= i < |DefaultKeys()| ==>
      |DefaultKeys()[i]| == 1 && '%' !in DefaultKeys()[i] && forall c :: c in DefaultKeys()[i] ==> !IsMetachar(c)
  {
    var keys := DefaultKeys();
    forall i | 0 <= i < |keys| ensures |keys[i]| == 1 && '%' !in keys[i] && forall c :: c in keys[i] ==> !IsMetachar(c) {
      LetterKey(keys[i]);
    }
  }

  /** A one-letter key is neither the mark nor a metacharacter. */
  lemma LetterKey(k: string)
    requires |k| == 1 && ('a' <= k[0] <= 'z' || 'A' <= k[0] <= 'Z')
    ensures '%' !in k && forall c :: c in k ==> !IsMetachar(c)
  {
    assert forall c :: c in k ==> c == k[0];
  }

  lemma DefaultKeysDistinct()
    ensures forall i, j :: 0 <= i < j < |DefaultKeys()| ==> DefaultKeys()[i] != DefaultKeys()[j]
  {
    var keys := DefaultKeys();
    forall i, j | 0 <= i < j < |keys| ensures keys[i] != keys[j] {
      assert keys[i][0] != keys[j][0];
    }
  }

  /** `format_date(msg, date)`: DefaultDateFormatter's format. It never throws,
      since every alternative of its pattern is a key of its table. */
  method FormatDate(msg: string, date: CalendarDate) returns (r: string)
    ensures Expand('%', DefaultKeys(), DefaultRouting(), msg, date, Intended) == Success(r)
  {
    DefaultTablePlain();
    var f := new DateLikeFormatter('%', DefaultRouting());
    var res := f.Format(msg, date);
    ValidAlternatives(f);
    FormatNeverFails(f, msg, date);
    r := res.value;
  }

  // ------------------------------------------------------------ properties

  /** `T` is the `H`, `M` and `S` fields joined by colons. */
  lemma TimeLayout(d: CalendarDate)
    ensures var r := Time(d);
            && |r| == 8 && r[2] == ':' && r[5] == ':'
            && IsDecimalNumeral(r[..2]) && ReadDigits(r[..2], 10) == d.hours
            && IsDecimalNumeral(r[3..5]) && ReadDigits(r[3..5], 10) == d.minutes
            && IsDecimalNumeral(r[6..]) && ReadDigits(r[6..], 10) == d.seconds
  {
    TimeOf(d, Hours(d), Minutes(d), Seconds(d));
    ClockLayout(Hours(d), Minutes(d), Seconds(d));
  }

  /** Where the parts of `h:m:s` sit when each has two characters. */
  lemma ClockLayout(h: string, m: string, s: string)
    requires |h| == 2 && |m| == 2 && |s| == 2
    ensures var r := h + ":" + m + ":" + s;
            |r| == 8 && r[2] == ':' && r[5] == ':' && r[..2] == h && r[3..5] == m && r[6..] == s
  {
  }

  /** `s` is the time in seconds, rounded half away from zero, with a `-`
      exactly when the time is before the epoch. */
  lemma EpochSecondsRounding(d: CalendarDate)
    ensures var r := EpochSeconds(d);
            var digits := if d.time < 0 then r[1..] else r;
            var m := if d.time < 0 then 0 - d.time else d.time;
            && r != [] && (r[0] == '-' <==> d.time < 0)
            && digits != [] && IsDecimalNumeral(digits)
            && 1000 * ReadDigits(digits, 10) - 500 <= m < 1000 * ReadDigits(digits, 10) + 500
  {
    var m := if d.time < 0 then 0 - d.time else d.time;
    var q := (m + 500) / 1000;
    DecimalRoundTrip(q);
    RoundHalf(m, q);
    var r := EpochSeconds(d);
    if d.time < 0 {
      assert r == "-" + Decimal(q) && r[1..] == Decimal(q);
    } else {
      assert r == Decimal(q);
    }
  }

  /** q is m / 1000 rounded half up. */
  lemma RoundHalf(m: nat, q: nat)
    requires q == (m + 500) / 1000
    ensures 1000 * q - 500 <= m < 1000 * q + 500
  {
  }

  /** The `I` and `p` fields together give back the hour. */
  lemma ClockRoundTrip(d: CalendarDate)
    ensures var h := ReadDigits(Hours12(d), 10);
            d.hours == h % 12 + (if Meridiem(d) == "PM" then 12 else 0)
  {
    ClockArithmetic(d.hours, ReadDigits(Hours12(d), 10), Meridiem(d) == "PM");
  }

  /** An hour of the day from its remainder by 12 and whether it is past noon. */
  lemma ClockArithmetic(hours: int, h: nat, pm: bool)
    requires 0 <= hours <= 23 && h % 12 == hours % 12 && (pm <==> hours >= 12)
    ensures hours == h % 12 + (if pm then 12 else 0)
  {
  }

  /** Under format.js:165 a time at midnight and one at noon give the same `I`
      and `p` fields, so those two fields cannot tell the hours apart. */
  lemma MidnightNoonAsWritten(midnight: CalendarDate, noon: CalendarDate)
    requires midnight.hours == 0 && noon.hours == 12
    ensures Hours12(midnight) == Hours12(noon) == "12"
    ensures MeridiemAsWritten(midnight) == MeridiemAsWritten(noon) == "AM"
  {
    TwelveOnTheClock(midnight);
    TwelveOnTheClock(noon);
  }

  /** Hours 0 and 12 both show 12 on the 12-hour clock. */
  lemma TwelveOnTheClock(d: CalendarDate)
    requires d.hours % 12 == 0
    ensures Hours12(d) == "12"
  {
    assert Hours12(d) == Padded(12, 2);
    PaddedTwo(12);
  }

  // ------------------------------------------------------------ test cases

  /** What n marks and the key at index i of the default table give: an even run
      is literal, an odd run is the handler's text after the escaped marks (only
      the text under format.js:145 as written). */
  function RunText(n: nat, i: nat, date: CalendarDate, mode: Escaping): string
    requires i < |DefaultKeys()|
  {
    if n % 2 == 0 then Repeat('%', n / 2) + DefaultKeys()[i]
    else if mode == Intended then Repeat('%', n / 2) + DefaultRouting()[i].1(date)
    else DefaultRouting()[i].1(date)
  }

  /** A directive of the default table: n marks and the key at index i, then rest. */
  lemma KeyAt(msg: string, i: nat, n: nat, rest: string, date: CalendarDate, mode: Escaping)
    requires i < |DefaultKeys()| && n >= 1
    requires msg == Repeat('%', n) + (DefaultKeys()[i] + rest)
    ensures Expand('%', DefaultKeys(), DefaultRouting(), msg, date, mode)
         == Prefix(RunText(n, i, date, mode), Expand('%', DefaultKeys(), DefaultRouting(), rest, date, mode))
  {
    var keys := DefaultKeys();
    var key := keys[i];
    DefaultTablePlain();
    assert (key + rest)[0] == key[0] && key == [key[0]] && key[0] != '%';
    FirstSingleChar(keys, key + rest, i);
    RunReplacement(i, n, date, mode);
    KeyRun('%', keys, DefaultRouting(), msg, i, n, rest, date, mode, RunText(n, i, date, mode));
  }

  /** The callback's text for n marks and the key at index i of the default table. */
  lemma RunReplacement(i: nat, n: nat, date: CalendarDate, mode: Escaping)
    requires i < |DefaultKeys()|
    ensures ReplaceDirective('%', n, DefaultKeys()[i], DefaultRouting(), date, mode) == Success(RunText(n, i, date, mode))
  {
    DefaultTablePlain();
    LookupAt(DefaultRouting(), i);
  }

  /** A message that is n marks and the key at index i. */
  lemma KeyAtEnd(msg: string, i: nat, n: nat, date: CalendarDate, mode: Escaping, text: string)
    requires i < |DefaultKeys()| && n >= 1
    requires msg == Repeat('%', n) + DefaultKeys()[i]
    requires text == RunText(n, i, date, mode)
    ensures Expand('%', DefaultKeys(), DefaultRouting(), msg, date, mode) == Success(text)
  {
    assert msg == Repeat('%', n) + (DefaultKeys()[i] + "");
    KeyAt(msg, i, n, "", date, mode);
    assert text + [] == text;
  }

  /** A message that is one directive gives the handler's text. */
  lemma DirectiveText(msg: string, i: nat, date: CalendarDate, text: string)
    requires i < |DefaultKeys()| && msg == ['%'] + DefaultKeys()[i]
    requires DefaultRouting()[i].1(date) == text
    ensures Expand('%', DefaultKeys(), DefaultRouting(), msg, date, Intended) == Success(text)
  {
    assert Repeat('%', 1) == ['%'];
    assert Repeat('%', 1 / 2) + text == text;
    KeyAtEnd(msg, i, 1, date, Intended, text);
  }

  /** A directive `%k` of the default table, then rest. */
  lemma DirectiveThen(msg: string, i: nat, rest: string, date: CalendarDate, text: string)
    requires i < |DefaultKeys()| && msg == ['%'] + DefaultKeys()[i] + rest
    requires DefaultRouting()[i].1(date) == text
    ensures Expand('%', DefaultKeys(), DefaultRouting(), msg, date, Intended)
         == Prefix(text, Expand('%', DefaultKeys(), DefaultRouting(), rest, date, Intended))
  {
    OneMark(DefaultKeys()[i], rest, text);
    KeyAt(msg, i, 1, rest, date, Intended);
  }

  lemma OneMark(key: string, rest: string, text: string)
    ensures ['%'] + key + rest == Repeat('%', 1) + (key + rest)
    ensures Repeat('%', 1 / 2) + text == text
  {
    assert Repeat('%', 1) == ['%'] && Repeat('%', 0) == [];
  }

  /** n below 100 as two decimal digits, with a leading zero below 10. */
  lemma PaddedTwo(n: nat)
    requires n < 100
    ensures Padded(n, 2) == [DigitChar(n / 10), DigitChar(n % 10)]
  {
    if n < 10 {
      assert Decimal(n) == [DigitChar(n)];
    } else {
      DivStep(n, 10);
      DigitsStep(n);
      assert Decimal(n) == [DigitChar(n / 10), DigitChar(n % 10)];
    }
  }

  /** n from 10 to 99 as three decimal digits. */
  lemma PaddedThree(n: nat)
    requires 10 <= n < 100
    ensures Padded(n, 3) == ['0', DigitChar(n / 10), DigitChar(n % 10)]
  {
    DivStep(n, 10);
    DigitsStep(n);
    assert Decimal(n) == [DigitChar(n / 10), DigitChar(n % 10)];
  }

  /** The last decimal digit of n comes last. */
  lemma DigitsStep(n: nat)
    requires 10 <= n
    ensures Digits(n, 10) == Digits(n / 10, 10) + [DigitChar(n % 10)]
  {
  }

  /** From year 1000 on, `padStart(4, "0")` adds nothing: `Y` is exactly the
      year's decimal form, five digits and more for years from 10000. */
  lemma YearUnpadded(d: CalendarDate)
    requires d.year >= 1000
    ensures Year(d) == Decimal(d.year)
  {
    var y: nat := d.year;
    DigitsStep(y);
    DigitsStep(y / 10);
    DigitsStep(y / 100);
    assert |Decimal(y)| >= 4 by {
      assert Decimal(y) == Digits(y, 10);
    }
    DecimalRoundTrip(y);
    JsLengthBmp(Decimal(y));
    PadWithin(Decimal(y), 4, '0');
  }

  lemma YearValue(d: CalendarDate)
    requires d.year == 2024
    ensures Year(d) == "2024"
  {
    DigitsStep(2024);
    DigitsStep(202);
    DigitsStep(20);
    assert Decimal(2024) == "2024";
  }

  lemma YearHandler(d: CalendarDate)
    requires d.year == 2024
    ensures DefaultRouting()[1].1(d) == "2024"
  {
    YearEntry(d);
    YearValue(d);
  }

  lemma YearTwoDigitsValue(d: CalendarDate)
    requires d.year == 2024
    ensures YearTwoDigits(d) == "24"
  {
    assert YearRem(d.year) == 24;
    YearTwoDigitsOf(d, 24);
    assert Padded(24, 2) == "24" by { PaddedTwo(24); }
  }

  lemma YearTwoDigitsOf(d: CalendarDate, y: nat)
    requires YearRem(d.year) == y
    ensures YearTwoDigits(d) == Padded(y, 2)
  {
  }

  lemma MonthDayValue(d: CalendarDate)
    requires d.month0 == 3 && d.day == 23
    ensures Month(d) == "04" && Day(d) == "23"
  {
    PaddedTwo(4);
    PaddedTwo(23);
  }

  lemma HoursValue(d: CalendarDate)
    requires d.hours == 13
    ensures Hours(d) == "13"
  {
    assert Hours(d) == Padded(13, 2);
    PaddedTwo(13);
  }

  lemma Hours12Value(d: CalendarDate)
    requires d.hours == 13
    ensures Hours12(d) == "01"
  {
    assert d.hours % 12 == 1;
    assert Hours12(d) == Padded(1, 2);
    PaddedTwo(1);
  }

  lemma MinutesSecondsValue(d: CalendarDate)
    requires d.minutes == 5 && d.seconds == 2
    ensures Minutes(d) == "05" && Seconds(d) == "02"
  {
    PaddedFiveTwo(d.minutes, d.seconds);
  }

  lemma PaddedFiveTwo(m: nat, s: nat)
    requires m == 5 && s == 2
    ensures Padded(m, 2) == "05" && Padded(s, 2) == "02"
  {
    PaddedTwo(m);
    PaddedTwo(s);
  }

  lemma MillisecondsValue(d: CalendarDate)
    requires d.ms == 33
    ensures Milliseconds(d) == "033"
  {
    PaddedThirtyThree(d.ms);
  }

  lemma PaddedThirtyThree(n: nat)
    requires n == 33
    ensures Padded(n, 3) == "033"
  {
    assert n / 10 == 3 && n % 10 == 3;
    assert DigitChar(3) == '3';
    PaddedThree(n);
  }

  lemma TimeValue(d: CalendarDate)
    requires d.hours == 13 && d.minutes == 5 && d.seconds == 2
    ensures Time(d) == "13:05:02"
  {
    HoursValue(d);
    MinutesSecondsValue(d);
    TimeOf(d, "13", "05", "02");
    ClockText();
  }

  lemma ClockText()
    ensures "13" + ":" + "05" + ":" + "02" == "13:05:02"
  {
  }

  lemma TimeOf(d: CalendarDate, h: string, m: string, s: string)
    requires Hours(d) == h && Minutes(d) == m && Seconds(d) == s
    ensures Time(d) == h + ":" + m + ":" + s
  {
  }

  /** The date of format.test.js:55-62, 23 April 2024 at midnight, a Tuesday. */
  function April23(time: int): CalendarDate
    requires -MaxTime <= time <= MaxTime
  {
    DateFields(2024, 3, 23, 0, 0, 0, 0, 2, time)
  }

  /** The date of format.test.js:63-69, 23 April 2024 at 13:05:02.033. */
  function April23Afternoon(time: int): CalendarDate
    requires -MaxTime <= time <= MaxTime
  {
    DateFields(2024, 3, 23, 13, 5, 2, 33, 2, time)
  }

  lemma YearTwoDigitsEntry(d: CalendarDate)
    ensures DefaultRouting()[0].1(d) == YearTwoDigits(d)
  {
  }

  lemma YearEntry(d: CalendarDate)
    ensures DefaultRouting()[1].1(d) == Year(d)
  {
    assert DefaultRouting()[1].1 == Year;
  }

  lemma MonthEntry(d: CalendarDate)
    ensures DefaultRouting()[2].1(d) == Month(d)
  {
  }

  lemma DayEntry(d: CalendarDate)
    ensures DefaultRouting()[3].1(d) == Day(d)
  {
  }

  lemma HoursEntry(d: CalendarDate)
    ensures DefaultRouting()[4].1(d) == Hours(d)
  {
  }

  lemma Hours12Entry(d: CalendarDate)
    ensures DefaultRouting()[5].1(d) == Hours12(d)
  {
  }

  lemma MeridiemEntry(d: CalendarDate)
    ensures DefaultRouting()[6].1(d) == Meridiem(d)
  {
  }

  lemma MinutesEntry(d: CalendarDate)
    ensures DefaultRouting()[7].1(d) == Minutes(d)
  {
  }

  lemma SecondsEntry(d: CalendarDate)
    ensures DefaultRouting()[8].1(d) == Seconds(d)
  {
  }

  lemma MillisecondsEntry(d: CalendarDate)
    ensures DefaultRouting()[10].1(d) == Milliseconds(d)
  {
  }

  lemma TimeEntry(d: CalendarDate)
    ensures DefaultRouting()[11].1(d) == Time(d)
  {
  }

  /** The messages of the one-directive cases, spelled as mark and key. */
  lemma DirectiveSpellings()
    ensures "%y" == ['%'] + DefaultKeys()[0] && "%Y" == ['%'] + DefaultKeys()[1]
    ensures "%m" == ['%'] + DefaultKeys()[2] && "%d" == ['%'] + DefaultKeys()[3]
    ensures "%H" == ['%'] + DefaultKeys()[4] && "%I" == ['%'] + DefaultKeys()[5]
    ensures "%p" == ['%'] + DefaultKeys()[6] && "%M" == ['%'] + DefaultKeys()[7]
    ensures "%S" == ['%'] + DefaultKeys()[8] && "%f" == ['%'] + DefaultKeys()[10]
    ensures "%T" == ['%'] + DefaultKeys()[11]
  {
  }

  /** `%Y` gives "2024" (format.test.js:55). */
  lemma YearTestCase(time: int)
    requires -MaxTime <= time <= MaxTime
    ensures Expand('%', DefaultKeys(), DefaultRouting(), "%Y", April23(time), Intended) == Success("2024")
  {
    YearHandler(April23(time));
    DirectiveSpellings();
    DirectiveText("%Y", 1, April23(time), "2024");
  }

  /** `%y` gives "24" (format.test.js:56). */
  lemma YearTwoDigitsTestCase(time: int)
    requires -MaxTime <= time <= MaxTime
    ensures Expand('%', DefaultKeys(), DefaultRouting(), "%y", April23(time), Intended) == Success("24")
  {
    var d := April23(time);
    YearTwoDigitsEntry(d);
    YearTwoDigitsValue(d);
    DirectiveSpellings();
    DirectiveText("%y", 0, d, "24");
  }

  /** `%m` gives "04" (format.test.js:57). */
  lemma MonthTestCase(time: int)
    requires -MaxTime <= time <= MaxTime
    ensures Expand('%', DefaultKeys(), DefaultRouting(), "%m", April23(time), Intended) == Success("04")
  {
    var d := April23(time);
    MonthEntry(d);
    MonthDayValue(d);
    DirectiveSpellings();
    DirectiveText("%m", 2, d, "04");
  }

  /** `%d` gives "23" (format.test.js:58). */
  lemma DayTestCase(time: int)
    requires -MaxTime <= time <= MaxTime
    ensures Expand('%', DefaultKeys(), DefaultRouting(), "%d", April23(time), Intended) == Success("23")
  {
    var d := April23(time);
    DayEntry(d);
    MonthDayValue(d);
    DirectiveSpellings();
    DirectiveText("%d", 3, d, "23");
  }

  /** `%H` gives "13" (format.test.js:63). */
  lemma HoursTestCase(time: int)
    requires -MaxTime <= time <= MaxTime
    ensures Expand('%', DefaultKeys(), DefaultRouting(), "%H", April23Afternoon(time), Intended) == Success("13")
  {
    var d := April23Afternoon(time);
    HoursEntry(d);
    HoursValue(d);
    DirectiveSpellings();
    DirectiveText("%H", 4, d, "13");
  }

  /** `%I` gives "01" (format.test.js:64). */
  lemma Hours12TestCase(time: int)
    requires -MaxTime <= time <= MaxTime
    ensures Expand('%', DefaultKeys(), DefaultRouting(), "%I", April23Afternoon(time), Intended) == Success("01")
  {
    var d := April23Afternoon(time);
    Hours12Entry(d);
    Hours12Value(d);
    DirectiveSpellings();
    DirectiveText("%I", 5, d, "01");
  }

  /** `%M` gives "05" (format.test.js:65). */
  lemma MinutesTestCase(time: int)
    requires -MaxTime <= time <= MaxTime
    ensures Expand('%', DefaultKeys(), DefaultRouting(), "%M", April23Afternoon(time), Intended) == Success("05")
  {
    var d := April23Afternoon(time);
    MinutesEntry(d);
    MinutesSecondsValue(d);
    DirectiveSpellings();
    DirectiveText("%M", 7, d, "05");
  }

  /** `%S` gives "02" (format.test.js:66). */
  lemma SecondsTestCase(time: int)
    requires -MaxTime <= time <= MaxTime
    ensures Expand('%', DefaultKeys(), DefaultRouting(), "%S", April23Afternoon(time), Intended) == Success("02")
  {
    var d := April23Afternoon(time);
    SecondsEntry(d);
    MinutesSecondsValue(d);
    DirectiveSpellings();
    DirectiveText("%S", 8, d, "02");
  }

  /** `%f` gives "033" (format.test.js:67). */
  lemma MillisecondsTestCase(time: int)
    requires -MaxTime <= time <= MaxTime
    ensures Expand('%', DefaultKeys(), DefaultRouting(), "%f", April23Afternoon(time), Intended) == Success("033")
  {
    var d := April23Afternoon(time);
    MillisecondsEntry(d);
    MillisecondsValue(d);
    DirectiveSpellings();
    DirectiveText("%f", 10, d, "033");
  }

  /** `%p` gives "PM" (format.test.js:68). */
  lemma MeridiemTestCase(time: int)
    requires -MaxTime <= time <= MaxTime
    ensures Expand('%', DefaultKeys(), DefaultRouting(), "%p", April23Afternoon(time), Intended) == Success("PM")
  {
    var d := April23Afternoon(time);
    MeridiemEntry(d);
    DirectiveSpellings();
    DirectiveText("%p", 6, d, "PM");
  }

  /** `%T` gives "13:05:02" (format.test.js:69). */
  lemma TimeTestCase(time: int)
    requires -MaxTime <= time <= MaxTime
    ensures Expand('%', DefaultKeys(), DefaultRouting(), "%T", April23Afternoon(time), Intended) == Success("13:05:02")
  {
    TimeCase(April23Afternoon(time));
  }

  lemma TimeCase(d: CalendarDate)
    requires d.hours == 13 && d.minutes == 5 && d.seconds == 2
    ensures Expand('%', DefaultKeys(), DefaultRouting(), "%T", d, Intended) == Success("13:05:02")
  {
    TimeEntry(d);
    TimeValue(d);
    DirectiveSpellings();
    DirectiveText("%T", 11, d, "13:05:02");
  }

  /** An even run is literal: `%%d` gives "%d" (format.test.js:59). */
  lemma EvenRunTestCase(time: int)
    requires -MaxTime <= time <= MaxTime
    ensures Expand('%', DefaultKeys(), DefaultRouting(), "%%d", April23(time), Intended) == Success("%d")
  {
    assert "%%d" == Repeat('%', 2) + DefaultKeys()[3];
    assert "%d" == Repeat('%', 1) + DefaultKeys()[3];
    KeyAtEnd("%%d", 3, 2, April23(time), Intended, "%d");
  }

  lemma MonthHandler(d: CalendarDate)
    requires d.month0 == 3 && d.day == 23
    ensures DefaultRouting()[2].1(d) == "04"
  {
    MonthEntry(d);
    MonthDayValue(d);
  }

  lemma DayHandler(d: CalendarDate)
    requires d.month0 == 3 && d.day == 23
    ensures DefaultRouting()[3].1(d) == "23"
  {
    DayEntry(d);
    MonthDayValue(d);
  }

  /** `%m%d` on 23 April gives "0423". */
  lemma MonthDayRun(d: CalendarDate)
    requires d.month0 == 3 && d.day == 23
    ensures Expand('%', DefaultKeys(), DefaultRouting(), "%m%d", d, Intended) == Success("0423")
  {
    DayHandler(d);
    MonthHandler(d);
    MonthDaySpelling();
    DirectiveText("%d", 3, d, "23");
    DirectiveThen("%m%d", 2, "%d", d, "04");
  }

  lemma MonthDaySpelling()
    ensures "%d" == ['%'] + DefaultKeys()[3]
    ensures "%m%d" == ['%'] + DefaultKeys()[2] + "%d"
    ensures "04" + "23" == "0423"
  {
  }

  /** `%Y%m%d` gives "20240423" (format.test.js:61): directives one after another. */
  lemma YearMonthDayTestCase(time: int)
    requires -MaxTime <= time <= MaxTime
    ensures Expand('%', DefaultKeys(), DefaultRouting(), "%Y%m%d", April23(time), Intended) == Success("20240423")
  {
    var d := April23(time);
    MonthDayRun(d);
    YearHandler(d);
    YearMonthDaySpelling();
    DirectiveThen("%Y%m%d", 1, "%m%d", d, "2024");
  }

  lemma YearMonthDaySpelling()
    ensures "%Y%m%d" == ['%'] + DefaultKeys()[1] + "%m%d"
    ensures "2024" + "0423" == "20240423"
  {
  }

  /** `/%d` on 23 April gives "/23". */
  lemma SlashDay(d: CalendarDate)
    requires d.month0 == 3 && d.day == 23
    ensures Expand('%', DefaultKeys(), DefaultRouting(), "/%d", d, Intended) == Success("/23")
  {
    DayHandler(d);
    SlashDaySpelling();
    DirectiveText("%d", 3, d, "23");
    ExpandAppend('%', DefaultKeys(), DefaultRouting(), "/", "%d", d, Intended);
  }

  lemma SlashDaySpelling()
    ensures "%d" == ['%'] + DefaultKeys()[3]
    ensures "/" + "%d" == "/%d" && "/" + "23" == "/23" && '%' !in "/"
  {
  }

  /** `/%m/%d` on 23 April gives "/04/23". */
  lemma SlashMonthDay(d: CalendarDate)
    requires d.month0 == 3 && d.day == 23
    ensures Expand('%', DefaultKeys(), DefaultRouting(), "/%m/%d", d, Intended) == Success("/04/23")
  {
    SlashDay(d);
    MonthHandler(d);
    SlashMonthDaySpelling();
    DirectiveThen("%m/%d", 2, "/%d", d, "04");
    ExpandAppend('%', DefaultKeys(), DefaultRouting(), "/", "%m/%d", d, Intended);
  }

  lemma SlashMonthDaySpelling()
    ensures "%m/%d" == ['%'] + DefaultKeys()[2] + "/%d"
    ensures "/" + "%m/%d" == "/%m/%d" && "/" + ("04" + "/23") == "/04/23" && '%' !in "/"
  {
  }

  /** `%Y/%m/%d` gives "2024/04/23" (format.test.js:62): a directive after plain text. */
  lemma SlashedDateTestCase(time: int)
    requires -MaxTime <= time <= MaxTime
    ensures Expand('%', DefaultKeys(), DefaultRouting(), "%Y/%m/%d", April23(time), Intended) == Success("2024/04/23")
  {
    var d := April23(time);
    SlashMonthDay(d);
    YearHandler(d);
    SlashedDateSpelling();
    DirectiveThen("%Y/%m/%d", 1, "/%m/%d", d, "2024");
  }

  lemma SlashedDateSpelling()
    ensures "%Y/%m/%d" == ['%'] + DefaultKeys()[1] + "/%m/%d"
    ensures "2024" + "/04/23" == "2024/04/23"
  {
  }

  /** `%%%d` on 23 April gives "%23" (format.test.js:60) under the corrected escaping. */
  lemma OddRunTestCase(time: int)
    requires -MaxTime <= time <= MaxTime
    ensures Expand('%', DefaultKeys(), DefaultRouting(), "%%%d", April23(time), Intended) == Success("%23")
  {
    var d := April23(time);
    DayEntry(d);
    MonthDayValue(d);
    assert "%%%d" == Repeat('%', 3) + DefaultKeys()[3];
    assert "%23" == Repeat('%', 1) + "23";
    KeyAtEnd("%%%d", 3, 3, d, Intended, "%23");
  }

  /** Under format.js:145 as written `%%%d` on 23 April gives "23": the escaped mark is lost. */
  lemma OddRunAsWritten(time: int)
    requires -MaxTime <= time <= MaxTime
    ensures Expand('%', DefaultKeys(), DefaultRouting(), "%%%d", April23(time), AsWritten) == Success("23")
  {
    var d := April23(time);
    DayEntry(d);
    MonthDayValue(d);
    assert "%%%d" == Repeat('%', 3) + DefaultKeys()[3];
    KeyAtEnd("%%%d", 3, 3, d, AsWritten, "23");
  }
}
