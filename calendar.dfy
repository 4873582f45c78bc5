/**
 * Python's naive `datetime` at microsecond resolution, in the range that
 * `datetime` supports (years 1 to 9999), as seconds since 1970-01-01T00:00:00
 * plus microseconds. Also `t + timedelta(seconds=n)`, the comparison `>`, and
 * the `'%Y-%m-%dT%H:%M:%SZ'` formatter and parser used to persist tokens, over
 * the proleptic Gregorian calendar.
 */
module Calendar {
  import opened Wrappers
  import opened Text

  /** 0001-01-01T00:00:00 and 9999-12-31T23:59:59, in seconds since 1970. */
  const MinSeconds: int := -62135596800
  const MaxSeconds: int := 253402300799
  /** Days from 0001-01-01 to 1970-01-01. */
  const EpochOrdinal: int := 719162

  datatype Moment = Moment(seconds: int, micros: int)

  type Instant = m: Moment | MinSeconds <= m.seconds <= MaxSeconds && 0 <= m.micros < 1000000
    witness Moment(0, 0)

  /** `a > b` on datetimes. */
  predicate After(a: Instant, b: Instant)
  {
    a.seconds > b.seconds || (a.seconds == b.seconds && a.micros > b.micros)
  }

  /** `t + timedelta(seconds=n)`; `None` where Python raises OverflowError. */
  function AddSeconds(t: Instant, n: int): (r: Option<Instant>)
    ensures r.Some? <==> MinSeconds <= t.seconds + n <= MaxSeconds
    ensures r.Some? ==> r.value.seconds == t.seconds + n && r.value.micros == t.micros
  {
    var s := t.seconds + n;
    if MinSeconds <= s <= MaxSeconds then Some(Moment(s, t.micros)) else None
  }

  /** The datetime with its microseconds dropped. */
  function Truncated(t: Instant): Instant
  {
    Moment(t.seconds, 0)
  }

  predicate IsLeap(y: int)
  {
    y % 4 == 0 && (y % 100 != 0 || y % 400 == 0)
  }

  function YearLength(y: int): int
  {
    if IsLeap(y) then 366 else 365
  }

  /** Days from 0001-01-01 to the first day of year `y`. */
  function DaysBeforeYear(y: int): int
    requires y >= 1
  {
    var n := y - 1;
    365 * n + n / 4 - n / 100 + n / 400
  }

  lemma YearStep(y: int)
    requires y >= 1
    ensures DaysBeforeYear(y + 1) == DaysBeforeYear(y) + YearLength(y)
  {
    var n := y - 1;
    StepDiv4(n);
    StepDiv100(n);
    StepDiv400(n);
    var d4 := (y / 4) - (n / 4);
    var d100 := (y / 100) - (n / 100);
    var d400 := (y / 400) - (n / 400);
    assert DaysBeforeYear(y + 1) - DaysBeforeYear(y) == 365 + d4 - d100 + d400;
    if y % 400 == 0 {
      Mod400(y);
      assert d4 == 1 && d100 == 1 && d400 == 1;
    } else if y % 100 == 0 {
      Mod100(y);
      assert d4 == 1 && d100 == 1 && d400 == 0;
    } else {
      assert d100 == 0 && d400 == 0;
    }
  }

  lemma Mod400(y: int)
    requires y % 400 == 0
    ensures y % 100 == 0 && y % 4 == 0
  {
    var k := y / 400;
    assert y == 100 * (4 * k);
    assert y == 4 * (100 * k);
  }

  lemma Mod100(y: int)
    requires y % 100 == 0
    ensures y % 4 == 0
  {
    var k := y / 100;
    assert y == 4 * (25 * k);
  }

  lemma StepDiv4(n: int)
    ensures (n + 1) / 4 == n / 4 + (if (n + 1) % 4 == 0 then 1 else 0)
  {
  }

  lemma StepDiv100(n: int)
    ensures (n + 1) / 100 == n / 100 + (if (n + 1) % 100 == 0 then 1 else 0)
  {
  }

  lemma StepDiv400(n: int)
    ensures (n + 1) / 400 == n / 400 + (if (n + 1) % 400 == 0 then 1 else 0)
  {
  }

  /** The year holding day `d` (counted from 0 at 0001-01-01), searched
      upwards from `y`. */
  function FindYear(d: int, y: int): (r: int)
    requires 1 <= y && DaysBeforeYear(y) <= d
    ensures r >= y && DaysBeforeYear(r) <= d < DaysBeforeYear(r + 1)
    decreases d - DaysBeforeYear(y)
  {
    YearStep(y);
    if d < DaysBeforeYear(y + 1) then y else FindYear(d, y + 1)
  }

  function CumulativeDays(m: int): int
    requires 1 <= m <= 13
  {
    [0, 31, 59, 90, 120, 151, 181, 212, 243, 273, 304, 334, 365][m - 1]
  }

  /** Days from the first of January of `y` to the first day of month `m`. */
  function DaysBeforeMonth(y: int, m: int): int
    requires 1 <= m <= 13
  {
    CumulativeDays(m) + (if m > 2 && IsLeap(y) then 1 else 0)
  }

  function MonthLength(y: int, m: int): int
    requires 1 <= m <= 12
  {
    DaysBeforeMonth(y, m + 1) - DaysBeforeMonth(y, m)
  }

  /** The month holding day-of-year `doy` (from 0), searched upwards from `m`. */
  function FindMonth(y: int, doy: int, m: int): (r: int)
    requires 1 <= m <= 12 && DaysBeforeMonth(y, m) <= doy < YearLength(y)
    ensures m <= r <= 12 && DaysBeforeMonth(y, r) <= doy < DaysBeforeMonth(y, r + 1)
    decreases 12 - m
  {
    if doy < DaysBeforeMonth(y, m + 1) || m == 12 then m else FindMonth(y, doy, m + 1)
  }

  /** Broken-down fields of a datetime. */
  datatype Civil = Civil(year: int, month: int, day: int, hour: int, minute: int, second: int)

  predicate ValidCivil(c: Civil)
  {
    && 1 <= c.year <= 9999
    && 1 <= c.month <= 12
    && 1 <= c.day <= MonthLength(c.year, c.month)
    && 0 <= c.hour < 24 && 0 <= c.minute < 60 && 0 <= c.second < 60
  }

  /** Seconds since 1970 of a valid set of fields. */
  function SecondsOf(c: Civil): int
    requires ValidCivil(c)
  {
    var days := DaysBeforeYear(c.year) + DaysBeforeMonth(c.year, c.month) + c.day - 1 - EpochOrdinal;
    days * 86400 + c.hour * 3600 + c.minute * 60 + c.second
  }

  /** The year, month and day of day `d` counted from 0 at 0001-01-01. */
  function DateOfDay(d: int): (r: (int, int, int))
    requires 0 <= d < DaysBeforeYear(10000)
    ensures 1 <= r.0 <= 9999 && 1 <= r.1 <= 12 && 1 <= r.2 <= MonthLength(r.0, r.1)
    ensures DaysBeforeYear(r.0) + DaysBeforeMonth(r.0, r.1) + r.2 - 1 == d
  {
    assert DaysBeforeYear(d / 366 + 1) <= d;
    var y := FindYear(d, d / 366 + 1);
    assert y <= 9999 by {
      if y >= 10000 {
        DaysBeforeYearMonotone(10000, y);
      }
    }
    var doy := d - DaysBeforeYear(y);
    YearStep(y);
    var m := FindMonth(y, doy, 1);
    (y, m, doy - DaysBeforeMonth(y, m) + 1)
  }

  /** The fields of a datetime (its microseconds aside). */
  function CivilOf(t: Instant): (c: Civil)
    ensures ValidCivil(c)
  {
    CivilOfDay(t.seconds / 86400, t.seconds % 86400)
  }

  /** The fields of second `sod` of day `q`, both counted from 1970-01-01. */
  function CivilOfDay(q: int, sod: int): (c: Civil)
    requires 0 <= q + EpochOrdinal < DaysBeforeYear(10000) && 0 <= sod < 86400
    ensures ValidCivil(c)
  {
    var date := DateOfDay(q + EpochOrdinal);
    Civil(date.0, date.1, date.2, sod / 3600, (sod % 3600) / 60, sod % 60)
  }

  lemma DaysBeforeYearMonotone(a: int, b: int)
    requires 1 <= a <= b
    ensures DaysBeforeYear(a) <= DaysBeforeYear(b)
  {
  }

  /** The fields of a datetime determine its seconds. */
  lemma CivilOfSeconds(t: Instant)
    ensures SecondsOf(CivilOf(t)) == t.seconds
  {
    var q := t.seconds / 86400;
    var sod := t.seconds % 86400;
    CivilOfDaySeconds(q, sod);
    assert t.seconds == q * 86400 + sod;
  }

  lemma CivilOfDaySeconds(q: int, sod: int)
    requires 0 <= q + EpochOrdinal < DaysBeforeYear(10000) && 0 <= sod < 86400
    ensures SecondsOf(CivilOfDay(q, sod)) == q * 86400 + sod
  {
    var c := CivilOfDay(q, sod);
    assert DaysBeforeYear(c.year) + DaysBeforeMonth(c.year, c.month) + c.day - 1 - EpochOrdinal == q;
    TimeOfDay(sod);
  }

  /** Hours, minutes and seconds add up to the second of the day. */
  lemma TimeOfDay(sod: int)
    requires 0 <= sod < 86400
    ensures (sod / 3600) * 3600 + ((sod % 3600) / 60) * 60 + sod % 60 == sod
  {
  }

  lemma SecondsOfInRange(c: Civil)
    requires ValidCivil(c)
    ensures MinSeconds <= SecondsOf(c) <= MaxSeconds
  {
    YearStep(c.year);
    DaysBeforeYearMonotone(c.year + 1, 10000);
    assert DaysBeforeMonth(c.year, c.month + 1) <= DaysBeforeMonth(c.year, 13);
  }

  function Pow10(w: nat): (p: nat)
    ensures p >= 1
  {
    if w == 0 then 1 else 10 * Pow10(w - 1)
  }

  /** `n` in `w` decimal digits with leading zeros, as `%Y`, `%m`, ... print it. */
  function Pad(n: nat, w: nat): (s: string)
    ensures |s| == w && AllDigits(s)
  {
    if w == 0 then "" else Pad(n / 10, w - 1) + [DigitChar(n % 10)]
  }

  lemma {:induction false} PadValue(n: nat, w: nat)
    requires n < Pow10(w)
    ensures DigitsValue(Pad(n, w)) == n
  {
    if w > 0 {
      assert n / 10 < Pow10(w - 1);
      PadValue(n / 10, w - 1);
      var s := Pad(n, w);
      assert s == Pad(n / 10, w - 1) + [DigitChar(n % 10)];
      assert s[..|s| - 1] == Pad(n / 10, w - 1);
      assert DigitsValue(s) == DigitsValue(Pad(n / 10, w - 1)) * 10 + DigitValue(DigitChar(n % 10));
    }
  }

  /** Fields that `%Y` and the two-digit directives print without widening. */
  predicate PrintableCivil(c: Civil)
  {
    && 0 <= c.year < 10000 && 0 <= c.month < 100 && 0 <= c.day < 100
    && 0 <= c.hour < 100 && 0 <= c.minute < 100 && 0 <= c.second < 100
  }

  lemma ValidPrintable(c: Civil)
    requires ValidCivil(c)
    ensures PrintableCivil(c)
  {
    assert MonthLength(c.year, c.month) <= 31;
  }

  /** The fields written in the `'%Y-%m-%dT%H:%M:%SZ'` layout. */
  function FormatCivil(c: Civil): string
    requires PrintableCivil(c)
  {
    DateText(c.year, c.month, c.day) + "T" + TimeText(c.hour, c.minute, c.second) + "Z"
  }

  /** Where each field and separator of the layout sits. */
  lemma FormatCivilSlices(c: Civil)
    requires PrintableCivil(c)
    ensures var s := FormatCivil(c);
      && |s| == 20
      && s[0..4] == Pad(c.year, 4) && s[5..7] == Pad(c.month, 2) && s[8..10] == Pad(c.day, 2)
      && s[11..13] == Pad(c.hour, 2) && s[14..16] == Pad(c.minute, 2) && s[17..19] == Pad(c.second, 2)
      && s[4] == '-' && s[7] == '-' && s[10] == 'T' && s[13] == ':' && s[16] == ':' && s[19] == 'Z'
  {
    var date := DateText(c.year, c.month, c.day);
    var time := TimeText(c.hour, c.minute, c.second);
    assert FormatCivil(c) == date + "T" + time + "Z";
    DateSlices(c.year, c.month, c.day);
    TimeSlices(c.hour, c.minute, c.second);
    PieceAt([], date, "T" + time + "Z", 0, 4);
    PieceAt([], date, "T" + time + "Z", 5, 7);
    PieceAt([], date, "T" + time + "Z", 8, 10);
    PieceAt(date + "T", time, "Z", 0, 2);
    PieceAt(date + "T", time, "Z", 3, 5);
    PieceAt(date + "T", time, "Z", 6, 8);
  }

  function DateText(y: nat, m: nat, d: nat): string
  {
    Pad(y, 4) + "-" + Pad(m, 2) + "-" + Pad(d, 2)
  }

  function TimeText(h: nat, m: nat, s: nat): string
  {
    Pad(h, 2) + ":" + Pad(m, 2) + ":" + Pad(s, 2)
  }

  lemma DateSlices(y: nat, m: nat, d: nat)
    ensures var t := DateText(y, m, d);
      |t| == 10 && t[0..4] == Pad(y, 4) && t[4] == '-' && t[5..7] == Pad(m, 2) && t[7] == '-' && t[8..10] == Pad(d, 2)
  {
  }

  lemma TimeSlices(h: nat, m: nat, s: nat)
    ensures var t := TimeText(h, m, s);
      |t| == 8 && t[0..2] == Pad(h, 2) && t[2] == ':' && t[3..5] == Pad(m, 2) && t[5] == ':' && t[6..8] == Pad(s, 2)
  {
  }

  /** A slice of the middle piece of a concatenation. */
  lemma PieceAt(pre: string, x: string, post: string, i: nat, j: nat)
    requires i <= j <= |x|
    ensures (pre + x + post)[|pre| + i..|pre| + j] == x[i..j]
  {
  }

  /** `t.strftime('%Y-%m-%dT%H:%M:%SZ')`: always twenty characters, digits
      apart from the separators. */
  function FormatTimestamp(t: Instant): (s: string)
    ensures HasTimestampShape(s)
  {
    var c := CivilOf(t);
    ValidPrintable(c);
    FormatCivilSlices(c);
    FormatCivil(c)
  }

  predicate HasTimestampShape(s: string)
  {
    && |s| == 20
    && s[4] == '-' && s[7] == '-' && s[10] == 'T' && s[13] == ':' && s[16] == ':' && s[19] == 'Z'
    && AllDigits(s[0..4]) && AllDigits(s[5..7]) && AllDigits(s[8..10])
    && AllDigits(s[11..13]) && AllDigits(s[14..16]) && AllDigits(s[17..19])
  }

  /** `datetime.strptime(s, '%Y-%m-%dT%H:%M:%SZ')` on its zero-padded form;
      `None` where Python raises ValueError. */
  function ParseTimestamp(s: string): (r: Option<Instant>)
    ensures r.Some? ==> HasTimestampShape(s) && r.value.micros == 0
  {
    if HasTimestampShape(s) then InstantOf(FieldsOf(s)) else None
  }

  /** The six numbers of the layout, read as decimals. */
  function FieldsOf(s: string): Civil
    requires HasTimestampShape(s)
  {
    Civil(DigitsValue(s[0..4]), DigitsValue(s[5..7]), DigitsValue(s[8..10]),
          DigitsValue(s[11..13]), DigitsValue(s[14..16]), DigitsValue(s[17..19]))
  }

  /** The datetime of a set of fields; `None` where they name no date. */
  function InstantOf(c: Civil): (r: Option<Instant>)
    ensures r.Some? <==> ValidCivil(c)
    ensures r.Some? ==> r.value.micros == 0
  {
    if ValidCivil(c) then
      SecondsOfInRange(c);
      Some(Moment(SecondsOf(c), 0))
    else None
  }

  /** Parsing the layout gives back the fields it was written from. */
  lemma ParseFormatCivil(c: Civil)
    requires ValidCivil(c)
    ensures PrintableCivil(c) && ParseTimestamp(FormatCivil(c)) == Some(Moment(SecondsOf(c), 0))
  {
    ValidPrintable(c);
    FieldsOfFormat(c);
  }

  lemma FieldsOfFormat(c: Civil)
    requires PrintableCivil(c)
    ensures HasTimestampShape(FormatCivil(c)) && FieldsOf(FormatCivil(c)) == c
  {
    FormatCivilSlices(c);
    PadValue4(c.year);
    PadValue2(c.month);
    PadValue2(c.day);
    PadValue2(c.hour);
    PadValue2(c.minute);
    PadValue2(c.second);
    FieldsOfText(FormatCivil(c), c);
  }

  /** A text laid out from the padded fields reads back as those fields. */
  lemma FieldsOfText(s: string, c: Civil)
    requires |s| == 20 && PrintableCivil(c)
    requires s[4] == '-' && s[7] == '-' && s[10] == 'T' && s[13] == ':' && s[16] == ':' && s[19] == 'Z'
    requires s[0..4] == Pad(c.year, 4) && s[5..7] == Pad(c.month, 2) && s[8..10] == Pad(c.day, 2)
    requires s[11..13] == Pad(c.hour, 2) && s[14..16] == Pad(c.minute, 2) && s[17..19] == Pad(c.second, 2)
    requires DigitsValue(Pad(c.year, 4)) == c.year && DigitsValue(Pad(c.month, 2)) == c.month
    requires DigitsValue(Pad(c.day, 2)) == c.day && DigitsValue(Pad(c.hour, 2)) == c.hour
    requires DigitsValue(Pad(c.minute, 2)) == c.minute && DigitsValue(Pad(c.second, 2)) == c.second
    ensures HasTimestampShape(s) && FieldsOf(s) == c
  {
  }

  lemma PadValue2(n: nat)
    requires n < 100
    ensures DigitsValue(Pad(n, 2)) == n
  {
    assert Pow10(2) == 100;
    PadValue(n, 2);
  }

  lemma PadValue4(n: nat)
    requires n < 10000
    ensures DigitsValue(Pad(n, 4)) == n
  {
    assert Pow10(4) == 10000;
    PadValue(n, 4);
  }

  /** Parsing the formatted text gives the datetime back, to the second. */
  lemma ParseFormat(t: Instant)
    ensures ParseTimestamp(FormatTimestamp(t)) == Some(Truncated(t))
  {
    ValidPrintable(CivilOf(t));
    ParseFormatCivil(CivilOf(t));
    CivilOfSeconds(t);
  }

  /** `str(t)`: `'YYYY-MM-DD HH:MM:SS'`, with `'.ffffff'` when the
      microseconds are not zero. */
  function DisplayString(t: Instant): (s: string)
    ensures |s| == (if t.micros == 0 then 19 else 26)
  {
    var c := CivilOf(t);
    DateText(c.year, c.month, c.day) + " " + TimeText(c.hour, c.minute, c.second)
      + (if t.micros == 0 then "" else "." + Pad(t.micros, 6))
  }
}
