/**
 * Timestamps as whole seconds since 1970-01-01T00:00:00 (UTC, naive), restricted to the
 * range of a Python `datetime` (years 1 to 9999), together with
 *  - the parse `datetime.strptime(s, '%Y-%m-%dT%H:%M:%SZ')` used for NewsAPI's
 *    `publishedAt` (None where strptime raises ValueError), and
 *  - the rendering `datetime.isoformat()` used by `Article.to_dict`.
 */
module Timestamps {
  import opened Wrappers

  const SECONDS_PER_DAY: int := 86400
  /** Days from 0001-01-01 to 1970-01-01 in the proleptic Gregorian calendar. */
  const UNIX_EPOCH_DAYS: int := 719162
  /** Days from 0001-01-01 to 10000-01-01, the first day a `datetime` cannot hold. */
  const DAYS_BEFORE_10000: int := 3652059
  /** 0001-01-01T00:00:00 */
  const MIN_TIME: int := -UNIX_EPOCH_DAYS * SECONDS_PER_DAY
  /** 9999-12-31T23:59:59 */
  const MAX_TIME: int := (DAYS_BEFORE_10000 - UNIX_EPOCH_DAYS) * SECONDS_PER_DAY - 1

  /** The instants a `datetime` (at whole-second precision) can represent. */
  predicate InRange(t: int) {
    MIN_TIME <= t <= MAX_TIME
  }

  datatype DateTime = DateTime(year: int, month: int, day: int, hour: int, minute: int, second: int)

  predicate IsLeapYear(y: int) {
    y % 4 == 0 && (y % 100 != 0 || y % 400 == 0)
  }

  function DaysInYear(y: int): int {
    if IsLeapYear(y) then 366 else 365
  }

  function DaysInMonth(y: int, m: int): int {
    if m == 2 then (if IsLeapYear(y) then 29 else 28)
    else if m == 4 || m == 6 || m == 9 || m == 11 then 30
    else 31
  }

  /** What the `datetime` constructor accepts (it raises ValueError otherwise). */
  predicate IsValid(dt: DateTime) {
    && 1 <= dt.year <= 9999
    && 1 <= dt.month <= 12
    && 1 <= dt.day <= DaysInMonth(dt.year, dt.month)
    && 0 <= dt.hour < 24
    && 0 <= dt.minute < 60
    && 0 <= dt.second < 60
  }

  /** Days from January 1 of year `y` to the first day of month `m` (13 stands for the next January). */
  function DaysBeforeMonth(y: int, m: int): int
    requires 1 <= m <= 13
  {
    var common :=
      if m == 1 then 0 else if m == 2 then 31 else if m == 3 then 59
      else if m == 4 then 90 else if m == 5 then 120 else if m == 6 then 151
      else if m == 7 then 181 else if m == 8 then 212 else if m == 9 then 243
      else if m == 10 then 273 else if m == 11 then 304 else if m == 12 then 334
      else 365;
    if m > 2 && IsLeapYear(y) then common + 1 else common
  }

  /** Days from 0001-01-01 to January 1 of year `y`. */
  function DaysBeforeYear(y: int): int
    requires y >= 1
  {
    var p := y - 1;
    365 * p + p / 4 - p / 100 + p / 400
  }

  function ToSeconds(dt: DateTime): int
    requires IsValid(dt)
  {
    var days := DaysBeforeYear(dt.year) + DaysBeforeMonth(dt.year, dt.month) + dt.day - 1 - UNIX_EPOCH_DAYS;
    days * SECONDS_PER_DAY + dt.hour * 3600 + dt.minute * 60 + dt.second
  }

  lemma DaysBeforeMonthStep(y: int, m: int)
    requires 1 <= m <= 12
    ensures DaysBeforeMonth(y, m + 1) == DaysBeforeMonth(y, m) + DaysInMonth(y, m)
    ensures DaysBeforeMonth(y, 13) == DaysInYear(y)
  {
  }

  lemma DaysBeforeYearStep(y: int)
    requires y >= 1
    ensures DaysBeforeYear(y + 1) == DaysBeforeYear(y) + DaysInYear(y)
  {
    var p := y - 1;
    assert y / 4 == p / 4 + (if y % 4 == 0 then 1 else 0);
    assert y / 100 == p / 100 + (if y % 100 == 0 then 1 else 0);
    assert y / 400 == p / 400 + (if y % 400 == 0 then 1 else 0);
  }

  /** Every year adds at least 365 days, so later years start later. */
  lemma {:induction false} DaysBeforeYearGrows(y: int, z: int)
    requires 1 <= y <= z
    ensures DaysBeforeYear(z) - DaysBeforeYear(y) >= 365 * (z - y)
    decreases z - y
  {
    if y < z {
      DaysBeforeYearGrows(y + 1, z);
      DaysBeforeYearStep(y);
    }
  }

  lemma ToSecondsInRange(dt: DateTime)
    requires IsValid(dt)
    ensures InRange(ToSeconds(dt))
  {
    DaysBeforeYearStep(dt.year);
    DaysBeforeYearGrows(dt.year + 1, 10000);
    DaysBeforeYearGrows(1, dt.year);
    DaysBeforeMonthStep(dt.year, dt.month);
    assert DaysBeforeMonth(dt.year, dt.month + 1) <= DaysInYear(dt.year) by {
      if dt.month < 12 {
        DaysBeforeMonthStep(dt.year, 12);
        assert DaysBeforeMonth(dt.year, dt.month + 1) <= DaysBeforeMonth(dt.year, 12);
      }
    }
  }

  /** The year whose days contain day number `n` (counted from 0001-01-01), searching from `y`. */
  function YearOf(n: int, y: int): (r: int)
    requires 1 <= y <= 9999 && DaysBeforeYear(y) <= n < DAYS_BEFORE_10000
    ensures y <= r <= 9999 && DaysBeforeYear(r) <= n < DaysBeforeYear(r + 1)
    decreases 9999 - y
  {
    if n < DaysBeforeYear(y + 1) then y else YearOf(n, y + 1)
  }

  /** The month of year `y` whose days contain day `r` of that year, searching from `m`. */
  function MonthOf(y: int, r: int, m: int): (res: int)
    requires 1 <= m <= 12 && DaysBeforeMonth(y, m) <= r < DaysInYear(y)
    ensures m <= res <= 12 && DaysBeforeMonth(y, res) <= r < DaysBeforeMonth(y, res + 1)
    decreases 12 - m
  {
    DaysBeforeMonthStep(y, m);
    if r < DaysBeforeMonth(y, m + 1) then m else MonthOf(y, r, m + 1)
  }

  /** The calendar fields of an instant: the inverse of ToSeconds. */
  function FromSeconds(t: int): (dt: DateTime)
    requires InRange(t)
    ensures IsValid(dt) && ToSeconds(dt) == t
  {
    var s := t - MIN_TIME;
    var n := s / SECONDS_PER_DAY;
    var sod := s % SECONDS_PER_DAY;
    assert DaysBeforeYear(1) == 0;
    var y := YearOf(n, 1);
    DaysBeforeYearStep(y);
    var r := n - DaysBeforeYear(y);
    var m := MonthOf(y, r, 1);
    DaysBeforeMonthStep(y, m);
    DateTime(y, m, r - DaysBeforeMonth(y, m) + 1, sod / 3600, sod % 3600 / 60, sod % 60)
  }

  // ----- isoformat -----

  function Digit(d: int): char
    requires 0 <= d <= 9
  {
    ('0' as int + d) as char
  }

  /** `%02d` */
  function Pad2(n: int): string
    requires 0 <= n <= 99
  {
    [Digit(n / 10), Digit(n % 10)]
  }

  /** `%04d` */
  function Pad4(n: int): string
    requires 0 <= n <= 9999
  {
    [Digit(n / 1000), Digit(n / 100 % 10), Digit(n / 10 % 10), Digit(n % 10)]
  }

  function Render(dt: DateTime): string
    requires IsValid(dt)
  {
    Pad4(dt.year) + "-" + Pad2(dt.month) + "-" + Pad2(dt.day) + "T" +
    Pad2(dt.hour) + ":" + Pad2(dt.minute) + ":" + Pad2(dt.second)
  }

  /** `datetime.isoformat()` of a timestamp without microseconds: `YYYY-MM-DDTHH:MM:SS`. */
  function IsoFormat(t: int): (s: string)
    requires InRange(t)
  {
    Render(FromSeconds(t))
  }

  // ----- strptime(s, '%Y-%m-%dT%H:%M:%SZ') -----

  predicate IsDigit(c: char) {
    '0' <= c <= '9'
  }

  predicate AllDigits(s: string) {
    forall i :: 0 <= i < |s| ==> IsDigit(s[i])
  }

  /** `int(s)` of a run of ASCII digits. */
  function NumberValue(s: string): nat
    requires AllDigits(s)
    decreases |s|
  {
    if s == [] then 0 else 10 * NumberValue(s[..|s| - 1]) + (s[|s| - 1] as int - '0' as int)
  }

  /**
   * A literal character of the format; strptime compiles its pattern with IGNORECASE,
   * so the letters `T` and `Z` also match `t` and `z`.
   */
  predicate MatchesLiteral(c: char, lit: char) {
    c == lit || ('A' <= lit <= 'Z' && c as int == lit as int + 32)
  }

  /**
   * Every numeric field after the year is one or two characters long and is followed by a
   * literal that is neither a digit nor a space, so the literal's position fixes the field.
   */
  function FieldEnd(s: string, i: nat, lit: char): (r: Option<nat>)
    ensures r.Some? ==> i + 1 <= r.value <= i + 2 && r.value < |s| && MatchesLiteral(s[r.value], lit)
  {
    if i + 1 < |s| && MatchesLiteral(s[i + 1], lit) then Some(i + 1)
    else if i + 2 < |s| && MatchesLiteral(s[i + 2], lit) then Some(i + 2)
    else None
  }

  datatype Fields = Fields(year: string, month: string, day: string, hour: string, minute: string, second: string)

  /** Cuts `s` at the literals of the format; None if a literal is missing or text remains after `Z`. */
  function SplitFields(s: string): Option<Fields>
  {
    if |s| < 5 || s[4] != '-' then None
    else
      var e1 :- FieldEnd(s, 5, '-');
      var e2 :- FieldEnd(s, e1 + 1, 'T');
      var e3 :- FieldEnd(s, e2 + 1, ':');
      var e4 :- FieldEnd(s, e3 + 1, ':');
      var e5 :- FieldEnd(s, e4 + 1, 'Z');
      if e5 + 1 != |s| then None
      else Some(Fields(s[..4], s[5..e1], s[e1 + 1..e2], s[e2 + 1..e3], s[e3 + 1..e4], s[e4 + 1..e5]))
  }

  /** A run of one or two digits whose value lies in [lo, hi]. */
  predicate ShortNumber(f: string, lo: int, hi: int) {
    1 <= |f| <= 2 && AllDigits(f) && lo <= NumberValue(f) <= hi
  }

  /** `%d` matches `3[01]|[12]\d|0[1-9]|[1-9]| [1-9]`. */
  predicate DayField(f: string) {
    ShortNumber(f, 1, 31) || (|f| == 2 && f[0] == ' ' && '1' <= f[1] <= '9')
  }

  function DayValue(f: string): int
    requires DayField(f)
  {
    if f[0] == ' ' then f[1] as int - '0' as int else NumberValue(f)
  }

  /**
   * The regular expression strptime builds from the format: `%Y` is `\d\d\d\d`,
   * `%m` is `1[0-2]|0[1-9]|[1-9]`, `%H` is `2[0-3]|[0-1]\d|\d`, `%M` is `[0-5]\d|\d`
   * and `%S` is `6[0-1]|[0-5]\d|\d`.
   */
  predicate MatchesPattern(f: Fields) {
    && |f.year| == 4 && AllDigits(f.year)
    && ShortNumber(f.month, 1, 12)
    && DayField(f.day)
    && ShortNumber(f.hour, 0, 23)
    && ShortNumber(f.minute, 0, 59)
    && ShortNumber(f.second, 0, 61)
  }

  /**
   * `datetime.strptime(s, '%Y-%m-%dT%H:%M:%SZ')`, or None where it raises ValueError:
   * no match, unconverted data, or fields the `datetime` constructor rejects
   * (year 0, a day past the end of the month, second 60 or 61).
   */
  function ParseTimestamp(s: string): (r: Option<int>)
    ensures r.Some? ==> InRange(r.value)
  {
    match SplitFields(s)
    case None => None
    case Some(f) =>
      if !MatchesPattern(f) then None
      else
        var dt := DateTime(NumberValue(f.year), NumberValue(f.month), DayValue(f.day),
                           NumberValue(f.hour), NumberValue(f.minute), NumberValue(f.second));
        if IsValid(dt) then ToSecondsInRange(dt); Some(ToSeconds(dt)) else None
  }

  // ----- round trip -----

  lemma DigitValue(d: int)
    requires 0 <= d <= 9
    ensures IsDigit(Digit(d)) && Digit(d) as int - '0' as int == d
  {
  }

  lemma Pad2Value(n: int)
    requires 0 <= n <= 99
    ensures AllDigits(Pad2(n)) && NumberValue(Pad2(n)) == n
  {
    var s := Pad2(n);
    DigitValue(n / 10);
    DigitValue(n % 10);
    assert s[..1][..0] == [];
    assert NumberValue(s[..1]) == n / 10;
  }

  lemma Pad4Value(n: int)
    requires 0 <= n <= 9999
    ensures AllDigits(Pad4(n)) && NumberValue(Pad4(n)) == n
  {
    var a, b, c, d := n / 1000, n / 100 % 10, n / 10 % 10, n % 10;
    DigitValue(a);
    DigitValue(b);
    DigitValue(c);
    DigitValue(d);
    NumberValueSnoc([], a);
    assert [] + [Digit(a)] == [Digit(a)];
    NumberValueSnoc([Digit(a)], b);
    assert [Digit(a)] + [Digit(b)] == [Digit(a), Digit(b)];
    NumberValueSnoc([Digit(a), Digit(b)], c);
    assert [Digit(a), Digit(b)] + [Digit(c)] == [Digit(a), Digit(b), Digit(c)];
    NumberValueSnoc([Digit(a), Digit(b), Digit(c)], d);
    assert Pad4(n) == [Digit(a), Digit(b), Digit(c)] + [Digit(d)];
    DecimalSteps(n);
  }

  lemma DecimalSteps(n: int)
    requires 0 <= n <= 9999
    ensures 10 * (n / 1000) + n / 100 % 10 == n / 100
    ensures 10 * (n / 100) + n / 10 % 10 == n / 10
    ensures 10 * (n / 10) + n % 10 == n
  {
  }

  /** Appending a digit multiplies the value by ten and adds the digit. */
  lemma NumberValueSnoc(s: string, d: int)
    requires AllDigits(s) && 0 <= d <= 9
    ensures AllDigits(s + [Digit(d)]) && NumberValue(s + [Digit(d)]) == 10 * NumberValue(s) + d
  {
    DigitValue(d);
    assert (s + [Digit(d)])[..|s|] == s;
  }

  /** Where each field and literal sits in a rendered date-time followed by `Z`. */
  lemma RenderedLayout(dt: DateTime)
    requires IsValid(dt)
    ensures var s := Render(dt) + "Z";
      && |s| == 20
      && s[4] == '-' && s[7] == '-' && s[10] == 'T' && s[13] == ':' && s[16] == ':' && s[19] == 'Z'
      && s[..4] == Pad4(dt.year) && s[5..7] == Pad2(dt.month) && s[8..10] == Pad2(dt.day)
      && s[11..13] == Pad2(dt.hour) && s[14..16] == Pad2(dt.minute) && s[17..19] == Pad2(dt.second)
  {
    var y, mo, d, h, mi, se := Pad4(dt.year), Pad2(dt.month), Pad2(dt.day), Pad2(dt.hour), Pad2(dt.minute), Pad2(dt.second);
    var s := Render(dt) + "Z";
    RenderedChars(dt);
    assert s[..4] == [y[0], y[1], y[2], y[3]] == y;
    assert s[5..7] == [mo[0], mo[1]] == mo;
    assert s[8..10] == [d[0], d[1]] == d;
    assert s[11..13] == [h[0], h[1]] == h;
    assert s[14..16] == [mi[0], mi[1]] == mi;
    assert s[17..19] == [se[0], se[1]] == se;
  }

  lemma RenderedChars(dt: DateTime)
    requires IsValid(dt)
    ensures var y, mo, d, h, mi, se := Pad4(dt.year), Pad2(dt.month), Pad2(dt.day), Pad2(dt.hour), Pad2(dt.minute), Pad2(dt.second);
      Render(dt) + "Z" == [y[0], y[1], y[2], y[3], '-', mo[0], mo[1], '-', d[0], d[1], 'T',
                           h[0], h[1], ':', mi[0], mi[1], ':', se[0], se[1], 'Z']
  {
  }

  /** The fields of a rendered date-time sit at fixed offsets between the literals. */
  lemma SplitRendered(dt: DateTime)
    requires IsValid(dt)
    ensures SplitFields(Render(dt) + "Z") ==
      Some(Fields(Pad4(dt.year), Pad2(dt.month), Pad2(dt.day), Pad2(dt.hour), Pad2(dt.minute), Pad2(dt.second)))
  {
    var s := Render(dt) + "Z";
    RenderedLayout(dt);
    assert s[6] == Pad2(dt.month)[1] && s[9] == Pad2(dt.day)[1];
    assert s[12] == Pad2(dt.hour)[1] && s[15] == Pad2(dt.minute)[1] && s[18] == Pad2(dt.second)[1];
    DigitValue(dt.month % 10);
    DigitValue(dt.day % 10);
    DigitValue(dt.hour % 10);
    DigitValue(dt.minute % 10);
    DigitValue(dt.second % 10);
    assert FieldEnd(s, 5, '-') == Some(7);
    assert FieldEnd(s, 8, 'T') == Some(10);
    assert FieldEnd(s, 11, ':') == Some(13);
    assert FieldEnd(s, 14, ':') == Some(16);
    assert FieldEnd(s, 17, 'Z') == Some(19);
  }

  /** A valid date-time, rendered with the `Z` of the NewsAPI format appended, parses back to itself. */
  lemma ParseRendered(dt: DateTime)
    requires IsValid(dt)
    ensures ParseTimestamp(Render(dt) + "Z") == Some(ToSeconds(dt))
  {
    SplitRendered(dt);
    Pad4Value(dt.year);
    Pad2Value(dt.month);
    Pad2Value(dt.day);
    Pad2Value(dt.hour);
    Pad2Value(dt.minute);
    Pad2Value(dt.second);
    var f := Fields(Pad4(dt.year), Pad2(dt.month), Pad2(dt.day), Pad2(dt.hour), Pad2(dt.minute), Pad2(dt.second));
    assert MatchesPattern(f);
    assert DayValue(f.day) == dt.day;
  }

  /** What `to_dict` renders, with the `Z` of the NewsAPI format appended, parses back to the same instant. */
  lemma ParseIsoFormat(t: int)
    requires InRange(t)
    ensures ParseTimestamp(IsoFormat(t) + "Z") == Some(t)
  {
    ParseRendered(FromSeconds(t));
  }

  /** Distinct instants render differently, so `to_dict` loses no information about a timestamp. */
  lemma IsoFormatInjective(t1: int, t2: int)
    requires InRange(t1) && InRange(t2) && IsoFormat(t1) == IsoFormat(t2)
    ensures t1 == t2
  {
    ParseIsoFormat(t1);
    ParseIsoFormat(t2);
  }
}
