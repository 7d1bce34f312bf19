/**
 * Proleptic Gregorian calendar dates as (year, month, day) triples, standing in
 * for the application's `YYYY-MM-DD` strings and JavaScript `Date` arithmetic.
 * The lemmas at the end show that for four-digit years the ISO strings compare
 * and identify dates exactly as the triples do, which is what lets the rest of
 * the model use triples.
 */
module Calendar {
  import opened Common
  import opened Text

  datatype Date = Date(year: int, month: int, day: int)

  predicate IsLeapYear(y: int) {
    (y % 4 == 0 && y % 100 != 0) || y % 400 == 0
  }

  /** `new Date(year, month, 0).getDate()`: the length of a month. */
  function DaysInMonth(y: int, m: int): (n: int)
    requires 1 <= m <= 12
    ensures 28 <= n <= 31
    ensures m == 2 ==> (n == 29 <==> IsLeapYear(y))
  {
    if m == 2 then (if IsLeapYear(y) then 29 else 28)
    else if m == 4 || m == 6 || m == 9 || m == 11 then 30
    else 31
  }

  predicate ValidDate(d: Date) {
    1 <= d.month <= 12 && 1 <= d.day <= DaysInMonth(d.year, d.month)
  }

  /** Chronological order, which is lexicographic on (year, month, day). */
  predicate DateLess(a: Date, b: Date) {
    a.year < b.year || (a.year == b.year && (a.month < b.month || (a.month == b.month && a.day < b.day)))
  }

  predicate DateLe(a: Date, b: Date) {
    !DateLess(b, a)
  }

  /** `isDateInRange`: inclusive at both ends. */
  predicate IsDateInRange(d: Date, start: Date, end: Date) {
    DateLe(start, d) && DateLe(d, end)
  }

  /** `addDays(date, -1)`: the calendar day before `d`. */
  function PrevDay(d: Date): (p: Date)
    requires ValidDate(d)
    ensures ValidDate(p) && DateLess(p, d)
    ensures forall e :: DateLess(p, e) && DateLess(e, d) ==> !ValidDate(e)
  {
    if d.day > 1 then Date(d.year, d.month, d.day - 1)
    else if d.month > 1 then Date(d.year, d.month - 1, DaysInMonth(d.year, d.month - 1))
    else Date(d.year - 1, 12, 31)
  }

  /** Days from 1970-01-01 to `d` (negative before it), by the usual civil-calendar formula. */
  function DaysFromCivil(d: Date): int
  {
    var y := if d.month <= 2 then d.year - 1 else d.year;
    DaysBeforeMarch(y) + MonthOffset(d.month) + d.day - 1 - 719468
  }

  /** Days from March 1st to the first of month `m` within the same March-to-February year. */
  function MonthOffset(m: int): int
  {
    (153 * ((m + 9) % 12) + 2) / 5
  }

  /** Outside March, a month starts right after its predecessor's last day. */
  lemma MonthOffsetStep(y: int, m: int)
    requires 2 <= m <= 12 && m != 3
    ensures MonthOffset(m) == MonthOffset(m - 1) + DaysInMonth(y, m - 1)
  {
    if m == 2 { assert MonthOffset(2) == 337 && MonthOffset(1) == 306; }
    else if m == 4 { assert MonthOffset(4) == 31 && MonthOffset(3) == 0; }
    else if m == 5 { assert MonthOffset(5) == 61; }
    else if m == 6 { assert MonthOffset(6) == 92; }
    else if m == 7 { assert MonthOffset(7) == 122; }
    else if m == 8 { assert MonthOffset(8) == 153; }
    else if m == 9 { assert MonthOffset(9) == 184; }
    else if m == 10 { assert MonthOffset(10) == 214; }
    else if m == 11 { assert MonthOffset(11) == 245; }
    else { assert MonthOffset(12) == 275; }
  }

  /** Days from 0000-03-01 to March 1st of year `y + 1`'s civil year `y` (years start in March). */
  function DaysBeforeMarch(y: int): int
  {
    var era := y / 400;
    var yoe := y - era * 400;
    era * 146097 + yoe * 365 + yoe / 4 - yoe / 100
  }

  /** `getDay()`: 0 is Sunday, 6 is Saturday. */
  function DayOfWeek(d: Date): (w: int)
    ensures 0 <= w < 7
  {
    (DaysFromCivil(d) + 4) % 7
  }

  predicate IsWeekend(d: Date)
  {
    var w := DayOfWeek(d);
    w == 0 || w == 6
  }

  /** The weekday formula agrees with the calendar on known dates: 1970-01-01 was a Thursday, 2000-02-29 a Tuesday, 2024-03-01 a Friday, 2025-03-01 a Saturday. */
  lemma WeekdayAnchors()
    ensures DaysFromCivil(Date(1970, 1, 1)) == 0 && DayOfWeek(Date(1970, 1, 1)) == 4
    ensures DayOfWeek(Date(2000, 2, 29)) == 2
    ensures DayOfWeek(Date(2024, 3, 1)) == 5
    ensures DayOfWeek(Date(2025, 3, 1)) == 6 && IsWeekend(Date(2025, 3, 1))
  {
    assert DaysBeforeMarch(1969) == 719162 && MonthOffset(1) == 306;
    assert DaysBeforeMarch(1999) == 730119 && MonthOffset(2) == 337;
    assert DaysBeforeMarch(2024) == 739251 && MonthOffset(3) == 0;
    assert DaysBeforeMarch(2025) == 739616;
  }

  /** Euclidean division by a positive constant is determined by quotient and remainder. */
  lemma DivModUnique(a: int, d: int, q: int, r: int)
    requires d == 4 || d == 7 || d == 100 || d == 400
    requires a == d * q + r && 0 <= r < d
    ensures a / d == q && a % d == r
  {
  }

  /** A civil year (March to February) has 366 days exactly when the February in it is a leap February. */
  lemma CivilYearLength(y: int)
    ensures DaysBeforeMarch(y) - DaysBeforeMarch(y - 1) == if IsLeapYear(y) then 366 else 365
  {
    var q := y / 400;
    var t := y - q * 400;
    assert 0 <= t < 400;
    DivModUnique(y, 4, 100 * q + t / 4, t % 4);
    DivModUnique(y, 100, 4 * q + t / 100, t % 100);
    DivModUnique(y, 400, q, t);
    assert IsLeapYear(y) <==> (t % 4 == 0 && t % 100 != 0) || t == 0;
    if t == 0 {
      DivModUnique(y - 1, 400, q - 1, 399);
      assert DaysBeforeMarch(y - 1) == (q - 1) * 146097 + 399 * 365 + 99 - 3;
    } else {
      DivModUnique(y - 1, 400, q, t - 1);
      var a, b := t / 4, t % 4;
      DivModUnique(t - 1, 4, if b == 0 then a - 1 else a, if b == 0 then 3 else b - 1);
      var c, e := t / 100, t % 100;
      DivModUnique(t - 1, 100, if e == 0 then c - 1 else c, if e == 0 then 99 else e - 1);
      assert e == 0 ==> b == 0;
    }
  }

  /** Consecutive calendar days have consecutive day numbers. */
  lemma {:induction false} PrevDayNumber(d: Date)
    requires ValidDate(d)
    ensures DaysFromCivil(PrevDay(d)) == DaysFromCivil(d) - 1
  {
    if d.day == 1 {
      if d.month == 3 {
        CivilYearLength(d.year);
        assert MonthOffset(3) == 0 && MonthOffset(2) == 337;
      } else if d.month == 1 {
        assert MonthOffset(1) == 306 && MonthOffset(12) == 275;
      } else {
        MonthOffsetStep(d.year, d.month);
      }
    }
  }

  /** The day before is one weekday earlier. */
  lemma PrevDayWeekday(d: Date)
    requires ValidDate(d)
    ensures DayOfWeek(PrevDay(d)) == (DayOfWeek(d) + 6) % 7
  {
    PrevDayNumber(d);
    var x := DaysFromCivil(d) + 4;
    var q, r := x / 7, x % 7;
    if r == 0 {
      DivModUnique(x - 1, 7, q - 1, 6);
    } else {
      DivModUnique(x - 1, 7, q, r - 1);
    }
    DivModUnique(r + 6, 7, if r == 0 then 0 else 1, if r == 0 then 6 else r - 1);
  }

  /** `buildMonthDates`: every day of month `m` of year `y`, in order. */
  function BuildMonthDates(y: int, m: int): (dates: seq<Date>)
    requires 1 <= m <= 12
    ensures |dates| == DaysInMonth(y, m)
    ensures forall i :: 0 <= i < |dates| ==> dates[i] == Date(y, m, i + 1)
  {
    seq(DaysInMonth(y, m), i => Date(y, m, i + 1))
  }

  /** The month's list holds exactly the valid dates of that year and month. */
  lemma MonthDatesExactly(y: int, m: int, d: Date)
    requires 1 <= m <= 12
    ensures d in BuildMonthDates(y, m) <==> ValidDate(d) && d.year == y && d.month == m
  {
    var dates := BuildMonthDates(y, m);
    if ValidDate(d) && d.year == y && d.month == m {
      assert dates[d.day - 1] == d;
    }
  }

  /** The month's dates are strictly increasing, so also pairwise distinct. */
  lemma MonthDatesIncreasing(y: int, m: int)
    requires 1 <= m <= 12
    ensures forall i, j :: 0 <= i < j < |BuildMonthDates(y, m)| ==> DateLess(BuildMonthDates(y, m)[i], BuildMonthDates(y, m)[j])
    ensures NoDuplicates(BuildMonthDates(y, m))
  {
  }

  /** Within a month, each date after the first is the day after its predecessor in the list. */
  lemma MonthDatesConsecutive(y: int, m: int, i: nat)
    requires 1 <= m <= 12 && 0 < i < DaysInMonth(y, m)
    ensures ValidDate(BuildMonthDates(y, m)[i])
    ensures PrevDay(BuildMonthDates(y, m)[i]) == BuildMonthDates(y, m)[i - 1]
  {
  }

  /** The first day of a month has its day before outside the month. */
  lemma MonthStartPrevOutside(y: int, m: int)
    requires 1 <= m <= 12
    ensures PrevDay(Date(y, m, 1)) !in BuildMonthDates(y, m)
  {
    MonthDatesExactly(y, m, PrevDay(Date(y, m, 1)));
  }

  /** `toIsoDate`: `${year}-${MM}-${DD}` with month and day zero-padded to two digits. */
  function ToIsoDate(d: Date): string
  {
    IntToString(d.year) + "-" + PadStart(IntToString(d.month), 2, '0') + "-" + PadStart(IntToString(d.day), 2, '0')
  }

  /** Dates whose year has four digits and whose month and day have at most two. */
  predicate FourDigitYear(d: Date) {
    1000 <= d.year <= 9999 && 0 <= d.month <= 99 && 0 <= d.day <= 99
  }

  lemma FourDigitYearString(y: int)
    requires 1000 <= y <= 9999
    ensures IntToString(y) == FixedDigits(y, 4)
  {
    assert y / 10 >= 10 && y / 100 >= 10 && y / 1000 < 10;
    assert y / 10 / 10 == y / 100 && y / 100 / 10 == y / 1000;
    assert NatToString(y) == NatToString(y / 10) + [DigitChar(y % 10)];
    assert NatToString(y / 10) == NatToString(y / 100) + [DigitChar(y / 10 % 10)];
    assert NatToString(y / 100) == NatToString(y / 1000) + [DigitChar(y / 100 % 10)];
    assert |NatToString(y / 1000)| == 1;
    assert |NatToString(y)| == 4;
    PaddedIsFixed(y, 4);
  }

  /** Such a date prints as ten characters: four year digits, two month digits, two day digits. */
  lemma IsoDateShape(d: Date)
    requires FourDigitYear(d)
    ensures ToIsoDate(d) == FixedDigits(d.year, 4) + "-" + FixedDigits(d.month, 2) + "-" + FixedDigits(d.day, 2)
    ensures |ToIsoDate(d)| == 10
  {
    FourDigitYearString(d.year);
    PaddedIsFixed(d.month, 2);
    PaddedIsFixed(d.day, 2);
  }

  /** Comparing the ISO strings of two such dates with `<` is comparing the dates. */
  lemma IsoOrderAgrees(a: Date, b: Date)
    requires FourDigitYear(a) && FourDigitYear(b)
    ensures StrLess(ToIsoDate(a), ToIsoDate(b)) <==> DateLess(a, b)
    ensures ToIsoDate(a) == ToIsoDate(b) <==> a == b
  {
    IsoOrder(a, b);
    IsoInjective(a, b);
  }

  lemma IsoOrder(a: Date, b: Date)
    requires FourDigitYear(a) && FourDigitYear(b)
    ensures StrLess(ToIsoDate(a), ToIsoDate(b)) <==> DateLess(a, b)
  {
    IsoDateShape(a);
    IsoDateShape(b);
    FixedDigitsOrder(a.year, b.year, 4);
    FixedDigitsOrder(a.month, b.month, 2);
    FixedDigitsOrder(a.day, b.day, 2);
    FieldsOrder(FixedDigits(a.year, 4), FixedDigits(a.month, 2), FixedDigits(a.day, 2),
                FixedDigits(b.year, 4), FixedDigits(b.month, 2), FixedDigits(b.day, 2));
  }

  lemma IsoInjective(a: Date, b: Date)
    requires FourDigitYear(a) && FourDigitYear(b)
    ensures ToIsoDate(a) == ToIsoDate(b) <==> a == b
  {
    IsoDateShape(a);
    IsoDateShape(b);
    FixedDigitsOrder(a.year, b.year, 4);
    FixedDigitsOrder(a.month, b.month, 2);
    FixedDigitsOrder(a.day, b.day, 2);
    FieldsEqual(FixedDigits(a.year, 4), FixedDigits(a.month, 2), FixedDigits(a.day, 2),
                FixedDigits(b.year, 4), FixedDigits(b.month, 2), FixedDigits(b.day, 2));
  }

  /** Dash-joined fields of matching widths compare field by field. */
  lemma FieldsOrder(ya: string, ma: string, da: string, yb: string, mb: string, db: string)
    requires |ya| == |yb| && |ma| == |mb|
    ensures StrLess(ya + "-" + ma + "-" + da, yb + "-" + mb + "-" + db)
      <==> StrLess(ya, yb) || (ya == yb && (StrLess(ma, mb) || (ma == mb && StrLess(da, db))))
  {
    var ta, tb := "-" + da, "-" + db;
    var ra, rb := "-" + (ma + ta), "-" + (mb + tb);
    assert ya + "-" + ma + "-" + da == ya + ra && yb + "-" + mb + "-" + db == yb + rb;
    StrLessConcat(ya, ra, yb, rb);
    StrLessConcat("-", ma + ta, "-", mb + tb);
    StrLessConcat(ma, ta, mb, tb);
    StrLessConcat("-", da, "-", db);
  }

  /** Dash-joined fields of matching widths are equal exactly when every field is. */
  lemma FieldsEqual(ya: string, ma: string, da: string, yb: string, mb: string, db: string)
    requires |ya| == |yb| && |ma| == |mb|
    ensures ya + "-" + ma + "-" + da == yb + "-" + mb + "-" + db <==> ya == yb && ma == mb && da == db
  {
    var x, y := ya + "-" + ma + "-" + da, yb + "-" + mb + "-" + db;
    if x == y {
      var i, j := |ya| + 1, |ya| + 1 + |ma| + 1;
      assert x[..|ya|] == ya && y[..|ya|] == yb;
      assert x[i..i + |ma|] == ma && y[i..i + |ma|] == mb;
      assert x[j..] == da && y[j..] == db;
    }
  }

  /** Splitting an ISO date of a non-negative year on '-' gives its three printed fields. */
  lemma IsoDateFields(d: Date)
    requires d.year >= 0 && d.month >= 0 && d.day >= 0
    ensures Split(ToIsoDate(d), '-') == [NatToString(d.year), PadStart(NatToString(d.month), 2, '0'), PadStart(NatToString(d.day), 2, '0')]
  {
    var y, m, dd := NatToString(d.year), PadStart(NatToString(d.month), 2, '0'), PadStart(NatToString(d.day), 2, '0');
    ZeroPaddedValue(NatToString(d.month), 2);
    ZeroPaddedValue(NatToString(d.day), 2);
    NoDashInDigits(y);
    NoDashInDigits(m);
    NoDashInDigits(dd);
    assert ToIsoDate(d) == y + ['-'] + (m + ['-'] + dd);
    SplitJoined(y, '-', m + ['-'] + dd);
    SplitJoined(m, '-', dd);
  }

  lemma NoDashInDigits(s: string)
    requires AllDigits(s)
    ensures '-' !in s
  {
  }
}
