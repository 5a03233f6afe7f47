/**
 * Instants and their stored text. The bot keeps a reminder's due time as the
 * text `dt.strftime("%Y-%m-%d %H:%M:%S")` and finds due reminders by the SQL
 * comparison `remind_time <= ?` on that text. An instant is modelled as a
 * whole number of seconds since 0001-01-01 00:00:00 in the proleptic
 * Gregorian calendar (Python's `datetime` range, years 1 to 9999); the
 * central fact here is that comparing the rendered texts agrees with
 * comparing the instants.
 */
module Timestamp {
  import opened Text

  datatype DateTime = DateTime(year: int, month: int, day: int, hour: int, minute: int, second: int)

  predicate IsLeapYear(y: int) {
    y % 4 == 0 && (y % 100 != 0 || y % 400 == 0)
  }

  function DaysInYear(y: int): int {
    if IsLeapYear(y) then 366 else 365
  }

  function DaysInMonth(y: int, m: int): int
    requires 1 <= m <= 12
  {
    if m == 2 then (if IsLeapYear(y) then 29 else 28)
    else if m == 4 || m == 6 || m == 9 || m == 11 then 30
    else 31
  }

  /** Days of year `y` before the first of month `m` (`m == 13`: the whole year). */
  function DaysBeforeMonth(y: int, m: int): int
    requires 1 <= m <= 13
  {
    var common :=
      if m == 1 then 0 else if m == 2 then 31 else if m == 3 then 59
      else if m == 4 then 90 else if m == 5 then 120 else if m == 6 then 151
      else if m == 7 then 181 else if m == 8 then 212 else if m == 9 then 243
      else if m == 10 then 273 else if m == 11 then 304 else if m == 12 then 334
      else 365;
    if m > 2 && IsLeapYear(y) then common + 1 else common
  }

  /** Days from 0001-01-01 to the first of January of year `y`. */
  function DaysBeforeYear(y: int): nat
    requires y >= 1
  {
    if y == 1 then 0 else DaysBeforeYear(y - 1) + DaysInYear(y - 1)
  }

  predicate Valid(d: DateTime) {
    && d.year >= 1
    && 1 <= d.month <= 12
    && 1 <= d.day <= DaysInMonth(d.year, d.month)
    && 0 <= d.hour < 24
    && 0 <= d.minute < 60
    && 0 <= d.second < 60
  }

  function DayNumber(d: DateTime): nat
    requires Valid(d)
  {
    DaysBeforeYear(d.year) + DaysBeforeMonth(d.year, d.month) + d.day - 1
  }

  /** The instant a set of calendar fields names. */
  function ToSeconds(d: DateTime): nat
    requires Valid(d)
  {
    DayNumber(d) * 86400 + d.hour * 3600 + d.minute * 60 + d.second
  }

  const MaxDateTime := DateTime(9999, 12, 31, 23, 59, 59)

  /** `datetime.max`, truncated to whole seconds. */
  const MaxInstant: nat := ToSeconds(MaxDateTime)

  /** A value Python's `datetime` can hold, in whole seconds. */
  type Instant = t: int | 0 <= t <= MaxInstant

  function Sign(x: int): int {
    if x < 0 then -1 else if x == 0 then 0 else 1
  }

  /** Lexicographic combination: the first comparison unless it is a tie. */
  function Lex(first: int, rest: int): int {
    if first != 0 then first else rest
  }

  /** Field-by-field comparison, most significant field first. */
  function FieldCmp(a: DateTime, b: DateTime): int {
    Lex(Sign(a.year - b.year), Lex(Sign(a.month - b.month), Lex(Sign(a.day - b.day),
      Lex(Sign(a.hour - b.hour), Lex(Sign(a.minute - b.minute), Sign(a.second - b.second))))))
  }

  // ---------------------------------------------------------------- calendar

  lemma MonthLayout(y: int, m: int)
    requires 1 <= m <= 12
    ensures DaysBeforeMonth(y, m + 1) == DaysBeforeMonth(y, m) + DaysInMonth(y, m)
    ensures DaysBeforeMonth(y, 13) == DaysInYear(y)
  {
  }

  lemma MonthsOrdered(y: int, m1: int, m2: int)
    requires 1 <= m1 <= m2 <= 13
    ensures DaysBeforeMonth(y, m1) <= DaysBeforeMonth(y, m2)
  {
  }

  lemma {:induction false} YearsOrdered(y1: int, y2: int)
    requires 1 <= y1 < y2
    ensures DaysBeforeYear(y1) + DaysInYear(y1) <= DaysBeforeYear(y2)
    decreases y2
  {
    if y2 > y1 + 1 {
      YearsOrdered(y1, y2 - 1);
    }
  }

  /** An earlier date (by year, month, day) has a smaller day number. */
  lemma DayNumberMonotone(a: DateTime, b: DateTime)
    requires Valid(a) && Valid(b)
    requires Lex(Sign(a.year - b.year), Lex(Sign(a.month - b.month), Sign(a.day - b.day))) < 0
    ensures DayNumber(a) < DayNumber(b)
  {
    MonthLayout(a.year, a.month);
    MonthsOrdered(a.year, a.month + 1, 13);
    if a.year < b.year {
      YearsOrdered(a.year, b.year);
    } else if a.month < b.month {
      MonthsOrdered(a.year, a.month + 1, b.month);
    }
  }

  lemma ToSecondsMonotone(a: DateTime, b: DateTime)
    requires Valid(a) && Valid(b) && FieldCmp(a, b) < 0
    ensures ToSeconds(a) < ToSeconds(b)
  {
    if Lex(Sign(a.year - b.year), Lex(Sign(a.month - b.month), Sign(a.day - b.day))) < 0 {
      DayNumberMonotone(a, b);
      assert ToSeconds(a) < (DayNumber(a) + 1) * 86400 <= ToSeconds(b);
    }
  }

  /** Calendar order and the order of instants agree (both directions, and
      equal fields are the same instant). */
  lemma FieldCmpIsChronological(a: DateTime, b: DateTime)
    requires Valid(a) && Valid(b)
    ensures FieldCmp(a, b) == Sign(ToSeconds(a) - ToSeconds(b))
  {
    if FieldCmp(a, b) < 0 {
      ToSecondsMonotone(a, b);
    } else if FieldCmp(b, a) < 0 {
      ToSecondsMonotone(b, a);
    } else {
      assert a == b;
    }
  }

  /** Year and day-of-year of the day `days` days after 1 January of year `y`. */
  function YearOf(days: nat, y: int): (r: (int, nat))
    requires y >= 1
    ensures r.0 >= y && r.1 < DaysInYear(r.0)
    ensures DaysBeforeYear(r.0) + r.1 == DaysBeforeYear(y) + days
    decreases days
  {
    if days < DaysInYear(y) then (y, days) else YearOf(days - DaysInYear(y), y + 1)
  }

  /** The month, from `m` on, that holds day-of-year `doy` of year `y`. */
  function MonthOf(y: int, doy: nat, m: int): (r: int)
    requires 1 <= m <= 12 && DaysBeforeMonth(y, m) <= doy < DaysInYear(y)
    ensures m <= r <= 12 && DaysBeforeMonth(y, r) <= doy < DaysBeforeMonth(y, r) + DaysInMonth(y, r)
    decreases 12 - m
  {
    MonthLayout(y, m);
    if doy < DaysBeforeMonth(y, m + 1) then m else MonthOf(y, doy, m + 1)
  }

  /** The calendar fields of an instant (what `datetime` stores). */
  function FromSeconds(t: nat): (d: DateTime)
    ensures Valid(d) && ToSeconds(d) == t
  {
    var days, sod := t / 86400, t % 86400;
    var (y, doy) := YearOf(days, 1);
    var m := MonthOf(y, doy, 1);
    var d := DateTime(y, m, doy - DaysBeforeMonth(y, m) + 1, sod / 3600, sod % 3600 / 60, sod % 60);
    assert DayNumber(d) == days;
    d
  }

  /** Calendar fields are determined by their instant. */
  lemma ToSecondsInjective(a: DateTime, b: DateTime)
    requires Valid(a) && Valid(b) && ToSeconds(a) == ToSeconds(b)
    ensures a == b
  {
    FieldCmpIsChronological(a, b);
  }

  lemma InstantYear(t: Instant)
    ensures FromSeconds(t).year <= 9999
  {
    var d := FromSeconds(t);
    if d.year > 9999 {
      FieldCmpIsChronological(MaxDateTime, d);
    }
  }

  // --------------------------------------------------------------- rendering

  function Pow10(n: nat): nat {
    if n == 0 then 1 else 10 * Pow10(n - 1)
  }

  function DigitChar(k: int): char
    requires 0 <= k < 10
  {
    ('0' as int + k) as char
  }

  /** `n` in decimal, zero-padded to `width` digits. */
  function Digits(n: nat, width: nat): (r: string)
    ensures |r| == width
  {
    if width == 0 then [] else Digits(n / 10, width - 1) + [DigitChar(n % 10)]
  }

  /** Zero-padded fixed-width numerals compare as their values do. */
  lemma {:induction false} DigitsCmp(n1: nat, n2: nat, width: nat)
    requires n1 < Pow10(width) && n2 < Pow10(width)
    ensures Cmp(Digits(n1, width), Digits(n2, width)) == Sign(n1 - n2)
  {
    if width > 0 {
      DigitsCmp(n1 / 10, n2 / 10, width - 1);
      CmpConcat(Digits(n1 / 10, width - 1), [DigitChar(n1 % 10)], Digits(n2 / 10, width - 1), [DigitChar(n2 % 10)]);
    }
  }

  /** `"%Y-%m-%d %H:%M:%S"`. */
  function Format(d: DateTime): (r: string)
    requires 0 <= d.year <= 9999 && 0 <= d.month < 100 && 0 <= d.day < 100
    requires 0 <= d.hour < 100 && 0 <= d.minute < 100 && 0 <= d.second < 100
    ensures |r| == 19
  {
    Digits(d.year, 4) + ("-" + (Digits(d.month, 2) + ("-" + (Digits(d.day, 2)
      + (" " + (Digits(d.hour, 2) + (":" + (Digits(d.minute, 2) + (":" + Digits(d.second, 2))))))))))
  }

  /** Comparing two rendered timestamps as text compares their fields. */
  lemma FormatCmp(a: DateTime, b: DateTime)
    requires Valid(a) && Valid(b) && a.year <= 9999 && b.year <= 9999
    ensures Cmp(Format(a), Format(b)) == FieldCmp(a, b)
  {
    assert Pow10(2) == 100 && Pow10(4) == 10000;
    DigitsCmp(a.year, b.year, 4);
    DigitsCmp(a.month, b.month, 2);
    DigitsCmp(a.day, b.day, 2);
    DigitsCmp(a.hour, b.hour, 2);
    DigitsCmp(a.minute, b.minute, 2);
    DigitsCmp(a.second, b.second, 2);
    var s5 := ":" + Digits(a.second, 2);
    var t5 := ":" + Digits(b.second, 2);
    CmpConcat(":", Digits(a.second, 2), ":", Digits(b.second, 2));
    var s4 := Digits(a.minute, 2) + s5;
    var t4 := Digits(b.minute, 2) + t5;
    CmpConcat(Digits(a.minute, 2), s5, Digits(b.minute, 2), t5);
    CmpConcat(":", s4, ":", t4);
    var s3 := Digits(a.hour, 2) + (":" + s4);
    var t3 := Digits(b.hour, 2) + (":" + t4);
    CmpConcat(Digits(a.hour, 2), ":" + s4, Digits(b.hour, 2), ":" + t4);
    CmpConcat(" ", s3, " ", t3);
    var s2 := Digits(a.day, 2) + (" " + s3);
    var t2 := Digits(b.day, 2) + (" " + t3);
    CmpConcat(Digits(a.day, 2), " " + s3, Digits(b.day, 2), " " + t3);
    CmpConcat("-", s2, "-", t2);
    var s1 := Digits(a.month, 2) + ("-" + s2);
    var t1 := Digits(b.month, 2) + ("-" + t2);
    CmpConcat(Digits(a.month, 2), "-" + s2, Digits(b.month, 2), "-" + t2);
    CmpConcat("-", s1, "-", t1);
    CmpConcat(Digits(a.year, 4), "-" + s1, Digits(b.year, 4), "-" + t1);
  }

  /** The text the bot stores for, and compares against, an instant. */
  function Render(t: Instant): (r: string)
    ensures |r| == 19
  {
    InstantYear(t);
    Format(FromSeconds(t))
  }

  /** What makes the SQL text comparison `remind_time <= now` correct:
      comparing rendered timestamps as text is comparing the instants. */
  lemma RenderOrder(t1: Instant, t2: Instant)
    ensures TextLe(Render(t1), Render(t2)) <==> t1 <= t2
    ensures Render(t1) == Render(t2) <==> t1 == t2
  {
    var d1, d2 := FromSeconds(t1), FromSeconds(t2);
    InstantYear(t1);
    InstantYear(t2);
    FormatCmp(d1, d2);
    FieldCmpIsChronological(d1, d2);
  }
}
