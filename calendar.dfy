/**
 * `getWeekKey` of app/api/rankings/weekly/route.ts over whole days: the key
 * "YYYY-Www" of a civil date, and how it compares with the ISO 8601 week
 * date (section 4.1.4 of ISO 8601:2004). Days are counted from 1970-01-01,
 * as ECMAScript time values are.
 */
module Calendar {
  import opened Text

  predicate IsLeap(y: int) {
    y % 4 == 0 && (y % 100 != 0 || y % 400 == 0)
  }

  /** ECMAScript's DayFromYear: the day number of 1 January of `y`. */
  function YearStart(y: int): int {
    365 * (y - 1970) + (y - 1969) / 4 - (y - 1901) / 100 + (y - 1601) / 400
  }

  lemma YearLength(y: int)
    ensures YearStart(y + 1) - YearStart(y) == if IsLeap(y) then 366 else 365
  {
    LeapStep4(y);
    LeapStep100(y);
    LeapStep400(y);
    MultipleChain(y);
  }

  /** A multiple of 400 is one of 100, and a multiple of 100 is one of 4. */
  lemma MultipleChain(y: int)
    ensures y % 400 == 0 ==> y % 100 == 0
    ensures y % 100 == 0 ==> y % 4 == 0
  {
    if y % 400 == 0 {
      Multiple400(y / 400);
    }
    if y % 100 == 0 {
      Multiple100(y / 100);
    }
  }

  lemma Multiple400(k: int)
    ensures (400 * k) % 100 == 0
  {
  }

  lemma Multiple100(k: int)
    ensures (100 * k) % 4 == 0
  {
  }

  lemma LeapStep4(y: int)
    ensures (y + 1 - 1969) / 4 - (y - 1969) / 4 == if y % 4 == 0 then 1 else 0
  {
  }

  lemma LeapStep100(y: int)
    ensures (y + 1 - 1901) / 100 - (y - 1901) / 100 == if y % 100 == 0 then 1 else 0
  {
  }

  lemma LeapStep400(y: int)
    ensures (y + 1 - 1601) / 400 - (y - 1601) / 400 == if y % 400 == 0 then 1 else 0
  {
  }

  lemma {:induction false} YearStartMonotone(a: int, b: int)
    requires a <= b
    ensures YearStart(a) + 365 * (b - a) <= YearStart(b)
    decreases b - a
  {
    if a < b {
      YearStartMonotone(a + 1, b);
      YearLength(a);
    }
  }

  /** `n` is a day of year `y`. */
  predicate InYear(n: int, y: int) {
    YearStart(y) <= n < YearStart(y + 1)
  }

  /** A day lies in one year only. */
  lemma InOneYear(n: int, a: int, b: int)
    requires InYear(n, a) && InYear(n, b)
    ensures a == b
  {
    if a < b {
      YearStartMonotone(a + 1, b);
    } else if b < a {
      YearStartMonotone(b + 1, a);
    }
  }

  function DaysInMonth(y: int, m: int): int
    requires 0 <= m < 12
  {
    if m == 1 then (if IsLeap(y) then 29 else 28)
    else if m == 3 || m == 5 || m == 8 || m == 10 then 30
    else 31
  }

  /** Days in the months of `y` before month `m` (0 = January). */
  function MonthStart(y: int, m: int): (r: int)
    requires 0 <= m < 12
    ensures 0 <= r && r + DaysInMonth(y, m) <= (if IsLeap(y) then 366 else 365)
  {
    var l := if IsLeap(y) then 1 else 0;
    [0, 31, 59 + l, 90 + l, 120 + l, 151 + l, 181 + l, 212 + l, 243 + l, 273 + l, 304 + l, 334 + l][m]
  }

  predicate ValidDate(y: int, m: int, d: int) {
    0 <= m < 12 && 1 <= d <= DaysInMonth(y, m)
  }

  /** `Date.UTC(y, m, d)` in days, before the two-digit-year rule; a day past the month's end runs into the next month. */
  function DayNumber(y: int, m: int, d: int): int
    requires 0 <= m < 12
  {
    YearStart(y) + MonthStart(y, m) + d - 1
  }

  /** `Date.UTC` reads a year from 0 to 99 as 1900 to 1999. */
  function UtcYear(y: int): int {
    if 0 <= y <= 99 then 1900 + y else y
  }

  /** `getUTCDay()`: 0 for Sunday; 1970-01-01 was a Thursday. */
  function Weekday(n: int): int {
    (n + 4) % 7
  }

  /** Line 8: the weekday counted from Monday = 0. */
  function DayFromMonday(n: int): int {
    (Weekday(n) + 6) % 7
  }

  /** Line 9: the Thursday of the Monday-to-Sunday week of `n`. */
  function ThursdayOf(n: int): int {
    n - DayFromMonday(n) + 3
  }

  /** The shifted Thursday is a multiple of 7 days from 1970-01-01 (itself a Thursday). */
  lemma ThursdayForm(n: int)
    ensures DayFromMonday(n) == (n + 3) % 7
    ensures ThursdayOf(n) == 7 * ((n + 3) / 7)
  {
    assert (n + 3) == 7 * ((n + 3) / 7) + (n + 3) % 7;
  }

  /** `getUTCFullYear()` of day `t`, which lies in `y` or a year next to it. */
  function YearNear(y: int, t: int): (r: int)
    requires YearStart(y - 1) <= t < YearStart(y + 2)
    ensures InYear(t, r) && y - 1 <= r <= y + 1
  {
    if t < YearStart(y) then y - 1 else if t < YearStart(y + 1) then y else y + 1
  }

  /** `Math.round(x)`: the nearest integer, halves upwards. */
  function Round(x: real): int {
    (x + 0.5).Floor
  }

  /** Line 11 for day `t` and day `first` (`firstThursday`, 4 January). */
  function WeekNumber(t: int, first: int): int {
    1 + Round(((t - first) as real - 3.0) / 7.0)
  }

  /** Line 11 reduces to `1 + floor((t - first) / 7)`. */
  lemma WeekNumberFloor(t: int, first: int)
    ensures WeekNumber(t, first) == 1 + (t - first) / 7
  {
    var dd := t - first;
    var q := dd / 7;
    var r := dd % 7;
    assert dd == 7 * q + r && 0 <= r < 7;
    var x := (dd as real - 3.0) / 7.0 + 0.5;
    assert x == q as real + (2 * r + 1) as real / 14.0;
    assert q as real <= x < (q + 1) as real;
  }

  /** The day number of the date as the key sees it (line 7). */
  function KeyDay(y: int, m: int, d: int): int
    requires ValidDate(y, m, d)
  {
    DayNumber(UtcYear(y), m, d)
  }

  lemma KeyDayInYear(y: int, m: int, d: int)
    requires ValidDate(y, m, d)
    ensures InYear(KeyDay(y, m, d), UtcYear(y))
  {
    var u := UtcYear(y);
    YearLength(u);
    assert MonthStart(u, m) + d - 1 < (if IsLeap(u) then 366 else 365) by {
      assert DaysInMonth(y, m) <= DaysInMonth(u, m) + 1;
      if m == 1 {
        assert MonthStart(u, m) == 31;
      }
    }
  }

  /** The year of the key: the (UTC) year of the shifted Thursday. */
  function KeyYear(y: int, m: int, d: int): int
    requires ValidDate(y, m, d)
  {
    var n := KeyDay(y, m, d);
    KeyDayInYear(y, m, d);
    YearLength(UtcYear(y) - 1);
    YearLength(UtcYear(y) + 1);
    YearNear(UtcYear(y), ThursdayOf(n))
  }

  /** The week number of the key. */
  function KeyWeek(y: int, m: int, d: int): int
    requires ValidDate(y, m, d)
  {
    WeekOfDay(KeyDay(y, m, d), KeyYear(y, m, d))
  }

  /** Lines 9-11 for day `n` whose shifted Thursday lies in year `ty`. */
  function WeekOfDay(n: int, ty: int): int {
    WeekNumber(ThursdayOf(n), DayNumber(UtcYear(ty), 0, 4))
  }

  /** Lines 5-14: the week key of the civil date `y-(m+1)-d`. */
  function WeekKey(y: int, m: int, d: int): string
    requires ValidDate(y, m, d)
  {
    IntToString(KeyYear(y, m, d)) + "-W" + PadStart(IntToString(KeyWeek(y, m, d)), 2, '0')
  }

  /** Years the two-digit rule of `Date.UTC` leaves alone, for the date and its Thursday. */
  predicate PlainYear(y: int) {
    y < -1 || y > 100
  }

  /**
   * The week runs Monday to Sunday: the shift is 0..6 days back to Monday
   * then 3 on, so it lands on a Thursday at most three days away, and the
   * key's year is the year holding that Thursday.
   */
  lemma ThursdayShift(y: int, m: int, d: int)
    requires ValidDate(y, m, d)
    ensures var n := KeyDay(y, m, d);
      && 0 <= DayFromMonday(n) <= 6
      && (DayFromMonday(n) == 0 <==> Weekday(n) == 1)
      && Weekday(ThursdayOf(n)) == 4
      && -3 <= ThursdayOf(n) - n <= 3
      && InYear(ThursdayOf(n), KeyYear(y, m, d))
  {
    ThursdayFacts(KeyDay(y, m, d));
  }

  /** `ThursdayShift` for any day number. */
  lemma ThursdayFacts(n: int)
    ensures 0 <= DayFromMonday(n) <= 6
    ensures DayFromMonday(n) == 0 <==> Weekday(n) == 1
    ensures Weekday(ThursdayOf(n)) == 4
    ensures -3 <= ThursdayOf(n) - n <= 3
  {
    ThursdayForm(n);
    var q := (n + 3) / 7;
    assert Weekday(ThursdayOf(n)) == (7 * q + 4) % 7 == 4;
    assert n + 3 == 7 * q + DayFromMonday(n);
  }

  /** With `PlainYear`, the week number counts whole weeks from 4 January of the key's year. */
  lemma KeyWeekFloor(y: int, m: int, d: int)
    requires ValidDate(y, m, d) && PlainYear(y)
    ensures KeyWeek(y, m, d) == 1 + (ThursdayOf(KeyDay(y, m, d)) - DayNumber(KeyYear(y, m, d), 0, 4)) / 7
    ensures 0 <= KeyWeek(y, m, d) <= 52
  {
    var ty := KeyYear(y, m, d);
    var t := ThursdayOf(KeyDay(y, m, d));
    WeekNumberFloor(t, DayNumber(UtcYear(ty), 0, 4));
    YearLength(ty);
  }

  /** Two days in the same Monday-to-Sunday week get the same key. */
  lemma SameWeekSameKey(y1: int, m1: int, d1: int, y2: int, m2: int, d2: int)
    requires ValidDate(y1, m1, d1) && ValidDate(y2, m2, d2)
    requires ThursdayOf(KeyDay(y1, m1, d1)) == ThursdayOf(KeyDay(y2, m2, d2))
    ensures WeekKey(y1, m1, d1) == WeekKey(y2, m2, d2)
  {
    InOneYear(ThursdayOf(KeyDay(y1, m1, d1)), KeyYear(y1, m1, d1), KeyYear(y2, m2, d2));
  }

  /** Every day from a Monday to the Sunday after it has that week's Thursday, three days after the Monday. */
  lemma ThursdayOfWeek(mon: int, n: int)
    requires Weekday(mon) == 1 && mon <= n <= mon + 6
    ensures ThursdayOf(n) == mon + 3
  {
    ThursdayForm(mon);
    ThursdayForm(n);
    var q := (mon + 3) / 7;
    assert mon + 3 == 7 * q;
    assert n + 3 == 7 * q + (n - mon);
    assert (n + 3) / 7 == q;
  }

  /** All seven days of a Monday-to-Sunday week get one key. */
  lemma OneKeyPerWeek(mon: int, y1: int, m1: int, d1: int, y2: int, m2: int, d2: int)
    requires ValidDate(y1, m1, d1) && ValidDate(y2, m2, d2) && Weekday(mon) == 1
    requires mon <= KeyDay(y1, m1, d1) <= mon + 6 && mon <= KeyDay(y2, m2, d2) <= mon + 6
    ensures WeekKey(y1, m1, d1) == WeekKey(y2, m2, d2)
  {
    ThursdayOfWeek(mon, KeyDay(y1, m1, d1));
    ThursdayOfWeek(mon, KeyDay(y2, m2, d2));
    SameWeekSameKey(y1, m1, d1, y2, m2, d2);
  }

  /** A day and the day seven later fall in consecutive weeks, one apart in number when the key's year is the same. */
  lemma NextWeek(y1: int, m1: int, d1: int, y2: int, m2: int, d2: int)
    requires ValidDate(y1, m1, d1) && ValidDate(y2, m2, d2)
    requires KeyDay(y2, m2, d2) == KeyDay(y1, m1, d1) + 7
    requires KeyYear(y1, m1, d1) == KeyYear(y2, m2, d2)
    ensures KeyWeek(y2, m2, d2) == KeyWeek(y1, m1, d1) + 1
  {
    WeekOfNextDay(KeyDay(y1, m1, d1), KeyDay(y2, m2, d2), KeyYear(y1, m1, d1), KeyYear(y2, m2, d2));
  }

  lemma WeekOfNextDay(n1: int, n2: int, ty1: int, ty2: int)
    requires n2 == n1 + 7 && ty1 == ty2
    ensures WeekOfDay(n2, ty2) == WeekOfDay(n1, ty1) + 1
  {
    WeekNumberNext(n1, DayNumber(UtcYear(ty1), 0, 4));
  }

  /** The week number of the day seven after `n` is one more. */
  lemma WeekNumberNext(n: int, first: int)
    ensures WeekNumber(ThursdayOf(n + 7), first) == WeekNumber(ThursdayOf(n), first) + 1
  {
    var t := ThursdayOf(n);
    ThursdayNextWeek(n);
    WeekNumberFloor(t, first);
    WeekNumberFloor(t + 7, first);
    assert (t + 7 - first) / 7 == (t - first) / 7 + 1;
  }

  lemma ThursdayNextWeek(n: int)
    ensures ThursdayOf(n + 7) == ThursdayOf(n) + 7
  {
    ThursdayForm(n);
    ThursdayForm(n + 7);
    assert (n + 7 + 3) / 7 == (n + 3) / 7 + 1;
  }

  /** The ISO 8601 week number of Thursday `t` of year `ty`: whole weeks from the Thursday of the week holding 4 January, plus one. */
  function IsoWeek(t: int, ty: int): int {
    var jan4 := DayNumber(ty, 0, 4);
    1 + (t - ThursdayOf(jan4)) / 7
  }

  /**
   * The key's week is the ISO week number when 4 January of the key's year
   * falls on Monday to Thursday, and one less when it falls on Friday to
   * Sunday; the key's year is the ISO week-numbering year.
   */
  lemma KeyWeekVersusIso(y: int, m: int, d: int)
    requires ValidDate(y, m, d) && PlainYear(y)
    ensures var ty := KeyYear(y, m, d);
      var t := ThursdayOf(KeyDay(y, m, d));
      && (DayFromMonday(DayNumber(ty, 0, 4)) <= 3 ==> KeyWeek(y, m, d) == IsoWeek(t, ty))
      && (DayFromMonday(DayNumber(ty, 0, 4)) > 3 ==> KeyWeek(y, m, d) == IsoWeek(t, ty) - 1)
  {
    var ty := KeyYear(y, m, d);
    assert UtcYear(ty) == ty;
    WeekVersusIso(KeyDay(y, m, d), ty);
  }

  /** `KeyWeekVersusIso` for day `n` and a year the two-digit rule leaves alone. */
  lemma WeekVersusIso(n: int, ty: int)
    requires UtcYear(ty) == ty
    ensures var t := ThursdayOf(n);
      var jan4 := DayNumber(ty, 0, 4);
      && (DayFromMonday(jan4) <= 3 ==> WeekOfDay(n, ty) == IsoWeek(t, ty))
      && (DayFromMonday(jan4) > 3 ==> WeekOfDay(n, ty) == IsoWeek(t, ty) - 1)
  {
    var t := ThursdayOf(n);
    var jan4 := DayNumber(ty, 0, 4);
    WeekNumberFloor(t, jan4);
    var ft := ThursdayOf(jan4);
    ThursdayForm(n);
    ThursdayForm(jan4);
    var k := (n + 3) / 7 - (jan4 + 3) / 7;
    assert t - ft == 7 * k;
    assert (t - ft) / 7 == k;
    assert t - jan4 == 7 * k + (3 - DayFromMonday(jan4));
  }

  /** 2 January 2020 (a Thursday, with 4 January a Saturday) gets "2020-W00", where ISO 8601 says week 1. */
  lemma Jan2nd2020()
    ensures WeekKey(2020, 0, 2) == "2020-W00"
    ensures IsoWeek(ThursdayOf(KeyDay(2020, 0, 2)), 2020) == 1
  {
    var n := KeyDay(2020, 0, 2);
    assert n == 18263;
    assert ThursdayOf(n) == 18263;
    assert KeyYear(2020, 0, 2) == 2020;
    assert KeyWeek(2020, 0, 2) == 0 by {
      WeekNumberFloor(18263, 18265);
    }
    assert IntToString(2020) == "2020" by {
      assert NatToString(2) == "2";
      assert NatToString(20) == "20";
      assert NatToString(202) == "202";
    }
    assert IntToString(0) == "0";
    assert PadStart("0", 2, '0') == "00";
  }
}
