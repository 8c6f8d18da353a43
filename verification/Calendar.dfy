/**
Whole seconds of the Gregorian calendar without clock changes, and the date object of the trigger.
*/
module Calendar {
  import opened Arith

  predicate IsLeap(y: int) {
    y % 4 == 0 && (y % 100 != 0 || y % 400 == 0)
  }

  // The number of days of month m (0 is January).
  function MonthLength(y: int, m: int): (n: int)
    ensures 28 <= n <= 31
  {
    if m == 1 then (if IsLeap(y) then 29 else 28)
    else if m == 3 || m == 5 || m == 8 || m == 10 then 30
    else 31
  }

  // Days of year y before month m.
  function MonthStart(y: int, m: nat): (n: int)
    ensures 28 * m <= n <= 31 * m
  {
    if m == 0 then 0 else MonthStart(y, m - 1) + MonthLength(y, m - 1)
  }

  // Days before year y, from the beginning of year 0.
  function YearStart(y: nat): int {
    if y == 0 then 0 else YearStart(y - 1) + MonthStart(y - 1, 12)
  }

  function DayNumber(y: nat, m: nat, d: int): int {
    YearStart(y) + MonthStart(y, m) + d - 1
  }

  datatype Civil = Civil(year: nat, month: nat, day: nat, hour: nat, minute: nat, second: nat) {

    predicate Valid() {
      && month < 12 && 1 <= day <= MonthLength(year, month)
      && hour < 24 && minute < 60 && second < 60
    }

    function Day(): int {
      DayNumber(year, month, day)
    }

    function Seconds(): int {
      ((Day() * 24 + hour) * 60 + minute) * 60 + second
    }

    // 0 is Sunday.
    function Weekday(): (w: int)
      ensures 0 <= w < 7
    {
      (Day() + 6) % 7
    }
  }

  // Earlier in the calendar, field by field.
  predicate Earlier(a: Civil, b: Civil) {
    a.year < b.year || (a.year == b.year && (
      a.month < b.month || (a.month == b.month && (
        a.day < b.day || (a.day == b.day && (
          a.hour < b.hour || (a.hour == b.hour && (
            a.minute < b.minute || (a.minute == b.minute && a.second < b.second)))))))))
  }

  /* ---------- the calendar and the count of days agree ---------- */

  lemma QuarterYears(y: int)
    ensures MonthStart(y, 4) == if IsLeap(y) then 121 else 120
    ensures MonthStart(y, 8) == MonthStart(y, 4) + 123
    ensures MonthStart(y, 12) == MonthStart(y, 8) + 122
  {
    assert MonthStart(y, 1) == 31;
    assert MonthStart(y, 3) == MonthStart(y, 2) + 31;
    assert MonthStart(y, 5) == MonthStart(y, 4) + 31;
    assert MonthStart(y, 6) == MonthStart(y, 5) + 30;
    assert MonthStart(y, 7) == MonthStart(y, 6) + 31;
    assert MonthStart(y, 9) == MonthStart(y, 8) + 30;
    assert MonthStart(y, 10) == MonthStart(y, 9) + 31;
    assert MonthStart(y, 11) == MonthStart(y, 10) + 30;
  }

  // The days before month m in closed form: from March on, five months have 153 days.
  function DaysBefore(y: int, m: nat): int {
    if m == 0 then 0
    else if m == 1 then 31
    else (if IsLeap(y) then 60 else 59) + (153 * (m - 2) + 2) / 5
  }

  lemma {:induction false} MonthStartClosed(y: int, m: nat)
    requires m <= 12
    ensures MonthStart(y, m) == DaysBefore(y, m)
  {
    if m > 0 {
      MonthStartClosed(y, m - 1);
    }
  }

  // The leap years before y, counted in closed form.
  lemma {:induction false} YearStartClosed(y: nat)
    ensures YearStart(y) == 365 * y + Leaps(y)
  {
    if y == 0 {
    } else {
      YearStartClosed(y - 1);
      QuarterYears(y - 1);
      LeapStep(y - 1);
    }
  }

  // The leap years before y.
  function Leaps(y: nat): int {
    (y + 3) / 4 - (y + 99) / 100 + (y + 399) / 400
  }

  lemma LeapStep(y: nat)
    ensures Leaps(y + 1) == Leaps(y) + (if IsLeap(y) then 1 else 0)
  {
    DivStep(y, 4);
    DivStep(y, 100);
    DivStep(y, 400);
    Nested(y, 100, 4);
    Nested(y, 400, 100);
  }

  lemma Nested(y: nat, a: nat, b: nat)
    requires 0 < b && ((a == 100 && b == 4) || (a == 400 && b == 100))
    ensures y % a == 0 ==> y % b == 0
  {
    if y % a == 0 {
      var q := y / a;
      assert y == a * q;
      DivModUnique(y, b, if a == 100 then 25 * q else 4 * q, 0);
    }
  }

  lemma DivStep(y: nat, k: int)
    requires 0 < k
    ensures (y + k) / k == (y + k - 1) / k + (if y % k == 0 then 1 else 0)
  {
    var q, r := y / k, y % k;
    Factor(q, r, k);
    DivModUnique(y + k, k, q + 1, r);
    if r == 0 {
      DivModUnique(y + k - 1, k, q, k - 1);
    } else {
      DivModUnique(y + k - 1, k, q + 1, r - 1);
    }
  }

  lemma Factor(q: int, r: int, k: int)
    ensures q * k + r + k == (q + 1) * k + r
  {}

  // The first of January 1970 is a Thursday.
  lemma Epoch()
    ensures YearStart(1970) == 719528
    ensures Civil(1970, 0, 1, 0, 0, 0).Weekday() == 4
  {
    hide YearStart;
    YearStartClosed(1970);
  }

  lemma {:induction false} MonthStartMono(y: int, m: nat, n: nat)
    requires m <= n
    ensures MonthStart(y, m) <= MonthStart(y, n)
    ensures m < n ==> MonthStart(y, m) + MonthLength(y, m) <= MonthStart(y, n)
    decreases n - m
  {
    if m < n {
      MonthStartMono(y, m + 1, n);
    }
  }

  lemma {:induction false} YearStartMono(y: nat, z: nat)
    requires y <= z
    ensures YearStart(y) <= YearStart(z)
    ensures y < z ==> YearStart(y) + MonthStart(y, 12) <= YearStart(z)
    decreases z - y
  {
    if y < z {
      YearStartMono(y + 1, z);
    }
  }

  lemma DayOrder(a: Civil, b: Civil)
    requires a.Valid() && b.Valid()
    requires a.year < b.year || (a.year == b.year && (a.month < b.month || (a.month == b.month && a.day < b.day)))
    ensures a.Day() < b.Day()
  {
    hide MonthStart, YearStart, MonthLength;
    if a.year < b.year {
      YearStartMono(a.year, b.year);
      MonthStartMono(a.year, a.month, 12);
      MonthStartMono(b.year, 0, b.month);
    } else if a.month < b.month {
      MonthStartMono(a.year, a.month, b.month);
    }
  }

  // The order of the calendar is the order in time.
  lemma EarlierIsLess(a: Civil, b: Civil)
    requires a.Valid() && b.Valid()
    ensures Earlier(a, b) <==> a.Seconds() < b.Seconds()
  {
    EarlierLess(a, b);
    EarlierLess(b, a);
  }

  lemma EarlierLess(a: Civil, b: Civil)
    requires a.Valid() && b.Valid()
    ensures Earlier(a, b) ==> a.Seconds() < b.Seconds()
  {
    if Earlier(a, b) {
      if a.year == b.year && a.month == b.month && a.day == b.day {
        assert a.Day() == b.Day();
      } else {
        DayOrder(a, b);
      }
    }
  }

  /* ---------- the successor of a time ---------- */

  function FirstOfNext(t: Civil): Civil
    requires t.month < 12
  {
    if t.month == 11 then t.(year := t.year + 1, month := 0, day := 1) else t.(month := t.month + 1, day := 1)
  }

  function NextDay(t: Civil): (u: Civil)
    requires t.Valid()
    ensures u.Valid()
  {
    if t.day < MonthLength(t.year, t.month) then t.(day := t.day + 1) else FirstOfNext(t)
  }

  function NextHour(t: Civil): (u: Civil)
    requires t.Valid()
    ensures u.Valid()
  {
    if t.hour < 23 then t.(hour := t.hour + 1) else NextDay(t).(hour := 0)
  }

  function NextMinute(t: Civil): (u: Civil)
    requires t.Valid()
    ensures u.Valid()
  {
    if t.minute < 59 then t.(minute := t.minute + 1) else NextHour(t).(minute := 0)
  }

  function NextSecond(t: Civil): (u: Civil)
    requires t.Valid()
    ensures u.Valid()
  {
    if t.second < 59 then t.(second := t.second + 1) else NextMinute(t).(second := 0)
  }

  lemma NextDayCounts(t: Civil)
    requires t.Valid()
    ensures NextDay(t).Day() == t.Day() + 1
  {}

  // No second is skipped or counted twice by the calendar.
  lemma NextSecondCounts(t: Civil)
    requires t.Valid()
    ensures NextSecond(t).Seconds() == t.Seconds() + 1
  {
    hide DayNumber;
    NextDayCounts(t);
  }

  /* ---------- the date object ---------- */

  // A setter that takes a field past its range carries into the next larger one.
  class Date {
    var c: Civil

    ghost predicate Valid()
      reads this
    {
      c.Valid()
    }

    constructor (t: Civil)
      requires t.Valid()
      ensures Valid() && c == t
    {
      c := t;
    }

    method SetSeconds(n: nat)
      requires Valid() && n <= 60
      modifies this
      ensures Valid()
      ensures c == if n < 60 then old(c).(second := n) else NextMinute(old(c)).(second := 0)
    {
      if n < 60 {
        c := c.(second := n);
      } else {
        SetMinutes(c.minute + 1);
        c := c.(second := 0);
      }
    }

    method SetMinutes(n: nat)
      requires Valid() && n <= 60
      modifies this
      ensures Valid()
      ensures c == if n < 60 then old(c).(minute := n) else NextHour(old(c)).(minute := 0)
    {
      if n < 60 {
        c := c.(minute := n);
      } else {
        SetHours(c.hour + 1);
        c := c.(minute := 0);
      }
    }

    method SetHours(n: nat)
      requires Valid() && n <= 24
      modifies this
      ensures Valid()
      ensures c == if n < 24 then old(c).(hour := n) else NextDay(old(c)).(hour := 0)
    {
      if n < 24 {
        c := c.(hour := n);
      } else {
        SetDate(c.day + 1);
        c := c.(hour := 0);
      }
    }

    method SetDate(n: nat)
      requires Valid() && 1 <= n <= MonthLength(c.year, c.month) + 1
      modifies this
      ensures Valid()
      ensures c == if n <= MonthLength(old(c.year), old(c.month)) then old(c).(day := n) else FirstOfNext(old(c))
    {
      c := if n <= MonthLength(c.year, c.month) then c.(day := n) else FirstOfNext(c);
    }

    // Days past the end of the new month run over into the month after it.
    method SetMonth(n: nat)
      requires Valid() && n <= 12
      modifies this
      ensures Valid()
      ensures var t := if n < 12 then old(c).(month := n) else old(c).(year := old(c.year) + 1, month := 0);
              var limit := MonthLength(t.year, t.month);
              c == if t.day <= limit then t else FirstOfNext(t).(day := t.day - limit)
      ensures old(c.day) <= 28 || n == 0 ==> c.day == old(c.day)
    {
      var t := if n < 12 then c.(month := n) else c.(year := c.year + 1, month := 0);
      var limit := MonthLength(t.year, t.month);
      c := if t.day <= limit then t else FirstOfNext(t).(day := t.day - limit);
    }

    // The 29th of February becomes the 1st of March in a year that has none.
    method SetYear(y: nat)
      requires Valid()
      modifies this
      ensures Valid() && c.year == y
      ensures var t := old(c).(year := y);
              c == if t.day <= MonthLength(y, t.month) then t else t.(month := 2, day := 1)
    {
      var t := c.(year := y);
      c := if t.day <= MonthLength(y, t.month) then t else FirstOfNext(t);
    }
  }

  // The day before the first of the next month.
  method GetDomLimit(y: nat, m: nat) returns (n: nat)
    requires m < 12
    ensures n == DaysBefore(y, m + 1) - DaysBefore(y, m) == MonthLength(y, m)
    ensures NextDay(Civil(y, m, n, 0, 0, 0)).day == 1
  {
    n := MonthLength(y, m);
    MonthStartClosed(y, m);
    MonthStartClosed(y, m + 1);
  }
}
