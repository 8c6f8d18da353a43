/**
The cron trigger: the next second whose month, day of the month, weekday, hour, minute and
second all match their fields.
*/
module CronTriggers {
  import opened Calendar
  import opened Options

  // A decoded field: -1, a single number, or a sorted list.
  datatype Field = Any | Only(n: nat) | List(s: seq<nat>) {

    predicate On(v: nat) {
      match this
      case Any => true
      case Only(n) => v == n
      case List(s) => v in s
    }

    predicate Within(lo: nat, hi: nat) {
      match this
      case Any => true
      case Only(n) => lo <= n <= hi
      case List(s) => Sorted(s) && forall i :: 0 <= i < |s| ==> lo <= s[i] <= hi
    }
  }

  predicate Sorted(s: seq<nat>) {
    forall i, j :: 0 <= i < j < |s| ==> s[i] <= s[j]
  }

  datatype Trigger = Trigger(second: Field, minute: Field, hour: Field, dom: Field, month: Field, dow: Field) {

    predicate Valid() {
      && second.Within(0, 59) && minute.Within(0, 59) && hour.Within(0, 23)
      && dom.Within(1, 31) && month.Within(0, 11) && dow.Within(0, 6)
    }

    predicate OnDay(t: Civil) {
      dom.On(t.day) && dow.On(t.Weekday())
    }

    predicate Matches(t: Civil) {
      && month.On(t.month) && OnDay(t)
      && hour.On(t.hour) && minute.On(t.minute) && second.On(t.second)
    }
  }

  /* ---------- matching one field ---------- */

  method TimeMatch(value: nat, field: Field) returns (matched: bool)
    requires field.List? ==> Sorted(field.s)
    ensures matched == field.On(value)
  {
    match field {
      case Any =>
        return true;
      case Only(n) =>
        return value == n;
      case List(s) =>
        // an empty list has no first and no last element to compare with
        if s != [] && (value < s[0] || value > s[|s| - 1]) {
          return false;
        }
        var i := 0;
        while i < |s|
          invariant 0 <= i <= |s|
          invariant forall k :: 0 <= k < i ==> s[k] != value
        {
          if value == s[i] {
            return true;
          }
          i := i + 1;
        }
        return false;
    }
  }

  // n is where the field goes on to after value: the least later match, or else the least of all.
  ghost predicate Next(field: Field, value: nat, n: nat) {
    && field.On(n)
    && (value < n ==> forall v: nat :: value < v < n ==> !field.On(v))
    && (n <= value ==> forall v: nat :: value < v || v < n ==> !field.On(v))
  }

  method NextCronTime(value: nat, field: Field) returns (next: Option<nat>)
    requires field.List? ==> Sorted(field.s)
    ensures next.None? <==> field == List([])
    ensures next.Some? ==> Next(field, value, next.value)
  {
    var v := value + 1;
    match field {
      case Any =>
        return Some(v);
      case Only(n) =>
        return Some(n);
      case List(s) =>
        if s != [] && (v <= s[0] || v > s[|s| - 1]) {
          return Some(s[0]);
        }
        var i := 0;
        while i < |s|
          invariant 0 <= i <= |s|
          invariant forall k :: 0 <= k < i ==> s[k] < v
        {
          if v <= s[i] {
            return Some(s[i]);
          }
          i := i + 1;
        }
        return None;
    }
  }

  /* ---------- stretches of time without a match ---------- */

  ghost predicate Clear(tr: Trigger, a: Civil, b: Civil) {
    forall t: Civil :: t.Valid() && !Earlier(t, a) && Earlier(t, b) ==> !tr.Matches(t)
  }

  lemma ClearTransitive(tr: Trigger, a: Civil, b: Civil, c: Civil)
    requires Clear(tr, a, b) && Clear(tr, b, c)
    ensures Clear(tr, a, c)
  {
    hide Trigger.Matches, Earlier;
    forall t: Civil | t.Valid() && !Earlier(t, a) && Earlier(t, c)
      ensures !tr.Matches(t)
    {
    }
  }

  // Day d of the month of t, at the time of day of t.
  function DayOf(t: Civil, d: nat): Civil {
    t.(day := d)
  }

  lemma SameWeekday(t: Civil, u: Civil)
    requires t.year == u.year && t.month == u.month && t.day == u.day
    ensures t.Weekday() == u.Weekday()
  {}

  // The days from the one of t up to d do not match.
  ghost predicate OffDays(tr: Trigger, t: Civil, d: int) {
    forall e: nat :: t.day <= e < d ==> !tr.OnDay(DayOf(t, e))
  }

  lemma OffOne(tr: Trigger, t: Civil)
    requires !tr.OnDay(t)
    ensures OffDays(tr, t, t.day + 1)
  {}

  lemma OffNext(tr: Trigger, t: Civil, d: nat)
    requires OffDays(tr, t, d) && !tr.OnDay(DayOf(t, d))
    ensures OffDays(tr, t, d + 1)
  {
    hide Trigger.OnDay;
  }

  lemma OffBetween(tr: Trigger, t: Civil, d: nat, n: nat, e: nat)
    requires OffDays(tr, t, d + 1) && Next(tr.dom, d, n) && (n <= d || e <= n)
    ensures OffDays(tr, t, e)
  {
    hide Field.On, Civil.Weekday;
  }

  lemma EmptyDom(tr: Trigger, a: Civil, b: Civil)
    requires tr.dom == List([])
    ensures NeverMatches(tr) && Clear(tr, a, b)
  {
    hide Civil.Weekday;
  }

  lemma ClearDays(tr: Trigger, t: Civil, d: nat)
    requires t.day < d && OffDays(tr, t, d)
    ensures Clear(tr, t, t.(day := d, hour := 0, minute := 0, second := 0))
  {
    var b := t.(day := d, hour := 0, minute := 0, second := 0);
    forall u: Civil | u.Valid() && !Earlier(u, t) && Earlier(u, b)
      ensures !tr.Matches(u)
    {
      SameDays(tr, t, u);
    }
  }

  lemma SameDays(tr: Trigger, t: Civil, u: Civil)
    requires t.year == u.year && t.month == u.month
    ensures tr.OnDay(DayOf(t, u.day)) == tr.OnDay(u)
  {
    SameWeekday(DayOf(t, u.day), u);
  }

  lemma ClearMonth(tr: Trigger, t: Civil)
    requires t.Valid() && OffDays(tr, t, MonthLength(t.year, t.month) + 1)
    ensures Clear(tr, t, FirstOfNext(t).(hour := 0, minute := 0, second := 0))
  {
    hide MonthLength, Civil.Weekday;
    var b := FirstOfNext(t).(hour := 0, minute := 0, second := 0);
    forall u: Civil | u.Valid() && !Earlier(u, t) && Earlier(u, b)
      ensures !tr.Matches(u)
    {
      SameDays(tr, t, u);
    }
  }

  /* ---------- the trigger ---------- */

  // Whether a stage leaves the date on its field, starts the stages over, or can never match.
  datatype Outcome = Settled | Restart | Never

  ghost predicate Stage(tr: Trigger, a: Civil, b: Civil, o: Outcome) {
    && b.Valid()
    && Clear(tr, a, b)
    && (a == b || Earlier(a, b))
    && (o == Restart ==> Earlier(a, b))
    && (o == Never ==> NeverMatches(tr))
  }

  ghost predicate NeverMatches(tr: Trigger) {
    forall t: Civil :: t.Valid() ==> !tr.Matches(t)
  }

  // next is the earliest match after the second t, and there is none before the year 3000 if it is missing.
  ghost predicate Fires(tr: Trigger, t: Civil, next: Option<Civil>) {
    match next
    case None => forall u: Civil :: u.Valid() && t.Seconds() < u.Seconds() && tr.Matches(u) ==> u.year > 2999
    case Some(n) =>
      && n.Valid() && tr.Matches(n) && n.year <= 2999 && t.Seconds() < n.Seconds()
      && forall u: Civil :: u.Valid() && t.Seconds() < u.Seconds() && tr.Matches(u) ==> n.Seconds() <= u.Seconds()
  }

  lemma StageTransitive(tr: Trigger, a: Civil, b: Civil, c: Civil, o: Outcome)
    requires Stage(tr, a, b, Settled) && Stage(tr, b, c, o)
    ensures Stage(tr, a, c, o)
  {
    ClearTransitive(tr, a, b, c);
    hide Clear, NeverMatches;
  }

  lemma AfterIsNotEarlier(t: Civil, u: Civil)
    requires t.Valid() && u.Valid()
    ensures t.Seconds() < u.Seconds() <==> !Earlier(u, NextSecond(t))
  {
    EarlierIsLess(u, NextSecond(t));
    NextSecondCounts(t);
    hide Civil.Seconds;
  }

  lemma NoneFires(tr: Trigger, t: Civil, b: Civil)
    requires t.Valid() && b.Valid() && b.year > 2999 && Clear(tr, NextSecond(t), b)
    ensures Fires(tr, t, None)
  {
    hide Trigger.Matches, Civil.Seconds;
    forall u: Civil | u.Valid() && t.Seconds() < u.Seconds() && tr.Matches(u)
      ensures u.year > 2999
    {
      AfterIsNotEarlier(t, u);
    }
  }

  lemma MatchFires(tr: Trigger, t: Civil, b: Civil)
    requires t.Valid() && b.Valid() && b.year <= 2999 && tr.Matches(b) && Clear(tr, NextSecond(t), b)
    requires !Earlier(b, NextSecond(t))
    ensures Fires(tr, t, Some(b))
  {
    hide Trigger.Matches, Civil.Seconds, Earlier;
    AfterIsNotEarlier(t, b);
    forall u: Civil | u.Valid() && t.Seconds() < u.Seconds() && tr.Matches(u)
      ensures b.Seconds() <= u.Seconds()
    {
      AfterIsNotEarlier(t, u);
      EarlierIsLess(u, b);
    }
  }

  class CronTrigger {
    const trigger: Trigger
    var nextTime: Option<Civil>

    constructor (tr: Trigger, now: Civil)
      requires tr.Valid() && now.Valid()
      ensures trigger == tr && Fires(tr, now, nextTime)
    {
      trigger := tr;
      nextTime := None;
      new;
      var _ := NextExcuteTime(Some(now));
    }

    // The time is a whole second; without one, the trigger goes on from the time stored last.
    method NextExcuteTime(time: Option<Civil>) returns (next: Option<Civil>)
      requires trigger.Valid() && (time.None? ==> nextTime.Some?)
      requires time.Some? ==> time.value.Valid()
      requires nextTime.Some? ==> nextTime.value.Valid()
      modifies this
      ensures Fires(trigger, if time.Some? then time.value else old(nextTime).value, next)
      ensures nextTime == if next.Some? then next else old(nextTime)
    {
      ghost var from := if time.Some? then time.value else nextTime.value;
      var date := new Date(if time.Some? then time.value else nextTime.value);
      date.SetSeconds(date.c.second + 1);
      ghost var start := NextSecond(from);
      while true
        invariant fresh(date) && date.Valid() && Clear(trigger, start, date.c)
        invariant nextTime == old(nextTime) && !Earlier(date.c, start)
        decreases 3000 - date.c.year, 12 - date.c.month, 32 - date.c.day,
                  24 - date.c.hour, 60 - date.c.minute, 60 - date.c.second
      {
        if date.c.year > 2999 {
          NoneFires(trigger, from, date.c);
          return None;
        }
        ghost var t := date.c;
        var o := Settle(date);
        ClearTransitive(trigger, start, t, date.c);
        if o == Never {
          return None;
        }
        if o == Settled {
          break;
        }
      }
      MatchFires(trigger, from, date.c);
      nextTime := Some(date.c);
      return nextTime;
    }

    // One round of the loop.
    method Settle(date: Date) returns (o: Outcome)
      requires trigger.Valid() && date.Valid() && date.c.year <= 2999
      modifies date
      ensures Stage(trigger, old(date.c), date.c, o)
      ensures o == Settled ==> trigger.Matches(date.c) && date.c.year <= 2999
    {
      hide Clear, Earlier, NeverMatches, Field.On, Trigger.Valid;
      ghost var t := date.c;
      o := SettleMonth(date);
      if o != Settled {
        return;
      }
      ghost var t1 := date.c;
      o := SettleDay(date);
      StageTransitive(trigger, t, t1, date.c, o);
      if o != Settled {
        return;
      }
      ghost var t2 := date.c;
      o := SettleHour(date);
      StageTransitive(trigger, t, t2, date.c, o);
      if o != Settled {
        return;
      }
      SameWeekday(t2, date.c);
      ghost var t3 := date.c;
      o := SettleMinute(date);
      StageTransitive(trigger, t, t3, date.c, o);
      if o != Settled {
        return;
      }
      SameWeekday(t3, date.c);
      ghost var t4 := date.c;
      o := SettleSecond(date);
      StageTransitive(trigger, t, t4, date.c, o);
      if o == Settled {
        SameWeekday(t4, date.c);
      }
    }

    method SettleMonth(date: Date) returns (o: Outcome)
      requires trigger.Valid() && date.Valid() && date.c.year <= 2999
      modifies date
      ensures Stage(trigger, old(date.c), date.c, o)
      ensures o == Settled ==> trigger.month.On(date.c.month) && date.c.year == old(date.c.year)
    {
      ghost var t := date.c;
      var matched := TimeMatch(date.c.month, trigger.month);
      if !matched {
        var nextMonth := NextCronTime(date.c.month, trigger.month);
        if nextMonth == None {
          return Never;
        }
        if nextMonth.value <= date.c.month {
          date.SetYear(date.c.year + 1);
          date.SetMonth(0);
          date.SetDate(1);
          date.SetHours(0);
          date.SetMinutes(0);
          date.SetSeconds(0);
          return Restart;
        }
        date.SetDate(1);
        date.SetMonth(nextMonth.value);
        date.SetHours(0);
        date.SetMinutes(0);
        date.SetSeconds(0);
      }
      return Settled;
    }

    method SettleDay(date: Date) returns (o: Outcome)
      requires trigger.Valid() && date.Valid()
      modifies date
      ensures Stage(trigger, old(date.c), date.c, o)
      ensures o == Settled ==>
                trigger.OnDay(date.c) && date.c.year == old(date.c.year) && date.c.month == old(date.c.month)
    {
      ghost var t := date.c;
      var onDom := TimeMatch(date.c.day, trigger.dom);
      var onDow := TimeMatch(date.c.Weekday(), trigger.dow);
      if !onDom || !onDow {
        o := SeekDay(date);
      } else {
        o := Settled;
      }
    }

    // From a day that does not match to the next one of its month that does, or to the next month.
    method SeekDay(date: Date) returns (o: Outcome)
      requires trigger.Valid() && date.Valid() && !trigger.OnDay(date.c)
      modifies date
      ensures Stage(trigger, old(date.c), date.c, o)
      ensures o == Settled ==>
                trigger.OnDay(date.c) && date.c.year == old(date.c.year) && date.c.month == old(date.c.month)
    {
      hide Clear, Field.On, Civil.Weekday, MonthLength, NeverMatches, OffDays, Next;
      ghost var t := date.c;
      var domLimit := GetDomLimit(date.c.year, date.c.month);
      OffOne(trigger, t);
      var again := true;
      while again
        invariant date.c.Valid() && date.c == DayOf(t, date.c.day) && t.day <= date.c.day
        invariant OffDays(trigger, t, if again then date.c.day + 1 else date.c.day)
        invariant !again ==> trigger.OnDay(date.c) && t.day < date.c.day
        decreases again, 32 - date.c.day
      {
        ghost var d := date.c.day;
        var nextDom := NextCronTime(date.c.day, trigger.dom);
        if nextDom == None {
          EmptyDom(trigger, t, date.c);
          return Never;
        }
        if nextDom.value <= date.c.day || nextDom.value > domLimit {
          date.SetDate(1);
          date.SetMonth(date.c.month + 1);
          date.SetHours(0);
          date.SetMinutes(0);
          date.SetSeconds(0);
          OffBetween(trigger, t, d, nextDom.value, domLimit + 1);
          ClearMonth(trigger, t);
          return Restart;
        }
        date.SetDate(nextDom.value);
        OffBetween(trigger, t, d, nextDom.value, nextDom.value);
        var fits := TimeMatch(date.c.Weekday(), trigger.dow);
        if !fits {
          OffNext(trigger, t, nextDom.value);
        }
        again := !fits;
      }
      date.SetHours(0);
      date.SetMinutes(0);
      date.SetSeconds(0);
      SameWeekday(DayOf(t, date.c.day), date.c);
      ClearDays(trigger, t, date.c.day);
      return Settled;
    }

    method SettleHour(date: Date) returns (o: Outcome)
      requires trigger.Valid() && date.Valid()
      modifies date
      ensures Stage(trigger, old(date.c), date.c, o) && o != Never
      ensures o == Settled ==> trigger.hour.On(date.c.hour)
      ensures o == Settled ==> (date.c.year, date.c.month, date.c.day) == old((date.c.year, date.c.month, date.c.day))
    {
      ghost var t := date.c;
      var matched := TimeMatch(date.c.hour, trigger.hour);
      if !matched {
        var next := NextCronTime(date.c.hour, trigger.hour);
        var nextHour := OrZero(next);
        if nextHour <= date.c.hour {
          date.SetDate(date.c.day + 1);
          date.SetHours(nextHour);
          date.SetMinutes(0);
          date.SetSeconds(0);
          return Restart;
        }
        date.SetHours(nextHour);
        date.SetMinutes(0);
        date.SetSeconds(0);
      }
      return Settled;
    }

    method SettleMinute(date: Date) returns (o: Outcome)
      requires trigger.Valid() && date.Valid()
      modifies date
      ensures Stage(trigger, old(date.c), date.c, o) && o != Never
      ensures o == Settled ==> trigger.minute.On(date.c.minute)
      ensures o == Settled ==> date.c == old(date.c).(minute := date.c.minute, second := date.c.second)
    {
      ghost var t := date.c;
      var matched := TimeMatch(date.c.minute, trigger.minute);
      if !matched {
        var next := NextCronTime(date.c.minute, trigger.minute);
        var nextMinute := OrZero(next);
        if nextMinute <= date.c.minute {
          date.SetHours(date.c.hour + 1);
          date.SetMinutes(nextMinute);
          date.SetSeconds(0);
          return Restart;
        }
        date.SetMinutes(nextMinute);
        date.SetSeconds(0);
      }
      return Settled;
    }

    method SettleSecond(date: Date) returns (o: Outcome)
      requires trigger.Valid() && date.Valid()
      modifies date
      ensures Stage(trigger, old(date.c), date.c, o) && o != Never
      ensures o == Settled ==> trigger.second.On(date.c.second)
      ensures o == Settled ==> date.c == old(date.c).(second := date.c.second)
    {
      ghost var t := date.c;
      var matched := TimeMatch(date.c.second, trigger.second);
      if !matched {
        var next := NextCronTime(date.c.second, trigger.second);
        var nextSecond := OrZero(next);
        if nextSecond <= date.c.second {
          date.SetMinutes(date.c.minute + 1);
          date.SetSeconds(nextSecond);
          return Restart;
        }
        date.SetSeconds(nextSecond);
      }
      return Settled;
    }
  }

  // null counts as 0 in a comparison and in a setter of the date.
  function OrZero(n: Option<nat>): nat {
    if n.None? then 0 else n.value
  }
}
