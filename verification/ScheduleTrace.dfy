/**
A trace of what the scheduler was asked and what it ran, and what it promises about it.
*/
module ScheduleTraces {
  import opened Calendar
  import opened CronTriggers
  import opened Options
  import opened PriorityQueues

  // How many milliseconds early a job may run.
  const ACCURACY := 10

  const EPOCH_DAY := 719528

  function Milliseconds(t: Civil): int {
    1000 * (t.Seconds() - EPOCH_DAY * 86400)
  }

  // The count of milliseconds begins with 1970 and goes on with every second of the calendar.
  lemma EpochIsZero()
    ensures Milliseconds(Civil(1970, 0, 1, 0, 0, 0)) == 0
  {
    Epoch();
  }

  lemma SecondIsThousand(t: Civil)
    requires t.Valid()
    ensures Milliseconds(NextSecond(t)) == Milliseconds(t) + 1000
  {
    NextSecondCounts(t);
  }

  // What a job was asked to do; a period or a count that is not positive is none.
  datatype Plan = Simple(start: int, period: int, count: int) | Cron(trigger: Trigger)

  // Run number i (from 0) may be planned for this time.
  ghost predicate OnPlan(p: Plan, i: nat, time: int) {
    match p
    case Simple(start, period, count) =>
      time == start + i * period && (i > 0 ==> period > 0) && (count > 0 ==> i < count)
    case Cron(tr) =>
      exists t: Civil :: t.Valid() && tr.Matches(t) && Milliseconds(t) == time
  }

  // The match of a cron trigger after the one at this time, if there is one.
  ghost predicate NextMatch(tr: Trigger, time: int, next: Option<int>) {
    exists t: Civil, u: Option<Civil> :: Fires(tr, t, u) && Milliseconds(t) == time &&
      next == if u.None? then None else Some(Milliseconds(u.value))
  }

  // After the first run, a cron job runs at the match that follows its last run; a simple job has no choice.
  ghost predicate InTurn(p: Plan, runs: nat, last: int, time: int) {
    p.Cron? && runs > 0 ==> NextMatch(p.trigger, last, Some(time))
  }

  // Nothing is left to do after this many runs.
  predicate Over(p: Plan, runs: nat) {
    runs > 0 && (p.Simple? ==> p.period <= 0 || 0 < p.count <= runs)
  }

  // A simple job is over when nothing more can be planned for it.
  lemma OverExactly(p: Plan, n: nat)
    requires p.Simple?
    ensures Over(p, n) <==> n > 0 && forall time :: !OnPlan(p, n, time)
  {
    assert n > 0 && !Over(p, n) ==> OnPlan(p, n, p.start + n * p.period);
  }

  // A live job: its next run is number `runs`, at `time`.
  datatype JobState = JobState(plan: Plan, runs: nat, time: int)

  datatype Event = Scheduled(id: nat, plan: Plan) | Ran(id: nat, time: int, at: int) | Cancelled(id: nat)

  function Runs(trace: seq<Event>, id: nat): nat {
    if trace == [] then 0
    else Runs(trace[..|trace| - 1], id) + (if trace[|trace| - 1].Ran? && trace[|trace| - 1].id == id then 1 else 0)
  }

  // The planned time of the last run of a job, if it has run.
  function LastRun(trace: seq<Event>, id: nat): int {
    if trace == [] then 0
    else
      var e := trace[|trace| - 1];
      if e.Ran? && e.id == id then e.time else LastRun(trace[..|trace| - 1], id)
  }

  ghost predicate LawfulEvent(before: seq<Event>, e: Event) {
    match e
    case Scheduled(id, _) => forall f :: f in before ==> f.id != id
    case Cancelled(_) => true
    case Ran(id, time, at) =>
      && time - at < ACCURACY
      && Cancelled(id) !in before
      && exists p :: Scheduled(id, p) in before && OnPlan(p, Runs(before, id), time)
                     && InTurn(p, Runs(before, id), LastRun(before, id), time)
  }

  ghost predicate Lawful(trace: seq<Event>) {
    forall k :: 0 <= k < |trace| ==> LawfulEvent(trace[..k], trace[k])
  }

  // A live job was scheduled, is not cancelled, and is at its next run.
  ghost predicate AtNextRun(s: JobState, id: nat, trace: seq<Event>) {
    && Scheduled(id, s.plan) in trace && Cancelled(id) !in trace
    && Runs(trace, id) == s.runs && OnPlan(s.plan, s.runs, s.time)
    && InTurn(s.plan, s.runs, LastRun(trace, id), s.time)
  }

  ghost predicate Finished(id: nat, p: Plan, trace: seq<Event>) {
    Cancelled(id) in trace || Over(p, Runs(trace, id))
  }

  // The live jobs are those of the trace that are neither cancelled nor over.
  ghost predicate Tracked(live: map<nat, JobState>, trace: seq<Event>, nextId: nat) {
    && (forall id :: id in live ==> AtNextRun(live[id], id, trace))
    && (forall e :: e in trace ==> e.id < nextId)
    && (forall id, p :: Scheduled(id, p) in trace ==> id in live || Finished(id, p, trace))
  }

  // Every live job has one entry in the queue, at its time; entries of other jobs may remain.
  ghost predicate Queued(live: map<nat, JobState>, q: multiset<Entry>, nextId: nat) {
    && (forall id :: id in live ==> Entry(id, live[id].time) in q)
    && (forall e :: e in q ==> e.id < nextId && q[e] == 1)
    && (forall e, f :: e in q && f in q && e.id == f.id ==> e == f)
  }

  ghost predicate Coherent(live: map<nat, JobState>, q: multiset<Entry>, trace: seq<Event>, nextId: nat) {
    Queued(live, q, nextId) && Tracked(live, trace, nextId) && Lawful(trace)
  }

  /* ---------- the trace grows ---------- */

  lemma RunsGrow(trace: seq<Event>, e: Event, id: nat)
    ensures Runs(trace + [e], id) == Runs(trace, id) + (if e.Ran? && e.id == id then 1 else 0)
    ensures LastRun(trace + [e], id) == if e.Ran? && e.id == id then e.time else LastRun(trace, id)
  {
    assert (trace + [e])[..|trace|] == trace;
  }

  lemma {:induction false} NoRuns(trace: seq<Event>, id: nat)
    requires forall e :: e in trace ==> e.id != id
    ensures Runs(trace, id) == 0
  {
    if trace != [] {
      NoRuns(trace[..|trace| - 1], id);
    }
  }

  lemma LawfulGrows(trace: seq<Event>, e: Event)
    requires Lawful(trace) && LawfulEvent(trace, e)
    ensures Lawful(trace + [e])
  {
    var longer := trace + [e];
    forall k | 0 <= k < |longer|
      ensures LawfulEvent(longer[..k], longer[k])
    {
      assert longer[..k] == trace[..k];
    }
    assert trace[..|trace|] == trace;
  }

  // A cancelled job never runs again.
  lemma CancelledNeverRuns(trace: seq<Event>, i: nat, j: nat)
    requires Lawful(trace) && i < j < |trace| && trace[i].Cancelled? && trace[j].Ran?
    ensures trace[i].id != trace[j].id
  {
    assert LawfulEvent(trace[..j], trace[j]);
    assert trace[..j][i] == trace[i];
  }

  // No run is ten milliseconds or more before its planned time.
  lemma NeverTooEarly(trace: seq<Event>, i: nat)
    requires Lawful(trace) && i < |trace| && trace[i].Ran?
    ensures trace[i].time - trace[i].at < 10
  {
    assert LawfulEvent(trace[..i], trace[i]);
  }

  /* ---------- the steps of the scheduler ---------- */

  lemma OtherJob(s: JobState, id: nat, trace: seq<Event>, e: Event)
    requires AtNextRun(s, id, trace) && e.id != id
    ensures AtNextRun(s, id, trace + [e])
  {
    hide OnPlan, InTurn;
    RunsGrow(trace, e, id);
  }

  lemma StillFinished(id: nat, p: Plan, trace: seq<Event>, e: Event)
    requires Finished(id, p, trace)
    ensures Finished(id, p, trace + [e])
  {
    RunsGrow(trace, e, id);
  }

  lemma ScheduleTracked(live: map<nat, JobState>, trace: seq<Event>, id: nat, p: Plan, time: int)
    requires Tracked(live, trace, id) && OnPlan(p, 0, time)
    ensures Tracked(live[id := JobState(p, 0, time)], trace + [Scheduled(id, p)], id + 1)
  {
    var e := Scheduled(id, p);
    assert AtNextRun(JobState(p, 0, time), id, trace + [e]) by {
      NoRuns(trace, id);
      RunsGrow(trace, e, id);
    }
    hide AtNextRun, Finished;
    forall i | i in live && i != id {
      OtherJob(live[i], i, trace, e);
    }
    forall i, r | Scheduled(i, r) in trace + [e] && i !in live && i != id
      ensures Finished(i, r, trace + [e])
    {
      assert Scheduled(i, r) in trace;
      StillFinished(i, r, trace, e);
    }
  }

  // Scheduling a job under a new id makes it live and queues its first time.
  lemma ScheduleStep(live: map<nat, JobState>, q: multiset<Entry>, trace: seq<Event>, id: nat, p: Plan, time: int)
    requires Coherent(live, q, trace, id) && OnPlan(p, 0, time)
    ensures Coherent(live[id := JobState(p, 0, time)], q + multiset{Entry(id, time)},
                     trace + [Scheduled(id, p)], id + 1)
  {
    ScheduleTracked(live, trace, id, p, time);
    LawfulGrows(trace, Scheduled(id, p));
    hide Lawful, Tracked;
  }

  lemma CancelTracked(live: map<nat, JobState>, trace: seq<Event>, id: nat, nextId: nat)
    requires Tracked(live, trace, nextId) && id < nextId
    ensures Tracked(live - {id}, trace + [Cancelled(id)], nextId)
  {
    hide AtNextRun, Finished;
    var e := Cancelled(id);
    forall i | i in live && i != id {
      OtherJob(live[i], i, trace, e);
    }
    forall i, r | Scheduled(i, r) in trace + [e]
      ensures i in live - {id} || Finished(i, r, trace + [e])
    {
      assert Scheduled(i, r) in trace;
      if i == id {
        CancelFinishes(trace, id, r);
      } else if i !in live {
        StillFinished(i, r, trace, e);
      }
    }
  }

  lemma CancelFinishes(trace: seq<Event>, id: nat, p: Plan)
    ensures Finished(id, p, trace + [Cancelled(id)])
  {
    hide Over, Runs;
    assert Cancelled(id) in trace + [Cancelled(id)];
  }

  lemma CancelQueued(live: map<nat, JobState>, q: multiset<Entry>, id: nat, nextId: nat)
    requires Queued(live, q, nextId)
    ensures Queued(live - {id}, q, nextId)
    ensures id in live ==> Queued(live - {id}, q - multiset{Entry(id, live[id].time)}, nextId)
  {}

  // Cancelling a job drops it, and its entry with it if that is the head.
  lemma CancelStep(live: map<nat, JobState>, q: multiset<Entry>, trace: seq<Event>, id: nat, nextId: nat)
    requires Coherent(live, q, trace, nextId) && id < nextId
    ensures Coherent(live - {id}, q, trace + [Cancelled(id)], nextId)
    ensures id in live ==>
              Coherent(live - {id}, q - multiset{Entry(id, live[id].time)}, trace + [Cancelled(id)], nextId)
  {
    CancelTracked(live, trace, id, nextId);
    CancelQueued(live, q, id, nextId);
    assert LawfulEvent(trace, Cancelled(id));
    LawfulGrows(trace, Cancelled(id));
    hide Lawful, Tracked, Queued;
  }

  // The live jobs once job id has run: it goes on at its next time, or it is over.
  function AfterRun(live: map<nat, JobState>, id: nat, next: Option<int>): map<nat, JobState>
    requires id in live
  {
    if next.None? then live - {id} else live[id := JobState(live[id].plan, live[id].runs + 1, next.value)]
  }

  // What comes after the run of a job in this state.
  ghost predicate Follows(s: JobState, next: Option<int>) {
    && (next.None? ==> Over(s.plan, s.runs + 1))
    && (next.Some? ==> s.time < next.value && OnPlan(s.plan, s.runs + 1, next.value))
    && (s.plan.Cron? ==> NextMatch(s.plan.trigger, s.time, next))
  }

  lemma RunLawful(live: map<nat, JobState>, trace: seq<Event>, id: nat, at: int, nextId: nat)
    requires Tracked(live, trace, nextId) && Lawful(trace) && id in live
    requires live[id].time - at < ACCURACY
    ensures Lawful(trace + [Ran(id, live[id].time, at)])
  {
    hide OnPlan, InTurn, Runs, LastRun, Over;
    var e := Ran(id, live[id].time, at);
    assert LawfulEvent(trace, e);
    LawfulGrows(trace, e);
  }

  // The job that has run is at its next run or over.
  lemma SameJob(s: JobState, trace: seq<Event>, id: nat, next: Option<int>, at: int)
    requires AtNextRun(s, id, trace) && Lawful(trace) && Follows(s, next)
    ensures var longer := trace + [Ran(id, s.time, at)];
            if next.Some? then AtNextRun(JobState(s.plan, s.runs + 1, next.value), id, longer)
            else forall p :: Scheduled(id, p) in longer ==> Finished(id, p, longer)
  {
    hide Lawful, OnPlan, Over, NextMatch, AtNextRun, Finished, Follows, InTurn, Runs, LastRun;
    if next.Some? {
      GoesOn(s, trace, id, next.value, at);
    } else {
      Ends(s, trace, id, at);
    }
  }

  lemma GoesOn(s: JobState, trace: seq<Event>, id: nat, next: int, at: int)
    requires AtNextRun(s, id, trace) && Follows(s, Some(next))
    ensures AtNextRun(JobState(s.plan, s.runs + 1, next), id, trace + [Ran(id, s.time, at)])
  {
    RunsGrow(trace, Ran(id, s.time, at), id);
    hide OnPlan, Over, NextMatch, Runs, LastRun;
  }

  lemma Ends(s: JobState, trace: seq<Event>, id: nat, at: int)
    requires AtNextRun(s, id, trace) && Lawful(trace) && Follows(s, None)
    ensures var longer := trace + [Ran(id, s.time, at)];
            forall p :: Scheduled(id, p) in longer ==> Finished(id, p, longer)
  {
    PlanIsUnique(trace, id);
    RunsGrow(trace, Ran(id, s.time, at), id);
    hide Lawful, OnPlan, Over, NextMatch, Runs, LastRun, InTurn;
    var longer := trace + [Ran(id, s.time, at)];
    forall p | Scheduled(id, p) in longer
      ensures Finished(id, p, longer)
    {
      assert Scheduled(id, p) in trace;
    }
  }

  lemma RunTracked(live: map<nat, JobState>, trace: seq<Event>, id: nat, next: Option<int>, at: int, nextId: nat)
    requires Tracked(live, trace, nextId) && Lawful(trace) && id in live && Follows(live[id], next)
    requires id < nextId
    ensures Tracked(AfterRun(live, id, next), trace + [Ran(id, live[id].time, at)], nextId)
  {
    hide AtNextRun, Finished, Lawful, Follows;
    var e := Ran(id, live[id].time, at);
    SameJob(live[id], trace, id, next, at);
    forall i | i in live && i != id {
      OtherJob(live[i], i, trace, e);
    }
    forall i, r | Scheduled(i, r) in trace + [e] && i !in live
      ensures Finished(i, r, trace + [e])
    {
      assert Scheduled(i, r) in trace;
      StillFinished(i, r, trace, e);
    }
  }

  lemma ScheduledOnce(trace: seq<Event>, i: nat, j: nat)
    requires Lawful(trace) && i < j < |trace| && trace[j].Scheduled?
    ensures trace[i].id != trace[j].id
  {
    assert trace[..j][i] in trace[..j];
    assert LawfulEvent(trace[..j], trace[j]);
  }

  lemma PlanIsUnique(trace: seq<Event>, id: nat)
    requires Lawful(trace)
    ensures forall p, r :: Scheduled(id, p) in trace && Scheduled(id, r) in trace ==> p == r
  {
    hide Lawful;
    forall p, r | Scheduled(id, p) in trace && Scheduled(id, r) in trace
      ensures p == r
    {
      var i: nat :| i < |trace| && trace[i] == Scheduled(id, p);
      var j: nat :| j < |trace| && trace[j] == Scheduled(id, r);
      if i < j {
        ScheduledOnce(trace, i, j);
      } else if j < i {
        ScheduledOnce(trace, j, i);
      }
    }
  }

  // A simple job with a count runs at most that often.
  lemma {:induction false} RunsWithinCount(trace: seq<Event>, id: nat, p: Plan)
    requires Lawful(trace) && Scheduled(id, p) in trace && p.Simple? && p.count > 0
    ensures Runs(trace, id) <= p.count
  {
    var n := |trace| - 1;
    var before, e := trace[..n], trace[n];
    assert trace == before + [e] && LawfulEvent(before, e);
    LawfulPrefix(before, e);
    if Scheduled(id, p) in before {
      RunsWithinCount(before, id, p);
      PlanIsUnique(before, id);
    } else {
      NoRuns(before, id);
    }
  }

  // Between two runs of a cron job, one after the other, the trigger has no match.
  lemma CronRunsInTurn(trace: seq<Event>, i: nat, j: nat, tr: Trigger)
    requires Lawful(trace) && i < j < |trace| && trace[i].Ran? && trace[j].Ran? && trace[j].id == trace[i].id
    requires Scheduled(trace[i].id, Cron(tr)) in trace
    requires forall k :: i < k < j && trace[k].Ran? ==> trace[k].id != trace[i].id
    ensures NextMatch(tr, trace[i].time, Some(trace[j].time))
    ensures trace[i].time < trace[j].time
    ensures forall u: Civil :: u.Valid() && tr.Matches(u) && trace[i].time < Milliseconds(u) ==>
              trace[j].time <= Milliseconds(u)
  {
    var id := trace[i].id;
    assert LawfulEvent(trace[..j], trace[j]);
    var p :| Scheduled(id, p) in trace[..j] && InTurn(p, Runs(trace[..j], id), LastRun(trace[..j], id), trace[j].time);
    assert Scheduled(id, p) in trace;
    PlanIsUnique(trace, id);
    hide Lawful;
    LastRunIs(trace[..j], i, id);
    assert trace[..j][i] == trace[i];
  }

  lemma {:induction false} LastRunIs(trace: seq<Event>, i: nat, id: nat)
    requires i < |trace| && trace[i].Ran? && trace[i].id == id
    requires forall k :: i < k < |trace| && trace[k].Ran? ==> trace[k].id != id
    ensures LastRun(trace, id) == trace[i].time && Runs(trace, id) > 0
  {
    var n := |trace| - 1;
    if i < n {
      LastRunIs(trace[..n], i, id);
    }
  }

  lemma LawfulPrefix(before: seq<Event>, e: Event)
    requires Lawful(before + [e])
    ensures Lawful(before)
  {
    forall k | 0 <= k < |before|
      ensures LawfulEvent(before[..k], before[k])
    {
      assert (before + [e])[..k] == before[..k];
      assert LawfulEvent((before + [e])[..k], (before + [e])[k]);
    }
  }

  lemma RunQueued(live: map<nat, JobState>, q: multiset<Entry>, id: nat, next: Option<int>, nextId: nat)
    requires Queued(live, q, nextId) && id in live
    ensures var rest := q - multiset{Entry(id, live[id].time)};
            Queued(AfterRun(live, id, next), if next.None? then rest else rest + multiset{Entry(id, next.value)},
                   nextId)
  {}

  // Running the head keeps the scheduler coherent: the job is queued again at its next time, or dropped.
  lemma RunStep(live: map<nat, JobState>, q: multiset<Entry>, trace: seq<Event>, id: nat, next: Option<int>,
                at: int, nextId: nat)
    requires Coherent(live, q, trace, nextId) && id in live
    requires live[id].time - at < ACCURACY && Follows(live[id], next)
    ensures var rest := q - multiset{Entry(id, live[id].time)};
            Coherent(AfterRun(live, id, next), if next.None? then rest else rest + multiset{Entry(id, next.value)},
                     trace + [Ran(id, live[id].time, at)], nextId)
  {
    RunQueued(live, q, id, next, nextId);
    IdBelow(live, q, trace, id, nextId);
    RunTracked(live, trace, id, next, at, nextId);
    RunLawful(live, trace, id, at, nextId);
    hide Queued, Tracked, Lawful, AfterRun;
  }

  lemma IdBelow(live: map<nat, JobState>, q: multiset<Entry>, trace: seq<Event>, id: nat, nextId: nat)
    requires Coherent(live, q, trace, nextId) && id in live
    ensures id < nextId && OnPlan(live[id].plan, live[id].runs, live[id].time)
  {
    assert AtNextRun(live[id], id, trace);
  }

  lemma StaleStep(live: map<nat, JobState>, q: multiset<Entry>, trace: seq<Event>, e: Entry, nextId: nat)
    requires Coherent(live, q, trace, nextId) && e.id !in live
    ensures Coherent(live, q - multiset{e}, trace, nextId)
  {
    hide Tracked, Lawful;
  }

  /* ---------- the head of the queue ---------- */

  lemma EmptyQueue(live: map<nat, JobState>, trace: seq<Event>, nextId: nat)
    requires Coherent(live, multiset{}, trace, nextId)
    ensures live == map[]
  {}

  lemma LiveHead(live: map<nat, JobState>, q: multiset<Entry>, trace: seq<Event>, head: Entry, nextId: nat)
    requires Coherent(live, q, trace, nextId) && head in q && head.id in live
    requires forall e :: e in q ==> head.time <= e.time
    ensures head.time == live[head.id].time
    ensures forall id :: id in live ==> head.time <= live[id].time
  {
    hide Tracked, Lawful;
    forall id | id in live
      ensures head.time <= live[id].time
    {
      assert Entry(id, live[id].time) in q;
    }
    assert Entry(head.id, live[head.id].time) in q;
  }

  /* ---------- how much is due ---------- */

  // The milliseconds by which the live jobs are before the bound, summed.
  function Due(live: map<nat, JobState>, n: nat, bound: int): nat {
    if n == 0 then 0
    else Due(live, n - 1, bound) + (if n - 1 in live && live[n - 1].time < bound then bound - live[n - 1].time else 0)
  }

  lemma {:induction false} DueDrops(live: map<nat, JobState>, later: map<nat, JobState>, id: nat, n: nat, bound: int)
    requires id in live && live[id].time < bound
    requires forall i :: i != id ==> (i in live <==> i in later) && (i in live ==> live[i] == later[i])
    requires id in later ==> live[id].time < later[id].time
    ensures if id < n then Due(later, n, bound) < Due(live, n, bound) else Due(later, n, bound) == Due(live, n, bound)
  {
    if n > 0 {
      DueDrops(live, later, id, n - 1, bound);
    }
  }
}
