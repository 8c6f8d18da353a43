/**
The scheduler: a map of jobs, a queue of their next times, and one timer. After every call map
and queue agree, and the timer is armed for the least next time of all jobs. A ghost trace records
what was scheduled, run and cancelled.
*/
module Schedules {
  import opened Calendar
  import opened CronTriggers
  import opened Options
  import opened PriorityQueues
  import opened ScheduleTraces

  // A clock that never goes back. During one call it is read up to a limit that it does not pass.
  class Clock {
    var now: int

    constructor (t: int)
      ensures now == t
    {
      now := t;
    }

    method Now(limit: int) returns (t: int)
      requires now <= limit
      modifies this
      ensures old(now) <= t == now <= limit
    {
      t :| now <= t <= limit;
      now := t;
    }
  }

  class SimpleTrigger {
    var nextTime: int
    const period: int
    const count: int

    // A start, period or count of 0 counts as not given.
    constructor (start: int, period: int, count: int, now: int)
      ensures nextTime == if start != 0 then start else now
      ensures this.period == if period != 0 then period else -1
      ensures this.count == if count != 0 then count else -1
    {
      nextTime := if start != 0 then start else now;
      this.period := if period != 0 then period else -1;
      this.count := if count != 0 then count else -1;
    }

    method NextExcuteTime(runTime: nat) returns (next: Option<int>)
      modifies this
      ensures next.None? <==> period <= 0 || 0 < count <= runTime
      ensures nextTime == if next.None? then old(nextTime) else old(nextTime) + period
      ensures next.Some? ==> next.value == nextTime
    {
      if (count > 0 && count <= runTime) || period <= 0 {
        return None;
      }
      nextTime := nextTime + period;
      return Some(nextTime);
    }
  }

  datatype Trigger = SimpleJob(simple: SimpleTrigger) | CronJob(cron: CronTrigger)

  class Job {
    const id: nat
    const trigger: Trigger
    ghost const plan: Plan
    var runTime: nat

    // The job and its trigger.
    ghost function Parts(): set<object> {
      match trigger
      case SimpleJob(s) => {this, s}
      case CronJob(c) => {this, c}
    }

    ghost predicate Valid()
      reads Parts()
    {
      match trigger
      case SimpleJob(s) => plan.Simple? && s.period == plan.period && s.count == plan.count
      case CronJob(c) =>
        && plan == Cron(c.trigger) && c.trigger.Valid()
        && c.nextTime.Some? && c.nextTime.value.Valid()
    }

    function ExcuteTime(): int
      requires Valid()
      reads Parts()
    {
      match trigger
      case SimpleJob(s) => s.nextTime
      case CronJob(c) => Milliseconds(c.nextTime.value)
    }

    ghost function State(): JobState
      requires Valid()
      reads Parts()
    {
      JobState(plan, runTime, ExcuteTime())
    }

    constructor (id: nat, trigger: Trigger, ghost plan: Plan)
      requires match trigger
               case SimpleJob(s) => plan == Simple(s.nextTime, s.period, s.count)
               case CronJob(c) =>
                 && plan == Cron(c.trigger) && c.trigger.Valid()
                 && c.nextTime.Some? && c.nextTime.value.Valid()
      ensures this.id == id && this.trigger == trigger && this.plan == plan
      ensures runTime == 0 && Valid()
    {
      this.id := id;
      this.trigger := trigger;
      this.plan := plan;
      runTime := 0;
    }

    // The function of the job is called here.
    method Run()
      requires Valid()
      modifies this
      ensures Valid() && State() == old(State()).(runs := old(State()).runs + 1)
    {
      runTime := runTime + 1;
    }

    // s is the state before the run.
    method NextTime(ghost s: JobState) returns (next: Option<int>)
      requires Valid() && State() == s.(runs := s.runs + 1) && OnPlan(s.plan, s.runs, s.time)
      modifies match trigger case SimpleJob(s) => {s as object} case CronJob(c) => {c}
      ensures Valid() && Follows(s, next)
      ensures State() == if next.None? then old(State()) else old(State()).(time := next.value)
    {
      match trigger {
        case SimpleJob(s) =>
          ghost var i, period := runTime - 1, s.period;
          next := s.NextExcuteTime(runTime);
          assert (i + 1) * period == i * period + period;
        case CronJob(c) =>
          ghost var before := c.nextTime.value;
          var t := c.NextExcuteTime(None);
          if t.None? {
            next := None;
          } else {
            next := Some(Milliseconds(t.value));
          }
          assert Fires(c.trigger, before, t) && Milliseconds(before) == s.time;
      }
    }
  }

  ghost predicate Extends(before: seq<Event>, after: seq<Event>) {
    before <= after
  }

  lemma ExtendsTransitive(a: seq<Event>, b: seq<Event>, c: seq<Event>)
    requires Extends(a, b) && Extends(b, c)
    ensures Extends(a, c) && |a| <= |c|
  {}

  lemma ExtendsSelf(a: seq<Event>)
    ensures Extends(a, a) && a[|a|..] == []
  {}

  // The runs of one call, in order.
  ghost predicate Ordered(ran: seq<Event>) {
    && (forall e :: e in ran ==> e.Ran?)
    && (forall i, j :: 0 <= i < j < |ran| ==> ran[i].time <= ran[j].time)
  }

  lemma NoneOrdered()
    ensures Ordered([])
  {}

  // Every run was made at a reading of the clock between these two, and not too early for its planned time.
  ghost predicate OnTime(ran: seq<Event>, from: int, to: int) {
    forall e :: e in ran && e.Ran? ==> from <= e.at <= to && e.time - e.at < 10
  }

  lemma NoneOnTime(from: int, to: int)
    ensures OnTime([], from, to)
  {}

  lemma OnTimeLater(ran: seq<Event>, from: int, to: int, later: int)
    requires OnTime(ran, from, to) && to <= later
    ensures OnTime(ran, from, later)
  {}

  lemma OnTimeGrows(ran: seq<Event>, id: nat, time: int, from: int, at: int, to: int)
    requires OnTime(ran, from, at) && from <= at <= to && time - at < ACCURACY
    ensures OnTime(ran + [Ran(id, time, at)], from, to)
  {}

  datatype Request = Object(start: int, period: int, count: int) | Text(trigger: CronTriggers.Trigger) {

    // A cron trigger fires at least once after the clock is read, at some millisecond of this second.
    ghost predicate CanFire(second: Civil, limit: int) {
      match this
      case Object(_, _, _) => true
      case Text(tr) =>
        && tr.Valid() && second.Valid() && Milliseconds(second) <= limit
        && exists t: Civil :: t.Valid() && t.year <= 2999 && tr.Matches(t) && limit < Milliseconds(t)
    }

    // The plan asked for, and its first time: without a start it is the time of the request.
    ghost predicate Asks(p: Plan, first: int, second: Civil, from: int, to: int) {
      match this
      case Object(start, period, count) =>
        && p == Simple(first, if period != 0 then period else -1, if count != 0 then count else -1)
        && (if start != 0 then first == start else from <= first <= to)
      case Text(tr) =>
        && p == Cron(tr)
        && exists t: Civil :: Fires(tr, second, Some(t)) && first == Milliseconds(t)
    }
  }

  class Scheduler {
    var jobs: map<nat, Job>
    const queue: PriorityQueue
    var timer: Option<int>
    var nextId: nat
    ghost var trace: seq<Event>

    // The jobs and their triggers.
    ghost var parts: set<object>

    // Every job is under its own id and shares no part with another.
    ghost predicate Apart()
      reads this
    {
      && this !in parts && queue !in parts
      && (forall id :: id in jobs ==> jobs[id].id == id && jobs[id].Parts() <= parts)
      && (forall i, j :: i in jobs && j in jobs && i != j ==> jobs[i].Parts() !! jobs[j].Parts())
    }

    ghost predicate JobsValid()
      reads this, parts
    {
      Apart() && forall id :: id in jobs ==> jobs[id].Valid()
    }

    ghost function Live(): map<nat, JobState>
      requires JobsValid()
      reads this, parts
    {
      map id | id in jobs :: jobs[id].State()
    }

    ghost predicate Sound()
      reads this, queue, parts
    {
      JobsValid() && queue.Valid() && Coherent(Live(), queue.Contents(), trace, nextId)
    }

    // The timer is set for the head of the queue, and the head is a live job.
    ghost predicate Armed()
      requires queue.Valid()
      reads this, queue
    {
      match queue.Peek()
      case None => timer == None
      case Some(head) => timer == Some(head.time) && head.id in jobs
    }

    ghost predicate Valid()
      reads this, queue, parts
    {
      Sound() && Armed()
    }

    constructor ()
      ensures Valid() && jobs == map[] && trace == [] && timer == None && fresh(queue)
    {
      jobs := map[];
      queue := new PriorityQueue();
      timer := None;
      nextId := 1;
      trace := [];
      parts := {};
    }

    // The timer is due at the earliest time of a live job, and is off only without live jobs.
    lemma TimerIsMinimum()
      requires Valid()
      ensures timer == None ==> jobs == map[]
      ensures timer.Some? ==> exists id :: id in jobs && jobs[id].ExcuteTime() == timer.value
      ensures timer.Some? ==> forall id :: id in jobs ==> timer.value <= jobs[id].ExcuteTime()
    {
      hide Coherent, PriorityQueue.Valid, PriorityQueue.Contents, PriorityQueue.Peek;
      if timer == None {
        EmptyQueue(Live(), trace, nextId);
      } else {
        var head := queue.Peek().value;
        LiveHead(Live(), queue.Contents(), trace, head, nextId);
        assert Live()[head.id].time == jobs[head.id].ExcuteTime();
        assert forall id :: id in jobs ==> Live()[id].time == jobs[id].ExcuteTime();
      }
    }

    // The job whose entry is at the head of the queue.
    ghost predicate Head(job: Job)
      requires queue.Valid() && JobsValid()
      reads this, queue, parts
    {
      && job.id in jobs && jobs[job.id] == job && job.id in Live()
      && queue.Peek() == Some(Entry(job.id, Live()[job.id].time))
    }

    method PeekNextJob() returns (job: Option<Job>)
      requires Sound()
      modifies queue
      ensures Sound() && Live() == old(Live())
      ensures if job.Some? then Head(job.value) else queue.Peek() == None
    {
      hide Coherent, Queued, PriorityQueue.Valid, PriorityQueue.Contents, PriorityQueue.Peek, Job.State;
      if queue.Size() <= 0 {
        return None;
      }
      job := None;
      while job == None && queue.Size() > 0
        invariant Sound() && Live() == old(Live())
        invariant job.Some? ==> Head(job.value)
        decreases |queue.Contents()|, job == None
      {
        var head := queue.Peek();
        if head.value.id in jobs {
          LiveHead(Live(), queue.Contents(), trace, head.value, nextId);
          job := Some(jobs[head.value.id]);
        } else {
          StaleStep(Live(), queue.Contents(), trace, head.value, nextId);
          var _ := queue.Pop();
        }
      }
    }

    // Only the parts of one job and the queue have changed.
    twostate lemma OneJob(id: nat)
      requires old(JobsValid()) && id in old(jobs) && jobs == old(jobs) && parts == old(parts)
      requires jobs[id].Valid()
      requires forall o :: o in parts && o !in jobs[id].Parts() ==> unchanged(o)
      ensures JobsValid() && Live() == old(Live())[id := jobs[id].State()]
    {
      hide Job.ExcuteTime;
      forall i | i in jobs && i != id
        ensures jobs[i].Valid() && jobs[i].State() == old(jobs[i].State())
      {
        assert forall o :: o in jobs[i].Parts() ==> unchanged(o);
      }
    }

    static lemma Advanced(live: map<nat, JobState>, s: JobState, id: nat, next: Option<int>)
      requires id in live && s.plan == live[id].plan && s.runs == live[id].runs + 1
      requires next.Some? ==> s.time == next.value
      ensures next.Some? ==> live[id := s] == AfterRun(live, id, next)
      ensures live[id := s] - {id} == live - {id}
    {}

    // No part has changed, and job id may have gone.
    twostate lemma Dropped(gone: set<nat>)
      requires old(JobsValid()) && jobs == old(jobs) - gone && parts == old(parts)
      requires forall o :: o in parts ==> unchanged(o)
      ensures JobsValid() && Live() == old(Live()) - gone
    {
      hide Job.ExcuteTime;
      assert Apart();
      forall i | i in jobs
        ensures jobs[i].Valid() && jobs[i].State() == old(jobs[i].State())
      {
        assert forall o :: o in jobs[i].Parts() ==> unchanged(o);
      }
    }

    lemma Parted()
      requires JobsValid()
      ensures this !in parts && queue !in parts && Live().Keys == jobs.Keys
      ensures forall id :: id in jobs ==>
                jobs[id].Parts() <= parts && jobs[id].Valid() && Live()[id] == jobs[id].State()
    {}

    // Runs the job at the head, takes its entry from the queue and moves its trigger on.
    method Advance(job: Job) returns (next: Option<int>)
      requires Sound() && Head(job)
      modifies queue, job.Parts()
      ensures JobsValid() && queue.Valid() && job.id in old(Live()) && this !in parts && queue !in parts
      ensures Follows(old(Live())[job.id], next)
      ensures queue.Contents() == old(queue.Contents()) - multiset{Entry(job.id, old(Live())[job.id].time)}
      ensures next.Some? ==> Live() == AfterRun(old(Live()), job.id, next)
      ensures Live() - {job.id} == old(Live()) - {job.id}
    {
      hide Coherent, OnPlan, Over, PriorityQueue.Valid, PriorityQueue.Contents, PriorityQueue.Peek, Job.ExcuteTime,
           Job.State, Job.Valid, AfterRun, Runs, Follows, JobsValid, Live;
      ghost var live, q, id := Live(), queue.Contents(), job.id;
      Parted();
      IdBelow(live, q, trace, id, nextId);
      job.Run();
      var _ := queue.Pop();
      next := job.NextTime(live[id]);
      OneJob(id);
      Advanced(live, job.State(), id, next);
    }

    // Runs the job at the head and queues it for its next time, or drops it.
    method RunHead(job: Job, clock: Clock) returns (ghost next: Option<int>)
      requires Sound() && Head(job) && Live()[job.id].time - clock.now < ACCURACY && clock !in parts
      modifies this`jobs, this`trace, queue, job.Parts()
      ensures Sound()
      ensures jobs == if next.None? then old(jobs) - {job.id} else old(jobs)
      ensures job.id in old(Live()) && Live() == AfterRun(old(Live()), job.id, next)
      ensures next.Some? ==> old(Live())[job.id].time < next.value
      ensures trace == old(trace) + [Ran(job.id, old(Live())[job.id].time, clock.now)]
    {
      hide Coherent, OnPlan, Over, PriorityQueue.Valid, PriorityQueue.Contents, PriorityQueue.Peek, Job.State,
           Job.Valid, Runs, JobsValid, Live;
      ghost var live, q, id, at := Live(), queue.Contents(), job.id, clock.now;
      Parted();
      var nextTime := Advance(job);
      next := nextTime;
      RunStep(live, q, trace, id, next, at, nextId);
      label L:
      trace := trace + [Ran(id, live[id].time, at)];
      if nextTime == None {
        jobs := jobs - {job.id};
        Dropped@L({id});
        assert Live() == AfterRun(live, id, next);
      } else {
        queue.Offer(Entry(job.id, nextTime.value));
        Dropped@L({});
        assert Live() == AfterRun(live, id, next);
      }
    }

    // Nothing has changed but perhaps the timer.
    twostate lemma Untouched()
      requires old(Sound()) && unchanged(this`jobs, this`trace, this`nextId, this`parts, queue)
      requires forall o :: o in parts ==> unchanged(o)
      ensures Sound() && Live() == old(Live())
    {
      hide Coherent, Heap;
      Dropped({});
      assert old(Live()) - {} == old(Live());
    }

    // Clears the timer and sets it for the time of the job.
    method SetTimer(job: Job, clock: Clock, limit: int)
      requires Sound() && Head(job) && clock.now <= limit && clock !in parts
      modifies this`timer, clock
      ensures Valid() && Live() == old(Live())
      ensures old(clock.now) <= clock.now <= limit
    {
      hide Coherent, PriorityQueue.Valid, PriorityQueue.Contents, PriorityQueue.Peek, Job.ExcuteTime, JobsValid;
      Parted();
      timer := None;
      var now := clock.Now(limit);
      Untouched();
      Parted();
      timer := Some(now + (job.ExcuteTime() - now));
      Untouched();
    }

    // Reads the clock: whether the job may run now.
    method IsDue(job: Option<Job>, clock: Clock, limit: int) returns (due: bool)
      requires Sound() && (job.Some? ==> Head(job.value)) && clock.now <= limit && clock !in parts
      modifies clock
      ensures Sound() && Live() == old(Live()) && old(clock.now) <= clock.now <= limit
      ensures job.Some? ==> Head(job.value)
      ensures due <==> job.Some? && Live()[job.value.id].time - clock.now < ACCURACY
    {
      hide Coherent, PriorityQueue.Valid, PriorityQueue.Contents, PriorityQueue.Peek, Job.ExcuteTime, JobsValid;
      Parted();
      if job.None? {
        return false;
      }
      var t := clock.Now(limit);
      Untouched();
      Parted();
      return job.value.ExcuteTime() - t < ACCURACY;
    }

    // One round of the loop below: runs the job that is due and looks at the next one.
    method Round(due: Job, clock: Clock, limit: int, ghost start: int, ghost n: nat)
      returns (job: Option<Job>, again: bool)
      requires Sound() && Head(due) && start <= clock.now <= limit && clock !in parts
      requires Live()[due.id].time - clock.now < ACCURACY
      requires n <= |trace| && Behind(trace[n..], Live()) && OnTime(trace[n..], start, clock.now)
      modifies this`jobs, this`trace, queue, parts, clock
      ensures Sound() && old(clock.now) <= clock.now <= limit
      ensures if job.Some? then Head(job.value) else queue.Peek() == None
      ensures again <==> job.Some? && Live()[job.value.id].time - clock.now < ACCURACY
      ensures Extends(old(trace), trace) && Behind(trace[n..], Live()) && OnTime(trace[n..], start, clock.now)
      ensures jobs.Keys <= old(jobs.Keys)
      ensures Due(Live(), nextId, limit + ACCURACY) < old(Due(Live(), nextId, limit + ACCURACY))
    {
      hide Coherent, Behind, OnTime, AfterRun, Due, PriorityQueue.Valid, PriorityQueue.Contents, PriorityQueue.Peek,
           Job.State, Job.Valid, Job.ExcuteTime, JobsValid, Live;
      ghost var live, ran, at := Live(), trace[n..], clock.now;
      HeadIsLeast(due);
      Parted();
      ghost var next := RunHead(due, clock);
      BehindGrows(live, ran, due.id, next, at);
      DueLess(live, due.id, next, nextId, limit + ACCURACY);
      assert trace[n..] == ran + [Ran(due.id, live[due.id].time, at)];
      job := PeekNextJob();
      again := IsDue(job, clock, limit);
      OnTimeGrows(ran, due.id, live[due.id].time, start, at, clock.now);
    }

    // The loop of the method below: runs every job that is due, and returns the next one.
    method RunDue(clock: Clock, limit: int) returns (job: Option<Job>)
      requires Sound() && timer == None && clock.now <= limit && clock !in parts
      modifies this`jobs, this`trace, queue, parts, clock
      ensures Sound() && jobs.Keys <= old(jobs.Keys)
      ensures if job.Some? then Head(job.value) else queue.Peek() == None
      ensures job.Some? ==> Live()[job.value.id].time - clock.now >= ACCURACY
      ensures Extends(old(trace), trace) && |old(trace)| <= |trace| && Behind(trace[|old(trace)|..], Live())
      ensures old(clock.now) <= clock.now <= limit && OnTime(trace[|old(trace)|..], old(clock.now), clock.now)
    {
      hide Coherent, Ordered, OnTime, Behind, Due, Extends, PriorityQueue.Valid, PriorityQueue.Contents,
           PriorityQueue.Peek, JobsValid, Live;
      ghost var start, n := clock.now, |trace|;
      Parted();
      job := PeekNextJob();
      BehindNone(Live());
      ExtendsSelf(trace);
      var due := IsDue(job, clock, limit);
      NoneOnTime(start, clock.now);
      while due
        invariant Sound() && jobs.Keys <= old(jobs.Keys)
        invariant start <= clock.now <= limit
        invariant if job.Some? then Head(job.value) else queue.Peek() == None
        invariant due <==> job.Some? && Live()[job.value.id].time - clock.now < ACCURACY
        invariant n <= |trace| && Extends(old(trace), trace) && Behind(trace[n..], Live())
        invariant OnTime(trace[n..], start, clock.now)
        decreases Due(Live(), nextId, limit + ACCURACY)
      {
        ghost var before := trace;
        job, due := Round(job.value, clock, limit, start, n);
        ExtendsTransitive(old(trace), before, trace);
      }
    }

    // Runs every job that is due, in the order of their times, and sets the timer for the next one.
    method ExcuteJob(clock: Clock, limit: int)
      requires Sound() && timer == None && clock.now <= limit && clock !in parts
      modifies this`jobs, this`trace, this`timer, queue, parts, clock
      ensures Valid() && jobs.Keys <= old(jobs.Keys)
      ensures Extends(old(trace), trace) && Ordered(trace[|old(trace)|..])
      ensures OnTime(trace[|old(trace)|..], old(clock.now), clock.now)
      ensures forall id :: id in Live() ==> Live()[id].time - old(clock.now) >= 10
      ensures old(clock.now) <= clock.now <= limit
    {
      hide Coherent, Ordered, OnTime, Behind, PriorityQueue.Valid, PriorityQueue.Contents, PriorityQueue.Peek,
           JobsValid, Live;
      Parted();
      ghost var n := |trace|;
      var job := RunDue(clock, limit);
      BehindOrdered(trace[n..], Live());
      if job.None? {
        NoneLeft();
        return;
      }
      HeadIsLeast(job.value);
      ghost var read := clock.now;
      SetTimer(job.value, clock, limit);
      OnTimeLater(trace[n..], old(clock.now), read, clock.now);
    }

    // The timer has run out.
    method Fire(clock: Clock, limit: int)
      requires Valid() && timer.Some? && clock.now <= limit && clock !in parts
      modifies this`jobs, this`trace, this`timer, queue, parts, clock
      ensures Valid() && jobs.Keys <= old(jobs.Keys)
      ensures Extends(old(trace), trace) && Ordered(trace[|old(trace)|..])
      ensures OnTime(trace[|old(trace)|..], old(clock.now), clock.now)
      ensures forall id :: id in Live() ==> Live()[id].time - old(clock.now) >= 10
      ensures old(clock.now) <= clock.now <= limit
    {
      hide Coherent, Ordered, OnTime, PriorityQueue.Valid, PriorityQueue.Contents, PriorityQueue.Peek, JobsValid;
      Parted();
      timer := None;
      Untouched();
      ExcuteJob(clock, limit);
    }

    // Only a new job has been added.
    twostate lemma Added(new job: Job)
      requires old(JobsValid()) && job.id !in old(jobs) && jobs == old(jobs)[job.id := job]
      requires job.Valid() && job.Parts() !! old(parts) + {this, queue} && parts == old(parts) + job.Parts()
      requires forall o :: o in old(parts) ==> unchanged(o)
      ensures JobsValid() && Live() == old(Live())[job.id := job.State()]
    {
      hide Job.ExcuteTime, Job.Valid, Job.State;
      AddedApart(job);
      forall i | i in old(jobs)
        ensures jobs[i] == old(jobs[i]) && jobs[i].Valid() && jobs[i].State() == old(jobs[i].State())
      {
        assert forall o :: o in old(jobs[i]).Parts() ==> unchanged(o);
      }
    }

    twostate lemma AddedApart(new job: Job)
      requires old(Apart()) && job.id !in old(jobs) && jobs == old(jobs)[job.id := job]
      requires job.Parts() !! old(parts) + {this, queue} && parts == old(parts) + job.Parts()
      ensures Apart()
    {
      hide Job.Parts;
    }

    // Puts a new job in the map and its first time in the queue.
    method Enter(job: Job, ghost s: JobState)
      requires Sound() && job.Valid() && job.id == nextId && job.Parts() !! parts + {this, queue}
      requires s == job.State() && s == JobState(job.plan, 0, job.ExcuteTime()) && OnPlan(s.plan, 0, s.time)
      modifies this`jobs, this`trace, this`parts, this`nextId, queue
      ensures Sound() && parts == old(parts) + job.Parts()
      ensures job.id !in old(jobs) && jobs == old(jobs)[job.id := job]
      ensures Live() == old(Live())[job.id := s]
      ensures trace == old(trace) + [Scheduled(job.id, s.plan)]
      ensures queue.Contents() == old(queue.Contents()) + multiset{Entry(job.id, s.time)}
      ensures old(queue.Peek()).Some? && !Compare(old(queue.Peek()).value, Entry(job.id, s.time)) ==>
                queue.Peek() == old(queue.Peek())
    {
      hide Coherent, PriorityQueue.Valid, PriorityQueue.Contents, PriorityQueue.Peek, Job.ExcuteTime, Job.Valid,
           JobsValid, Live, OnPlan;
      ghost var live, q := Live(), queue.Contents();
      NewId(job.id);
      Parted();
      ScheduleStep(live, q, trace, job.id, s.plan, s.time);
      trace := trace + [Scheduled(job.id, job.plan)];
      parts := parts + job.Parts();
      nextId := nextId + 1;
      jobs := jobs[job.id := job];
      queue.Offer(Entry(job.id, job.ExcuteTime()));
      Added(job);
    }

    lemma NewId(id: nat)
      requires Sound() && id == nextId
      ensures id !in jobs
    {
      hide Coherent;
      if id in Live() {
        IdBelow(Live(), queue.Contents(), trace, id, nextId);
      }
    }

    method NewJob(request: Request, second: Civil, clock: Clock, limit: int) returns (job: Job)
      requires request.CanFire(second, limit) && clock.now <= limit
      modifies clock
      ensures job.id == nextId && fresh(job.Parts()) && job.Valid()
      ensures job.State() == JobState(job.plan, 0, job.ExcuteTime()) && OnPlan(job.plan, 0, job.ExcuteTime())
      ensures old(clock.now) <= clock.now <= limit
      ensures request.Asks(job.plan, job.ExcuteTime(), second, old(clock.now), limit)
    {
      match request {
        case Object(start, period, count) =>
          var now := clock.Now(limit);
          var s := new SimpleTrigger(start, period, count, now);
          job := new Job(nextId, SimpleJob(s), Simple(s.nextTime, s.period, s.count));
        case Text(tr) =>
          var c := new CronTrigger(tr, second);
          job := new Job(nextId, CronJob(c), Cron(tr));
      }
    }

    method ScheduleJob(request: Request, second: Civil, clock: Clock, limit: int) returns (id: nat)
      requires Valid() && request.CanFire(second, limit) && clock.now <= limit && clock !in parts
      modifies this, queue, clock
      ensures Valid() && clock !in parts
      ensures id == old(nextId) && id !in old(jobs) && jobs.Keys == old(jobs.Keys) + {id}
      ensures Live() == old(Live())[id := Live()[id]]
      ensures request.Asks(Live()[id].plan, Live()[id].time, second, old(clock.now), limit)
      ensures Live()[id].runs == 0 && trace == old(trace) + [Scheduled(id, Live()[id].plan)]
      ensures old(clock.now) <= clock.now <= limit
    {
      hide Coherent, PriorityQueue.Valid, PriorityQueue.Contents, PriorityQueue.Peek, Job.ExcuteTime, Job.Valid,
           JobsValid, OnPlan, Live, Job.Parts, Request.Asks, Request.CanFire;
      Parted();
      var job := NewJob(request, second, clock, limit);
      Untouched();
      var excuteTime := job.ExcuteTime();
      id := job.id;
      var curJob := queue.Peek();
      ghost var q := queue.Contents();
      Enter(job, job.State());
      if curJob.None? || excuteTime < curJob.value.time {
        SetTimer(job, clock, limit);
      }
    }

    lemma CancelHead(id: nat)
      requires Valid() && queue.Peek().Some? && queue.Peek().value.id == id
      ensures id in Live() && id < nextId && queue.Peek().value == Entry(id, Live()[id].time)
      ensures Coherent(Live() - {id}, queue.Contents() - multiset{Entry(id, Live()[id].time)},
                       trace + [Cancelled(id)], nextId)
    {
      hide Coherent;
      LiveHead(Live(), queue.Contents(), trace, queue.Peek().value, nextId);
      IdBelow(Live(), queue.Contents(), trace, id, nextId);
      CancelStep(Live(), queue.Contents(), trace, id, nextId);
    }

    lemma CancelOther(id: nat)
      requires Sound()
      ensures id < nextId ==> Coherent(Live() - {id}, queue.Contents(), trace + [Cancelled(id)], nextId)
      ensures id >= nextId ==> id !in jobs
    {
      hide Coherent;
      if id < nextId {
        CancelStep(Live(), queue.Contents(), trace, id, nextId);
      } else if id in Live() {
        IdBelow(Live(), queue.Contents(), trace, id, nextId);
      }
    }

    // Takes job id from the map; it is not at the head of the queue.
    method Delete(id: nat)
      requires Valid() && (queue.Peek().Some? ==> queue.Peek().value.id != id)
      modifies this`jobs, this`trace
      ensures Valid() && jobs == old(jobs) - {id} && Live() == old(Live()) - {id}
      ensures trace == old(trace) + if id < nextId then [Cancelled(id)] else []
    {
      hide Coherent, PriorityQueue.Valid, PriorityQueue.Contents, PriorityQueue.Peek, JobsValid, Live;
      Parted();
      CancelOther(id);
      ghost var live := Live();
      jobs := jobs - {id};
      if id < nextId {
        trace := trace + [Cancelled(id)];
        Dropped({id});
      } else {
        Dropped({id});
        Gone(live, id);
      }
    }

    static lemma Gone(live: map<nat, JobState>, id: nat)
      requires id !in live
      ensures live - {id} == live
    {}

    // Takes the job at the head from the queue and the map and clears the timer.
    method DropHead(id: nat)
      requires Valid() && queue.Peek().Some? && queue.Peek().value.id == id
      modifies this`jobs, this`trace, this`timer, queue
      ensures Sound() && timer == None && jobs == old(jobs) - {id}
      ensures trace == old(trace) + [Cancelled(id)] && id < nextId
    {
      hide Coherent, PriorityQueue.Valid, PriorityQueue.Contents, PriorityQueue.Peek, JobsValid, Live;
      Parted();
      CancelHead(id);
      var _ := queue.Pop();
      jobs := jobs - {id};
      trace := trace + [Cancelled(id)];
      timer := None;
      Dropped({id});
    }

    ghost predicate AtHead(id: nat)
      requires queue.Valid()
      reads this, queue
    {
      queue.Peek().Some? && queue.Peek().value.id == id
    }

    method CancelAtHead(id: nat, clock: Clock, limit: int) returns (ghost ran: seq<Event>)
      requires Valid() && AtHead(id) && clock.now <= limit && clock !in parts
      modifies this`jobs, this`trace, this`timer, queue, parts, clock
      ensures Valid() && id !in jobs && jobs.Keys <= old(jobs.Keys) && id < nextId
      ensures Ordered(ran) && trace == old(trace) + [Cancelled(id)] + ran
      ensures old(clock.now) <= clock.now <= limit && OnTime(ran, old(clock.now), clock.now)
      ensures forall i :: i in Live() ==> Live()[i].time - old(clock.now) >= 10
    {
      hide Coherent, Ordered, OnTime, PriorityQueue.Valid, PriorityQueue.Contents, PriorityQueue.Peek, JobsValid, Live;
      Parted();
      DropHead(id);
      ghost var n := |trace|;
      ExcuteJob(clock, limit);
      ran := trace[n..];
    }

    lemma NotAtHead(id: nat)
      requires Valid() && id !in jobs
      ensures queue.Valid() && !AtHead(id)
    {}

    // Cancelling the head runs at once what is due, in the order of the times; nothing live is due then.
    method CancelJob(id: nat, clock: Clock, limit: int) returns (done: bool, ghost ran: seq<Event>)
      requires Valid() && clock.now <= limit && clock !in parts
      modifies this`jobs, this`trace, this`timer, queue, parts, clock
      ensures done && Valid() && id !in jobs && jobs.Keys <= old(jobs.Keys) - {id}
      ensures Ordered(ran) && trace == (if old(AtHead(id)) then old(trace) + [Cancelled(id)] + ran else old(trace))
                                       + if id < nextId then [Cancelled(id)] else []
      ensures old(clock.now) <= clock.now <= limit && OnTime(ran, old(clock.now), clock.now)
      ensures old(AtHead(id)) ==> forall i :: i in Live() ==> Live()[i].time - old(clock.now) >= 10
    {
      hide Sound, Armed, Ordered, OnTime, PriorityQueue.Valid, PriorityQueue.Contents, PriorityQueue.Peek;
      QueueValid();
      ran := [];
      NoneOrdered();
      NoneOnTime(clock.now, clock.now);
      var curJob := queue.Peek();
      if curJob.Some? && id == curJob.value.id {
        ran := CancelAtHead(id, clock, limit);
        NotAtHead(id);
      }
      Delete(id);
      return true, ran;
    }

    lemma QueueValid()
      requires Valid()
      ensures queue.Valid()
    {}

    lemma HeadIsLeast(job: Job)
      requires Sound() && Head(job)
      ensures job.id in Live() && job.id < nextId
      ensures forall id :: id in Live() ==> Live()[job.id].time <= Live()[id].time
    {
      hide Coherent;
      LiveHead(Live(), queue.Contents(), trace, queue.Peek().value, nextId);
      IdBelow(Live(), queue.Contents(), trace, job.id, nextId);
    }

    lemma NoneLeft()
      requires Sound() && queue.Peek() == None
      ensures jobs == map[] && Live() == map[]
    {
      hide Coherent;
      EmptyQueue(Live(), trace, nextId);
    }
  }

  // The runs so far are in order, and none is after a live job.
  ghost predicate Behind(ran: seq<Event>, live: map<nat, JobState>) {
    Ordered(ran) && forall e, id :: e in ran && id in live ==> e.time <= live[id].time
  }

  lemma BehindNone(live: map<nat, JobState>)
    ensures Behind([], live)
  {}

  lemma BehindOrdered(ran: seq<Event>, live: map<nat, JobState>)
    requires Behind(ran, live)
    ensures Ordered(ran)
  {}

  lemma BehindGrows(live: map<nat, JobState>, ran: seq<Event>, id: nat, next: Option<int>, at: int)
    requires Behind(ran, live) && id in live
    requires forall i :: i in live ==> live[id].time <= live[i].time
    requires next.Some? ==> live[id].time < next.value
    ensures Behind(ran + [Ran(id, live[id].time, at)], AfterRun(live, id, next))
  {}

  lemma DueLess(live: map<nat, JobState>, id: nat, next: Option<int>, n: nat, bound: int)
    requires id in live && id < n && live[id].time < bound
    requires next.Some? ==> live[id].time < next.value
    ensures Due(AfterRun(live, id, next), n, bound) < Due(live, n, bound)
  {
    DueDrops(live, AfterRun(live, id, next), id, n, bound);
  }
}
