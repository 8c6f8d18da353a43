/**
Behaviour trees as values: what a tick does, and that ticking comes to running to the end.
*/
module BehaviorTrees {
  // A tick runs a tree up to the first child that has to wait; the next tick goes on there.

  datatype Result = Success | Fail | Wait

  // What an action does when it is started: it waits so many ticks and then answers.
  datatype Run = Run(waits: nat, answer: Result)

  datatype Policy = FailOnOne | FailOnAll

  // A leaf goes through its runs, and answers Fail at once when they are used up; a condition is a leaf that
  // never waits. waits holds the positions of the children that a Parallel is waiting for. The condition of a
  // loop is asked after every success of the child, and is false when its answers are used up.
  datatype Tree =
    | Leaf(runs: seq<Run>, pos: nat, elapsed: nat)
    | Sequence(children: seq<Tree>, index: nat)
    | Select(children: seq<Tree>, index: nat)
    | Parallel(policy: Policy, children: seq<Tree>, waits: seq<nat>, succ: nat, fail: nat)
    | Loop(child: Tree, conds: seq<bool>, pos: nat)
    | If(action: Tree)

  function RunAt(runs: seq<Run>, pos: nat): (r: Run)
    ensures r.answer != Wait
  {
    if pos < |runs| && runs[pos].answer != Wait then runs[pos] else Run(0, Fail)
  }

  predicate CondAt(conds: seq<bool>, pos: nat) {
    pos < |conds| && conds[pos]
  }

  function CheckPolicy(policy: Policy, succ: nat, fail: nat): (r: Result)
    ensures r != Wait
  {
    match policy
    case FailOnOne => if fail > 0 then Fail else Success
    case FailOnAll => if succ > 0 then Success else Fail
  }

  /* ---------- sizes ---------- */

  function Size(t: Tree): nat {
    match t
    case Leaf(_, _, _) => 1
    case Sequence(cs, _) => 2 + Sizes(cs)
    case Select(cs, _) => 2 + Sizes(cs)
    case Parallel(_, cs, _, _, _) => 2 + Sizes(cs)
    case Loop(c, _, _) => 1 + Size(c)
    case If(a) => 1 + Size(a)
  }

  function Sizes(ts: seq<Tree>): nat {
    if ts == [] then 0 else Size(ts[0]) + Sizes(ts[1..])
  }

  lemma {:induction false} SizeOfOne(ts: seq<Tree>, i: nat)
    requires i < |ts|
    ensures Size(ts[i]) <= Sizes(ts)
  {
    if i > 0 {
      SizeOfOne(ts[1..], i - 1);
    }
  }

  predicate EqualSizes(ts: seq<Tree>, us: seq<Tree>) {
    |ts| == |us| && forall i :: 0 <= i < |ts| ==> Size(ts[i]) == Size(us[i])
  }

  lemma {:induction false} SameSizes(ts: seq<Tree>, us: seq<Tree>)
    requires EqualSizes(ts, us)
    ensures Sizes(ts) == Sizes(us)
  {
    if ts != [] {
      SameSizes(ts[1..], us[1..]);
    }
  }

  /* ---------- one tick ---------- */

  function Tick(t: Tree): (Result, Tree)
    decreases t
  {
    match t
    case Leaf(runs, pos, elapsed) =>
      var run := RunAt(runs, pos);
      if elapsed < run.waits then (Wait, Leaf(runs, pos, elapsed + 1)) else (run.answer, Leaf(runs, pos + 1, 0))
    case Sequence(cs, index) =>
      if cs == [] then (Success, t)
      else
        var (r, i, ds) := TickFrom(cs, if index >= |cs| then 0 else index, Success);
        (r, Sequence(ds, if r == Wait then i else 0))
    case Select(cs, index) =>
      if cs == [] then (Success, t)
      else
        var (r, i, ds) := TickFrom(cs, if index >= |cs| then 0 else index, Fail);
        (r, Select(ds, if r == Wait then i else 0))
    case Parallel(policy, cs, waits, succ, fail) =>
      if cs == [] then (Success, t)
      else
        var origin := Origin(cs, waits);
        var ds := TickAll(cs, origin);
        var rest := StillWaiting(cs, origin);
        var succs := succ + Answers(cs, origin, Success);
        var fails := fail + Answers(cs, origin, Fail);
        if rest != [] then (Wait, Parallel(policy, ds, rest, succs, fails))
        else (CheckPolicy(policy, succs, fails), Parallel(policy, ds, [], 0, 0))
    case Loop(c, conds, pos) =>
      var (r, d) := Tick(c);
      if r != Success then (r, Loop(d, conds, pos))
      else (if CondAt(conds, pos) then Wait else Success, Loop(d, conds, pos + 1))
    case If(a) =>
      var (r, b) := Tick(a);
      (r, If(b))
  }

  // Ticks the children from i on while they answer goOn: the answer, where it came from, and the children then.
  function TickFrom(cs: seq<Tree>, i: nat, goOn: Result): (o: (Result, nat, seq<Tree>))
    requires i < |cs|
    ensures |o.2| == |cs|
    decreases cs, |cs| - i
  {
    var (r, d) := Tick(cs[i]);
    if r == goOn && i + 1 < |cs| then
      var (s, j, ds) := TickFrom(cs, i + 1, goOn);
      (s, j, ds[i := d])
    else (r, i, cs[i := d])
  }

  // The children that a Parallel ticks: those it waits for, or all of them at the beginning.
  function Origin(cs: seq<Tree>, waits: seq<nat>): seq<nat> {
    if waits != [] then waits else seq(|cs|, i => i)
  }

  function TickAll(cs: seq<Tree>, origin: seq<nat>): (ds: seq<Tree>)
    ensures |ds| == |cs|
    decreases cs, 0
  {
    seq(|cs|, i requires 0 <= i < |cs| => if i in origin then Tick(cs[i]).1 else cs[i])
  }

  function StillWaiting(cs: seq<Tree>, origin: seq<nat>): seq<nat>
    decreases cs, |origin|
  {
    if origin == [] then []
    else
      var last := origin[|origin| - 1];
      StillWaiting(cs, origin[..|origin| - 1]) + (if last < |cs| && Tick(cs[last]).0 == Wait then [last] else [])
  }

  function Answers(cs: seq<Tree>, origin: seq<nat>, r: Result): nat
    decreases cs, |origin|
  {
    if origin == [] then 0
    else
      var last := origin[|origin| - 1];
      Answers(cs, origin[..|origin| - 1], r) + (if last < |cs| && Tick(cs[last]).0 == r then 1 else 0)
  }

  /* ---------- running to the end ---------- */

  // The answer, the tree after it, and how many ticks have to wait before it.
  datatype Outcome = Outcome(result: Result, final: Tree, waits: nat)

  function Ahead(t: Tree): nat {
    if t.Loop? && t.pos < |t.conds| then |t.conds| - t.pos else 0
  }

  // Sequence and Select add up the waiting of the children that they run, Parallel takes the longest,
  // and Loop adds one wait for every repetition.
  function Eval(t: Tree): (o: Outcome)
    ensures Size(o.final) == Size(t) && o.result != Wait
    decreases Size(t), Ahead(t), 0
  {
    match t
    case Leaf(runs, pos, elapsed) =>
      var run := RunAt(runs, pos);
      Outcome(run.answer, Leaf(runs, pos + 1, 0), if elapsed < run.waits then run.waits - elapsed else 0)
    case Sequence(cs, index) =>
      if cs == [] then Outcome(Success, t, 0)
      else
        var (r, ds, w) := EvalFrom(cs, if index >= |cs| then 0 else index, Success);
        SameSizes(ds, cs);
        Outcome(r, Sequence(ds, 0), w)
    case Select(cs, index) =>
      if cs == [] then Outcome(Success, t, 0)
      else
        var (r, ds, w) := EvalFrom(cs, if index >= |cs| then 0 else index, Fail);
        SameSizes(ds, cs);
        Outcome(r, Select(ds, 0), w)
    case Parallel(policy, cs, waits, succ, fail) =>
      if cs == [] then Outcome(Success, t, 0)
      else
        var origin := Origin(cs, waits);
        var succs := succ + Results(cs, origin, Success);
        var fails := fail + Results(cs, origin, Fail);
        SameSizes(EvalAll(cs, origin), cs);
        Outcome(CheckPolicy(policy, succs, fails), Parallel(policy, EvalAll(cs, origin), [], 0, 0), Longest(cs, origin))
    case Loop(c, conds, pos) =>
      var o := Eval(c);
      if o.result != Success then Outcome(o.result, Loop(o.final, conds, pos), o.waits)
      else if CondAt(conds, pos) then
        var again := Eval(Loop(o.final, conds, pos + 1));
        again.(waits := o.waits + 1 + again.waits)
      else Outcome(Success, Loop(o.final, conds, pos + 1), o.waits)
    case If(a) =>
      var o := Eval(a);
      o.(final := If(o.final))
  }

  // The children from i on while they answer goOn.
  function EvalFrom(cs: seq<Tree>, i: nat, goOn: Result): (o: (Result, seq<Tree>, nat))
    requires i < |cs|
    ensures EqualSizes(o.1, cs)
    ensures o.0 != Wait
    decreases Sizes(cs) + 1, 0, |cs| - i
  {
    SizeOfOne(cs, i);
    var c := Eval(cs[i]);
    if c.result == goOn && i + 1 < |cs| then
      var (r, ds, w) := EvalFrom(cs, i + 1, goOn);
      (r, ds[i := c.final], c.waits + w)
    else (c.result, cs[i := c.final], c.waits)
  }

  function EvalAll(cs: seq<Tree>, origin: seq<nat>): (ds: seq<Tree>)
    ensures EqualSizes(ds, cs)
    decreases Sizes(cs) + 1, 0, 0
  {
    seq(|cs|, i requires 0 <= i < |cs| => SizeOfOne(cs, i); if i in origin then Eval(cs[i]).final else cs[i])
  }

  function Results(cs: seq<Tree>, origin: seq<nat>, r: Result): nat
    decreases Sizes(cs) + 1, 0, |origin|
  {
    if origin == [] then 0
    else
      var last := origin[|origin| - 1];
      Results(cs, origin[..|origin| - 1], r)
      + (if last < |cs| && (SizeOfOne(cs, last); Eval(cs[last]).result == r) then 1 else 0)
  }

  function Longest(cs: seq<Tree>, origin: seq<nat>): nat
    decreases Sizes(cs) + 1, 0, |origin|
  {
    if origin == [] then 0
    else
      var last := origin[|origin| - 1];
      var before := Longest(cs, origin[..|origin| - 1]);
      var w := if last < |cs| then SizeOfOne(cs, last); Eval(cs[last]).waits else 0;
      if w > before then w else before
  }

  /* ---------- trees at rest and trees that are waiting ---------- */

  // Nothing is under way anywhere in the tree.
  predicate AtRest(t: Tree) {
    match t
    case Leaf(_, _, elapsed) => elapsed == 0
    case Sequence(cs, index) => index == 0 && AllAtRest(cs)
    case Select(cs, index) => index == 0 && AllAtRest(cs)
    case Parallel(_, cs, waits, succ, fail) => waits == [] && succ == 0 && fail == 0 && AllAtRest(cs)
    case Loop(c, _, _) => AtRest(c)
    case If(a) => AtRest(a)
  }

  predicate AllAtRest(cs: seq<Tree>) {
    forall i :: 0 <= i < |cs| ==> AtRest(cs[i])
  }

  predicate Distinct(s: seq<nat>) {
    forall i, j :: 0 <= i < j < |s| ==> s[i] != s[j]
  }

  // Between two ticks: only the children that are waited for are under way.
  predicate Waiting(t: Tree) {
    match t
    case Leaf(runs, pos, elapsed) => elapsed <= RunAt(runs, pos).waits
    case Sequence(cs, index) => OneWaiting(cs, index)
    case Select(cs, index) => OneWaiting(cs, index)
    case Parallel(_, cs, waits, succ, fail) =>
      && Distinct(waits) && (waits == [] ==> succ == 0 && fail == 0)
      && (forall j :: j in waits ==> j < |cs|)
      && (forall j :: 0 <= j < |cs| ==> if j in waits then Waiting(cs[j]) else AtRest(cs[j]))
    case Loop(c, _, _) => Waiting(c)
    case If(a) => Waiting(a)
  }

  predicate OneWaiting(cs: seq<Tree>, index: nat) {
    if cs == [] then index == 0
    else index < |cs| && Waiting(cs[index]) && forall j :: 0 <= j < |cs| && j != index ==> AtRest(cs[j])
  }

  lemma {:induction false} RestIsWaiting(t: Tree)
    requires AtRest(t)
    ensures Waiting(t)
  {
    match t {
      case Leaf(_, _, _) =>
      case Sequence(cs, _) =>
        if cs != [] { RestIsWaiting(cs[0]); }
      case Select(cs, _) =>
        if cs != [] { RestIsWaiting(cs[0]); }
      case Parallel(_, cs, _, _, _) =>
      case Loop(c, _, _) =>
        RestIsWaiting(c);
      case If(a) =>
        RestIsWaiting(a);
    }
  }

  /* ---------- a tick is one step of running to the end ---------- */

  // A tick answers what running to the end answers, or takes one wait off it.
  ghost predicate StepsOnce(t: Tree) {
    var o, (r, u) := Eval(t), Tick(t);
    if o.waits == 0 then r == o.result && u == o.final && AtRest(u)
    else r == Wait && Waiting(u) && Eval(u) == o.(waits := o.waits - 1)
  }

  lemma EvalFromSteps(cs: seq<Tree>, i: nat, goOn: Result)
    requires i < |cs|
    ensures var c := Eval(cs[i]);
            EvalFrom(cs, i, goOn) ==
            if c.result == goOn && i + 1 < |cs| then Prepended(cs, i, c, EvalFrom(cs, i + 1, goOn))
            else (c.result, cs[i := c.final], c.waits)
  {
    hide Eval;
  }

  // The outcome of a child put before that of the children after it.
  function Prepended(cs: seq<Tree>, i: nat, c: Outcome, o: (Result, seq<Tree>, nat)): (Result, seq<Tree>, nat)
    requires i < |cs| == |o.1|
  {
    (o.0, o.1[i := c.final], c.waits + o.2)
  }

  lemma Commute(cs: seq<Tree>, i: nat, d: Tree, j: nat, e: Tree)
    requires i < |cs| && j < |cs| && i != j
    ensures cs[i := d][j := e] == cs[j := e][i := d]
  {}

  lemma Overwrite(cs: seq<Tree>, i: nat, d: Tree, e: Tree)
    requires i < |cs|
    ensures cs[i := d][i := e] == cs[i := e]
  {}

  // Children before i play no part.
  lemma {:induction false} EvalFromIgnores(cs: seq<Tree>, i: nat, d: Tree, j: nat, goOn: Result)
    requires i < j < |cs|
    ensures EvalFrom(cs[i := d], j, goOn) ==
            (EvalFrom(cs, j, goOn).0, EvalFrom(cs, j, goOn).1[i := d], EvalFrom(cs, j, goOn).2)
    decreases |cs| - j
  {
    EvalFromSteps(cs, j, goOn);
    EvalFromSteps(cs[i := d], j, goOn);
    var c := Eval(cs[j]);
    assert cs[i := d][j] == cs[j];
    if c.result == goOn && j + 1 < |cs| {
      EvalFromIgnores(cs, i, d, j + 1, goOn);
      Commute(EvalFrom(cs, j + 1, goOn).1, i, d, j, c.final);
    } else {
      Commute(cs, i, d, j, c.final);
    }
    hide Eval, EvalFrom;
  }

  // What TickFrom and EvalFrom have to do with each other.
  ghost predicate StepsFrom(cs: seq<Tree>, i: nat, goOn: Result)
    requires i < |cs|
  {
    var (r, k, ds) := TickFrom(cs, i, goOn);
    var (er, eds, w) := EvalFrom(cs, i, goOn);
    if w == 0 then r == er && ds == eds && forall j :: i <= j < |cs| ==> AtRest(ds[j])
    else
      && r == Wait && i <= k < |cs| && Waiting(ds[k])
      && (forall j :: i <= j < |cs| && j != k ==> AtRest(ds[j]))
      && EvalFrom(ds, k, goOn) == (er, eds, w - 1)
  }

  lemma TickFromSteps(cs: seq<Tree>, i: nat, goOn: Result)
    requires i < |cs|
    ensures var (r, d) := Tick(cs[i]);
            TickFrom(cs, i, goOn) ==
              if r == goOn && i + 1 < |cs| then
                (TickFrom(cs, i + 1, goOn).0, TickFrom(cs, i + 1, goOn).1, TickFrom(cs, i + 1, goOn).2[i := d])
              else (r, i, cs[i := d])
  {
    hide Tick;
  }

  // The first child has to wait.
  lemma StepWaits(cs: seq<Tree>, i: nat, goOn: Result)
    requires i < |cs| && StepsOnce(cs[i]) && Eval(cs[i]).waits > 0 && goOn != Wait
    requires forall j :: i < j < |cs| ==> AtRest(cs[j])
    ensures StepsFrom(cs, i, goOn)
  {
    hide Eval, EvalFrom, Tick, TickFrom, AtRest, Waiting;
    var c, d := Eval(cs[i]), Tick(cs[i]).1;
    TickFromSteps(cs, i, goOn);
    EvalFromSteps(cs, i, goOn);
    EvalFromSteps(cs[i := d], i, goOn);
    Overwrite(cs, i, d, c.final);
    if i + 1 < |cs| {
      EvalFromIgnores(cs, i, d, i + 1, goOn);
      Overwrite(EvalFrom(cs, i + 1, goOn).1, i, d, c.final);
    }
  }

  lemma {:induction false} StepFrom(cs: seq<Tree>, i: nat, goOn: Result)
    requires i < |cs| && StepsOnce(cs[i])
    requires forall j :: i < j < |cs| ==> StepsOnce(cs[j]) && AtRest(cs[j])
    requires goOn != Wait
    ensures StepsFrom(cs, i, goOn)
    ensures forall j :: 0 <= j < i ==> TickFrom(cs, i, goOn).2[j] == cs[j]
    decreases |cs| - i
  {
    hide Eval, EvalFrom, Tick, TickFrom, AtRest, Waiting;
    var c := Eval(cs[i]);
    var (r, d) := Tick(cs[i]);
    TickFromSteps(cs, i, goOn);
    EvalFromSteps(cs, i, goOn);
    if c.waits > 0 {
      StepWaits(cs, i, goOn);
    } else if r == goOn && i + 1 < |cs| {
      StepFrom(cs, i + 1, goOn);
      if EvalFrom(cs, i + 1, goOn).2 > 0 {
        EvalFromIgnores(TickFrom(cs, i + 1, goOn).2, i, d, TickFrom(cs, i + 1, goOn).1, goOn);
      }
    }
  }

  /* ---------- a Parallel takes one step ---------- */

  lemma LastOf(origin: seq<nat>) returns (before: seq<nat>, last: nat)
    requires origin != []
    ensures origin == before + [last] && |before| < |origin|
    ensures forall j :: j in origin <==> j in before || j == last
    ensures Distinct(origin) ==> Distinct(before) && last !in before
  {
    before, last := origin[..|origin| - 1], origin[|origin| - 1];
    assert origin == before + [last];
  }

  lemma CountOneMore(cs: seq<Tree>, before: seq<nat>, last: nat, r: Result)
    requires last < |cs|
    ensures Results(cs, before + [last], r) == Results(cs, before, r) + (if Eval(cs[last]).result == r then 1 else 0)
    ensures Answers(cs, before + [last], r) == Answers(cs, before, r) + (if Tick(cs[last]).0 == r then 1 else 0)
  {
    hide Eval, Tick;
    assert (before + [last])[..|before|] == before;
  }

  lemma WaitOneMore(cs: seq<Tree>, before: seq<nat>, last: nat)
    requires last < |cs|
    ensures StillWaiting(cs, before + [last]) ==
            StillWaiting(cs, before) + (if Tick(cs[last]).0 == Wait then [last] else [])
    ensures Longest(cs, before + [last])
         == if Eval(cs[last]).waits > Longest(cs, before) then Eval(cs[last]).waits else Longest(cs, before)
  {
    hide Eval, Tick;
    assert (before + [last])[..|before|] == before;
  }

  // The children that are still waiting are those whose run is not over.
  lemma {:induction false} WaitingAre(cs: seq<Tree>, origin: seq<nat>)
    requires Distinct(origin) && forall j :: j in origin ==> j < |cs|
    ensures Distinct(StillWaiting(cs, origin))
    ensures forall j :: j in StillWaiting(cs, origin) <==> j in origin && Tick(cs[j]).0 == Wait
    decreases |origin|
  {
    hide Tick, StillWaiting;
    if origin == [] {
      NoneWaiting(cs);
    } else {
      var before, last := LastOf(origin);
      WaitingAre(cs, before);
      WaitOneMore(cs, before, last);
    }
  }

  lemma NoneWaiting(cs: seq<Tree>)
    ensures StillWaiting(cs, []) == [] && Longest(cs, []) == 0
    ensures forall r :: Results(cs, [], r) == 0 && Answers(cs, [], r) == 0
  {}

  // What is counted now and what will be counted later make up the whole.
  lemma {:induction false} CountsSplit(cs: seq<Tree>, ds: seq<Tree>, origin: seq<nat>, r: Result)
    requires |ds| == |cs| && r != Wait
    requires forall j :: j in origin ==> j < |cs| && StepsOnce(cs[j]) && ds[j] == Tick(cs[j]).1
    ensures Results(cs, origin, r) == Answers(cs, origin, r) + Results(ds, StillWaiting(cs, origin), r)
    decreases |origin|
  {
    hide Tick, Eval, Results, Answers, StillWaiting;
    if origin == [] {
      NoneWaiting(cs);
      NoneWaiting(ds);
    } else {
      var before, last := LastOf(origin);
      assert last in origin;
      CountsSplit(cs, ds, before, r);
      CountOneMore(cs, before, last, r);
      WaitOneMore(cs, before, last);
      CountOneMore(ds, StillWaiting(cs, before), last, r);
      assert StillWaiting(cs, before) + [] == StillWaiting(cs, before);
    }
  }

  lemma {:induction false} LongestDrops(cs: seq<Tree>, ds: seq<Tree>, origin: seq<nat>)
    requires |ds| == |cs|
    requires forall j :: j in origin ==> j < |cs| && StepsOnce(cs[j]) && ds[j] == Tick(cs[j]).1
    ensures Longest(cs, origin) ==
            if StillWaiting(cs, origin) == [] then 0 else Longest(ds, StillWaiting(cs, origin)) + 1
    decreases |origin|
  {
    hide Tick, Eval, Longest, StillWaiting;
    if origin == [] {
      NoneWaiting(cs);
    } else {
      var before, last := LastOf(origin);
      assert last in origin;
      LongestDrops(cs, ds, before);
      WaitOneMore(cs, before, last);
      WaitOneMore(ds, StillWaiting(cs, before), last);
      NoneWaiting(ds);
      assert StillWaiting(cs, before) + [] == StillWaiting(cs, before);
    }
  }

  lemma SameFinals(cs: seq<Tree>, ds: seq<Tree>, origin: seq<nat>)
    requires Distinct(origin) && |ds| == |cs|
    requires forall j :: j in origin ==> j < |cs| && StepsOnce(cs[j])
    requires forall j :: 0 <= j < |cs| ==> ds[j] == if j in origin then Tick(cs[j]).1 else cs[j]
    ensures EvalAll(ds, StillWaiting(cs, origin)) == EvalAll(cs, origin)
  {
    var rest := StillWaiting(cs, origin);
    WaitingAre(cs, origin);
    hide Tick, Eval, StillWaiting;
    forall j | 0 <= j < |cs|
      ensures EvalAll(ds, rest)[j] == EvalAll(cs, origin)[j]
    {
    }
  }

  // The children that a tick leaves are waiting or at rest.
  lemma TickedChildren(cs: seq<Tree>, origin: seq<nat>)
    requires Distinct(origin) && (forall j :: j in origin ==> j < |cs| && StepsOnce(cs[j]))
    requires forall j :: 0 <= j < |cs| && j !in origin ==> AtRest(cs[j])
    ensures var ds, rest := TickAll(cs, origin), StillWaiting(cs, origin);
            && (forall j :: j in rest ==> j < |cs|)
            && forall j :: 0 <= j < |cs| ==> if j in rest then Waiting(ds[j]) else AtRest(ds[j])
  {
    WaitingAre(cs, origin);
    hide Tick, Eval, StillWaiting, AtRest, Waiting;
  }

  lemma OriginIs(cs: seq<Tree>, waits: seq<nat>)
    requires Distinct(waits) && forall j :: j in waits ==> j < |cs|
    ensures Distinct(Origin(cs, waits)) && forall j :: j in Origin(cs, waits) ==> j < |cs|
    ensures waits == [] ==> forall j :: 0 <= j < |cs| ==> j in Origin(cs, waits)
    ensures waits != [] ==> Origin(cs, waits) == waits
  {
    if waits == [] {
      forall j | 0 <= j < |cs|
        ensures j in Origin(cs, waits)
      {
        assert Origin(cs, waits)[j] == j;
      }
    }
  }

  // A composite without children answers Success at once, whatever its kind.
  lemma EmptyComposite(t: Tree)
    requires !t.Leaf? && !t.Loop? && !t.If? && t.children == [] && Waiting(t)
    ensures Tick(t) == (Success, t) && Eval(t) == Outcome(Success, t, 0) && AtRest(t)
  {
    match t {
      case Parallel(_, _, waits, _, _) => SomeWait(waits);
      case _ =>
    }
  }

  lemma SomeWait(waits: seq<nat>)
    ensures waits == [] || exists j :: j in waits
  {
    if waits != [] {
      assert waits[0] in waits;
    }
  }

  lemma FinishedAll(ds: seq<Tree>)
    ensures EvalAll(ds, []) == ds
  {}

  lemma ParallelTick(policy: Policy, cs: seq<Tree>, waits: seq<nat>, succ: nat, fail: nat)
    requires cs != []
    ensures var origin := Origin(cs, waits);
            var rest := StillWaiting(cs, origin);
            var succs, fails := succ + Answers(cs, origin, Success), fail + Answers(cs, origin, Fail);
            Tick(Parallel(policy, cs, waits, succ, fail))
            == if rest != [] then (Wait, Parallel(policy, TickAll(cs, origin), rest, succs, fails))
               else (CheckPolicy(policy, succs, fails), Parallel(policy, TickAll(cs, origin), [], 0, 0))
  {
    hide TickAll, StillWaiting, Answers, Origin, CheckPolicy, Eval;
  }

  lemma ParallelEval(policy: Policy, cs: seq<Tree>, waits: seq<nat>, succ: nat, fail: nat)
    requires cs != []
    ensures var origin := Origin(cs, waits);
            Eval(Parallel(policy, cs, waits, succ, fail))
            == Outcome(CheckPolicy(policy, succ + Results(cs, origin, Success), fail + Results(cs, origin, Fail)),
                       Parallel(policy, EvalAll(cs, origin), [], 0, 0), Longest(cs, origin))
  {
    hide EvalAll, Results, Longest, Origin, CheckPolicy, Tick;
  }

  lemma TickAllIs(cs: seq<Tree>, origin: seq<nat>)
    ensures forall j :: 0 <= j < |cs| ==> TickAll(cs, origin)[j] == if j in origin then Tick(cs[j]).1 else cs[j]
  {}

  lemma ParallelState(policy: Policy, cs: seq<Tree>, waits: seq<nat>, succ: nat, fail: nat)
    ensures AtRest(Parallel(policy, cs, [], 0, 0)) == AllAtRest(cs)
    ensures Distinct(waits) && waits != [] && (forall j :: j in waits ==> j < |cs|)
            && (forall j :: 0 <= j < |cs| ==> if j in waits then Waiting(cs[j]) else AtRest(cs[j]))
            ==> Waiting(Parallel(policy, cs, waits, succ, fail))
  {}

  // The children that a Parallel ticks, and that the others are at rest.
  lemma OriginTicks(policy: Policy, cs: seq<Tree>, waits: seq<nat>, succ: nat, fail: nat)
    requires Waiting(Parallel(policy, cs, waits, succ, fail))
    ensures Distinct(Origin(cs, waits)) && forall j :: j in Origin(cs, waits) ==> j < |cs|
    ensures forall j :: 0 <= j < |cs| && j !in Origin(cs, waits) ==> AtRest(cs[j])
    ensures waits != [] ==> Origin(cs, waits) == waits
    ensures waits == [] ==> forall j :: 0 <= j < |cs| ==> j in Origin(cs, waits)
  {
    hide AtRest;
    OriginIs(cs, waits);
  }

  lemma ParallelSteps(policy: Policy, cs: seq<Tree>, waits: seq<nat>, succ: nat, fail: nat)
    requires Waiting(Parallel(policy, cs, waits, succ, fail)) && forall j :: 0 <= j < |cs| ==> StepsOnce(cs[j])
    ensures StepsOnce(Parallel(policy, cs, waits, succ, fail))
  {
    if cs == [] {
      EmptyComposite(Parallel(policy, cs, waits, succ, fail));
    } else {
      var origin := Origin(cs, waits);
      OriginTicks(policy, cs, waits, succ, fail);
      hide Tick, Eval, Waiting, AtRest, Origin, TickAll, EvalAll, StillWaiting, Results, Answers, Longest, CheckPolicy;
      TickAllIs(cs, origin);
      var ds, rest := TickAll(cs, origin), StillWaiting(cs, origin);
      CountsSplit(cs, ds, origin, Success);
      CountsSplit(cs, ds, origin, Fail);
      LongestDrops(cs, ds, origin);
      SameFinals(cs, ds, origin);
      WaitingAre(cs, origin);
      TickedChildren(cs, origin);
      hide StepsOnce;
      ParallelJoins(policy, cs, waits, succ, fail, origin, ds, rest);
    }
  }

  // The parts of the step of a Parallel put together.
  lemma ParallelJoins(policy: Policy, cs: seq<Tree>, waits: seq<nat>, succ: nat, fail: nat,
                      origin: seq<nat>, ds: seq<Tree>, rest: seq<nat>)
    requires cs != [] && origin == Origin(cs, waits) && |ds| == |cs|
    requires ds == TickAll(cs, origin) && rest == StillWaiting(cs, origin) && Distinct(rest)
    requires Results(cs, origin, Success) == Answers(cs, origin, Success) + Results(ds, rest, Success)
    requires Results(cs, origin, Fail) == Answers(cs, origin, Fail) + Results(ds, rest, Fail)
    requires Longest(cs, origin) == if rest == [] then 0 else Longest(ds, rest) + 1
    requires EvalAll(ds, rest) == EvalAll(cs, origin)
    requires forall j :: j in rest ==> j < |ds|
    requires forall j :: 0 <= j < |ds| ==> if j in rest then Waiting(ds[j]) else AtRest(ds[j])
    ensures StepsOnce(Parallel(policy, cs, waits, succ, fail))
  {
    var succs, fails := succ + Answers(cs, origin, Success), fail + Answers(cs, origin, Fail);
    hide Tick, Eval, Waiting, AtRest, TickAll, EvalAll, StillWaiting, Results, Answers, Longest, CheckPolicy,
         Distinct, Origin;
    ParallelTick(policy, cs, waits, succ, fail);
    ParallelEval(policy, cs, waits, succ, fail);
    ParallelState(policy, ds, rest, succs, fails);
    if rest == [] {
      NoneWaiting(ds);
      FinishedAll(ds);
    } else {
      OriginOfWaits(ds, rest);
      ParallelEval(policy, ds, rest, succs, fails);
    }
  }

  /* ---------- what the composites answer ---------- */

  lemma {:induction false} SomeAnswer(cs: seq<Tree>, origin: seq<nat>, r: Result)
    requires forall k :: 0 <= k < |origin| ==> origin[k] < |cs|
    ensures Results(cs, origin, r) > 0 <==> exists k :: 0 <= k < |origin| && Eval(cs[origin[k]]).result == r
    decreases |origin|
  {
    hide Eval;
    if origin != [] {
      var n := |origin| - 1;
      SomeAnswer(cs, origin[..n], r);
      assert origin == origin[..n] + [origin[n]];
    }
  }

  lemma AnyAnswer(cs: seq<Tree>, r: Result)
    ensures Results(cs, Origin(cs, []), r) > 0 <==> exists i :: 0 <= i < |cs| && Eval(cs[i]).result == r
  {
    var origin := Origin(cs, []);
    assert |origin| == |cs| && forall k :: 0 <= k < |origin| ==> origin[k] == k;
    hide Eval, Results, Origin;
    SomeAnswer(cs, origin, r);
    if i :| 0 <= i < |cs| && Eval(cs[i]).result == r {
      assert Eval(cs[origin[i]]).result == r;
    }
  }

  // A Parallel at rest fails on all: only if no child succeeds; or on one: it succeeds only if no child fails.
  lemma ParallelAnswers(policy: Policy, cs: seq<Tree>)
    requires cs != []
    ensures var r := Eval(Parallel(policy, cs, [], 0, 0)).result;
            && (policy.FailOnAll? ==> (r == Fail <==> forall i :: 0 <= i < |cs| ==> Eval(cs[i]).result != Success))
            && (policy.FailOnOne? ==> (r == Success <==> forall i :: 0 <= i < |cs| ==> Eval(cs[i]).result != Fail))
  {
    ParallelEval(policy, cs, [], 0, 0);
    hide Eval, Results, Origin, EvalAll, Longest;
    AnyAnswer(cs, Success);
    AnyAnswer(cs, Fail);
  }

  lemma {:induction false} TurnsAnswer(cs: seq<Tree>, i: nat, goOn: Result)
    requires i < |cs|
    ensures EvalFrom(cs, i, goOn).0 == goOn <==> forall j :: i <= j < |cs| ==> Eval(cs[j]).result == goOn
    decreases |cs| - i
  {
    hide Eval, EvalFrom;
    EvalFromSteps(cs, i, goOn);
    if i + 1 < |cs| {
      TurnsAnswer(cs, i + 1, goOn);
    }
  }

  // A Sequence at rest succeeds only if every child does, and a Select only if some child does.
  lemma SequenceAnswers(cs: seq<Tree>)
    requires cs != []
    ensures Eval(Sequence(cs, 0)).result == Success <==> forall i :: 0 <= i < |cs| ==> Eval(cs[i]).result == Success
    ensures Eval(Select(cs, 0)).result == Success <==> exists i :: 0 <= i < |cs| && Eval(cs[i]).result == Success
  {
    TurnsAnswer(cs, 0, Success);
    TurnsAnswer(cs, 0, Fail);
    InTurnEval(true, cs, 0);
    InTurnEval(false, cs, 0);
    hide Eval, EvalFrom;
  }

  // The tree succeeds, and n more times from where it is left.
  ghost predicate Succeeds(c: Tree, n: nat)
    decreases n
  {
    Eval(c).result == Success && (n > 0 ==> Succeeds(Eval(c).final, n - 1))
  }

  // A Loop whose condition holds n times succeeds only if its child succeeds n + 1 times.
  lemma {:induction false} LoopAnswers(c: Tree, conds: seq<bool>, pos: nat, n: nat)
    requires pos + n <= |conds| && (forall k :: pos <= k < pos + n ==> conds[k])
    requires pos + n == |conds| || !conds[pos + n]
    ensures Eval(Loop(c, conds, pos)).result == Success <==> Succeeds(c, n)
    decreases n
  {
    hide Eval;
    LoopEval(c, conds, pos);
    if n > 0 {
      LoopAnswers(Eval(c).final, conds, pos + 1, n - 1);
    }
  }

  lemma OriginOfWaits(cs: seq<Tree>, waits: seq<nat>)
    requires waits != []
    ensures Origin(cs, waits) == waits
  {}

  lemma LoopEval(c: Tree, conds: seq<bool>, pos: nat)
    ensures var o := Eval(c);
            var onward := Loop(o.final, conds, pos + 1);
            Eval(Loop(c, conds, pos))
            == if o.result != Success then Outcome(o.result, Loop(o.final, conds, pos), o.waits)
               else if CondAt(conds, pos) then Eval(onward).(waits := o.waits + 1 + Eval(onward).waits)
               else Outcome(Success, onward, o.waits)
  {
    hide Tick;
  }

  lemma LoopTick(c: Tree, conds: seq<bool>, pos: nat)
    ensures var (r, d) := Tick(c);
            Tick(Loop(c, conds, pos))
            == if r != Success then (r, Loop(d, conds, pos))
               else (if CondAt(conds, pos) then Wait else Success, Loop(d, conds, pos + 1))
  {
    hide Eval;
  }

  lemma LoopState(c: Tree, conds: seq<bool>, pos: nat)
    ensures Waiting(Loop(c, conds, pos)) == Waiting(c) && AtRest(Loop(c, conds, pos)) == AtRest(c)
    ensures AtRest(c) ==> Waiting(c)
  {
    if AtRest(c) {
      RestIsWaiting(c);
    }
  }

  lemma LoopSteps(c: Tree, conds: seq<bool>, pos: nat)
    requires StepsOnce(c)
    ensures StepsOnce(Loop(c, conds, pos))
  {
    hide Tick, Eval, Waiting, AtRest, CondAt;
    var d := Tick(c).1;
    LoopEval(c, conds, pos);
    LoopTick(c, conds, pos);
    if Eval(c).waits == 0 {
      LoopState(d, conds, pos);
      LoopState(d, conds, pos + 1);
    } else {
      LoopState(d, conds, pos);
      LoopEval(d, conds, pos);
    }
  }

  lemma {:induction false} StepOnce(t: Tree)
    requires Waiting(t)
    ensures StepsOnce(t)
    decreases t
  {
    match t {
      case Leaf(_, _, _) =>
      case Sequence(cs, index) =>
        StepChildren(cs);
        SequenceSteps(true, cs, index);
      case Select(cs, index) =>
        StepChildren(cs);
        SequenceSteps(false, cs, index);
      case Parallel(policy, cs, waits, succ, fail) =>
        StepChildren(cs);
        ParallelSteps(policy, cs, waits, succ, fail);
      case Loop(c, conds, pos) =>
        StepOnce(c);
        LoopSteps(c, conds, pos);
      case If(a) =>
        StepOnce(a);
    }
  }

  lemma {:induction false} StepChildren(cs: seq<Tree>)
    requires forall j :: 0 <= j < |cs| ==> Waiting(cs[j]) || AtRest(cs[j])
    ensures forall j :: 0 <= j < |cs| ==> StepsOnce(cs[j])
    decreases cs
  {
    hide StepsOnce;
    forall j | 0 <= j < |cs|
      ensures StepsOnce(cs[j])
    {
      if AtRest(cs[j]) {
        RestIsWaiting(cs[j]);
      }
      StepOnce(cs[j]);
    }
  }

  // A Sequence goes on after a success, a Select after a failure.
  function InTurn(all: bool, cs: seq<Tree>, index: nat): Tree {
    if all then Sequence(cs, index) else Select(cs, index)
  }

  function GoOn(all: bool): Result {
    if all then Success else Fail
  }

  lemma InTurnTick(all: bool, cs: seq<Tree>, index: nat)
    requires index < |cs|
    ensures var (r, i, ds) := TickFrom(cs, index, GoOn(all));
            Tick(InTurn(all, cs, index)) == (r, InTurn(all, ds, if r == Wait then i else 0))
  {
    hide TickFrom, Eval;
  }

  lemma InTurnEval(all: bool, cs: seq<Tree>, index: nat)
    requires index < |cs|
    ensures var (r, ds, w) := EvalFrom(cs, index, GoOn(all));
            Eval(InTurn(all, cs, index)) == Outcome(r, InTurn(all, ds, 0), w)
  {
    hide EvalFrom, Tick;
  }

  lemma InTurnState(all: bool, cs: seq<Tree>, index: nat)
    ensures Waiting(InTurn(all, cs, index)) == OneWaiting(cs, index)
    ensures AtRest(InTurn(all, cs, 0)) == AllAtRest(cs)
  {}

  lemma SequenceSteps(all: bool, cs: seq<Tree>, index: nat)
    requires OneWaiting(cs, index) && forall j :: 0 <= j < |cs| ==> StepsOnce(cs[j])
    ensures StepsOnce(InTurn(all, cs, index))
  {
    hide Tick, Eval, TickFrom, EvalFrom, Waiting, AtRest, InTurn;
    if cs == [] {
      InTurnState(all, cs, 0);
      NoTurns(all);
    } else {
      StepFrom(cs, index, GoOn(all));
      InTurnTick(all, cs, index);
      InTurnEval(all, cs, index);
      var (r, k, ds) := TickFrom(cs, index, GoOn(all));
      InTurnState(all, ds, k);
      if r == Wait {
        InTurnEval(all, ds, k);
      }
    }
  }

  lemma NoTurns(all: bool)
    ensures StepsOnce(InTurn(all, [], 0))
  {
    EmptyComposite(InTurn(all, [], 0));
  }

  /* ---------- ticking to the end ---------- */

  function After(t: Tree, n: nat): Tree {
    if n == 0 then t else Tick(After(t, n - 1)).1
  }

  lemma {:induction false} WaitsDown(t: Tree, n: nat)
    requires Waiting(t) && n <= Eval(t).waits
    ensures Waiting(After(t, n)) && Eval(After(t, n)) == Eval(t).(waits := Eval(t).waits - n)
    ensures n > 0 ==> Tick(After(t, n - 1)).0 == Wait
  {
    hide Tick, Eval, Waiting;
    if n > 0 {
      WaitsDown(t, n - 1);
      StepOnce(After(t, n - 1));
    }
  }

  // A tree at rest answers Wait exactly as often as its runs add up to, then what running it to the end
  // answers, and is at rest again, with all that is in it.
  lemma TicksRefineEval(t: Tree, n: nat)
    requires AtRest(t)
    ensures n < Eval(t).waits ==> Tick(After(t, n)).0 == Wait
    ensures n == Eval(t).waits ==>
              Tick(After(t, n)) == (Eval(t).result, Eval(t).final) && Eval(t).result != Wait && AtRest(Eval(t).final)
  {
    hide Tick, Eval, Waiting, AtRest, After, Size;
    RestIsWaiting(t);
    if n < Eval(t).waits {
      WaitsDown(t, n + 1);
      assert n + 1 - 1 == n;
    } else if n == Eval(t).waits {
      WaitsDown(t, n);
      StepOnce(After(t, n));
    }
  }
}
