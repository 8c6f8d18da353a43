/**
The nodes of a behaviour tree as objects that keep their state between ticks: the child a Sequence
or Select has reached, the children a Parallel still waits for and what it has counted. Each object
stands for a tree.
*/
module BehaviorNodes {
  import opened BehaviorTrees

  datatype Kind =
    | ActionNode(runs: seq<Run>) | SequenceNode | SelectNode | ParallelNode(policy: Policy) | LoopNode(conds: seq<bool>)
    | IfNode

  lemma {:induction false} TickFromIgnores(cs: seq<Tree>, i: nat, d: Tree, j: nat, goOn: Result)
    requires i < j < |cs|
    ensures TickFrom(cs[i := d], j, goOn)
         == (TickFrom(cs, j, goOn).0, TickFrom(cs, j, goOn).1, TickFrom(cs, j, goOn).2[i := d])
    decreases |cs| - j
  {
    hide Tick, TickFrom;
    TickFromSteps(cs, j, goOn);
    TickFromSteps(cs[i := d], j, goOn);
    var (r, e) := Tick(cs[j]);
    assert cs[i := d][j] == cs[j];
    if r == goOn && j + 1 < |cs| {
      TickFromIgnores(cs, i, d, j + 1, goOn);
      Commute(TickFrom(cs, j + 1, goOn).2, i, d, j, e);
    } else {
      Commute(cs, i, d, j, e);
    }
  }

  // The turn of child i: the children after it follow, or the turns end.
  lemma Turn(cs: seq<Tree>, i: nat, goOn: Result)
    requires i < |cs|
    ensures var (r, d) := Tick(cs[i]);
            TickFrom(cs, i, goOn) ==
            if r == goOn && i + 1 < |cs| then TickFrom(cs[i := d], i + 1, goOn) else (r, i, cs[i := d])
  {
    hide Tick, TickFrom;
    TickFromSteps(cs, i, goOn);
    if i + 1 < |cs| {
      TickFromIgnores(cs, i, Tick(cs[i]).1, i + 1, goOn);
    }
  }

  lemma TurnsTick(all: bool, cs: seq<Tree>, index: nat)
    ensures cs == [] ==> Tick(InTurn(all, cs, index)) == (Success, InTurn(all, cs, index))
    ensures cs != [] ==>
              (var (r, i, ds) := TickFrom(cs, if index >= |cs| then 0 else index, GoOn(all));
               Tick(InTurn(all, cs, index)) == (r, InTurn(all, ds, if r == Wait then i else 0)))
  {
    hide TickFrom;
  }

  lemma NoChildren(t: Tree)
    requires t.Parallel? && t.children == []
    ensures Tick(t) == (Success, t)
  {}

  // The children ticked so far, the rest that has to wait, and the answers counted.
  ghost predicate Ticked(cs: seq<Tree>, ms: seq<Tree>, done: seq<nat>, rest: seq<nat>, succ: nat, fail: nat)
  {
    && |ms| == |cs| && (forall j :: 0 <= j < |cs| ==> ms[j] == if j in done then Tick(cs[j]).1 else cs[j])
    && rest == StillWaiting(cs, done) && succ == Answers(cs, done, Success) && fail == Answers(cs, done, Fail)
  }

  lemma TickedNone(cs: seq<Tree>)
    ensures Ticked(cs, cs, [], [], 0, 0)
  {}

  lemma TickedOne(cs: seq<Tree>, ms: seq<Tree>, done: seq<nat>, rest: seq<nat>, succ: nat, fail: nat, i: nat)
    requires Ticked(cs, ms, done, rest, succ, fail) && i < |cs| && i !in done
    ensures ms[i] == cs[i]
    ensures var (r, d) := Tick(cs[i]);
            Ticked(cs, ms[i := d], done + [i], if r == Wait then rest + [i] else rest,
                   if r == Success then succ + 1 else succ, if r == Fail then fail + 1 else fail)
  {
    CountOneMore(cs, done, i, Success);
    CountOneMore(cs, done, i, Fail);
    WaitOneMore(cs, done, i);
    hide Tick, StillWaiting, Answers;
  }

  lemma NotYetTicked(origin: seq<nat>, k: nat)
    requires Distinct(origin) && k < |origin|
    ensures origin[k] !in origin[..k] && origin[..k + 1] == origin[..k] + [origin[k]] && origin[k] in origin
  {}

  lemma TickedAll(cs: seq<Tree>, ms: seq<Tree>, origin: seq<nat>, rest: seq<nat>, succ: nat, fail: nat)
    requires Ticked(cs, ms, origin, rest, succ, fail) && Distinct(origin) && forall j :: j in origin ==> j < |cs|
    ensures ms == TickAll(cs, origin) && Distinct(rest) && forall j :: j in rest ==> j < |cs|
    ensures rest == StillWaiting(cs, origin)
    ensures succ == Answers(cs, origin, Success) && fail == Answers(cs, origin, Fail)
  {
    WaitingAre(cs, origin);
    hide Tick;
  }

  class Node {
    const kind: Kind
    var children: seq<Node>
    var index: nat
    var waits: seq<nat>
    var succ: nat
    var fail: nat
    var pos: nat
    var elapsed: nat

    // The node and all that is below it.
    ghost var repr: set<Node>

    ghost predicate Valid()
      reads this, repr
      decreases repr
    {
      && this in repr
      && (forall i :: 0 <= i < |children| ==>
            children[i] in repr && children[i].repr <= repr && this !in children[i].repr)
      && (forall i :: 0 <= i < |children| ==> children[i].repr < repr && children[i].Valid())
      && (forall i, j :: 0 <= i < j < |children| ==> children[i].repr !! children[j].repr)
      && (kind.LoopNode? || kind.IfNode? ==> |children| == 1)
      && (kind.ParallelNode? ==> Distinct(waits) && forall j :: j in waits ==> j < |children|)
    }

    ghost function Models(): (ms: seq<Tree>)
      requires Valid()
      reads this, repr
      ensures |ms| == |children|
      decreases repr, 0
    {
      seq(|children|, i requires 0 <= i < |children| reads this, repr requires Valid() => children[i].Model())
    }

    ghost function Model(): Tree
      requires Valid()
      reads this, repr
      decreases repr, 1
    {
      match kind
      case ActionNode(runs) => Leaf(runs, pos, elapsed)
      case SequenceNode => Sequence(Models(), index)
      case SelectNode => Select(Models(), index)
      case ParallelNode(policy) => Parallel(policy, Models(), waits, succ, fail)
      case LoopNode(conds) => Loop(Models()[0], conds, pos)
      case IfNode => If(Models()[0])
    }

    // An action, a condition, or a composite without children.
    constructor (kind: Kind)
      requires !kind.LoopNode? && !kind.IfNode?
      ensures Valid() && this.kind == kind && children == [] && repr == {this} && AtRest(Model())
      ensures index == 0 && pos == 0 && elapsed == 0
    {
      this.kind := kind;
      children, index, waits, succ, fail, pos, elapsed := [], 0, [], 0, 0, 0, 0;
      repr := {this};
    }

    constructor Decorate(kind: Kind, child: Node)
      requires (kind.LoopNode? || kind.IfNode?) && child.Valid()
      ensures Valid() && this.kind == kind && repr == {this} + child.repr
      ensures Model() == if kind.IfNode? then If(child.Model()) else Loop(child.Model(), kind.conds, 0)
    {
      this.kind := kind;
      children, index, waits, succ, fail, pos, elapsed := [child], 0, [], 0, 0, 0, 0;
      repr := {this} + child.repr;
    }

    method AddChild(node: Node)
      requires Valid() && node.Valid() && repr !! node.repr && !kind.LoopNode? && !kind.IfNode?
      modifies this`children, this`repr
      ensures Valid() && children == old(children) + [node] && repr == old(repr) + node.repr
      ensures Models() == old(Models()) + [node.Model()]
    {
      children := children + [node];
      repr := repr + node.repr;
    }

    // Only this node itself has changed.
    twostate lemma SelfOnly()
      requires old(Valid()) && children == old(children) && repr == old(repr)
      requires kind.ParallelNode? ==> Distinct(waits) && forall j :: j in waits ==> j < |children|
      requires forall o :: o in repr && o != this ==> unchanged(o)
      ensures Valid() && Models() == old(Models())
    {
      hide Model;
      forall i | 0 <= i < |children|
        ensures children[i].repr == old(children[i].repr) && children[i].Valid()
        ensures children[i].Model() == old(children[i].Model())
      {
        assert forall o :: o in children[i].repr ==> unchanged(o);
      }
      assert Valid();
    }

    // Only what is below child i has changed.
    twostate lemma ChildOnly(i: nat)
      requires old(Valid()) && i < |children| && unchanged(this)
      requires children[i].Valid() && children[i].repr == old(children[i].repr)
      requires forall o :: o in repr && o !in children[i].repr ==> unchanged(o)
      ensures Valid() && Models() == old(Models())[i := children[i].Model()]
    {
      hide Model;
      forall j | 0 <= j < |children| && j != i
        ensures children[j].repr == old(children[j].repr) && children[j].Valid()
        ensures children[j].Model() == old(children[j].Model())
      {
        assert children[j].repr !! old(children[i]).repr;
        assert forall o :: o in children[j].repr ==> unchanged(o);
      }
      assert Valid();
    }

    method TickChild(i: nat) returns (r: Result)
      requires Valid() && i < |children|
      modifies children[i].repr
      ensures Valid() && unchanged(this)
      ensures r == Tick(old(Models())[i]).0 && Models() == old(Models())[i := Tick(old(Models())[i]).1]
      decreases repr, 0, 0
    {
      hide Tick, Model;
      assert children[i].repr < repr && this !in children[i].repr;
      r := children[i].DoAction();
      ChildOnly(i);
    }

    method DoAction() returns (res: Result)
      requires Valid()
      modifies repr
      ensures Valid() && repr == old(repr) && children == old(children)
      ensures res == Tick(old(Model())).0 && Model() == Tick(old(Model())).1
      decreases repr, 1
    {
      hide Tick;
      match kind {
        case ActionNode(runs) =>
          res := Act(runs);
        case SequenceNode =>
          res := Turns(true);
        case SelectNode =>
          res := Turns(false);
        case ParallelNode(policy) =>
          res := Together(policy);
        case LoopNode(conds) =>
          res := Repeat(conds);
        case IfNode =>
          res := TickChild(0);
          Delegates(old(Models())[0]);
      }
    }

    static lemma Delegates(a: Tree)
      ensures Tick(If(a)) == (Tick(a).0, If(Tick(a).1))
    {}

    method Act(runs: seq<Run>) returns (res: Result)
      requires Valid() && kind == ActionNode(runs)
      modifies this
      ensures Valid() && repr == old(repr) && children == old(children)
      ensures res == Tick(old(Model())).0 && Model() == Tick(old(Model())).1
    {
      var run := if pos < |runs| && runs[pos].answer != Wait then runs[pos] else Run(0, Fail);
      if elapsed < run.waits {
        elapsed := elapsed + 1;
        res := Wait;
      } else {
        pos, elapsed := pos + 1, 0;
        res := run.answer;
      }
      SelfOnly();
    }

    method Reset()
      requires Valid()
      modifies this`index
      ensures Valid() && Models() == old(Models()) && index == 0
    {
      index := 0;
      SelfOnly();
    }

    method ResetCounts()
      requires Valid()
      modifies this`waits, this`succ, this`fail
      ensures Valid() && Models() == old(Models()) && waits == [] && succ == 0 && fail == 0
    {
      waits, succ, fail := [], 0, 0;
      SelfOnly();
    }

    static lemma NeverWait(all: bool)
      ensures GoOn(all) != Wait
    {}

    lemma ModelInTurn(all: bool)
      requires Valid() && kind == if all then SequenceNode else SelectNode
      ensures Model() == InTurn(all, Models(), index)
    {}

    // A Sequence runs its children while they succeed, a Select while they fail.
    method Turns(all: bool) returns (res: Result)
      requires Valid() && kind == if all then SequenceNode else SelectNode
      modifies repr
      ensures Valid() && repr == old(repr) && children == old(children)
      ensures res == Tick(old(Model())).0 && Model() == Tick(old(Model())).1
      decreases repr, 0, 2
    {
      hide Tick, TickFrom, Model, InTurn, GoOn;
      ghost var cs := Models();
      ModelInTurn(all);
      TurnsTick(all, cs, index);
      NeverWait(all);
      if |children| == 0 {
        return Success;
      }
      if index >= |children| {
        Reset();
      }
      ghost var from := index;
      while index < |children|
        invariant Valid() && repr == old(repr) && children == old(children) && index <= |children|
        invariant TickFrom(cs, from, GoOn(all))
               == if index < |children| then TickFrom(Models(), index, GoOn(all)) else (GoOn(all), index - 1, Models())
        decreases |children| - index
      {
        Turn(Models(), index, GoOn(all));
        res := TickChild(index);
        if res != GoOn(all) {
          if res != Wait {
            Reset();
          }
          ModelInTurn(all);
          return res;
        }
        Advance();
      }
      Reset();
      ModelInTurn(all);
      return GoOn(all);
    }

    method Advance()
      requires Valid()
      modifies this`index
      ensures Valid() && index == old(index) + 1 && Models() == old(Models())
    {
      index := index + 1;
      SelfOnly();
    }

    // A Parallel runs the children that it waits for, or all of them, and answers when none has to wait.
    method Together(policy: Policy) returns (res: Result)
      requires Valid() && kind == ParallelNode(policy)
      modifies repr
      ensures Valid() && repr == old(repr) && children == old(children)
      ensures res == Tick(old(Model())).0 && Model() == Tick(old(Model())).1
      decreases repr, 0, 2
    {
      hide Tick, TickAll, StillWaiting, Answers, Origin, CheckPolicy, Distinct, Ticked;
      ghost var cs, succ0, fail0 := Models(), succ, fail;
      if |children| == 0 {
        NoChildren(Model());
        return Success;
      }
      ParallelTick(policy, cs, waits, succ, fail);
      OriginIs(cs, waits);
      var origin := if |waits| > 0 then waits else seq(|children|, i => i);
      assert origin == Origin(cs, waits) by { SameOrigin(cs, waits); }
      var rest := TickEach(origin);
      TickedAll(cs, Models(), origin, rest, succ - succ0, fail - fail0);
      if |rest| > 0 {
        label L:
        waits := rest;
        SelfOnly@L();
        return Wait;
      }
      res := Policed(policy);
      ResetCounts();
    }

    method Policed(policy: Policy) returns (res: Result)
      ensures res == CheckPolicy(policy, succ, fail)
    {
      match policy {
        case FailOnOne =>
          return if fail > 0 then Fail else Success;
        case FailOnAll =>
          return if succ > 0 then Success else Fail;
      }
    }

    // Ticks the children at these positions: those that have to wait, and the others counted.
    method TickEach(origin: seq<nat>) returns (rest: seq<nat>)
      requires Valid() && Distinct(origin) && forall j :: j in origin ==> j < |children|
      modifies repr
      ensures Valid() && repr == old(repr) && children == old(children) && waits == old(waits)
      ensures succ >= old(succ) && fail >= old(fail)
      ensures Ticked(old(Models()), Models(), origin, rest, succ - old(succ), fail - old(fail))
      decreases repr, 0, 1
    {
      hide Tick, Distinct, Ticked, Model;
      ghost var cs, succ0, fail0 := Models(), succ, fail;
      rest := [];
      TickedNone(cs);
      for k := 0 to |origin|
        invariant Valid() && repr == old(repr) && children == old(children) && waits == old(waits)
        invariant succ >= succ0 && fail >= fail0
        invariant Ticked(cs, Models(), origin[..k], rest, succ - succ0, fail - fail0)
      {
        NotYetTicked(origin, k);
        TickedOne(cs, Models(), origin[..k], rest, succ - succ0, fail - fail0, origin[k]);
        var res := TickChild(origin[k]);
        if res == Wait {
          rest := rest + [origin[k]];
        } else {
          Count(res);
        }
      }
      assert origin[..|origin|] == origin;
    }

    method Count(r: Result)
      requires Valid()
      modifies this`succ, this`fail
      ensures Valid() && Models() == old(Models())
      ensures succ == old(succ) + (if r == Success then 1 else 0) && fail == old(fail) + (if r == Success then 0 else 1)
    {
      if r == Success {
        succ := succ + 1;
      } else {
        fail := fail + 1;
      }
      SelfOnly();
    }

    static lemma SameOrigin(cs: seq<Tree>, waits: seq<nat>)
      ensures Origin(cs, waits) == if |waits| > 0 then waits else seq(|cs|, i => i)
    {}

    // A Loop asks its condition after a success, and starts its child again with the next tick.
    method Repeat(conds: seq<bool>) returns (res: Result)
      requires Valid() && kind == LoopNode(conds)
      modifies repr
      ensures Valid() && repr == old(repr) && children == old(children)
      ensures res == Tick(old(Model())).0 && Model() == Tick(old(Model())).1
      decreases repr, 0, 2
    {
      hide Tick;
      LoopTick(Models()[0], conds, pos);
      res := TickChild(0);
      if res != Success {
        return;
      }
      var again := pos < |conds| && conds[pos];
      label L:
      pos := pos + 1;
      SelfOnly@L();
      return if again then Wait else Success;
    }
  }

  // An If is a Sequence of a condition, which answers at once, and an action.
  method MakeIf(answers: seq<Run>, action: Node) returns (node: Node)
    requires action.Valid() && forall i :: 0 <= i < |answers| ==> answers[i].waits == 0
    ensures node.Valid() && fresh(node.repr - action.repr)
    ensures node.Model() == If(Sequence([Leaf(answers, 0, 0), action.Model()], 0))
  {
    var sequence := MakePair(answers, action);
    node := new Node.Decorate(IfNode, sequence);
  }

  // The Sequence inside an If.
  method MakePair(answers: seq<Run>, action: Node) returns (sequence: Node)
    requires action.Valid() && forall i :: 0 <= i < |answers| ==> answers[i].waits == 0
    ensures sequence.Valid() && fresh(sequence.repr - action.repr)
    ensures sequence.Model() == Sequence([Leaf(answers, 0, 0), action.Model()], 0)
  {
    ghost var body := action.Model();
    sequence := new Node(SequenceNode);
    var condition := new Node(ActionNode(answers));
    assert condition.Model() == Leaf(answers, 0, 0);
    hide Node.Model;
    sequence.AddChild(condition);
    assert sequence.Models() == [Leaf(answers, 0, 0)];
    sequence.AddChild(action);
    SequenceModel(sequence);
  }

  lemma SequenceModel(node: Node)
    requires node.Valid() && node.kind == SequenceNode
    ensures node.Model() == Sequence(node.Models(), node.index)
  {}
}
