/**
Weighted round-robin: a level that goes down, and at each level the servers of that weight.
*/
module WeightedRoundRobins {
  import opened Options

  // The greatest positive weight, or -1.
  function MaxWeight(w: seq<int>): (m: int)
    ensures m == -1 || m > 0
    ensures forall i :: 0 <= i < |w| ==> w[i] <= m || w[i] <= 0
    ensures m > 0 ==> exists i :: 0 <= i < |w| && w[i] == m
  {
    if w == [] then -1
    else
      var n := |w| - 1;
      var m := MaxWeight(w[..n]);
      if w[n] > 0 && w[n] > m then w[n] else m
  }

  // The level at which server i is tried: it goes down on the way past the end of the list.
  function Level(w: seq<int>, i: nat, weight: int): int {
    if i > 0 then weight else if weight - 1 <= 0 then MaxWeight(w) else weight - 1
  }

  predicate FoundFrom(w: seq<int>, i: nat, level: int) {
    exists j :: i <= j < |w| && w[j] >= level
  }

  function Rounds(w: seq<int>, i: nat, weight: int): nat {
    var level := Level(w, i, weight);
    if FoundFrom(w, i, level) || (i == 0 && level <= 0) then 0
    else if level > MaxWeight(w) then 1 + level - MaxWeight(w)
    else 1
  }

  // The position after i, around the end.
  function Next(i: nat, n: nat): (next: nat)
    requires i < n
    ensures next < n
  {
    if i + 1 == n then 0 else i + 1
  }

  // Trying server i first: the server that is picked and its level, or None without a positive weight.
  function Probe(w: seq<int>, i: nat, weight: int): (pick: Option<(nat, int)>)
    requires i < |w|
    ensures pick.Some? ==> pick.value.0 < |w| && pick.value.1 <= w[pick.value.0]
    decreases Rounds(w, i, weight), |w| - i
  {
    var level := Level(w, i, weight);
    if i == 0 && level <= 0 then None
    else if w[i] >= level then Some((i, level))
    else
      Fewer(w, i, weight);
      Probe(w, Next(i, |w|), level)
  }

  lemma Fewer(w: seq<int>, i: nat, weight: int)
    requires i < |w| && !(i == 0 && Level(w, i, weight) <= 0) && w[i] < Level(w, i, weight)
    ensures var next := Next(i, |w|);
            Rounds(w, next, Level(w, i, weight)) < Rounds(w, i, weight)
            || (Rounds(w, next, Level(w, i, weight)) == Rounds(w, i, weight) && next > i)
  {
    var level := Level(w, i, weight);
    var m := MaxWeight(w);
    if i + 1 < |w| {
      assert FoundFrom(w, i + 1, level) <==> FoundFrom(w, i, level);
    } else {
      assert !FoundFrom(w, i, level);
      if m > 0 {
        var j :| 0 <= j < |w| && w[j] == m;
        assert Level(w, 0, level) <= m ==> FoundFrom(w, 0, Level(w, 0, level));
      }
    }
  }

  /* ---------- one cycle of picks ---------- */

  // The picks of one level from server i on.
  function AtLevel(w: seq<int>, i: nat, level: int): seq<(nat, int)>
    requires i <= |w|
    decreases |w| - i
  {
    if i == |w| then []
    else (if w[i] >= level then [(i, level)] else []) + AtLevel(w, i + 1, level)
  }

  // The picks of the levels down from this one.
  function Cycle(w: seq<int>, level: nat): seq<(nat, int)> {
    if level == 0 then [] else AtLevel(w, 0, level) + Cycle(w, level - 1)
  }

  // How often server i is picked.
  function Count(picks: seq<(nat, int)>, i: nat): nat {
    if picks == [] then 0 else (if picks[0].0 == i then 1 else 0) + Count(picks[1..], i)
  }

  // n picks one after the other, the first tried at server i.
  function Picks(w: seq<int>, i: nat, weight: int, n: nat): seq<(nat, int)>
    requires i < |w|
    decreases n
  {
    if n == 0 then []
    else
      match Probe(w, i, weight)
      case None => []
      case Some(p) => [p] + Picks(w, Next(p.0, |w|), p.1, n - 1)
  }

  // What is left of the cycle when server i is tried at this level.
  function Left(w: seq<int>, i: nat, level: nat): seq<(nat, int)>
    requires i <= |w| && level > 0
  {
    AtLevel(w, i, level) + Cycle(w, level - 1)
  }

  function Full(w: seq<int>): seq<(nat, int)> {
    if MaxWeight(w) > 0 then Cycle(w, MaxWeight(w)) else []
  }

  // A state between two picks, or before the first one.
  predicate OnCycle(w: seq<int>, i: nat, weight: int) {
    i < |w| && 1 <= Level(w, i, weight) <= MaxWeight(w)
  }

  // What comes next: what is left of the cycle, or the whole cycle if nothing is left.
  function Coming(w: seq<int>, i: nat, weight: int): seq<(nat, int)>
    requires OnCycle(w, i, weight)
  {
    var left := Left(w, i, Level(w, i, weight));
    if left == [] then Full(w) else left
  }

  lemma {:induction false} AtLevelFinds(w: seq<int>, i: nat, level: int)
    requires i <= |w|
    ensures AtLevel(w, i, level) == [] <==> !FoundFrom(w, i, level)
    decreases |w| - i
  {
    if i < |w| {
      AtLevelFinds(w, i + 1, level);
      assert FoundFrom(w, i, level) <==> w[i] >= level || FoundFrom(w, i + 1, level);
    }
  }

  lemma FullStarts(w: seq<int>)
    requires MaxWeight(w) > 0
    ensures Full(w) == Left(w, 0, MaxWeight(w)) && Full(w) != []
  {
    var j :| 0 <= j < |w| && w[j] == MaxWeight(w);
    assert FoundFrom(w, 0, MaxWeight(w));
    AtLevelFinds(w, 0, MaxWeight(w));
  }

  // After server i - 1 was tried, past the end of the list at the next level or at the greatest weight.
  lemma ComingAfter(w: seq<int>, i: nat, level: nat)
    requires 0 < i <= |w| && 1 <= level <= MaxWeight(w)
    ensures var next := if i == |w| then 0 else i;
            OnCycle(w, next, level) && Coming(w, next, level) == OrFull(w, Left(w, i, level))
  {
    FullStarts(w);
    if i == |w| && level > 1 {
      assert Left(w, i, level) == Left(w, 0, level - 1);
    }
  }

  function OrFull(w: seq<int>, left: seq<(nat, int)>): seq<(nat, int)> {
    if left == [] then Full(w) else left
  }

  lemma LeftSteps(w: seq<int>, i: nat, level: nat)
    requires i < |w| && level > 0
    ensures Left(w, i, level) == (if w[i] >= level then [(i, level)] else []) + Left(w, i + 1, level)
  {}

  // The next pick is the first of what is coming, and what is coming then is the rest.
  lemma {:induction false} ProbeIsNext(w: seq<int>, i: nat, weight: int)
    requires OnCycle(w, i, weight)
    ensures Coming(w, i, weight) != []
    ensures Probe(w, i, weight) == Some(Coming(w, i, weight)[0])
    ensures ComesThen(w, i, weight)
    decreases Rounds(w, i, weight), |w| - i
  {
    var level := Level(w, i, weight);
    hide Rounds, MaxWeight, FoundFrom, Probe, Coming, Left, Full, Level, OnCycle, OrFull;
    ComingStep(w, i, weight);
    FewerOnCycle(w, i, weight);
    ProbeOnce(w, i, weight);
    if w[i] < level {
      ProbeIsNext(w, Next(i, |w|), level);
    } else {
      assert Coming(w, i, weight)[1..] == Left(w, i + 1, level);
    }
  }

  // What is coming before and after server i is tried.
  lemma ComingStep(w: seq<int>, i: nat, weight: int)
    requires OnCycle(w, i, weight)
    ensures i < |w| && Level(w, i, weight) > 0 && OnCycle(w, Next(i, |w|), Level(w, i, weight))
    ensures var level, next := Level(w, i, weight), Next(i, |w|);
            if w[i] < level then Coming(w, i, weight) == Coming(w, next, level)
            else
              && Coming(w, i, weight) == [(i, level)] + Left(w, i + 1, level)
              && Coming(w, next, level) == OrFull(w, Left(w, i + 1, level))
  {
    var level := Level(w, i, weight);
    hide MaxWeight, Rounds, Full;
    LeftSteps(w, i, level);
    ComingAfter(w, i + 1, level);
    hide Left, Level, OnCycle;
  }

  lemma ProbeOnce(w: seq<int>, i: nat, weight: int)
    requires OnCycle(w, i, weight)
    ensures var level := Level(w, i, weight);
            Probe(w, i, weight) == if w[i] >= level then Some((i, level)) else Probe(w, Next(i, |w|), level)
  {
    hide MaxWeight, Rounds;
  }

  lemma FewerOnCycle(w: seq<int>, i: nat, weight: int)
    requires OnCycle(w, i, weight)
    ensures var level := Level(w, i, weight);
            w[i] < level ==>
              var next := Next(i, |w|);
              Rounds(w, next, level) < Rounds(w, i, weight) ||
                  (Rounds(w, next, level) == Rounds(w, i, weight) && next > i)
  {
    if w[i] < Level(w, i, weight) {
      Fewer(w, i, weight);
    }
  }

  ghost predicate ComesThen(w: seq<int>, i: nat, weight: int)
    requires OnCycle(w, i, weight) && Coming(w, i, weight) != []
  {
    var p := Coming(w, i, weight)[0];
    && p.0 < |w| && OnCycle(w, Next(p.0, |w|), p.1)
    && Coming(w, Next(p.0, |w|), p.1) == OrFull(w, Coming(w, i, weight)[1..])
  }

  // The picks go through what is left of the cycle and then through the cycle again.
  lemma {:induction false} PicksFollow(w: seq<int>, i: nat, weight: int, n: nat)
    requires OnCycle(w, i, weight) && n <= |Coming(w, i, weight)| + |Full(w)|
    ensures Picks(w, i, weight, n) == (Coming(w, i, weight) + Full(w))[..n]
    decreases n
  {
    hide OnCycle, Coming, Full, Probe;
    if n > 0 {
      ProbeIsNext(w, i, weight);
      var coming, full := Coming(w, i, weight), Full(w);
      PicksFollow(w, Next(coming[0].0, |w|), coming[0].1, n - 1);
      TakeOne(coming, full, n);
    }
  }

  lemma TakeOne(coming: seq<(nat, int)>, full: seq<(nat, int)>, n: nat)
    requires coming != [] && 0 < n <= |coming| + |full|
    ensures (coming + full)[..n] == [coming[0]] + ((if coming[1..] == [] then full else coming[1..]) + full)[..n - 1]
  {
    if coming[1..] == [] {
      assert coming == [coming[0]];
    }
  }

  /* ---------- fairness ---------- */

  lemma {:induction false} CountBoth(a: seq<(nat, int)>, b: seq<(nat, int)>, i: nat)
    ensures Count(a + b, i) == Count(a, i) + Count(b, i)
  {
    if a == [] {
      assert a + b == b;
    } else {
      CountBoth(a[1..], b, i);
      assert (a + b)[1..] == a[1..] + b;
    }
  }

  lemma {:induction false} CountAtLevel(w: seq<int>, from: nat, level: int, i: nat)
    requires from <= |w|
    ensures Count(AtLevel(w, from, level), i) == if from <= i < |w| && w[i] >= level then 1 else 0
    decreases |w| - from
  {
    if from < |w| {
      CountAtLevel(w, from + 1, level, i);
      var first: seq<(nat, int)> := if w[from] >= level then [(from, level)] else [];
      CountBoth(first, AtLevel(w, from + 1, level), i);
    }
  }

  function AtMost(x: int, level: nat): nat {
    if x <= 0 then 0 else if x < level then x else level
  }

  lemma {:induction false} CountCycle(w: seq<int>, level: nat, i: nat)
    requires i < |w|
    ensures Count(Cycle(w, level), i) == AtMost(w[i], level)
  {
    if level > 0 {
      CountCycle(w, level - 1, i);
      CountAtLevel(w, 0, level, i);
      CountBoth(AtLevel(w, 0, level), Cycle(w, level - 1), i);
    }
  }

  function Sum(w: seq<int>): int {
    if w == [] then 0 else w[0] + Sum(w[1..])
  }

  function SumAtMost(w: seq<int>, from: nat, level: nat): nat
    requires from <= |w|
    decreases |w| - from
  {
    if from == |w| then 0 else AtMost(w[from], level) + SumAtMost(w, from + 1, level)
  }

  lemma {:induction false} AtLevelLength(w: seq<int>, from: nat, level: nat)
    requires from <= |w| && level > 0
    ensures SumAtMost(w, from, level) == SumAtMost(w, from, level - 1) + |AtLevel(w, from, level)|
    decreases |w| - from
  {
    if from < |w| {
      AtLevelLength(w, from + 1, level);
    }
  }

  lemma {:induction false} CycleLength(w: seq<int>, level: nat)
    ensures |Cycle(w, level)| == SumAtMost(w, 0, level)
  {
    if level > 0 {
      CycleLength(w, level - 1);
      AtLevelLength(w, 0, level);
    } else {
      SumAtZero(w, 0);
    }
  }

  lemma {:induction false} SumAtZero(w: seq<int>, from: nat)
    requires from <= |w|
    ensures SumAtMost(w, from, 0) == 0
    decreases |w| - from
  {
    if from < |w| {
      SumAtZero(w, from + 1);
    }
  }

  lemma {:induction false} SumIsAll(w: seq<int>, from: nat, level: nat)
    requires from <= |w| && forall i :: 0 <= i < |w| ==> 0 <= w[i] <= level
    ensures SumAtMost(w, from, level) == Sum(w[from..])
    decreases |w| - from
  {
    if from < |w| {
      SumIsAll(w, from + 1, level);
      assert w[from..][1..] == w[from + 1..];
    }
  }

  // What comes before server i at this level, in the cycle from the given level down.
  function Before(w: seq<int>, i: nat, level: nat, top: nat): seq<(nat, int)>
    requires i <= |w| && 0 < level <= top
    decreases top
  {
    if level == top then BeforeAt(w, i, level) else AtLevel(w, 0, top) + Before(w, i, level, top - 1)
  }

  function BeforeAt(w: seq<int>, i: nat, level: int): seq<(nat, int)>
    requires i <= |w|
  {
    if i == 0 then [] else BeforeAt(w, i - 1, level) + (if w[i - 1] >= level then [(i - 1, level)] else [])
  }

  lemma {:induction false} SplitAt(w: seq<int>, i: nat, level: int)
    requires i <= |w|
    ensures AtLevel(w, 0, level) == BeforeAt(w, i, level) + AtLevel(w, i, level)
  {
    if i > 0 {
      SplitAt(w, i - 1, level);
    }
  }

  lemma {:induction false} SplitCycle(w: seq<int>, i: nat, level: nat, top: nat)
    requires i <= |w| && 0 < level <= top
    ensures Cycle(w, top) == Before(w, i, level, top) + Left(w, i, level)
    decreases top
  {
    if level == top {
      SplitAt(w, i, level);
    } else {
      SplitCycle(w, i, level, top - 1);
    }
  }

  // What is coming is the end of the cycle.
  lemma ComingIsEnd(w: seq<int>, i: nat, weight: int) returns (before: seq<(nat, int)>)
    requires OnCycle(w, i, weight)
    ensures Full(w) == before + Coming(w, i, weight)
  {
    var level := Level(w, i, weight);
    SplitCycle(w, i, level, MaxWeight(w));
    if Left(w, i, level) == [] {
      before := [];
    } else {
      before := Before(w, i, level, MaxWeight(w));
    }
  }

  // As many picks as the sum of the weights, from any point on, pick each server as often as its weight.
  lemma Fair(w: seq<int>, from: nat, weight: int, i: nat)
    requires OnCycle(w, from, weight) && i < |w| && forall j :: 0 <= j < |w| ==> w[j] >= 0
    ensures Sum(w) >= 0 && |Picks(w, from, weight, Sum(w))| == Sum(w)
    ensures Count(Picks(w, from, weight, Sum(w)), i) == w[i]
  {
    hide Coming, Level, MaxWeight, Picks, Cycle, Count, Sum, SumAtMost;
    var coming, full := Coming(w, from, weight), Full(w);
    var before := ComingIsEnd(w, from, weight);
    CycleLength(w, MaxWeight(w));
    SumIsAll(w, 0, MaxWeight(w));
    assert w[0..] == w;
    assert |full| == Sum(w);
    PicksFollow(w, from, weight, |full|);
    assert (coming + full)[..|full|] == coming + before;
    CountBoth(coming, before, i);
    CountBoth(before, coming, i);
    CountCycle(w, MaxWeight(w), i);
  }

  // The first call is on the cycle.
  lemma FirstOnCycle(w: seq<int>)
    requires MaxWeight(w) > 0
    ensures OnCycle(w, After(-1, |w|), 0)
  {
    assert |w| > 0;
    hide MaxWeight, Rounds, Probe;
    assert After(-1, |w|) == 0;
    assert Level(w, 0, 0) == MaxWeight(w);
  }

  // The first call picks the first of the servers with the greatest weight.
  lemma FirstIsHeaviest(w: seq<int>)
    requires w != []
    ensures var pick := Probe(w, After(-1, |w|), 0);
            if MaxWeight(w) <= 0 then pick == None
            else
              && pick.Some? && w[pick.value.0] == MaxWeight(w) == pick.value.1
              && forall i :: 0 <= i < pick.value.0 ==> w[i] < MaxWeight(w)
  {
    hide MaxWeight, Rounds, Probe;
    assert After(-1, |w|) == 0 && Level(w, 0, 0) == MaxWeight(w);
    if MaxWeight(w) > 0 {
      FoundAtLevel(w, 0, 0);
    } else {
      NoneAtZero(w);
    }
  }

  lemma NoneAtZero(w: seq<int>)
    requires w != [] && Level(w, 0, 0) <= 0
    ensures Probe(w, 0, 0) == None
  {
    hide MaxWeight, Level, Rounds;
  }

  lemma {:induction false} FoundAtLevel(w: seq<int>, i: nat, weight: int)
    requires i < |w| && Level(w, i, weight) > 0 && FoundFrom(w, i, Level(w, i, weight))
    ensures var pick := Probe(w, i, weight);
            && pick.Some? && pick.value.1 == Level(w, i, weight) && i <= pick.value.0
            && w[pick.value.0] >= Level(w, i, weight)
            && forall k :: i <= k < pick.value.0 ==> w[k] < Level(w, i, weight)
    decreases |w| - i
  {
    hide MaxWeight, Rounds;
    var level := Level(w, i, weight);
    if w[i] < level {
      Fewer(w, i, weight);
      assert Level(w, i + 1, level) == level;
      FoundAtLevel(w, i + 1, level);
    }
  }

  // So is every call after a pick, whatever the list and the weights were before it.
  lemma {:induction false} PickOnCycle(w: seq<int>, i: nat, weight: int)
    requires i < |w| && (i > 0 ==> weight >= 1)
    ensures Probe(w, i, weight).None? ==> MaxWeight(w) <= 0
    ensures MaxWeight(w) > 0 ==> Probe(w, i, weight).Some?
    ensures Probe(w, i, weight).Some? ==>
              OnCycle(w, Next(Probe(w, i, weight).value.0, |w|), Probe(w, i, weight).value.1)
    decreases Rounds(w, i, weight), |w| - i
  {
    var level := Level(w, i, weight);
    if !(i == 0 && level <= 0) && w[i] < level {
      Fewer(w, i, weight);
      PickOnCycle(w, Next(i, |w|), level);
    }
  }

  /* ---------- the route ---------- */

  datatype Route = NoServers | InvalidWeight | Server(id: string)

  function WeightsOf(weights: map<string, int>, servers: seq<string>): (w: seq<int>)
    requires forall id :: id in servers ==> id in weights
    ensures |w| == |servers|
  {
    seq(|servers|, i requires 0 <= i < |servers| => weights[servers[i]])
  }

  // The server is in the list, and none before it is as heavy and none after it heavier.
  ghost predicate FirstHeaviest(weights: map<string, int>, servers: seq<string>, id: string)
    requires forall s :: s in servers ==> s in weights
  {
    exists k :: 0 <= k < |servers| && servers[k] == id
      && (forall i :: 0 <= i < k ==> weights[servers[i]] < weights[id])
      && (forall i :: 0 <= i < |servers| ==> weights[servers[i]] <= weights[id])
  }

  lemma PickedFirst(weights: map<string, int>, servers: seq<string>)
    requires servers != [] && forall s :: s in servers ==> s in weights
    ensures var pick := Probe(WeightsOf(weights, servers), After(-1, |servers|), 0);
            pick.Some? ==> FirstHeaviest(weights, servers, servers[pick.value.0])
  {
    var w := WeightsOf(weights, servers);
    FirstIsHeaviest(w);
    hide Probe, After, WeightsOf, MaxWeight;
    var pick := Probe(w, After(-1, |servers|), 0);
    WeightsAt(weights, servers);
    if pick.Some? {
      var k := pick.value.0;
      forall i | 0 <= i < |servers|
        ensures weights[servers[i]] <= weights[servers[k]]
      {
        assert w[i] <= MaxWeight(w);
      }
    }
  }

  lemma WeightsAt(weights: map<string, int>, servers: seq<string>)
    requires forall s :: s in servers ==> s in weights
    ensures forall i :: 0 <= i < |servers| ==> WeightsOf(weights, servers)[i] == weights[servers[i]]
  {}

  class Client {
    // The servers of each type, and the weight of each server; a server without one counts as 0.
    var serversMap: map<string, seq<string>>
    var weights: map<string, int>
    // The index and the weight after the last pick.
    var wrrParam: map<string, (nat, int)>

    constructor (serversMap: map<string, seq<string>>, weights: map<string, int>)
      ensures this.serversMap == serversMap && this.weights == weights && wrrParam == map[]
    {
      this.serversMap, this.weights, wrrParam := serversMap, weights, map[];
    }

    method GetMaxWeight(servers: seq<string>) returns (max: int)
      requires forall id :: id in servers ==> id in weights
      ensures max == MaxWeight(WeightsOf(weights, servers))
    {
      ghost var w := WeightsOf(weights, servers);
      max := -1;
      for i := 0 to |servers|
        invariant max == MaxWeight(w[..i])
      {
        var weight := weights[servers[i]];
        assert w[..i + 1][..i] == w[..i];
        max := if weight != 0 && weight > max then weight else max;
      }
      assert w[..|servers|] == w;
    }

    // The index and the weight after the last pick; -1 and 0 before the first one.
    function Last(serverType: string): (last: (int, int))
      reads this`wrrParam
      ensures last.0 >= -1
    {
      var index: int := if serverType in wrrParam then wrrParam[serverType].0 else -1;
      (index, if serverType in wrrParam then wrrParam[serverType].1 else 0)
    }

    // The loop: goes on from the index after the last pick until a server has the weight that is asked for.
    method Pick(servers: seq<string>, lastIndex: int, lastWeight: int) returns (pick: Option<(nat, int)>)
      requires servers != [] && lastIndex >= -1 && forall id :: id in servers ==> id in weights
      ensures pick == Probe(WeightsOf(weights, servers), After(lastIndex, |servers|), lastWeight)
    {
      hide MaxWeight, Rounds;
      ghost var w := WeightsOf(weights, servers);
      var index, weight := lastIndex, lastWeight;
      ghost var next := After(index, |servers|);
      ghost var first := next;
      while true
        invariant index >= -1 && next == After(index, |servers|)
        invariant Probe(w, next, weight) == Probe(w, first, lastWeight)
        decreases Rounds(w, next, weight), |servers| - next
      {
        ghost var before := weight;
        index := (index + 1) % |servers|;
        if index == 0 {
          weight := weight - 1;
          if weight <= 0 {
            weight := GetMaxWeight(servers);
            if weight <= 0 {
              return None;
            }
          }
        }
        assert w[index] == weights[servers[index]];
        if weights[servers[index]] >= weight {
          return Some((index, weight));
        }
        Fewer(w, index, before);
        Around(index, |servers|);
        next := Next(index, |servers|);
      }
    }

    method WrrRoute(serverType: string) returns (route: Route)
      requires serverType in serversMap ==> forall id :: id in serversMap[serverType] ==> id in weights
      modifies this`wrrParam
      ensures serverType !in serversMap || serversMap[serverType] == [] ==>
                route == NoServers && wrrParam == old(wrrParam)
      ensures serverType in serversMap && serversMap[serverType] != [] ==>
                (var servers := serversMap[serverType];
                 var last := old(Last(serverType));
                 match Probe(WeightsOf(weights, servers), After(last.0, |servers|), last.1)
                 case None => route == InvalidWeight && wrrParam == old(wrrParam)
                 case Some(p) => route == Server(servers[p.0]) && wrrParam == old(wrrParam)[serverType := p])
      ensures serverType !in old(wrrParam) && serverType in serversMap && route.Server? ==>
                FirstHeaviest(weights, serversMap[serverType], route.id)
    {
      if serverType !in serversMap || |serversMap[serverType]| == 0 {
        return NoServers;
      }
      hide Probe, WeightsOf, After, FirstHeaviest;
      var servers := serversMap[serverType];
      var index: int, weight := -1, 0;
      if serverType in wrrParam {
        index, weight := wrrParam[serverType].0, wrrParam[serverType].1;
      } else {
        PickedFirst(weights, servers);
      }
      var pick := Pick(servers, index, weight);
      if pick.None? {
        return InvalidWeight;
      }
      wrrParam := wrrParam[serverType := pick.value];
      return Server(servers[pick.value.0]);
    }
  }

  // The position that follows the last one, which may be past the end of a shorter list.
  function After(last: int, n: nat): (next: nat)
    requires last >= -1 && n > 0
    ensures next < n
  {
    (last + 1) % n
  }

  lemma Around(i: nat, n: nat)
    requires i < n
    ensures After(i, n) == Next(i, n)
  {}
}
