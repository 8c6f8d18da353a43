/**
The binary heap of the scheduler: an array with a tail position, the earliest entry at the front.
*/
module PriorityQueues {
  import opened Options

  datatype Entry = Entry(id: nat, time: int)

  predicate Compare(a: Entry, b: Entry) {
    a.time > b.time
  }

  function Parent(i: nat): (p: nat)
    requires 0 < i
    ensures p < i && (i == 2 * p + 1 || i == 2 * p + 2)
  {
    if i % 2 == 0 then i / 2 - 1 else (i - 1) / 2
  }

  // No entry of q[..n] is before its parent.
  predicate Heap(q: seq<Entry>, n: nat)
    requires n <= |q|
  {
    forall i :: 0 < i < n ==> q[Parent(i)].time <= q[i].time
  }

  lemma {:induction false} HeapMinimum(q: seq<Entry>, n: nat, i: nat)
    requires i < n <= |q| && Heap(q, n)
    ensures q[0].time <= q[i].time
  {
    if i > 0 {
      HeapMinimum(q, n, Parent(i));
    }
  }

  // A heap but for the entry at p, which may be before its parent.
  ghost predicate Rising(q: seq<Entry>, n: nat, p: nat)
    requires n <= |q|
  {
    && (forall i :: 0 < i < n && i != p ==> q[Parent(i)].time <= q[i].time)
    && (0 < p < n ==> forall i :: 0 < i < n && Parent(i) == p ==> q[Parent(p)].time <= q[i].time)
  }

  // A heap but for the entry at p, which may be after its children.
  ghost predicate Sinking(q: seq<Entry>, n: nat, p: nat)
    requires n <= |q|
  {
    && (forall i :: 0 < i < n && Parent(i) != p ==> q[Parent(i)].time <= q[i].time)
    && (0 < p < n ==> forall i :: 0 < i < n && Parent(i) == p ==> q[Parent(p)].time <= q[i].time)
  }

  ghost function Bag(q: seq<Entry>, n: nat): multiset<Entry>
    requires n <= |q|
  {
    multiset(q[..n])
  }

  function Swap(q: seq<Entry>, i: nat, j: nat): (r: seq<Entry>)
    requires i < |q| && j < |q|
    ensures |r| == |q| && r[j] == q[i]
  {
    q[i := q[j]][j := q[i]]
  }

  lemma SwapKeeps(q: seq<Entry>, n: nat, i: nat, j: nat)
    requires i < n <= |q| && j < n && i != j
    ensures Bag(Swap(q, i, j), n) == Bag(q, n)
  {
    var s := q[..n];
    assert Swap(q, i, j)[..n] == s[i := s[j]][j := s[i]];
  }

  lemma RiseDone(q: seq<Entry>, n: nat, p: nat)
    requires p < n <= |q| && Rising(q, n, p) && (p > 0 ==> !Compare(q[Parent(p)], q[p]))
    ensures Heap(q, n)
  {}

  lemma Rise(q: seq<Entry>, n: nat, p: nat)
    requires 0 < p < n <= |q| && Rising(q, n, p) && Compare(q[Parent(p)], q[p])
    ensures Rising(Swap(q, p, Parent(p)), n, Parent(p))
  {
    var r := Swap(q, p, Parent(p));
    forall i | 0 < i < n && i != Parent(p)
      ensures r[Parent(i)].time <= r[i].time
    {
      if Parent(i) == Parent(p) && i != p {
        assert q[Parent(i)].time <= q[i].time;
      }
    }
  }

  lemma Sink(q: seq<Entry>, n: nat, p: nat, c: nat)
    requires 0 < c < n <= |q| && Parent(c) == p && Sinking(q, n, p) && Compare(q[p], q[c])
    requires forall i :: 0 < i < n && Parent(i) == p ==> q[c].time <= q[i].time
    ensures Sinking(Swap(q, p, c), n, c)
  {
    var r := Swap(q, p, c);
    forall i | 0 < i < n && Parent(i) != c
      ensures r[Parent(i)].time <= r[i].time
    {
      if i == p {
        assert q[Parent(p)].time <= q[c].time;
      }
    }
  }

  lemma Children(p: nat, i: nat)
    requires 0 < i
    ensures Parent(i) == p <==> i == 2 * p + 1 || i == 2 * p + 2
  {}

  lemma SinkRight(q: seq<Entry>, n: nat, p: nat)
    requires 2 * p + 2 < n <= |q| && Sinking(q, n, p)
    requires Compare(q[2 * p + 1], q[2 * p + 2]) && Compare(q[p], q[2 * p + 2])
    ensures Sinking(Swap(q, p, 2 * p + 2), n, 2 * p + 2)
  {
    hide Sinking, Parent, Swap;
    Children(p, 2 * p + 2);
    forall i: nat | 0 < i < n && Parent(i) == p
      ensures q[2 * p + 2].time <= q[i].time
    {
      Children(p, i);
    }
    Sink(q, n, p, 2 * p + 2);
  }

  lemma SinkLeft(q: seq<Entry>, n: nat, p: nat)
    requires 2 * p + 1 < n <= |q| && Sinking(q, n, p)
    requires Compare(q[p], q[2 * p + 1])
    requires !(2 * p + 2 < n && Compare(q[2 * p + 1], q[2 * p + 2]) && Compare(q[p], q[2 * p + 2]))
    ensures Sinking(Swap(q, p, 2 * p + 1), n, 2 * p + 1)
  {
    hide Sinking, Parent, Swap;
    Children(p, 2 * p + 1);
    forall i: nat | 0 < i < n && Parent(i) == p
      ensures q[2 * p + 1].time <= q[i].time
    {
      Children(p, i);
    }
    Sink(q, n, p, 2 * p + 1);
  }

  lemma SinkDone(q: seq<Entry>, n: nat, p: nat)
    requires n <= |q| && p < |q| && Sinking(q, n, p)
    requires 2 * p + 1 < n ==> !Compare(q[p], q[2 * p + 1])
    requires !(2 * p + 2 < n && Compare(q[2 * p + 1], q[2 * p + 2]) && Compare(q[p], q[2 * p + 2]))
    ensures Heap(q, n)
  {
    hide Parent;
    forall i: nat | 0 < i < n
      ensures q[Parent(i)].time <= q[i].time
    {
      Children(p, i);
    }
  }

  class PriorityQueue {
    var queue: seq<Entry>
    var tailPos: nat

    ghost predicate Valid()
      reads this
    {
      tailPos <= |queue| && Heap(queue, tailPos)
    }

    ghost function Contents(): multiset<Entry>
      requires Valid()
      reads this
    {
      Bag(queue, tailPos)
    }

    constructor ()
      ensures Valid() && Contents() == multiset{}
    {
      queue, tailPos := [], 0;
    }

    function Size(): (n: nat)
      requires Valid()
      reads this
      ensures n == 0 <==> Contents() == multiset{}
    {
      tailPos
    }

    function Peek(): (head: Option<Entry>)
      requires Valid()
      reads this
      ensures head.None? <==> Contents() == multiset{}
      ensures head.Some? ==> head.value in Contents()
      ensures head.Some? ==> forall e :: e in Contents() ==> head.value.time <= e.time
    {
      if tailPos == 0 then None
      else
        FrontIsLeast(queue, tailPos);
        Some(queue[0])
    }

    method Offer(element: Entry)
      requires Valid()
      modifies this
      ensures Valid()
      ensures Contents() == old(Contents()) + multiset{element}
      ensures old(Peek()).Some? && !Compare(old(Peek()).value, element) ==> Peek() == old(Peek())
    {
      hide Rising, Heap, Bag, Swap;
      ghost var before := queue;
      // positions past the tail keep what pop left in them
      queue := if tailPos < |queue| then queue[tailPos := element] else queue + [element];
      tailPos := tailPos + 1;
      Added(before, queue, tailPos, element);
      var pos: nat := tailPos - 1;
      while pos > 0
        invariant pos < tailPos <= |queue| && tailPos == old(tailPos) + 1
        invariant queue[pos] == element && Rising(queue, tailPos, pos)
        invariant Bag(queue, tailPos) == Bag(before, old(tailPos)) + multiset{element}
        invariant tailPos > 1 && !Compare(before[0], element) ==> pos > 0 && queue[0] == before[0]
      {
        var parentPos := if pos % 2 == 0 then pos / 2 - 1 else (pos - 1) / 2;
        if Compare(queue[parentPos], element) {
          Rise(queue, tailPos, pos);
          SwapKeeps(queue, tailPos, pos, parentPos);
          Exchanged(queue, pos, parentPos);
          queue := queue[pos := queue[parentPos]];
          queue := queue[parentPos := element];
          pos := parentPos;
        } else {
          break;
        }
      }
      RiseDone(queue, tailPos, pos);
    }

    method Pop() returns (head: Option<Entry>)
      requires Valid()
      modifies this
      ensures Valid()
      ensures head == old(Peek())
      ensures Contents() == old(Contents()) - if head.None? then multiset{} else multiset{head.value}
    {
      hide Sinking, Heap, Bag, Swap;
      if tailPos == 0 {
        return None;
      }
      ghost var before, n := queue, tailPos;
      var headNode := queue[0];
      var tail := queue[tailPos - 1];
      var pos: nat := 0;
      var left := pos * 2 + 1;
      var right := left + 1;
      queue := queue[pos := tail];
      tailPos := tailPos - 1;
      Removed(before, n);
      while left < tailPos
        invariant tailPos == n - 1 && |queue| == |before| && left == pos * 2 + 1 && right == left + 1
        invariant pos < |queue| && queue[pos] == tail && Sinking(queue, tailPos, pos)
        invariant Bag(queue, tailPos) == Bag(before, n) - multiset{headNode}
        decreases tailPos - pos
      {
        if right < tailPos && Compare(queue[left], queue[right]) && Compare(queue[pos], queue[right]) {
          SinkRight(queue, tailPos, pos);
          SwapKeeps(queue, tailPos, pos, right);
          Exchanged(queue, pos, right);
          queue := queue[pos := queue[right]];
          queue := queue[right := tail];
          pos := right;
        } else if Compare(queue[pos], queue[left]) {
          SinkLeft(queue, tailPos, pos);
          SwapKeeps(queue, tailPos, pos, left);
          Exchanged(queue, pos, left);
          queue := queue[pos := queue[left]];
          queue := queue[left := tail];
          pos := left;
        } else {
          break;
        }
        left := pos * 2 + 1;
        right := left + 1;
      }
      SinkDone(queue, tailPos, pos);
      return Some(headNode);
    }
  }

  lemma FrontIsLeast(q: seq<Entry>, n: nat)
    requires 0 < n <= |q| && Heap(q, n)
    ensures q[0] in Bag(q, n)
    ensures forall e :: e in Bag(q, n) ==> q[0].time <= e.time
  {
    assert q[..n][0] in q[..n];
    forall e | e in Bag(q, n)
      ensures q[0].time <= e.time
    {
      var i: nat :| i < n && q[..n][i] == e;
      HeapMinimum(q, n, i);
    }
  }

  // The two assignments of an exchange.
  lemma Exchanged(q: seq<Entry>, i: nat, j: nat)
    requires i < |q| && j < |q|
    ensures q[i := q[j]][j := q[i]] == Swap(q, i, j)
  {}

  lemma Added(q: seq<Entry>, r: seq<Entry>, n: nat, e: Entry)
    requires 0 < n <= |q| + 1 && Heap(q, n - 1)
    requires r == if n - 1 < |q| then q[n - 1 := e] else q + [e]
    ensures Bag(r, n) == Bag(q, n - 1) + multiset{e}
    ensures Rising(r, n, n - 1)
  {
    assert r[..n] == q[..n - 1] + [e];
  }

  // The last entry moved to the front and the tail dropped.
  lemma Removed(q: seq<Entry>, n: nat)
    requires 0 < n <= |q| && Heap(q, n)
    ensures Bag(q[0 := q[n - 1]], n - 1) == Bag(q, n) - multiset{q[0]}
    ensures Sinking(q[0 := q[n - 1]], n - 1, 0)
  {
    assert q[..n] == q[..n - 1] + [q[n - 1]];
    if n > 1 {
      assert q[0 := q[n - 1]][..n - 1] == q[..n - 1][0 := q[n - 1]];
    }
  }
}
