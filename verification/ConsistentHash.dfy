/**
The hash ring: a key belongs to the node of the greatest point at or below its hash, or of the last.
*/
module ConsistentHashes {
  import opened Options

  // The owner of each point.
  type Ring = map<nat, string>

  // k is the point of the ring that the hash h belongs to.
  ghost predicate Owns(ring: Ring, h: nat, k: nat) {
    && k in ring
    && ((k <= h && forall j :: j in ring && j <= h ==> j <= k)
        || (k > h && forall j :: j in ring ==> h < j <= k))
  }

  lemma OwnerUnique(ring: Ring, h: nat, j: nat, k: nat)
    requires Owns(ring, h, j) && Owns(ring, h, k)
    ensures j == k
  {}

  /* ---------- adding and removing points ---------- */

  // More points of one node take keys over to that node only.
  lemma AddMovesOnlyToNode(ring: Ring, larger: Ring, node: string, h: nat, j: nat, k: nat)
    requires forall p :: p in ring ==> p in larger && larger[p] == ring[p]
    requires forall p :: p in larger && p !in ring ==> larger[p] == node
    requires Owns(ring, h, j) && Owns(larger, h, k)
    ensures larger[k] == node || larger[k] == ring[j]
    ensures k in ring ==> k == j
  {
    if k in ring {
      assert Owns(ring, h, k);
      OwnerUnique(ring, h, j, k);
    }
  }

  // Fewer points of one node give up keys of that node only.
  lemma RemoveMovesOnlyNode(ring: Ring, smaller: Ring, node: string, h: nat, j: nat, k: nat)
    requires forall p :: p in smaller <==> p in ring && ring[p] != node
    requires forall p :: p in smaller ==> smaller[p] == ring[p]
    requires Owns(ring, h, j) && Owns(smaller, h, k) && ring[j] != node
    ensures k == j && smaller[k] == ring[j]
  {
    assert Owns(smaller, h, j);
    OwnerUnique(smaller, h, j, k);
  }

  /* ---------- sorted keys ---------- */

  predicate Sorted(keys: seq<nat>) {
    forall i, j :: 0 <= i < j < |keys| ==> keys[i] <= keys[j]
  }

  predicate StrictlySorted(keys: seq<nat>) {
    forall i, j :: 0 <= i < j < |keys| ==> keys[i] < keys[j]
  }

  function Insert(keys: seq<nat>, k: nat): seq<nat> {
    if keys == [] then [k]
    else if k <= keys[0] then [k] + keys
    else [keys[0]] + Insert(keys[1..], k)
  }

  function Sort(keys: seq<nat>): seq<nat> {
    if keys == [] then [] else Insert(Sort(keys[1..]), keys[0])
  }

  lemma {:induction false} InsertBag(keys: seq<nat>, k: nat)
    ensures multiset(Insert(keys, k)) == multiset(keys) + multiset{k}
  {
    if keys != [] {
      assert keys == [keys[0]] + keys[1..];
      InsertBag(keys[1..], k);
    }
  }

  lemma {:induction false} InsertSorts(keys: seq<nat>, k: nat)
    requires Sorted(keys)
    ensures Sorted(Insert(keys, k))
  {
    if keys != [] && k > keys[0] {
      InsertSorts(keys[1..], k);
      InsertAbove(keys[1..], k, keys[0]);
    }
  }

  lemma InsertAbove(keys: seq<nat>, k: nat, low: nat)
    requires low <= k && forall i :: 0 <= i < |keys| ==> low <= keys[i]
    ensures forall i :: 0 <= i < |Insert(keys, k)| ==> low <= Insert(keys, k)[i]
  {
    InsertBag(keys, k);
    hide Insert;
    forall i | 0 <= i < |Insert(keys, k)|
      ensures low <= Insert(keys, k)[i]
    {
      assert Insert(keys, k)[i] in multiset(Insert(keys, k));
    }
  }

  lemma {:induction false} SortSorts(keys: seq<nat>)
    ensures Sorted(Sort(keys)) && multiset(Sort(keys)) == multiset(keys)
  {
    if keys != [] {
      SortSorts(keys[1..]);
      InsertSorts(Sort(keys[1..]), keys[0]);
      InsertBag(Sort(keys[1..]), keys[0]);
      assert keys == [keys[0]] + keys[1..];
    }
  }

  // Nothing occurs twice.
  ghost predicate Once(keys: seq<nat>) {
    forall i, j :: 0 <= i < j < |keys| ==> keys[i] != keys[j]
  }

  lemma {:induction false} OnceBag(keys: seq<nat>)
    ensures Once(keys) <==> forall k :: multiset(keys)[k] <= 1
  {
    if keys != [] {
      var n := |keys| - 1;
      assert keys == keys[..n] + [keys[n]];
      OnceBag(keys[..n]);
      if Once(keys) {
        assert keys[n] !in keys[..n];
      } else if Once(keys[..n]) {
        assert keys[n] in multiset(keys[..n]);
        assert multiset(keys)[keys[n]] == 2;
      } else {
        var k :| multiset(keys[..n])[k] > 1;
        assert multiset(keys)[k] > 1;
      }
    }
  }

  lemma SortOnce(keys: seq<nat>)
    requires Once(keys)
    ensures StrictlySorted(Sort(keys)) && forall k :: k in Sort(keys) <==> k in keys
  {
    SortSorts(keys);
    OnceBag(keys);
    OnceBag(Sort(keys));
    forall k
      ensures k in Sort(keys) <==> k in keys
    {
      assert k in Sort(keys) <==> k in multiset(Sort(keys));
      assert k in keys <==> k in multiset(keys);
    }
  }

  /* ---------- the node list and the keys without some entries ---------- */

  function Without<T(==)>(s: seq<T>, x: T): seq<T> {
    if s == [] then [] else (if s[0] == x then [] else [s[0]]) + Without(s[1..], x)
  }

  lemma {:induction false} WithoutMembers(s: seq<nat>, x: nat)
    ensures forall y :: y in Without(s, x) <==> y in s && y != x
    ensures StrictlySorted(s) ==> StrictlySorted(Without(s, x))
  {
    if s != [] {
      WithoutMembers(s[1..], x);
      assert s == [s[0]] + s[1..];
      var rest := Without(s[1..], x);
      if StrictlySorted(s) {
        forall i | 0 <= i < |rest|
          ensures s[0] < rest[i]
        {
          assert rest[i] in s[1..];
        }
      }
    }
  }

  // Leaving out an entry takes all its copies.
  lemma {:induction false} WithoutBag(s: seq<nat>, x: nat)
    ensures multiset(Without(s, x)) == multiset(s)[x := 0]
  {
    if s != [] {
      WithoutBag(s[1..], x);
      assert s == [s[0]] + s[1..];
      assert multiset(s) == multiset{s[0]} + multiset(s[1..]);
    }
  }

  lemma {:induction false} WithoutSorted(s: seq<nat>, x: nat)
    requires Sorted(s)
    ensures Sorted(Without(s, x))
  {
    if s != [] {
      WithoutSorted(s[1..], x);
      WithoutMembers(s[1..], x);
      var rest := Without(s[1..], x);
      forall i | 0 <= i < |rest|
        ensures s[0] <= rest[i]
      {
        assert rest[i] in s[1..];
      }
    }
  }

  lemma {:induction false} WithoutNodes(s: seq<string>, x: string)
    ensures forall y :: y in Without(s, x) <==> y in s && y != x
  {
    if s != [] {
      WithoutNodes(s[1..], x);
      assert s == [s[0]] + s[1..];
    }
  }

  lemma Regroup<T>(a: seq<T>, x: T, b: seq<T>)
    ensures a + ([x] + b) == (a + [x]) + b
  {}

  // Splices out every entry equal to x.
  method Splice<T(==)>(s: seq<T>, x: T) returns (r: seq<T>)
    ensures r == Without(s, x)
  {
    r := s;
    var i := 0;
    ghost var done, left := [], s;
    assert [] + Without(s, x) == Without(s, x);
    while i < |r|
      invariant 0 <= i <= |r| && r == done + left && i == |done|
      invariant Without(s, x) == done + Without(left, x)
      decreases |left|
    {
      ghost var first, rest := left[0], left[1..];
      assert left == [first] + rest && r[i] == first;
      if r[i] == x {
        r := r[..i] + r[i + 1..];
        assert r == done + rest;
      } else {
        Regroup(done, first, Without(rest, x));
        Regroup(done, first, rest);
        done := done + [first];
        i := i + 1;
      }
      left := rest;
    }
    assert left == [] && done + [] == done;
  }

  lemma {:induction false} KeyCount(keys: seq<nat>, points: set<nat>)
    requires StrictlySorted(keys) && forall k :: k in keys <==> k in points
    ensures |points| == |keys|
    decreases |keys|
  {
    if keys == [] {
      assert points == {};
    } else {
      var n := |keys| - 1;
      assert keys == keys[..n] + [keys[n]];
      assert keys[n] in keys;
      KeyCount(keys[..n], points - {keys[n]});
    }
  }

  /* ---------- the search ---------- */

  // What the search for h among the first n keys comes to: h itself, or the last key below it, or else the
  // last of the n.
  ghost predicate Found(keys: seq<nat>, n: nat, h: nat, pos: nat) {
    && pos < n <= |keys|
    && (keys[pos] == h || (keys[pos] < h && forall i :: pos < i < n ==> keys[i] > h)
        || (pos == n - 1 && forall i :: 0 <= i < n ==> keys[i] > h))
  }

  // When the keys are those of the ring, once each, it comes to the point that h belongs to.
  lemma FoundOwns(keys: seq<nat>, ring: Ring, h: nat, pos: nat)
    requires StrictlySorted(keys) && (forall k :: k in keys <==> k in ring) && Found(keys, |keys|, h, pos)
    ensures Owns(ring, h, keys[pos])
  {
    var p := keys[pos];
    assert p in keys;
    forall j | j in ring
      ensures (p <= h && j <= h ==> j <= p) && (p > h ==> h < j <= p)
    {
      assert j in keys;
      var i :| 0 <= i < |keys| && keys[i] == j;
    }
  }

  // Every lookup answers the node of the point that the hash belongs to.
  ghost predicate AnswersOwner(keys: seq<nat>, ring: Ring) {
    forall h: nat, pos: nat, k: nat :: Found(keys, |ring|, h, pos) && Owns(ring, h, k) ==>
      keys[pos] in ring && ring[keys[pos]] == ring[k]
  }

  // No point above k belongs to another node than k does.
  ghost predicate SameAbove(ring: Ring, k: nat) {
    k in ring && forall p :: p in ring && p > k ==> ring[p] == ring[k]
  }

  // The search comes to the point that h belongs to, or that point is above all keys that are searched.
  lemma FoundOrAbove(keys: seq<nat>, ring: Ring, h: nat, pos: nat, k: nat)
    requires Sorted(keys) && (forall k :: k in keys <==> k in ring) && Found(keys, |ring|, h, pos)
    requires Owns(ring, h, k)
    ensures k == keys[pos] || (pos == |ring| - 1 && k > keys[pos])
  {
    assert keys[pos] in keys && k in keys;
    var i :| 0 <= i < |keys| && keys[i] == k;
    if pos < i && pos + 1 < |ring| {
      assert keys[pos + 1] <= keys[i];
    }
  }

  // Lookups are right exactly if the points above the last searched key belong to the node of that key.
  lemma LookupsExactly(keys: seq<nat>, ring: Ring)
    requires Sorted(keys) && (forall k :: k in keys <==> k in ring) && 0 < |ring| <= |keys|
    ensures AnswersOwner(keys, ring) <==> SameAbove(ring, keys[|ring| - 1])
  {
    var last := keys[|ring| - 1];
    assert last in keys;
    if SameAbove(ring, last) {
      forall h: nat, pos: nat, k: nat | Found(keys, |ring|, h, pos) && Owns(ring, h, k)
        ensures keys[pos] in ring && ring[keys[pos]] == ring[k]
      {
        assert keys[pos] in keys;
        FoundOrAbove(keys, ring, h, pos, k);
      }
    } else {
      var p :| p in ring && p > last && ring[p] != ring[last];
      assert Found(keys, |ring|, p, |ring| - 1) && Owns(ring, p, p);
    }
  }

  /* ---------- the ring ---------- */

  function Decimal(n: nat): string {
    if n < 10 then ["0123456789"[n]] else Decimal(n / 10) + ["0123456789"[n % 10]]
  }

  // The text of n in decimal: digits only, without a zero in front, that come to n when they are read.
  ghost predicate Numeral(s: string, n: nat) {
    s != [] && (forall i :: 0 <= i < |s| ==> '0' <= s[i] <= '9') && (|s| > 1 ==> s[0] != '0') && ReadDecimal(s) == n
  }

  ghost function ReadDecimal(s: string): int {
    if s == [] then 0 else 10 * ReadDecimal(s[..|s| - 1]) + (s[|s| - 1] as int - '0' as int)
  }

  lemma DigitReads(d: nat)
    requires d < 10
    ensures "0123456789"[d] as int == '0' as int + d && '0' <= "0123456789"[d] <= '9'
  {}

  lemma OneDigit(s: string)
    requires |s| == 1
    ensures ReadDecimal(s) == s[0] as int - '0' as int
  {
    assert s[..|s| - 1] == [];
  }

  lemma NumeralGrows(s: string, n: nat, d: nat)
    requires Numeral(s, n) && n > 0 && d < 10
    ensures Numeral(s + ["0123456789"[d]], 10 * n + d)
  {
    DigitReads(d);
    var c := "0123456789"[d];
    assert (s + [c])[..|s|] == s;
    if |s| == 1 {
      OneDigit(s);
    }
  }

  lemma {:induction false} DecimalReads(n: nat)
    ensures Numeral(Decimal(n), n)
    decreases n
  {
    DigitReads(n % 10);
    if n >= 10 {
      DecimalReads(n / 10);
      NumeralGrows(Decimal(n / 10), n / 10, n % 10);
    } else {
      assert Decimal(n)[..0] == [];
    }
  }

  // The last digit and what is before it.
  lemma NumeralParts(s: string, n: nat)
    requires Numeral(s, n)
    ensures s[|s| - 1] == "0123456789"[n % 10]
    ensures if |s| == 1 then n < 10 else n >= 10 && Numeral(s[..|s| - 1], n / 10)
  {
    var k := |s| - 1;
    var digit := s[k] as int - '0' as int;
    DigitReads(digit);
    if k == 0 {
      OneDigit(s);
    } else {
      Leading(s[..k]);
    }
  }

  // There is one such text for every number.
  lemma {:induction false} NumeralUnique(s: string, n: nat)
    requires Numeral(s, n)
    ensures s == Decimal(n)
    decreases |s|
  {
    var k := |s| - 1;
    NumeralParts(s, n);
    hide Numeral, ReadDecimal;
    assert s == s[..k] + [s[k]];
    if k > 0 {
      NumeralUnique(s[..k], n / 10);
    }
  }

  lemma {:induction false} Leading(s: string)
    requires s != [] && (forall i :: 0 <= i < |s| ==> '0' <= s[i] <= '9') && s[0] != '0'
    ensures ReadDecimal(s) > 0
    decreases |s|
  {
    if |s| > 1 {
      Leading(s[..|s| - 1]);
    } else {
      assert s[..0] == [];
    }
  }

  // The hash of a label; digests of one length are in the order of their numbers.
  function Point(hash: string -> nat, node: string, i: nat): nat {
    hash(node + ":" + Decimal(i))
  }

  ghost predicate CollisionFree(hash: string -> nat, replicas: nat, nodes: set<string>) {
    forall n, m, i: nat, j: nat ::
      n in nodes && m in nodes && i < replicas && j < replicas && Point(hash, n, i) == Point(hash, m, j) ==>
        n == m && i == j
  }

  // Labels of different nodes or numbers are different texts: what is behind the last colon is digits.
  lemma LabelsDiffer(a: string, x: string, b: string, y: string)
    requires a + ":" + x == b + ":" + y && ':' !in x && ':' !in y
    ensures a == b && x == y
  {
    ColonNotBehind(a, x, b, y);
    ColonNotBehind(b, y, a, x);
    assert (a + ":" + x)[..|a|] == a && (b + ":" + y)[..|b|] == b;
    assert (a + ":" + x)[|a| + 1..] == x && (b + ":" + y)[|b| + 1..] == y;
  }

  lemma ColonNotBehind(a: string, x: string, b: string, y: string)
    requires a + ":" + x == b + ":" + y && ':' !in y
    ensures |a| <= |b|
  {
    var s := a + ":" + x;
    assert s[|a|] == ':';
    assert forall q :: |b| + 1 <= q < |s| ==> s[q] == y[q - |b| - 1];
  }

  // So points collide only if the hash of two texts does.
  lemma NoCollisions(hash: string -> nat, replicas: nat, nodes: set<string>)
    requires forall s, t :: hash(s) == hash(t) ==> s == t
    ensures CollisionFree(hash, replicas, nodes)
  {
    forall n, m, i: nat, j: nat |
      n in nodes && m in nodes && i < replicas && j < replicas && Point(hash, n, i) == Point(hash, m, j)
      ensures n == m && i == j
    {
      DecimalReads(i);
      DecimalReads(j);
      LabelsDiffer(n, Decimal(i), m, Decimal(j));
    }
  }

  // The ring with the points below i of the node, and without them.
  function WithPoints(hash: string -> nat, ring: Ring, node: string, i: nat): Ring {
    if i == 0 then ring else WithPoints(hash, ring, node, i - 1)[Point(hash, node, i - 1) := node]
  }

  function WithoutPoints(hash: string -> nat, ring: Ring, node: string, i: nat): Ring {
    if i == 0 then ring else WithoutPoints(hash, ring, node, i - 1) - {Point(hash, node, i - 1)}
  }

  ghost predicate IsPoint(hash: string -> nat, node: string, i: nat, k: nat) {
    exists j: nat :: j < i && Point(hash, node, j) == k
  }

  // k is the hash of the id, a colon, and the decimal text of a number below i.
  ghost predicate Labels(hash: string -> nat, node: string, i: nat, k: nat) {
    exists n: nat, text: string :: n < i && Numeral(text, n) && hash(node + ":" + text) == k
  }

  // The points of a node are the hashes of those labels.
  lemma PointsAreLabelled(hash: string -> nat, node: string, i: nat, k: nat)
    ensures IsPoint(hash, node, i, k) <==> Labels(hash, node, i, k)
  {
    if IsPoint(hash, node, i, k) {
      var n: nat :| n < i && Point(hash, node, n) == k;
      DecimalReads(n);
    }
    if Labels(hash, node, i, k) {
      var n: nat, text: string :| n < i && Numeral(text, n) && hash(node + ":" + text) == k;
      NumeralUnique(text, n);
      assert Point(hash, node, n) == k;
    }
  }

  lemma LabelsAdded(hash: string -> nat, ring: Ring, node: string, i: nat)
    ensures var larger := WithPoints(hash, ring, node, i);
            && (forall k :: k in larger <==> k in ring || Labels(hash, node, i, k))
            && (forall k :: k in larger ==> larger[k] == if Labels(hash, node, i, k) then node else ring[k])
  {
    WithPointsAre(hash, ring, node, i);
    hide IsPoint, Labels, WithPoints;
    forall k
      ensures IsPoint(hash, node, i, k) <==> Labels(hash, node, i, k)
    {
      PointsAreLabelled(hash, node, i, k);
    }
  }

  lemma LabelsRemoved(hash: string -> nat, ring: Ring, node: string, i: nat)
    ensures var smaller := WithoutPoints(hash, ring, node, i);
            && (forall k :: k in smaller <==> k in ring && !Labels(hash, node, i, k))
            && (forall k :: k in smaller ==> smaller[k] == ring[k])
  {
    WithoutPointsAre(hash, ring, node, i);
    hide IsPoint, Labels, WithoutPoints;
    forall k
      ensures IsPoint(hash, node, i, k) <==> Labels(hash, node, i, k)
    {
      PointsAreLabelled(hash, node, i, k);
    }
  }

  lemma {:induction false} WithPointsAre(hash: string -> nat, ring: Ring, node: string, i: nat)
    ensures var larger := WithPoints(hash, ring, node, i);
            && (forall k :: k in larger <==> k in ring || IsPoint(hash, node, i, k))
            && (forall k :: k in larger ==> larger[k] == if IsPoint(hash, node, i, k) then node else ring[k])
  {
    if i > 0 {
      WithPointsAre(hash, ring, node, i - 1);
      PointSteps(hash, node, i);
      hide IsPoint, Point;
    }
  }

  lemma {:induction false} WithoutPointsAre(hash: string -> nat, ring: Ring, node: string, i: nat)
    ensures var smaller := WithoutPoints(hash, ring, node, i);
            && (forall k :: k in smaller <==> k in ring && !IsPoint(hash, node, i, k))
            && (forall k :: k in smaller ==> smaller[k] == ring[k])
  {
    if i > 0 {
      WithoutPointsAre(hash, ring, node, i - 1);
      PointSteps(hash, node, i);
      hide IsPoint;
    }
  }

  lemma PointSteps(hash: string -> nat, node: string, i: nat)
    requires i > 0
    ensures forall k :: IsPoint(hash, node, i, k) <==> IsPoint(hash, node, i - 1, k) || k == Point(hash, node, i - 1)
  {}

  // The points of the nodes, each owned by its node, and nothing else.
  ghost predicate RingOf(hash: string -> nat, replicas: nat, ring: Ring, nodes: set<string>) {
    && (forall n, k :: n in nodes && IsPoint(hash, n, replicas, k) ==> k in ring && ring[k] == n)
    && (forall k :: k in ring ==> ring[k] in nodes && IsPoint(hash, ring[k], replicas, k))
  }

  lemma NotYetThere(hash: string -> nat, replicas: nat, ring: Ring, nodes: set<string>, node: string)
    requires RingOf(hash, replicas, ring, nodes) && CollisionFree(hash, replicas, nodes + {node}) && node !in nodes
    ensures forall k :: IsPoint(hash, node, replicas, k) ==> k !in ring
  {}

  lemma RingGrows(hash: string -> nat, replicas: nat, ring: Ring, nodes: set<string>, node: string)
    requires RingOf(hash, replicas, ring, nodes) && CollisionFree(hash, replicas, nodes + {node}) && node !in nodes
    ensures RingOf(hash, replicas, WithPoints(hash, ring, node, replicas), nodes + {node})
  {
    NotYetThere(hash, replicas, ring, nodes, node);
    WithPointsAre(hash, ring, node, replicas);
    hide IsPoint, CollisionFree;
  }

  lemma RingShrinks(hash: string -> nat, replicas: nat, ring: Ring, nodes: set<string>, node: string)
    requires RingOf(hash, replicas, ring, nodes) && CollisionFree(hash, replicas, nodes + {node})
    ensures RingOf(hash, replicas, WithoutPoints(hash, ring, node, replicas), nodes - {node})
    ensures forall k :: k in ring ==> (IsPoint(hash, node, replicas, k) <==> ring[k] == node)
  {
    PointsOfNode(hash, replicas, ring, nodes, node);
    WithoutPointsAre(hash, ring, node, replicas);
    hide IsPoint, CollisionFree, WithoutPoints;
  }

  lemma PointsOfNode(hash: string -> nat, replicas: nat, ring: Ring, nodes: set<string>, node: string)
    requires RingOf(hash, replicas, ring, nodes) && CollisionFree(hash, replicas, nodes + {node})
    ensures forall k :: k in ring ==> (IsPoint(hash, node, replicas, k) <==> ring[k] == node)
  {
    forall k | k in ring
      ensures IsPoint(hash, node, replicas, k) <==> ring[k] == node
    {
      assert IsPoint(hash, ring[k], replicas, k);
    }
  }

  // Adding a node moves keys to that node only.
  lemma AddIsMonotone(hash: string -> nat, replicas: nat, ring: Ring, nodes: set<string>, node: string,
                      h: nat, j: nat, k: nat)
    requires RingOf(hash, replicas, ring, nodes) && CollisionFree(hash, replicas, nodes + {node}) && node !in nodes
    requires Owns(ring, h, j) && Owns(WithPoints(hash, ring, node, replicas), h, k)
    ensures var larger := WithPoints(hash, ring, node, replicas);
            larger[k] == node || larger[k] == ring[j]
  {
    NotYetThere(hash, replicas, ring, nodes, node);
    WithPointsAre(hash, ring, node, replicas);
    hide IsPoint, CollisionFree, RingOf, Owns;
    AddMovesOnlyToNode(ring, WithPoints(hash, ring, node, replicas), node, h, j, k);
  }

  // Removing a node moves the keys of that node only.
  lemma RemoveIsMonotone(hash: string -> nat, replicas: nat, ring: Ring, nodes: set<string>, node: string,
                         h: nat, j: nat, k: nat)
    requires RingOf(hash, replicas, ring, nodes) && CollisionFree(hash, replicas, nodes + {node})
    requires Owns(ring, h, j) && ring[j] != node && Owns(WithoutPoints(hash, ring, node, replicas), h, k)
    ensures WithoutPoints(hash, ring, node, replicas)[k] == ring[j]
  {
    RingShrinks(hash, replicas, ring, nodes, node);
    WithoutPointsAre(hash, ring, node, replicas);
    hide IsPoint, CollisionFree, RingOf, Owns;
    RemoveMovesOnlyNode(ring, WithoutPoints(hash, ring, node, replicas), node, h, j, k);
  }

  // Adding a node and removing it again leaves the ring, and so every lookup, as it was.
  lemma AddRemoveRestores(hash: string -> nat, replicas: nat, ring: Ring, nodes: set<string>, node: string)
    requires RingOf(hash, replicas, ring, nodes) && CollisionFree(hash, replicas, nodes + {node}) && node !in nodes
    ensures WithoutPoints(hash, WithPoints(hash, ring, node, replicas), node, replicas) == ring
  {
    NotYetThere(hash, replicas, ring, nodes, node);
    WithPointsAre(hash, ring, node, replicas);
    WithoutPointsAre(hash, WithPoints(hash, ring, node, replicas), node, replicas);
    hide IsPoint, CollisionFree, RingOf;
  }

  // The first i points of the node, as they are pushed.
  function Points(hash: string -> nat, node: string, i: nat): (r: seq<nat>)
    ensures |r| == i && forall j: nat :: j < i ==> r[j] == Point(hash, node, j)
  {
    if i == 0 then [] else Points(hash, node, i - 1) + [Point(hash, node, i - 1)]
  }

  // The points of the node are new and all different.
  ghost predicate FreshPoints(hash: string -> nat, replicas: nat, ring: Ring, node: string) {
    && (forall i: nat :: i < replicas ==> Point(hash, node, i) !in ring)
    && (forall i: nat, j: nat :: i < j < replicas ==> Point(hash, node, i) != Point(hash, node, j))
  }

  lemma NewPoints(hash: string -> nat, replicas: nat, ring: Ring, nodes: set<string>, node: string)
    requires RingOf(hash, replicas, ring, nodes) && CollisionFree(hash, replicas, nodes + {node}) && node !in nodes
    ensures FreshPoints(hash, replicas, ring, node)
  {
    NotYetThere(hash, replicas, ring, nodes, node);
    forall i: nat | i < replicas
      ensures Point(hash, node, i) !in ring
    {
      assert IsPoint(hash, node, replicas, Point(hash, node, i));
    }
    hide RingOf, IsPoint;
    assert node in nodes + {node};
  }

  lemma FewerCollide(hash: string -> nat, replicas: nat, nodes: set<string>, node: string)
    requires CollisionFree(hash, replicas, nodes)
    ensures CollisionFree(hash, replicas, nodes - {node})
  {
    hide Point;
  }

  lemma CollideLess(hash: string -> nat, replicas: nat, nodes: set<string>, fewer: set<string>)
    requires CollisionFree(hash, replicas, nodes) && fewer <= nodes
    ensures CollisionFree(hash, replicas, fewer)
  {
    hide Point;
  }

  lemma StrictOnce(keys: seq<nat>)
    requires StrictlySorted(keys)
    ensures Once(keys)
  {}

  // Keys and points with nothing in common stay once each.
  lemma OncePoints(hash: string -> nat, replicas: nat, ring: Ring, node: string, keys: seq<nat>)
    requires Once(keys) && (forall k :: k in keys <==> k in ring) && FreshPoints(hash, replicas, ring, node)
    ensures Once(keys + Points(hash, node, replicas))
  {
    hide Point;
  }

  lemma PointsListed(hash: string -> nat, replicas: nat, ring: Ring, node: string, keys: seq<nat>)
    requires forall k :: k in keys <==> k in ring
    ensures forall k :: k in keys + Points(hash, node, replicas) <==> k in WithPoints(hash, ring, node, replicas)
  {
    hide Point, WithPoints;
    WithPointsAre(hash, ring, node, replicas);
    var pushed := Points(hash, node, replicas);
    forall k
      ensures k in pushed <==> IsPoint(hash, node, replicas, k)
    {
      if IsPoint(hash, node, replicas, k) {
        var j: nat :| j < replicas && Point(hash, node, j) == k;
        assert pushed[j] == k;
      }
    }
  }

  /* ---------- adding a node twice ---------- */

  lemma FirstIsLeast(a: seq<nat>, b: seq<nat>)
    requires Sorted(a) && multiset(a) == multiset(b) && b != []
    ensures a != [] && a[0] <= b[0]
  {
    assert b[0] in multiset(a);
    assert b[0] in a;
  }

  lemma RestBag(a: seq<nat>)
    requires a != []
    ensures multiset(a[1..]) == multiset(a) - multiset{a[0]}
  {
    assert a == [a[0]] + a[1..];
  }

  lemma {:induction false} SortedUnique(a: seq<nat>, b: seq<nat>)
    requires Sorted(a) && Sorted(b) && multiset(a) == multiset(b)
    ensures a == b
  {
    if b != [] {
      FirstIsLeast(a, b);
      FirstIsLeast(b, a);
      RestBag(a);
      RestBag(b);
      SortedUnique(a[1..], b[1..]);
    } else if a != [] {
      FirstIsLeast(b, a);
    }
  }

  // A key that is nowhere exceeded and stands at pos stands at every later position.
  lemma {:induction false} TopCount(keys: seq<nat>, top: nat, pos: nat)
    requires Sorted(keys) && pos < |keys| && keys[pos] == top && forall k :: k in keys ==> k <= top
    ensures multiset(keys)[top] >= |keys| - pos
    decreases |keys|
  {
    var n := |keys| - 1;
    assert keys == keys[..n] + [keys[n]];
    assert keys[n] in keys;
    if pos < n {
      TopCount(keys[..n], top, pos);
    }
  }

  // The keys after a node has been added that was there already.
  ghost predicate Doubled(hash: string -> nat, replicas: nat, ring: Ring, nodes: set<string>, node: string,
                          keys: seq<nat>, doubled: seq<nat>)
  {
    && RingOf(hash, replicas, ring, nodes) && CollisionFree(hash, replicas, nodes) && node in nodes && replicas > 0
    && StrictlySorted(keys) && (forall k :: k in keys <==> k in ring)
    && doubled == Sort(keys + Points(hash, node, replicas))
  }

  lemma DoubledRing(hash: string -> nat, replicas: nat, ring: Ring, nodes: set<string>, node: string,
                    keys: seq<nat>, doubled: seq<nat>)
    requires Doubled(hash, replicas, ring, nodes, node, keys, doubled)
    ensures WithPoints(hash, ring, node, replicas) == ring && |ring| == |keys| > 0
    ensures forall k :: k in Points(hash, node, replicas) ==> k in ring && ring[k] == node
    ensures Once(Points(hash, node, replicas))
  {
    hide Sort, Point, IsPoint, CollisionFree, WithPoints, Once;
    RingUnchanged(hash, replicas, ring, nodes, node);
    PointsOnce(hash, replicas, nodes, node);
    PointsMembers(hash, replicas, node);
    assert Points(hash, node, replicas)[0] in Points(hash, node, replicas);
    KeyCount(keys, ring.Keys);
  }

  lemma RingUnchanged(hash: string -> nat, replicas: nat, ring: Ring, nodes: set<string>, node: string)
    requires RingOf(hash, replicas, ring, nodes) && node in nodes
    ensures WithPoints(hash, ring, node, replicas) == ring
  {
    WithPointsAre(hash, ring, node, replicas);
    hide WithPoints, IsPoint;
  }

  lemma PointsOnce(hash: string -> nat, replicas: nat, nodes: set<string>, node: string)
    requires CollisionFree(hash, replicas, nodes) && node in nodes
    ensures Once(Points(hash, node, replicas))
  {
    hide Point;
  }

  lemma PointsMembers(hash: string -> nat, replicas: nat, node: string)
    ensures forall k :: k in Points(hash, node, replicas) <==> IsPoint(hash, node, replicas, k)
  {
    hide Point;
    var pushed := Points(hash, node, replicas);
    forall k
      ensures k in pushed <==> IsPoint(hash, node, replicas, k)
    {
      if IsPoint(hash, node, replicas, k) {
        var j: nat :| j < replicas && Point(hash, node, j) == k;
        assert pushed[j] == k;
      }
    }
  }

  lemma DoubledKeys(hash: string -> nat, replicas: nat, ring: Ring, nodes: set<string>, node: string,
                    keys: seq<nat>, doubled: seq<nat>)
    requires Doubled(hash, replicas, ring, nodes, node, keys, doubled)
    ensures |doubled| == |keys| + replicas && Sorted(doubled)
    ensures forall k :: k in doubled <==> k in keys
    ensures forall k :: multiset(doubled)[k] <= 1 + if k in Points(hash, node, replicas) then 1 else 0
  {
    hide Sort, Point, WithPoints, IsPoint, RingOf, CollisionFree;
    var pushed := Points(hash, node, replicas);
    DoubledRing(hash, replicas, ring, nodes, node, keys, doubled);
    SortSorts(keys + pushed);
    assert |multiset(doubled)| == |multiset(keys + pushed)|;
    StrictOnce(keys);
    OnceBag(keys);
    OnceBag(pushed);
    hide Points, Once, StrictlySorted;
    forall k
      ensures k in doubled <==> k in keys
      ensures multiset(doubled)[k] <= 1 + if k in pushed then 1 else 0
    {
      assert k in doubled <==> k in multiset(doubled);
      assert k in keys + pushed <==> k in multiset(keys + pushed);
      assert k in pushed <==> k in multiset(pushed);
      assert multiset(doubled)[k] == multiset(keys)[k] + multiset(pushed)[k];
    }
  }

  // The search takes in as many keys as the ring has points, so it ends before the greatest point: a hash on
  // this point comes to the last key that is searched instead, and goes to the node of that key.
  lemma GreatestIsMissed(hash: string -> nat, replicas: nat, ring: Ring, nodes: set<string>, node: string,
                         keys: seq<nat>, doubled: seq<nat>, pos: nat)
    requires Doubled(hash, replicas, ring, nodes, node, keys, doubled)
    requires keys != [] && keys[|keys| - 1] in ring && (replicas > 1 || ring[keys[|keys| - 1]] != node)
    ensures |ring| == |keys| <= |doubled| && Owns(ring, keys[|keys| - 1], keys[|keys| - 1])
    ensures doubled[|ring| - 1] < keys[|keys| - 1]
    ensures Found(doubled, |ring|, keys[|keys| - 1], pos) <==> pos == |ring| - 1
  {
    DoubledRing(hash, replicas, ring, nodes, node, keys, doubled);
    DoubledKeys(hash, replicas, ring, nodes, node, keys, doubled);
    hide Doubled, Points, WithPoints, Once, Sort;
    var n := |keys|;
    var top := keys[n - 1];
    assert top in keys;
    GreatestOwns(keys, ring);
    assert doubled[n - 1] in doubled;
    if doubled[n - 1] == top {
      TopCount(doubled, top, n - 1);
    }
    SearchEnds(doubled, n, top, pos);
  }

  lemma GreatestOwns(keys: seq<nat>, ring: Ring)
    requires StrictlySorted(keys) && keys != [] && forall k :: k in keys <==> k in ring
    ensures Owns(ring, keys[|keys| - 1], keys[|keys| - 1])
    ensures forall k :: k in keys ==> k <= keys[|keys| - 1]
  {}

  lemma SearchEnds(keys: seq<nat>, n: nat, h: nat, pos: nat)
    requires Sorted(keys) && 0 < n <= |keys| && keys[n - 1] < h
    ensures Found(keys, n, h, pos) <==> pos == n - 1
  {
    if pos < n - 1 {
      assert keys[pos] <= keys[n - 1];
    }
  }

  // After adding a node every hash still comes to the point it belongs to exactly if the node was not there, or
  // has a single point and that is the greatest of all.
  lemma AddedTwice(hash: string -> nat, replicas: nat, ring: Ring, nodes: set<string>, node: string,
                   keys: seq<nat>, more: seq<nat>)
    requires RingOf(hash, replicas, ring, nodes) && CollisionFree(hash, replicas, nodes + {node}) && replicas > 0
    requires StrictlySorted(keys) && (forall k :: k in keys <==> k in ring)
    requires more == Sort(keys + Points(hash, node, replicas))
    ensures var larger := WithPoints(hash, ring, node, replicas);
            (forall h: nat, pos: nat :: Found(more, |larger|, h, pos) ==> Owns(larger, h, more[pos]))
            <==> node !in nodes || (replicas == 1 && keys != [] && ring[keys[|keys| - 1]] == node)
  {
    hide RingOf, CollisionFree, WithPoints, Points, Sort, StrictlySorted;
    if node !in nodes {
      NewKeysFound(hash, replicas, ring, nodes, node, keys);
    } else {
      assert nodes + {node} == nodes;
      assert Doubled(hash, replicas, ring, nodes, node, keys, more);
      DoubledRing(hash, replicas, ring, nodes, node, keys, more);
      var top := keys[|keys| - 1];
      assert top in keys;
      if replicas == 1 && ring[top] == node {
        GreatestTwice(hash, ring, nodes, node, keys);
      } else {
        GreatestIsMissed(hash, replicas, ring, nodes, node, keys, more, |keys| - 1);
        OwnerUniqueUnless(ring, top, more[|keys| - 1]);
      }
    }
  }

  // After adding a node every lookup answers the node that the hash belongs to exactly if the node was not there, or
  // the points above the last searched key belong to the node of that key.
  lemma LookupsAfterAdding(hash: string -> nat, replicas: nat, ring: Ring, nodes: set<string>, node: string,
                           keys: seq<nat>, more: seq<nat>)
    requires RingOf(hash, replicas, ring, nodes) && CollisionFree(hash, replicas, nodes + {node}) && replicas > 0
    requires StrictlySorted(keys) && (forall k :: k in keys <==> k in ring)
    requires more == Sort(keys + Points(hash, node, replicas))
    ensures var larger := WithPoints(hash, ring, node, replicas);
            0 < |larger| <= |more| &&
            (AnswersOwner(more, larger) <==> node !in nodes || SameAbove(larger, more[|larger| - 1]))
  {
    hide RingOf, CollisionFree, WithPoints, Points, Sort, StrictlySorted, AnswersOwner;
    var larger := WithPoints(hash, ring, node, replicas);
    if node !in nodes {
      NewKeys(hash, replicas, ring, nodes, node, keys);
      KeyCount(more, larger.Keys);
      PointsListed(hash, replicas, ring, node, keys);
      assert Points(hash, node, replicas)[0] in keys + Points(hash, node, replicas);
      LookupsOwn(more, larger);
    } else {
      assert nodes + {node} == nodes;
      assert Doubled(hash, replicas, ring, nodes, node, keys, more);
      DoubledRing(hash, replicas, ring, nodes, node, keys, more);
      DoubledKeys(hash, replicas, ring, nodes, node, keys, more);
      LookupsExactly(more, larger);
    }
  }

  // With the keys of the ring, once each, lookups are right.
  lemma LookupsOwn(keys: seq<nat>, ring: Ring)
    requires StrictlySorted(keys) && |keys| == |ring| && forall k :: k in keys <==> k in ring
    ensures AnswersOwner(keys, ring)
  {
    forall h: nat, pos: nat, k: nat | Found(keys, |ring|, h, pos) && Owns(ring, h, k)
      ensures keys[pos] in ring && ring[keys[pos]] == ring[k]
    {
      FoundOwns(keys, ring, h, pos);
      OwnerUnique(ring, h, keys[pos], k);
    }
  }

  lemma NewKeysFound(hash: string -> nat, replicas: nat, ring: Ring, nodes: set<string>, node: string, keys: seq<nat>)
    requires RingOf(hash, replicas, ring, nodes) && CollisionFree(hash, replicas, nodes + {node}) && node !in nodes
    requires StrictlySorted(keys) && forall k :: k in keys <==> k in ring
    ensures var more, larger := Sort(keys + Points(hash, node, replicas)), WithPoints(hash, ring, node, replicas);
            forall h: nat, pos: nat :: Found(more, |larger|, h, pos) ==> Owns(larger, h, more[pos])
  {
    hide RingOf, CollisionFree, WithPoints, Points, Sort;
    var more, larger := Sort(keys + Points(hash, node, replicas)), WithPoints(hash, ring, node, replicas);
    NewKeys(hash, replicas, ring, nodes, node, keys);
    KeyCount(more, larger.Keys);
    hide StrictlySorted;
    forall h: nat, pos: nat | Found(more, |more|, h, pos)
      ensures Owns(larger, h, more[pos])
    {
      FoundOwns(more, larger, h, pos);
    }
  }

  lemma OwnerUniqueUnless(ring: Ring, h: nat, k: nat)
    requires Owns(ring, h, h) && k != h
    ensures !Owns(ring, h, k)
  {}

  lemma EndSorted(keys: seq<nat>)
    requires StrictlySorted(keys) && keys != []
    ensures Sorted(keys + [keys[|keys| - 1]])
  {}

  // A single point that is the greatest of all is doubled at the end.
  lemma GreatestPushed(hash: string -> nat, ring: Ring, nodes: set<string>, node: string, keys: seq<nat>)
    requires RingOf(hash, 1, ring, nodes) && StrictlySorted(keys)
    requires keys != [] && keys[|keys| - 1] in ring && ring[keys[|keys| - 1]] == node
    ensures Sort(keys + Points(hash, node, 1)) == keys + [keys[|keys| - 1]]
  {
    var top := keys[|keys| - 1];
    PointsMembers(hash, 1, node);
    assert IsPoint(hash, node, 1, top);
    assert Points(hash, node, 1) == [top];
    hide RingOf, IsPoint, Points, Sort, Point;
    SortSorts(keys + [top]);
    EndSorted(keys);
    hide Sorted, StrictlySorted;
    SortedUnique(Sort(keys + [top]), keys + [top]);
  }

  lemma GreatestTwice(hash: string -> nat, ring: Ring, nodes: set<string>, node: string, keys: seq<nat>)
    requires RingOf(hash, 1, ring, nodes) && StrictlySorted(keys) && forall k :: k in keys <==> k in ring
    requires keys != [] && keys[|keys| - 1] in ring && ring[keys[|keys| - 1]] == node
    ensures var more := Sort(keys + Points(hash, node, 1));
            forall h: nat, pos: nat :: Found(more, |keys|, h, pos) ==> Owns(ring, h, more[pos])
  {
    hide RingOf, IsPoint, Points, Sort, Owns, StrictlySorted;
    GreatestPushed(hash, ring, nodes, node, keys);
    var more := keys + [keys[|keys| - 1]];
    forall h: nat, pos: nat | Found(more, |keys|, h, pos)
      ensures Owns(ring, h, more[pos])
    {
      assert forall i :: 0 <= i < |keys| ==> keys[i] == more[i];
      FoundOwns(keys, ring, h, pos);
    }
  }

  // The keys after a new node has been added are those of the ring, once each.
  lemma NewKeys(hash: string -> nat, replicas: nat, ring: Ring, nodes: set<string>, node: string, keys: seq<nat>)
    requires RingOf(hash, replicas, ring, nodes) && CollisionFree(hash, replicas, nodes + {node}) && node !in nodes
    requires StrictlySorted(keys) && forall k :: k in keys <==> k in ring
    ensures var more := Sort(keys + Points(hash, node, replicas));
            StrictlySorted(more) && forall k :: k in more <==> k in WithPoints(hash, ring, node, replicas)
  {
    hide RingOf, CollisionFree, IsPoint, Point, FreshPoints, WithPoints, Sort;
    StrictOnce(keys);
    NewPoints(hash, replicas, ring, nodes, node);
    OncePoints(hash, replicas, ring, node, keys);
    PointsListed(hash, replicas, ring, node, keys);
    SortOnce(keys + Points(hash, node, replicas));
  }

  ghost function Named(nodes: seq<string>): set<string> {
    set n | n in nodes
  }

  // Nodes that are named once each and have no points in common.
  ghost predicate AllDifferent(hash: string -> nat, replicas: nat, nodes: seq<string>) {
    (forall i, j :: 0 <= i < j < |nodes| ==> nodes[i] != nodes[j]) && CollisionFree(hash, replicas, Named(nodes))
  }

  // The next of some nodes: it is new if all are different, and collides with none if none collide.
  lemma NextNode(hash: string -> nat, replicas: nat, nodes: seq<string>, i: nat)
    requires i < |nodes|
    ensures AllDifferent(hash, replicas, nodes) ==>
              CollisionFree(hash, replicas, Named(nodes)) && nodes[i] !in nodes[..i]
    ensures CollisionFree(hash, replicas, Named(nodes)) ==>
              CollisionFree(hash, replicas, Named(nodes[..i]) + {nodes[i]})
  {
    hide CollisionFree;
    if CollisionFree(hash, replicas, Named(nodes)) {
      CollideLess(hash, replicas, Named(nodes), Named(nodes[..i]) + {nodes[i]});
    }
  }

  // A node is added, whether it is there or not: the keys still list the points of the ring in order.
  lemma StillListed(hash: string -> nat, replicas: nat, ring: Ring, nodes: set<string>, node: string, keys: seq<nat>)
    requires RingOf(hash, replicas, ring, nodes) && CollisionFree(hash, replicas, nodes + {node})
    requires forall k :: k in keys <==> k in ring
    ensures var more, larger := Sort(keys + Points(hash, node, replicas)), WithPoints(hash, ring, node, replicas);
            RingOf(hash, replicas, larger, nodes + {node}) && Sorted(more) && forall k :: k in more <==> k in larger
  {
    hide RingOf, CollisionFree, WithPoints, Points, Sort, Sorted;
    if node in nodes {
      RingUnchanged(hash, replicas, ring, nodes, node);
      assert nodes + {node} == nodes;
    } else {
      RingGrows(hash, replicas, ring, nodes, node);
    }
    var all := keys + Points(hash, node, replicas);
    PointsListed(hash, replicas, ring, node, keys);
    SortSorts(all);
    forall k
      ensures k in Sort(all) <==> k in all
    {
      assert k in Sort(all) <==> k in multiset(Sort(all));
      assert k in all <==> k in multiset(all);
    }
  }

  // The keys after some points have gone: all copies of these, and of no other.
  ghost predicate Rest(keys: seq<nat>, before: seq<nat>, ring: Ring) {
    forall k :: multiset(keys)[k] == if k in ring then multiset(before)[k] else 0
  }

  lemma RestAll(keys: seq<nat>, ring: Ring)
    requires forall k :: k in keys <==> k in ring
    ensures Rest(keys, keys, ring)
  {
    forall k
      ensures k in keys <==> k in multiset(keys)
    {}
  }

  lemma RestShrinks(keys: seq<nat>, before: seq<nat>, ring: Ring, key: nat)
    requires Rest(keys, before, ring)
    ensures Rest(Without(keys, key), before, ring - {key})
  {
    WithoutBag(keys, key);
  }

  lemma WithoutNone(hash: string -> nat, ring: Ring, node: string)
    ensures WithoutPoints(hash, ring, node, 0) == ring
  {}

  lemma WithoutNext(hash: string -> nat, ring: Ring, node: string, j: nat)
    ensures WithoutPoints(hash, ring, node, j + 1) == WithoutPoints(hash, ring, node, j) - {Point(hash, node, j)}
  {}

  lemma RestOnce(keys: seq<nat>, before: seq<nat>, smaller: Ring, ring: Ring, node: string)
    requires Sorted(keys) && Rest(keys, before, smaller) && forall k :: k in before <==> k in ring
    requires forall k :: k in smaller <==> k in ring && ring[k] != node
    ensures StrictlySorted(keys) <==> forall k :: k in before && ring[k] != node ==> multiset(before)[k] == 1
  {
    OnceBag(keys);
    assert StrictlySorted(keys) <==> Once(keys);
    forall k | k in before
      ensures multiset(before)[k] >= 1
    {
      assert k in multiset(before);
    }
    hide Once, StrictlySorted, Sorted;
    if forall k :: k in before && ring[k] != node ==> multiset(before)[k] == 1 {
      forall k
        ensures multiset(keys)[k] <= 1
      {
        assert multiset(keys)[k] == if k in smaller then multiset(before)[k] else 0;
      }
    }
  }

  // The points of the ring are no more than its keys.
  lemma {:induction false} KeysEnough(keys: seq<nat>, points: set<nat>)
    requires forall k :: k in points ==> k in keys
    ensures |points| <= |keys|
    decreases |keys|
  {
    if keys == [] {
      assert points == {};
    } else {
      var n := |keys| - 1;
      assert keys == keys[..n] + [keys[n]];
      KeysEnough(keys[..n], points - {keys[n]});
    }
  }

  class ConsistentHash {
    const hash: string -> nat
    const replicas: nat
    var nodes: seq<string>
    var keys: seq<nat>
    var ring: Ring

    ghost function Nodes(): set<string>
      reads this
    {
      Named(nodes)
    }

    // The keys are the points of the ring in order.
    ghost predicate Valid()
      reads this
    {
      && CollisionFree(hash, replicas, Nodes()) && RingOf(hash, replicas, ring, Nodes())
      && StrictlySorted(keys) && forall k :: k in keys <==> k in ring
    }

    // What is left of this when a node has been added twice: some keys are listed more than once.
    ghost predicate Listed()
      reads this
    {
      && CollisionFree(hash, replicas, Nodes()) && RingOf(hash, replicas, ring, Nodes())
      && Sorted(keys) && forall k :: k in keys <==> k in ring
    }

    // No replicas means the default of 100.
    constructor (hash: string -> nat, replicas: nat, initial: seq<string>)
      ensures nodes == initial && this.replicas == (if replicas != 0 then replicas else 100) && this.hash == hash
      ensures AllDifferent(hash, this.replicas, initial) ==> Valid()
      ensures CollisionFree(hash, this.replicas, Named(initial)) ==> Listed()
    {
      this.hash := hash;
      this.replicas := if replicas != 0 then replicas else 100;
      nodes, keys, ring := [], [], map[];
      new;
      assert Nodes() == {};
      AddAll(initial);
    }

    method AddAll(initial: seq<string>)
      requires nodes == []
      requires AllDifferent(hash, replicas, initial) ==> Valid()
      requires CollisionFree(hash, replicas, Named(initial)) ==> Listed()
      modifies this
      ensures nodes == initial && (AllDifferent(hash, replicas, initial) ==> Valid())
      ensures CollisionFree(hash, replicas, Named(initial)) ==> Listed()
    {
      hide CollisionFree, RingOf, StrictlySorted, Sorted, Sort, WithPoints, Points, AllDifferent, Named, Labels,
           ConsistentHash.Valid, ConsistentHash.Listed;
      for i := 0 to |initial|
        invariant nodes == initial[..i] && (AllDifferent(hash, replicas, initial) ==> Valid())
        invariant CollisionFree(hash, replicas, Named(initial)) ==> Listed()
      {
        NextNode(hash, replicas, initial, i);
        AddNode(initial[i]);
      }
    }

    // Any node can be added, but one that is there already leaves the search with too few keys: see AddedTwice.
    method AddNode(node: string)
      modifies this
      ensures nodes == old(nodes) + [node]
      ensures ring == WithPoints(hash, old(ring), node, replicas)
      ensures forall k :: k in ring <==> k in old(ring) || Labels(hash, node, replicas, k)
      ensures forall k :: k in ring ==> ring[k] == if Labels(hash, node, replicas, k) then node else old(ring)[k]
      ensures keys == Sort(old(keys) + Points(hash, node, replicas))
      ensures old(Listed()) && CollisionFree(hash, replicas, old(Nodes()) + {node}) ==> Listed()
      ensures old(Valid()) && node !in old(nodes) && CollisionFree(hash, replicas, old(Nodes()) + {node}) ==> Valid()
    {
      hide RingOf, CollisionFree, WithPoints, StrictlySorted, Sorted, Points, Labels;
      LabelsAdded(hash, ring, node, replicas);
      ghost var r, listed, points, valid, kept := ring, keys, Nodes(), Valid(), Listed();
      nodes := nodes + [node];
      assert Nodes() == points + {node};
      AddPoints(node);
      keys := Sort(keys);
      if valid && node !in points && CollisionFree(hash, replicas, points + {node}) {
        RingGrows(hash, replicas, r, points, node);
        NewKeys(hash, replicas, r, points, node, listed);
      }
      if kept && CollisionFree(hash, replicas, points + {node}) {
        StillListed(hash, replicas, r, points, node, listed);
      }
    }

    // The loop over the replicas.
    method AddPoints(node: string)
      modifies this`keys, this`ring
      ensures ring == WithPoints(hash, old(ring), node, replicas)
      ensures keys == old(keys) + Points(hash, node, replicas)
    {
      for i := 0 to replicas
        invariant ring == WithPoints(hash, old(ring), node, i)
        invariant keys == old(keys) + Points(hash, node, i)
      {
        var key := Point(hash, node, i);
        keys := keys + [key];
        ring := ring[key := node];
      }
    }

    // Takes the node out, however often it was added: what is left is in order again exactly if no other node has
    // been added twice.
    method RemoveNode(node: string)
      requires Listed() && CollisionFree(hash, replicas, Nodes() + {node})
      modifies this
      ensures Listed() && nodes == Without(old(nodes), node)
      ensures ring == WithoutPoints(hash, old(ring), node, replicas)
      ensures forall k :: k in ring <==> k in old(ring) && !Labels(hash, node, replicas, k)
      ensures forall k :: k in ring ==> ring[k] == old(ring)[k]
      ensures Rest(keys, old(keys), ring)
      ensures Valid() <==> forall k :: k in old(keys) && old(ring)[k] != node ==> multiset(old(keys))[k] == 1
    {
      hide RingOf, CollisionFree, WithoutPoints, StrictlySorted, Sorted, Without, Rest, Labels;
      LabelsRemoved(hash, ring, node, replicas);
      ghost var r, listed, points := ring, keys, Nodes();
      RingShrinks(hash, replicas, ring, points, node);
      WithoutPointsAre(hash, ring, node, replicas);
      WithoutNodes(nodes, node);
      nodes := Splice(nodes, node);
      assert Nodes() == points - {node};
      RemovePoints(node);
      FewerCollide(hash, replicas, points, node);
      RestOnce(keys, listed, ring, r, node);
    }

    method RemovePoints(node: string)
      requires Sorted(keys) && forall k :: k in keys <==> k in ring
      modifies this`keys, this`ring
      ensures Sorted(keys) && Rest(keys, old(keys), ring) && forall k :: k in keys <==> k in ring
      ensures ring == WithoutPoints(hash, old(ring), node, replicas)
    {
      hide Sorted, Without, Rest, Point, WithoutPoints;
      RestAll(keys, ring);
      WithoutNone(hash, ring, node);
      for j := 0 to replicas
        invariant Sorted(keys) && Rest(keys, old(keys), ring) && forall k :: k in keys <==> k in ring
        invariant ring == WithoutPoints(hash, old(ring), node, j)
      {
        var key := Point(hash, node, j);
        WithoutSorted(keys, key);
        WithoutMembers(keys, key);
        RestShrinks(keys, old(keys), ring, key);
        ring := ring - {key};
        keys := Splice(keys, key);
        WithoutNext(hash, old(ring), node, j);
      }
    }

    // The keys are searched as far as the ring has points.
    method GetNodePosition(result: nat) returns (pos: int)
      requires Sorted(keys) && |ring| <= |keys|
      ensures ring == map[] ==> pos == -1
      ensures ring != map[] ==> 0 <= pos && Found(keys, |ring|, result, pos)
    {
      var upper := |ring| - 1;
      var lower := 0;
      if upper == 0 {
        return 0;
      }
      while lower <= upper
        invariant 0 <= lower <= upper + 1 <= |ring|
        invariant forall i :: 0 <= i < lower ==> keys[i] < result
        invariant forall i :: upper < i < |ring| ==> keys[i] > result
      {
        var idx := (lower + upper) / 2;
        if keys[idx] == result {
          return idx;
        } else if keys[idx] > result {
          upper := idx - 1;
        } else {
          lower := idx + 1;
        }
      }
      if upper < 0 {
        upper := |ring| - 1;
      }
      return upper;
    }

    // None stands for 0, the answer of an empty ring. The node is the one that the hash of the key belongs to.
    method GetNode(key: string) returns (node: Option<string>)
      requires Sorted(keys) && forall k :: k in keys <==> k in ring
      ensures ring == map[] ==> node == None
      ensures ring != map[] ==> exists pos: nat :: Found(keys, |ring|, hash(key), pos) && node == Some(ring[keys[pos]])
      ensures Valid() ==> AnswersOwner(keys, ring)
      ensures AnswersOwner(keys, ring) ==> forall k :: Owns(ring, hash(key), k) ==> node == Some(ring[k])
      ensures Valid() && ring != map[] ==> exists k :: Owns(ring, hash(key), k) && node == Some(ring[k])
    {
      KeysEnough(keys, ring.Keys);
      if |ring| == 0 {
        return None;
      }
      var pos := GetNodePosition(hash(key));
      assert keys[pos] in keys;
      if Valid() {
        KeyCount(keys, ring.Keys);
        LookupsOwn(keys, ring);
        FoundOwns(keys, ring, hash(key), pos);
      }
      return Some(ring[keys[pos]]);
    }
  }
}
