/**
How far the coefficients of the binary inversion can run away from [0, m).
*/
module InverseRange {
  import opened Arith
  import opened BinaryInverse

  /* ---------- bit lengths ---------- */

  function Bits(x: nat): nat {
    if x == 0 then 0 else 1 + Bits(x / 2)
  }

  lemma {:induction false} BitsMono(x: nat, y: nat)
    requires x <= y
    ensures Bits(x) <= Bits(y)
  {
    if x > 0 {
      BitsMono(x / 2, y / 2);
    }
  }

  // The difference of two numbers of one length is shorter.
  lemma {:induction false} BitsDiff(x: nat, y: nat)
    requires 0 < y <= x && Bits(x) == Bits(y)
    ensures Bits(x - y) < Bits(x)
  {
    if x / 2 == y / 2 {
      BitsMono(x - y, 1);
      if x > y {
        assert x >= 2 && Bits(x) >= 2;
      }
    } else {
      assert 0 < y / 2;
      BitsDiff(x / 2, y / 2);
      BitsMono((x - y) / 2, x / 2 - y / 2);
    }
  }

  // Half the difference of two odd numbers has one bit less than the larger, two if they are of one length.
  lemma HalfDiffBits(x: nat, y: nat)
    requires 0 < y < x && x % 2 == 1 && y % 2 == 1
    ensures 0 < (x - y) / 2 && Bits((x - y) / 2) < Bits(x)
    ensures Bits(x) == Bits(y) ==> Bits((x - y) / 2) < Bits(x) - 1
  {
    BitsMono((x - y) / 2, x / 2);
    if Bits(x) == Bits(y) {
      BitsDiff(x, y);
    }
  }

  lemma SixBits(x: nat)
    requires x < 64
    ensures Bits(x) <= 6
  {
    BitsMono(x, 63);
  }

  /* ---------- the bounds ---------- */

  function Least(s: nat, r: nat): nat {
    if s <= r then s else r
  }

  // In the following u and v have lost s and r of the n bits of x, and b and d are their coefficients. The
  // distance of b from -m/2, that of d from 0 and the sum of both are so many 32nds of m.
  function WideU(s: nat, r: nat): int {
    if Least(s, r) == 0 then 16
    else 24 + 8 * Least(s, r) + if s < r then 2 else if s <= r + 1 then 0 else 4
  }

  function WideV(s: nat, r: nat): int {
    if r == 0 then 0
    else if s == 0 then if r == 1 then 24 else 32
    else 24 + 8 * Least(s, r) + if r < s then 2 else if r == s then -1 else if r == s + 1 then 0 else 4
  }

  function WideSum(s: nat, r: nat): int {
    if Least(s, r) == 0 then WideU(s, r) + WideV(s, r)
    else
      48 + 16 * Least(s, r)
      + if r + 1 < s then 3 else if r + 1 == s then -2 else if r == s then -8 else if r == s + 1 then 0 else 4
  }

  // Taking v from u and halving: b moves half of what b and d are off together, and m/4.
  lemma WidenU(s: nat, r: nat, s': nat)
    requires s <= r && s < s' && (s == r ==> s + 1 < s')
    ensures 2 * WideU(s', r) >= WideSum(s, r) + 16
    ensures WideV(s', r) >= WideV(s, r)
    ensures 2 * WideSum(s', r) >= WideSum(s, r) + 2 * WideV(s, r) + 16
  {}

  lemma WidenV(s: nat, r: nat, r': nat)
    requires r <= s && r < r' && (s == r ==> r + 1 < r')
    ensures 2 * WideV(s, r') >= WideSum(s, r) + 16
    ensures WideU(s, r') >= WideU(s, r)
    ensures 2 * WideSum(s, r') >= WideSum(s, r) + 2 * WideU(s, r) + 16
  {}

  // Halving once more.
  lemma HalveU(s: nat, r: nat)
    requires 0 < s
    ensures 2 * WideU(s + 1, r) >= WideU(s, r) + 16
    ensures WideV(s + 1, r) >= WideV(s, r)
    ensures 2 * WideSum(s + 1, r) >= WideSum(s, r) + WideV(s, r) + 16
  {}

  lemma HalveV(s: nat, r: nat)
    requires 0 < r
    ensures 2 * WideV(s, r + 1) >= WideV(s, r) + 32
    ensures WideU(s, r + 1) >= WideU(s, r)
    ensures 2 * WideSum(s, r + 1) >= WideSum(s, r) + WideU(s, r) + 32
  {}

  // The 32nds of m by which halving x itself r times can push d down.
  function Start(r: nat): nat {
    if r == 0 then 0 else if r == 1 then 16 else if r == 2 then 24 else 32
  }

  lemma StartFits(s: nat, r: nat)
    requires r <= s
    ensures WideU(s, r) >= Start(r) + 16 && WideV(s, r) >= Start(r)
    ensures WideSum(s, r) >= 2 * Start(r) + 16
  {}

  // e and f stand for the distances of b and d, in 32nds.
  ghost predicate Within(e: int, f: int, s: nat, r: nat, m: int) {
    e <= WideU(s, r) * m + 32 && f <= WideV(s, r) * m + 32 && e + f <= WideSum(s, r) * m + 64
  }

  lemma ScaleHalf(k: int, c: int, l: int, m: int)
    requires k + c <= 2 * l && 0 < m
    ensures k * m + c * m <= 2 * (l * m)
  {
    MulMono(k + c, 2 * l, m);
    assert (k + c) * m == k * m + c * m;
  }

  // The same for the sum of two bounds.
  lemma ScaleSum(k: int, l: int, c: int, o: int, m: int)
    requires k + l + c <= 2 * o && 0 < m
    ensures k * m + l * m + c * m <= 2 * (o * m)
  {
    ScaleHalf(k + l, c, o, m);
    assert (k + l) * m == k * m + l * m;
  }

  lemma WithinU(e: int, f: int, s: nat, r: nat, e': int, s': nat, m: int)
    requires Within(e, f, s, r, m) && 0 < m && 2 * e' <= e + f + 16 * m
    requires s <= r && s < s' && (s == r ==> s + 1 < s')
    ensures Within(e', f, s', r, m)
  {
    hide WideU, WideV, WideSum;
    WidenU(s, r, s');
    ScaleHalf(WideSum(s, r), 16, WideU(s', r), m);
    MulMono(WideV(s, r), WideV(s', r), m);
    ScaleSum(WideSum(s, r), 2 * WideV(s, r), 16, WideSum(s', r), m);
    assert (2 * WideV(s, r)) * m == 2 * (WideV(s, r) * m);
  }

  lemma WithinV(e: int, f: int, s: nat, r: nat, f': int, r': nat, m: int)
    requires Within(e, f, s, r, m) && 0 < m && 2 * f' <= e + f + 16 * m
    requires r <= s && r < r' && (s == r ==> r + 1 < r')
    ensures Within(e, f', s, r', m)
  {
    hide WideU, WideV, WideSum;
    WidenV(s, r, r');
    ScaleHalf(WideSum(s, r), 16, WideV(s, r'), m);
    MulMono(WideU(s, r), WideU(s, r'), m);
    ScaleSum(WideSum(s, r), 2 * WideU(s, r), 16, WideSum(s, r'), m);
    assert (2 * WideU(s, r)) * m == 2 * (WideU(s, r) * m);
  }

  lemma WithinHalvedU(e: int, f: int, s: nat, r: nat, e': int, m: int)
    requires Within(e, f, s, r, m) && 0 < m && 2 * e' <= e + 16 * m && 0 < s
    ensures Within(e', f, s + 1, r, m)
  {
    hide WideU, WideV, WideSum;
    HalveU(s, r);
    ScaleHalf(WideU(s, r), 16, WideU(s + 1, r), m);
    MulMono(WideV(s, r), WideV(s + 1, r), m);
    ScaleSum(WideSum(s, r), WideV(s, r), 16, WideSum(s + 1, r), m);
  }

  lemma WithinHalvedV(e: int, f: int, s: nat, r: nat, f': int, m: int)
    requires Within(e, f, s, r, m) && 0 < m && 2 * f' <= f + 32 * m && 0 < r
    ensures Within(e, f', s, r + 1, m)
  {
    hide WideU, WideV, WideSum;
    HalveV(s, r);
    ScaleHalf(WideV(s, r), 32, WideV(s, r + 1), m);
    MulMono(WideU(s, r), WideU(s, r + 1), m);
    ScaleSum(WideSum(s, r), WideU(s, r), 32, WideSum(s, r + 1), m);
  }

  /* ---------- the run keeps the bounds ---------- */

  // Once both numbers have at most the n bits of x.
  ghost predicate Near(n: nat, p: Row, q: Row, m: int) {
    && 0 < p.n && 0 < q.n && Bits(p.n) <= n && Bits(q.n) <= n
    && Within(16 * Abs(2 * p.b + m), 32 * Abs(q.b), n - Bits(p.n), n - Bits(q.n), m)
  }

  // Before that, while x is taken from the larger number only.
  ghost predicate Far(n: nat, p: Row, q: Row, m: int) {
    && 0 < p.n && 0 < q.n && Bits(q.n) <= n
    && -m - 1 <= p.b && 32 * p.b <= Start(n - Bits(q.n)) * m + 32
    && -(Start(n - Bits(q.n)) * m) <= 32 * q.b && q.b <= 1
  }

  ghost predicate Bounded(n: nat, p: Row, q: Row, m: int) {
    Near(n, p, q, m) || (p.n >= q.n && Far(n, p, q, m))
  }

  lemma Settles(n: nat, p: Row, q: Row, m: int)
    requires Far(n, p, q, m) && p.n < q.n && 0 < m
    ensures Near(n, p, q, m)
  {
    hide WideU, WideV, WideSum, Start, Bits;
    BitsMono(p.n, q.n);
    var s, r := n - Bits(p.n), n - Bits(q.n);
    StartFits(s, r);
    MulMono(0, Start(r), m);
    WithinStart(16 * Abs(2 * p.b + m), 32 * Abs(q.b), s, r, m);
  }

  lemma WithinStart(e: int, f: int, s: nat, r: nat, m: int)
    requires 0 < m && e <= Start(r) * m + 16 * m + 32 && f <= Start(r) * m + 32
    requires WideU(s, r) >= Start(r) + 16 && WideV(s, r) >= Start(r) && WideSum(s, r) >= 2 * Start(r) + 16
    ensures Within(e, f, s, r, m)
  {
    hide WideU, WideV, WideSum, Start;
    var k := Start(r);
    MulMono(k + 16, WideU(s, r), m);
    MulMono(k, WideV(s, r), m);
    MulMono(2 * k + 16, WideSum(s, r), m);
    assert (k + 16) * m == k * m + 16 * m && (2 * k + 16) * m == 2 * (k * m) + 16 * m;
  }

  lemma {:induction false} OddNearU(ac: bool, n: nat, p: Row, q: Row, m: int, x: int)
    requires Near(n, p, q, m) && Bits(p.n) < n && 0 < m && Sound(ac, p, m, x)
    ensures Near(n, Odd(ac, p, m, x), q, m) && Sound(ac, Odd(ac, p, m, x), m, x)
    decreases p.n
  {
    if p.n % 2 == 0 {
      var h := Half(ac, p, m, x);
      HalfIsExact(ac, p, m, x);
      assert Bits(p.n) == 1 + Bits(h.n);
      hide Bits, Half, Sound;
      WithinHalvedU(16 * Abs(2 * p.b + m), 32 * Abs(q.b), n - Bits(p.n), n - Bits(q.n), 16 * Abs(2 * h.b + m), m);
      OddNearU(ac, n, h, q, m, x);
    }
  }

  lemma {:induction false} OddNearV(ac: bool, n: nat, p: Row, q: Row, m: int, x: int)
    requires Near(n, p, q, m) && Bits(q.n) < n && 0 < m && Sound(ac, q, m, x)
    ensures Near(n, p, Odd(ac, q, m, x), m) && Sound(ac, Odd(ac, q, m, x), m, x)
    decreases q.n
  {
    if q.n % 2 == 0 {
      var h := Half(ac, q, m, x);
      HalfIsExact(ac, q, m, x);
      assert Bits(q.n) == 1 + Bits(h.n);
      hide Bits, Half, Sound;
      WithinHalvedV(16 * Abs(2 * p.b + m), 32 * Abs(q.b), n - Bits(p.n), n - Bits(q.n), 32 * Abs(h.b), m);
      OddNearV(ac, n, p, h, m, x);
    }
  }

  lemma {:induction false} OddFarU(ac: bool, n: nat, p: Row, q: Row, m: int, x: int)
    requires Far(n, p, q, m) && 0 < m && Sound(ac, p, m, x)
    ensures Far(n, Odd(ac, p, m, x), q, m) && Sound(ac, Odd(ac, p, m, x), m, x)
    decreases p.n
  {
    if p.n % 2 == 0 {
      HalfIsExact(ac, p, m, x);
      MulMono(0, Start(n - Bits(q.n)), m);
      hide Bits, Half, Sound, Start;
      OddFarU(ac, n, Half(ac, p, m, x), q, m, x);
    }
  }

  lemma {:induction false} OddFarV(ac: bool, n: nat, p: Row, q: Row, m: int, x: int)
    requires Far(n, p, q, m) && 0 < m && Sound(ac, q, m, x)
    ensures Far(n, p, Odd(ac, q, m, x), m) && Sound(ac, Odd(ac, q, m, x), m, x)
    decreases q.n
  {
    if q.n % 2 == 0 {
      var h := Half(ac, q, m, x);
      HalfIsExact(ac, q, m, x);
      var r := n - Bits(q.n);
      assert Bits(q.n) == 1 + Bits(h.n);
      MulMono(Start(r) + 32, 2 * Start(r + 1), m);
      MulMono(Start(r), Start(r + 1), m);
      hide Bits, Half, Sound, Start;
      OddFarV(ac, n, p, h, m, x);
    }
  }

  // h is half of what p and q differ by.
  ghost predicate HalvesDifference(h: Row, p: Row, q: Row, m: int) {
    && 0 < q.n < p.n && 2 * h.n == p.n - q.n && (2 * h.b == p.b - q.b || 2 * h.b == p.b - q.b - m)
    && 0 < h.n && Bits(h.n) < Bits(p.n) && (Bits(p.n) == Bits(q.n) ==> Bits(h.n) + 1 < Bits(p.n))
  }

  lemma HalfDifference(ac: bool, p: Row, q: Row, m: int, x: int) returns (h: Row)
    requires 0 < q.n < p.n && p.n % 2 == 1 && q.n % 2 == 1 && Sound(ac, p, m, x) && Sound(ac, q, m, x)
    ensures HalvesDifference(h, p, q, m) && Sound(ac, h, m, x)
    ensures Odd(ac, Minus(ac, p, q), m, x) == Odd(ac, h, m, x)
  {
    hide Sound, Half, Bits;
    h := Half(ac, Minus(ac, p, q), m, x);
    MinusIsSound(ac, p, q, m, x);
    HalfIsExact(ac, Minus(ac, p, q), m, x);
    HalfDiffBits(p.n, q.n);
  }

  lemma NearDifferenceU(n: nat, p: Row, q: Row, h: Row, m: int)
    requires Near(n, p, q, m) && 0 < m && p.n > q.n && HalvesDifference(h, p, q, m)
    ensures Near(n, h, q, m) && Bits(h.n) < n
  {
    hide Bits, Within;
    BitsMono(q.n, p.n);
    WithinU(16 * Abs(2 * p.b + m), 32 * Abs(q.b), n - Bits(p.n), n - Bits(q.n),
            16 * Abs(2 * h.b + m), n - Bits(h.n), m);
  }

  lemma NearDifferenceV(n: nat, p: Row, q: Row, h: Row, m: int)
    requires Near(n, p, q, m) && 0 < m && p.n < q.n && HalvesDifference(h, q, p, m)
    ensures Near(n, p, h, m) && Bits(h.n) < n
  {
    hide Bits, Within;
    BitsMono(p.n, q.n);
    WithinV(16 * Abs(2 * p.b + m), 32 * Abs(q.b), n - Bits(p.n), n - Bits(q.n), 32 * Abs(h.b), n - Bits(h.n), m);
  }

  lemma FarDifference(n: nat, p: Row, q: Row, h: Row, m: int)
    requires Far(n, p, q, m) && 0 < m && HalvesDifference(h, p, q, m)
    ensures Far(n, h, q, m)
  {
    hide Bits, Start;
  }

  // One pass that takes v from u.
  lemma StepU(ac: bool, n: nat, p: Row, q: Row, m: int, x: int)
    requires Bounded(n, p, q, m) && 0 < m && p.n > q.n && p.n % 2 == 1 && q.n % 2 == 1
    requires Sound(ac, p, m, x) && Sound(ac, q, m, x)
    ensures Bounded(n, Odd(ac, Minus(ac, p, q), m, x), q, m)
    ensures Sound(ac, Odd(ac, Minus(ac, p, q), m, x), m, x)
  {
    assert 0 < p.n && 0 < q.n;
    hide Bits, Sound, Near, Far, Within, Start;
    var h := HalfDifference(ac, p, q, m, x);
    if Near(n, p, q, m) {
      NearDifferenceU(n, p, q, h, m);
      OddNearU(ac, n, h, q, m, x);
    } else {
      FarDifference(n, p, q, h, m);
      OddFarU(ac, n, h, q, m, x);
      if Odd(ac, h, m, x).n < q.n {
        Settles(n, Odd(ac, h, m, x), q, m);
      }
    }
  }

  // One pass that takes u from v.
  lemma StepV(ac: bool, n: nat, p: Row, q: Row, m: int, x: int)
    requires Bounded(n, p, q, m) && 0 < m && p.n < q.n && p.n % 2 == 1 && q.n % 2 == 1
    requires Sound(ac, p, m, x) && Sound(ac, q, m, x)
    ensures Bounded(n, p, Odd(ac, Minus(ac, q, p), m, x), m)
    ensures Sound(ac, Odd(ac, Minus(ac, q, p), m, x), m, x)
  {
    assert 0 < p.n && 0 < q.n;
    hide Bits, Sound, Near, Far, Within, Start;
    var h := HalfDifference(ac, q, p, m, x);
    NearDifferenceV(n, p, q, h, m);
    OddNearV(ac, n, p, h, m, x);
  }

  /* ---------- the result ---------- */

  lemma EndWithin(n: nat, p: Row, q: Row, m: int)
    requires Bounded(n, p, q, m) && 0 < m && p.n == q.n
    ensures 32 * Abs(q.b) <= (8 * n + 15) * m + 32
  {
    var r := n - Bits(q.n);
    if Near(n, p, q, m) {
      MulMono(WideV(r, r), 8 * n + 15, m);
    } else {
      MulMono(Start(r), 8 * n + 15, m);
    }
  }

  lemma {:induction false} LastWithin(ac: bool, n: nat, p: Row, q: Row, m: int, x: int)
    requires 0 < m && 0 < p.n && 0 < q.n
    requires Bounded(n, Odd(ac, p, m, x), Odd(ac, q, m, x), m)
    requires Sound(ac, Odd(ac, p, m, x), m, x) && Sound(ac, Odd(ac, q, m, x), m, x)
    ensures 32 * Abs(Last(ac, p, q, m, x)) <= (8 * n + 15) * m + 32
    decreases p.n + q.n
  {
    hide Bounded, Sound;
    var p1, q1 := Odd(ac, p, m, x), Odd(ac, q, m, x);
    Turn(ac, p, q, p1, q1, m, x);
    hide Last;
    if p1.n == q1.n {
      LastOfZero(ac, Minus(ac, p1, q1), q1, m, x);
      EndWithin(n, p1, q1, m);
    } else if p1.n > q1.n {
      StepU(ac, n, p1, q1, m, x);
      LastWithin(ac, n, Minus(ac, p1, q1), q1, m, x);
    } else {
      StepV(ac, n, p1, q1, m, x);
      LastWithin(ac, n, p1, Minus(ac, q1, p1), m, x);
    }
  }

  // The run for x of n bits ends with a coefficient of at most (8n + 15)/32 times m, and 1.
  lemma CoefficientWithin(m: int, x: int)
    requires 1 < m && 0 < x && (m % 2 == 1 || x % 2 == 1)
    ensures 32 * Abs(LastCoefficient(m, x)) <= (8 * Bits(x) + 15) * m + 32
  {
    hide Odd, Last, Bits;
    var ac, n, p, q := m % 2 == 0, Bits(x), Row(m, 1, 0), Row(x, 0, 1);
    OddFarU(ac, n, p, q, m, x);
    OddFarV(ac, n, Odd(ac, p, m, x), q, m, x);
    if Odd(ac, p, m, x).n < Odd(ac, q, m, x).n {
      Settles(n, Odd(ac, p, m, x), Odd(ac, q, m, x), m);
    }
    LastWithin(ac, n, p, q, m, x);
  }

  // So what the corrections make of it is at most (n + 3)/4 times m, and 1, for every input.
  lemma InverseWithin(m: int, x: int)
    requires 1 < m && 0 < x && (m % 2 == 1 || x % 2 == 1)
    ensures 4 * Abs(Corrected(LastCoefficient(m, x), m)) <= (Bits(x) + 3) * m + 4
  {
    assert 0 < Bits(x);
    hide LastCoefficient, Bits, Corrected;
    CoefficientWithin(m, x);
    CorrectedWithin(LastCoefficient(m, x), Bits(x), m);
  }

  lemma CorrectedWithin(d: int, n: nat, m: int)
    requires 0 < m && 0 < n && 32 * Abs(d) <= (8 * n + 15) * m + 32
    ensures 4 * Abs(Corrected(d, m)) <= (n + 3) * m + 4
  {
    MulMono(8 * n + 15, 8 * (n + 3), m);
    MulMono(4, n + 3, m);
    assert (8 * (n + 3)) * m == 8 * ((n + 3) * m);
  }

  // And it is in [0, m) for every x of at most six bits that has an inverse: the coefficient is at most 2 m then,
  // and 2 m is no inverse.
  lemma SmallInverseInRange(m: int, x: int)
    requires 1 < m && 0 < x < 64 && (m % 2 == 1 || x % 2 == 1)
    requires Cong(Corrected(LastCoefficient(m, x), m) * x, 1, m)
    ensures 0 <= Corrected(LastCoefficient(m, x), m) < m
  {
    hide LastCoefficient, Bits;
    var d := LastCoefficient(m, x);
    CoefficientWithin(m, x);
    CorrectedInRange(d, m);
    SixBits(x);
    MulMono(8 * Bits(x) + 15, 63, m);
    if d == 2 * m {
      MultipleNoInverse(x, m);
    }
  }

  lemma MultipleNoInverse(x: int, m: int)
    requires 1 < m
    ensures !Cong(m * x, 1, m)
  {
    CongIntro(m * x, 0, m, x);
  }
}
