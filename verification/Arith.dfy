/**
Powers, congruences and common divisors over the integers: the vocabulary in
which the multi-precision routines are specified.
*/
module Arith {

  /* ---------- powers ---------- */

  // b^e
  function Pow(b: int, e: nat): int {
    if e == 0 then 1 else b * Pow(b, e - 1)
  }

  lemma {:induction false} PowAdd(b: int, m: nat, n: nat)
    ensures Pow(b, m + n) == Pow(b, m) * Pow(b, n)
  {
    if m == 0 {
    } else {
      PowAdd(b, m - 1, n);
      assert b * (Pow(b, m - 1) * Pow(b, n)) == (b * Pow(b, m - 1)) * Pow(b, n);
    }
  }

  lemma {:induction false} PowPositive(b: int, e: nat)
    requires 0 < b
    ensures 0 < Pow(b, e)
  {
    if e == 0 {
    } else {
      PowPositive(b, e - 1);
    }
  }

  function Abs(x: int): int { if x < 0 then -x else x }

  /* ---------- division and congruence ---------- */

  lemma MulMono(a: int, b: int, c: int)
    requires a <= b && 0 <= c
    ensures a * c <= b * c
  {}

  lemma MulAdd(a: int, b: int, c: int)
    ensures (b + c) * a == b * a + c * a
    ensures (-c) * a == -(c * a)
  {}

  lemma MulDiff(a: int, b: int, c: int)
    ensures a * (b - c) == a * b - a * c
  {}

  lemma MulStrict(a: int, b: int, c: int)
    requires a * c < b * c && 0 <= c
    ensures a < b
  {}

  lemma DivModUnique(a: int, m: int, q: int, r: int)
    requires 0 <= r < m && a == q * m + r
    ensures a / m == q && a % m == r
  {
    var q', r' := a / m, a % m;
    assert a == q' * m + r';
    assert (q - q') * m == r' - r;
    if q < q' {
      MulMono(q - q', -1, m);
    } else if q' < q {
      MulMono(1, q - q', m);
    }
  }

  // a and b leave the same remainder modulo m
  ghost predicate Cong(a: int, b: int, m: int)
    requires 0 < m
  {
    a % m == b % m
  }

  lemma CongRefl(a: int, m: int)
    requires 0 < m
    ensures Cong(a, a, m)
  {}

  lemma CongTrans(a: int, b: int, c: int, m: int)
    requires 0 < m && Cong(a, b, m) && Cong(b, c, m)
    ensures Cong(a, c, m)
  {}

  lemma CongIntro(a: int, b: int, m: int, k: int)
    requires 0 < m && a == b + k * m
    ensures Cong(a, b, m)
  {
    var q, r := b / m, b % m;
    assert b == q * m + r;
    assert a == (q + k) * m + r;
    DivModUnique(a, m, q + k, r);
  }

  lemma CongElim(a: int, b: int, m: int) returns (k: int)
    requires 0 < m && Cong(a, b, m)
    ensures a == b + k * m
  {
    k := a / m - b / m;
    assert a == (a / m) * m + a % m;
    assert b == (b / m) * m + b % m;
  }

  lemma CongAdd(a: int, b: int, c: int, d: int, m: int)
    requires 0 < m && Cong(a, b, m) && Cong(c, d, m)
    ensures Cong(a + c, b + d, m) && Cong(a - c, b - d, m)
  {
    var k := CongElim(a, b, m);
    var l := CongElim(c, d, m);
    assert k * m + l * m == (k + l) * m;
    assert k * m - l * m == (k - l) * m;
    CongIntro(a + c, b + d, m, k + l);
    CongIntro(a - c, b - d, m, k - l);
  }

  lemma CongMul(a: int, b: int, c: int, d: int, m: int)
    requires 0 < m && Cong(a, b, m) && Cong(c, d, m)
    ensures Cong(a * c, b * d, m)
  {
    hide Cong;
    var k := CongElim(a, b, m);
    var l := CongElim(c, d, m);
    MulShift(b, k, c, m);
    MulShift(d, l, b, m);
    assert (k * c + l * b) * m == (k * c) * m + (l * b) * m;
    CongIntro(a * c, b * d, m, k * c + l * b);
  }

  lemma MulShift(b: int, k: int, c: int, m: int)
    ensures (b + k * m) * c == b * c + (k * c) * m
  {
    assert (b + k * m) * c == b * c + (k * m) * c;
  }

  lemma CongMod(a: int, m: int)
    requires 0 < m
    ensures Cong(a % m, a, m)
  {
    assert a == (a / m) * m + a % m;
    CongIntro(a, a % m, m, a / m);
  }

  lemma CongSmall(a: int, b: int, m: int)
    requires 0 < m && Cong(a, b, m) && 0 <= a < m && 0 <= b < m
    ensures a == b
  {
    DivModUnique(a, m, 0, a);
    DivModUnique(b, m, 0, b);
  }

  lemma CongSmallMod(a: int, b: int, m: int)
    requires 0 < m && Cong(a, b, m) && 0 <= a < m
    ensures a == b % m
  {
    DivModUnique(a, m, 0, a);
  }

  // A factor that has an inverse modulo m can be cancelled.
  lemma CongCancel(a: int, b: int, c: int, inv: int, m: int)
    requires 0 < m && Cong(c * inv, 1, m) && Cong(a * c, b * c, m)
    ensures Cong(a, b, m)
  {
    CongMul(a * c, b * c, inv, inv, m);
    CongMul(a, a, c * inv, 1, m);
    CongMul(b, b, c * inv, 1, m);
    assert a * c * inv == a * (c * inv);
    assert b * c * inv == b * (c * inv);
  }

  lemma {:induction false} CongPow(a: int, b: int, e: nat, m: int)
    requires 0 < m && Cong(a, b, m)
    ensures Cong(Pow(a, e), Pow(b, e), m)
  {
    if e == 0 {
    } else {
      CongPow(a, b, e - 1, m);
      CongMul(a, b, Pow(a, e - 1), Pow(b, e - 1), m);
    }
  }
}
