/**
Barrett reduction: the quotient by m is estimated with a multiplication by the
precomputed mu = B^2t / m, and what is left after taking it off is only a few m too large.
*/
module Barrett {
  import opened Arith
  import opened Digits
  import opened BigIntegers
  import Division

  /* ---------- the upper part of a product ---------- */

  // After i rows, sum stands for x times the first i digits of a, without its lower n digits;
  // each row has lost less than B.
  ghost predicate UpperRows(r: Store, x: Store, xt: nat, a: Store, n: nat, i: nat, sum: int) {
    && n <= xt && Proper(r, 0, xt + i - n) && Val(r, 0, xt + i - n) == sum
    && sum * W(n) <= Val(x, 0, xt) * Val(a, 0, i)
    && Val(x, 0, xt) * Val(a, 0, i) <= (sum + i * B) * W(n)
  }

  lemma NoUpperRows(r: Store, x: Store, xt: nat, a: Store, n: nat)
    requires n <= xt && forall k :: 0 <= k < xt - n ==> k in r && r[k] == 0
    ensures UpperRows(r, x, xt, a, n, 0, 0)
  {
    ValZero(r, 0, xt - n);
    ValEmpty(a, 0);
  }

  lemma UpperRow(r0: Store, r1: Store, x: Store, xt: nat, a: Store, n: nat, i: nat, sum: int, c: int)
    requires UpperRows(r0, x, xt, a, n, i, sum) && i <= n && Proper(x, 0, xt)
    requires i in a && 0 <= c <= a[i] < B && Proper(r1, 0, xt + i - n)
    requires Val(r1, 0, xt + i - n) + c * W(xt + i - n)
          == Val(r0, 0, xt + i - n) + a[i] * Val(x, n - i, xt + i - n) + 0
    ensures UpperRows(r1[xt + i - n := c], x, xt, a, n, i + 1, sum + a[i] * Val(x, n - i, xt + i - n))
  {
    hide Val, W;
    ValPut(r1, 0, xt + i - n, c);
    var hi, lo := Val(x, n - i, xt + i - n), Val(x, 0, n - i);
    ValSplit(x, 0, n - i, xt + i - n);
    ValBound(x, 0, n - i);
    ValTop(a, 0, i);
    WAdd(n - i, i);
    UpperFactor(Val(x, 0, xt), Val(a, 0, i), a[i], hi, lo, W(n - i), W(i), sum, i);
  }

  lemma UpperFactor(x: int, va: int, y: int, hi: int, lo: int, wn: int, wi: int, sum: int, i: int)
    requires x == lo + wn * hi && 0 <= lo < wn && 0 <= y < B && 0 < wi
    requires sum * (wn * wi) <= x * va <= (sum + i * B) * (wn * wi)
    ensures (sum + y * hi) * (wn * wi) <= x * (va + y * wi) <= (sum + y * hi + (i + 1) * B) * (wn * wi)
  {
    var w, l := wn * wi, lo * wi;
    UpperProduct(x, va, y, hi, lo, wn, wi);
    MulMono(0, lo, wi);
    MulMono(lo, wn, wi);
    UpperLoss(y, l, w);
    MulAdd(w, sum, y * hi);
    MulAdd(w, sum + i * B, y * hi + B);
    MulAdd(w, y * hi, B);
  }

  lemma UpperProduct(x: int, va: int, y: int, hi: int, lo: int, wn: int, wi: int)
    requires x == lo + wn * hi
    ensures x * (va + y * wi) == x * va + (y * hi) * (wn * wi) + y * (lo * wi)
  {
    assert x * (va + y * wi) == x * va + x * (y * wi);
    assert (lo + wn * hi) * (y * wi) == y * (lo * wi) + (y * hi) * (wn * wi);
  }

  lemma UpperLoss(y: int, l: int, w: int)
    requires 0 <= y < B && 0 <= l <= w
    ensures 0 <= y * l <= B * w
  {
    MulMono(y, B, l);
    MulMono(l, w, B);
    MulMono(0, y, l);
  }

  // r = x * a without its lower n0 digits, at most a.t + 1 too small
  method MultiplyUpperTo(x: BigInteger, a: BigInteger, n0: nat, r: BigInteger) returns (ghost sum: int)
    requires x.Valid() && a.Valid() && x.s == 0 && a.s == 0 && r != x && r != a
    requires 0 < n0 <= x.t + 1 && a.t <= n0
    modifies r
    ensures r.Valid() && r.s == 0 && 0 <= sum && r.Value() == sum / B
    ensures sum * W(n0 - 1) <= x.Value() * a.Value() <= (sum + a.t * B) * W(n0 - 1)
  {
    hide Val, W, Num;
    sum := UpperDigits(x, a, n0 - 1, r);
    NumPositive(x.d, x.t);
    NumPositive(a.d, a.t);
    NumPositive(r.d, r.t);
    r.Clamp();
    r.DRShiftTo(1, r);
    WTop(0);
    ValEmpty(r.d, 0);
  }

  method UpperDigits(x: BigInteger, a: BigInteger, n: nat, r: BigInteger) returns (ghost sum: int)
    requires x.Valid() && a.Valid() && x.s == 0 && a.s == 0 && r != x && r != a && n <= x.t && a.t <= n + 1
    modifies r
    ensures r.Digital() && r.s == 0 && 0 <= sum == Val(r.d, 0, r.t)
    ensures sum * W(n) <= Val(x.d, 0, x.t) * Val(a.d, 0, a.t) <= (sum + a.t * B) * W(n)
  {
    hide Val, W, UpperRows;
    r.t := x.t + a.t - n;
    r.s := 0;
    r.ZeroDigits(r.t);
    NoUpperRows(r.d, x.d, x.t, a.d, n);
    sum := 0;
    var i := 0;
    while i < a.t
      invariant 0 <= i <= a.t && UpperRows(r.d, x.d, x.t, a.d, n, i, sum)
      modifies r`d
    {
      UpperProper(r.d, x.d, x.t, a.d, n, i, sum);
      ghost var r0 := r.d;
      var c := x.Am(n - i, a.d[i], r, 0, 0, x.t + i - n);
      UpperRow(r0, r.d, x.d, x.t, a.d, n, i, sum, c);
      sum := sum + a.d[i] * Val(x.d, n - i, x.t + i - n);
      r.d := r.d[x.t + i - n := c];
      i := i + 1;
    }
    UpperEnd(r.d, x.d, x.t, a.d, n, a.t, sum);
  }

  lemma UpperProper(r: Store, x: Store, xt: nat, a: Store, n: nat, i: nat, sum: int)
    requires UpperRows(r, x, xt, a, n, i, sum)
    ensures n <= xt && Proper(r, 0, xt + i - n)
  {}

  lemma UpperEnd(r: Store, x: Store, xt: nat, a: Store, n: nat, i: nat, sum: int)
    requires UpperRows(r, x, xt, a, n, i, sum)
    ensures Proper(r, 0, xt + i - n) && Val(r, 0, xt + i - n) == sum && 0 <= sum
    ensures sum * W(n) <= Val(x, 0, xt) * Val(a, 0, i) <= (sum + i * B) * W(n)
  {
    ValBound(r, 0, xt + i - n);
  }

  /* ---------- the lower part of a product ---------- */

  ghost predicate LowerRows(r: Store, x: Store, xt: nat, a: Store, n: nat, i: nat) {
    Proper(r, 0, n) && Cong(Val(r, 0, n), Val(x, 0, xt) * Val(a, 0, i), W(n))
  }

  // A row cut off at digit n: the carry that would go above it is a multiple of B^n.
  lemma LowerRow(r0: Store, r1: Store, x: Store, xt: nat, a: Store, n: nat, i: nat, c: int)
    requires LowerRows(r0, x, xt, a, n, i) && i < n <= xt + i && Proper(r1, i, n - i) && Same(r0, r1, 0, i)
    requires Val(r1, i, n - i) + c * W(n - i) == Val(r0, i, n - i) + At(a, i) * Val(x, 0, n - i) + 0
    ensures LowerRows(r1, x, xt, a, n, i + 1)
  {
    hide Val, W, Cong;
    var y, lo, hi := At(a, i), Val(x, 0, n - i), Val(x, n - i, xt + i - n);
    ValWindow(r0, r1, i, n - i, n);
    ValSplit(x, 0, n - i, xt + i - n);
    ValTop(a, 0, i);
    WAdd(i, n - i);
    LowerProper(r0, r1, i, n);
    LowerFactor(Val(r0, 0, n), W(i), W(n - i), y, lo, hi, c, Val(x, 0, xt), Val(a, 0, i),
                Val(r1, i, n - i) - Val(r0, i, n - i));
  }

  lemma LowerProper(r0: Store, r1: Store, i: nat, n: nat)
    requires Proper(r0, 0, n) && i <= n && Proper(r1, i, n - i) && Same(r0, r1, 0, i)
    ensures Proper(r1, 0, n)
  {
    forall k | 0 <= k < i
      ensures k in r1 && 0 <= r1[k] < B
    {
      assert k in r0 && At(r0, k) == At(r1, k);
    }
  }

  lemma LowerFactor(v0: int, wi: int, wr: int, y: int, lo: int, hi: int, c: int, x: int, va: int, diff: int)
    requires 0 < wi * wr && diff + c * wr == y * lo && x == lo + wr * hi && Cong(v0, x * va, wi * wr)
    ensures Cong(v0 + wi * diff, x * (va + y * wi), wi * wr)
  {
    var m := wi * wr;
    assert x * (va + y * wi) == x * va + (wi * diff + (c + y * hi) * m) by {
      assert (lo + wr * hi) * (y * wi) == wi * (y * lo) + (y * hi) * (wi * wr);
      assert wi * (diff + c * wr) == wi * diff + c * (wi * wr);
      MulAdd(m, c, y * hi);
    }
    CongIntro(wi * diff + (c + y * hi) * m, wi * diff, m, c + y * hi);
    CongAdd(v0, x * va, wi * diff, wi * diff + (c + y * hi) * m, m);
  }

  // The rows that fit below digit r.t as a whole.
  method WholeRows(x: BigInteger, a: BigInteger, j: int, r: BigInteger) returns (i: nat)
    requires x.Digital() && a.Digital() && r != x && r != a && j <= a.t
    requires forall k :: 0 <= k < x.t ==> k in r.d && r.d[k] == 0
    modifies r`d
    ensures i == (if j < 0 then 0 else j) && RowsDone(r.d, x.d, x.t, a.d, i)
  {
    hide Val, W, RowsDone;
    NoRows(r.d, x.d, x.t, a.d);
    i := 0;
    while i < j
      invariant 0 <= i <= (if j < 0 then 0 else j) && RowsDone(r.d, x.d, x.t, a.d, i)
    {
      RowsProper(r.d, x.d, x.t, a.d, i);
      ghost var r0 := r.d;
      var c := x.Am(0, a.d[i], r, i, 0, x.t);
      MultiplyRow(r0, r.d, x.d, x.t, a.d, i, c);
      r.d := r.d[i + x.t := c];
      i := i + 1;
    }
  }

  // r = x * a modulo B^n
  method MultiplyLowerTo(x: BigInteger, a: BigInteger, n: nat, r: BigInteger)
    requires x.Valid() && a.Valid() && x.s == 0 && a.s == 0 && r != x && r != a
    requires x.t <= n && a.t <= n
    modifies r
    ensures r.Valid() && r.s == 0 && r.Value() == (x.Value() * a.Value()) % W(n)
  {
    hide Val, W, Num, RowsDone, LowerRows, Cong;
    r.s := 0;
    r.t := if x.t + a.t < n then x.t + a.t else n;
    r.ZeroDigits(r.t);
    var i := WholeRows(x, a, r.t - x.t, r);
    RowsToLower(r.d, x.d, x.t, a.d, i, n);
    while i < a.t
      invariant r.t - x.t <= i <= a.t && (i < a.t ==> r.t == n) && LowerRows(r.d, x.d, x.t, a.d, r.t, i)
      modifies r`d
    {
      RowsLower(r.d, x.d, x.t, a.d, n, i);
      ghost var r0 := r.d;
      var c := x.Am(0, a.d[i], r, i, 0, n - i);
      LowerRow(r0, r.d, x.d, x.t, a.d, n, i, c);
      i := i + 1;
    }
    LowerEnd(x, a, n, r.d, r.t);
    r.Clamp();
  }

  lemma RowsLower(r: Store, x: Store, xt: nat, a: Store, n: nat, i: nat)
    requires LowerRows(r, x, xt, a, n, i)
    ensures Proper(r, 0, n)
  {}

  // The whole rows are exact.
  lemma RowsToLower(r: Store, x: Store, xt: nat, a: Store, i: nat, n: nat)
    requires RowsDone(r, x, xt, a, i)
    ensures LowerRows(r, x, xt, a, i + xt, i)
  {}

  lemma LowerEnd(x: BigInteger, a: BigInteger, n: nat, r: Store, t: nat)
    requires x.Valid() && a.Valid() && x.s == 0 && a.s == 0 && LowerRows(r, x.d, x.t, a.d, t, a.t)
    requires t == if x.t + a.t < n then x.t + a.t else n
    ensures Proper(r, 0, t) && Num(r, t, 0) == (x.Value() * a.Value()) % W(n)
  {
    hide Val, W, Cong;
    var p := x.Value() * a.Value();
    NumBounds(x.d, x.t, 0);
    NumBounds(a.d, a.t, 0);
    ValBound(r, 0, t);
    CongSmallMod(Val(r, 0, t), p, W(t));
    if t < n {
      WAdd(x.t, a.t);
      ProductBelow(x.Value(), a.Value(), W(x.t), W(a.t));
      WMono(t, n);
      DivModUnique(p, W(t), 0, p);
      DivModUnique(p, W(n), 0, p);
    }
  }

  lemma ProductBelow(x: int, y: int, v: int, w: int)
    requires 0 <= x < v && 0 <= y < w
    ensures 0 <= x * y < v * w
  {
    MulMono(0, x, y);
    MulMono(x, v, y);
    MulMono(y + 1, w, v);
  }

  /* ---------- the reduction ---------- */

  // mu and the two products together underestimate the quotient x / m, by at most rows + 2.
  lemma QuotientEstimate(x: int, m: int, mu: int, q1: int, q3: int, sum: int, rows: nat, w1: int, wt: int)
    requires 0 < w1 <= m < wt && wt == B * w1
    requires 0 <= x < wt * wt && mu == (wt * wt) / m && q1 == x / w1 && q3 == sum / B
    requires sum * wt <= mu * q1 <= (sum + rows * B) * wt
    ensures q3 * m <= x < (q3 + rows + 3) * m
  {
    EstimateHigh(x, m, mu, q1, q3, sum, w1, wt);
    EstimateLow(x, m, mu, q1, q3, sum, rows, w1, wt);
  }

  lemma EstimateHigh(x: int, m: int, mu: int, q1: int, q3: int, sum: int, w1: int, wt: int)
    requires 0 < w1 <= m < wt && wt == B * w1
    requires 0 <= x < wt * wt && mu == (wt * wt) / m && q1 == x / w1 && q3 == sum / B
    requires sum * wt <= mu * q1
    ensures q3 * m <= x
  {
    var n, p := wt * wt, (q3 * B) * wt;
    DivBounds(n, m);
    DivBounds(x, w1);
    assert p <= mu * q1 by {
      MulMono(q3 * B, sum, wt);
    }
    HighChain(p, x, m, mu, q1, w1, n);
    HighFactor(q3, m, w1, wt);
    MulCancel(q3 * m, x, n);
  }

  lemma HighChain(p: int, x: int, m: int, mu: int, q1: int, w1: int, n: int)
    requires 0 < w1 && 0 < m && 0 <= n && p <= mu * q1 && mu * m <= n && 0 <= q1 * w1 <= x
    ensures p * (m * w1) <= x * n
  {
    MulMono(p, mu * q1, m * w1);
    assert (mu * q1) * (m * w1) == (mu * m) * (q1 * w1);
    MulMono(mu * m, n, q1 * w1);
    MulMono(q1 * w1, x, n);
  }

  lemma HighFactor(q3: int, m: int, w1: int, wt: int)
    requires wt == B * w1
    ensures ((q3 * B) * wt) * (m * w1) == (q3 * m) * (wt * wt)
  {
    assert ((q3 * B) * wt) * (m * w1) == (q3 * m) * ((B * w1) * wt);
  }

  lemma MulCancel(a: int, b: int, c: int)
    requires 0 < c && a * c <= b * c
    ensures a <= b
  {
    MulStrict(a, b + 1, c);
  }

  lemma DivBounds(x: int, w: int)
    requires 0 < w && 0 <= x
    ensures 0 <= x / w && 0 <= x / w * w <= x < (x / w + 1) * w
  {
    MulAdd(w, x / w, 1);
  }

  lemma EstimateLow(x: int, m: int, mu: int, q1: int, q3: int, sum: int, rows: nat, w1: int, wt: int)
    requires 0 < w1 <= m < wt && wt == B * w1
    requires 0 <= x < wt * wt && mu == (wt * wt) / m && q1 == x / w1 && q3 == sum / B
    requires mu * q1 <= (sum + rows * B) * wt
    ensures x < (q3 + rows + 3) * m
  {
    var n, u := wt * wt, B * wt;
    DivBounds(n, m);
    DivBounds(x, w1);
    assert n == u * w1;
    QuotientsSmall(x, m, mu, q1, w1, n, u);
    LowSum(mu, q1, q3, sum, rows, wt);
    LowChain(x, m, mu, q1, w1, n, q3 + rows + 3, u);
  }

  // Both quotients are at most B^(t+1).
  lemma QuotientsSmall(x: int, m: int, mu: int, q1: int, w1: int, n: int, u: int)
    requires 0 < w1 <= m && 0 <= mu && mu * m <= n == u * w1 && q1 * w1 <= x < n
    ensures mu <= u && q1 < u
  {
    MulMono(w1, m, mu);
    MulCancel(mu, u, w1);
    MulStrict(q1, u, w1);
  }

  lemma LowSum(mu: int, q1: int, q3: int, sum: int, rows: int, wt: int)
    requires 0 < wt && q3 == sum / B && mu * q1 <= (sum + rows * B) * wt && mu <= B * wt && q1 < B * wt
    ensures (mu + 1) * (q1 + 1) <= (q3 + rows + 3) * (B * wt)
  {
    var u := B * wt;
    assert sum + rows * B < (q3 + 1 + rows) * B;
    MulMono(sum + rows * B + 1, (q3 + 1 + rows) * B, wt);
    MulAdd(wt, sum + rows * B, 1);
    assert ((q3 + 1 + rows) * B) * wt == (q3 + 1 + rows) * u;
    MulAdd(u, q3 + 1 + rows, 2);
    assert (mu + 1) * (q1 + 1) == mu * q1 + mu + q1 + 1;
  }

  lemma LowChain(x: int, m: int, mu: int, q1: int, w1: int, n: int, k: int, u: int)
    requires 0 < w1 && 0 < m && 0 <= x && 0 <= mu && 0 <= q1 && 0 < n == u * w1
    requires n < (mu + 1) * m && x < (q1 + 1) * w1 && (mu + 1) * (q1 + 1) <= k * u
    ensures x < k * m
  {
    var y, z := (q1 + 1) * w1, (mu + 1) * m;
    MulMono(x + 1, y, n);
    MulMono(n, z, y);
    assert z * y == ((mu + 1) * (q1 + 1)) * (m * w1);
    MulMono((mu + 1) * (q1 + 1), k * u, m * w1);
    LowFactor(k, u, m, w1);
    MulAdd(n, x, 1);
    MulStrict(x, k * m, n);
  }

  lemma LowFactor(k: int, u: int, m: int, w1: int)
    ensures (k * u) * (m * w1) == (k * m) * (u * w1)
  {}

  // while (this[w] >= DV) carry, for adding 1 above all digits: digits up to w are padded.
  method AddTopOne(x: BigInteger, w: nat)
    requires x.Valid() && x.s == 0 && x.Value() < W(w)
    modifies x
    ensures x.Valid() && x.s == 0 && x.Value() == old(x.Value()) + W(w)
  {
    hide Val, W, Num;
    Division.LengthAbove(x, w);
    ghost var v := x.Value();
    while x.t <= w
      invariant x.t <= w + 1 && x.Digital() && x.s == 0 && x.Value() == v
      invariant x.t == w + 1 ==> x.d[w] == 0
      modifies x
    {
      Division.TopZero(x.d, x.t);
      x.d := x.d[x.t := 0];
      x.t := x.t + 1;
    }
    NumPositive(x.d, x.t);
    ValPoint(x.d, w, 1, w + 1);
    x.d := x.d[w := x.d[w] + 1];
    NumPositive(x.d, x.t);
  }

  // The shifted number and the estimated quotient.
  method EstimatedQuotient(x: BigInteger, m: BigInteger, mu: BigInteger) returns (r2: BigInteger, q3: BigInteger)
    requires x.Valid() && x.s == 0 && m.Valid() && m.s == 0 && 0 < m.t && mu.Valid() && mu.s == 0
    requires 0 < m.Value() && x.Value() < W(2 * m.t) && mu.Value() == W(2 * m.t) / m.Value()
    ensures fresh(r2) && fresh(q3) && r2 != q3 && q3.Valid() && q3.s == 0 && q3.t <= m.t + 1
    ensures q3.Value() * m.Value() <= x.Value() < (q3.Value() + m.t + 4) * m.Value()
  {
    hide Val, W, Num;
    var t := m.t;
    r2 := new BigInteger();
    q3 := new BigInteger();
    Division.NoDigitsZero(x);
    Division.NoDigitsZero(mu);
    Weights(t);
    Division.LengthAbove(x, 2 * t);
    Division.LengthAbove(m, t - 1);
    Division.LengthAbove(m, t);
    MuLong(m.Value(), W(t));
    Division.LengthAbove(mu, t);
    x.DRShiftTo(t - 1, r2);
    ghost var rows := r2.t;
    ghost var sum := MultiplyUpperTo(mu, r2, t + 1, q3);
    QuotientEstimate(x.Value(), m.Value(), mu.Value(), r2.Value(), q3.Value(), sum, rows, W(t - 1), W(t));
    MulMono(q3.Value() + rows + 3, q3.Value() + t + 4, m.Value());
    QuotientShort(q3.Value(), m.Value(), x.Value(), W(t - 1), W(t));
    Division.LengthAbove(q3, t + 1);
  }

  lemma Weights(t: nat)
    requires 0 < t
    ensures W(2 * t) == W(t) * W(t) && W(t) == B * W(t - 1) && W(t + 1) == B * W(t)
  {
    WAdd(t, t);
  }

  lemma MuLong(m: int, w: int)
    requires 0 < m < w
    ensures w <= (w * w) / m
  {
    MulMono(m, w, w);
    DivBounds(w * w, m);
    MulStrict(w, (w * w) / m + 1, m);
  }

  lemma QuotientShort(q: int, m: int, x: int, w1: int, wt: int)
    requires 0 < w1 <= m && wt == B * w1 && 0 <= q && q * m <= x < wt * wt
    ensures q < B * wt
  {
    MulMono(w1, m, q);
    assert (B * wt) * w1 == wt * wt;
    MulStrict(q, B * wt, w1);
  }

  // if (x.t > n) { x.t = n; x.clamp() }
  method Cut(x: BigInteger, n: nat)
    requires x.Valid() && x.s == 0
    modifies x
    ensures x.Valid() && x.s == 0 && x.Value() == old(x.Value()) % W(n) && 0 <= x.Value() < W(n)
  {
    hide Val, W, Num;
    NumPositive(x.d, x.t);
    ValBound(x.d, 0, x.t);
    if x.t > n {
      ValSplit(x.d, 0, n, x.t - n);
      ValBound(x.d, 0, n);
      DivModUnique(Val(x.d, 0, x.t), W(n), Val(x.d, n, x.t - n), Val(x.d, 0, n));
      NumPositive(x.d, n);
      x.t := n;
      x.Clamp();
    } else {
      WMono(x.t, n);
      DivModUnique(x.Value(), W(n), 0, x.Value());
    }
  }

  // A difference in [0, w) can be taken from the remainders modulo w.
  lemma SubtractLow(x: int, p: int, w: int)
    requires 0 <= x - p < w
    ensures 0 <= x % w < w && 0 <= p % w < w
    ensures x - p == x % w - p % w + (if x % w < p % w then w else 0)
  {
    var a, b := x % w, p % w;
    assert x == (x / w) * w + a && p == (p / w) * w + b;
    var k := x / w - p / w;
    assert x - p == k * w + (a - b);
    if a < b {
      MulStrict(k, 2, w);
      MulStrict(0, k, w);
    } else {
      MulStrict(k, 1, w);
      MulStrict(-1, k, w);
    }
  }

  // while (x >= m) x -= m
  method TakeOff(x: BigInteger, m: BigInteger)
    requires x.Valid() && m.Valid() && x != m && 0 < m.Value() && 0 <= x.Value()
    modifies x
    ensures x.Valid() && x.s == 0 && x.Value() == old(x.Value()) % m.Value()
  {
    hide Num;
    ghost var v, mv := x.Value(), m.Value();
    var c := x.CompareTo(m);
    while c >= 0
      invariant x.Valid() && m.Valid() && 0 <= x.Value() && Cong(x.Value(), v, mv)
      invariant c < 0 <==> x.Value() < mv
      decreases x.Value()
    {
      CongIntro(x.Value() - mv, x.Value(), mv, -1);
      x.SubTo(m, x);
      c := x.CompareTo(m);
    }
    CongSmallMod(x.Value(), v, mv);
    SignOf(x.d, x.t, x.s);
  }

  // x = x mod m, with mu = B^2t / m
  method BarrettReduce(x: BigInteger, m: BigInteger, mu: BigInteger)
    requires x.Valid() && x.s == 0 && m.Valid() && m.s == 0 && 0 < m.t <= B - 8 && mu.Valid() && mu.s == 0
    requires x != m && x != mu
    requires 0 < m.Value() && x.Value() < W(2 * m.t) && mu.Value() == W(2 * m.t) / m.Value()
    modifies x
    ensures x.Valid() && x.s == 0 && x.Value() == old(x.Value()) % m.Value()
  {
    hide Val, W, Num;
    var t := m.t;
    ghost var x0, mv := x.Value(), m.Value();
    var r2, q3 := EstimatedQuotient(x, m, mu);
    ghost var q := q3.Value();
    Cut(x, t + 1);
    MultiplyLowerTo(m, q3, t + 1, r2);
    NumBounds(m.d, m.t, 0);
    ReductionRange(x0, mv, q, t);
    SubtractLow(x0, mv * q, W(t + 1));
    SubtractWrapped(x, r2, t + 1);
    CongIntro(x0, x0 - mv * q, mv, q);
    TakeOff(x, m);
  }

  // while (x < r2) x += B^n; x -= r2
  method SubtractWrapped(x: BigInteger, r2: BigInteger, n: nat)
    requires x.Valid() && x.s == 0 && r2.Valid() && r2.s == 0 && x != r2
    requires 0 <= x.Value() < W(n) && 0 <= r2.Value() < W(n)
    modifies x
    ensures x.Valid()
    ensures x.Value() == old(x.Value()) - r2.Value() + (if old(x.Value()) < r2.Value() then W(n) else 0)
  {
    hide Num, W;
    ghost var xl, rl := x.Value(), r2.Value();
    var c := x.CompareTo(r2);
    while c < 0
      invariant x.Valid() && x.s == 0 && (c < 0 <==> x.Value() < rl)
      invariant x.Value() == if c < 0 || rl <= xl then xl else xl + W(n)
      decreases c < 0
    {
      AddTopOne(x, n);
      c := x.CompareTo(r2);
    }
    x.SubTo(r2, x);
  }

  lemma ReductionRange(x: int, m: int, q: int, t: nat)
    requires 0 < m < W(t) && t <= B - 8 && q * m <= x < (q + t + 4) * m
    ensures 0 <= x - m * q < W(t + 1)
  {
    hide W;
    WTop(t);
    MulAdd(m, q, t + 4);
    MulMono(t + 4, B, m);
  }
}
