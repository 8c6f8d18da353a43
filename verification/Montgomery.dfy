/**
Montgomery reduction: dividing by B^t modulo an odd number without a division.
*/
module Montgomery {
  import opened Arith
  import opened Digits
  import opened BigIntegers

  /* ---------- the negative inverse of a digit ---------- */

  // Integers a double holds exactly.
  predicate Exact(x: int) { -0x20_0000_0000_0000 <= x <= 0x20_0000_0000_0000 }

  // The % of JavaScript on doubles: the result has the sign of a.
  function Rem(a: int, b: int): int
    requires 0 < b && Exact(a)
  {
    if a < 0 then -((-a) % b) else a % b
  }

  // If y inverts x modulo n, then y * (2 - x * y) inverts x modulo n^2 and its divisors.
  lemma Newton(x: int, y: int, n: int, k: int, f: int, x': int, y': int)
    requires 0 < n && 0 < k && Cong(x * y, 1, n) && n * n == f * k
    requires Cong(x', x, k) && Cong(y', y * (2 - x' * y), k)
    ensures Cong(x * y', 1, k)
  {
    hide Cong;
    CongMul(x', x, y, y, k) by { CongRefl(y, k); }
    CongAdd(2, 2, x' * y, x * y, k) by { CongRefl(2, k); }
    CongMul(y, y, 2 - x' * y, 2 - x * y, k) by { CongRefl(y, k); }
    CongTrans(y', y * (2 - x' * y), y * (2 - x * y), k);
    CongMul(x, x, y', y * (2 - x * y), k) by { CongRefl(x, k); }
    NewtonSquare(x, y, n, k, f);
    CongTrans(x * y', x * (y * (2 - x * y)), 1, k);
  }

  lemma NewtonSquare(x: int, y: int, n: int, k: int, f: int)
    requires 0 < n && 0 < k && Cong(x * y, 1, n) && n * n == f * k
    ensures Cong(x * (y * (2 - x * y)), 1, k)
  {
    var e := CongElim(x * y, 1, n);
    assert x * (y * (2 - x * y)) == (x * y) * (2 - x * y) == (1 + e * n) * (1 - e * n);
    assert (1 + e * n) * (1 - e * n) == 1 - (e * n) * (e * n);
    assert (e * n) * (e * n) == (e * e) * (n * n);
    assert (e * e) * (f * k) == (e * e * f) * k;
    CongIntro(x * (y * (2 - x * y)), 1, k, -(e * e * f));
  }

  lemma RemCong(a: int, b: int)
    requires 0 < b && Exact(a)
    ensures Cong(Rem(a, b), a, b) && -b < Rem(a, b) < b
  {
    if a < 0 {
      var q := (-a) / b;
      assert -a == q * b + (-a) % b;
      CongIntro(a, Rem(a, b), b, -q);
    } else {
      CongMod(a, b);
    }
  }

  lemma NewtonRange(y: int, a: int, n: int, k: int)
    requires 0 <= y < n && 0 <= a < k
    ensures -(n * k) <= y * (2 - a) <= 2 * n
  {
    MulMono(y, n, k);
    MulMono(-k, 2 - a, y);
    MulMono(2 - a, 2, y);
  }

  lemma ProductRange(x: int, y: int, n: int, k: int)
    requires 0 <= x < n && 0 <= y < k
    ensures 0 <= x * y <= n * k
  {
    MulMono(x, n, y);
    MulMono(y, k, n);
    MulMono(0, x, y);
  }

  lemma OddSquare(x: int)
    requires x % 2 == 1
    ensures Cong(x * (x % 4), 1, 4)
  {
    var q, r := x / 4, x % 4;
    assert x == 4 * q + r;
    assert r == 1 || r == 3;
    if r == 1 {
      CongIntro(x * r, 1, 4, q);
    } else {
      CongIntro(x * r, 1, 4, 3 * q + 2);
    }
  }

  // -1 / x modulo B, by Newton's iteration from 2 bits to 28; 0 if there is none.
  method InvDigit(a: BigInteger) returns (r: int)
    requires a.Valid()
    ensures a.t < 1 || a.d[0] % 2 == 0 ==> r == 0
    ensures a.t >= 1 && a.d[0] % 2 == 1 ==> 0 < r < B && Cong(a.d[0] * r, -1, B)
  {
    if a.t < 1 {
      return 0;
    }
    var x := a.d[0];
    if And(x, 2) == 0 {
      return 0;
    }
    var y := And(x, 4);
    OddSquare(x);
    y := NewtonStep(x, y, 4, 0x10);
    y := NewtonStep(x, y, 0x10, 0x100);
    ProductRange(x % 0x1_0000, y, 0x1_0000, 0x100);
    y := NewtonMasked(x, y);
    y := NewtonLast(x, y);
    r := if y > 0 then B - y else -y;
    assert Cong(x * r, -1, B) && r != 0 by {
      NegatedInverse(x, y, r);
    }
  }

  lemma NegatedInverse(x: int, y: int, r: int)
    requires Cong(x * y, 1, B) && (r == B - y || r == -y)
    ensures Cong(x * r, -1, B) && r != 0
  {
    var k := CongElim(x * y, 1, B);
    if r == -y {
      assert x * r == -(x * y);
      CongIntro(x * r, -1, B, -k);
    } else {
      assert x * r == x * B - x * y;
      CongIntro(x * r, -1, B, x - k);
    }
  }

  // y = (y * (2 - (x & (k - 1)) * y)) & (k - 1)
  method NewtonStep(x: int, y: int, n: int, k: int) returns (y': int)
    requires (n == 4 && k == 0x10) || (n == 0x10 && k == 0x100)
    requires 0 <= x < B && 0 <= y < n && Cong(x * y, 1, n)
    ensures 0 <= y' < k && Cong(x * y', 1, k)
  {
    var x' := And(x, k);
    ProductRange(x', y, k, n);
    NewtonRange(y, x' * y, n, k * n + 1);
    y' := And(y * (2 - x' * y), k);
    CongMod(x, k);
    CongMod(y * (2 - x' * y), k);
    Newton(x, y, n, k, 1, x', y');
  }

  // y = (y * (2 - (((x & 0xffff) * y) & 0xffff))) & 0xffff
  method NewtonMasked(x: int, y: int) returns (y': int)
    requires 0 <= x < B && 0 <= y < 0x100 && Cong(x * y, 1, 0x100)
    ensures 0 <= y' < 0x1_0000 && Cong(x * y', 1, 0x1_0000)
  {
    var x' := And(x, 0x1_0000);
    ProductRange(x', y, 0x1_0000, 0x100);
    var p := And(x' * y, 0x1_0000);
    NewtonRange(y, p, 0x100, 0x1_0000);
    y' := And(y * (2 - p), 0x1_0000);
    CongMod(x, 0x1_0000);
    CongMod(x' * y, 0x1_0000);
    CongMod(y * (2 - p), 0x1_0000);
    CongAdd(2, 2, p, x' * y, 0x1_0000);
    CongMul(y, y, 2 - p, 2 - x' * y, 0x1_0000);
    Newton(x, y, 0x100, 0x1_0000, 1, x', y');
  }

  // y = (y * (2 - x * y % DV)) % DV
  method NewtonLast(x: int, y: int) returns (y': int)
    requires 0 <= x < B && 0 <= y < 0x1_0000 && Cong(x * y, 1, 0x1_0000)
    ensures -B < y' < B && Cong(x * y', 1, B)
  {
    ProductRange(x, y, B, 0x1_0000);
    var p := Rem(x * y, B);
    RemCong(x * y, B);
    NewtonRange(y, p, 0x1_0000, B);
    y' := Rem(y * (2 - p), B);
    RemCong(y * (2 - p), B);
    CongAdd(2, 2, p, x * y, B);
    CongMul(y, y, 2 - p, 2 - x * y, B);
    Newton(x, y, 0x1_0000, B, 0x10, x, y');
  }

  /* ---------- the reduction ---------- */

  // u0 = x[i] * mp mod B without an intermediate above 31 bits: mp is split into its low 15
  // bits mpl and its high 13 bits mph.
  method QuotientDigitOf(xi: int, mpl: int, mph: int) returns (u0: int)
    requires 0 <= xi < B && 0 <= mpl < 0x8000 && 0 <= mph < 0x2000
    ensures 0 <= u0 < B && u0 == (xi * (mpl + 0x8000 * mph)) % B
  {
    var j, h := And(xi, 0x8000), Shr(xi, 0x8000);
    ProductRange(j, mpl, 0x7fff + 1, 0x7fff + 1);
    ProductRange(j, mph, 0x8000, 0x2000);
    ProductRange(h, mpl, 0x2000, 0x8000);
    var z := j * mph + h * mpl;
    u0 := And(j * mpl + Shl(And(z, 0x2000), 0x8000), B);
    QuotientSplit(xi, mpl, mph, j, h, z);
  }

  lemma QuotientSplit(xi: int, mpl: int, mph: int, j: int, h: int, z: int)
    requires xi == 0x8000 * h + j && z == j * mph + h * mpl
    ensures (j * mpl + (z % 0x2000) * 0x8000) % B == (xi * (mpl + 0x8000 * mph)) % B
  {
    var k := z / 0x2000;
    assert z == 0x2000 * k + z % 0x2000;
    assert xi * (mpl + 0x8000 * mph) == j * mpl + 0x8000 * z + 0x4000_0000 * (h * mph);
    CongIntro(xi * (mpl + 0x8000 * mph), j * mpl + (z % 0x2000) * 0x8000, B, k + 4 * (h * mph));
  }

  // After i passes: u * m with u < B^i has been added to x and the low i digits are zero.
  ghost predicate Reduced(d: Store, t: nat, i: nat, x: int, m: int, u: int) {
    && Proper(d, 0, 2 * t + 1) && 0 <= u < W(i)
    && Val(d, 0, 2 * t + 1) == x + u * m && Val(d, 0, i) == 0
  }

  lemma ReducedRange(t: nat, i: nat, x: int, m: int, u: int)
    requires 0 <= x < m * W(t) && 0 < m < W(t) && 0 <= u < W(i) && i <= t
    ensures 0 <= x + u * m < 2 * (m * W(t)) && x + u * m < W(2 * t + 1)
  {
    hide W;
    WMono(i, t);
    WAdd(t, t);
    WTop(2 * t);
    RangeProducts(x, u, m, W(t));
  }

  lemma RangeProducts(x: int, u: int, m: int, w: int)
    requires 0 <= x < m * w && 0 < m < w && 0 <= u < w
    ensures 0 <= x + u * m < 2 * (m * w) && m * w < w * w
  {
    MulMono(u + 1, w, m);
    MulMono(0, u, m);
    MulMono(m + 1, w, w);
  }

  // The kernel call of pass i clears digit i.
  lemma RowClears(d: Store, e: Store, t: nat, i: nat, md: Store, mp: int, u0: int, c: int)
    requires 0 < t && Proper(d, i, t) && Proper(e, i, t) && 0 in md && Cong(md[0] * mp, -1, B)
    requires u0 == (d[i] * mp) % B
    requires Val(e, i, t) + c * W(t) == Val(d, i, t) + u0 * Val(md, 0, t) + 0
    ensures e[i] == 0
  {
    hide Val, W;
    ValFront(e, i, t);
    ValFront(d, i, t);
    ValFront(md, 0, t);
    WTop(t - 1);
    var ve, vd, vm, w := Val(e, i + 1, t - 1), Val(d, i + 1, t - 1), Val(md, 1, t - 1), W(t - 1);
    LowDigitEquation(e[i], d[i], u0, md[0], c, ve, vd, vm, w);
    LowDigitClears(e[i], d[i], u0, md[0], mp, vd - ve + u0 * vm - c * w);
  }

  lemma LowDigitEquation(e: int, x: int, u0: int, m0: int, c: int, ve: int, vd: int, vm: int, w: int)
    requires e + B * ve + c * (B * w) == x + B * vd + u0 * (m0 + B * vm)
    ensures e == x + u0 * m0 + (vd - ve + u0 * vm - c * w) * B
  {
    assert u0 * (m0 + B * vm) == u0 * m0 + B * (u0 * vm);
    assert c * (B * w) == B * (c * w);
  }

  lemma LowDigitClears(e: int, x: int, u0: int, m0: int, mp: int, k: int)
    requires 0 <= e < B && u0 == (x * mp) % B && Cong(m0 * mp, -1, B)
    requires e == x + u0 * m0 + k * B
    ensures e == 0
  {
    hide Cong;
    CongIntro(e, x + u0 * m0, B, k);
    CongMod(x * mp, B);
    CongMul(u0, x * mp, m0, m0, B) by { CongRefl(m0, B); }
    assert (x * mp) * m0 == x * (m0 * mp);
    CongMul(x, x, m0 * mp, -1, B) by { CongRefl(x, B); }
    CongTrans(u0 * m0, (x * mp) * m0, x * -1, B);
    CongAdd(x, x, u0 * m0, x * -1, B) by { CongRefl(x, B); }
    assert x + x * -1 == 0;
    CongTrans(e, x + u0 * m0, 0, B);
    CongSmall(e, 0, B);
  }

  // while (x[j] >= x.DV) { x[j] -= x.DV; x[++j]++ }, starting with one digit below 2 B:
  // the number is too small for the carry to leave the n digits.
  method PropagateCarry(x: BigInteger, j0: nat, n: nat, ghost v: int)
    requires j0 < n && j0 in x.d && 0 <= x.d[j0] < 2 * B
    requires forall k :: 0 <= k < n && k != j0 ==> k in x.d && 0 <= x.d[k] < B
    requires Val(x.d, 0, n) == v < W(n)
    modifies x`d
    ensures Proper(x.d, 0, n) && Val(x.d, 0, n) == v && Same(x.d, old(x.d), 0, j0)
  {
    hide Val, W;
    var j := j0;
    while x.d[j] >= B
      invariant j0 <= j < n && j in x.d && 0 <= x.d[j] < 2 * B
      invariant forall k :: 0 <= k < n && k != j ==> k in x.d && 0 <= x.d[k] < B
      invariant Val(x.d, 0, n) == v && Same(x.d, old(x.d), 0, j0)
      decreases n - j
    {
      CarryFits(x.d, j, n);
      CarryMoves(x.d, j, n);
      x.d := x.d[j := x.d[j] - B];
      j := j + 1;
      x.d := x.d[j := x.d[j] + 1];
    }
  }

  lemma CarryFits(d: Store, j: nat, n: nat)
    requires j < n && j in d && B <= d[j]
    requires forall k :: 0 <= k < n && k != j ==> k in d && 0 <= d[k] < B
    requires Val(d, 0, n) < W(n)
    ensures j + 1 < n
  {
    if j + 1 == n {
      ValTop(d, 0, j);
      ValBound(d, 0, j);
      MulMono(B, d[j], W(j));
      WTop(j);
    }
  }

  lemma CarryMoves(d: Store, j: nat, n: nat)
    requires j + 1 < n && j in d && j + 1 in d
    ensures Val(d[j := d[j] - B][j + 1 := d[j + 1] + 1], 0, n) == Val(d, 0, n)
  {
    hide Val, W;
    ValPoint(d, j, d[j] - B, n);
    ValPoint(d[j := d[j] - B], j + 1, d[j + 1] + 1, n);
    WTop(j);
    assert (-B) * W(j) == -(B * W(j));
  }

  // The kernel call of pass i, with its carry, adds u0 * m at weight B^i.
  lemma RowAdds(d: Store, e: Store, t: nat, i: nat, x: int, m: int, u: int, u0: int, c: int)
    requires i < t && Reduced(d, t, i, x, m, u) && 0 <= u0 < B
    requires Val(e, i, t) + c * W(t) == Val(d, i, t) + u0 * m + 0
    requires forall k: nat :: !(i <= k < i + t) ==> (k in e <==> k in d) && At(e, k) == At(d, k)
    ensures Val(e[i + t := At(d, i + t) + c], 0, 2 * t + 1) == x + (u + u0 * W(i)) * m
    ensures 0 <= u + u0 * W(i) < W(i + 1)
  {
    hide Val, W;
    var e' := e[i + t := At(d, i + t) + c];
    ValTop(d, i, t);
    ValPut(e, i, t, At(d, i + t) + c);
    MulAdd(W(t), At(d, i + t), c);
    ValWindow(d, e', i, t + 1, 2 * t + 1);
    assert (u + u0 * W(i)) * m == u * m + W(i) * (u0 * m) by {
      MulAdd(m, u, u0 * W(i));
      assert (u0 * W(i)) * m == W(i) * (u0 * m);
    }
    WTop(i);
    MulMono(u0 + 1, B, W(i));
    MulMono(0, u0, W(i));
    MulAdd(W(i), u0, 1);
  }

  lemma RowKeepsLow(d: Store, e: Store, t: nat, i: nat)
    requires i < t && Val(d, 0, i) == 0 && Same(d, e, 0, i) && At(e, i) == 0
    ensures Val(e, 0, i + 1) == 0
  {
    hide W;
    ValFrame(d, e, 0, i);
  }

  lemma RowShape(d: Store, e: Store, t: nat, i: nat, c: int, u0: int)
    requires i < t && Proper(d, 0, 2 * t + 1) && Proper(e, i, t) && 0 <= c <= u0 < B
    requires forall k: nat :: !(i <= k < i + t) ==> (k in e <==> k in d) && At(e, k) == At(d, k)
    ensures var e' := e[i + t := At(d, i + t) + c];
      forall k :: 0 <= k < 2 * t + 1 && k != i + t ==> k in e' && 0 <= e'[k] < B
  {
    forall k | 0 <= k < 2 * t + 1 && k != i + t
      ensures k in e && 0 <= e[k] < B
    {
      if !(i <= k < i + t) {
        assert At(e, k) == At(d, k);
      }
    }
  }

  // One pass of montReduce.
  method ReduceRow(x: BigInteger, m: BigInteger, i: nat, mpl: int, mph: int, ghost x0: int, ghost u: int)
    returns (ghost u': int)
    requires x != m && m.Valid() && m.s == 0 && i < m.t && 0 <= x0 < m.Value() * W(m.t)
    requires 0 <= mpl < 0x8000 && 0 <= mph < 0x2000 && Cong(m.d[0] * (mpl + 0x8000 * mph), -1, B)
    requires Reduced(x.d, m.t, i, x0, m.Value(), u)
    modifies x`d
    ensures Reduced(x.d, m.t, i + 1, x0, m.Value(), u')
  {
    hide Val, W, Num;
    var t := m.t;
    ghost var mv, d0 := m.Value(), x.d;
    NumPositive(m.d, t);
    NumBounds(m.d, t, 0);
    PositiveFactor(mv, W(t), x0);
    var u0 := QuotientDigitOf(x.d[i], mpl, mph);
    var j := i + t;
    var xj := x.d[j];
    var c := m.Am(0, u0, x, i, 0, t);
    ghost var d1 := x.d;
    RowClears(d0, d1, t, i, m.d, mpl + 0x8000 * mph, u0, c);
    RowAdds(d0, d1, t, i, x0, mv, u, u0, c);
    RowShape(d0, d1, t, i, c, u0);
    RowKeepsLow(d0, d1, t, i);
    x.d := x.d[j := xj + c];
    u' := u + u0 * W(i);
    ReducedRange(t, i + 1, x0, mv, u');
    PropagateCarry(x, j, 2 * t + 1, x0 + u' * mv);
    ValFrame(x.d, d1, 0, i + 1);
  }

  lemma PositiveFactor(m: int, w: int, x: int)
    requires 0 <= m && 0 < w && 0 <= x < m * w
    ensures 0 < m
  {}

  // The digits above the zeros are the reduced number, at most one m too large.
  lemma ReducedEnd(t: nat, x: int, m: int, u: int, v: int)
    requires 0 <= x < m * W(t) && 0 < m < W(t) && 0 <= u < W(t) && v * W(t) == x + u * m
    ensures 0 <= v < 2 * m && Cong(v * W(t), x, m) && Cong((v - m) * W(t), x, m)
  {
    hide W, Cong;
    ReducedRange(t, t, x, m, u);
    EndRange(m, v, W(t));
    CongIntro(v * W(t), x, m, u);
    EndShift(x, m, u, v, W(t));
    CongIntro((v - m) * W(t), x, m, u - W(t));
  }

  lemma EndRange(m: int, v: int, w: int)
    requires 0 < w && 0 <= v * w < 2 * (m * w)
    ensures 0 <= v < 2 * m
  {
    assert (2 * m) * w == 2 * (m * w);
    MulStrict(v, 2 * m, w);
    MulStrict(-1, v, w);
  }

  lemma EndShift(x: int, m: int, u: int, v: int, w: int)
    requires v * w == x + u * m
    ensures (v - m) * w == x + (u - w) * m
  {
    assert (v - m) * w == v * w - m * w && (u - w) * m == u * m - w * m;
  }

  // x = x / B^t modulo m
  method MontReduce(x: BigInteger, m: BigInteger, mpl: int, mph: int)
    requires x != m && x.Valid() && x.s == 0 && m.Valid() && m.s == 0 && 0 < m.t
    requires 0 <= mpl < 0x8000 && 0 <= mph < 0x2000 && Cong(m.d[0] * (mpl + 0x8000 * mph), -1, B)
    requires 0 < m.Value() && x.Value() < m.Value() * W(m.t)
    modifies x
    ensures x.Valid() && x.s == 0 && 0 <= x.Value() < m.Value()
    ensures Cong(x.Value() * W(m.t), old(x.Value()), m.Value())
  {
    hide Val, W, Num, Cong, Reduced;
    var t := m.t;
    ghost var x0, mv := x.Value(), m.Value();
    NumBounds(m.d, t, 0);
    NumBounds(x.d, x.t, 0);
    PadForReduction(x, t, mv);
    ReducedStart(x.d, t, x0, mv);
    NumPositive(x.d, x.t);
    ghost var u := 0;
    var i := 0;
    while i < t
      invariant 0 <= i <= t && Reduced(x.d, t, i, x0, mv, u)
      modifies x`d
    {
      u := ReduceRow(x, m, i, mpl, mph, x0, u);
      i := i + 1;
    }
    ReducedDigits(x.d, t, x0, mv, u);
    NumPositive(x.d, x.t);
    x.Clamp();
    x.DRShiftTo(t, x);
    ReducedEnd(t, x0, mv, u, x.Value());
    var c := x.CompareTo(m);
    if c >= 0 {
      x.SubTo(m, x);
    }
    SignOf(x.d, x.t, x.s);
  }

  lemma ReducedStart(d: Store, t: nat, x: int, m: int)
    requires Proper(d, 0, 2 * t + 1) && Val(d, 0, 2 * t + 1) == x
    ensures Reduced(d, t, 0, x, m, 0)
  {
    ValEmpty(d, 0);
    assert 0 * m == 0;
  }

  lemma ReducedDigits(d: Store, t: nat, x: int, m: int, u: int)
    requires Reduced(d, t, t, x, m, u)
    ensures Proper(d, 0, 2 * t + 1) && 0 <= u < W(t) && Val(d, 0, 2 * t + 1) == x + u * m
    ensures (x + u * m) / W(t) * W(t) == x + u * m
  {
    hide Val, W;
    ValSplit(d, 0, t, t + 1);
    DivModUnique(x + u * m, W(t), Val(d, t, t + 1), 0);
  }

  // while (x.t <= mt2) x[x.t++] = 0
  method PadForReduction(x: BigInteger, t: nat, ghost m: int)
    requires x.Valid() && x.s == 0 && 0 <= x.Value() < m * W(t) && m < W(t)
    modifies x
    ensures x.t == 2 * t + 1 && Proper(x.d, 0, 2 * t + 1) && x.s == 0
    ensures Val(x.d, 0, 2 * t + 1) == old(x.Value())
  {
    hide Val, W;
    ghost var v := x.Value();
    NumPositive(x.d, x.t);
    PadLength(x, t, m);
    while x.t <= 2 * t
      invariant x.t <= 2 * t + 1 && Proper(x.d, 0, x.t) && x.s == 0 && Val(x.d, 0, x.t) == v
      modifies x
    {
      ValPut(x.d, 0, x.t, 0);
      x.d := x.d[x.t := 0];
      x.t := x.t + 1;
    }
  }

  lemma PadLength(x: BigInteger, t: nat, m: int)
    requires x.Valid() && x.s == 0 && x.Value() < m * W(t) && m < W(t)
    ensures x.t <= 2 * t
  {
    hide Val, W;
    NumBounds(x.d, x.t, 0);
    WAdd(t, t);
    MulMono(m, W(t), W(t));
    if 2 * t < x.t {
      WMono(2 * t, x.t - 1);
    }
  }
}

