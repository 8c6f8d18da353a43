/**
Modular exponentiation with a sliding window, over the reducers.
*/
module ModPow {
  import opened Arith
  import opened Digits
  import opened BigIntegers
  import Division
  import Barrett
  import Montgomery

  datatype Kind = Classic | Barrett | Montgomery

  // For an odd m, B^t can be undone modulo m: some number times it is 1.
  lemma InverseOfWeight(t: nat, m: int) returns (inv: int)
    requires 0 < m && m % 2 == 1
    ensures Cong(W(t) * inv, 1, m)
  {
    var half := (m + 1) / 2;
    inv := Pow(half, 28 * t);
    assert 2 * half == 1 + 1 * m;
    CongIntro(2 * half, 1, m, 1);
    TwoW(t);
    InverseOfTwo(28 * t, half, m);
  }

  lemma {:induction false} InverseOfTwo(n: nat, half: int, m: int)
    requires 0 < m && Cong(2 * half, 1, m)
    ensures Cong(Two(n) * Pow(half, n), 1, m)
  {
    if n == 0 {
    } else {
      InverseOfTwo(n - 1, half, m);
      CongMul(2 * half, 1, Two(n - 1) * Pow(half, n - 1), 1, m);
      assert (2 * half) * (Two(n - 1) * Pow(half, n - 1)) == (2 * Two(n - 1)) * (half * Pow(half, n - 1));
    }
  }

  // Multiplying the representations of a and b and taking off one factor f gives the
  // representation of a * b.
  lemma Represents(a: int, b: int, f: int, inv: int, x: int, y: int, z: int, m: int)
    requires 0 < m && Cong(f * inv, 1, m)
    requires Cong(x, a * f, m) && Cong(y, b * f, m) && Cong(z * f, x * y, m)
    ensures Cong(z, (a * b) * f, m)
  {
    hide Cong;
    CongMul(x, a * f, y, b * f, m);
    CongTrans(z * f, x * y, (a * f) * (b * f), m);
    assert (a * f) * (b * f) == ((a * b) * f) * f;
    CongCancel(z, (a * b) * f, f, inv, m);
  }

  class Reducer {
    const kind: Kind
    const m: BigInteger
    const mpl: int    // low 15 bits of the negative inverse of m's first digit
    const mph: int    // its high 13 bits
    const mu: BigInteger    // B^2t / m for the Barrett reducer

    ghost predicate Valid()
      reads this, m, mu
    {
      && m.Valid() && m.s == 0 && 0 < m.t && 0 < m.Value()
      && (kind.Barrett? ==>
        m.t <= B - 8 && mu.Valid() && mu.s == 0 && mu.Value() == W(2 * m.t) / m.Value())
      && (kind.Montgomery? ==>
        && m.Value() % 2 == 1 && 0 <= mpl < 0x8000 && 0 <= mph < 0x2000
        && Cong(m.d[0] * (mpl + 0x8000 * mph), -1, B))
    }

    // An object that the reducer does not rely on.
    predicate Apart(r: BigInteger) {
      r != m && r != mu
    }

    ghost function Modulus(): int
      reads m
    {
      m.Value()
    }

    // What every number is multiplied by while the reducer works on it.
    ghost function Factor(): (f: int)
      reads this, m
      ensures 0 < f
    {
      if kind.Montgomery? then W(m.t) else 1
    }

    // x is the reducer's representation of v.
    ghost predicate Encodes(x: BigInteger, v: int)
      reads this, m, x
    {
      && x.Valid() && x.s == 0 && 0 < Modulus()
      && 0 <= x.Value() < Modulus() && Cong(x.Value(), v * Factor(), Modulus())
    }

    constructor MakeClassic(m: BigInteger)
      requires m.Valid() && 0 < m.Value()
      ensures Valid() && this.m == m && this.mu == m && kind == Classic
    {
      this.kind := Classic;
      this.m := m;
      this.mu := m;
      this.mpl, this.mph := 0, 0;
      new;
      PositiveShape(m);
    }

    constructor MakeBarrett(m: BigInteger)
      requires m.Valid() && 0 < m.Value() && m.t <= B - 8
      ensures Valid() && this.m == m && kind == Kind.Barrett && fresh(mu)
    {
      PositiveShape(m);
      var r2 := new BigInteger();
      var q := new BigInteger();
      var r := new BigInteger();
      var one := new BigInteger.FromSmall(1);
      one.DLShiftTo(2 * m.t, r2);
      QuotientSigns(W(2 * m.t), m.Value());
      Division.DivRemTo(r2, m, q, r);
      SignOf(q.d, q.t, q.s);
      this.kind := Kind.Barrett;
      this.m := m;
      this.mu := q;
      this.mpl, this.mph := 0, 0;
    }

    constructor MakeMontgomery(m: BigInteger)
      requires m.Valid() && 0 < m.Value() && m.Value() % 2 == 1
      ensures Valid() && this.m == m && this.mu == m && kind == Kind.Montgomery
    {
      PositiveShape(m);
      LowDigitParity(m.d, m.t, m.s);
      var mp := Montgomery.InvDigit(m);
      this.kind := Kind.Montgomery;
      this.m := m;
      this.mu := m;
      this.mpl := And(mp, 0x8000);
      this.mph := Shr(mp, 0x8000);
    }

    lemma FactorInverse() returns (inv: int)
      requires Valid()
      ensures Cong(Factor() * inv, 1, Modulus())
    {
      if kind.Montgomery? {
        inv := InverseOfWeight(m.t, m.Value());
      } else {
        inv := 1;
      }
    }

    // x = x * y / factor for a product of two reduced numbers
    method Reduce(x: BigInteger)
      requires Valid() && Apart(x) && x.Valid() && x.s == 0 && x.Value() < Modulus() * Modulus()
      modifies x
      ensures Valid() && x.Valid() && x.s == 0 && 0 <= x.Value() < Modulus()
      ensures Cong(x.Value() * Factor(), old(x.Value()), Modulus())
    {
      hide Num, Cong;
      ghost var v := x.Value();
      if kind.Classic? {
        Division.NoDigitsZero(x);
        Division.DivRemTo(x, m, null, x);
        PositiveAbs(v, Modulus());
        CongMod(v, Modulus());
        SignOf(x.d, x.t, x.s);
        assert x.Value() * 1 == x.Value();
      } else if kind.Barrett? {
        NumBounds(m.d, m.t, m.s);
        BarrettRange(Modulus(), m.t);
        Barrett.BarrettReduce(x, m, mu);
        CongMod(v, Modulus());
        assert x.Value() * 1 == x.Value();
      } else {
        NumBounds(m.d, m.t, m.s);
        SquareBelow(Modulus(), W(m.t));
        Montgomery.MontReduce(x, m, mpl, mph);
      }
    }

    method MulTo(x: BigInteger, y: BigInteger, r: BigInteger, ghost a: int, ghost b: int)
      requires Valid() && Encodes(x, a) && Encodes(y, b) && r != x && r != y && Apart(r)
      modifies r
      ensures Valid() && Encodes(r, a * b)
    {
      hide Num, Cong;
      ghost var xv, yv := x.Value(), y.Value();
      x.MultiplyTo(y, r);
      ProductBelow(xv, yv, Modulus());
      SignOf(r.d, r.t, r.s);
      Reduce(r);
      ghost var inv := FactorInverse();
      Represents(a, b, Factor(), inv, xv, yv, r.Value(), Modulus());
    }

    method SqrTo(x: BigInteger, r: BigInteger, ghost a: int)
      requires Valid() && Encodes(x, a) && r != x && Apart(r)
      modifies r
      ensures Valid() && Encodes(r, a * a)
    {
      hide Num, Cong;
      ghost var xv := x.Value();
      x.SquareTo(r);
      ProductBelow(xv, xv, Modulus());
      SignOf(r.d, r.t, r.s);
      Reduce(r);
      ghost var inv := FactorInverse();
      Represents(a, a, Factor(), inv, xv, xv, r.Value(), Modulus());
    }

    method Convert(x: BigInteger) returns (r: BigInteger)
      requires Valid() && x.Valid() && x != m
      ensures Encodes(r, x.Value()) && (r == x || fresh(r))
    {
      hide Num, Cong;
      if kind.Classic? {
        r := ClassicConvert(x);
      } else if kind.Barrett? {
        r := BarrettConvert(x);
      } else {
        r := MontConvert(x);
      }
    }

    method ClassicConvert(x: BigInteger) returns (r: BigInteger)
      requires Valid() && !kind.Montgomery? && x.Valid() && x != m
      ensures Encodes(r, x.Value()) && (r == x || fresh(r))
    {
      hide Num, Cong;
      ghost var v := x.Value();
      SignOf(x.d, x.t, x.s);
      var c := x.CompareTo(m);
      CongMod(v, Modulus());
      assert v * 1 == v;
      if x.s < 0 || c >= 0 {
        r := Division.Mod(x, m);
      } else {
        CongRefl(v, Modulus());
        r := x;
      }
    }

    method BarrettConvert(x: BigInteger) returns (r: BigInteger)
      requires Valid() && kind.Barrett? && x.Valid() && x != m
      ensures Encodes(r, x.Value()) && (r == x || fresh(r))
    {
      hide Num, Cong;
      ghost var v := x.Value();
      SignOf(x.d, x.t, x.s);
      CongMod(v, Modulus());
      assert v * 1 == v;
      if x.s < 0 || x.t > 2 * m.t {
        r := Division.Mod(x, m);
        return;
      }
      var c := x.CompareTo(m);
      if c < 0 {
        CongRefl(v, Modulus());
        r := x;
      } else {
        Division.LengthAbove(x, 2 * m.t);
        r := new BigInteger();
        x.CopyTo(r);
        Barrett.BarrettReduce(r, m, mu);
      }
    }

    method MontConvert(x: BigInteger) returns (r: BigInteger)
      requires Valid() && kind.Montgomery? && x.Valid() && x != m
      ensures fresh(r) && Encodes(r, x.Value())
    {
      hide Num, Cong, W;
      ghost var v, f := x.Value(), W(m.t);
      r := ShiftedRemainder(x);
      ConvertNegative(v, f, r.Value(), Modulus());
      SignOf(x.d, x.t, x.s);
      var zero := new BigInteger.FromSmall(0);
      var c := r.CompareTo(zero);
      if x.s < 0 && c > 0 {
        m.SubTo(r, r);
      }
      SignOf(r.d, r.t, r.s);
    }

    // |x| * B^t mod m. A shifted zero is clamped before it is divided.
    method ShiftedRemainder(x: BigInteger) returns (r: BigInteger)
      requires Valid() && kind.Montgomery? && x.Valid() && x != m
      ensures fresh(r) && r.Valid() && 0 <= r.Value() < Modulus()
      ensures Cong(r.Value(), Abs(x.Value()) * W(m.t), Modulus())
    {
      hide Num, Cong, W, Abs;
      ghost var w := W(m.t);
      r := new BigInteger();
      var y := x.AbsValue();
      Division.NoDigitsZero(y);
      y.DLShiftTo(m.t, r);
      r.Clamp();
      ghost var v := r.Value();
      ShiftedPositive(y.Value(), w);
      Division.DivRemTo(r, m, null, r);
      PositiveAbs(v, Modulus());
      CongMod(v, Modulus());
    }

    method Revert(x: BigInteger, ghost v: int) returns (r: BigInteger)
      requires Valid() && Encodes(x, v) && x != m
      ensures r.Valid() && r.Value() == v % Modulus() && (r == x || fresh(r))
    {
      hide Num, Cong;
      if !kind.Montgomery? {
        assert v * 1 == v;
        CongSmallMod(x.Value(), v, Modulus());
        r := x;
      } else {
        r := new BigInteger();
        x.CopyTo(r);
        ghost var xv := x.Value();
        NumBounds(m.d, m.t, m.s);
        OneBelow(xv, Modulus(), W(m.t));
        Montgomery.MontReduce(r, m, mpl, mph);
        ghost var inv := FactorInverse();
        CongTrans(r.Value() * W(m.t), xv, v * W(m.t), Modulus());
        CongCancel(r.Value(), v, W(m.t), inv, Modulus());
        CongSmallMod(r.Value(), v, Modulus());
      }
    }
  }

  lemma PositiveShape(m: BigInteger)
    requires m.Valid() && 0 < m.Value()
    ensures m.s == 0 && 0 < m.t
  {
    NumBounds(m.d, m.t, m.s);
  }

  lemma PositiveAbs(x: int, m: int)
    requires 0 <= x && 0 < m
    ensures Abs(x) == x && Abs(m) == m && Division.Truncated(x, x % m) == x % m && 0 <= x % m < m
  {}

  lemma QuotientSigns(x: int, m: int)
    requires 0 < x && 0 < m
    ensures Abs(x) == x && Abs(m) == m && Division.Truncated(x * m, x / m) == x / m && 0 <= x / m
  {
    Division.DivNonNeg(x, m);
    MulMono(1, x, m);
  }

  lemma BarrettRange(m: int, t: nat)
    requires 0 < m < W(t)
    ensures m * m < W(2 * t)
  {
    hide W;
    WAdd(t, t);
    ProductBelow(m, m, W(t));
  }

  lemma SquareBelow(m: int, w: int)
    requires 0 < m < w
    ensures m * m < m * w
  {}

  lemma ProductBelow(x: int, y: int, m: int)
    requires 0 <= x < m && 0 <= y < m
    ensures 0 <= x * y < m * m
  {
    MulMono(0, x, y);
    MulMono(x, m, y);
    MulMono(y + 1, m, m);
  }

  lemma OneBelow(x: int, m: int, w: int)
    requires 0 <= x < m && 0 < w
    ensures x < m * w
  {
    MulMono(1, w, m);
  }

  lemma ShiftedPositive(v: int, w: int)
    requires 0 <= v && 0 < w
    ensures 0 <= v * w
  {}

  lemma ConvertNegative(v: int, w: int, r: int, m: int)
    requires 0 < m && Cong(r, Abs(v) * w, m) && 0 <= r < m
    ensures v >= 0 ==> Cong(r, v * w, m)
    ensures v < 0 ==> Cong(m - r, v * w, m) && (r == 0 ==> Cong(r, v * w, m))
  {
    if v < 0 {
      var k := CongElim(r, (-v) * w, m);
      assert v * w == -((-v) * w);
      assert m - r == v * w + (1 - k) * m;
      CongIntro(m - r, v * w, m, 1 - k);
      if r == 0 {
        CongIntro(r, v * w, m, -k);
      }
    }
  }

  /* ---------- exponents, bit by bit ---------- */

  lemma DivDiv(a: int, b: int, c: int)
    requires 0 < b && 0 < c
    ensures a / (b * c) == (a / b) / c
  {
    var q, r := a / b, a % b;
    var h, l := q / c, q % c;
    assert a == q * b + r && q == h * c + l;
    MulMono(l, c - 1, b);
    MulMono(0, l, b);
    assert a == h * (b * c) + (l * b + r) by {
      assert (h * c + l) * b == h * (b * c) + l * b;
    }
    assert (c - 1) * b == b * c - b;
    DivModUnique(a, b * c, h, l * b + r);
  }

  // The bits of e above place p, followed by its n bits below p.
  lemma Prefix(e: int, p: nat, n: nat)
    requires 0 <= e && n <= p
    ensures e / Two(p - n) == (e / Two(p)) * Two(n) + (e / Two(p - n)) % Two(n)
  {
    TwoAdd(p - n, n);
    DivDiv(e, Two(p - n), Two(n));
  }

  lemma DropBits(e: int, q: nat, n: nat)
    requires 0 <= e
    ensures e / Two(q + n) == (e / Two(q)) / Two(n)
  {
    TwoAdd(q, n);
    DivDiv(e, Two(q), Two(n));
  }

  // n bits of one digit are n bits of the number.
  lemma DigitBits(d: Store, t: nat, j: nat, s: nat, n: nat)
    requires Proper(d, 0, t) && j < t && s + n <= 28
    ensures 0 <= d[j] / Two(s)
    ensures (Val(d, 0, t) / Two(28 * j + s)) % Two(n) == (d[j] / Two(s)) % Two(n)
  {
    hide Val, W, Two;
    var hi := Val(d, j + 1, t - j - 1);
    ValSplit(d, 0, j, t - j);
    ValFront(d, j, t - j);
    ValBound(d, 0, j);
    TwoW(j);
    DivModUnique(Val(d, 0, t), W(j), d[j] + B * hi, Val(d, 0, j));
    TwoAdd(28 * j, s);
    DivDiv(Val(d, 0, t), Two(28 * j), Two(s));
    TwoDigit();
    TwoAdd(s, 28 - s);
    TwoAdd(n, 28 - s - n);
    LowBits(d[j], hi, Two(s), Two(n), Two(28 - s - n));
  }

  lemma LowBits(x: int, hi: int, ps: int, pn: int, rest: int)
    requires 0 <= x && 0 < ps && 0 < pn && ps * (pn * rest) == B
    ensures ((x + B * hi) / ps) % pn == (x / ps) % pn && 0 <= x / ps
  {
    var q, r := x / ps, x % ps;
    assert x == q * ps + r;
    assert x + B * hi == (q + (pn * rest) * hi) * ps + r by {
      assert (ps * (pn * rest)) * hi == ((pn * rest) * hi) * ps;
    }
    DivModUnique(x + B * hi, ps, q + (pn * rest) * hi, r);
    assert (pn * rest) * hi == (rest * hi) * pn;
    CongIntro(q + (rest * hi) * pn, q, pn, rest * hi);
  }

  lemma BelowTwo(x: int, n: nat)
    requires 0 <= x < B && n <= 28
    ensures 0 <= x / Two(28 - n) < Two(n)
  {
    hide Two;
    TwoDigit();
    TwoAdd(n, 28 - n);
    QuotientBelow(x, Two(n), Two(28 - n));
  }

  lemma QuotientBelow(x: int, a: int, c: int)
    requires 0 < c && 0 <= x < a * c
    ensures 0 <= x / c < a
  {
    var q := x / c;
    assert q * c <= x;
    MulStrict(q, a, c);
  }

  lemma JoinBits(e: int, q: nat, a: nat, b: nat)
    requires 0 <= e
    ensures (e / Two(q)) % Two(a + b)
         == ((e / Two(q + b)) % Two(a)) * Two(b) + (e / Two(q)) % Two(b)
  {
    hide Two;
    DropBits(e, q, b);
    TwoAdd(a, b);
    JoinMod(e / Two(q), Two(a), Two(b));
  }

  lemma JoinMod(x: int, a: int, b: int)
    requires 0 < a && 0 < b
    ensures x % (a * b) == ((x / b) % a) * b + x % b
  {
    var h, l := x / b, x % b;
    var u, v := h / a, h % a;
    JoinFactor(x, u, v, l, a, b);
    JoinRange(v, l, a, b);
    DivModUnique(x, a * b, u, v * b + l);
  }

  lemma JoinFactor(x: int, u: int, v: int, l: int, a: int, b: int)
    requires x == (u * a + v) * b + l
    ensures x == u * (a * b) + (v * b + l)
  {
    MulAdd(b, u * a, v);
    assert (u * a) * b == u * (a * b);
  }

  lemma JoinRange(v: int, l: int, a: int, b: int)
    requires 0 <= v < a && 0 <= l < b
    ensures 0 <= v * b + l < a * b
  {
    MulMono(v + 1, a, b);
    MulMono(0, v, b);
  }

  // The window of k bits that starts just below place p, with zeros for bits that are not there.
  ghost function WindowBits(e: int, p: nat, k: nat): int {
    if k <= p then (e / Two(p - k)) % Two(k) else (e % Two(p)) * Two(k - p)
  }

  // Cut the zeros at its end off: what is left are the n bits below p, and they are odd.
  lemma WindowCut(e: int, p: nat, k: nat, w: int, n: nat)
    requires 0 <= e && 0 < n <= k && w % 2 == 1
    requires WindowBits(e, p, k) == w * Two(k - n)
    ensures n <= p && e / Two(p - n) == (e / Two(p)) * Two(n) + w
  {
    hide Two;
    if k <= p {
      var x := e / Two(p - k);
      Prefix(e, p, k);
      DropBits(e, p - k, k - n);
      TwoAdd(n, k - n);
      var h := e / Two(p);
      assert x == (h * Two(n) + w) * Two(k - n) + 0 by {
        assert (h * Two(n) + w) * Two(k - n) == h * (Two(n) * Two(k - n)) + w * Two(k - n);
      }
      DivModUnique(x, Two(k - n), h * Two(n) + w, 0);
    } else {
      WindowShort(e, p, k, w, n);
    }
  }

  lemma WindowShort(e: int, p: nat, k: nat, w: int, n: nat)
    requires 0 <= e && 0 < n <= k && w % 2 == 1 && p < k
    requires (e % Two(p)) * Two(k - p) == w * Two(k - n)
    ensures n <= p && e / Two(p - n) == (e / Two(p)) * Two(n) + w
  {
    hide Two;
    var y := e % Two(p);
    assert n <= p by {
      if p < n {
        EvenWindow(y, p, k, w, n);
      }
    }
    TwoAdd(p - n, k - p);
    assert (w * Two(p - n)) * Two(k - p) == y * Two(k - p);
    SameFactor(w * Two(p - n), y, Two(k - p));
    TwoAdd(n, p - n);
    var h := e / Two(p);
    assert e == (h * Two(n) + w) * Two(p - n) + 0 by {
      assert (h * Two(n) + w) * Two(p - n) == h * (Two(n) * Two(p - n)) + w * Two(p - n);
    }
    DivModUnique(e, Two(p - n), h * Two(n) + w, 0);
  }

  // The zeros that pad a short window are even.
  lemma EvenWindow(y: int, p: nat, k: nat, w: int, n: nat)
    requires p < n <= k && y * Two(k - p) == w * Two(k - n)
    ensures w % 2 == 0
  {
    hide Two;
    TwoAdd(n - p, k - n);
    assert (y * Two(n - p)) * Two(k - n) == w * Two(k - n);
    SameFactor(y * Two(n - p), w, Two(k - n));
    TwoTop(n - p - 1);
    assert w == 2 * (y * Two(n - p - 1));
  }

  lemma SameFactor(a: int, b: int, c: int)
    requires 0 < c && a * c == b * c
    ensures a == b
  {
    DivModUnique(a * c, c, a, 0);
    DivModUnique(b * c, c, b, 0);
  }

  lemma PowDouble(b: int, e: nat)
    ensures Pow(b, e) * Pow(b, e) == Pow(b, 2 * e)
  {
    PowAdd(b, e, e);
  }

  // A window that starts on a set bit is not empty.
  lemma WindowPositive(e: int, p: nat, k: nat)
    requires 0 <= e && 0 < p && 0 < k && (e / Two(p - 1)) % 2 == 1
    ensures 0 < WindowBits(e, p, k) < Two(k)
  {
    hide Two;
    if k <= p {
      FirstBitSet(e, p - k, k);
    } else {
      assert Two(0) == 1 by { TwoPowers(); }
      FirstBitSet(e, 0, p);
      TwoAdd(p, k - p);
      TwoMono(0, k - p);
      MulMono(e % Two(p) + 1, Two(p), Two(k - p));
      MulMono(1, e % Two(p), Two(k - p));
    }
  }

  lemma FirstBitSet(e: int, q: nat, k: nat)
    requires 0 <= e && 0 < k && (e / Two(q + k - 1)) % 2 == 1
    ensures 0 < (e / Two(q)) % Two(k) < Two(k)
  {
    hide Two;
    assert Two(1) == 2 by { TwoPowers(); }
    JoinBits(e, q, 1, k - 1);
    TwoMono(0, k - 1);
    TwoMono(0, k);
    assert Two(0) == 1 by { TwoPowers(); }
  }

  /* ---------- the sliding window ---------- */

  lemma SmallTwo(n: nat)
    requires n <= 28
    ensures 1 <= Two(n) <= B && (n <= 6 ==> Two(n) <= 0x40) && (n < 28 ==> Two(n) <= 0x800_0000)
  {
    TwoMono(0, n);
    TwoDigit();
    TwoMono(n, 28);
    TwoPowers();
    if n <= 6 {
      TwoMono(n, 6);
      TwoAdd(4, 2);
    }
    if n < 28 {
      TwoMono(n, 27);
      TwoTop(27);
    }
  }

  // A window inside one digit, and one that takes its last b bits from the digit below.
  lemma WindowParts(d: Store, t: nat, j: nat, i: nat, k: nat)
    requires Proper(d, 0, t) && j < t && i < 28 && 1 <= k <= 6
    ensures k <= i + 1 ==> WindowBits(Val(d, 0, t), 28 * j + i + 1, k) == (d[j] / Two(i + 1 - k)) % Two(k)
    ensures i + 1 < k ==>
      WindowBits(Val(d, 0, t), 28 * j + i + 1, k) ==
      (d[j] % Two(i + 1)) * Two(k - 1 - i) + (if j > 0 then d[j - 1] / Two(28 - (k - 1 - i)) else 0)
  {
    hide Val, Two;
    ValBound(d, 0, t);
    if k <= i + 1 {
      DigitBits(d, t, j, i + 1 - k, k);
    } else {
      var b := k - 1 - i;
      assert Two(0) == 1 by { TwoPowers(); }
      DigitBits(d, t, j, 0, i + 1);
      if j > 0 {
        BelowTwo(d[j - 1], b);
        DigitBits(d, t, j - 1, 28 - b, b);
        SmallMod(d[j - 1] / Two(28 - b), Two(b));
        JoinBits(Val(d, 0, t), 28 * (j - 1) + 28 - b, i + 1, b);
      }
    }
  }

  // The k bits from bit i of digit j down, which may reach into the digit below.
  method ReadWindow(e: BigInteger, j: nat, i: nat, k: nat) returns (w: int)
    requires e.Valid() && e.s == 0 && j < e.t && i < 28 && 1 <= k <= 6
    ensures w == WindowBits(e.Value(), 28 * j + i + 1, k)
  {
    hide Two, Val, WindowBits;
    NumPositive(e.d, e.t);
    WindowParts(e.d, e.t, j, i, k);
    SmallTwo(k);
    if i + 1 >= k {
      SmallTwo(i + 1 - k);
      w := And(Shr(e.d[j], Two(i + 1 - k)), Two(k));
    } else {
      var b := k - 1 - i;
      SmallTwo(i + 1);
      SmallTwo(b);
      WindowShift(e.d[j], i + 1, b, k);
      w := Shl(And(e.d[j], Two(i + 1)), Two(b));
      if j > 0 {
        SmallTwo(28 - b);
        BelowTwo(e.d[j - 1], b);
        w := Or(w, Shr(e.d[j - 1], Two(28 - b)), Two(b));
      }
    }
  }

  lemma SmallMod(x: int, m: int)
    requires 0 <= x < m
    ensures x % m == x
  {
    DivModUnique(x, m, 0, x);
  }

  lemma WindowShift(x: int, a: nat, b: nat, k: nat)
    requires 0 <= x && a + b == k <= 6
    ensures 0 <= (x % Two(a)) * Two(b) <= 0x40 - Two(b) && ((x % Two(a)) * Two(b)) % Two(b) == 0
  {
    hide Two;
    TwoAdd(a, b);
    SmallTwo(k);
    var y := x % Two(a);
    MulMono(0, y, Two(b));
    MulMono(y + 1, Two(a), Two(b));
    MulAdd(Two(b), y, 1);
    DivModUnique(y * Two(b), Two(b), y, 0);
  }

  // Read the window and cut it down to its last set bit: n bits, an odd number w.
  method FindWindow(e: BigInteger, j: nat, i: nat, k: nat) returns (w: int, n: nat)
    requires e.Valid() && e.s == 0 && j < e.t && i < 28 && 1 <= k <= 6
    requires (e.Value() / Two(28 * j + i)) % 2 == 1
    ensures 0 < n <= k && w % 2 == 1 && 0 < w < Two(k) && n <= 28 * j + i + 1
    ensures e.Value() / Two(28 * j + i + 1 - n) == (e.Value() / Two(28 * j + i + 1)) * Two(n) + w
  {
    hide Two, Val, Num;
    ghost var p, v := 28 * j + i + 1, e.Value();
    SignOf(e.d, e.t, e.s);
    WindowPositive(v, p, k);
    w := ReadWindow(e, j, i, k);
    n := k;
    assert w * Two(k - n) == w by { TwoPowers(); }
    while w % 2 == 0
      invariant 0 < n <= k && 0 < w < Two(k) && w * Two(k - n) == WindowBits(v, p, k)
      decreases n
    {
      HalveWindow(w, n, k, WindowBits(v, p, k));
      w := w / 2;
      n := n - 1;
    }
    WindowCut(v, p, k, w, n);
  }

  lemma HalveWindow(w: int, n: nat, k: nat, win: int)
    requires 0 < n <= k && 0 < w && w % 2 == 0 && w * Two(k - n) == win < Two(k)
    ensures 1 < n && 0 < w / 2 && w / 2 * Two(k - n + 1) == win
  {
    hide Two;
    TwoTop(k - n);
    var h := w / 2;
    assert h * (2 * Two(k - n)) == (h * 2) * Two(k - n);
    TwoAdd(n, k - n);
    MulStrict(w, Two(n), Two(k - n));
    TwoPowers();
  }

  lemma QuarterExponent(g: nat, n: nat)
    requires 1 < n
    ensures (4 * g) * Two(n - 2) == g * Two(n)
  {
    assert (4 * g) * Two(n - 2) == g * (2 * (2 * Two(n - 2)));
  }

  // n squarings of r, using r2 as the other buffer; s is where the result is.
  method Squarings(z: Reducer, r: BigInteger, r2: BigInteger, n0: nat, ghost b: int, ghost h: nat)
    returns (s: BigInteger, o: BigInteger)
    requires z.Valid() && r != r2 && z.Apart(r) && z.Apart(r2) && 0 < n0
    requires z.Encodes(r, Pow(b, h))
    modifies r, r2
    ensures z.Valid() && ((s == r && o == r2) || (s == r2 && o == r))
    ensures z.Encodes(s, Pow(b, h * Two(n0)))
  {
    hide Num, Two, Val, Cong;
    var n := n0;
    ghost var g := h;
    assert g * Two(n) == h * Two(n0);
    while n > 1
      invariant 0 <= g && z.Valid() && z.Encodes(r, Pow(b, g)) && g * Two(n) == h * Two(n0)
    {
      z.SqrTo(r, r2, Pow(b, g));
      PowDouble(b, g);
      z.SqrTo(r2, r, Pow(b, 2 * g));
      PowDouble(b, 2 * g);
      QuarterExponent(g, n);
      g := 4 * g;
      n := n - 2;
    }
    if n > 0 {
      z.SqrTo(r, r2, Pow(b, g));
      PowDouble(b, g);
      assert Two(1) == 2 by { TwoPowers(); }
      s, o := r2, r;
    } else {
      assert Two(0) == 1 by { TwoPowers(); }
      s, o := r, r2;
    }
  }

  // Shift the n bits w of a window into the exponent.
  method TakeWindow(z: Reducer, r: BigInteger, r2: BigInteger, gw: BigInteger, n: nat,
                    ghost b: int, ghost h: nat, ghost w: nat) returns (s: BigInteger, o: BigInteger)
    requires z.Valid() && r != r2 && z.Apart(r) && z.Apart(r2) && gw != r && gw != r2 && 0 < n
    requires z.Encodes(r, Pow(b, h)) && z.Encodes(gw, Pow(b, w))
    modifies r, r2
    ensures z.Valid() && ((s == r && o == r2) || (s == r2 && o == r))
    ensures z.Encodes(s, Pow(b, h * Two(n) + w))
  {
    hide Num, Two, Val, Cong;
    var a, c := Squarings(z, r, r2, n, b, h);
    ghost var hn := h * Two(n);
    z.MulTo(a, gw, c, Pow(b, hn), Pow(b, w));
    PowAdd(b, hn, w);
    s, o := c, a;
  }

  // The odd powers of the base that a window of k bits can ask for.
  ghost predicate OddPowers(z: Reducer, g: map<nat, BigInteger>, b: int, limit: int)
    reads z, z.m, g.Values
  {
    forall w: nat {:trigger w in g} :: w % 2 == 1 && w < limit ==> w in g && z.Encodes(g[w], Pow(b, w))
  }

  method Precompute(z: Reducer, x: BigInteger, k: nat) returns (g: map<nat, BigInteger>)
    requires z.Valid() && x.Valid() && x != z.m && 1 <= k <= 6
    ensures z.Valid() && OddPowers(z, g, x.Value(), Two(k))
    ensures forall w <- g :: g[w] == x || fresh(g[w])
  {
    hide Num, Two, Val, Cong, W;
    ghost var b := x.Value();
    assert Two(1) == 2 by { TwoPowers(); }
    var g1 := z.Convert(x);
    PowOne(b);
    g := map[1 := g1];
    if k > 1 {
      var g2 := new BigInteger();
      z.SqrTo(g1, g2, b);
      g := MorePowers(z, g, g2, k, x);
    }
  }

  method MorePowers(z: Reducer, g1: map<nat, BigInteger>, g2: BigInteger, k: nat, x: BigInteger)
    returns (g: map<nat, BigInteger>)
    requires z.Valid() && OddPowers(z, g1, x.Value(), 3) && 1 in g1 && z.Encodes(g2, Pow(x.Value(), 2))
    ensures z.Valid() && OddPowers(z, g, x.Value(), Two(k))
    ensures forall w <- g :: (w in g1 && g[w] == g1[w]) || fresh(g[w])
  {
    hide Num, Two, Val, Cong, W, Reducer.Encodes, Reducer.Valid, BigInteger.Value;
    g := g1;
    var n := 3;
    while n < Two(k)
      invariant 3 <= n && n % 2 == 1 && z.Valid() && n - 2 in g
      invariant OddPowers(z, g, x.Value(), n) && z.Encodes(g2, Pow(x.Value(), 2))
      invariant forall w <- g :: (w in g1 && g[w] == g1[w]) || fresh(g[w])
    {
      var gn := NextPower(z, g, g2, n, x.Value());
      g := g[n := gn];
      n := n + 2;
    }
  }

  method NextPower(z: Reducer, g: map<nat, BigInteger>, g2: BigInteger, n: nat, ghost b: int)
    returns (gn: BigInteger)
    requires 3 <= n && n % 2 == 1 && z.Valid() && n - 2 in g
    requires OddPowers(z, g, b, n) && z.Encodes(g2, Pow(b, 2))
    ensures fresh(gn) && z.Valid() && z.Encodes(g2, Pow(b, 2)) && z.Encodes(gn, Pow(b, n))
    ensures OddPowers(z, g, b, n)
  {
    hide Num, Two, Val, Cong, W;
    gn := new BigInteger();
    z.MulTo(g2, g[n - 2], gn, Pow(b, 2), Pow(b, n - 2));
    PowAdd(b, 2, n - 2);
  }

  lemma PowOne(b: int)
    ensures Pow(b, 1) == b && b * b == Pow(b, 2)
  {
    assert Pow(b, 0) == 1;
  }

  // Bit i of digit j of e.
  function BitSet(e: BigInteger, j: nat, i: nat): bool
    requires j in e.d
    reads e
  {
    (e.d[j] / Two(i)) % 2 == 1
  }

  lemma BitOf(e: BigInteger, j: nat, i: nat)
    requires e.Valid() && e.s == 0 && j < e.t && i < 28
    ensures 0 <= e.Value() && (BitSet(e, j, i) <==> (e.Value() / Two(28 * j + i)) % 2 == 1)
  {
    hide Val;
    NumPositive(e.d, e.t);
    ValBound(e.d, 0, e.t);
    DigitBits(e.d, e.t, j, i, 1);
    assert Two(1) == 2 by { TwoPowers(); }
  }

  lemma ZeroBit(e: int, p: nat)
    requires 0 <= e && 0 < p && (e / Two(p - 1)) % 2 != 1
    ensures e / Two(p - 1) == 2 * (e / Two(p))
  {
    Prefix(e, p, 1);
    assert Two(1) == 2 by { TwoPowers(); }
  }

  // Where the scan of the exponent is: the p bits below bit i of digit j, itself included,
  // are still to come, and what is before them is in the exponent of r.
  ghost predicate Scanned(z: Reducer, e: BigInteger, j: int, i: nat, r: BigInteger, b: int)
    reads z, z.m, z.mu, e, r
  {
    && z.Valid() && e.Valid() && e.s == 0 && -1 <= j < e.t && i < 28 && 0 <= 28 * j + i + 1
    && 0 <= e.Value() && z.Encodes(r, Pow(b, ExponentAbove(e.Value(), 28 * j + i + 1)))
  }

  ghost function ExponentAbove(e: int, p: nat): nat
    requires 0 <= e
  {
    Division.DivNonNeg(e, Two(p));
    e / Two(p)
  }

  // Square once for every zero bit, so that the next window starts on a set bit.
  method SkipZeros(z: Reducer, e: BigInteger, j0: int, i0: nat, a: BigInteger, c: BigInteger, ghost b: int)
    returns (j: int, i: nat, r: BigInteger, r2: BigInteger)
    requires Scanned(z, e, j0, i0, a, b)
    requires a != c && z.Apart(a) && z.Apart(c) && a != e && c != e
    modifies a, c
    ensures Scanned(z, e, j, i, r, b) && 28 * j + i <= 28 * j0 + i0
    ensures (r == a && r2 == c) || (r == c && r2 == a)
    ensures j >= 0 ==> BitSet(e, j, i)
    ensures j < 0 ==> i == 27
  {
    hide Num, Two, Val, Cong, BitSet;
    j, i, r, r2 := j0, i0, a, c;
    while j >= 0 && !BitSet(e, j, i)
      invariant Scanned(z, e, j, i, r, b) && 28 * j + i <= 28 * j0 + i0
      invariant (r == a && r2 == c) || (r == c && r2 == a)
      decreases 28 * j + i + 1
    {
      ghost var p := 28 * j + i + 1;
      ghost var h := ExponentAbove(e.Value(), p);
      BitOf(e, j, i);
      ZeroBit(e.Value(), p);
      z.SqrTo(r, r2, Pow(b, h));
      PowDouble(b, h);
      r, r2 := r2, r;
      if i == 0 {
        i := 27;
        j := j - 1;
      } else {
        i := i - 1;
      }
    }
  }

  // One window: read it, move past it and put it into the exponent. The very first window
  // is copied, since squaring 1 would not change it.
  method Window(z: Reducer, e: BigInteger, j0: nat, i0: nat, k: nat, g: map<nat, BigInteger>, first: bool,
                a: BigInteger, c: BigInteger, ghost b: int)
    returns (j: int, i: nat, r: BigInteger, r2: BigInteger)
    requires z.Valid() && e.Valid() && e.s == 0 && j0 < e.t && i0 < 28 && 1 <= k <= 6
    requires BitSet(e, j0, i0) && OddPowers(z, g, b, Two(k))
    requires if first then 0 <= e.Value() < Two(28 * j0 + i0 + 1) else Scanned(z, e, j0, i0, a, b)
    requires a != c && z.Apart(a) && z.Apart(c) && a != e && c != e
    requires forall w <- g :: g[w] != a && g[w] != c
    modifies a, c
    ensures Scanned(z, e, j, i, r, b) && 28 * j + i < 28 * j0 + i0
    ensures (r == a && r2 == c) || (r == c && r2 == a)
  {
    hide Num, Two, Val, Cong, W, BitSet;
    ghost var p, v := 28 * j0 + i0 + 1, e.Value();
    BitOf(e, j0, i0);
    var w, n := FindWindow(e, j0, i0, k);
    ghost var h := ExponentAbove(v, p);
    j, i := j0, i0 + 28 - n;
    if i < 28 {
      j := j - 1;
    } else {
      i := i - 28;
    }
    if first {
      assert h == 0 by { Division.SmallQuotient(v, Two(p)); }
      g[w].CopyTo(a);
      r, r2 := a, c;
    } else {
      r, r2 := TakeWindow(z, a, c, g[w], n, b, h, w);
    }
  }

  // The window scan over all bits of e > 0, in two buffers.
  method Scan(z: Reducer, e: BigInteger, k: nat, g: map<nat, BigInteger>, ghost b: int) returns (r: BigInteger)
    requires z.Valid() && e.Valid() && e.s == 0 && 0 < e.t && 1 <= k <= 6 && OddPowers(z, g, b, Two(k))
    ensures fresh(r) && z.Valid() && 0 <= e.Value() && z.Encodes(r, Pow(b, e.Value()))
  {
    hide Num, Two, Val, Cong, W, BitSet, Scanned, OddPowers, Reducer.Encodes, Reducer.Valid;
    var a := new BigInteger.FromSmall(1);
    var c := new BigInteger();
    var r2;
    var j: int := e.t - 1;
    var i := NBits(e.d[j]);
    i := i - 1;
    TopBit(e, i);
    j, i, r, r2 := Window(z, e, j, i, k, g, true, a, c, b);
    j, i, r, r2 := SkipZeros(z, e, j, i, r, r2, b);
    while j >= 0
      invariant Scanned(z, e, j, i, r, b) && j < e.t
      invariant (r == a && r2 == c) || (r == c && r2 == a)
      invariant j >= 0 ==> BitSet(e, j, i)
      invariant j < 0 ==> i == 27
      decreases 28 * j + i
    {
      ScannedParts(z, e, j, i, r, b);
      j, i, r, r2 := Window(z, e, j, i, k, g, false, r, r2, b);
      j, i, r, r2 := SkipZeros(z, e, j, i, r, r2, b);
    }
    ScannedAll(z, e, j, r, b);
  }

  lemma TopBit(e: BigInteger, i: nat)
    requires e.Valid() && e.s == 0 && 0 < e.t && e.d[e.t - 1] < Two(i + 1)
    requires e.d[e.t - 1] > 0 ==> Two(i) <= e.d[e.t - 1]
    ensures i < 28 && BitSet(e, e.t - 1, i) && 0 <= e.Value() < Two(28 * (e.t - 1) + i + 1)
  {
    hide Val, Two, W;
    TopBits(e.d, e.t, i + 1);
    NumPositive(e.d, e.t);
    ValBound(e.d, 0, e.t);
    TwoTop(i);
    var x := e.d[e.t - 1];
    DivModUnique(x, Two(i), 1, x - Two(i));
  }

  lemma ScannedParts(z: Reducer, e: BigInteger, j: int, i: nat, r: BigInteger, b: int)
    requires Scanned(z, e, j, i, r, b)
    ensures z.Valid() && e.Valid() && e.s == 0 && -1 <= j < e.t && i < 28
  {}

  lemma ScannedAll(z: Reducer, e: BigInteger, j: int, r: BigInteger, b: int)
    requires Scanned(z, e, j, 27, r, b) && j < 0
    ensures z.Valid() && 0 <= e.Value() && z.Encodes(r, Pow(b, e.Value()))
  {
    assert Two(0) == 1;
  }

  // x^e mod m, with the reducer that fits the exponent's length and the modulus.
  method ModPow(x: BigInteger, e: BigInteger, m: BigInteger) returns (r: BigInteger)
    requires x.Valid() && e.Valid() && e.s == 0 && m.Valid() && 0 < m.Value() && x != m
    requires m.t <= B - 8
    ensures r.Valid() && 0 <= e.Value()
    ensures r.Value() == if e.Value() == 0 then 1 else Pow(x.Value(), e.Value()) % m.Value()
  {
    hide Num, Two, Val, Cong, W, OddPowers;
    var n := e.BitLength();
    Division.NoDigitsZero(e);
    if n <= 0 {
      r := new BigInteger.FromSmall(1);
      return;
    }
    var k := if n < 18 then 1 else if n < 48 then 3 else if n < 144 then 4 else if n < 768 then 5 else 6;
    var z: Reducer;
    var even := m.IsEven();
    if n < 8 {
      z := new Reducer.MakeClassic(m);
    } else if even {
      z := new Reducer.MakeBarrett(m);
    } else {
      z := new Reducer.MakeMontgomery(m);
    }
    var g := Precompute(z, x, k);
    r := Scan(z, e, k, g, x.Value());
    r := z.Revert(r, Pow(x.Value(), e.Value()));
  }

  /* ---------- small exponents ---------- */

  // Square and multiply for a 32-bit exponent, most significant bit first.
  method Exp(x: BigInteger, e: int, z: Reducer) returns (r: BigInteger)
    requires z.Valid() && x.Valid() && z.Apart(x)
    ensures z.Valid() && r.Valid()
    ensures r.Value() == if e < 1 || e > 0xffff_ffff then 1 else Pow(x.Value(), e) % z.Modulus()
  {
    hide Num, Two, Val, Cong, W;
    if e > 0xffff_ffff || e < 1 {
      r := new BigInteger.FromSmall(1);
      return;
    }
    ghost var b := x.Value();
    var a := new BigInteger();
    var r2 := new BigInteger();
    var g := z.Convert(x);
    var i := NBits(e);
    i := i - 1;
    PowOne(b);
    LeadingBit(e, i);
    g.CopyTo(a);
    r := ExpLoop(z, g, e, i, a, r2, b);
    r := z.Revert(r, Pow(b, e));
  }

  lemma LeadingBit(e: int, i: nat)
    requires Two(i) <= e < Two(i + 1)
    ensures e / Two(i) == 1
  {
    hide Two;
    TwoTop(i);
    DivModUnique(e, Two(i), 1, e - Two(i));
  }

  method ExpLoop(z: Reducer, g: BigInteger, e: int, i0: nat, a: BigInteger, c: BigInteger, ghost b: int)
    returns (r: BigInteger)
    requires z.Valid() && 0 < e && a != c && z.Apart(a) && z.Apart(c) && g != a && g != c
    requires e / Two(i0) == 1 && z.Encodes(a, Pow(b, 1)) && z.Encodes(g, Pow(b, 1))
    modifies a, c
    ensures z.Valid() && z.Encodes(r, Pow(b, e)) && (r == a || r == c)
  {
    hide Num, Two, Val, Cong, W;
    var i := i0;
    var r2 := c;
    r := a;
    while i > 0
      invariant 0 <= i <= i0 && z.Valid() && z.Encodes(g, Pow(b, 1))
      invariant (r == a && r2 == c) || (r == c && r2 == a)
      invariant z.Encodes(r, Pow(b, ExponentAbove(e, i)))
    {
      ghost var h := ExponentAbove(e, i);
      i := i - 1;
      z.SqrTo(r, r2, Pow(b, h));
      PowDouble(b, h);
      NextBit(e, i);
      if (e / Two(i)) % 2 == 1 {
        z.MulTo(r2, g, r, Pow(b, 2 * h), Pow(b, 1));
        PowAdd(b, 2 * h, 1);
      } else {
        r, r2 := r2, r;
      }
    }
    TwoPowers();
  }

  lemma NextBit(e: int, i: nat)
    requires 0 <= e
    ensures e / Two(i) == 2 * (e / Two(i + 1)) + (e / Two(i)) % 2
  {
    Prefix(e, i + 1, 1);
    TwoPowers();
  }

  // x^e mod m for 0 <= e < 2^32
  method ModPowInt(x: BigInteger, e: int, m: BigInteger) returns (r: BigInteger)
    requires x.Valid() && m.Valid() && 0 < m.Value() && x != m
    ensures r.Valid()
    ensures r.Value() == if e < 1 || e > 0xffff_ffff then 1 else Pow(x.Value(), e) % m.Value()
  {
    var z: Reducer;
    var even := m.IsEven();
    if e < 256 || even {
      z := new Reducer.MakeClassic(m);
    } else {
      z := new Reducer.MakeMontgomery(m);
    }
    r := Exp(x, e, z);
  }
}

