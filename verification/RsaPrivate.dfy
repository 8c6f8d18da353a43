/**
The raw RSA private operation by Chinese remaindering (section 5.1.2 of RFC 8017).
*/
module RsaPrivate {
  import opened Arith
  import opened Digits
  import opened BigIntegers
  import opened ModPow
  import Division

  // r has the residues of both exponentiations and is the least number that does.
  ghost predicate Recombines(r: int, x: int, dp: nat, dq: nat, p: int, q: int)
    requires 0 < p && 0 < q
  {
    0 <= r < p * q && Cong(r, Pow(x, dp), p) && Cong(r, Pow(x, dq), q)
  }

  // Garner's step: xq + q * (((xp - xq) * coeff) mod p)
  lemma Garner(xp: int, xq: int, coeff: int, p: int, q: int, h: int)
    requires 0 < p && 0 < q && 0 <= xq < q && Cong(coeff * q, 1, p)
    requires h == ((xp - xq) * coeff) % p
    ensures 0 <= h * q + xq < p * q
    ensures Cong(h * q + xq, xp, p) && Cong(h * q + xq, xq, q)
  {
    hide Cong;
    assert 0 <= h * q + xq < p * q by {
      MulMono(h + 1, p, q);
      MulAdd(q, h, 1);
      MulMono(0, h, q);
    }
    CongIntro(h * q + xq, xq, q, h);
    var z := (xp - xq) * coeff;
    CongMod(z, p);
    CongMul(h, z, q, q, p) by { CongRefl(q, p); }
    assert z * q == (xp - xq) * (coeff * q);
    CongMul(xp - xq, xp - xq, coeff * q, 1, p) by { CongRefl(xp - xq, p); }
    assert (xp - xq) * 1 == xp - xq;
    CongTrans(h * q, z * q, xp - xq, p);
    CongAdd(h * q, xp - xq, xq, xq, p) by { CongRefl(xq, p); }
  }

  // Below p * q a number is determined by its residues, since coeff makes p and q coprime.
  lemma ResiduesDetermine(r: int, s: int, coeff: int, p: int, q: int)
    requires 0 < p && 0 < q && Cong(coeff * q, 1, p)
    requires 0 <= r < p * q && 0 <= s < p * q && Cong(r, s, p) && Cong(r, s, q)
    ensures r == s
  {
    hide Cong;
    var k := CongElim(r, s, q);
    CongAdd(r, s, s, s, p) by { CongRefl(s, p); }
    assert r - s == k * q;
    CongCancel(k, 0, q, coeff, p) by {
      assert q * coeff == coeff * q;
      assert 0 * q == s - s;
    }
    var l := CongElim(k, 0, p);
    assert r - s == (l * p) * q;
    assert (l * p) * q == l * (p * q);
    NoMultiple(r, s, l, p * q);
  }

  lemma NoMultiple(r: int, s: int, l: int, n: int)
    requires 0 <= r < n && 0 <= s < n && r - s == l * n
    ensures r == s
  {
    DivModUnique(r, n, 0, r);
    DivModUnique(r, n, l, s);
  }

  lemma PowerResidue(x: int, e: nat, m: int)
    requires 1 < m
    ensures Cong(if e == 0 then 1 else Pow(x % m, e) % m, Pow(x, e), m)
    ensures 0 <= (if e == 0 then 1 else Pow(x % m, e) % m) < m
  {
    if e > 0 {
      CongMod(x, m);
      CongPow(x % m, x, e, m);
      CongMod(Pow(x % m, e), m);
    }
  }

  // x^e mod m for an x of any size
  method Residue(x: BigInteger, e: BigInteger, m: BigInteger) returns (r: BigInteger)
    requires x.Valid() && e.Valid() && e.s == 0 && m.Valid() && 1 < m.Value() && m.t <= B - 8 && x != m
    ensures r.Valid() && 0 <= e.Value() && 0 <= r.Value() < m.Value()
    ensures Cong(r.Value(), Pow(x.Value(), e.Value()), m.Value())
  {
    hide Num, Cong;
    Division.NoDigitsZero(e);
    PowerResidue(x.Value(), e.Value(), m.Value());
    var y := Division.Mod(x, m);
    r := ModPow.ModPow(y, e, m);
  }

  // The private operation with the factors of the modulus known.
  method DoPrivateCrt(x: BigInteger, p: BigInteger, q: BigInteger, dmp1: BigInteger, dmq1: BigInteger,
                      coeff: BigInteger)
    returns (r: BigInteger)
    requires x.Valid() && p.Valid() && q.Valid() && dmp1.Valid() && dmq1.Valid() && coeff.Valid()
    requires x != p && x != q && coeff != p
    requires 1 < p.Value() && 1 < q.Value() && p.t <= B - 8 && q.t <= B - 8 && dmp1.s == 0 && dmq1.s == 0
    requires Cong(coeff.Value() * q.Value(), 1, p.Value())
    ensures r.Valid() && 0 <= dmp1.Value() && 0 <= dmq1.Value()
    ensures Recombines(r.Value(), x.Value(), dmp1.Value(), dmq1.Value(), p.Value(), q.Value())
  {
    hide Num, Cong, Recombines, Pow, BigInteger.Value, BigInteger.Valid;
    var xp := Residue(x, dmp1, p);
    var xq := Residue(x, dmq1, q);
    var high := RaiseAbove(xp, xq, p);
    CongTrans(high.Value(), xp.Value(), Pow(x.Value(), dmp1.Value()), p.Value());
    r := Recombine(high, xq, p, q, coeff);
    RecombinesIntro(r.Value(), x.Value(), dmp1.Value(), dmq1.Value(), p.Value(), q.Value(), high.Value(), xq.Value());
  }

  lemma RecombinesIntro(r: int, x: int, dp: nat, dq: nat, p: int, q: int, xp: int, xq: int)
    requires 0 < p && 0 < q && 0 <= r < p * q && Cong(r, xp, p) && Cong(r, xq, q)
    requires Cong(xp, Pow(x, dp), p) && Cong(xq, Pow(x, dq), q)
    ensures Recombines(r, x, dp, dq, p, q)
  {}

  // while (xp < xq) xp = xp.add(p)
  method RaiseAbove(xp0: BigInteger, xq: BigInteger, p: BigInteger) returns (xp: BigInteger)
    requires xp0.Valid() && xq.Valid() && p.Valid() && 0 < p.Value()
    ensures xp.Valid() && xq.Value() <= xp.Value() && Cong(xp.Value(), xp0.Value(), p.Value())
  {
    hide Num, Cong;
    xp := xp0;
    CongRefl(xp0.Value(), p.Value());
    var c := xp.CompareTo(xq);
    while c < 0
      invariant xp.Valid() && Cong(xp.Value(), xp0.Value(), p.Value()) && (c < 0 <==> xp.Value() < xq.Value())
      decreases if xp.Value() < xq.Value() then xq.Value() - xp.Value() else 0
    {
      CongIntro(xp.Value() + p.Value(), xp.Value(), p.Value(), 1);
      CongTrans(xp.Value() + p.Value(), xp.Value(), xp0.Value(), p.Value());
      var sum := new BigInteger();
      xp.AddTo(p, sum);
      xp := sum;
      c := xp.CompareTo(xq);
    }
  }

  method Recombine(xp: BigInteger, xq: BigInteger, p: BigInteger, q: BigInteger, coeff: BigInteger)
    returns (r: BigInteger)
    requires xp.Valid() && xq.Valid() && p.Valid() && q.Valid() && coeff.Valid()
    requires 0 < p.Value() && 0 <= xq.Value() < q.Value()
    requires Cong(coeff.Value() * q.Value(), 1, p.Value())
    ensures r.Valid() && 0 <= r.Value() < p.Value() * q.Value()
    ensures Cong(r.Value(), xp.Value(), p.Value()) && Cong(r.Value(), xq.Value(), q.Value())
  {
    hide Num, Cong, Clamped, BigInteger.Value, BigInteger.Digital;
    var diff := new BigInteger();
    xp.SubTo(xq, diff);
    var product := new BigInteger();
    diff.MultiplyTo(coeff, product);
    var h := Division.Mod(product, p);
    Garner(xp.Value(), xq.Value(), coeff.Value(), p.Value(), q.Value(), h.Value());
    var high := new BigInteger();
    h.MultiplyTo(q, high);
    r := new BigInteger();
    high.AddTo(xq, r);
  }

  // When both exponents agree with d modulo their primes, the result is x^d modulo p * q.
  lemma RecombinesIsPower(r: int, x: int, d: nat, dp: nat, dq: nat, p: int, q: int, coeff: int)
    requires 0 < p && 0 < q && Cong(coeff * q, 1, p) && Recombines(r, x, dp, dq, p, q)
    requires Cong(Pow(x, d), Pow(x, dp), p) && Cong(Pow(x, d), Pow(x, dq), q)
    ensures r == Pow(x, d) % (p * q)
  {
    hide Pow;
    var y := Pow(x, d);
    assert 0 < p * q by { MulMono(1, p, q); }
    var s := y % (p * q);
    FactorResidues(y, s, p, q);
    ResiduesDetermine(r, s, coeff, p, q);
  }

  lemma FactorResidues(y: int, s: int, p: int, q: int)
    requires 0 < p && 0 < q && 0 < p * q && s == y % (p * q)
    ensures Cong(s, y, p) && Cong(s, y, q)
  {
    var k := y / (p * q);
    assert y == k * (p * q) + s;
    assert k * (p * q) == (k * q) * p == (k * p) * q;
    CongIntro(y, s, p, k * q);
    CongIntro(y, s, q, k * p);
  }

  class Key {
    const n: BigInteger
    const d: BigInteger
    // The factors of the modulus and what goes with them, if they are known.
    const p: BigInteger?
    const q: BigInteger?
    const dmp1: BigInteger
    const dmq1: BigInteger
    const coeff: BigInteger

    constructor (n: BigInteger, d: BigInteger, p: BigInteger?, q: BigInteger?, dmp1: BigInteger, dmq1: BigInteger,
                 coeff: BigInteger)
      ensures this.n == n && this.d == d && this.p == p && this.q == q
      ensures this.dmp1 == dmp1 && this.dmq1 == dmq1 && this.coeff == coeff
    {
      this.n, this.d, this.p, this.q, this.dmp1, this.dmq1, this.coeff := n, d, p, q, dmp1, dmq1, coeff;
    }

    // Without the factors the power is taken modulo n directly.
    method DoPrivate(x: BigInteger) returns (r: BigInteger)
      requires x.Valid() && n.Valid() && d.Valid() && dmp1.Valid() && dmq1.Valid() && coeff.Valid()
      requires d.s == 0 && 0 < n.Value() && n.t <= B - 8 && x != n
      requires p != null && q != null ==>
                 && p.Valid() && q.Valid() && x != p && x != q && coeff != p
                 && 1 < p.Value() && 1 < q.Value() && p.t <= B - 8 && q.t <= B - 8 && dmp1.s == 0 && dmq1.s == 0
                 && Cong(coeff.Value() * q.Value(), 1, p.Value())
      ensures r.Valid() && 0 <= d.Value()
      ensures p == null || q == null ==>
                r.Value() == if d.Value() == 0 then 1 else Pow(x.Value(), d.Value()) % n.Value()
      ensures p != null && q != null ==>
                && 0 <= dmp1.Value() && 0 <= dmq1.Value()
                && Recombines(r.Value(), x.Value(), dmp1.Value(), dmq1.Value(), p.Value(), q.Value())
    {
      hide Num, Cong, Recombines, Pow;
      Division.NoDigitsZero(d);
      if p == null || q == null {
        r := ModPow.ModPow(x, d, n);
      } else {
        r := DoPrivateCrt(x, p, q, dmp1, dmq1, coeff);
      }
    }
  }
}
