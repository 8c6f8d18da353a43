/**
The modular inverse by the binary extended Euclidean algorithm.
*/
module ModInverse {
  import opened Arith
  import opened Digits
  import opened BigIntegers
  import opened BinaryInverse
  import opened InverseRange

  ghost predicate Divides(p: int, x: int) {
    p > 0 && x % p == 0
  }

  ghost predicate Coprime(x: int, y: int) {
    forall p :: Divides(p, x) && Divides(p, y) ==> p == 1
  }

  // u and v have no common divisors but those of x and y.
  ghost predicate DivisorsOf(u: int, v: int, x: int, y: int) {
    forall p :: Divides(p, u) && Divides(p, v) ==> Divides(p, x) && Divides(p, y)
  }

  lemma DividesMultiple(p: int, x: int, k: int)
    requires Divides(p, x)
    ensures Divides(p, k * x)
  {
    var q := x / p;
    assert x == q * p + 0;
    assert k * x == (k * q) * p + 0;
    DivModUnique(k * x, p, k * q, 0);
  }

  lemma DividesSum(p: int, x: int, y: int)
    requires Divides(p, x) && Divides(p, y)
    ensures Divides(p, x + y)
  {
    var q, h := x / p, y / p;
    assert x == q * p && y == h * p;
    MulAdd(p, q, h);
    DivModUnique(x + y, p, q + h, 0);
  }

  lemma DivisorsHalved(u: int, v: int, x: int, y: int)
    requires DivisorsOf(u, v, x, y) && u % 2 == 0
    ensures DivisorsOf(u / 2, v, x, y)
  {
    forall p | Divides(p, u / 2) && Divides(p, v)
      ensures Divides(p, x) && Divides(p, y)
    {
      DividesMultiple(p, u / 2, 2);
    }
  }

  lemma DivisorsReduced(u: int, v: int, x: int, y: int)
    requires DivisorsOf(u, v, x, y)
    ensures DivisorsOf(u - v, v, x, y)
  {
    forall p | Divides(p, u - v) && Divides(p, v)
      ensures Divides(p, x) && Divides(p, y)
    {
      DividesSum(p, u - v, v);
    }
  }

  lemma DivisorsSwapped(u: int, v: int, x: int, y: int)
    requires DivisorsOf(u, v, x, y)
    ensures DivisorsOf(v, u, x, y)
  {}

  // What ties u to its coefficients: an equation when m is even, a congruence, with a left
  // alone, when m is odd.
  ghost predicate Bezout(ac: bool, u: int, a: int, b: int, m: int, x: int)
    requires 0 < m
  {
    if ac then u == a * m + b * x else Cong(b * x, u, m)
  }

  lemma BezoutDiff(ac: bool, u: int, a: int, b: int, v: int, c: int, d: int, m: int, x: int)
    requires 0 < m && Bezout(ac, u, a, b, m, x) && Bezout(ac, v, c, d, m, x)
    ensures Bezout(ac, u - v, a - c, b - d, m, x)
  {
    MulAdd(x, b, -d);
    MulAdd(m, a, -c);
    if !ac {
      CongAdd(b * x, u, d * x, v, m);
    }
  }

  lemma BezoutHalfOdd(u: int, b: int, m: int, x: int)
    requires 0 < m && u % 2 == 0 && m % 2 == 1 && Cong(b * x, u, m)
    ensures b % 2 == 0 ==> Cong((b / 2) * x, u / 2, m)
    ensures b % 2 == 1 ==> (b - m) % 2 == 0 && Cong(((b - m) / 2) * x, u / 2, m)
  {
    hide Cong;
    if b % 2 == 0 {
      HalfCong(u, b, m, x);
    } else {
      var k := CongElim(b * x, u, m);
      LessModulus(b, x, u, k, m);
      CongIntro((b - m) * x, u, m, k - x);
      HalfCong(u, b - m, m, x);
    }
  }

  lemma LessModulus(b: int, x: int, u: int, k: int, m: int)
    requires b * x == u + k * m
    ensures (b - m) * x == u + (k - x) * m
  {
    assert (b - m) * x == b * x - m * x && (k - x) * m == k * m - m * x;
  }

  lemma BezoutHalf(ac: bool, p: Row, m: int, x: int)
    requires 0 < m && p.n % 2 == 0 && Bezout(ac, p.n, p.a, p.b, m, x)
    requires if ac then m % 2 == 0 && x % 2 == 1 else m % 2 == 1
    ensures var h := Half(ac, p, m, x); Bezout(ac, h.n, h.a, h.b, m, x)
  {
    hide Cong;
    if ac {
      BezoutHalfEven(p.n, p.a, p.b, m, x);
    } else {
      BezoutHalfOdd(p.n, p.b, m, x);
    }
  }

  lemma HalfCong(u: int, b: int, m: int, x: int)
    requires 0 < m && u % 2 == 0 && b % 2 == 0 && m % 2 == 1 && Cong(b * x, u, m)
    ensures Cong((b / 2) * x, u / 2, m)
  {
    var h, k, half := b / 2, u / 2, (m + 1) / 2;
    assert ((h * x) * 2) == b * x && k * 2 == u;
    CongIntro(2 * half, 1, m, 1);
    CongCancel(h * x, k, 2, half, m);
  }

  ghost function RowOf(u: BigInteger, a: BigInteger, b: BigInteger): Row
    reads u, a, b
  {
    Row(u.Value(), a.Value(), b.Value())
  }

  lemma HalfTwo(x: int)
    ensures x / Two(1) == x / 2
  {
    TwoPowers();
  }

  // Take the factors 2 out of u, keeping its coefficients in step.
  method Halve(ac: bool, u: BigInteger, a: BigInteger, b: BigInteger, m: BigInteger, x: BigInteger, ghost v: int)
    requires u != a && u != b && u != m && u != x && a != b && a != m && a != x && b != m && b != x && m != x
    requires u.Valid() && a.Valid() && b.Valid() && m.Valid() && x.Valid()
    requires 0 < u.Value() && 0 < m.Value()
    requires if ac then m.Value() % 2 == 0 && x.Value() % 2 == 1 else m.Value() % 2 == 1
    requires Bezout(ac, u.Value(), a.Value(), b.Value(), m.Value(), x.Value())
    requires DivisorsOf(u.Value(), v, m.Value(), x.Value())
    modifies u, a, b
    ensures u.Valid() && a.Valid() && b.Valid()
    ensures 0 < u.Value() <= old(u.Value())
    ensures Bezout(ac, u.Value(), a.Value(), b.Value(), m.Value(), x.Value())
    ensures DivisorsOf(u.Value(), v, m.Value(), x.Value())
    ensures RowOf(u, a, b) == Odd(ac, old(RowOf(u, a, b)), m.Value(), x.Value())
  {
    hide Num, Bezout, DivisorsOf, Two, Half;
    ghost var mv, xv := m.Value(), x.Value();
    ghost var all := Odd(ac, RowOf(u, a, b), mv, xv);
    var even := u.IsEven();
    while even
      invariant u.Valid() && a.Valid() && b.Valid() && (even <==> u.Value() % 2 == 0)
      invariant 0 < u.Value() <= old(u.Value())
      invariant Bezout(ac, u.Value(), a.Value(), b.Value(), mv, xv)
      invariant DivisorsOf(u.Value(), v, mv, xv)
      invariant Odd(ac, RowOf(u, a, b), mv, xv) == all
      decreases u.Value()
    {
      HalveOnce(ac, u, a, b, m, x, v);
      even := u.IsEven();
    }
  }

  method HalveOnce(ac: bool, u: BigInteger, a: BigInteger, b: BigInteger, m: BigInteger, x: BigInteger, ghost v: int)
    requires u != a && u != b && u != m && u != x && a != b && a != m && a != x && b != m && b != x && m != x
    requires u.Valid() && a.Valid() && b.Valid() && m.Valid() && x.Valid()
    requires 0 < u.Value() && u.Value() % 2 == 0 && 0 < m.Value()
    requires if ac then m.Value() % 2 == 0 && x.Value() % 2 == 1 else m.Value() % 2 == 1
    requires Bezout(ac, u.Value(), a.Value(), b.Value(), m.Value(), x.Value())
    requires DivisorsOf(u.Value(), v, m.Value(), x.Value())
    modifies u, a, b
    ensures u.Valid() && a.Valid() && b.Valid() && u.Value() == old(u.Value()) / 2
    ensures RowOf(u, a, b) == Half(ac, old(RowOf(u, a, b)), m.Value(), x.Value())
    ensures Bezout(ac, u.Value(), a.Value(), b.Value(), m.Value(), x.Value())
    ensures DivisorsOf(u.Value(), v, m.Value(), x.Value())
  {
    hide Num, DivisorsOf, Two, Bezout;
    ghost var uv, mv, xv := u.Value(), m.Value(), x.Value();
    BezoutHalf(ac, RowOf(u, a, b), mv, xv);
    DivisorsHalved(uv, v, mv, xv);
    HalfTwo(uv);
    u.RShiftTo(1, u);
    HalveCoefficients(ac, a, b, m, x);
  }

  // The coefficients are even, or made even first.
  method HalveCoefficients(ac: bool, a: BigInteger, b: BigInteger, m: BigInteger, x: BigInteger)
    requires a != b && a != m && a != x && b != m && b != x
    requires a.Valid() && b.Valid() && m.Valid() && x.Valid()
    modifies a, b
    ensures a.Valid() && b.Valid()
    ensures Row(0, a.Value(), b.Value()) == Half(ac, Row(0, old(a.Value()), old(b.Value())), m.Value(), x.Value())
  {
    hide Num, Two;
    var bEven := b.IsEven();
    if ac {
      var aEven := a.IsEven();
      if !aEven || !bEven {
        a.AddTo(x, a);
        b.SubTo(m, b);
      }
      HalfTwo(a.Value());
      a.RShiftTo(1, a);
    } else if !bEven {
      b.SubTo(m, b);
    }
    HalfTwo(b.Value());
    b.RShiftTo(1, b);
  }

  // Eight different objects.
  ghost predicate Distinct(u: BigInteger, v: BigInteger, a: BigInteger, b: BigInteger,
                           c: BigInteger, d: BigInteger, m: BigInteger, x: BigInteger)
  {
    && u != v && u != a && u != b && u != c && u != d && u != m && u != x
    && v != a && v != b && v != c && v != d && v != m && v != x
    && a != b && a != c && a != d && a != m && a != x
    && b != c && b != d && b != m && b != x
    && c != d && c != m && c != x
    && d != m && d != x && m != x
  }

  // Everything the loop of the inversion keeps: u and v with their coefficients.
  ghost predicate Inverting(ac: bool, u: BigInteger, v: BigInteger, a: BigInteger, b: BigInteger,
                            c: BigInteger, d: BigInteger, m: BigInteger, x: BigInteger)
    reads u, v, a, b, c, d, m, x
  {
    && Distinct(u, v, a, b, c, d, m, x)
    && u.Valid() && v.Valid() && a.Valid() && b.Valid() && c.Valid() && d.Valid() && m.Valid() && x.Valid()
    && 0 <= u.Value() && 0 < v.Value() && 0 < m.Value() && 0 < x.Value()
    && (if ac then m.Value() % 2 == 0 && x.Value() % 2 == 1 else m.Value() % 2 == 1)
    && Bezout(ac, u.Value(), a.Value(), b.Value(), m.Value(), x.Value())
    && Bezout(ac, v.Value(), c.Value(), d.Value(), m.Value(), x.Value())
    && DivisorsOf(u.Value(), v.Value(), m.Value(), x.Value())
  }

  ghost function Coefficient(ac: bool, u: BigInteger, v: BigInteger, a: BigInteger, b: BigInteger,
                             c: BigInteger, d: BigInteger, m: BigInteger, x: BigInteger): int
    reads u, v, a, b, c, d, m, x
    requires 0 <= u.Value() && 0 < v.Value()
  {
    Last(ac, RowOf(u, a, b), RowOf(v, c, d), m.Value(), x.Value())
  }

  // One pass: both numbers are made odd and the smaller is taken from the larger.
  method InvertStep(ac: bool, u: BigInteger, v: BigInteger, a: BigInteger, b: BigInteger,
                    c: BigInteger, d: BigInteger, m: BigInteger, x: BigInteger)
    requires Inverting(ac, u, v, a, b, c, d, m, x) && 0 < u.Value()
    modifies u, v, a, b, c, d
    ensures Inverting(ac, u, v, a, b, c, d, m, x)
    ensures u.Value() + v.Value() < old(u.Value() + v.Value())
    ensures Coefficient(ac, u, v, a, b, c, d, m, x) == old(Coefficient(ac, u, v, a, b, c, d, m, x))
  {
    hide Num, Bezout, DivisorsOf, Two, Odd;
    Halve(ac, u, a, b, m, x, v.Value());
    DivisorsSwapped(u.Value(), v.Value(), m.Value(), x.Value());
    Halve(ac, v, c, d, m, x, u.Value());
    DivisorsSwapped(v.Value(), u.Value(), m.Value(), x.Value());
    Subtract(ac, u, v, a, b, c, d, m, x);
  }

  method Subtract(ac: bool, u: BigInteger, v: BigInteger, a: BigInteger, b: BigInteger,
                  c: BigInteger, d: BigInteger, m: BigInteger, x: BigInteger)
    requires Inverting(ac, u, v, a, b, c, d, m, x) && 0 < u.Value()
    modifies u, v, a, b, c, d
    ensures Inverting(ac, u, v, a, b, c, d, m, x)
    ensures u.Value() + v.Value() < old(u.Value() + v.Value())
    ensures old(u.Value()) >= old(v.Value()) ==>
      && RowOf(u, a, b) == Minus(ac, old(RowOf(u, a, b)), old(RowOf(v, c, d)))
      && RowOf(v, c, d) == old(RowOf(v, c, d))
    ensures old(u.Value()) < old(v.Value()) ==>
      && RowOf(u, a, b) == old(RowOf(u, a, b))
      && RowOf(v, c, d) == Minus(ac, old(RowOf(v, c, d)), old(RowOf(u, a, b)))
  {
    hide Num, DivisorsOf, Two, Cong;
    ghost var uv, vv, mv, xv := u.Value(), v.Value(), m.Value(), x.Value();
    BezoutDiff(ac, uv, a.Value(), b.Value(), vv, c.Value(), d.Value(), mv, xv);
    BezoutDiff(ac, vv, c.Value(), d.Value(), uv, a.Value(), b.Value(), mv, xv);
    DivisorsReduced(uv, vv, mv, xv);
    DivisorsSwapped(uv, vv, mv, xv);
    DivisorsReduced(vv, uv, mv, xv);
    DivisorsSwapped(vv - uv, uv, mv, xv);
    var cmp := u.CompareTo(v);
    if cmp >= 0 {
      TakeAway(ac, u, a, b, v, c, d);
    } else {
      TakeAway(ac, v, c, d, u, a, b);
    }
  }

  // u -= v, and the coefficients with it; a is not used when m is odd
  method TakeAway(ac: bool, u: BigInteger, a: BigInteger, b: BigInteger, v: BigInteger, c: BigInteger, d: BigInteger)
    requires u != a && u != b && a != b && u !in {v, c, d} && a !in {v, c, d} && b !in {v, c, d}
    requires u.Valid() && v.Valid() && a.Valid() && b.Valid() && c.Valid() && d.Valid()
    modifies u, a, b
    ensures u.Valid() && a.Valid() && b.Valid()
    ensures u.Value() == old(u.Value()) - v.Value() && b.Value() == old(b.Value()) - d.Value()
    ensures a.Value() == old(a.Value()) - if ac then c.Value() else 0
  {
    hide Num;
    u.SubTo(v, u);
    if ac {
      a.SubTo(c, a);
    }
    b.SubTo(d, b);
  }

  // The inverse of x modulo m, or 0 if there is none. It may lie outside [0, m), for an odd and for an even
  // modulus, but not by more than the bits of x allow, and not for small x.
  method ModInverse(x: BigInteger, m: BigInteger) returns (r: BigInteger)
    requires x.Valid() && m.Valid() && x != m && 0 < x.Value() && 1 < m.Value()
    ensures r.Valid()
    ensures r.Value() == 0 <==> !Coprime(x.Value(), m.Value())
    ensures Coprime(x.Value(), m.Value()) ==> Cong(r.Value() * x.Value(), 1, m.Value())
    ensures Coprime(x.Value(), m.Value()) ==> r.Value() == Corrected(LastCoefficient(m.Value(), x.Value()), m.Value())
    ensures 4 * Abs(r.Value()) <= (Bits(x.Value()) + 3) * m.Value() + 4
    ensures x.Value() < 64 ==> 0 <= r.Value() < m.Value()
  {
    hide Num, Bezout, DivisorsOf, Coprime, Cong, Inverting, LastCoefficient, Corrected, Bits;
    ghost var xv, mv := x.Value(), m.Value();
    var ac := m.IsEven();
    var xEven := x.IsEven();
    if xEven && ac {
      BothEven(xv, mv);
      MulMono(0, Bits(xv) + 3, mv);
      r := new BigInteger.FromSmall(0);
      return;
    }
    r := InverseOf(ac, x, m);
    InverseNotZero(r.Value(), xv, mv);
    ResultWithin(r.Value(), mv, xv);
  }

  lemma ResultWithin(r: int, m: int, x: int)
    requires 1 < m && 0 < x && (m % 2 == 1 || x % 2 == 1)
    requires r == 0 || (r == Corrected(LastCoefficient(m, x), m) && Cong(r * x, 1, m))
    ensures 4 * Abs(r) <= (Bits(x) + 3) * m + 4
    ensures x < 64 ==> 0 <= r < m
  {
    hide LastCoefficient, Corrected, Bits;
    InverseWithin(m, x);
    if x < 64 && r != 0 {
      SmallInverseInRange(m, x);
    }
  }

  // The inversion of numbers that are not both even.
  method InverseOf(ac: bool, x: BigInteger, m: BigInteger) returns (r: BigInteger)
    requires x.Valid() && m.Valid() && x != m && 0 < x.Value() && 1 < m.Value()
    requires (ac <==> m.Value() % 2 == 0) && (ac ==> x.Value() % 2 == 1)
    ensures r.Valid()
    ensures !Coprime(x.Value(), m.Value()) ==> r.Value() == 0
    ensures Coprime(x.Value(), m.Value()) ==> Cong(r.Value() * x.Value(), 1, m.Value())
    ensures Coprime(x.Value(), m.Value()) ==> r.Value() == Corrected(LastCoefficient(m.Value(), x.Value()), m.Value())
  {
    hide Num, Bezout, DivisorsOf, Coprime, Cong, Inverting, Corrected, Odd, Last;
    var u := new BigInteger();
    m.CopyTo(u);
    var v := new BigInteger();
    x.CopyTo(v);
    var a := new BigInteger.FromSmall(1);
    var b := new BigInteger.FromSmall(0);
    var c := new BigInteger.FromSmall(0);
    var d := new BigInteger.FromSmall(1);
    InvertingStart(ac, u, v, a, b, c, d, m, x);
    InvertLoop(ac, u, v, a, b, c, d, m, x);
    ghost var dv := d.Value();
    r := Finish(v, d, m);
    FinishInverse(r.Value(), dv, x.Value(), m.Value());
  }

  lemma FinishInverse(r: int, d: int, x: int, m: int)
    requires 0 < m
    ensures Cong(r, d, m) && Cong(d * x, 1, m) ==> Cong(r * x, 1, m)
  {
    if Cong(r, d, m) && Cong(d * x, 1, m) {
      CongMul(r, d, x, x, m);
    }
  }

  method InvertLoop(ac: bool, u: BigInteger, v: BigInteger, a: BigInteger, b: BigInteger,
                    c: BigInteger, d: BigInteger, m: BigInteger, x: BigInteger)
    requires Inverting(ac, u, v, a, b, c, d, m, x) && 1 < m.Value()
    modifies u, v, a, b, c, d
    ensures v.Valid() && d.Valid() && m.Valid() && d != m && d != v
    ensures v.Value() == 1 <==> Coprime(x.Value(), m.Value())
    ensures v.Value() == 1 ==> Cong(d.Value() * x.Value(), 1, m.Value())
    ensures old(u.Value()) >= 0 && old(v.Value()) > 0
    ensures d.Value() == old(Coefficient(ac, u, v, a, b, c, d, m, x))
  {
    hide Num, Bezout, DivisorsOf, Coprime, Cong, Inverting, Coefficient;
    InvertingParts(ac, u, v, a, b, c, d, m, x);
    ghost var last := Coefficient(ac, u, v, a, b, c, d, m, x);
    var sign := u.SigNum();
    while sign != 0
      invariant Inverting(ac, u, v, a, b, c, d, m, x)
      invariant 0 <= u.Value() && 0 < v.Value() && (sign == 0 <==> u.Value() == 0)
      invariant Coefficient(ac, u, v, a, b, c, d, m, x) == last
      decreases u.Value() + v.Value()
    {
      InvertStep(ac, u, v, a, b, c, d, m, x);
      InvertingParts(ac, u, v, a, b, c, d, m, x);
      sign := u.SigNum();
    }
    InvertingParts(ac, u, v, a, b, c, d, m, x);
    InvertingEnd(ac, u, v, a, b, c, d, m, x);
    CoefficientEnd(ac, u, v, a, b, c, d, m, x);
  }

  lemma CoefficientEnd(ac: bool, u: BigInteger, v: BigInteger, a: BigInteger, b: BigInteger,
                       c: BigInteger, d: BigInteger, m: BigInteger, x: BigInteger)
    requires u.Value() == 0 && 0 < v.Value()
    ensures Coefficient(ac, u, v, a, b, c, d, m, x) == d.Value()
  {}

  // The last lines of the inversion: 0 unless v is 1, otherwise d moved towards [0, m).
  method Finish(v: BigInteger, d: BigInteger, m: BigInteger) returns (r: BigInteger)
    requires v.Valid() && d.Valid() && m.Valid() && d != m && d != v && 1 < m.Value()
    modifies d
    ensures r.Valid()
    ensures v.Value() != 1 ==> r.Value() == 0
    ensures v.Value() == 1 ==> Cong(r.Value(), old(d.Value()), m.Value())
    ensures v.Value() == 1 ==> r.Value() == Corrected(old(d.Value()), m.Value())
  {
    hide Num, Cong;
    ghost var dv, mv := d.Value(), m.Value();
    CongIntro(dv - mv, dv, mv, -1);
    CongIntro(dv + mv, dv, mv, 1);
    CongIntro(dv + mv + mv, dv, mv, 2);
    CongRefl(dv, mv);
    var one := new BigInteger.FromSmall(1);
    var cmp := v.CompareTo(one);
    if cmp != 0 {
      r := new BigInteger.FromSmall(0);
      return;
    }
    cmp := d.CompareTo(m);
    if cmp >= 0 {
      r := new BigInteger();
      d.SubTo(m, r);
      return;
    }
    var sign := d.SigNum();
    if sign < 0 {
      d.AddTo(m, d);
    } else {
      r := d;
      return;
    }
    sign := d.SigNum();
    if sign < 0 {
      r := new BigInteger();
      d.AddTo(m, r);
    } else {
      r := d;
    }
  }

  lemma BothEven(x: int, m: int)
    requires x % 2 == 0 && m % 2 == 0
    ensures !Coprime(x, m)
  {
    assert Divides(2, x) && Divides(2, m);
  }

  lemma InvertingStart(ac: bool, u: BigInteger, v: BigInteger, a: BigInteger, b: BigInteger,
                       c: BigInteger, d: BigInteger, m: BigInteger, x: BigInteger)
    requires Distinct(u, v, a, b, c, d, m, x)
    requires u.Valid() && v.Valid() && a.Valid() && b.Valid() && c.Valid() && d.Valid() && m.Valid() && x.Valid()
    requires u.Value() == m.Value() && v.Value() == x.Value() && 0 < m.Value() && 0 < x.Value()
    requires a.Value() == 1 && b.Value() == 0 && c.Value() == 0 && d.Value() == 1
    requires ac <==> m.Value() % 2 == 0
    requires ac ==> x.Value() % 2 == 1
    ensures Inverting(ac, u, v, a, b, c, d, m, x)
  {
    CongIntro(0 * x.Value(), m.Value(), m.Value(), -1);
  }

  lemma InvertingParts(ac: bool, u: BigInteger, v: BigInteger, a: BigInteger, b: BigInteger,
                       c: BigInteger, d: BigInteger, m: BigInteger, x: BigInteger)
    requires Inverting(ac, u, v, a, b, c, d, m, x)
    ensures u.Valid() && v.Valid() && d.Valid() && m.Valid() && d != m && d != v
    ensures 0 <= u.Value() && 0 < v.Value() && m !in {u, v, a, b, c, d} && x !in {u, v, a, b, c, d}
  {}

  // When u is 0, v is the only divisor left: it divides both numbers, and if it is 1 they
  // are coprime and d is the inverse.
  lemma InvertingEnd(ac: bool, u: BigInteger, v: BigInteger, a: BigInteger, b: BigInteger,
                     c: BigInteger, d: BigInteger, m: BigInteger, x: BigInteger)
    requires Inverting(ac, u, v, a, b, c, d, m, x) && u.Value() == 0 && 1 < m.Value()
    ensures v.Value() == 1 <==> Coprime(x.Value(), m.Value())
    ensures v.Value() == 1 ==> Cong(d.Value() * x.Value(), 1, m.Value())
  {
    hide Num, Cong;
    EndFacts(ac, v.Value(), c.Value(), d.Value(), m.Value(), x.Value());
  }

  lemma EndFacts(ac: bool, v: int, c: int, d: int, m: int, x: int)
    requires 1 < m && 0 < v && Bezout(ac, v, c, d, m, x) && DivisorsOf(0, v, m, x)
    ensures v == 1 <==> Coprime(x, m)
    ensures v == 1 ==> Cong(d * x, 1, m)
  {
    if ac {
      CongIntro(d * x, v, m, -c);
    }
    assert Divides(v, 0) && Divides(v, v) by {
      DivModUnique(0, v, 0, 0);
      DivModUnique(v, v, 1, 0);
    }
    assert Divides(v, m) && Divides(v, x);
    if v == 1 {
      InverseIsCoprime(d, x, m);
    }
  }

  lemma InverseIsCoprime(d: int, x: int, m: int)
    requires 1 < m && Cong(d * x, 1, m)
    ensures Coprime(x, m)
  {
    forall p | Divides(p, x) && Divides(p, m)
      ensures p == 1
    {
      var k := CongElim(d * x, 1, m);
      DividesMultiple(p, x, d);
      DividesMultiple(p, m, -k);
      DividesSum(p, d * x, -k * m);
      if p > 1 {
        DivModUnique(1, p, 0, 1);
      }
    }
  }

  lemma InverseNotZero(r: int, x: int, m: int)
    requires 1 < m
    ensures Cong(r * x, 1, m) ==> r != 0
  {
    if r == 0 {
      DivModUnique(0, m, 0, 0);
      DivModUnique(1, m, 0, 1);
    }
  }
}
