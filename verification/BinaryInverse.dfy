/**
The run of the binary inversion on integers.
*/
module BinaryInverse {

  // A number n with its coefficients: n = a*m + b*x, or b*x modulo m when only b is kept.
  datatype Row = Row(n: int, a: int, b: int)

  // n halved, and its coefficients with it; for an odd modulus (not ac) a is not used.
  ghost function Half(ac: bool, p: Row, m: int, x: int): Row {
    if !ac then Row(p.n / 2, p.a, (if p.b % 2 == 0 then p.b else p.b - m) / 2)
    else if p.a % 2 == 0 && p.b % 2 == 0 then Row(p.n / 2, p.a / 2, p.b / 2)
    else Row(p.n / 2, (p.a + x) / 2, (p.b - m) / 2)
  }

  // Halve until n is odd.
  ghost function Odd(ac: bool, p: Row, m: int, x: int): (r: Row)
    requires 0 < p.n
    ensures 0 < r.n <= p.n && r.n % 2 == 1
    ensures p.n % 2 == 1 ==> r == p
    decreases p.n
  {
    if p.n % 2 == 0 then Odd(ac, Half(ac, p, m, x), m, x) else p
  }

  ghost function Minus(ac: bool, p: Row, q: Row): Row {
    Row(p.n - q.n, if ac then p.a - q.a else p.a, p.b - q.b)
  }

  // What ties n to its coefficients, as far as the coefficients of both are kept; x and m are not both even.
  ghost predicate Sound(ac: bool, p: Row, m: int, x: int) {
    if ac then m % 2 == 0 && x % 2 == 1 && p.n == p.a * m + p.b * x else m % 2 == 1
  }

  // Halving u and its coefficients: they are even, or made even first.
  lemma BezoutHalfEven(u: int, a: int, b: int, m: int, x: int)
    requires u % 2 == 0 && m % 2 == 0 && x % 2 == 1 && u == a * m + b * x
    ensures b % 2 == 0
    ensures a % 2 == 0 ==> u / 2 == (a / 2) * m + (b / 2) * x
    ensures a % 2 == 1 ==>
      (a + x) % 2 == 0 && (b - m) % 2 == 0 && u / 2 == ((a + x) / 2) * m + ((b - m) / 2) * x
  {
    EvenCoefficient(u, a, b, m, x);
    if a % 2 == 0 {
      HalfSum(u, a, b, m, x);
    } else {
      HalfShifted(u, a, b, m, x);
    }
  }

  lemma EvenCoefficient(u: int, a: int, b: int, m: int, x: int)
    requires u % 2 == 0 && m % 2 == 0 && x % 2 == 1 && u == a * m + b * x
    ensures b % 2 == 0
  {
    EvenTerm(u, a, b * x, m);
    OddFactor(b, x);
  }

  lemma HalfShifted(u: int, a: int, b: int, m: int, x: int)
    requires a % 2 == 1 && x % 2 == 1 && b % 2 == 0 && m % 2 == 0 && u == a * m + b * x
    ensures (a + x) % 2 == 0 && (b - m) % 2 == 0 && u / 2 == ((a + x) / 2) * m + ((b - m) / 2) * x
  {
    Shifted(a, b, m, x);
    HalfSum(u, a + x, b - m, m, x);
  }

  lemma EvenTerm(u: int, a: int, e: int, m: int)
    requires u % 2 == 0 && m % 2 == 0 && u == a * m + e
    ensures e % 2 == 0
  {
    var h := m / 2;
    assert a * m == 2 * (a * h);
  }

  lemma Shifted(a: int, b: int, m: int, x: int)
    ensures (a + x) * m + (b - m) * x == a * m + b * x
  {
    assert (a + x) * m == a * m + x * m;
    assert (b - m) * x == b * x - x * m;
  }

  lemma OddFactor(b: int, x: int)
    requires (b * x) % 2 == 0 && x % 2 == 1
    ensures b % 2 == 0
  {
    var q := x / 2;
    assert x == 2 * q + 1;
    assert b * x == 2 * (b * q) + b;
  }

  lemma HalfSum(u: int, a: int, b: int, m: int, x: int)
    requires a % 2 == 0 && b % 2 == 0 && u == a * m + b * x
    ensures u / 2 == (a / 2) * m + (b / 2) * x
  {
    var h, k := a / 2, b / 2;
    assert a * m == 2 * (h * m) && b * x == 2 * (k * x);
  }

  // Halving an even number halves its coefficient or m less than it, exactly.
  lemma HalfIsExact(ac: bool, p: Row, m: int, x: int)
    requires p.n % 2 == 0 && Sound(ac, p, m, x)
    ensures 2 * Half(ac, p, m, x).b == p.b || 2 * Half(ac, p, m, x).b == p.b - m
    ensures 2 * Half(ac, p, m, x).n == p.n && Sound(ac, Half(ac, p, m, x), m, x)
  {
    if ac {
      BezoutHalfEven(p.n, p.a, p.b, m, x);
    }
  }

  lemma MinusIsSound(ac: bool, p: Row, q: Row, m: int, x: int)
    requires Sound(ac, p, m, x) && Sound(ac, q, m, x)
    ensures Sound(ac, Minus(ac, p, q), m, x)
  {
    if ac {
      assert (p.a - q.a) * m == p.a * m - q.a * m;
      assert (p.b - q.b) * x == p.b * x - q.b * x;
    }
  }

  // The coefficient b of q when p has come down to 0.
  ghost function Last(ac: bool, p: Row, q: Row, m: int, x: int): int
    requires 0 <= p.n && 0 < q.n
    decreases p.n + q.n
  {
    if p.n == 0 then q.b
    else
      var p1, q1 := Odd(ac, p, m, x), Odd(ac, q, m, x);
      if p1.n >= q1.n then Last(ac, Minus(ac, p1, q1), q1, m, x)
      else Last(ac, p1, Minus(ac, q1, p1), m, x)
  }

  // The coefficient that the inversion of x modulo m ends with.
  ghost function LastCoefficient(m: int, x: int): int
    requires 0 < m && 0 < x
  {
    Last(m % 2 == 0, Row(m, 1, 0), Row(x, 0, 1), m, x)
  }

  // What the last lines make of it.
  ghost function Corrected(d: int, m: int): int {
    if d >= m then d - m
    else if d >= 0 then d
    else if d + m >= 0 then d + m
    else d + m + m
  }

  // The corrections bring the inverse into [0, m) exactly if the coefficient is within 2 m.
  lemma CorrectedInRange(d: int, m: int)
    requires 0 < m
    ensures 0 <= Corrected(d, m) < m <==> -2 * m <= d < 2 * m
  {}

  lemma Turn(ac: bool, p: Row, q: Row, p1: Row, q1: Row, m: int, x: int)
    requires 0 < p.n && 0 < q.n && Odd(ac, p, m, x) == p1 && Odd(ac, q, m, x) == q1
    ensures p1.n >= q1.n ==> Last(ac, p, q, m, x) == Last(ac, Minus(ac, p1, q1), q1, m, x)
    ensures p1.n < q1.n ==> Last(ac, p, q, m, x) == Last(ac, p1, Minus(ac, q1, p1), m, x)
  {}

  lemma LastOfZero(ac: bool, p: Row, q: Row, m: int, x: int)
    requires p.n == 0 && 0 < q.n
    ensures Last(ac, p, q, m, x) == q.b
  {}

  lemma OddOfHalf(ac: bool, p: Row, h: Row, m: int, x: int)
    requires 0 < p.n && p.n % 2 == 0 && Half(ac, p, m, x) == h
    ensures Odd(ac, p, m, x) == Odd(ac, h, m, x)
  {}

  // They do not always do so. For an odd modulus: the inverse of 1748 modulo 3659 comes out as -651.
  lemma InverseOutOfRange()
    ensures LastCoefficient(3659, 1748) == -7969
    ensures Corrected(LastCoefficient(3659, 1748), 3659) == -651
    ensures -651 * 1748 % 3659 == 1
  {
    hide Last, Odd;
    OddHalvings();
    Turn(false, Row(3659, 1, 0), Row(1748, 0, 1),
         Row(3659, 1, 0), Row(437, 0, -2744), 3659, 1748);
    Turn(false, Row(3222, 1, 2744), Row(437, 0, -2744),
         Row(1611, 1, 1372), Row(437, 0, -2744), 3659, 1748);
    Turn(false, Row(1174, 1, 4116), Row(437, 0, -2744),
         Row(587, 1, 2058), Row(437, 0, -2744), 3659, 1748);
    Turn(false, Row(150, 1, 4802), Row(437, 0, -2744),
         Row(75, 1, 2401), Row(437, 0, -2744), 3659, 1748);
    Turn(false, Row(75, 1, 2401), Row(362, 0, -5145),
         Row(75, 1, 2401), Row(181, 0, -4402), 3659, 1748);
    Turn(false, Row(75, 1, 2401), Row(106, 0, -6803),
         Row(75, 1, 2401), Row(53, 0, -5231), 3659, 1748);
    Turn(false, Row(22, 1, 7632), Row(53, 0, -5231),
         Row(11, 1, 3816), Row(53, 0, -5231), 3659, 1748);
    Turn(false, Row(11, 1, 3816), Row(42, 0, -9047),
         Row(11, 1, 3816), Row(21, 0, -6353), 3659, 1748);
    Turn(false, Row(11, 1, 3816), Row(10, 0, -10169),
         Row(11, 1, 3816), Row(5, 0, -6914), 3659, 1748);
    Turn(false, Row(6, 1, 10730), Row(5, 0, -6914),
         Row(3, 1, 5365), Row(5, 0, -6914), 3659, 1748);
    Turn(false, Row(3, 1, 5365), Row(2, 0, -12279),
         Row(3, 1, 5365), Row(1, 0, -7969), 3659, 1748);
    Turn(false, Row(2, 1, 13334), Row(1, 0, -7969),
         Row(1, 1, 6667), Row(1, 0, -7969), 3659, 1748);
    LastOfZero(false, Row(0, 1, 14636), Row(1, 0, -7969), 3659, 1748);
  }

  lemma OddHalvings()
    ensures Odd(false, Row(1748, 0, 1), 3659, 1748) == Row(437, 0, -2744)
    ensures Odd(false, Row(3222, 1, 2744), 3659, 1748) == Row(1611, 1, 1372)
    ensures Odd(false, Row(1174, 1, 4116), 3659, 1748) == Row(587, 1, 2058)
    ensures Odd(false, Row(150, 1, 4802), 3659, 1748) == Row(75, 1, 2401)
    ensures Odd(false, Row(362, 0, -5145), 3659, 1748) == Row(181, 0, -4402)
    ensures Odd(false, Row(106, 0, -6803), 3659, 1748) == Row(53, 0, -5231)
    ensures Odd(false, Row(22, 1, 7632), 3659, 1748) == Row(11, 1, 3816)
    ensures Odd(false, Row(42, 0, -9047), 3659, 1748) == Row(21, 0, -6353)
    ensures Odd(false, Row(10, 0, -10169), 3659, 1748) == Row(5, 0, -6914)
    ensures Odd(false, Row(6, 1, 10730), 3659, 1748) == Row(3, 1, 5365)
    ensures Odd(false, Row(2, 0, -12279), 3659, 1748) == Row(1, 0, -7969)
    ensures Odd(false, Row(2, 1, 13334), 3659, 1748) == Row(1, 1, 6667)
  {
    hide Odd;
    OddOfHalf(false, Row(1748, 0, 1), Row(874, 0, -1829), 3659, 1748);
    OddOfHalf(false, Row(874, 0, -1829), Row(437, 0, -2744), 3659, 1748);
    OddOfHalf(false, Row(3222, 1, 2744), Row(1611, 1, 1372), 3659, 1748);
    OddOfHalf(false, Row(1174, 1, 4116), Row(587, 1, 2058), 3659, 1748);
    OddOfHalf(false, Row(150, 1, 4802), Row(75, 1, 2401), 3659, 1748);
    OddOfHalf(false, Row(362, 0, -5145), Row(181, 0, -4402), 3659, 1748);
    OddOfHalf(false, Row(106, 0, -6803), Row(53, 0, -5231), 3659, 1748);
    OddOfHalf(false, Row(22, 1, 7632), Row(11, 1, 3816), 3659, 1748);
    OddOfHalf(false, Row(42, 0, -9047), Row(21, 0, -6353), 3659, 1748);
    OddOfHalf(false, Row(10, 0, -10169), Row(5, 0, -6914), 3659, 1748);
    OddOfHalf(false, Row(6, 1, 10730), Row(3, 1, 5365), 3659, 1748);
    OddOfHalf(false, Row(2, 0, -12279), Row(1, 0, -7969), 3659, 1748);
    OddOfHalf(false, Row(2, 1, 13334), Row(1, 1, 6667), 3659, 1748);
  }

  // And for an even one: the inverse of 24367 modulo 30376 comes out as -1193.
  lemma EvenInverseOutOfRange()
    ensures LastCoefficient(30376, 24367) == -61945
    ensures Corrected(LastCoefficient(30376, 24367), 30376) == -1193
    ensures -1193 * 24367 % 30376 == 1
  {
    hide Last, Odd;
    EvenHalvings();
    Turn(true, Row(30376, 1, 0), Row(24367, 0, 1),
         Row(3797, 3046, -3797), Row(24367, 0, 1), 30376, 24367);
    Turn(true, Row(3797, 3046, -3797), Row(20570, -3046, 3798),
         Row(3797, 3046, -3797), Row(10285, -1523, 1899), 30376, 24367);
    Turn(true, Row(3797, 3046, -3797), Row(6488, -4569, 5696),
         Row(3797, 3046, -3797), Row(811, 20750, -25867), 30376, 24367);
    Turn(true, Row(2986, -17704, 22070), Row(811, 20750, -25867),
         Row(1493, -8852, 11035), Row(811, 20750, -25867), 30376, 24367);
    Turn(true, Row(682, -29602, 36902), Row(811, 20750, -25867),
         Row(341, -14801, 18451), Row(811, 20750, -25867), 30376, 24367);
    Turn(true, Row(341, -14801, 18451), Row(470, 35551, -44318),
         Row(341, -14801, 18451), Row(235, 29959, -37347), 30376, 24367);
    Turn(true, Row(106, -44760, 55798), Row(235, 29959, -37347),
         Row(53, -22380, 27899), Row(235, 29959, -37347), 30376, 24367);
    Turn(true, Row(53, -22380, 27899), Row(182, 52339, -65246),
         Row(53, -22380, 27899), Row(91, 38353, -47811), 30376, 24367);
    Turn(true, Row(53, -22380, 27899), Row(38, 60733, -75710),
         Row(53, -22380, 27899), Row(19, 42550, -53043), 30376, 24367);
    Turn(true, Row(34, -64930, 80942), Row(19, 42550, -53043),
         Row(17, -32465, 40471), Row(19, 42550, -53043), 30376, 24367);
    Turn(true, Row(17, -32465, 40471), Row(2, 75015, -93514),
         Row(17, -32465, 40471), Row(1, 49691, -61945), 30376, 24367);
    Turn(true, Row(16, -82156, 102416), Row(1, 49691, -61945),
         Row(1, 957, -1193), Row(1, 49691, -61945), 30376, 24367);
    LastOfZero(true, Row(0, -48734, 60752), Row(1, 49691, -61945), 30376, 24367);
  }

  lemma EvenHalvings()
    ensures Odd(true, Row(30376, 1, 0), 30376, 24367) == Row(3797, 3046, -3797)
    ensures Odd(true, Row(20570, -3046, 3798), 30376, 24367) == Row(10285, -1523, 1899)
    ensures Odd(true, Row(6488, -4569, 5696), 30376, 24367) == Row(811, 20750, -25867)
    ensures Odd(true, Row(2986, -17704, 22070), 30376, 24367) == Row(1493, -8852, 11035)
    ensures Odd(true, Row(682, -29602, 36902), 30376, 24367) == Row(341, -14801, 18451)
    ensures Odd(true, Row(470, 35551, -44318), 30376, 24367) == Row(235, 29959, -37347)
    ensures Odd(true, Row(106, -44760, 55798), 30376, 24367) == Row(53, -22380, 27899)
    ensures Odd(true, Row(182, 52339, -65246), 30376, 24367) == Row(91, 38353, -47811)
    ensures Odd(true, Row(38, 60733, -75710), 30376, 24367) == Row(19, 42550, -53043)
    ensures Odd(true, Row(34, -64930, 80942), 30376, 24367) == Row(17, -32465, 40471)
    ensures Odd(true, Row(2, 75015, -93514), 30376, 24367) == Row(1, 49691, -61945)
    ensures Odd(true, Row(16, -82156, 102416), 30376, 24367) == Row(1, 957, -1193)
  {
    hide Odd;
    OddOfHalf(true, Row(30376, 1, 0), Row(15188, 12184, -15188), 30376, 24367);
    OddOfHalf(true, Row(15188, 12184, -15188), Row(7594, 6092, -7594), 30376, 24367);
    OddOfHalf(true, Row(7594, 6092, -7594), Row(3797, 3046, -3797), 30376, 24367);
    OddOfHalf(true, Row(20570, -3046, 3798), Row(10285, -1523, 1899), 30376, 24367);
    OddOfHalf(true, Row(6488, -4569, 5696), Row(3244, 9899, -12340), 30376, 24367);
    OddOfHalf(true, Row(3244, 9899, -12340), Row(1622, 17133, -21358), 30376, 24367);
    OddOfHalf(true, Row(1622, 17133, -21358), Row(811, 20750, -25867), 30376, 24367);
    OddOfHalf(true, Row(2986, -17704, 22070), Row(1493, -8852, 11035), 30376, 24367);
    OddOfHalf(true, Row(682, -29602, 36902), Row(341, -14801, 18451), 30376, 24367);
    OddOfHalf(true, Row(470, 35551, -44318), Row(235, 29959, -37347), 30376, 24367);
    OddOfHalf(true, Row(106, -44760, 55798), Row(53, -22380, 27899), 30376, 24367);
    OddOfHalf(true, Row(182, 52339, -65246), Row(91, 38353, -47811), 30376, 24367);
    OddOfHalf(true, Row(38, 60733, -75710), Row(19, 42550, -53043), 30376, 24367);
    OddOfHalf(true, Row(34, -64930, 80942), Row(17, -32465, 40471), 30376, 24367);
    OddOfHalf(true, Row(2, 75015, -93514), Row(1, 49691, -61945), 30376, 24367);
    OddOfHalf(true, Row(16, -82156, 102416), Row(8, -41078, 51208), 30376, 24367);
    OddOfHalf(true, Row(8, -41078, 51208), Row(4, -20539, 25604), 30376, 24367);
    OddOfHalf(true, Row(4, -20539, 25604), Row(2, 1914, -2386), 30376, 24367);
    OddOfHalf(true, Row(2, 1914, -2386), Row(1, 957, -1193), 30376, 24367);
  }
}
