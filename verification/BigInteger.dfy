/**
The signed multi-precision integer: an object with digits d[0..t) in base 2^28 and a
sign word s, standing for the sum of its digits minus B^t when s is -1. Every routine
writes its result into an object in place.
*/
module BigIntegers {
  import opened Arith
  import opened Digits

  // The number of a digit store, a length and a sign word.
  ghost function Num(d: Store, t: nat, s: int): int {
    Val(d, 0, t) - (if s < 0 then W(t) else 0)
  }

  ghost predicate Clamped(d: Store, t: nat, s: int) {
    t > 0 ==> At(d, t - 1) != if s < 0 then DM else 0
  }

  // Dropping a digit that only repeats the sign word keeps the number.
  lemma ClampStep(d: Store, t: nat, s: int)
    requires 0 < t && (s == 0 || s == -1)
    requires At(d, t - 1) == if s < 0 then DM else 0
    ensures Num(d, t, s) == Num(d, t - 1, s)
  {}

  // The sign word and the length of a clamped number fix its magnitude up to one digit.
  lemma NumBounds(d: Store, t: nat, s: int)
    requires (s == 0 || s == -1) && Proper(d, 0, t)
    ensures s == 0 ==> 0 <= Num(d, t, s) < W(t)
    ensures s == -1 ==> -W(t) <= Num(d, t, s) < 0
    ensures Clamped(d, t, s) && t > 0 && s == 0 ==> W(t - 1) <= Num(d, t, s)
    ensures Clamped(d, t, s) && t > 0 && s == -1 ==> Num(d, t, s) < -W(t - 1)
  {
    ValBound(d, 0, t);
    if t > 0 {
      ValBound(d, 0, t - 1);
      var x := d[t - 1];
      if s == 0 && x != 0 {
        MulMono(1, x, W(t - 1));
      } else if s == -1 && x != DM {
        MulMono(x, B - 2, W(t - 1));
      }
    }
  }

  // Where two numbers first differ, read from the top, the larger digit decides.
  lemma FirstDifference(d: Store, e: Store, i: nat, t: nat)
    requires i < t && Proper(d, 0, t) && Proper(e, 0, t) && d[i] < e[i]
    requires Val(d, 0, t) - Val(d, 0, i + 1) == Val(e, 0, t) - Val(e, 0, i + 1)
    ensures Val(d, 0, t) < Val(e, 0, t)
  {
    hide W;
    ValBound(d, 0, i);
    ValBound(e, 0, i);
    MulMono(d[i] + 1, e[i], W(i));
  }

  // Of two clamped numbers with the same sign, the longer has the larger magnitude.
  lemma LongerIsLarger(d: Store, t: nat, e: Store, u: nat, s: int)
    requires (s == 0 || s == -1) && Proper(d, 0, t) && Proper(e, 0, u)
    requires Clamped(e, u, s) && t < u
    ensures s == 0 ==> Num(d, t, s) < Num(e, u, s)
    ensures s == -1 ==> Num(e, u, s) < Num(d, t, s)
  {
    NumBounds(d, t, s);
    NumBounds(e, u, s);
    WMono(t, u - 1);
  }

  // e holds the digits of x moved up by n places, above n zeros.
  ghost predicate Moved(x: Store, t: nat, n: nat, e: Store) {
    && (forall k :: 0 <= k < n ==> k in e && e[k] == 0)
    && forall k :: n <= k < n + t ==> k in e && e[k] == At(x, k - n)
  }

  lemma MovedAbove(x: Store, t: nat, n: nat, e0: Store, e: Store)
    requires forall k :: n <= k < n + t ==> k in e0 && At(e0, k) == At(x, k - n)
    requires forall k :: 0 <= k < n ==> k in e && e[k] == 0
    requires forall k :: n <= k ==> (k in e <==> k in e0) && At(e, k) == At(e0, k)
    ensures Moved(x, t, n, e)
  {
    forall k | n <= k < n + t
      ensures k in e && e[k] == At(x, k - n)
    {
      assert At(e, k) == At(e0, k);
    }
  }

  lemma MovedVal(x: Store, t: nat, n: nat, e: Store)
    requires Moved(x, t, n, e)
    ensures Val(e, 0, n) == 0 && Val(e, n, t) == Val(x, 0, t)
  {
    hide Val;
    ValZero(e, 0, n);
    assert forall k :: n <= k < n + t ==> At(x, k - n + 0) == At(e, k);
    ValMove(x, 0, e, n, t);
  }

  lemma MovedProper(x: Store, t: nat, n: nat, e: Store, s: int)
    requires Moved(x, t, n, e) && Proper(x, 0, t)
    ensures Proper(e, 0, t + n)
    ensures Clamped(x, t, s) && (t > 0 || n == 0) ==> Clamped(e, t + n, s)
  {
    if t > 0 {
      assert At(e, t + n - 1) == At(x, t - 1);
    }
    forall k | 0 <= k < t + n
      ensures k in e && 0 <= e[k] < B
    {
      if n <= k {
        assert k - n in x;
      }
    }
  }

  lemma ShiftedUp(x: Store, t: nat, s: int, n: nat, e: Store)
    requires Moved(x, t, n, e)
    ensures Num(e, t + n, s) == Num(x, t, s) * W(n)
  {
    hide Val, W, At, Moved;
    MovedVal(x, t, n, e);
    ValSplit(e, 0, n, t);
    var u := if s < 0 then W(t) else 0;
    if s < 0 {
      WAdd(n, t);
    }
    ShiftFactor(Val(x, 0, t), u, W(n));
  }

  lemma ShiftFactor(v: int, u: int, w: int)
    ensures w * v - w * u == (v - u) * w
  {}

  lemma ShiftedDown(x: Store, t: nat, s: int, n: nat, e: Store)
    requires (s == 0 || s == -1) && Proper(x, 0, t) && n <= t
    requires forall k :: 0 <= k < t - n ==> At(x, k + n) == At(e, k)
    ensures Num(e, t - n, s) == Num(x, t, s) / W(n)
  {
    hide Val, W, At;
    var lo, hi, u := Val(x, 0, n), Val(x, n, t - n), if s < 0 then W(t - n) else 0;
    assert Num(x, t, s) == (hi - u) * W(n) + lo by {
      ValSplit(x, 0, n, t - n);
      WAdd(n, t - n);
      ShiftFactor(hi, u, W(n));
    }
    ValBound(x, 0, n);
    assert hi == Val(e, 0, t - n) by {
      assert forall k :: 0 <= k < t - n ==> At(x, k - 0 + n) == At(e, k);
      ValMove(x, n, e, 0, t - n);
    }
    DivModUnique(Num(x, t, s), W(n), hi - u, lo);
  }

  lemma ShiftedOut(x: Store, t: nat, s: int, n: nat)
    requires (s == 0 || s == -1) && Proper(x, 0, t) && t <= n
    ensures s == Num(x, t, s) / W(n)
  {
    NumBounds(x, t, s);
    WMono(t, n);
    DivModUnique(Num(x, t, s), W(n), s, Num(x, t, s) - s * W(n));
  }

  // With no digit left only the sign remains.
  lemma ShiftedAway(x: Store, t: nat, s: int, n: nat, e: Store)
    requires (s == 0 || s == -1) && Proper(x, 0, t) && t <= n
    ensures Num(e, 0, s) == Num(x, t, s) / W(n)
  {
    ShiftedOut(x, t, s, n);
    assert W(0) == 1;
  }

  lemma LowDigitParity(d: Store, t: nat, s: int)
    requires 0 < t
    ensures Num(d, t, s) % 2 == At(d, 0) % 2
  {
    hide Val, At;
    var h, w := Val(d, 1, t - 1), W(t - 1);
    var k := 0x800_0000 * (if s < 0 then h - w else h);
    assert Num(d, t, s) == At(d, 0) + k * 2 by {
      ValSplit(d, 0, 1, t - 1);
      ValOne(d, 0);
      assert W(1) == B * W(0);
      assert W(t) == B * w;
    }
    CongIntro(Num(d, t, s), At(d, 0), 2, k);
  }

  /* ---------- bit shifts: p = 2^bs and q = 2^(28 - bs) split a digit ---------- */

  lemma SplitDigit(x: int, p: int, q: int)
    requires 0 < p && 0 < q && p * q == B && 0 <= x < B
    ensures 0 <= Shr(x, q) < p && 0 <= And(x, q) < q
    ensures 0 <= And(x, q) * p <= B - p
    ensures And(x, q) * p + B * Shr(x, q) == p * x
    ensures q * Shr(x, q) + And(x, q) == x
    ensures (And(x, q) * p) % p == 0
  {
    MulMono(1, p, q);
    var h, l := x / q, x % q;
    assert x == h * q + l;
    assert h < p by {
      if p <= h {
        MulMono(p, h, q);
      }
    }
    assert 0 <= h;
    MulMono(l, q - 1, p);
    MulMono(0, l, p);
    assert (q - 1) * p == B - p;
    assert l * p + (p * q) * h == p * (h * q + l);
    DivModUnique(l * p, p, l, 0);
  }

  lemma SignDigit(p: int, q: int)
    requires 0 < p && 0 < q && p * q == B
    ensures (-p) % B == B - p && (B - p) % p == 0 && B % p == 0
  {
    assert 1 <= q;
    MulMono(1, q, p);
    DivModUnique(-p, B, -1, B - p);
    DivModUnique(B - p, p, q - 1, 0);
    DivModUnique(B, p, q, 0);
  }

  // (s << bs) & DM, the sign word's low bits moved to the top of a digit
  function SignBits(s: int, p: int, q: int): (c: int)
    requires (s == 0 || s == -1) && 0 < p && 0 < q && p * q == B && p <= 0x800_0000
    ensures c == if s < 0 then B - p else 0
    ensures c % p == 0
  {
    SignDigit(p, q);
    And(Shl(s, p), B)
  }

  lemma SplitBits(n: nat)
    ensures Two(n % 28) * Two(28 - n % 28) == B
    ensures W(n / 28) * Two(n % 28) == Two(n)
    ensures 1 <= Two(n % 28) <= 0x800_0000 && 2 <= Two(28 - n % 28) <= B
    ensures n % 28 == 0 ==> Two(n % 28) == 1
  {
    hide W;
    TwoDigit();
    TwoAdd(n % 28, 28 - n % 28);
    TwoW(n / 28);
    TwoAdd(28 * (n / 28), n % 28);
    assert 28 * (n / 28) + n % 28 == n;
    TwoMono(28 - n % 28, 28);
    TwoMono(1, 28 - n % 28);
    assert Two(1) == 2;
    TwoMono(n % 28, 27);
    assert Two(28) == 2 * Two(27);
  }

  // The n digits of r above lo and the carry c into digit lo are p = 2^bs times the n
  // digits of x from i on, with the sign bits c0 above them.
  ghost predicate LShifted(r: Store, lo: nat, n: nat, c: int, x: Store, i: nat, p: int, c0: int) {
    && 0 < p && Proper(r, lo + 1, n) && 0 <= c <= B - p && c % p == 0
    && c + B * Val(r, lo + 1, n) == p * Val(x, i, n) + c0 * W(n)
  }

  lemma LShiftNone(r: Store, lo: nat, c: int, x: Store, i: nat, p: int)
    requires 0 < p && 0 <= c <= B - p && c % p == 0
    ensures LShifted(r, lo, 0, c, x, i, p, c)
  {
    ValEmpty(r, lo + 1);
    ValEmpty(x, i);
  }

  // One digit of a left shift, seen from the top.
  lemma LShiftStep(r: Store, lo: nat, n: nat, c: int, x: Store, i: nat, p: int, q: int, c0: int)
    requires 0 < p <= B && 0 < q <= B && p * q == B && i in x && 0 <= x[i] < B
    requires 0 < lo && LShifted(r, lo, n, c, x, i + 1, p, c0)
    ensures 0 <= Shr(x[i], q) < p && 0 <= c && c % p == 0 && Int32(c + Shr(x[i], q))
    ensures 0 <= And(x[i], q) * p < B
    ensures LShifted(r[lo := Or(c, Shr(x[i], q), p)], lo - 1, n + 1, And(x[i], q) * p, x, i, p, c0)
  {
    hide Val, W;
    SplitDigit(x[i], p, q);
    var r' := r[lo := Or(c, Shr(x[i], q), p)];
    ValFrame(r, r', lo + 1, n);
    ValFront(r', lo, n + 1);
    ValFront(x, i, n + 1);
    WTop(n);
    LShiftDigit(p, x[i], Val(x, i + 1, n), c0, W(n));
  }

  lemma LShiftDigit(p: int, y: int, v: int, c0: int, w: int)
    ensures p * (y + B * v) == p * y + B * (p * v)
    ensures c0 * (B * w) == B * (c0 * w)
  {}

  lemma LShiftDone(r0: Store, r: Store, ds: nat, t: nat, s: int, c: int, p: int, x: Store, n: nat)
    requires (s == 0 || s == -1) && W(ds) * p == Two(n) && 0 < p
    requires LShifted(r0, ds, t, c, x, 0, p, if s < 0 then B - p else 0)
    requires forall k :: 0 <= k < ds ==> k in r && r[k] == 0
    requires forall k :: ds <= k ==> (k in r <==> k in r0) && At(r, k) == At(r0, k)
    ensures Num(r[ds := c], t + ds + 1, s) == Num(x, t, s) * Two(n)
    ensures Proper(r[ds := c], 0, t + ds + 1)
  {
    hide Val, W, Two, LShifted, Num;
    LShiftedParts(r0, ds, t, c, x, 0, p, if s < 0 then B - p else 0);
    LShiftProper(r0, r, ds, t, c);
    var r' := r[ds := c];
    ValFrame(r', r0, ds + 1, t);
    LShiftTop(r', ds, t, s, c, p, x);
    assert Val(r', 0, ds + (t + 1)) == W(ds) * Val(r', ds, t + 1) by {
      assert forall k :: 0 <= k < ds ==> At(r', k) == At(r, k);
      ValSplit(r', 0, ds, t + 1);
      ValZero(r', 0, ds);
    }
    LShiftNum(r', ds, t + 1, s, p, Num(x, t, s));
  }

  lemma LShiftedParts(r: Store, lo: nat, n: nat, c: int, x: Store, i: nat, p: int, c0: int)
    requires LShifted(r, lo, n, c, x, i, p, c0)
    ensures Proper(r, lo + 1, n) && 0 <= c < B
    ensures c + B * Val(r, lo + 1, n) == p * Val(x, i, n) + c0 * W(n)
  {}

  // The digits from ds up, with the sign word, are p times the number.
  lemma LShiftTop(r: Store, ds: nat, t: nat, s: int, c: int, p: int, x: Store)
    requires (s == 0 || s == -1) && ds in r && r[ds] == c
    requires c + B * Val(r, ds + 1, t) == p * Val(x, 0, t) + (if s < 0 then B - p else 0) * W(t)
    ensures Val(r, ds, t + 1) - (if s < 0 then W(t + 1) else 0) == p * Num(x, t, s)
  {
    hide Val, W;
    ValFront(r, ds, t + 1);
    WTop(t);
    if s < 0 {
      MulDiff(W(t), B, p);
      MulDiff(p, Val(x, 0, t), W(t));
    }
  }

  lemma LShiftNum(r: Store, ds: nat, n: nat, s: int, p: int, y: int)
    requires Val(r, 0, ds + n) == W(ds) * Val(r, ds, n)
    requires Val(r, ds, n) - (if s < 0 then W(n) else 0) == p * y
    ensures Num(r, ds + n, s) == y * (W(ds) * p)
  {
    hide Val, W;
    var u := if s < 0 then W(n) else 0;
    if s < 0 {
      WAdd(ds, n);
    }
    LShiftFactor(Val(r, ds, n), u, W(ds), p, y);
  }

  lemma LShiftProper(r0: Store, r: Store, ds: nat, t: nat, c: int)
    requires Proper(r0, ds + 1, t) && 0 <= c < B
    requires forall k :: 0 <= k < ds ==> k in r && r[k] == 0
    requires forall k :: ds <= k ==> (k in r <==> k in r0) && At(r, k) == At(r0, k)
    ensures Proper(r[ds := c], 0, t + ds + 1)
  {
    forall k | ds + 1 <= k < t + ds + 1
      ensures k in r && 0 <= r[k] < B
    {
      assert At(r, k) == At(r0, k);
    }
  }

  lemma LShiftFactor(v: int, u: int, w: int, p: int, x: int)
    requires v - u == p * x
    ensures w * v - w * u == x * (w * p)
  {
    MulDiff(w, v, u);
    assert w * (p * x) == x * (w * p);
  }

  // The first k digits of r are the digits of x from lo on, shifted right by p = 2^bs;
  // the digit above is still to supply the low bits of digit k - 1.
  ghost predicate RShifted(r: Store, k: nat, x: Store, lo: nat, p: int, q: int, m: int) {
    && 0 < k && Proper(r, 0, k) && At(r, k - 1) < q
    && p * Val(r, 0, k) == Val(x, lo, k) - m
  }

  // One digit of a right shift: its low part joins the digit below.
  lemma RShiftStep(r: Store, k: nat, x: Store, lo: nat, p: int, q: int, m: int)
    requires 1 <= p <= B && 0 < q <= B && p * q == B
    requires RShifted(r, k, x, lo, p, q, m)
    requires lo + k in x && 0 <= x[lo + k] < B
    ensures 0 <= And(x[lo + k], p) * q <= B - q && (And(x[lo + k], p) * q) % q == 0
    ensures k - 1 in r && 0 <= r[k - 1] < q
    ensures var l := And(x[lo + k], p) * q;
      RShifted(r[k - 1 := Or(l, r[k - 1], q)][k := Shr(x[lo + k], p)], k + 1, x, lo, p, q, m)
  {
    hide Val;
    var y := x[lo + k];
    SplitDigit(y, q, p);
    var l, h := And(y, p), Shr(y, p);
    var r1 := r[k - 1 := At(r, k - 1) + l * q];
    ValPut(r1, 0, k, h);
    ValPoint(r, k - 1, At(r, k - 1) + l * q, k);
    ValTop(x, lo, k);
    var v, w := Val(r, 0, k), W(k - 1);
    assert W(k) == B * w;
    RShiftFactor(v, w, p, q, l, h);
  }

  lemma RShiftFactor(v: int, w: int, p: int, q: int, l: int, h: int)
    requires p * q == B
    ensures p * (v + (l * q) * w + h * (B * w)) == p * v + (p * h + l) * (B * w)
  {
    assert p * ((l * q) * w) == (p * q) * (l * w);
    assert p * (h * (B * w)) == (p * h) * (B * w);
    assert B * (l * w) == l * (B * w);
  }

  // The sign word's low bits fill the top digit.
  lemma RShiftTop(r: Store, k: nat, x: Store, lo: nat, p: int, q: int, s: int, m: int)
    requires 1 <= p <= B && 0 < q <= B && p * q == B && (s == 0 || s == -1)
    requires RShifted(r, k, x, lo, p, q, m)
    ensures 0 <= And(s, p) * q <= B - q && (And(s, p) * q) % q == 0
    ensures k - 1 in r && 0 <= r[k - 1] < q
    ensures var r' := r[k - 1 := Or(And(s, p) * q, r[k - 1], q)];
      && Proper(r', 0, k)
      && p * Num(r', k, s) == Val(x, lo, k) - (if s < 0 then W(k) else 0) - m
    ensures p == 1 ==> Or(And(s, p) * q, r[k - 1], q) == r[k - 1]
  {
    hide Val;
    SignLow(s, p, q);
    var y := if s < 0 then (p - 1) * q else 0;
    ValPoint(r, k - 1, At(r, k - 1) + y, k);
    var v, w := Val(r, 0, k), W(k - 1);
    assert W(k) == B * w;
    RShiftSign(v, w, p, q);
    var r' := r[k - 1 := Or(And(s, p) * q, r[k - 1], q)];
    assert Num(r', k, s) == if s < 0 then v + ((p - 1) * q) * w - B * w else v + 0 * w;
  }

  lemma RShiftSign(v: int, w: int, p: int, q: int)
    requires p * q == B
    ensures p * (v + ((p - 1) * q) * w - B * w) == p * v - B * w
  {
    assert p * (((p - 1) * q) * w) == (p * q) * ((p - 1) * w);
    assert p * (B * w) == B * (p * w);
  }

  lemma RShiftDone(x: Store, t: nat, s: int, ds: nat, p: int, m: int, y: int, n: nat)
    requires (s == 0 || s == -1) && Proper(x, 0, t) && ds <= t && W(ds) * p == Two(n)
    requires 0 <= m < p
    requires p * y == Val(x, ds, t - ds) - (if s < 0 then W(t - ds) else 0) - m
    ensures y == Num(x, t, s) / Two(n)
  {
    hide Val, W, Two;
    var lo := Val(x, 0, ds);
    ValBound(x, 0, ds);
    ValSplit(x, 0, ds, t - ds);
    WAdd(ds, t - ds);
    var v, u := Val(x, ds, t - ds), if s < 0 then W(t - ds) else 0;
    assert Num(x, t, s) == lo + W(ds) * (v - u) by {
      if s < 0 {
        MulDiff(W(ds), v, W(t - ds));
      }
    }
    RShiftRest(lo, W(ds), p, y, m);
    DivModUnique(Num(x, t, s), Two(n), y, W(ds) * m + lo);
  }

  // The first digit keeps only its high part.
  lemma RShiftFirst(r: Store, x: Store, ds: nat, p: int, q: int)
    requires 1 <= p <= B && 0 < q <= B && p * q == B
    requires ds in x && 0 <= x[ds] < B
    ensures RShifted(r[0 := Shr(x[ds], p)], 1, x, ds, p, q, And(x[ds], p))
    ensures 0 <= And(x[ds], p) < p
  {
    SplitDigit(x[ds], q, p);
    ValOne(r[0 := Shr(x[ds], p)], 0);
    ValOne(x, ds);
  }

  lemma RShiftOut(x: Store, t: nat, s: int, n: nat, r: Store)
    requires (s == 0 || s == -1) && Proper(x, 0, t) && t <= n / 28
    ensures Num(r, 0, s) == s == Num(x, t, s) / Two(n)
  {
    hide Val, W, Two;
    ValEmpty(r, 0);
    var v := Num(x, t, s);
    assert -Two(n) <= v < Two(n) by {
      NumBounds(x, t, s);
      WMono(t, n / 28);
      SplitBits(n);
      MulMono(1, Two(n % 28), W(n / 28));
    }
    if s == 0 {
      assert 0 <= v by { NumBounds(x, t, s); }
      DivModUnique(v, Two(n), 0, v);
    } else {
      assert v < 0 by { NumBounds(x, t, s); }
      DivModUnique(v, Two(n), -1, v + Two(n));
    }
  }

  lemma NoDigits(d: Store, s: int)
    ensures Proper(d, 0, 0) && Clamped(d, 0, s)
  {}

  // (s & (2^bs - 1)) << (28 - bs)
  lemma SignLow(s: int, p: int, q: int)
    requires (s == 0 || s == -1) && 0 < p <= B && 0 < q && p * q == B
    ensures And(s, p) * q == if s < 0 then (p - 1) * q else 0
    ensures 0 <= And(s, p) * q <= B - q && (And(s, p) * q) % q == 0
  {
    DivModUnique(s, p, s, if s < 0 then p - 1 else 0);
    assert (p - 1) * q == B - q;
    MulMono(1, p, q);
    DivModUnique(And(s, p) * q, q, And(s, p), 0);
  }

  lemma RShiftRest(lo: int, w: int, p: int, y: int, m: int)
    requires 0 <= lo < w && 0 <= m < p
    ensures 0 <= w * m + lo < w * p
    ensures w * (p * y + m) == y * (w * p) + w * m
  {
    MulMono(m, p - 1, w);
    MulMono(0, m, w);
    assert w * (p - 1) == w * p - w;
    assert w * (p * y) == y * (w * p);
  }

  /* ---------- carry loops ---------- */

  // i digits of r are done and c is the carry into the next: together they make v.
  ghost predicate Carried(r: Store, i: nat, c: int, v: int) {
    Proper(r, 0, i) && Val(r, 0, i) + c * W(i) == v
  }

  lemma CarryDigit(r: Store, i: nat, c: int, y: int, v: int, v': int)
    requires Carried(r, i, c, v) && Int32(c + y) && v' == v + y * W(i)
    ensures Carried(r[i := And(c + y, B)], i + 1, Shr(c + y, B), v')
  {
    CarryStep(r, 0, i, c, y);
  }

  lemma CarrySign(r: Store, i: nat, c: int, e: int, v: int, v': int)
    requires Carried(r, i, c, v) && v' == v + e * W(i)
    ensures Carried(r, i, c + e, v')
  {
    hide Val, W;
    MulAdd(W(i), c, e);
  }

  // The carry that is left becomes the sign word and at most one more digit.
  lemma CarryDone(r: Store, i: nat, c: int, v: int)
    requires Carried(r, i, c, v) && -2 <= c <= 1
    ensures Proper(r, 0, i)
    ensures c == 0 ==> Num(r, i, 0) == v
    ensures c == -1 ==> Num(r, i, -1) == v
    ensures c == -2 ==> Num(r[i := B + c], i + 1, -1) == v
    ensures c == 1 ==> Num(r[i := c], i + 1, 0) == v
    ensures c == -2 ==> Proper(r[i := B + c], 0, i + 1)
    ensures c == 1 ==> Proper(r[i := c], 0, i + 1)
  {
    ValPut(r, 0, i, B + c);
    ValPut(r, 0, i, c);
  }

  lemma CarryNone(r: Store, x: Store, y: Store)
    ensures Carried(r, 0, 0, Val(x, 0, 0) - Val(y, 0, 0))
    ensures Carried(r, 0, 0, Val(x, 0, 0) + Val(y, 0, 0))
  {}

  lemma CarryRange(c: int)
    requires -2 * B <= c <= 2 * B - 1
    ensures c < -B ==> Shr(c, B) == -2
    ensures -B <= c < 0 ==> Shr(c, B) == -1
    ensures 0 <= c < B ==> Shr(c, B) == 0
    ensures B <= c ==> Shr(c, B) == 1
  {}

  lemma TailTop(x: Store, i: nat, minus: bool, v: int)
    ensures (v + if minus then -Val(x, 0, i + 1) else Val(x, 0, i + 1))
         == (v + if minus then -Val(x, 0, i) else Val(x, 0, i)) + (if minus then -At(x, i) else At(x, i)) * W(i)
  {}

  lemma NumSign(d: Store, t: nat, s: int)
    requires s == 0 || s == -1
    ensures Num(d, t, s) == Val(d, 0, t) + s * W(t)
    ensures -Num(d, t, s) == -Val(d, 0, t) + (-s) * W(t)
  {}

  // The digits x[i] - a[i] of a difference, one more at a time.
  lemma DiffTop(x: Store, a: Store, i: nat)
    ensures Val(x, 0, i + 1) - Val(a, 0, i + 1) == Val(x, 0, i) - Val(a, 0, i) + (At(x, i) - At(a, i)) * W(i)
  {
    hide W, At;
    ValTop(x, 0, i);
    ValTop(a, 0, i);
    MulAdd(W(i), At(x, i), -At(a, i));
  }

  lemma SumTop(x: Store, a: Store, i: nat)
    ensures Val(x, 0, i + 1) + Val(a, 0, i + 1) == Val(x, 0, i) + Val(a, 0, i) + (At(x, i) + At(a, i)) * W(i)
  {
    hide W, At;
    ValTop(x, 0, i);
    ValTop(a, 0, i);
    MulAdd(W(i), At(x, i), At(a, i));
  }

  /* ---------- the multiply-accumulate kernel ---------- */

  // One digit of am3: two 14-bit halves each, every intermediate below 2^31, and the
  // digit and carry that come out are together w + x * a + c.
  lemma AmDigit(a: int, x: int, w: int, c: int)
    requires 0 <= a < B && 0 <= x < 2 * B && 0 <= w < B && 0 <= c < 3 * B
    ensures Int32(x)
    ensures var xl, xh := And(x, 0x4000), Shr(x, 0x4000);
      var al, ah := And(a, 0x4000), Shr(a, 0x4000);
      var m := xh * al + ah * xl;
      && Int32(m) && Int32(And(m, 0x4000) * 0x4000)
      && var l := xl * al + Shl(And(m, 0x4000), 0x4000) + w + c;
      && Int32(l)
      && var c' := Shr(l, B) + Shr(m, 0x4000) + xh * ah;
      && 0 <= And(l, B) < B && 0 <= c' < 3 * B
      && And(l, B) + B * c' == w + x * a + c
      && (c <= x ==> c' <= x)
  {
    var xl, xh, al, ah := x % 0x4000, x / 0x4000, a % 0x4000, a / 0x4000;
    AmHalves(xl, xh, al, ah);
    var m := xh * al + ah * xl;
    var l := xl * al + (m % 0x4000) * 0x4000 + w + c;
    var c' := l / B + m / 0x4000 + xh * ah;
    assert x == 0x4000 * xh + xl && a == 0x4000 * ah + al;
    assert l % B + B * c' == w + x * a + c;
    MulMono(0, a, x);
    AmCarry(a, x);
  }

  lemma AmHalves(xl: int, xh: int, al: int, ah: int)
    requires 0 <= xl < 0x4000 && 0 <= xh < 0x8000 && 0 <= al < 0x4000 && 0 <= ah < 0x4000
    ensures 0 <= xl * al < 0x1000_0000 && 0 <= xh * al < 0x2000_0000
    ensures 0 <= ah * xl < 0x1000_0000 && 0 <= xh * ah
    ensures (0x4000 * xh + xl) * (0x4000 * ah + al)
         == xl * al + 0x4000 * (xh * al + ah * xl) + B * (xh * ah)
  {
    MulMono(xl, 0x3fff, al);
    MulMono(xh, 0x7fff, al);
    MulMono(ah, 0x3fff, xl);
  }

  lemma AmCarry(a: int, x: int)
    requires 0 <= a < B && 0 <= x < 2 * B
    ensures 0 <= x * a <= (B - 1) * x
  {
    MulMono(a, B - 1, x);
  }

  // k digits of w' = w + x * a + c0 are done and c is the carry into the next.
  ghost predicate Accumulated(w': Store, w: Store, j: nat, a: Store, i: nat, x: int, c0: int, c: int, k: nat) {
    && Proper(w', j, k)
    && Val(w', j, k) + c * W(k) == Val(w, j, k) + x * Val(a, i, k) + c0
  }

  lemma AmStep(w': Store, w: Store, j: nat, a: Store, i: nat, x: int, c0: int, c: int, k: nat, v: int, c': int)
    requires Accumulated(w', w, j, a, i, x, c0, c, k) && 0 <= v < B
    requires v + B * c' == At(w, j + k) + x * At(a, i + k) + c
    ensures Accumulated(w'[j + k := v], w, j, a, i, x, c0, c', k + 1)
  {
    hide Val, W, At;
    ValPut(w', j, k, v);
    ValTop(w, j, k);
    ValTop(a, i, k);
    WTop(k);
    AmFactor(W(k), Val(a, i, k), At(a, i + k), x, c, v, c', At(w, j + k));
  }

  lemma AmNone(w': Store, w: Store, j: nat, a: Store, i: nat, x: int, c0: int)
    requires w' == w
    ensures Accumulated(w', w, j, a, i, x, c0, c0, 0)
  {}

  lemma AmDone(w': Store, w: Store, j: nat, a: Store, i: nat, x: int, c0: int, c: int, n: nat)
    requires Accumulated(w', w, j, a, i, x, c0, c, n)
    ensures Proper(w', j, n) && Val(w', j, n) + c * W(n) == Val(w, j, n) + x * Val(a, i, n) + c0
  {}

  lemma AmFactor(u: int, va: int, a: int, x: int, c: int, v: int, c': int, w: int)
    requires v + B * c' == w + x * a + c
    ensures v * u + c' * (B * u) == w * u + x * (va + a * u) - x * va + c * u
  {
    assert (v + B * c') * u == v * u + c' * (B * u);
    assert (w + x * a + c) * u == w * u + x * (a * u) + c * u;
    assert x * (va + a * u) == x * va + x * (a * u);
  }

  /* ---------- products ---------- */

  // After i rows of the schoolbook product r holds x times the first i digits of y.
  ghost predicate RowsDone(r: Store, x: Store, n: nat, y: Store, i: nat) {
    Proper(r, 0, i + n) && Val(r, 0, i + n) == Val(x, 0, n) * Val(y, 0, i)
  }

  lemma NoRows(r: Store, x: Store, n: nat, y: Store)
    requires forall k :: 0 <= k < n ==> k in r && r[k] == 0
    ensures RowsDone(r, x, n, y, 0)
  {
    ValZero(r, 0, n);
    ValEmpty(y, 0);
  }

  // Row i: the kernel adds y[i] * x at weight B^i, and its last carry becomes the digit
  // above the row.
  lemma MultiplyRow(r0: Store, r1: Store, x: Store, n: nat, y: Store, i: nat, c: int)
    requires RowsDone(r0, x, n, y, i) && 0 <= c < B
    requires Proper(r1, i, n) && Same(r0, r1, 0, i)
    requires Val(r1, i, n) + c * W(n) == Val(r0, i, n) + At(y, i) * Val(x, 0, n) + 0
    ensures RowsDone(r1[i + n := c], x, n, y, i + 1)
  {
    hide Val, W, At;
    ValPut(r1, 0, i + n, c);
    WAdd(i, n);
    ValWindow(r0, r1, i, n, i + n);
    ValTop(y, 0, i);
    RowFactor(W(i), W(n), c, Val(r1, i, n), Val(r0, i, n), At(y, i), Val(x, 0, n), Val(y, 0, i));
    RowProper(r0, r1, i, n, c);
  }

  lemma RowProper(r0: Store, r1: Store, i: nat, n: nat, c: int)
    requires Proper(r0, 0, i) && Proper(r1, i, n) && Same(r0, r1, 0, i) && 0 <= c < B
    ensures Proper(r1[i + n := c], 0, i + 1 + n)
  {
    assert forall k :: 0 <= k < i ==> k in r1 && At(r0, k) == At(r1, k);
  }

  lemma RowsProper(r: Store, x: Store, n: nat, y: Store, i: nat)
    requires RowsDone(r, x, n, y, i)
    ensures Proper(r, i, n)
  {}

  lemma RowsEnd(r: Store, x: Store, n: nat, y: Store, m: nat)
    requires RowsDone(r, x, n, y, m)
    ensures Proper(r, 0, n + m) && Num(r, n + m, 0) == Num(x, n, 0) * Num(y, m, 0)
  {
    hide Val, W;
  }

  lemma NumPositive(d: Store, t: nat)
    ensures Num(d, t, 0) == Val(d, 0, t)
  {}

  lemma SignOf(d: Store, t: nat, s: int)
    requires (s == 0 || s == -1) && Proper(d, 0, t)
    ensures s < 0 <==> Num(d, t, s) < 0
  {
    NumBounds(d, t, s);
  }

  lemma SignedProduct(a: int, b: int, p: int)
    requires p == Abs(a) * Abs(b)
    ensures a * b == if (a < 0) == (b < 0) then p else -p
  {}

  lemma RowFactor(wi: int, wn: int, c: int, v1: int, v0: int, a: int, x: int, y: int)
    requires v1 + c * wn == v0 + a * x
    ensures wi * (v1 - v0) + c * (wi * wn) == x * (y + a * wi) - x * y
  {
    assert wi * (a * x - c * wn) == wi * (a * x) - wi * (c * wn);
    assert x * (y + a * wi) == x * y + x * (a * wi);
    assert x * (a * wi) == wi * (a * x);
    assert wi * (c * wn) == c * (wi * wn);
  }

  /* ---------- squares ---------- */

  lemma SquareProper(r: Store, x: Store, n: nat, i: nat)
    requires SquareRows(r, x, n, i)
    ensures i < n && Proper(r, 0, 2 * n)
  {}

  // After i rows of the squaring, r holds every product of two digits of x except those of
  // the digits from i on with each other. The digit a row's carry lands on is 0 or 1, and
  // all digits above it are still 0.
  ghost predicate SquareRows(r: Store, x: Store, n: nat, i: nat) {
    && i < n && Proper(r, 0, 2 * n)
    && Val(r, 0, 2 * n) == Sq(Val(x, 0, n)) - W(2 * i) * Sq(Val(x, i, n - i))
    && 0 <= At(r, i + n) <= 1
    && forall k :: i + n < k < 2 * n ==> At(r, k) == 0
  }

  ghost function Sq(x: int): int { x * x }

  lemma SqZero()
    ensures Sq(0) == 0
  {}

  lemma NoSquareRows(r: Store, x: Store, n: nat)
    requires 0 < n && forall k :: 0 <= k < 2 * n ==> k in r && r[k] == 0
    ensures SquareRows(r, x, n, 0)
  {
    ValZero(r, 0, 2 * n);
    assert W(0) == 1;
  }

  // The two kernel calls of row i together: x[i]^2 and twice x[i] times the digits above it.
  lemma SquareWindow(r0: Store, r1: Store, r2: Store, lo: nat, m: nat, a: int, tail: int, c1: int, c2: int)
    requires Val(r1, lo, 1) + c1 * W(1) == Val(r0, lo, 1) + a * a + 0
    requires Same(r0, r1, lo + 1, m) && At(r1, lo) == At(r2, lo)
    requires Val(r2, lo + 1, m) + c2 * W(m) == Val(r1, lo + 1, m) + (2 * a) * tail + c1
    ensures Val(r2, lo, m + 1) + c2 * W(m + 1) == Val(r0, lo, m + 1) + a * a + 2 * B * (a * tail)
  {
    hide Val;
    ValFrame(r0, r1, lo + 1, m);
    ValFront(r0, lo, m + 1);
    ValFront(r2, lo, m + 1);
    ValOne(r0, lo);
    ValOne(r1, lo);
    assert W(1) == B * W(0);
    assert (2 * a) * tail == 2 * (a * tail);
    assert c2 * (B * W(m)) == B * (c2 * W(m));
  }

  lemma SquareFactor(w: int, a: int, tail: int)
    ensures w * (a * a + 2 * B * (a * tail)) == w * Sq(a + B * tail) - (B * (B * w)) * Sq(tail)
  {
    assert Sq(a + B * tail) == a * a + 2 * B * (a * tail) + B * B * (tail * tail);
    assert w * (B * B * (tail * tail)) == (B * (B * w)) * (tail * tail);
    assert w * (a * a + 2 * B * (a * tail) + B * B * (tail * tail))
        == w * (a * a + 2 * B * (a * tail)) + w * (B * B * (tail * tail));
  }

  // The window of row i ends in its carry c, which is added to the digit above.
  lemma SquareRowVal(r0: Store, r2: Store, x: Store, n: nat, i: nat, c: int)
    requires i < n
    requires Val(r0, 0, 2 * n) == Sq(Val(x, 0, n)) - W(2 * i) * Sq(Val(x, i, n - i))
    requires Same(r0, r2, 0, 2 * i) && Same(r0, r2, i + n, n - i)
    requires Val(r2, 2 * i, n - i) + c * W(n - i)
          == Val(r0, 2 * i, n - i) + At(x, i) * At(x, i) + 2 * B * (At(x, i) * Val(x, i + 1, n - i - 1))
    ensures Val(r2, 0, 2 * n) + c * W(i + n) == Sq(Val(x, 0, n)) - W(2 * i + 2) * Sq(Val(x, i + 1, n - i - 1))
  {
    hide Val, W, At, Sq;
    var a, tail, w := At(x, i), Val(x, i + 1, n - i - 1), W(2 * i);
    ValWindow(r0, r2, 2 * i, n - i, 2 * n);
    ValFront(x, i, n - i);
    WAdd(2 * i, n - i);
    WTop(2 * i);
    WTop(2 * i + 1);
    SquareFactor(w, a, tail);
    SquareSum(Val(r0, 0, 2 * n), Val(r2, 0, 2 * n), Sq(Val(x, 0, n)), w, Sq(a + B * tail),
              B * (B * w), Sq(tail), a * a + 2 * B * (a * tail), c, W(n - i));
  }

  lemma SquareSum(v0: int, v2: int, all: int, w: int, sq: int, w2: int, sqTail: int, y: int, c: int, u: int)
    requires v2 == v0 + w * (y - c * u) && v0 == all - w * sq && w * y == w * sq - w2 * sqTail
    ensures v2 + c * (w * u) == all - w2 * sqTail
  {
    MulDiff(w, y, c * u);
    assert w * (c * u) == c * (w * u);
  }

  // No carry is lost: the top digit of a square is in range because the square is below B^2n.
  lemma SquareFits(r: Store, x: Store, n: nat)
    requires 0 < n && Proper(x, 0, n) && Proper(r, 0, 2 * n - 1) && 2 * n - 1 in r && 0 <= r[2 * n - 1]
    requires Val(r, 0, 2 * n) == Sq(Val(x, 0, n))
    ensures Proper(r, 0, 2 * n)
  {
    hide Val, W;
    var v, w := Val(x, 0, n), W(2 * n - 1);
    ValBound(x, 0, n);
    ValBound(r, 0, 2 * n - 1);
    ValTop(r, 0, 2 * n - 1);
    WTop(2 * n - 1);
    WAdd(n, n);
    MulMono(v, W(n), v);
    MulMono(v, W(n) - 1, W(n));
    MulStrict(r[2 * n - 1], B, w);
  }

  // The digit a row's carry lands on is at most 1 before, so the sum is below 2 B and one
  // subtraction, with a 1 put into the still empty digit above, brings it into range.
  lemma CarryTrick(r2: Store, n: nat, i: nat, c: int, v: int) returns (r: Store)
    requires i + 1 < n && Proper(r2, 0, 2 * n) && 0 <= c <= 2 * B - 2
    requires 0 <= At(r2, i + n) <= 1 && forall k :: i + n < k < 2 * n ==> At(r2, k) == 0
    requires Val(r2, 0, 2 * n) + c * W(i + n) == v
    ensures var y := At(r2, i + n) + c;
      && (y < B ==> r == r2[i + n := y])
      && (B <= y ==> r == r2[i + n := y][i + n := y - B][i + n + 1 := 1])
    ensures Proper(r, 0, 2 * n) && Val(r, 0, 2 * n) == v && 0 <= At(r, i + n + 1) <= 1
    ensures forall k :: i + n + 1 < k < 2 * n ==> At(r, k) == 0
  {
    hide Val, W;
    var y := At(r2, i + n) + c;
    assert At(r2, i + n + 1) == 0;
    WTop(i + n);
    if y < B {
      r := r2[i + n := y];
      ValPoint(r2, i + n, y, 2 * n);
    } else {
      var r3 := r2[i + n := y - B];
      assert r2[i + n := y][i + n := y - B] == r3;
      r := r3[i + n + 1 := 1];
      ValPoint(r2, i + n, y - B, 2 * n);
      ValPoint(r3, i + n + 1, 1, 2 * n);
      MulDiff(W(i + n), c, B);
    }
    assert forall k :: i + n + 1 < k < 2 * n ==> At(r, k) == At(r2, k);
  }

  // A row of the squaring, from the contracts of its two kernel calls.
  lemma SquareRowDone(r0: Store, r1: Store, r2: Store, x: Store, n: nat, i: nat, c1: int, c: int)
    requires i + 1 < n && SquareRows(r0, x, n, i) && Proper(x, 0, n)
    requires Val(r1, 2 * i, 1) + c1 * W(1) == Val(r0, 2 * i, 1) + x[i] * Val(x, i, 1) + 0
    requires forall k: nat :: !(2 * i <= k < 2 * i + 1) ==> (k in r1 <==> k in r0) && At(r1, k) == At(r0, k)
    requires Val(r2, 2 * i + 1, n - i - 1) + c * W(n - i - 1)
          == Val(r1, 2 * i + 1, n - i - 1) + (2 * x[i]) * Val(x, i + 1, n - i - 1) + c1
    requires forall k: nat :: !(2 * i + 1 <= k < 2 * i + 1 + (n - i - 1)) ==>
               (k in r2 <==> k in r1) && At(r2, k) == At(r1, k)
    requires Proper(r1, 2 * i, 1) && Proper(r2, 2 * i + 1, n - i - 1) && 0 <= c <= 2 * x[i]
    ensures i + n in r2
    ensures var y := r2[i + n] + c;
      && (y < B ==> SquareRows(r2[i + n := y], x, n, i + 1))
      && (B <= y ==> SquareRows(r2[i + n := y][i + n := y - B][i + n + 1 := 1], x, n, i + 1))
  {
    hide Val, W, Sq;
    ValOne(x, i);
    SquareWindow(r0, r1, r2, 2 * i, n - i - 1, x[i], Val(x, i + 1, n - i - 1), c1, c);
    SquareRowVal(r0, r2, x, n, i, c);
    SquareRowProper(r0, r1, r2, n, i);
    var r := CarryTrick(r2, n, i, c, Sq(Val(x, 0, n)) - W(2 * i + 2) * Sq(Val(x, i + 1, n - i - 1)));
  }

  lemma SquareRowProper(r0: Store, r1: Store, r2: Store, n: nat, i: nat)
    requires i + 1 < n && Proper(r0, 0, 2 * n)
    requires forall k: nat :: !(2 * i <= k < 2 * i + 1) ==> (k in r1 <==> k in r0) && At(r1, k) == At(r0, k)
    requires forall k: nat :: !(2 * i + 1 <= k < 2 * i + 1 + (n - i - 1)) ==>
               (k in r2 <==> k in r1) && At(r2, k) == At(r1, k)
    requires Proper(r1, 2 * i, 1) && Proper(r2, 2 * i + 1, n - i - 1)
    ensures Proper(r2, 0, 2 * n)
  {
    forall k | 0 <= k < 2 * n
      ensures k in r2 && 0 <= r2[k] < B
    {
      if k == 2 * i {
        assert At(r2, k) == At(r1, k);
      } else if !(2 * i + 1 <= k < 2 * i + 1 + (n - i - 1)) {
        assert At(r2, k) == At(r1, k) == At(r0, k);
      }
    }
  }

  lemma CopyDone(x: Store, t: nat, s: int, e: Store)
    requires Same(e, x, 0, t)
    ensures Num(e, t, s) == Num(x, t, s) && Clamped(e, t, s) == Clamped(x, t, s)
    ensures Proper(x, 0, t) ==> Proper(e, 0, t)
  {
    ValFrame(e, x, 0, t);
    if Proper(x, 0, t) {
      forall k | 0 <= k < t
        ensures k in e && 0 <= e[k] < B
      {
        assert k in x && At(e, k) == At(x, k);
      }
    }
  }

  /* ---------- bit lengths ---------- */

  // y is x without its r - 1 lowest bits.
  ghost predicate BitsLeft(x: int, y: int, r: nat) {
    0 < r && Two(r - 1) * y <= x < Two(r - 1) * (y + 1)
  }

  lemma BitsStep(x: int, y: int, r: nat, k: nat, p: int)
    requires BitsLeft(x, y, r) && p == Two(k)
    ensures BitsLeft(x, y / p, r + k)
  {
    hide Two;
    TwoAdd(r - 1, k);
    BitsDivide(Two(r - 1), p, y, x);
  }

  lemma BitsDivide(a: int, p: int, y: int, x: int)
    requires 0 < a && 0 < p && a * y <= x < a * (y + 1)
    ensures (a * p) * (y / p) <= x < (a * p) * (y / p + 1)
  {
    var h := y / p;
    assert (a * p) * h == a * (h * p) && (a * p) * (h + 1) == a * (h * p + p);
    assert h * p <= y < h * p + p;
    MulMono(h * p, y, a);
    MulMono(y + 1, h * p + p, a);
  }

  lemma BitsEnds(x: int)
    ensures BitsLeft(x, x, 1)
    ensures forall r: nat :: BitsLeft(x, 0, r) ==> 0 <= x < Two(r)
    ensures forall r: nat :: BitsLeft(x, 1, r) ==> 0 < x < Two(r) && Two(r - 1) <= x
  {
    assert Two(0) == 1;
    forall r: nat | BitsLeft(x, 0, r) || BitsLeft(x, 1, r)
      ensures Two(r) == 2 * Two(r - 1)
    {}
  }

  lemma TopBits(d: Store, t: nat, b: nat)
    requires 0 < t && Proper(d, 0, t) && 0 < d[t - 1] < Two(b) && 0 < b && Two(b - 1) <= d[t - 1]
    ensures Two(28 * (t - 1) + b - 1) <= Val(d, 0, t) < Two(28 * (t - 1) + b)
    ensures b <= 28
  {
    hide Two, W, Val;
    var w, x := W(t - 1), d[t - 1];
    ValBound(d, 0, t - 1);
    ValTop(d, 0, t - 1);
    TwoW(t - 1);
    TwoAdd(28 * (t - 1), b);
    TwoAdd(28 * (t - 1), b - 1);
    MulMono(x + 1, Two(b), w);
    MulMono(Two(b - 1), x, w);
    TwoDigit();
    if 28 < b {
      TwoMono(28, b - 1);
    }
  }

  // The number whose bits are the complement of those of a negative x.
  function Magnitude(x: int): nat {
    if x < 0 then -x - 1 else x
  }

  lemma ComplementBits(d: Store, t: nat, b: nat)
    requires 0 < t && Proper(d, 0, t) && 0 < DM - d[t - 1] < Two(b) && 0 < b && Two(b - 1) <= DM - d[t - 1]
    ensures Two(28 * (t - 1) + b - 1) <= W(t) - Val(d, 0, t) - 1 < Two(28 * (t - 1) + b)
  {
    hide Two, W, Val;
    var w, x := W(t - 1), DM - d[t - 1];
    ValBound(d, 0, t - 1);
    ValTop(d, 0, t - 1);
    WTop(t - 1);
    TwoW(t - 1);
    TwoAdd(28 * (t - 1), b);
    TwoAdd(28 * (t - 1), b - 1);
    assert W(t) - Val(d, 0, t) == (x + 1) * w - Val(d, 0, t - 1) by {
      MulAdd(w, x + 1, d[t - 1]);
    }
    MulAdd(w, x, 1);
    MulMono(x + 1, Two(b), w);
    MulMono(Two(b - 1), x, w);
  }

  // The number of bits of x, 1 for 0.
  method NBits(x: int) returns (r: nat)
    requires 0 <= x < 0x1_0000_0000
    ensures 0 < r <= 32 && x < Two(r) && (x > 0 ==> Two(r - 1) <= x)
  {
    hide Two, BitsLeft;
    TwoPowers();
    BitsEnds(x);
    var y := x;
    r := 1;
    if y / 0x1_0000 != 0 {
      BitsStep(x, y, r, 16, 0x1_0000);
      y, r := y / 0x1_0000, r + 16;
    }
    if y / 0x100 != 0 {
      BitsStep(x, y, r, 8, 0x100);
      y, r := y / 0x100, r + 8;
    }
    if y / 0x10 != 0 {
      BitsStep(x, y, r, 4, 0x10);
      y, r := y / 0x10, r + 4;
    }
    if y / 4 != 0 {
      BitsStep(x, y, r, 2, 4);
      y, r := y / 4, r + 2;
    }
    if y / 2 != 0 {
      BitsStep(x, y, r, 1, 2);
      y, r := y / 2, r + 1;
    }
  }

  class BigInteger {
    var d: Store
    var t: nat
    var s: int

    // The digits below t are written and in range; s is a sign word.
    ghost predicate Digital()
      reads this
    {
      (s == 0 || s == -1) && Proper(d, 0, t)
    }

    ghost predicate Valid()
      reads this
    {
      Digital() && Clamped(d, t, s)
    }

    ghost function Value(): int
      reads this
    {
      Num(d, t, s)
    }

    constructor ()
      ensures Valid() && Value() == 0
      ensures t == 0 && s == 0
    {
      d, t, s := map[], 0, 0;
    }

    constructor FromSmall(x: int)
      requires -1 <= x < B
      ensures Valid() && Value() == x
    {
      d, t, s := map[], 0, 0;
      new;
      FromInt(x);
    }

    // fromInt has a branch for x < -1, which reads a name that is not defined.
    method FromInt(x: int)
      requires -1 <= x < B
      modifies this
      ensures Valid() && Value() == x
      ensures t == if x > 0 then 1 else 0
    {
      t := 1;
      s := if x < 0 then -1 else 0;
      if x > 0 {
        d := d[0 := x];
        assert Val(d, 0, 1) == x * W(0);
      } else {
        t := 0;
      }
    }

    method CopyTo(r: BigInteger)
      requires Digital()
      modifies r
      ensures r.t == old(t) && r.s == old(s) && r.Digital()
      ensures r.Value() == old(Value())
      ensures old(Valid()) ==> r.Valid()
    {
      hide Num, Clamped;
      ghost var x := d;
      var i: int := t - 1;
      while i >= 0
        invariant -1 <= i < t
        invariant Same(d, x, 0, t) && Same(r.d, x, i + 1, t - i - 1)
        modifies r`d
      {
        r.d := r.d[i := d[i]];
        i := i - 1;
      }
      CopyDone(x, t, s, r.d);
      r.t := t;
      r.s := s;
    }

    // for (i = n - 1; i >= 0; --i) this[i] = 0, a loop several routines start with
    method ZeroDigits(n: nat)
      modifies this`d
      ensures forall k :: 0 <= k < n ==> k in d && d[k] == 0
      ensures forall k :: n <= k ==> (k in d <==> k in old(d)) && At(d, k) == At(old(d), k)
    {
      var i: int := n - 1;
      while i >= 0
        invariant -1 <= i < n
        invariant forall k :: i < k < n ==> k in d && d[k] == 0
        invariant forall k :: n <= k ==> (k in d <==> k in old(d)) && At(d, k) == At(old(d), k)
      {
        d := d[i := 0];
        i := i - 1;
      }
    }

    // Drop the digits that only repeat the sign word.
    method Clamp()
      requires Digital()
      modifies this`t
      ensures Valid() && Value() == old(Value())
      ensures t <= old(t)
    {
      var c := if s < 0 then DM else 0;
      while t > 0 && d[t - 1] == c
        invariant t <= old(t)
        invariant Digital() && Value() == old(Value())
      {
        ClampStep(d, t, s);
        t := t - 1;
      }
    }

    method IsEven() returns (even: bool)
      requires Valid()
      ensures even <==> Value() % 2 == 0
    {
      if t > 0 {
        even := And(d[0], 2) == 0;
        LowDigitParity(d, t, s);
      } else {
        even := s == 0;
        assert W(0) == 1;
      }
    }

    method SigNum() returns (r: int)
      requires Valid()
      ensures r == if Value() < 0 then -1 else if Value() == 0 then 0 else 1
    {
      NumBounds(d, t, s);
      if s < 0 {
        r := -1;
      } else if t <= 0 || (t == 1 && d[0] <= 0) {
        r := 0;
      } else {
        r := 1;
      }
    }

    method CompareTo(a: BigInteger) returns (r: int)
      requires Valid() && a.Valid()
      ensures r < 0 <==> Value() < a.Value()
      ensures r == 0 <==> Value() == a.Value()
    {
      NumBounds(d, t, s);
      NumBounds(a.d, a.t, a.s);
      r := s - a.s;
      if r != 0 {
        return;
      }
      var i: int := t;
      r := i - a.t;
      if r != 0 {
        if r < 0 {
          LongerIsLarger(d, t, a.d, a.t, s);
        } else {
          LongerIsLarger(a.d, a.t, d, t, s);
        }
        if s < 0 {
          r := -r;
        }
        return;
      }
      while i > 0
        invariant 0 <= i <= t
        invariant Val(d, 0, t) - Val(d, 0, i) == Val(a.d, 0, t) - Val(a.d, 0, i)
      {
        i := i - 1;
        r := d[i] - a.d[i];
        if r != 0 {
          if r < 0 {
            FirstDifference(d, a.d, i, t);
          } else {
            FirstDifference(a.d, d, i, t);
          }
          return;
        }
      }
      r := 0;
    }

    // r = this * B^n
    method DLShiftTo(n: nat, r: BigInteger)
      requires Digital()
      modifies r
      ensures r.Digital() && r.t == old(t) + n && r.s == old(s)
      ensures r.Value() == old(Value()) * W(n)
      ensures old(Valid()) && (old(t) > 0 || n == 0) ==> r.Valid()
    {
      hide Val, W, Moved, Num, Clamped;
      ghost var x, tx, sx := d, t, s;
      var i: int := t - 1;
      while i >= 0
        invariant -1 <= i < t == tx && s == sx
        invariant Same(d, x, 0, i + 1)
        invariant forall k :: n + i + 1 <= k < n + t ==> k in r.d && At(r.d, k) == At(x, k - n)
        modifies r`d
      {
        r.d := r.d[i + n := d[i]];
        i := i - 1;
      }
      ghost var e0 := r.d;
      r.ZeroDigits(n);
      MovedAbove(x, tx, n, e0, r.d);
      MovedProper(x, tx, n, r.d, sx);
      r.t, r.s := t + n, s;
      ShiftedUp(x, tx, sx, n, r.d);
    }

    // r = this / B^n, rounded down
    method DRShiftTo(n: nat, r: BigInteger)
      requires Digital()
      modifies r
      ensures r.Digital() && r.t == (if old(t) < n then 0 else old(t) - n) && r.s == old(s)
      ensures r.Value() == old(Value()) / W(n)
      ensures old(Valid()) ==> r.Valid()
    {
      hide Num, W, Val;
      ghost var x, tx, sx := d, t, s;
      var i := n;
      while i < t
        invariant n <= i && (i <= t || i == n)
        invariant t == old(t) && s == old(s)
        invariant forall k :: i <= k < t ==> k in d && d[k] == x[k]
        invariant forall k :: 0 <= k < i - n ==> k in r.d && r.d[k] == x[k + n]
        modifies r`d
      {
        r.d := r.d[i - n := d[i]];
        i := i + 1;
      }
      r.t, r.s := if t < n then 0 else t - n, s;
      if n <= tx {
        ShiftedDown(x, tx, sx, n, r.d);
      } else {
        ShiftedAway(x, tx, sx, n, r.d);
      }
    }

    // r = this * 2^n
    method LShiftTo(n: nat, r: BigInteger)
      requires Digital()
      modifies r
      ensures r.Valid() && r.t <= old(t) + n / 28 + 1
      ensures r.Value() == old(Value()) * Two(n)
    {
      hide Val, W, Two, And, Shr, Or, Num, LShifted;
      ghost var x, tx, sx := d, t, s;
      var bs := n % 28;
      var p, q := Two(bs), Two(28 - bs);
      SplitBits(n);
      var ds := n / 28;
      var c := SignBits(s, p, q);
      ghost var c0 := c;
      LShiftNone(r.d, ds + t, c, x, t, p);
      var i: int := t - 1;
      while i >= 0
        invariant -1 <= i < t == tx && s == sx
        invariant Same(d, x, 0, i + 1)
        invariant LShifted(r.d, ds + i + 1, t - 1 - i, c, x, i + 1, p, c0)
        modifies r`d
      {
        LShiftStep(r.d, ds + i + 1, t - 1 - i, c, x, i, p, q, c0);
        r.d := r.d[i + ds + 1 := Or(c, Shr(d[i], q), p)];
        c := Shl(And(d[i], q), p);
        i := i - 1;
      }
      ghost var r0 := r.d;
      r.ZeroDigits(ds);
      LShiftDone(r0, r.d, ds, t, s, c, p, x, n);
      r.d := r.d[ds := c];
      r.t, r.s := t + ds + 1, s;
      r.Clamp();
    }

    // r = this / 2^n, rounded down
    method RShiftTo(n: nat, r: BigInteger)
      requires Digital()
      modifies r
      ensures r.Valid() && r.t <= old(t)
      ensures r.Value() == old(Value()) / Two(n)
    {
      hide Val, W, Two, And, Num, Clamped;
      ghost var x, tx, sx := d, t, s;
      r.s := s;
      var ds := n / 28;
      SplitBits(n);
      if ds >= t {
        RShiftOut(x, tx, sx, n, r.d);
        r.t := 0;
        NoDigits(r.d, sx);
        return;
      }
      var bs := n % 28;
      var p, q := Two(bs), Two(28 - bs);
      RShiftDigits(r, ds, bs, p, q);
      RShiftDone(x, tx, sx, ds, p, And(x[ds], p), Num(r.d, t - ds, s), n);
      r.t := t - ds;
      r.Clamp();
    }

    // The digits of a right shift by ds digits and bs bits.
    method RShiftDigits(r: BigInteger, ds: nat, bs: nat, p: int, q: int)
      requires Digital() && ds < t && 0 < p <= B && 0 < q <= B && p * q == B && r.s == s
      requires bs == 0 ==> p == 1
      modifies r`d
      ensures Proper(r.d, 0, t - ds)
      ensures 0 <= And(old(d)[ds], p) < p
      ensures p * Num(r.d, t - ds, s)
           == Val(old(d), ds, t - ds) - (if s < 0 then W(t - ds) else 0) - And(old(d)[ds], p)
    {
      hide Val, W, And, Shr, Or, Num, RShifted;
      ghost var x := d;
      RShiftFirst(r.d, x, ds, p, q);
      ghost var m := And(x[ds], p);
      r.d := r.d[0 := Shr(d[ds], p)];
      var i := ds + 1;
      while i < t
        invariant ds < i <= t
        invariant Same(d, x, i, t - i)
        invariant RShifted(r.d, i - ds, x, ds, p, q, m)
        modifies r`d
      {
        RShiftStep(r.d, i - ds, x, ds, p, q, m);
        var l, h := Shl(And(d[i], p), q), Shr(d[i], p);
        r.d := r.d[i - ds - 1 := Or(l, r.d[i - ds - 1], q)];
        r.d := r.d[i - ds := h];
        i := i + 1;
      }
      RShiftTop(r.d, t - ds, x, ds, p, q, s, m);
      if bs > 0 {
        r.d := r.d[t - ds - 1 := Or(Shl(And(s, p), q), r.d[t - ds - 1], q)];
      } else {
        assert r.d == r.d[t - ds - 1 := r.d[t - ds - 1]];
      }
    }

    // The loops that carry on through the longer operand once the shorter has run out:
    // its remaining digits, those of x, are added to or taken from the sum v.
    method CarryTail(r: BigInteger, i0: nat, c0: int, minus: bool, ghost x: Store, ghost v: int)
      returns (i: nat, c: int)
      requires i0 <= t && Proper(x, 0, t) && Same(d, x, i0, t - i0)
      requires Carried(r.d, i0, c0, v + if minus then -Val(x, 0, i0) else Val(x, 0, i0))
      requires if minus then -2 <= c0 <= 0 else -1 <= c0 <= 1
      modifies r`d
      ensures i == t && if minus then -2 <= c <= 0 else -1 <= c <= 1
      ensures Carried(r.d, t, c, v + if minus then -Val(x, 0, t) else Val(x, 0, t))
    {
      hide Val, W, Carried, And, Shr;
      i, c := i0, c0;
      while i < t
        invariant i0 <= i <= t && if minus then -2 <= c <= 0 else -1 <= c <= 1
        invariant Same(d, x, i, t - i)
        invariant Carried(r.d, i, c, v + if minus then -Val(x, 0, i) else Val(x, 0, i))
        modifies r`d
      {
        TailTop(x, i, minus, v);
        CarryDigit(r.d, i, c, if minus then -d[i] else d[i], v + if minus then -Val(x, 0, i) else Val(x, 0, i),
                   v + if minus then -Val(x, 0, i + 1) else Val(x, 0, i + 1));
        c := if minus then c - d[i] else c + d[i];
        CarryRange(c);
        r.d := r.d[i := And(c, B)];
        i := i + 1;
        c := Shr(c, B);
      }
    }

    // The end of subTo and addTo: the last carry becomes the sign word and a top digit.
    method FinishCarry(n: nat, c: int, ghost v: int)
      requires Carried(d, n, c, v) && -2 <= c <= 1
      modifies this
      ensures Valid() && Value() == v && t <= n + 1
    {
      hide Val, W, Carried;
      CarryDone(d, n, c, v);
      var i := n;
      s := if c < 0 then -1 else 0;
      if c < -1 {
        d := d[i := B + c];
        i := i + 1;
      } else if c > 0 {
        d := d[i := c];
        i := i + 1;
      }
      t := i;
      Clamp();
    }

    // r = this - a; r may be either operand
    method SubTo(a: BigInteger, r: BigInteger)
      requires Digital() && a.Digital()
      modifies r
      ensures r.Valid() && r.t <= (if old(t) < old(a.t) then old(a.t) else old(t)) + 1
      ensures r.Value() == old(Value()) - old(a.Value())
    {
      hide Val, W, Carried, And, Shr, Num;
      ghost var x, tx, y, ty := d, t, a.d, a.t;
      ghost var vx, vy := Num(x, tx, s), Num(y, ty, a.s);
      NumSign(x, tx, s);
      NumSign(y, ty, a.s);
      var i, c, m := 0, 0, if a.t < t then a.t else t;
      CarryNone(r.d, x, y);
      while i < m
        invariant 0 <= i <= m && -1 <= c <= 0
        invariant Same(d, x, i, t - i) && Same(a.d, y, i, a.t - i)
        invariant Carried(r.d, i, c, Val(x, 0, i) - Val(y, 0, i))
        modifies r`d
      {
        DiffTop(x, y, i);
        CarryDigit(r.d, i, c, d[i] - a.d[i], Val(x, 0, i) - Val(y, 0, i), Val(x, 0, i + 1) - Val(y, 0, i + 1));
        c := c + d[i] - a.d[i];
        CarryRange(c);
        r.d := r.d[i := And(c, B)];
        i := i + 1;
        c := Shr(c, B);
      }
      if a.t < t {
        CarrySign(r.d, i, c, -a.s, Val(x, 0, i) - Val(y, 0, i), -vy + Val(x, 0, i));
        c := c - a.s;
        i, c := CarryTail(r, i, c, false, x, -vy);
        CarrySign(r.d, i, c, s, -vy + Val(x, 0, t), vx - vy);
        c := c + s;
      } else {
        CarrySign(r.d, i, c, s, Val(x, 0, i) - Val(y, 0, i), vx + -Val(y, 0, i));
        c := c + s;
        i, c := a.CarryTail(r, i, c, true, y, vx);
        CarrySign(r.d, i, c, -a.s, vx + -Val(y, 0, ty), vx - vy);
        c := c - a.s;
      }
      r.FinishCarry(i, c, vx - vy);
    }

    // r = this + a; r may be either operand
    method AddTo(a: BigInteger, r: BigInteger)
      requires Digital() && a.Digital()
      modifies r
      ensures r.Valid() && r.t <= (if old(t) < old(a.t) then old(a.t) else old(t)) + 1
      ensures r.Value() == old(Value()) + old(a.Value())
    {
      hide Val, W, Carried, And, Shr, Num;
      ghost var x, tx, y, ty := d, t, a.d, a.t;
      ghost var vx, vy := Num(x, tx, s), Num(y, ty, a.s);
      NumSign(x, tx, s);
      NumSign(y, ty, a.s);
      var i, c, m := 0, 0, if a.t < t then a.t else t;
      CarryNone(r.d, x, y);
      while i < m
        invariant 0 <= i <= m && 0 <= c <= 1
        invariant Same(d, x, i, t - i) && Same(a.d, y, i, a.t - i)
        invariant Carried(r.d, i, c, Val(x, 0, i) + Val(y, 0, i))
        modifies r`d
      {
        SumTop(x, y, i);
        CarryDigit(r.d, i, c, d[i] + a.d[i], Val(x, 0, i) + Val(y, 0, i), Val(x, 0, i + 1) + Val(y, 0, i + 1));
        c := c + d[i] + a.d[i];
        CarryRange(c);
        r.d := r.d[i := And(c, B)];
        i := i + 1;
        c := Shr(c, B);
      }
      if a.t < t {
        CarrySign(r.d, i, c, a.s, Val(x, 0, i) + Val(y, 0, i), vy + Val(x, 0, i));
        c := c + a.s;
        i, c := CarryTail(r, i, c, false, x, vy);
        CarrySign(r.d, i, c, s, vy + Val(x, 0, t), vx + vy);
        c := c + s;
      } else {
        CarrySign(r.d, i, c, s, Val(x, 0, i) + Val(y, 0, i), vx + Val(y, 0, i));
        c := c + s;
        i, c := a.CarryTail(r, i, c, false, y, vx);
        CarrySign(r.d, i, c, a.s, vx + Val(y, 0, ty), vx + vy);
        c := c + a.s;
      }
      r.FinishCarry(i, c, vx + vy);
    }

    method Negate() returns (r: BigInteger)
      requires Digital()
      ensures fresh(r) && r.Valid() && r.Value() == -Value()
    {
      r := new BigInteger();
      var zero := new BigInteger.FromSmall(0);
      zero.SubTo(this, r);
    }

    method AbsValue() returns (r: BigInteger)
      requires Valid()
      ensures r.Valid() && r.Value() == Abs(Value()) && r.s == 0
      ensures r == this || fresh(r)
    {
      NumBounds(d, t, s);
      if s < 0 {
        r := Negate();
        NumBounds(r.d, r.t, r.s);
      } else {
        r := this;
      }
    }

    // am3: add x times the n digits from this[i] to the n digits from w[j], with carry c
    // coming in; the carry that goes out is returned.
    method Am(i: nat, x: int, w: BigInteger, j: nat, c: int, n: nat) returns (carry: int)
      requires w != this && Proper(d, i, n) && Proper(w.d, j, n)
      requires 0 <= x < 2 * B && 0 <= c < 3 * B
      modifies w`d
      ensures Val(w.d, j, n) + carry * W(n) == Val(old(w.d), j, n) + x * Val(d, i, n) + c
      ensures Proper(w.d, j, n) && 0 <= carry < 3 * B
      ensures c <= x ==> carry <= x
      ensures forall k: nat :: !(j <= k < j + n) ==> (k in w.d <==> k in old(w.d)) && At(w.d, k) == At(old(w.d), k)
    {
      hide Val, W, And, Shr, Accumulated;
      AmDigit(0, x, 0, 0);
      var xl, xh := And(x, 0x4000), Shr(x, 0x4000);
      ghost var w0 := w.d;
      AmNone(w0, w0, j, d, i, x, c);
      carry := c;
      var k := 0;
      while k < n
        invariant 0 <= k <= n
        invariant 0 <= carry < 3 * B && (c <= x ==> carry <= x)
        invariant Accumulated(w.d, w0, j, d, i, x, c, carry, k)
        invariant forall k': nat :: !(j <= k' < j + k) ==> (k' in w.d <==> k' in w0) && At(w.d, k') == At(w0, k')
      {
        AmDigit(d[i + k], x, w.d[j + k], carry);
        var l, h := And(d[i + k], 0x4000), Shr(d[i + k], 0x4000);
        var m := xh * l + h * xl;
        l := xl * l + Shl(And(m, 0x4000), 0x4000) + w.d[j + k] + carry;
        ghost var c0 := carry;
        carry := Shr(l, B) + Shr(m, 0x4000) + xh * h;
        AmStep(w.d, w0, j, d, i, x, c, c0, k, And(l, B), carry);
        w.d := w.d[j + k := And(l, B)];
        k := k + 1;
      }
      AmDone(w.d, w0, j, d, i, x, c, carry, n);
    }

    // The rows of the schoolbook product of two magnitudes, into this object.
    method MultiplyRows(x: BigInteger, y: BigInteger)
      requires x.Digital() && y.Digital() && x.s == y.s == 0 && this != x && this != y
      modifies this
      ensures Valid() && Value() == x.Value() * y.Value()
    {
      hide Val, W, Num, RowsDone;
      t := x.t + y.t;
      ZeroDigits(x.t);
      NoRows(d, x.d, x.t, y.d);
      var i := 0;
      while i < y.t
        invariant 0 <= i <= y.t
        invariant RowsDone(d, x.d, x.t, y.d, i)
        modifies this`d
      {
        RowsProper(d, x.d, x.t, y.d, i);
        ghost var r0 := d;
        var c := x.Am(0, y.d[i], this, i, 0, x.t);
        MultiplyRow(r0, d, x.d, x.t, y.d, i, c);
        d := d[i + x.t := c];
        i := i + 1;
      }
      RowsEnd(d, x.d, x.t, y.d, y.t);
      s := 0;
      Clamp();
    }

    // r = this * a; r is neither operand
    method MultiplyTo(a: BigInteger, r: BigInteger)
      requires Valid() && a.Valid() && r != this && r != a
      modifies r
      ensures r.Valid() && r.Value() == Value() * a.Value()
    {
      hide Num, Abs;
      var x := AbsValue();
      var y := a.AbsValue();
      r.MultiplyRows(x, y);
      SignedProduct(Value(), a.Value(), r.Value());
      SignOf(d, t, s);
      SignOf(a.d, a.t, a.s);
      if s != a.s {
        var zero := new BigInteger.FromSmall(0);
        zero.SubTo(r, r);
      }
    }

    // The rows of the squaring of a magnitude, into this object.
    method SquareRowsOf(x: BigInteger)
      requires x.Digital() && x.s == 0 && this != x
      modifies this
      ensures Valid() && Value() == x.Value() * x.Value()
    {
      hide Val, W, SquareRows;
      var n := x.t;
      t := 2 * n;
      ZeroDigits(t);
      ghost var xd := x.d;
      if n > 0 {
        NoSquareRows(d, xd, n);
        var i := 0;
        while i < n - 1
          invariant 0 <= i <= n - 1
          invariant SquareRows(d, xd, n, i)
          modifies this`d
        {
          SquareRow(x, n, i);
          i := i + 1;
        }
        SquareLast(x, n);
      } else {
        ValEmpty(xd, 0);
        ValEmpty(d, 0);
      }
      s := 0;
      Clamp();
    }

    // Row i: the digit's square, then twice its products with the digits above it; the
    // carry may set the digit above to 1.
    method SquareRow(x: BigInteger, n: nat, i: nat)
      requires this != x && Proper(x.d, 0, n) && i + 1 < n && SquareRows(d, x.d, n, i)
      modifies this`d
      ensures SquareRows(d, x.d, n, i + 1)
    {
      hide Val, W, SquareRows;
      SquareProper(d, x.d, n, i);
      ghost var r0 := d;
      var c := x.Am(i, x.d[i], this, 2 * i, 0, 1);
      ghost var r1, c1 := d, c;
      c := x.Am(i + 1, 2 * x.d[i], this, 2 * i + 1, c, n - i - 1);
      SquareRowDone(r0, r1, d, x.d, n, i, c1, c);
      d := d[i + n := d[i + n] + c];
      if d[i + n] >= B {
        d := d[i + n := d[i + n] - B];
        d := d[i + n + 1 := 1];
      }
    }

    // The square of the last digit has no digits above it to multiply.
    method SquareLast(x: BigInteger, n: nat)
      requires this != x && 0 < n && Proper(x.d, 0, n) && SquareRows(d, x.d, n, n - 1)
      modifies this`d
      ensures Proper(d, 0, 2 * n) && Val(d, 0, 2 * n) == Sq(Val(x.d, 0, n))
    {
      hide Val, W, Sq;
      ghost var r0, i := d, n - 1;
      var c := x.Am(n - 1, x.d[n - 1], this, 2 * (n - 1), 0, 1);
      ValOne(x.d, i);
      ValEmpty(x.d, n);
      assert Sq(0) == 0 by { SqZero(); }
      SquareRowVal(r0, d, x.d, n, i, c);
      var top: nat := 2 * n - 1;
      ValPoint(d, top, d[top] + c, 2 * n);
      SquareFits(d[top := d[top] + c], x.d, n);
      d := d[top := d[top] + c];
    }

    // r = this^2; r is not this
    method SquareTo(r: BigInteger)
      requires Valid() && r != this
      modifies r
      ensures r.Valid() && r.Value() == Value() * Value()
    {
      hide Num;
      var x := AbsValue();
      r.SquareRowsOf(x);
    }

    // The bits besides the sign: those of the number, or of what its complement is if it is negative.
    method BitLength() returns (n: nat)
      requires Valid()
      ensures Magnitude(Value()) < Two(n)
      ensures n > 0 ==> Two(n - 1) <= Magnitude(Value())
      ensures n == 0 <==> Value() == 0 || Value() == -1
      ensures Value() > 0 ==> 28 * (t - 1) < n <= 28 * t
    {
      NumBounds(d, t, s);
      if t <= 0 {
        n := 0;
        return;
      }
      var b := NBits(if s < 0 then DM - d[t - 1] else d[t - 1]);
      n := 28 * (t - 1) + b;
      if s < 0 {
        ComplementBits(d, t, b);
      } else {
        TopBits(d, t, b);
      }
    }
  }
}
