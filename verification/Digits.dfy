/**
Digit strings in base 2^28, held in a sparse JavaScript-style store, and the
32-bit operators the digit loops use.
*/
module Digits {
  import opened Arith

  const B: int := 0x1000_0000    // one more than the largest digit, 2^28
  const DM: int := 0xfff_ffff    // the largest digit

  // Indexed properties of an object: an index never written is undefined.
  type Store = map<nat, int>

  // The weight of digit n, B^n.
  function W(n: nat): (w: int)
    ensures 0 < w
  {
    if n == 0 then 1 else B * W(n - 1)
  }

  // 2^n
  function Two(n: nat): (p: int)
    ensures 0 < p
  {
    if n == 0 then 1 else 2 * Two(n - 1)
  }

  ghost function At(d: Store, i: nat): int {
    if i in d then d[i] else 0
  }

  // The number written by the n digits that start at index lo, least significant first.
  ghost function Val(d: Store, lo: nat, n: nat): int {
    if n == 0 then 0 else Val(d, lo, n - 1) + At(d, lo + n - 1) * W(n - 1)
  }

  // The n digits from lo on are written and lie in [0, B).
  ghost predicate Proper(d: Store, lo: nat, n: nat) {
    forall k :: lo <= k < lo + n ==> k in d && 0 <= d[k] < B
  }

  // d and e agree on the n indices from lo on.
  ghost predicate Same(d: Store, e: Store, lo: nat, n: nat) {
    forall k :: lo <= k < lo + n ==> (k in d <==> k in e) && At(d, k) == At(e, k)
  }

  /* ---------- 32-bit operators ---------- */

  predicate Int32(x: int) { -0x8000_0000 <= x <= 0x7fff_ffff }

  // x & (size - 1), for size a power of two
  function And(x: int, size: int): int
    requires Int32(x) && 0 < size <= 0x1000_0000
  {
    x % size
  }

  // x >> k, where size = 2^k
  function Shr(x: int, size: int): int
    requires Int32(x) && 0 < size <= 0x1000_0000
  {
    x / size
  }

  // x << k, where size = 2^k and no bit reaches the sign
  function Shl(x: int, size: int): int
    requires 0 < size && Int32(x * size)
  {
    x * size
  }

  // x | y for operands without a common bit: x is a multiple of 2^k = size, y is below it
  function Or(x: int, y: int, size: int): int
    requires 0 <= y < size && x % size == 0 && Int32(x + y)
  {
    x + y
  }

  /* ---------- weights ---------- */

  lemma WTop(n: nat)
    ensures W(n + 1) == B * W(n)
  {}

  lemma {:induction false} WAdd(m: nat, n: nat)
    ensures W(m + n) == W(m) * W(n)
  {
    if m == 0 {
    } else {
      WAdd(m - 1, n);
      assert (B * W(m - 1)) * W(n) == B * (W(m - 1) * W(n));
    }
  }

  lemma {:induction false} WMono(m: nat, n: nat)
    requires m <= n
    ensures W(m) <= W(n)
    ensures m < n ==> B * W(m) <= W(n)
    decreases n - m
  {
    if m < n {
      WMono(m + 1, n);
    }
  }

  lemma {:induction false} TwoAdd(m: nat, n: nat)
    ensures Two(m + n) == Two(m) * Two(n)
  {
    if m == 0 {
    } else {
      TwoAdd(m - 1, n);
      assert (2 * Two(m - 1)) * Two(n) == 2 * (Two(m - 1) * Two(n));
    }
  }

  lemma TwoTop(n: nat)
    ensures Two(n + 1) == 2 * Two(n)
  {}

  lemma TwoPowers()
    ensures Two(0) == 1 && Two(1) == 2 && Two(2) == 4 && Two(4) == 0x10
    ensures Two(8) == 0x100 && Two(16) == 0x1_0000
  {
    TwoAdd(4, 4);
    TwoAdd(8, 8);
  }

  lemma TwoDigit()
    ensures Two(28) == B
  {
    TwoAdd(14, 14);
  }

  // 2^(28 d) = B^d
  lemma {:induction false} TwoW(d: nat)
    ensures Two(28 * d) == W(d)
  {
    if d == 0 {
    } else {
      TwoW(d - 1);
      TwoDigit();
      TwoAdd(28, 28 * (d - 1));
    }
  }

  lemma {:induction false} TwoMono(m: nat, n: nat)
    requires m <= n
    ensures Two(m) <= Two(n)
    ensures m < n ==> 2 * Two(m) <= Two(n)
    decreases n - m
  {
    if m < n {
      TwoMono(m + 1, n);
    }
  }

  /* ---------- digit strings ---------- */

  lemma {:induction false} ValFrame(d: Store, e: Store, lo: nat, n: nat)
    requires Same(d, e, lo, n)
    ensures Val(d, lo, n) == Val(e, lo, n)
  {
    if n == 0 {
    } else {
      ValFrame(d, e, lo, n - 1);
    }
  }

  // A window may be read at another place of another store.
  lemma {:induction false} ValMove(d: Store, lo: nat, e: Store, hi: nat, n: nat)
    requires forall k :: hi <= k < hi + n ==> At(d, k - hi + lo) == At(e, k)
    ensures Val(d, lo, n) == Val(e, hi, n)
  {
    if n == 0 {
    } else {
      ValMove(d, lo, e, hi, n - 1);
      assert At(d, (hi + n - 1) - hi + lo) == At(e, hi + n - 1);
    }
  }

  // Writing the digit just above a window adds it at the window's weight.
  lemma ValPut(d: Store, lo: nat, n: nat, v: int)
    ensures Val(d[lo + n := v], lo, n + 1) == Val(d, lo, n) + v * W(n)
  {
    ValFrame(d, d[lo + n := v], lo, n);
  }

  lemma ValEmpty(d: Store, lo: nat)
    ensures Val(d, lo, 0) == 0 && W(0) == 1
  {}

  lemma ValTop(d: Store, lo: nat, n: nat)
    ensures Val(d, lo, n + 1) == Val(d, lo, n) + At(d, lo + n) * W(n)
  {}

  lemma ValOne(d: Store, lo: nat)
    ensures Val(d, lo, 1) == At(d, lo)
  {
    assert W(0) == 1;
  }

  lemma {:induction false} ValSplit(d: Store, lo: nat, m: nat, n: nat)
    ensures Val(d, lo, m + n) == Val(d, lo, m) + W(m) * Val(d, lo + m, n)
  {
    if n == 0 {
    } else {
      ValSplit(d, lo, m, n - 1);
      WAdd(m, n - 1);
      Scale(W(m), Val(d, lo + m, n - 1), At(d, lo + m + n - 1), W(n - 1));
    }
  }

  lemma Scale(a: int, v: int, x: int, w: int)
    ensures a * (v + x * w) == a * v + x * (a * w)
  {
    assert a * (x * w) == x * (a * w);
  }

  lemma {:induction false} ValBound(d: Store, lo: nat, n: nat)
    requires Proper(d, lo, n)
    ensures 0 <= Val(d, lo, n) < W(n)
  {
    if n == 0 {
    } else {
      ValBound(d, lo, n - 1);
      var x := d[lo + n - 1];
      MulMono(0, x, W(n - 1));
      MulMono(x, B - 1, W(n - 1));
    }
  }

  lemma {:induction false} ValZero(d: Store, lo: nat, n: nat)
    requires forall k :: lo <= k < lo + n ==> At(d, k) == 0
    ensures Val(d, lo, n) == 0
  {
    if n == 0 {
    } else {
      ValZero(d, lo, n - 1);
    }
  }

  // Digits are determined by the number they write.
  lemma {:induction false} ValUnique(d: Store, e: Store, n: nat)
    requires Proper(d, 0, n) && Proper(e, 0, n)
    requires Val(d, 0, n) == Val(e, 0, n)
    ensures Same(d, e, 0, n)
  {
    if n == 0 {
    } else {
      ValBound(d, 0, n - 1);
      ValBound(e, 0, n - 1);
      var x, y := d[n - 1], e[n - 1];
      DivModUnique(Val(d, 0, n), W(n - 1), x, Val(d, 0, n - 1));
      DivModUnique(Val(e, 0, n), W(n - 1), y, Val(e, 0, n - 1));
      ValUnique(d, e, n - 1);
    }
  }

  // Splitting a number at weight W(m) splits its digits at index m.
  lemma ValHighLow(d: Store, m: nat, n: nat, q: int, r: int)
    requires Proper(d, 0, m + n) && 0 <= r < W(m)
    requires Val(d, 0, m + n) == q * W(m) + r
    ensures Val(d, 0, m) == r && Val(d, m, n) == q
  {
    hide Val, W;
    ValSplit(d, 0, m, n);
    ValBound(d, 0, m);
    DivModUnique(Val(d, 0, m + n), W(m), q, r);
    DivModUnique(Val(d, 0, m + n), W(m), Val(d, m, n), Val(d, 0, m));
  }

  // Changing the n digits from lo on changes the number by their difference at weight W(lo).
  lemma ValWindow(d: Store, e: Store, lo: nat, n: nat, len: nat)
    requires lo + n <= len
    requires Same(d, e, 0, lo) && Same(d, e, lo + n, len - lo - n)
    ensures Val(e, 0, len) == Val(d, 0, len) + W(lo) * (Val(e, lo, n) - Val(d, lo, n))
  {
    hide Val, W, At;
    var h := len - lo - n;
    assert Val(d, 0, lo) == Val(e, 0, lo) && Val(d, lo + n, h) == Val(e, lo + n, h) by {
      ValFrame(d, e, 0, lo);
      ValFrame(d, e, lo + n, h);
    }
    assert Val(e, 0, len) - Val(d, 0, len) == W(lo) * Val(e, lo, n) - W(lo) * Val(d, lo, n) by {
      ValSplit3(d, lo, n, h);
      ValSplit3(e, lo, n, h);
    }
    MulDiff(W(lo), Val(e, lo, n), Val(d, lo, n));
  }

  lemma ValSplit3(d: Store, lo: nat, n: nat, h: nat)
    ensures Val(d, 0, lo + n + h) == Val(d, 0, lo) + W(lo) * Val(d, lo, n) + W(lo + n) * Val(d, lo + n, h)
  {
    hide Val, W;
    ValSplit(d, 0, lo + n, h);
    ValSplit(d, 0, lo, n);
  }

  lemma ValPoint(d: Store, i: nat, v: int, len: nat)
    requires i < len
    ensures Val(d[i := v], 0, len) == Val(d, 0, len) + (v - At(d, i)) * W(i)
  {
    hide Val, W;
    ValWindow(d, d[i := v], i, 1, len);
    ValOne(d, i);
    ValOne(d[i := v], i);
  }

  // One step of a carry loop: the sum c + y of the incoming carry and the digits at
  // this place leaves (c + y) % B as the digit and (c + y) / B as the next carry.
  lemma CarryStep(d: Store, lo: nat, i: nat, c: int, y: int)
    ensures Val(d[lo + i := (c + y) % B], lo, i + 1) + (c + y) / B * W(i + 1)
         == Val(d, lo, i) + c * W(i) + y * W(i)
  {
    var v, q := (c + y) % B, (c + y) / B;
    ValPut(d, lo, i, v);
    assert c + y == q * B + v;
    assert q * (B * W(i)) == (q * B) * W(i);
    assert (q * B) * W(i) + v * W(i) == (c + y) * W(i);
  }

  lemma ValFront(d: Store, lo: nat, n: nat)
    requires 0 < n
    ensures Val(d, lo, n) == At(d, lo) + B * Val(d, lo + 1, n - 1)
  {
    hide Val;
    ValSplit(d, lo, 1, n - 1);
    ValOne(d, lo);
    assert W(1) == B * W(0);
  }
}
