/**
Long division (divRemTo) and the non-negative remainder (mod). The quotient digit is
estimated from the leading digits and then corrected; the estimate is computed in exact
arithmetic here, and all the rest only needs that it is never below the true digit.
*/
module Division {
  import opened Arith
  import opened Digits
  import opened BigIntegers

  /* ---------- the quotient-digit estimate ---------- */

  // The estimate works on the two leading digits of the window and on the 52 leading bits
  // yt of the divisor; e = 2^4 is added to make up for what is cut off.
  function Estimate(r0: int, r1: int, y0: int, yt: int): int
    requires 0 < yt
  {
    if r0 == y0 then DM else (r0 * 0x10_0000_0000_0000 + (r1 + 0x10) * 0x100_0000) / yt
  }

  function LeadingBits(y0: int, y1: int): int {
    y0 * 0x100_0000 + y1 / 0x10
  }

  // With w = B^(n-1): the divisor is between the number its leading bits make and one more
  // in its first digit, the window between those of its two leading digits.
  lemma EstimateBounds(win: int, div: int, w: int, r0: int, r1: int, y0: int, y1: int)
    requires 0 < w && 0x800_0000 <= y0 < B && 0 <= y1 < B && 0 <= r0 && 0 <= r1 < B
    requires LeadingBits(y0, y1) * w <= 0x100_0000 * div && div < (y0 + 1) * w
    requires (r0 * B + r1) * w <= win < (r0 * B + r1 + 1) * w && win < B * div
    ensures r0 <= y0
    ensures win / div <= Estimate(r0, r1, y0, LeadingBits(y0, y1)) <= B
  {
    hide LeadingBits, Estimate;
    var yt, q := LeadingBits(y0, y1), win / div;
    LeadingRange(y0, y1);
    LeadingDigit(win, div, w, r0, r1, y0, yt);
    QuotientRange(win, div);
    if r0 < y0 {
      EstimateLow(win, div, w, r0 * B + r1, yt, q);
    }
    EstimateFromBits(r0, r1, y0, yt, q);
  }

  lemma EstimateFromBits(r0: int, r1: int, y0: int, yt: int, q: int)
    requires 0x800_0000 <= y0 < B && 0x100_0000 * y0 <= yt && 0 <= r0 <= y0 && 0 <= r1 < B && q < B
    requires r0 < y0 ==> q * yt < 0x100_0000 * (r0 * B + r1 + 1)
    ensures q <= Estimate(r0, r1, y0, yt) <= B
  {
    if r0 < y0 {
      EstimateQuotient(r0 * 0x10_0000_0000_0000 + (r1 + 0x10) * 0x100_0000, yt, q, y0);
    }
  }

  lemma LeadingRange(y0: int, y1: int)
    requires 0 <= y1
    ensures 0x100_0000 * y0 <= LeadingBits(y0, y1)
  {}

  lemma QuotientRange(win: int, div: int)
    requires 0 < div && 0 <= win < B * div
    ensures 0 <= win / div < B && (win / div) * div <= win
  {
    MulStrict(win / div, B, div);
  }

  lemma LeadingDigit(win: int, div: int, w: int, r0: int, r1: int, y0: int, yt: int)
    requires 0 < w && 0 < yt && yt * w <= 0x100_0000 * div && div < (y0 + 1) * w && 0 <= r0 && 0 <= r1
    requires (r0 * B + r1) * w <= win < B * div
    ensures r0 <= y0 && 0 < div && 0 <= win
  {
    MulMono(1, yt, w);
    MulMono(0, r0 * B, w);
    MulMono(r0 * B, r0 * B + r1, w);
    assert B * ((y0 + 1) * w) == (B * (y0 + 1)) * w;
    MulStrict(r0 * B, B * (y0 + 1), w);
  }

  lemma EstimateLow(win: int, div: int, w: int, lead: int, yt: int, q: int)
    requires 0 < w && 0 < div && 0 <= q && q * div <= win < (lead + 1) * w
    requires yt * w <= 0x100_0000 * div
    ensures q * yt < 0x100_0000 * (lead + 1)
  {
    MulMono(yt * w, 0x100_0000 * div, q);
    assert q * (0x100_0000 * div) == 0x100_0000 * (q * div);
    assert q * (yt * w) == (q * yt) * w;
    assert 0x100_0000 * ((lead + 1) * w) == (0x100_0000 * (lead + 1)) * w;
    MulStrict(q * yt, 0x100_0000 * (lead + 1), w);
  }

  lemma EstimateQuotient(num: int, yt: int, q: int, y0: int)
    requires 0 < y0 && 0x100_0000 * y0 <= yt && q * yt <= num
    requires num <= y0 * 0x10_0000_0000_0000 + 15 * 0x100_0000 && 15 < y0
    ensures q <= num / yt <= B
  {
    var h := num / yt;
    assert num == h * yt + num % yt;
    assert (h + 1) * yt == h * yt + yt;
    MulStrict(q, h + 1, yt);
    assert (B + 1) * yt == B * yt + yt;
    MulStrict(h, B + 1, yt);
  }

  /* ---------- one quotient digit ---------- */

  // The running value v holds the quotient so far above digit ys + j and the remainder
  // below it: x = quo * (y * B^j) + rem with rem < y * B^j.
  ghost predicate Partial(v: int, y: int, ys: nat, j: nat, quo: int, x: int) {
    && 0 <= quo && 0 <= v - quo * W(ys + j) < y * W(j)
    && x == quo * (y * W(j)) + (v - quo * W(ys + j))
  }

  // What the leading digits y0 and the leading bits yt say of an n-digit divisor y.
  ghost predicate Leading(y: int, ys: nat, y0: int, yt: int) {
    && 0 < ys && 0x800_0000 <= y0 < B
    && y0 * W(ys - 1) <= y < (y0 + 1) * W(ys - 1)
    && yt * W(ys - 1) <= 0x100_0000 * y
    && exists y1 :: 0 <= y1 < B && yt == LeadingBits(y0, y1)
  }

  // The value while digit k is on trial: the complement yc = B^ys - y of the divisor has
  // been added k times to the window win.
  ghost function Trial(quo: int, i: nat, j: nat, win: int, k: int, yc: int, low: int): int {
    quo * W(i + 1) + W(j) * (win + k * yc) + low
  }

  // The digits j..j + ys form the window; below them is what later digits will divide.
  lemma Window(d: Store, t: nat, y: int, ys: nat, j: nat, quo: int, x: int)
    requires Proper(d, 0, t) && ys + j + 1 <= t
    requires Partial(Val(d, 0, t), y, ys, j + 1, quo, x) && y <= W(ys)
    ensures var win, low := Val(d, j, ys + 1), Val(d, 0, j);
      && Val(d, 0, t) == Trial(quo, ys + j, j, win, 0, W(ys) - y, low)
      && 0 <= low < W(j) && 0 <= win < B * y
      && x == quo * (y * W(j + 1)) + (W(j) * win + low)
  {
    hide Val, W;
    var i, win, low := ys + j, Val(d, j, ys + 1), Val(d, 0, j);
    var rem := Val(d, 0, t) - quo * W(i + 1);
    assert rem < W(i + 1) by {
      WAdd(ys, j + 1);
      MulMono(y, W(ys), W(j + 1));
    }
    ValHighLow(d, i + 1, t - i - 1, quo, rem);
    ValSplit(d, 0, j, ys + 1);
    ValBound(d, 0, j);
    ValBound(d, j, ys + 1);
    assert win < B * y by {
      WTop(j);
      assert y * (B * W(j)) == (B * y) * W(j);
      MulStrict(win, B * y, W(j));
    }
    assert win + 0 * (W(ys) - y) == win;
  }

  lemma WindowLead(d: Store, ys: nat, j: nat)
    requires 0 < ys && Proper(d, j, ys + 1)
    ensures (d[ys + j] * B + d[ys + j - 1]) * W(ys - 1) <= Val(d, j, ys + 1)
    ensures Val(d, j, ys + 1) < (d[ys + j] * B + d[ys + j - 1] + 1) * W(ys - 1)
    ensures d[ys + j] * W(ys) <= Val(d, j, ys + 1)
  {
    hide Val, W;
    var w := W(ys - 1);
    ValTop(d, j, ys);
    ValTop(d, j, ys - 1);
    ValBound(d, j, ys - 1);
    ValBound(d, j, ys);
    WTop(ys - 1);
    assert (d[ys + j] * B + d[ys + j - 1]) * w == d[ys + j] * (B * w) + d[ys + j - 1] * w;
  }

  // The kernel call puts k times the complement into the window; its top digit stays in range.
  lemma TrialStart(d: Store, e: Store, t: nat, quo: int, ys: nat, j: nat, k: int, y: int, low: int, c: int)
    requires ys + j + 1 <= t && Proper(d, 0, t) && 0 < y <= W(ys)
    requires Val(d, 0, t) == Trial(quo, ys + j, j, Val(d, j, ys + 1), 0, W(ys) - y, low)
    requires Val(d, j, ys + 1) / y <= k <= B && Val(d, j, ys + 1) < B * y
    requires Proper(e, j, ys) && 0 <= c
    requires forall i: nat :: !(j <= i < j + ys) ==> (i in e <==> i in d) && At(e, i) == At(d, i)
    requires Val(e, j, ys) + c * W(ys) == Val(d, j, ys) + k * (W(ys) - y) + 0
    ensures var e' := e[ys + j := At(d, ys + j) + c];
      && Proper(e', 0, t)
      && Val(e', 0, t) == Trial(quo, ys + j, j, Val(d, j, ys + 1), k, W(ys) - y, low)
  {
    hide Val, W, Trial;
    var i, win := ys + j, Val(d, j, ys + 1);
    var top := At(d, i) + c;
    var e' := e[i := top];
    ValTop(d, j, ys);
    ValPut(e, j, ys, top);
    MulAdd(W(ys), At(d, i), c);
    assert Val(e', j, ys + 1) == win + k * (W(ys) - y);
    assert top < B by {
      ValBound(e, j, ys);
      ValBound(d, j, ys + 1);
      TrialRange(win, k, y, W(ys));
      MulStrict(top, B, W(ys));
    }
    assert Proper(e', 0, t) by {
      TrialProper(d, e, t, j, ys, top);
    }
    ValWindow(d, e', j, ys + 1, t);
    TrialMove(quo, i, j, win, 0, k, W(ys) - y, low);
  }

  lemma TrialProper(d: Store, e: Store, t: nat, j: nat, ys: nat, top: int)
    requires Proper(d, 0, t) && Proper(e, j, ys) && 0 <= top < B
    requires forall i: nat :: !(j <= i < j + ys) ==> (i in e <==> i in d) && At(e, i) == At(d, i)
    ensures Proper(e[ys + j := top], 0, t)
  {
    forall i | 0 <= i < t && i != ys + j
      ensures i in e && 0 <= e[i] < B
    {
      if !(j <= i < j + ys) {
        assert At(e, i) == At(d, i);
      }
    }
  }

  lemma TrialMove(quo: int, i: nat, j: nat, win: int, k: int, l: int, yc: int, low: int)
    ensures Trial(quo, i, j, win, l, yc, low) == Trial(quo, i, j, win, k, yc, low) + W(j) * ((l - k) * yc)
  {
    hide W;
    var w := W(j);
    assert w * (win + l * yc) == w * (win + k * yc) + w * ((l - k) * yc) by {
      assert win + l * yc == (win + k * yc) + (l - k) * yc;
    }
  }

  // The window on trial is below B^(ys+1): the estimate never exceeds the true digit by so
  // much that a window digit could reach B.
  lemma TrialRange(win: int, k: int, y: int, w: int)
    requires 0 < y <= w && 0 <= win < B * y && win / y <= k <= B
    ensures 0 <= win + k * (w - y) < B * w
  {
    var q := win / y;
    assert win == q * y + win % y;
    MulMono(q + 1, k + 1, y);
    assert (q + 1) * y == q * y + y && (k + 1) * y == k * y + y;
    assert k * (w - y) == k * w - k * y;
    assert 0 <= q;
    MulMono(0, k, w - y);
    if k < B {
      MulMono(k + 1, B, w);
      assert (k + 1) * w == k * w + w;
    }
  }

  // The digit above the window is below k exactly if k is too large.
  lemma TrialDigit(d: Store, t: nat, quo: int, ys: nat, j: nat, win: int, k: int, y: int, low: int)
    requires ys + j + 1 <= t && Proper(d, 0, t)
    requires 0 < y <= W(ys) && 0 <= win < B * y && win / y <= k <= B && 0 <= low < W(j)
    requires Val(d, 0, t) == Trial(quo, ys + j, j, win, k, W(ys) - y, low)
    ensures d[ys + j] < k <==> win < k * y
  {
    hide Val, W, Trial;
    var i, m := ys + j, win + k * (W(ys) - y);
    TrialRange(win, k, y, W(ys));
    assert W(i) == W(j) * W(ys) && W(i + 1) == W(j) * (B * W(ys)) by {
      WAdd(j, ys);
      WAdd(j, ys + 1);
      WTop(ys);
    }
    TrialFits(m, low, W(j), W(ys));
    TrialSplit(quo, i, j, m, low, win, k, W(ys) - y);
    assert Val(d, 0, i + 1) == W(j) * m + low by {
      ValHighLow(d, i + 1, t - i - 1, quo, W(j) * m + low);
    }
    ValTop(d, 0, i);
    ValBound(d, 0, i);
    TrialCompare(d[i], k, W(j), W(ys), m, low, Val(d, 0, i), win, y);
  }

  lemma TrialFits(m: int, low: int, wj: int, ws: int)
    requires 0 <= m < B * ws && 0 <= low < wj
    ensures 0 <= wj * m + low < wj * (B * ws)
  {
    MulMono(m + 1, B * ws, wj);
    MulMono(0, m, wj);
  }

  lemma TrialSplit(quo: int, i: nat, j: nat, m: int, low: int, win: int, k: int, yc: int)
    requires m == win + k * yc
    ensures Trial(quo, i, j, win, k, yc, low) == quo * W(i + 1) + (W(j) * m + low)
  {}

  lemma TrialCompare(top: int, k: int, wj: int, ws: int, m: int, low: int, rest: int, win: int, y: int)
    requires 0 < wj && 0 < ws && 0 <= low < wj && 0 <= rest < wj * ws
    requires rest + top * (wj * ws) == wj * m + low && m == win + k * (ws - y)
    ensures top < k <==> win < k * y
  {
    assert k * (ws - y) == k * ws - k * y;
    assert wj * (k * ws) == k * (wj * ws);
    if win < k * y {
      MulMono(m, k * ws - 1, wj);
      assert wj * (k * ws - 1) == wj * (k * ws) - wj;
      MulStrict(top, k, wj * ws);
    } else {
      MulMono(k * ws, m, wj);
      assert (top + 1) * (wj * ws) == top * (wj * ws) + wj * ws;
      MulStrict(k, top + 1, wj * ws);
    }
  }

  // Once k is the true digit, digit ys + j of the running value is k and the remainder is
  // below y * B^j.
  lemma DigitDone(v: int, y: int, ys: nat, j: nat, quo: int, win: int, k: int, low: int, x: int)
    requires 0 <= quo && 0 <= k && 0 <= win - k * y < y && 0 <= low < W(j)
    requires v == Trial(quo, ys + j, j, win, k, W(ys) - y, low)
    requires x == quo * (y * W(j + 1)) + (W(j) * win + low)
    ensures Partial(v, y, ys, j, quo * B + k, x)
  {
    hide W;
    WAdd(ys, j);
    WTop(j);
    WTop(ys + j);
    DigitFactor(v, y, quo, k, win, low, W(j), W(ys));
    DigitBound(win - k * y, y, low, W(j));
    assert x == (quo * B + k) * (y * W(j)) + (W(j) * (win - k * y) + low) by {
      DigitTotal(y, quo, k, win, W(j));
    }
    assert W(ys + j) == W(ys) * W(j);
    assert v - (quo * B + k) * W(ys + j) == W(j) * (win - k * y) + low;
  }

  lemma DigitFactor(v: int, y: int, quo: int, k: int, win: int, low: int, wj: int, ws: int)
    requires v == quo * (B * (ws * wj)) + wj * (win + k * (ws - y)) + low
    ensures v == (quo * B + k) * (ws * wj) + (wj * (win - k * y) + low)
  {
    assert k * (ws - y) == k * ws - k * y;
    assert wj * (win + k * ws - k * y) == wj * (win - k * y) + wj * (k * ws);
    assert wj * (k * ws) == k * (ws * wj);
    assert quo * (B * (ws * wj)) == (quo * B) * (ws * wj);
    MulAdd(ws * wj, quo * B, k);
  }

  lemma DigitTotal(y: int, quo: int, k: int, win: int, wj: int)
    ensures quo * (y * (B * wj)) + wj * win == (quo * B + k) * (y * wj) + wj * (win - k * y)
  {
    assert quo * (y * (B * wj)) == (quo * B) * (y * wj);
    MulAdd(y * wj, quo * B, k);
    MulDiff(wj, win, k * y);
    assert k * (y * wj) == wj * (k * y);
  }

  lemma DigitBound(m: int, y: int, low: int, wj: int)
    requires 0 <= m < y && 0 <= low < wj
    ensures 0 <= wj * m + low < y * wj
  {
    MulMono(m + 1, y, wj);
    MulMono(0, m, wj);
  }

  // A clamped non-negative number that is at least B^n has more than n digits, and the
  // other way round.
  lemma LengthAbove(r: BigInteger, n: nat)
    requires r.Valid() && r.s == 0
    ensures W(n) <= r.Value() <==> n < r.t
  {
    NumBounds(r.d, r.t, r.s);
    if r.t <= n {
      WMono(r.t, n);
    } else {
      WMono(n, r.t - 1);
    }
  }

  lemma StaysClamped(d: Store, t: nat)
    requires Proper(d, 0, t) && 0 < t && W(t - 1) <= Val(d, 0, t)
    ensures Clamped(d, t, 0)
  {
    ValBound(d, 0, t - 1);
  }

  // The whole state while a digit is on trial.
  ghost predicate OnTrial(r: BigInteger, y: int, ys: nat, j: nat, quo: int, win: int, k: int, low: int)
    reads r
  {
    && r.Valid() && r.s == 0 && ys + j < r.t
    && 0 < y <= W(ys) && 0 <= win < B * y && win / y <= k <= B && 0 <= low < W(j)
    && r.Value() == Trial(quo, ys + j, j, win, k, W(ys) - y, low)
    && (0 < quo || W(ys) <= win) && 0 <= quo
  }

  lemma OnTrialLength(quo: int, ys: nat, j: nat, win: int, k: int, y: int, low: int)
    requires 0 <= quo && 0 <= low && 0 <= k && 0 <= win && y <= W(ys) && (0 < quo || W(ys) <= win)
    ensures W(ys + j) <= Trial(quo, ys + j, j, win, k, W(ys) - y, low)
  {
    hide W;
    var m := win + k * (W(ys) - y);
    assert 0 <= k * (W(ys) - y) by { MulMono(0, k, W(ys) - y); }
    assert 0 <= W(j) * m by { MulMono(0, m, W(j)); }
    WAdd(ys, j);
    WTop(ys + j);
    if 0 < quo {
      MulMono(1, quo, W(ys + j + 1));
    } else {
      MulMono(W(ys), m, W(j));
    }
  }

  // Take the complement off the window once more: the digit on trial goes down by one.
  method TakeBack(r: BigInteger, t: BigInteger, ys: nat, j: nat, k: int,
                  ghost y: int, ghost quo: int, ghost win: int, ghost low: int)
    requires r != t && OnTrial(r, y, ys, j, quo, win, k, low) && win < k * y
    requires t.Digital() && t.Value() == (W(ys) - y) * W(j)
    modifies r
    ensures OnTrial(r, y, ys, j, quo, win, k - 1, low)
  {
    hide Val, W, Trial, Num;
    r.SubTo(t, r);
    TrialMove(quo, ys + j, j, win, k, k - 1, W(ys) - y, low);
    assert win / y <= k - 1 by { QuotientBelow(win, y, k); }
    OnTrialLength(quo, ys, j, win, k - 1, y, low);
    SignOf(r.d, r.t, r.s);
    LengthAbove(r, ys + j);
  }

  lemma QuotientBelow(win: int, y: int, k: int)
    requires 0 < y && 0 <= win < k * y
    ensures 0 <= win / y <= k - 1
  {
    MulStrict(win / y, k, y);
  }

  // Replace the window's digits by those of the trial with the estimated digit.
  method TryDigit(r: BigInteger, y: BigInteger, ys: nat, j: nat, qd: int,
                  ghost div: int, ghost quo: int, ghost low: int)
    requires r != y && r.Valid() && r.s == 0 && ys + j < r.t
    requires y.Digital() && y.t == ys && y.s == 0 && y.Value() == W(ys) - div && 0 < div <= W(ys)
    requires Val(r.d, j, ys + 1) / div <= qd <= B && Val(r.d, j, ys + 1) < B * div
    requires 0 <= low < W(j) && 0 <= quo && (0 < quo || W(ys) <= Val(r.d, j, ys + 1))
    requires r.Value() == Trial(quo, ys + j, j, Val(r.d, j, ys + 1), 0, W(ys) - div, low)
    modifies r`d
    ensures OnTrial(r, div, ys, j, quo, Val(old(r.d), j, ys + 1), qd, low)
  {
    hide Val, W, Trial;
    ghost var d0, t0 := r.d, r.t;
    ghost var win := Val(d0, j, ys + 1);
    ValBound(d0, j, ys + 1);
    assert 0 <= qd by { DivNonNeg(win, div); }
    LengthAbove(r, t0 - 1);
    NumPositive(y.d, ys);
    NumPositive(r.d, r.t);
    var top := r.d[ys + j];
    var c := y.Am(0, qd, r, j, 0, ys);
    TrialStart(d0, r.d, t0, quo, ys, j, qd, div, low, c);
    r.d := r.d[ys + j := top + c];
    NumPositive(r.d, r.t);
    TrialMove(quo, ys + j, j, win, 0, qd, W(ys) - div, low);
    TrialGrows(W(j), qd, W(ys) - div);
    StaysClamped(r.d, r.t);
  }

  lemma DivNonNeg(a: int, b: int)
    requires 0 <= a && 0 < b
    ensures 0 <= a / b
  {}

  lemma TrialGrows(w: int, k: int, yc: int)
    requires 0 < w && 0 <= k && 0 <= yc
    ensures 0 <= w * ((k - 0) * yc)
  {
    MulMono(0, k, yc);
    MulMono(0, (k - 0) * yc, w);
  }

  // The estimate of the digit on the window, never below the true digit.
  method GuessDigit(r: BigInteger, ys: nat, j: nat, y0: int, yt: int,
                    ghost div: int, ghost quo: int, ghost x: int) returns (qd: int)
    requires r.Valid() && r.s == 0 && (0 < quo || r.t == ys + j + 1)
    requires div <= W(ys) && Leading(div, ys, y0, yt) && Partial(r.Value(), div, ys, j + 1, quo, x)
    ensures ys + j < r.t && 0 < div && 0 <= quo
    ensures var win := Val(r.d, j, ys + 1);
      && 0 <= win < B * div && win / div <= qd <= B && (0 < quo || W(ys) <= win)
  {
    hide Val, W, Partial, LeadingBits, Estimate;
    NumPositive(r.d, r.t);
    PartialLength(r, div, ys, j, quo, x);
    Window(r.d, r.t, div, ys, j, quo, x);
    WindowLead(r.d, ys, j);
    WindowFirst(r.d, r.t, ys, j, quo);
    LeadingDivisor(div, ys, y0);
    ghost var y1 :| 0 <= y1 < B && yt == LeadingBits(y0, y1);
    LeadingRange(y0, y1);
    var i := ys + j;
    qd := Estimate(r.d[i], r.d[i - 1], y0, yt);
    EstimateBounds(Val(r.d, j, ys + 1), div, W(ys - 1), r.d[i], r.d[i - 1], y0, y1);
  }

  // Bring an estimate that is too large down to the true digit.
  method CorrectDigit(r: BigInteger, y: BigInteger, t: BigInteger, ys: nat, j: nat, guess: int,
                      ghost div: int, ghost quo: int, ghost win: int, ghost low: int) returns (qd: int)
    requires r != y && r != t && y != t && OnTrial(r, div, ys, j, quo, win, guess, low)
    requires y.Digital() && y.Value() == W(ys) - div
    modifies r, t
    ensures OnTrial(r, div, ys, j, quo, win, qd, low) && qd * div <= win
  {
    hide Val, W, Trial, OnTrial;
    var i := ys + j;
    qd := guess;
    TrialCheck(r, ys, j, quo, win, qd, div, low);
    if r.d[i] < qd {
      y.DLShiftTo(j, t);
      TrialCheck(r, ys, j, quo, win, qd, div, low);
      TakeBack(r, t, ys, j, qd, div, quo, win, low);
      qd := qd - 1;
      TrialCheck(r, ys, j, quo, win, qd, div, low);
      while r.d[i] < qd
        invariant OnTrial(r, div, ys, j, quo, win, qd, low)
        invariant i in r.d && 0 <= qd && (r.d[i] < qd <==> win < qd * div)
        decreases qd
        modifies r
      {
        TakeBack(r, t, ys, j, qd, div, quo, win, low);
        qd := qd - 1;
        TrialCheck(r, ys, j, quo, win, qd, div, low);
      }
    }
  }

  lemma TrialCheck(r: BigInteger, ys: nat, j: nat, quo: int, win: int, k: int, y: int, low: int)
    requires OnTrial(r, y, ys, j, quo, win, k, low)
    ensures ys + j in r.d && 0 <= k && (r.d[ys + j] < k <==> win < k * y)
  {
    NumPositive(r.d, r.t);
    DivNonNeg(win, y);
    TrialDigit(r.d, r.t, quo, ys, j, win, k, y, low);
  }

  // One pass of the division loop: the digit is estimated, tried out and corrected.
  method QuotientDigit(r: BigInteger, y: BigInteger, t: BigInteger, ys: nat, j: nat, y0: int, yt: int,
                       ghost div: int, ghost quo: int, ghost x: int) returns (ghost quo': int)
    requires r != y && r != t && y != t
    requires r.Valid() && r.s == 0 && (0 < quo || r.t == ys + j + 1)
    requires y.Digital() && y.t == ys && y.s == 0 && y.Value() == W(ys) - div && div <= W(ys)
    requires Leading(div, ys, y0, yt) && Partial(r.Value(), div, ys, j + 1, quo, x)
    modifies r, t
    ensures r.Valid() && r.s == 0 && 0 < quo' && ys + j < r.t
    ensures Partial(r.Value(), div, ys, j, quo', x)
  {
    hide Val, W, Trial, Num, Partial, Leading;
    var qd := GuessDigit(r, ys, j, y0, yt, div, quo, x);
    ghost var win, low := Val(r.d, j, ys + 1), Val(r.d, 0, j);
    NumPositive(r.d, r.t);
    Window(r.d, r.t, div, ys, j, quo, x);
    TryDigit(r, y, ys, j, qd, div, quo, low);
    qd := CorrectDigit(r, y, t, ys, j, qd, div, quo, win, low);
    quo' := quo * B + qd;
    TrueDigit(win, div, qd);
    DigitDone(r.Value(), div, ys, j, quo, win, qd, low, x);
    FirstDigit(quo, qd, win, div, W(ys));
  }

  lemma TrueDigit(win: int, y: int, k: int)
    requires 0 < y && 0 <= win && k * y <= win && win / y <= k
    ensures 0 <= k && 0 <= win - k * y < y
  {
    var q := win / y;
    assert win == q * y + win % y;
    assert (q + 1) * y == q * y + y;
    MulStrict(k, q + 1, y);
  }

  lemma FirstDigit(quo: int, k: int, win: int, y: int, w: int)
    requires 0 <= quo && 0 <= k && (0 < quo || w <= win) && 0 < y <= w && 0 <= win - k * y < y
    ensures 0 < quo * B + k
  {}

  lemma LeadingDivisor(y: int, ys: nat, y0: int)
    requires 0 < ys && 0 < y0 && y0 * W(ys - 1) <= y
    ensures 0 < y
  {
    MulMono(1, y0, W(ys - 1));
  }

  lemma PartialLength(r: BigInteger, y: int, ys: nat, j: nat, quo: int, x: int)
    requires r.Valid() && r.s == 0 && (0 < quo || r.t == ys + j + 1)
    requires Partial(r.Value(), y, ys, j + 1, quo, x)
    ensures ys + j < r.t && 0 <= quo
  {
    if 0 < quo {
      MulMono(1, quo, W(ys + j + 1));
      LengthAbove(r, ys + j + 1);
    }
  }

  lemma WindowFirst(d: Store, t: nat, ys: nat, j: nat, quo: int)
    requires 0 < quo || (t == ys + j + 1 && Clamped(d, t, 0))
    requires Proper(d, 0, t) && ys + j < t
    ensures 0 < quo || W(ys) <= Val(d, j, ys + 1)
  {
    if quo <= 0 {
      ValBound(d, j, ys);
      MulMono(1, d[ys + j], W(ys));
    }
  }

  /* ---------- the whole division ---------- */

  // Shifting the divisor left by nsh bits fills its top digit.
  lemma NormalBounds(d: Store, t: nat, b: nat)
    requires 0 < t && Proper(d, 0, t) && 0 < b <= 28 && Two(b - 1) <= d[t - 1] < Two(b)
    ensures 0x800_0000 * W(t - 1) <= Val(d, 0, t) * Two(28 - b) < W(t)
  {
    hide Val, W, Two;
    var p, w, x := Two(28 - b), W(t - 1), d[t - 1];
    assert Two(b) * p == B && Two(b - 1) * p == 0x800_0000 by {
      TwoDigit();
      TwoAdd(b, 28 - b);
      TwoTop(b - 1);
      TwoAdd(b - 1, 28 - b);
    }
    ValTop(d, 0, t - 1);
    ValBound(d, 0, t - 1);
    WTop(t - 1);
    NormalFactor(Val(d, 0, t - 1), x, w, p, Two(b), Two(b - 1));
  }

  lemma NormalFactor(v: int, x: int, w: int, p: int, hi: int, lo: int)
    requires 0 <= v < w && lo <= x < hi && 0 < p && hi * p == B && lo * p == 0x800_0000
    ensures 0x800_0000 * w <= (v + x * w) * p < B * w
  {
    MulAdd(w, x, 1);
    assert lo * w <= v + x * w < hi * w by {
      MulMono(lo, x, w);
      MulMono(x + 1, hi, w);
    }
    NormalScale(v + x * w, lo, w, p);
    NormalScale(v + x * w, hi, w, p);
  }

  lemma NormalScale(v: int, x: int, w: int, p: int)
    requires 0 < p
    ensures v < x * w ==> v * p < (x * p) * w
    ensures x * w <= v ==> (x * p) * w <= v * p
  {
    assert (x * w) * p == (x * p) * w;
    if v < x * w {
      MulMono(v + 1, x * w, p);
    } else {
      MulMono(x * w, v, p);
    }
  }

  // The leading digits of a normalised divisor.
  lemma NormalLeading(y: BigInteger, n: nat)
    requires y.Valid() && 0 < n && 0x800_0000 * W(n - 1) <= y.Value() < W(n)
    ensures y.s == 0 && y.t == n
    ensures Leading(y.Value(), n, y.d[n - 1], LeadingBits(y.d[n - 1], if n > 1 then y.d[n - 2] else 0))
    ensures W(n) <= 2 * y.Value()
  {
    hide Val, W, Num;
    SignOf(y.d, y.t, y.s);
    LengthAbove(y, n - 1);
    LengthAbove(y, n);
    NumPositive(y.d, n);
    ValTop(y.d, 0, n - 1);
    ValBound(y.d, 0, n - 1);
    WTop(n - 1);
    var y0, w := y.d[n - 1], W(n - 1);
    MulAdd(w, y0, 1);
    assert 0x800_0000 <= y0 by {
      MulStrict(0x800_0000, y0 + 1, w);
    }
    LeadingLow(y.d, n);
  }

  lemma LeadingLow(d: Store, n: nat)
    requires 0 < n && Proper(d, 0, n)
    ensures LeadingBits(d[n - 1], if n > 1 then d[n - 2] else 0) * W(n - 1) <= 0x100_0000 * Val(d, 0, n)
  {
    hide Val, W;
    var y0, y1 := d[n - 1], if n > 1 then d[n - 2] else 0;
    ValTop(d, 0, n - 1);
    ValBound(d, 0, n - 1);
    if n > 1 {
      ValTop(d, 0, n - 2);
      ValBound(d, 0, n - 2);
      WTop(n - 2);
      LeadingFactor(y0, y1, Val(d, 0, n - 2), W(n - 2));
    } else {
      assert (y0 * 0x100_0000) * W(n - 1) == 0x100_0000 * (y0 * W(n - 1));
    }
  }

  lemma LeadingFactor(y0: int, y1: int, v: int, w: int)
    requires 0 <= v && 0 <= w && 0 <= y1
    ensures LeadingBits(y0, y1) * (B * w) <= 0x100_0000 * (v + y1 * w + y0 * (B * w))
  {
    var h := y1 / 0x10;
    MulMono(h * 0x10, y1, w);
    MulAdd(B * w, y0 * 0x100_0000, h);
    assert (y0 * 0x100_0000) * (B * w) == 0x100_0000 * (y0 * (B * w));
    assert h * (B * w) == 0x100_0000 * ((h * 0x10) * w);
  }

  // Before the loop: the leading 1 of the quotient, if there is one, is taken off.
  lemma Aligned(x: int, y: int, ys: nat, j: nat)
    requires 0 <= x < W(ys + j) && W(ys) <= 2 * y
    ensures y * W(j) <= x ==> Partial(x - y * W(j) + W(ys + j), y, ys, j, 1, x)
    ensures x < y * W(j) ==> Partial(x, y, ys, j, 0, x)
  {
    hide W;
    WAdd(ys, j);
    MulMono(W(ys), 2 * y, W(j));
    assert (2 * y) * W(j) == 2 * (y * W(j));
  }

  lemma PartialEnd(v: int, y: int, ys: nat, quo: int, x: int)
    requires Partial(v, y, ys, 0, quo, x) && y <= W(ys)
    ensures 0 <= quo && v == quo * W(ys) + (x - quo * y) && 0 <= x - quo * y < y
    ensures v / W(ys) == quo
  {
    assert W(0) == 1 && y * 1 == y;
    assert y * W(0) == y;
    DivModUnique(v, W(ys), quo, x - quo * y);
  }

  lemma Denormalise(x: int, y: int, p: int, quo: int)
    requires 0 < p && 0 <= x * p - quo * (y * p) < y * p
    ensures 0 < y && x / y == quo && (x * p - quo * (y * p)) / p == x % y
  {
    var r := x - quo * y;
    assert x * p - quo * (y * p) == r * p by {
      assert quo * (y * p) == (quo * y) * p;
    }
    MulStrict(r, y, p);
    assert 0 <= r by {
      MulStrict(-1, r, p);
    }
    DivModUnique(x, y, quo, r);
    DivModUnique(r * p, p, r, 0);
  }

  method DivideLoop(r: BigInteger, y: BigInteger, t: BigInteger, ys: nat, j0: nat, y0: int, yt: int,
                    ghost div: int, ghost quo0: int, ghost x: int) returns (ghost quo: int)
    requires r != y && r != t && y != t
    requires r.Valid() && r.s == 0 && (0 < quo0 || r.t == ys + j0)
    requires y.Digital() && y.t == ys && y.s == 0 && y.Value() == W(ys) - div && div <= W(ys)
    requires Leading(div, ys, y0, yt) && Partial(r.Value(), div, ys, j0, quo0, x)
    modifies r, t
    ensures r.Valid() && r.s == 0 && (0 < quo || r.t == ys)
    ensures Partial(r.Value(), div, ys, 0, quo, x)
  {
    hide Val, W, Num, Partial, Leading;
    var j := j0;
    quo := quo0;
    while j > 0
      invariant r.Valid() && r.s == 0 && (0 < quo || r.t == ys + j)
      invariant Partial(r.Value(), div, ys, j, quo, x)
    {
      j := j - 1;
      quo := QuotientDigit(r, y, t, ys, j, y0, yt, div, quo, x);
    }
  }

  // Put the first digit of the quotient in place, then turn y into its complement.
  method Align(r: BigInteger, y: BigInteger, t: BigInteger, j: nat) returns (ghost quo: int)
    requires r != y && r != t && y != t && r.Valid() && r.s == 0 && y.Valid() && y.s == 0
    requires 0 < y.t && r.t == y.t + j && W(y.t) <= 2 * y.Value()
    modifies r, y, t
    ensures r.Valid() && r.s == 0 && (0 < quo || r.t == old(y.t) + j)
    ensures Partial(r.Value(), old(y.Value()), old(y.t), j, quo, old(r.Value()))
    ensures y.Digital() && y.t == old(y.t) && y.s == 0 && y.Value() == W(y.t) - old(y.Value())
    ensures old(y.Value()) <= W(y.t)
  {
    hide Val, W, Num, Partial;
    ghost var x, div := r.Value(), y.Value();
    var ys := y.t;
    NumBounds(r.d, r.t, 0);
    NumBounds(y.d, y.t, 0);
    Aligned(x, div, ys, j);
    y.DLShiftTo(j, t);
    var c := r.CompareTo(t);
    if c >= 0 {
      TopOne(r.d, r.t);
      r.d := r.d[r.t := 1];
      r.t := r.t + 1;
      r.SubTo(t, r);
      SignOf(r.d, r.t, r.s);
      quo := 1;
    } else {
      quo := 0;
    }
    Complement(y, t);
  }

  lemma TopOne(d: Store, t: nat)
    requires Proper(d, 0, t)
    ensures Proper(d[t := 1], 0, t + 1) && Num(d[t := 1], t + 1, 0) == Num(d, t, 0) + W(t)
  {
    hide Val, W;
    ValPut(d, 0, t, 1);
  }

  // y becomes B^n - y, written with all its n digits.
  method Complement(y: BigInteger, t: BigInteger)
    requires y != t && y.Valid() && y.s == 0 && 0 < y.Value()
    modifies y, t
    ensures y.Digital() && y.t == old(y.t) && y.s == 0 && y.Value() == W(y.t) - old(y.Value())
  {
    hide Val, W, Num;
    var n := y.t;
    NumBounds(y.d, y.t, 0);
    var one := new BigInteger.FromSmall(1);
    one.DLShiftTo(n, t);
    t.SubTo(y, y);
    SignOf(y.d, y.t, y.s);
    LengthAbove(y, n);
    ghost var v := y.Value();
    while y.t < n
      invariant y.t <= n && y.Digital() && y.s == 0 && y.Value() == v
      modifies y
    {
      TopZero(y.d, y.t);
      y.d := y.d[y.t := 0];
      y.t := y.t + 1;
    }
  }

  lemma TopZero(d: Store, t: nat)
    requires Proper(d, 0, t)
    ensures Proper(d[t := 0], 0, t + 1) && Num(d[t := 0], t + 1, 0) == Num(d, t, 0)
  {
    hide Val, W;
    ValPut(d, 0, t, 0);
  }

  // Shift both numbers left so that the divisor's top digit is at least B / 2.
  method Normalise(pt: BigInteger, pm: BigInteger, r: BigInteger, y: BigInteger) returns (nsh: nat)
    requires pt.Valid() && pm.Valid() && pt.s == 0 && pm.s == 0 && 0 < pm.t <= pt.t
    requires r != pm && y != pm && y != pt && r != y
    modifies r, y
    ensures nsh < 28 && r.Valid() && y.Valid() && r.s == 0 && y.s == 0
    ensures r.Value() == old(pt.Value()) * Two(nsh) && y.Value() == old(pm.Value()) * Two(nsh)
    ensures y.t == old(pm.t) && old(pt.t) <= r.t && W(y.t) <= 2 * y.Value()
    ensures Leading(y.Value(), y.t, y.d[y.t - 1], LeadingBits(y.d[y.t - 1], if y.t > 1 then y.d[y.t - 2] else 0))
  {
    hide Val, W, Two, Num, Leading, LeadingBits;
    ghost var x, tx := pt.Value(), pt.t;
    var n := pm.t;
    TopDigitPositive(pm.d, n);
    var b := NBits(pm.d[n - 1]);
    TopBits(pm.d, n, b);
    NormalBounds(pm.d, n, b);
    NumPositive(pm.d, n);
    nsh := 28 - b;
    LengthAbove(pt, tx - 1);
    NormalGrows(x, Two(nsh), W(tx - 1));
    if nsh > 0 {
      pm.LShiftTo(nsh, y);
      pt.LShiftTo(nsh, r);
    } else {
      TwoPowers();
      pm.CopyTo(y);
      pt.CopyTo(r);
    }
    NormalLeading(y, n);
    SignOf(r.d, r.t, r.s);
    LengthAbove(r, tx - 1);
  }

  lemma TopDigitPositive(d: Store, t: nat)
    requires 0 < t && Proper(d, 0, t) && Clamped(d, t, 0)
    ensures 0 < d[t - 1] < B
  {}

  lemma NormalGrows(x: int, p: int, w: int)
    requires 0 < p && 0 < w <= x
    ensures w <= x * p
  {
    MulMono(1, p, x);
  }

  // |this| divided by |m|, for a dividend at least as long as the divisor.
  method DivideMagnitudes(pt: BigInteger, pm: BigInteger, q: BigInteger?, r: BigInteger)
    requires pt.Valid() && pm.Valid() && pt.s == 0 && pm.s == 0 && 0 < pm.t <= pt.t
    requires r != pm && q != pm && q != r && q != pt
    modifies r, if q != null then {q} else {}
    ensures r.Valid() && r.s == 0 && old(pm.Value()) > 0 && r.Value() == old(pt.Value()) % old(pm.Value())
    ensures q != null ==> q.Valid() && q.Value() == old(pt.Value()) / old(pm.Value())
  {
    hide Val, W, Two, Num, Partial, Leading, LeadingBits;
    ghost var x, m := pt.Value(), pm.Value();
    var y := new BigInteger();
    var nsh := Normalise(pt, pm, r, y);
    ghost var xn, div := r.Value(), y.Value();
    var ys := y.t;
    var y0 := y.d[ys - 1];
    var yt := LeadingBits(y0, if ys > 1 then y.d[ys - 2] else 0);
    var j := r.t - ys;
    var t: BigInteger;
    if q == null {
      t := new BigInteger();
    } else {
      t := q;
    }
    ghost var quo := Align(r, y, t, j);
    quo := DivideLoop(r, y, t, ys, j, y0, yt, div, quo, xn);
    PartialEnd(r.Value(), div, ys, quo, xn);
    Denormalise(x, m, Two(nsh), quo);
    if q != null {
      r.DRShiftTo(ys, q);
    }
    CutRemainder(r, ys, quo, xn - quo * div);
    r.t := ys;
    r.Clamp();
    if nsh > 0 {
      r.RShiftTo(nsh, r);
      RemainderSign(r, x, m);
    } else {
      TwoPowers();
    }
  }

  lemma RemainderSign(r: BigInteger, x: int, m: int)
    requires r.Valid() && 0 < m && r.Value() == x % m
    ensures r.s == 0
  {
    SignOf(r.d, r.t, r.s);
  }

  // Below the quotient's digits the running value holds the remainder.
  lemma CutRemainder(r: BigInteger, ys: nat, quo: int, rem: int)
    requires r.Valid() && r.s == 0 && (0 < quo || r.t == ys) && 0 <= quo
    requires r.Value() == quo * W(ys) + rem && 0 <= rem < W(ys)
    ensures ys <= r.t && Num(r.d, ys, 0) == rem && Proper(r.d, 0, ys)
  {
    hide Val, W;
    if 0 < quo {
      MulMono(1, quo, W(ys));
      LengthAbove(r, ys);
    }
    NumPositive(r.d, r.t);
    NumPositive(r.d, ys);
    ValHighLow(r.d, ys, r.t - ys, quo, rem);
  }

  // Division truncated toward zero: the remainder has the sign of x. Dividing by zero
  // leaves q and r as they were.
  // Quotient and remainder may each be absent.
  method DivRemTo(x: BigInteger, m: BigInteger, q: BigInteger?, r: BigInteger?)
    requires x.Valid() && m.Valid()
    requires x != m && r != m && q != m && (q != r || q == null) && q != x
    modifies (if r != null then {r} else {}) + if q != null then {q} else {}
    ensures old(m.Value()) != 0 && r != null ==>
      && r.Valid()
      && r.Value() == Truncated(old(x.Value()), Abs(old(x.Value())) % Abs(old(m.Value())))
    ensures old(m.Value()) != 0 && q != null ==>
      && q.Valid()
      && q.Value() == Truncated(old(x.Value()) * old(m.Value()), Abs(old(x.Value())) / Abs(old(m.Value())))
    ensures old(m.Value()) == 0 && r != null ==> r.d == old(r.d) && r.t == old(r.t) && r.s == old(r.s)
    ensures old(m.Value()) == 0 && q != null ==> q.d == old(q.d) && q.t == old(q.t) && q.s == old(q.s)
  {
    hide Num, Abs, Truncated;
    if r == null {
      var own := new BigInteger();
      DivideInto(x, m, q, own);
    } else {
      DivideInto(x, m, q, r);
    }
  }

  method DivideInto(x: BigInteger, m: BigInteger, q: BigInteger?, r: BigInteger)
    requires x.Valid() && m.Valid()
    requires x != m && r != m && q != m && q != r && q != x
    modifies r, if q != null then {q} else {}
    ensures old(m.Value()) != 0 ==>
      && r.Valid()
      && r.Value() == Truncated(old(x.Value()), Abs(old(x.Value())) % Abs(old(m.Value())))
    ensures old(m.Value()) != 0 && q != null ==>
      && q.Valid()
      && q.Value() == Truncated(old(x.Value()) * old(m.Value()), Abs(old(x.Value())) / Abs(old(m.Value())))
    ensures old(m.Value()) == 0 ==> r.d == old(r.d) && r.t == old(r.t) && r.s == old(r.s)
    ensures old(m.Value()) == 0 && q != null ==> q.d == old(q.d) && q.t == old(q.t) && q.s == old(q.s)
  {
    hide Num, Abs;
    ghost var xv, mv := x.Value(), m.Value();
    AbsZero(xv);
    AbsZero(mv);
    var pm := m.AbsValue();
    NoDigitsZero(pm);
    if pm.t <= 0 {
      return;
    }
    var pt := x.AbsValue();
    SignOf(x.d, x.t, x.s);
    SignOf(m.d, m.t, m.s);
    ProductSign(xv, mv);
    if pt.t < pm.t {
      ShorterIsSmaller(pt, pm);
      SmallQuotient(Abs(xv), Abs(mv));
      TruncatedAbs(xv);
      if q != null {
        q.FromInt(0);
      }
      x.CopyTo(r);
      return;
    }
    var ts, ms := x.s, m.s;
    DivideMagnitudes(pt, pm, q, r);
    var zero := new BigInteger.FromSmall(0);
    if q != null && ts != ms {
      zero.SubTo(q, q);
    }
    if ts < 0 {
      zero.SubTo(r, r);
    }
    QuotientZero(xv, mv, Abs(xv), Abs(mv));
  }

  // n with the sign of x
  function Truncated(x: int, n: int): int {
    if x < 0 then -n else n
  }

  lemma AbsZero(x: int)
    ensures Abs(x) == 0 <==> x == 0
    ensures 0 <= Abs(x)
  {}

  lemma TruncatedAbs(x: int)
    ensures Truncated(x, Abs(x)) == x
  {}

  lemma NoDigitsZero(a: BigInteger)
    requires a.Valid() && a.s == 0
    ensures a.t == 0 <==> a.Value() == 0
    ensures 0 <= a.Value()
  {
    NumBounds(a.d, a.t, a.s);
  }

  lemma ProductSign(x: int, m: int)
    requires m != 0
    ensures x * m < 0 <==> x != 0 && (x < 0) != (m < 0)
  {}

  lemma ShorterIsSmaller(a: BigInteger, b: BigInteger)
    requires a.Valid() && b.Valid() && a.s == 0 && b.s == 0 && a.t < b.t
    ensures 0 <= a.Value() < b.Value()
  {
    NoDigitsZero(a);
    LongerIsLarger(a.d, a.t, b.d, b.t, 0);
  }

  lemma SmallQuotient(a: int, b: int)
    requires 0 <= a < b
    ensures a / b == 0 && a % b == a
  {
    DivModUnique(a, b, 0, a);
  }

  lemma QuotientZero(x: int, m: int, a: int, b: int)
    requires m != 0 && a == Abs(x) && b == Abs(m)
    ensures x == 0 ==> a / b == 0
  {
    if x == 0 {
      SmallQuotient(a, b);
    }
  }

  // The remainder modulo a positive number, never negative.
  method Mod(x: BigInteger, a: BigInteger) returns (r: BigInteger)
    requires x.Valid() && a.Valid() && x != a && 0 < a.Value()
    ensures fresh(r) && r.Valid() && r.s == 0 && r.Value() == x.Value() % a.Value()
  {
    hide Num;
    r := new BigInteger();
    var y := x.AbsValue();
    DivRemTo(y, a, null, r);
    var zero := new BigInteger.FromSmall(0);
    var c := r.CompareTo(zero);
    SignOf(x.d, x.t, x.s);
    ModOfNegative(x.Value(), a.Value());
    if x.s < 0 && c > 0 {
      a.SubTo(r, r);
    }
    SignOf(r.d, r.t, r.s);
  }

  lemma ModOfNegative(x: int, a: int)
    requires 0 < a
    ensures x < 0 ==> x % a == if (-x) % a == 0 then 0 else a - (-x) % a
    ensures 0 <= x % a
  {
    if x < 0 {
      var q, r := (-x) / a, (-x) % a;
      assert -x == q * a + r;
      if r == 0 {
        assert x == (-q) * a + 0;
        DivModUnique(x, a, -q, 0);
      } else {
        assert x == (-q - 1) * a + (a - r);
        DivModUnique(x, a, -q - 1, a - r);
      }
    }
  }
}

