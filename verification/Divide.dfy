/** divRemTo: long division with an estimated quotient digit (HAC 14.20), and mod. */
module Divide {
  import opened JsNumber
  import opened Limbs
  import opened BigIntegers
  import opened Shifts
  import opened Multiply

  // F1 and F2 split the 52-bit precision of the estimate.
  function F1(): nat { 52 - DB() }

  function F2(): nat { 2 * DB() - 52 }

  /** f == 2^F1, e == 2^F2, fv == 2^(F1 + DB) == 2^52, related as the estimate needs them. */
  predicate Scale(f: int, e: int, fv: int) {
    0 < f && 1 <= e <= 256 && f * e == DV && fv == f * DV
  }

  lemma EstimateScale()
    ensures Scale(Pow2(F1()), Pow2(F2()), Pow2(F1() + DB()))
  {
    hide Pow2;
    RadixIsPow2();
    SmallPowers();
    Pow2Add(F1(), F2());
    Pow2Add(F1(), DB());
    Pow2Mono(F2(), 8);
  }

  /** yt: the top bits of the normalised divisor. */
  function TopBits(y0: int, y1: int, f: int, e: int): int
    requires e > 0
  {
    y0 * f + y1 / e
  }

  /** The quotient digit guessed from the top two limbs of the remainder, in exact arithmetic. */
  function EstimateDigit(ri: int, ri1: int, y0: int, yt: int, f: int, e: int, fv: int): int
    requires yt > 0
  {
    if ri == y0 then DV - 1
    else
      var d1 := fv as real / yt as real;
      var d2 := f as real / yt as real;
      (ri as real * d1 + (ri1 + e) as real * d2).Floor
  }

  lemma FloorOfQuotient(n: int, k: int)
    requires k > 0
    ensures (n as real / k as real).Floor == n / k
  {
    var q, m := n / k, n % k;
    assert n == k * q + m;
    var x := n as real / k as real;
    assert x == q as real + m as real / k as real by {
      assert n as real == k as real * q as real + m as real;
    }
    assert 0.0 <= m as real / k as real < 1.0;
  }

  lemma RealProduct(x: int, y: int)
    ensures x as real * y as real == (x * y) as real
  {
  }

  lemma RealSum(a: real, b: real, c: real, d: real, y: real)
    requires y > 0.0
    ensures a * (b / y) + c * (d / y) == (a * b + c * d) / y
  {
  }

  lemma Expand(f: int, x: int, b: int, z: int)
    ensures f * (x * b + z) == x * (f * b) + z * f
  {
  }

  lemma EstimateReal(x: int, z: int, f: int, g: int, y: int, n: int)
    requires y > 0 && g == f * DV && n == f * (x * DV + z)
    ensures x as real * (g as real / y as real) + z as real * (f as real / y as real) == n as real / y as real
  {
    RealSum(x as real, g as real, z as real, f as real, y as real);
    RealProduct(x, g);
    RealProduct(z, f);
    Expand(f, x, DV, z);
  }

  /** The sum of two real quotients is one integer quotient. */
  lemma EstimateIsQuotient(ri: int, ri1: int, y0: int, yt: int, f: int, e: int, fv: int, n: int)
    requires yt > 0 && ri != y0 && fv == f * DV && n == f * (ri * DV + (ri1 + e))
    ensures EstimateDigit(ri, ri1, y0, yt, f, e, fv) == n / yt
  {
    EstimateReal(ri, ri1 + e, f, fv, yt, n);
    FloorOfQuotient(n, yt);
  }

  /** A normalised divisor of ys limbs. */
  ghost predicate Normalised(y: seq<int>, ys: nat, Y: int) {
    && 0 < ys <= |y| && InRange(y, 0, ys) && Y == Seg(y, 0, ys)
    && 2 * y[ys - 1] >= DV && Y > 0
  }

  lemma NormalisedTop(y: seq<int>, ys: nat, Y: int)
    requires Normalised(y, ys, Y)
    ensures y[ys - 1] * P(ys - 1) <= Y < (y[ys - 1] + 1) * P(ys - 1)
    ensures 0 < Y < P(ys) <= 2 * Y
  {
    SegBound(y, 0, ys - 1);
    SegBound(y, 0, ys);
    assert Seg(y, 0, ys) == Seg(y, 0, ys - 1) + y[ys - 1] * P(ys - 1);
    MulLe(DV, 2 * y[ys - 1], P(ys - 1));
    MulAssoc(2, y[ys - 1], P(ys - 1));
    SignedProduct(false, y[ys - 1], 1, P(ys - 1));
  }

  lemma RemainderTop(r: seq<int>, j: nat, ys: nat, R: int)
    requires 0 < ys && j + ys < |r| && InRange(r, j, j + ys + 1) && R == Seg(r, j, j + ys + 1)
    ensures R == Seg(r, j, j + ys - 1) + P(ys - 1) * (r[j + ys] * DV + r[j + ys - 1])
    ensures 0 <= Seg(r, j, j + ys - 1) < P(ys - 1)
    ensures 0 <= r[j + ys] * DV + r[j + ys - 1]
  {
    SegSplit(r, j, j + ys - 1, j + ys + 1);
    SegTwo(r, j + ys - 1);
    SegBound(r, j, j + ys - 1);
  }

  lemma TopLimbBound(y0: int, Y: int, p: int, R: int, ri: int, ri1: int, low: int)
    requires p > 0 && 0 <= low && 0 <= ri1 && R == low + p * (ri * DV + ri1)
    requires Y < (y0 + 1) * p && R < DV * Y
    ensures ri <= y0
  {
    if ri > y0 {
      MulLe(y0 + 1, ri, p);
      MulMono(DV, Y, ri * p);
      MulSwap(p, DV, ri);
      DistributeAdd(p, ri * DV, ri1);
      MulMono(p, 0, ri1);
      assert false;
    }
  }

  lemma TopLimbs(y: seq<int>, ys: nat, Y: int, r: seq<int>, j: nat, R: int)
    requires Normalised(y, ys, Y)
    requires j + ys < |r| && InRange(r, j, j + ys + 1) && R == Seg(r, j, j + ys + 1) < DV * Y
    ensures r[j + ys] <= y[ys - 1] && 0 <= R
  {
    NormalisedTop(y, ys, Y);
    RemainderTop(r, j, ys, R);
    SegBound(r, j, j + ys + 1);
    TopLimbBound(y[ys - 1], Y, P(ys - 1), R, r[j + ys], r[j + ys - 1], Seg(r, j, j + ys - 1));
  }

  lemma QuotientSmall(R: int, Y: int)
    requires 0 < Y && 0 <= R < DV * Y
    ensures 0 <= R / Y < DV && R / Y * Y <= R < R / Y * Y + Y
  {
    assert R == Y * (R / Y) + R % Y;
    DivBounds(R, Y, DV - 1);
    DivBounds(R, Y, 0);
  }

  /** q times the divisor's top part fits in the top of the remainder. */
  lemma TopParts(q: int, Y2: int, p: int, Y: int, R: int, R2: int, low: int)
    requires 0 <= q && p > 0 && p * Y2 <= Y && q * Y <= R
    requires R == low + (DV * p) * R2 && low < DV * p
    ensures q * Y2 < (R2 + 1) * DV
  {
    MulMono(q, p * Y2, Y);
    MulSwap(q, p, Y2);
    assert p * (q * Y2) <= R;
    assert (DV * p) * R2 + DV * p == p * ((R2 + 1) * DV);
    if q * Y2 >= (R2 + 1) * DV {
      MulMono(p, (R2 + 1) * DV, q * Y2);
      assert false;
    }
  }

  lemma TopRounding(q: int, y0: int, y1: int, f: int, e: int, R2: int)
    requires 0 <= q && 0 < f && 0 < e && f * e == DV && 0 <= y1
    requires q * (y1 + DV * y0) < (R2 + 1) * DV
    ensures q * TopBits(y0, y1, f, e) <= f * (R2 + e)
  {
    var h := y1 / e;
    assert e * h <= y1;
    var t := y0 * f + h;
    RoundingScale(e, f, y0, h);
    MulMono(q, e * t, y1 + DV * y0);
    MulSwap(q, e, t);
    if q * t > f * (R2 + e) {
      MulMono(f, R2 + 1, R2 + e);
      MulMono(e, f * (R2 + 1), q * t);
      RoundingProduct(e, f, R2);
      assert false;
    }
  }

  lemma RoundingScale(e: int, f: int, y0: int, h: int)
    ensures e * (y0 * f + h) == (f * e) * y0 + e * h
  {
  }

  lemma RoundingProduct(e: int, f: int, x: int)
    ensures e * (f * (x + 1)) == (x + 1) * (f * e)
  {
  }

  lemma UndershootOne(q: int, y0: int, R2: int, f: int, e: int)
    requires q * y0 <= R2 && 0 < f && 0 < e
    ensures q * TopBits(y0, 0, f, e) <= f * (R2 + e)
  {
    MulLe(q * y0, R2 + e, f);
    DivUnique(0, e, 0, 0);
    MulAssoc(q, y0, f);
  }

  function SecondLimb(y: seq<int>, ys: nat): int
    requires 0 < ys <= |y|
  {
    if ys > 1 then y[ys - 2] else 0
  }

  lemma NeverUndershoots(y: seq<int>, ys: nat, Y: int, R: int, low: int, R2: int, q: int, f: int, e: int)
    requires Normalised(y, ys, Y) && 0 <= q && q * Y <= R
    requires R == low + P(ys - 1) * R2 && 0 <= low < P(ys - 1)
    requires 0 < f && 0 < e && f * e == DV
    ensures q * TopBits(y[ys - 1], SecondLimb(y, ys), f, e) <= f * (R2 + e)
  {
    if ys == 1 {
      SegOne(y, 0);
      assert P(0) == 1;
      UndershootOne(q, y[0], R2, f, e);
    } else {
      SegSplit(y, 0, ys - 2, ys);
      SegTwo(y, ys - 2);
      SegBound(y, 0, ys - 2);
      TopParts(q, y[ys - 2] + DV * y[ys - 1], P(ys - 2), Y, R, R2, low);
      TopRounding(q, y[ys - 1], y[ys - 2], f, e, R2);
    }
  }

  lemma TopBitsBound(y0: int, y1: int, f: int, e: int)
    requires 2 * y0 >= DV && 0 <= y1 && 0 < f && 0 < e
    ensures 0 < y0 * f <= TopBits(y0, y1, f, e)
  {
    DivBounds(y1, e, 0);
    MulLe(1, y0, f);
  }

  lemma EstimateUpper(y0: int, R2: int, f: int, e: int, yt: int)
    requires 0 < f && 0 <= e <= y0 && y0 * f <= yt
    requires R2 < y0 * DV
    ensures f * (R2 + e) < (DV + 1) * yt
  {
    MulMono(DV + 1, y0 * f, yt);
    MulSwap(DV + 1, y0, f);
    assert (DV + 1) * y0 == y0 * DV + y0;
    MulLt(R2 + e, (DV + 1) * y0, f);
  }

  /** Bounds on the rounded quotient n / yt. */
  lemma EstimateInts(y0: int, yt: int, ri: int, ri1: int, q: int, f: int, e: int, n: int)
    requires 2 * y0 >= DV && 0 < y0 * f <= yt && 0 <= ri < y0 && 0 <= ri1 < DV
    requires 0 < f && 1 <= e <= 256 && n == f * (ri * DV + ri1 + e) && q * yt <= n
    ensures q <= n / yt <= DV && (n / yt > 0 ==> ri > 0 || ri1 > 0)
  {
    MulLe(ri + 1, y0, DV);
    EstimateUpper(y0, ri * DV + ri1, f, e, yt);
    DivBounds(n, yt, q);
    DivBounds(n, yt, DV);
    if ri == 0 && ri1 == 0 {
      MulLt(e, y0, f);
      DivBounds(n, yt, 0);
    }
  }

  /** The estimate is never below the true digit, nor above DV, and is zero on two zero limbs. */
  lemma EstimateBounds(y: seq<int>, ys: nat, Y: int, r: seq<int>, j: nat, R: int, yt: int, f: int, e: int, fv: int)
    requires Normalised(y, ys, Y) && Scale(f, e, fv)
    requires j + ys < |r| && InRange(r, j, j + ys + 1) && R == Seg(r, j, j + ys + 1) < DV * Y
    requires yt == TopBits(y[ys - 1], SecondLimb(y, ys), f, e)
    ensures yt > 0 && r[j + ys] <= y[ys - 1]
    ensures var qd := EstimateDigit(r[j + ys], r[j + ys - 1], y[ys - 1], yt, f, e, fv);
            R / Y <= qd <= DV && (qd > 0 ==> r[j + ys] > 0 || r[j + ys - 1] > 0)
  {
    var y0, y1, ri, ri1, low := y[ys - 1], SecondLimb(y, ys), r[j + ys], r[j + ys - 1], Seg(r, j, j + ys - 1);
    TopLimbs(y, ys, Y, r, j, R);
    QuotientSmall(R, Y);
    TopBitsBound(y0, y1, f, e);
    if ri != y0 {
      var n := f * (ri * DV + ri1 + e);
      RemainderTop(r, j, ys, R);
      NeverUndershoots(y, ys, Y, R, low, ri * DV + ri1, R / Y, f, e);
      EstimateIsQuotient(ri, ri1, y0, yt, f, e, fv, n);
      EstimateInts(y0, yt, ri, ri1, R / Y, f, e, n);
    }
  }

  /** The array r between two quotient digits: digits from limb i up, below them a remainder whose
      top ys limbs are less than the divisor. A is the dividend. */
  ghost predicate DivState(r: seq<int>, rt: nat, n: nat, i: nat, ys: nat, Y: int, A: int) {
    && ys <= i <= rt <= n <= |r|
    && InRange(r, 0, n) && (forall k :: rt <= k < n ==> r[k] == 0)
    && (rt > 0 ==> r[rt - 1] != 0)
    && Seg(r, i - ys, i) < Y
    && A == Seg(r, 0, i) + P(i - ys) * (Y * Seg(r, i, n))
  }

  /** The array r while digit i is being tried: three parts with given values. */
  ghost predicate Trial(r: seq<int>, rt: nat, n: nat, j: nat, i: nat, L: int, M: int, H: int) {
    && j <= i < n <= |r| && rt <= n
    && InRange(r, 0, n) && (forall k :: rt <= k < n ==> r[k] == 0)
    && Seg(r, 0, j) == L && Seg(r, j, i + 1) == M && Seg(r, i + 1, n) == H
  }

  lemma TrialValue(r: seq<int>, rt: nat, n: nat, j: nat, i: nat, L: int, M: int, H: int)
    requires Trial(r, rt, n, j, i, L, M, H)
    ensures Seg(r, 0, rt) == Seg(r, 0, n) == L + P(j) * (M + P(i + 1 - j) * H)
    ensures 0 <= L < P(j) && 0 <= M < P(i + 1 - j) && 0 <= H
  {
    SegSplit(r, 0, rt, n);
    SegZero(r, rt, n);
    SegSplit(r, 0, j, n);
    SegSplit(r, j, i + 1, n);
    SegBound(r, 0, j);
    SegBound(r, j, i + 1);
    SegBound(r, i + 1, n);
  }

  lemma TrialParts(r: seq<int>, rt: nat, n: nat, j: nat, i: nat, L: int, M: int, H: int)
    requires j <= i < n <= |r| && rt <= n && InRange(r, 0, n) && (forall k :: rt <= k < n ==> r[k] == 0)
    requires Seg(r, 0, n) == L + P(j) * (M + P(i + 1 - j) * H)
    requires 0 <= L < P(j) && 0 <= M < P(i + 1 - j)
    ensures Trial(r, rt, n, j, i, L, M, H)
  {
    SegParts(r, 0, j, n, L, M + P(i + 1 - j) * H);
    SegParts(r, j, i + 1, n, M, H);
  }

  lemma SubtractPart(p: int, M: int, x: int, N: int)
    ensures p * (M + x) - N * p == p * (M - N + x)
  {
  }

  lemma SubTrialValue(r: seq<int>, rt: nat, n: nat, j: nat, i: nat, L: int, M: int, H: int, N: int)
    requires Trial(r, rt, n, j, i, L, M, H) && 0 <= N <= M
    ensures Seg(r, 0, rt) - N * P(j) == L + P(j) * (M - N + P(i + 1 - j) * H)
    ensures 0 <= Seg(r, 0, rt) - N * P(j) < P(rt)
    ensures 0 <= L < P(j) && 0 <= M < P(i + 1 - j)
  {
    TrialValue(r, rt, n, j, i, L, M, H);
    var x := P(i + 1 - j) * H;
    SubtractPart(P(j), M, x, N);
    MulLe(0, N, P(j));
    MulMono(P(i + 1 - j), 0, H);
    MulMono(P(j), 0, M - N + x);
    SegBound(r, 0, rt);
  }

  /** The trial product t, which holds N at limb j, is taken off the remainder. */
  method SubTrial(r: BigInteger, t: BigInteger, j: nat, i: nat, ghost n: nat,
                  ghost L: int, ghost M: int, ghost H: int, ghost N: int)
    requires r != t && r.s == 0 && t.Valid() && t.t <= i && t.Value() == N * P(j) && 0 <= N <= M
    requires Trial(r.d, r.t, n, j, i, L, M, H)
    modifies r
    ensures r.s == 0 && r.Canonical()
    ensures Trial(r.d, r.t, n, j, i, L, M - N, H)
  {
    ghost var R, rt := r.d, r.t;
    SubTrialValue(R, rt, n, j, i, L, M, H, N);
    ghost var v := r.Value() - N * P(j);
    ghost var top := if rt >= t.t then rt else t.t;
    PMono(rt, top);
    r.SubTo(t, r);
    SubTrialResult(R, rt, r.d, r.t, r.s, n, top, v);
    TrialParts(r.d, r.t, n, j, i, L, M - N, H);
  }

  lemma SubTrialResult(R: seq<int>, rt: nat, r: seq<int>, t: nat, s: int, n: nat, top: nat, v: int)
    requires rt <= top <= n <= |R| && (forall k :: rt <= k < n ==> R[k] == 0)
    requires Digits(r, t, s) && Num(r, t, s) == v && 0 <= v < P(top)
    requires Overwritten(r, R, t, v, top)
    ensures s == 0 && t <= n <= |r| && InRange(r, 0, n) && (forall k :: t <= k < n ==> r[k] == 0)
    ensures Seg(r, 0, n) == v
  {
    NumSign(r, t, s);
    SegSplit(r, 0, t, n);
    SegZero(r, t, n);
  }

  /** Comparing the top limb with the digit c tells whether the digit was above the true one, q. */
  lemma TrialDigit(R: int, Y: int, q: int, c: int, p: int, low: int, top: int)
    requires 0 < Y < p && q * Y <= R < q * Y + Y && 0 <= q <= c <= DV && (q < DV)
    requires 0 <= low < p && low + top * p == R + c * (p - Y)
    ensures 0 <= top < DV
    ensures top < c <==> q < c
    ensures q == c ==> top == c && low == R - c * Y < Y
    ensures q < c ==> R + c * (p - Y) >= p - Y
  {
    assert c * (p - Y) == c * p - c * Y;
    MulLe(0, q, Y);
    if q == c {
      SplitUnique(p, low, top, R - c * Y, c);
    } else {
      MulLe(q + 1, c, Y);
      assert (q + 1) * Y == q * Y + Y;
      if top >= c {
        MulLe(c, top, p);
        assert false;
      }
      MulLe(1, c, p - Y);
    }
    MulLe(0, c, p - Y);
    if top < 0 {
      MulLe(top, -1, p);
      assert false;
    }
  }

  lemma TrialTop(r: seq<int>, j: nat, i: nat, R: int, Y: int, q: int, c: int, N: int)
    requires j <= i < |r| && InRange(r, j, i) && 0 < Y && 0 < N && N == P(i - j) - Y
    requires q * Y <= R < q * Y + Y && 0 <= q <= c <= DV && q < DV
    requires Seg(r, j, i + 1) == R + c * N
    ensures 0 <= r[i] < DV
    ensures r[i] < c <==> q < c
    ensures q == c ==> r[i] == c && Seg(r, j, i) == R - c * Y < Y
    ensures q < c ==> Seg(r, j, i + 1) >= N
  {
    SegBound(r, j, i);
    TrialDigit(R, Y, q, c, P(i - j), Seg(r, j, i), r[i]);
  }

  lemma TrialDecrease(R: int, c: int, N: int)
    ensures R + c * N - N == R + (c - 1) * N
  {
  }

  /** The digit was too big: take the divisor back until the top limb agrees with the digit. */
  method Repair(y: BigInteger, r: BigInteger, t: BigInteger, j: nat, i: nat, qd0: int, ghost n: nat,
                ghost R: int, ghost Y: int, ghost N: int, ghost q: int, ghost L: int, ghost H: int)
    requires r != t && r != y && t != y && r.s == 0 && y.Valid() && y.s == 0 && i == j + y.t
    requires 0 < Y && 0 < N && N == P(i - j) - Y && y.Value() == N
    requires q * Y <= R < q * Y + Y && 0 <= q <= qd0 <= DV && q < DV
    requires Trial(r.d, r.t, n, j, i, L, R + qd0 * N, H) && r.d[i] < qd0
    modifies r, t
    ensures r.s == 0 && r.Canonical()
    ensures Trial(r.d, r.t, n, j, i, L, R + q * N, H)
    ensures unchanged(y)
  {
    y.DLShiftTo(j, t);
    TrialTop(r.d, j, i, R, Y, q, qd0, N);
    SubTrial(r, t, j, i, n, L, R + qd0 * N, H, N);
    TrialDecrease(R, qd0, N);
    var qd := qd0 - 1;
    TrialTop(r.d, j, i, R, Y, q, qd, N);
    while r.d[i] < qd
      invariant r.s == 0 && r.Canonical() && q <= qd <= DV
      invariant t.Valid() && t.t <= i && t.Value() == N * P(j) && unchanged(y)
      invariant Trial(r.d, r.t, n, j, i, L, R + qd * N, H)
      invariant r.d[i] < qd <==> q < qd
      invariant q < qd ==> R + qd * N >= N
      decreases qd
    {
      SubTrial(r, t, j, i, n, L, R + qd * N, H, N);
      TrialDecrease(R, qd, N);
      qd := qd - 1;
      TrialTop(r.d, j, i, R, Y, q, qd, N);
    }
  }

  /** The part of r the next digit is taken from. */
  lemma StepRemainder(r: seq<int>, rt: nat, n: nat, i: nat, ys: nat, Y: int, A: int) returns (R: int, L: int, H: int,
                      q: int)
    requires 0 < ys <= i && 0 < Y && DivState(r, rt, n, i + 1, ys, Y, A)
    ensures R == Seg(r, i - ys, i + 1) && L == Seg(r, 0, i - ys) && H == Seg(r, i + 1, n)
    ensures 0 <= R < DV * Y && 0 <= L < P(i - ys) && q == R / Y
    ensures q * Y <= R < q * Y + Y && 0 <= q < DV
  {
    var j := i - ys;
    R, L, H := Seg(r, j, i + 1), Seg(r, 0, j), Seg(r, i + 1, n);
    SegLow(r, j, i + 1);
    SegBound(r, j, i + 1);
    SegBound(r, 0, j);
    MulMono(DV, Seg(r, j + 1, i + 1) + 1, Y);
    QuotientSmall(R, Y);
    q := R / Y;
  }

  /** The multiply-accumulate with the complement of the divisor leaves R + qd * N in place of R. */
  lemma StepTrial(r: seq<int>, rt: nat, n: nat, j: nat, i: nat, y: seq<int>, qd: int, mid: seq<int>, co: int,
                  after: seq<int>, R: int, Y: int, N: int, q: int, L: int, H: int)
    requires j < i < rt <= n <= |r| && InRange(r, 0, n) && (forall k :: rt <= k < n ==> r[k] == 0)
    requires AmDone(y, 0, qd, r, j, 0, i - j, mid, co)
    requires after == mid[i := mid[i] + co]
    requires Seg(y, 0, i - j) == N == P(i - j) - Y && 0 < Y && 0 < N
    requires R == Seg(r, j, i + 1) && L == Seg(r, 0, j) && H == Seg(r, i + 1, n)
    requires q * Y <= R < q * Y + Y && 0 <= q <= qd <= DV && q < DV
    ensures Trial(after, rt, n, j, i, L, R + qd * N, H)
    ensures after[i] < qd <==> q < qd
    ensures forall k :: i < k < n ==> after[k] == r[k]
  {
    SegFrame(after, r, 0, j);
    SegFrame(after, r, i + 1, n);
    SegFrame(after, mid, j, i);
    assert mid[i] == r[i];
    SignedProduct(false, r[i], co, P(i - j));
    TrialTop(after, j, i, R, Y, q, qd, N);
  }

  lemma StepEquation(L: int, R: int, p: int, Y: int, H: int, q: int)
    ensures L + p * R + (DV * p) * (Y * H) == L + p * (R - q * Y) + p * (Y * (q + DV * H))
  {
    assert (DV * p) * (Y * H) == p * (Y * (DV * H));
    assert Y * (q + DV * H) == q * Y + Y * (DV * H);
    assert p * (R - q * Y) == p * R - p * (q * Y);
    assert p * (q * Y + Y * (DV * H)) == p * (q * Y) + p * (Y * (DV * H));
  }

  /** The digit is in place: the invariant holds one limb further down. */
  lemma StepDone(r0: seq<int>, rt0: nat, r: seq<int>, rt: nat, n: nat, i: nat, ys: nat, Y: int, A: int,
                 R: int, L: int, H: int, q: int, N: int)
    requires 0 < ys <= i && 0 < Y < P(ys) && N == P(ys) - Y && DivState(r0, rt0, n, i + 1, ys, Y, A)
    requires R == Seg(r0, i - ys, i + 1) && L == Seg(r0, 0, i - ys) && H == Seg(r0, i + 1, n)
    requires q * Y <= R < q * Y + Y && 0 <= q < DV
    requires Trial(r, rt, n, i - ys, i, L, R + q * N, H)
    requires i <= rt && (rt > 0 ==> r[rt - 1] != 0)
    ensures DivState(r, rt, n, i, ys, Y, A)
    ensures r[i] == q
  {
    var j := i - ys;
    TrialTop(r, j, i, R, Y, q, q, N);
    SegSplit(r0, 0, j, i + 1);
    SegSplit(r, 0, j, i);
    SegLow(r, i, n);
    StepEquation(L, R, P(j), Y, H, q);
    assert P(j + 1) == DV * P(j);
  }

  /** A repaired digit that comes out as zero still leaves the remainder reaching up to limb i - 1. */
  lemma RepairKeepsLength(r0: seq<int>, r: seq<int>, rt: nat, n: nat, j: nat, i: nat, R: int, q: int, N: int, L: int,
                          H: int)
    requires j < i && Trial(r, rt, n, j, i, L, R + q * N, H) && q >= 0
    requires q > 0 ==> r[i] == q
    requires i < |r0| && InRange(r0, j, i + 1) && R == Seg(r0, j, i + 1)
    requires r0[i] > 0 || r0[i - 1] > 0
    ensures i <= rt
  {
    if rt < i {
      assert r[i] == 0 && r[i - 1] == 0;
      assert q == 0 && q * N == 0;
      TopTwoZero(r0, r, j, i);
    }
  }

  /** Equal numbers have equal top limbs. */
  lemma TopTwoZero(r0: seq<int>, r: seq<int>, j: nat, i: nat)
    requires j < i < |r0| && i < |r| && InRange(r0, j, i + 1) && InRange(r, j, i + 1)
    requires Seg(r0, j, i + 1) == Seg(r, j, i + 1) && r[i] == 0 && r[i - 1] == 0
    ensures r0[i] == 0 && r0[i - 1] == 0
  {
    SegSplit(r, j, i - 1, i + 1);
    SegTwo(r, i - 1);
    SegTwo(r0, i - 1);
    SegBound(r, j, i - 1);
    SegParts(r0, j, i - 1, i + 1, Seg(r, j, i - 1), 0);
  }

  /** A dividend part with a non-zero top limb has a non-zero digit. */
  lemma FirstDigit(r: seq<int>, j: nat, i: nat, R: int, Y: int, q: int)
    requires j < i < |r| && InRange(r, j, i + 1) && R == Seg(r, j, i + 1) && r[i] != 0
    requires 0 < Y < P(i - j) && R < q * Y + Y
    ensures q > 0
  {
    SegTop(r, j, i + 1);
    if q <= 0 {
      MulLe(q, 0, Y);
    }
  }

  /** The constants of the estimate for a normalised divisor. */
  ghost predicate EstimatorFor(y: seq<int>, ys: nat, Y: int, y0: int, yt: int, f: int, e: int, fv: int) {
    && Normalised(y, ys, Y) && Scale(f, e, fv)
    && y0 == y[ys - 1] && yt == TopBits(y0, SecondLimb(y, ys), f, e) && yt > 0
  }

  /** One turn of the quotient loop: estimate, try, repair. */
  method DivStep(y: BigInteger, r: BigInteger, t: BigInteger, i0: nat, y0: int, yt: int, f: int, e: int, fv: int,
                 ghost yn: seq<int>, ghost n: nat, ghost Y: int, ghost A: int) returns (i: nat)
    requires r != t && r != y && t != y && y.Valid() && y.s == 0 && 0 < y.t < i0
    requires EstimatorFor(yn, y.t, Y, y0, yt, f, e, fv) && y.Value() == P(y.t) - Y
    requires r.s == 0 && DivState(r.d, r.t, n, i0, y.t, Y, A)
    modifies r, t
    ensures unchanged(y)
    ensures i == i0 - 1 && r.s == 0 && DivState(r.d, r.t, n, i, y.t, Y, A)
  {
    hide P, Seg;
    i := i0 - 1;
    var j := i - y.t;
    ghost var r0, rt0, ys := r.d, r.t, y.t;
    ghost var N := P(ys) - Y;
    ghost var R, L, H, q := StepRemainder(r0, rt0, n, i, ys, Y, A);
    NormalisedTop(yn, ys, Y);
    EstimateBounds(yn, ys, Y, r0, j, R, yt, f, e, fv);
    var qd := EstimateDigit(r.d[i], r.d[i - 1], y0, yt, f, e, fv);
    var co := Am(y, 0, qd, r, j, 0, y.t);
    ghost var mid := r.d;
    r.d := r.d[i := r.d[i] + co];
    StepTrial(r0, rt0, n, j, i, y.d, qd, mid, co, r.d, R, Y, N, q, L, H);
    if r.d[i] < qd {
      Repair(y, r, t, j, i, qd, n, R, Y, N, q, L, H);
      StepRepaired(r0, rt0, r.d, r.t, n, i, ys, Y, A, R, L, H, q, N);
    } else {
      StepExact(r0, rt0, r.d, n, i, ys, Y, A, R, L, H, q, N);
    }
  }

  lemma StepRepaired(r0: seq<int>, rt0: nat, r: seq<int>, rt: nat, n: nat, i: nat, ys: nat, Y: int, A: int,
                     R: int, L: int, H: int, q: int, N: int)
    requires 0 < ys <= i && 0 < Y < P(ys) && N == P(ys) - Y && DivState(r0, rt0, n, i + 1, ys, Y, A)
    requires R == Seg(r0, i - ys, i + 1) && L == Seg(r0, 0, i - ys) && H == Seg(r0, i + 1, n)
    requires q * Y <= R < q * Y + Y && 0 <= q < DV
    requires Trial(r, rt, n, i - ys, i, L, R + q * N, H) && Clamped(r, rt, 0)
    requires r0[i] > 0 || r0[i - 1] > 0
    ensures DivState(r, rt, n, i, ys, Y, A)
  {
    TrialTop(r, i - ys, i, R, Y, q, q, N);
    RepairKeepsLength(r0, r, rt, n, i - ys, i, R, q, N, L, H);
    StepDone(r0, rt0, r, rt, n, i, ys, Y, A, R, L, H, q, N);
  }

  lemma StepExact(r0: seq<int>, rt0: nat, r: seq<int>, n: nat, i: nat, ys: nat, Y: int, A: int,
                  R: int, L: int, H: int, q: int, N: int)
    requires 0 < ys <= i && 0 < Y < P(ys) && N == P(ys) - Y && DivState(r0, rt0, n, i + 1, ys, Y, A)
    requires R == Seg(r0, i - ys, i + 1) && L == Seg(r0, 0, i - ys) && H == Seg(r0, i + 1, n)
    requires q * Y <= R < q * Y + Y && 0 <= q < DV
    requires Trial(r, rt0, n, i - ys, i, L, R + q * N, H) && forall k :: i < k < n ==> r[k] == r0[k]
    ensures DivState(r, rt0, n, i, ys, Y, A)
  {
    TrialTop(r, i - ys, i, R, Y, q, q, N);
    if r0[i] != 0 {
      FirstDigit(r0, i - ys, i, R, Y, q);
    }
    StepDone(r0, rt0, r, rt0, n, i, ys, Y, A, R, L, H, q, N);
  }

  /** The quotient rounded towards zero, and the remainder that goes with it. */
  function TruncDiv(a: int, b: int): int
    requires b != 0
  {
    var q := AbsInt(a) / AbsInt(b);
    if (a < 0) == (b < 0) then q else -q
  }

  function TruncRem(a: int, b: int): int
    requires b != 0
  {
    var r := AbsInt(a) % AbsInt(b);
    if a < 0 then -r else r
  }

  /** What division is for: the equation, a remainder smaller than the divisor, its sign. */
  ghost predicate IsDivision(a: int, b: int, q: int, r: int) {
    && a == q * b + r
    && AbsInt(r) < AbsInt(b)
    && (r == 0 || (r < 0) == (a < 0))
  }

  /** These conditions hold of the truncated quotient and remainder and of nothing else. */
  lemma TruncLaw(a: int, b: int)
    requires b != 0
    ensures forall q, r :: IsDivision(a, b, q, r) <==> q == TruncDiv(a, b) && r == TruncRem(a, b)
  {
    TruncEquation(a, b, AbsInt(a) / AbsInt(b), AbsInt(a) % AbsInt(b));
    forall q, r | IsDivision(a, b, q, r)
      ensures q == TruncDiv(a, b) && r == TruncRem(a, b)
    {
      TruncUnique(a, b, q, r);
      DivUnique(AbsInt(a), AbsInt(b), if (a < 0) == (b < 0) then q else -q, if a < 0 then -r else r);
    }
  }

  lemma TruncUnique(a: int, b: int, q: int, r: int)
    requires a == q * b + r
    ensures AbsInt(a) == (if (a < 0) == (b < 0) then q else -q) * AbsInt(b) + (if a < 0 then -r else r)
  {
  }

  lemma TruncEquation(a: int, b: int, q: int, r: int)
    requires b != 0 && q == AbsInt(a) / AbsInt(b) && r == AbsInt(a) % AbsInt(b)
    ensures a == (if (a < 0) == (b < 0) then q else -q) * b + (if a < 0 then -r else r)
  {
  }

  /** The digit above the dividend's limbs is one or nothing; n is the number of limbs in use. */
  method FirstStep(y: BigInteger, r: BigInteger, t: BigInteger, ghost Y: int) returns (ghost n: nat)
    requires r != t && r != y && t != y && y.Valid() && y.s == 0 && y.t > 0
    requires Normalised(y.d, y.t, Y) && r.Canonical() && r.s == 0 && y.t <= r.t
    modifies r, t
    ensures unchanged(y) && r.s == 0
    ensures DivState(r.d, r.t, n, old(r.t), y.t, Y, old(r.Value()))
  {
    hide P;
    ghost var ys, i, R, A := y.t, r.t, r.d, r.Value();
    var j := r.t - y.t;
    ghost var yp := Y * P(j);
    NormalisedTop(y.d, ys, Y);
    FirstBounds(R, i, j, ys, Y, yp);
    y.DLShiftTo(j, t);
    var cmp := r.CompareTo(t);
    if cmp >= 0 {
      n := i + 1;
      FirstSubtract(r, t, A, yp);
      FirstOne(r.d, r.t, i, j, ys, Y, A, yp);
    } else {
      n := i;
      FirstNone(R, i, j, ys, Y, A, yp);
    }
  }

  /** A limb of one is set above the dividend and the divisor taken away. */
  method FirstSubtract(r: BigInteger, t: BigInteger, ghost A: int, ghost yp: int)
    requires r != t && r.Canonical() && r.s == 0 && t.Valid() && r.Value() == A && t.Value() == yp
    requires 0 <= A - yp < P(r.t) && t.t <= r.t
    modifies r
    ensures var i := old(r.t);
            && r.s == 0 && r.t <= i + 1 <= |r.d| && InRange(r.d, 0, i + 1)
            && (forall k :: r.t <= k < i + 1 ==> r.d[k] == 0) && Seg(r.d, 0, i + 1) == A - yp + P(i)
  {
    ghost var i, R := r.t, r.d;
    FirstSize(i, A - yp);
    r.d := Put(r.d, r.t, 1);
    r.t := r.t + 1;
    FirstSet(R, r.d, i);
    ghost var R1 := r.d;
    r.SubTo(t, r);
    SubTrialResult(R1, i + 1, r.d, r.t, r.s, i + 1, i + 1, A - yp + P(i));
  }

  lemma FirstSet(R: seq<int>, r: seq<int>, i: nat)
    requires i <= |R| && InRange(R, 0, i) && i < |r| && (forall k :: 0 <= k < i ==> r[k] == R[k]) && r[i] == 1
    ensures InRange(r, 0, i + 1) && Seg(r, 0, i + 1) == Seg(R, 0, i) + P(i)
  {
    SegFrame(r, R, 0, i);
  }

  lemma FirstNone(r: seq<int>, i: nat, j: nat, ys: nat, Y: int, A: int, yp: int)
    requires i == j + ys <= |r| && InRange(r, 0, i) && (i > 0 ==> r[i - 1] != 0)
    requires yp == Y * P(j) && A == Seg(r, 0, i) < yp
    ensures DivState(r, i, i, i, ys, Y, A)
  {
    FirstRest(r, i, j, A, Y, yp);
    assert Y * 0 == 0 && P(j) * 0 == 0;
  }

  lemma FirstBounds(r: seq<int>, i: nat, j: nat, ys: nat, Y: int, yp: int)
    requires i == j + ys <= |r| && InRange(r, 0, i) && 0 < Y < P(ys) <= 2 * Y && yp == Y * P(j)
    ensures 0 <= Seg(r, 0, i) < P(i)
    ensures 0 < yp < P(i) <= 2 * yp
  {
    hide Seg, P;
    SegBound(r, 0, i);
    PAdd(j, ys);
    FirstScale(P(j), P(ys), P(i), Y, yp);
  }

  lemma FirstScale(p: int, p': int, pp: int, Y: int, yp: int)
    requires 0 < p && 0 < Y < p' <= 2 * Y && pp == p * p' && yp == Y * p
    ensures 0 < yp < pp <= 2 * yp
  {
    MulLt(Y, p', p);
    MulLt(0, Y, p);
    MulLe(p', 2 * Y, p);
    MulAssoc(2, Y, p);
    Comm(p, p');
  }

  lemma FirstSize(i: nat, x: int)
    requires 0 <= x < P(i)
    ensures x + P(i) < P(i + 1)
  {
    PStrict(i, i + 1);
  }

  /** A number below Y * DV^j has its upper part below Y. */
  lemma FirstRest(r: seq<int>, i: nat, j: nat, v: int, Y: int, yp: int)
    requires j <= i <= |r| && InRange(r, 0, i) && Seg(r, 0, i) == v < yp && yp == Y * P(j)
    ensures Seg(r, j, i) < Y
  {
    SegSplit(r, 0, j, i);
    SegBound(r, 0, j);
    if Seg(r, j, i) >= Y {
      MulLe(Y, Seg(r, j, i), P(j));
      Comm(P(j), Seg(r, j, i));
    }
  }

  lemma FirstOne(r: seq<int>, rt: nat, i: nat, j: nat, ys: nat, Y: int, A: int, yp: int)
    requires i == j + ys && rt <= i + 1 <= |r| && InRange(r, 0, i + 1) && (forall k :: rt <= k < i + 1 ==> r[k] == 0)
    requires yp == Y * P(j)
    requires Seg(r, 0, i + 1) == A - yp + P(i) && 0 <= A - yp < yp < P(i)
    ensures DivState(r, rt, i + 1, i, ys, Y, A)
  {
    SegOne(r, i);
    SegParts(r, 0, i, i + 1, A - yp, 1);
    FirstRest(r, i, j, A - yp, Y, yp);
    assert r[i] == 1;
    Comm(P(j), Y);
    assert Seg(r, i, i + 1) == 1;
    assert rt == i + 1;
  }

  /** Everything divRemTo does once both magnitudes are normalised: r becomes the remainder of its
      own value by Y, and the quotient is left in the limbs above. */
  method DivLimbs(y: BigInteger, r: BigInteger, t: BigInteger, ghost Y: int)
    requires r != t && r != y && t != y && y.Canonical() && y.s == 0 && y.t > 0
    requires Normalised(y.d, y.t, Y) && r.Canonical() && r.s == 0 && y.t <= r.t
    modifies r, t, y
    ensures r.s == 0 && r.Canonical() && old(y.t) <= r.t <= |r.d|
    ensures 0 <= Seg(r.d, 0, old(y.t)) < Y
    ensures old(r.Value()) == Seg(r.d, 0, old(y.t)) + Y * Seg(r.d, old(y.t), r.t)
  {
    ghost var A, yn := r.Value(), y.d;
    var ys := y.t;
    var y0 := y.d[ys - 1];
    EstimateScale();
    var f, e, fv := Pow2(F1()), Pow2(F2()), Pow2(F1() + DB());
    var yt := TopBits(y0, SecondLimb(y.d, ys), f, e);
    TopBitsBound(y0, SecondLimb(y.d, ys), f, e);
    NormalisedTop(yn, ys, Y);
    var i := r.t;
    ghost var n := FirstStep(y, r, t, Y);
    Complement(y, t, ys, Y);
    var j := i - ys;
    while j > 0
      invariant r != t && r != y && t != y && y.Valid() && y.s == 0 && y.t == ys
      invariant y.Value() == P(ys) - Y && EstimatorFor(yn, ys, Y, y0, yt, f, e, fv)
      invariant 0 <= j && i == j + ys && r.s == 0 && DivState(r.d, r.t, n, i, ys, Y, A)
    {
      i := DivStep(y, r, t, i, y0, yt, f, e, fv, yn, n, Y, A);
      j := j - 1;
    }
    DivFinish(r.d, r.t, n, i, ys, Y, A);
  }

  /** y becomes DV^ys - y, padded to ys limbs, so that subtraction can be done by am. */
  method Complement(y: BigInteger, t: BigInteger, ys: nat, ghost Y: int)
    requires y != t && y.Valid() && y.s == 0 && y.t == ys && y.Value() == Y && 0 < Y < P(ys)
    modifies y, t
    ensures y.Valid() && y.s == 0 && y.t == ys && y.Value() == P(ys) - Y
  {
    hide P, Seg, Num;
    var one := new BigInteger.FromInt(1);
    one.DLShiftTo(ys, t);
    t.SubTo(y, y);
    SignWord(y.d, y.t, y.s);
    FewLimbs(y.d, y.t, ys);
    while y.t < ys
      invariant y.Valid() && y.s == 0 && y.t <= ys && y.Value() == P(ys) - Y
    {
      ghost var D := y.d;
      y.d := Put(y.d, y.t, 0);
      y.t := y.t + 1;
      PadZero(D, y.d, y.t - 1);
    }
  }

  lemma PadZero(before: seq<int>, d: seq<int>, t: nat)
    requires Digits(before, t, 0) && t < |d| && d[t] == 0 && forall k :: 0 <= k < t ==> d[k] == before[k]
    ensures Digits(d, t + 1, 0) && Num(d, t + 1, 0) == Num(before, t, 0)
  {
    SegFrame(d, before, 0, t);
  }

  lemma DivFinish(r: seq<int>, rt: nat, n: nat, i: nat, ys: nat, Y: int, A: int)
    requires DivState(r, rt, n, i, ys, Y, A) && i == ys
    ensures Clamped(r, rt, 0) && 0 <= Seg(r, 0, ys)
    ensures A == Seg(r, 0, ys) + Y * Seg(r, ys, rt)
  {
    SegSplit(r, ys, rt, n);
    SegZero(r, rt, n);
    SegBound(r, 0, ys);
    assert P(0) == 1;
  }

  /** Scales both operands so that the divisor's top limb has its high bit set. */
  method Normalise(pm: BigInteger, pt: BigInteger, y: BigInteger, r: BigInteger) returns (nsh: nat)
    requires pm.Canonical() && pt.Canonical() && pm.s == 0 && pt.s == 0 && 0 < pm.t <= pt.t
    requires y != r && y != pm && y != pt
    modifies y, r
    ensures y.Canonical() && y.s == 0 && y.t == old(pm.t) && r.Canonical() && r.s == 0 && y.t <= r.t
    ensures y.Value() == old(pm.Value()) * Pow2(nsh) && r.Value() == old(pt.Value()) * Pow2(nsh)
    ensures Normalised(y.d, y.t, y.Value())
  {
    ghost var M, mt, Q, qt := pm.d, pm.t, pt.d, pt.t;
    RadixIsPow2();
    NumSign(M, mt, 0);
    ClampedSize(M, mt, 0);
    ClampedSize(Q, qt, 0);
    var nb := NBits(pm.d[pm.t - 1]);
    NormalShift(M[mt - 1], nb);
    nsh := DB() - nb;
    if nsh > 0 {
      LShiftTo(pm, nsh, y);
      LShiftTo(pt, nsh, r);
    } else {
      assert Pow2(0) == 1;
      pm.CopyTo(y);
      pt.CopyTo(r);
    }
    NormalisedLimbs(M, mt, y.d, y.t, nsh);
    LongEnough(r.d, r.t, Q, qt, nsh);
  }

  lemma NormalShift(top: int, nb: nat)
    requires 0 < top < DV && 1 <= nb && Pow2(nb - 1) <= top < Pow2(nb)
    ensures nb <= DB()
    ensures DV <= 2 * (top * Pow2(DB() - nb))
    ensures (top + 1) * Pow2(DB() - nb) <= DV
  {
    RadixIsPow2();
    if nb > DB() {
      Pow2Mono(DB(), nb - 1);
      assert false;
    }
    Pow2Add(nb, DB() - nb);
    var k := Pow2(DB() - nb);
    MulLe(Pow2(nb - 1), top, k);
    MulLe(top + 1, Pow2(nb), k);
    assert Pow2(nb) == 2 * Pow2(nb - 1);
    MulAssoc(2, Pow2(nb - 1), k);
  }

  /** Shifting by nsh neither lengthens the divisor nor leaves its top limb small. */
  lemma NormalisedLimbs(M: seq<int>, mt: nat, y: seq<int>, yt: nat, nsh: nat)
    requires 0 < mt <= |M| && InRange(M, 0, mt) && Digits(y, yt, 0) && Clamped(y, yt, 0)
    requires Num(y, yt, 0) == Num(M, mt, 0) * Pow2(nsh)
    requires M[mt - 1] > 0 && DV <= 2 * (M[mt - 1] * Pow2(nsh)) && (M[mt - 1] + 1) * Pow2(nsh) <= DV
    ensures yt == mt && Normalised(y, yt, Num(y, yt, 0))
  {
    var p, k, top, v := P(mt - 1), Pow2(nsh), M[mt - 1], Num(y, yt, 0);
    SegBound(M, 0, mt - 1);
    NormalisedSize(Seg(M, 0, mt - 1), top, p, k, v);
    NumSign(y, yt, 0);
    PStrict(mt - 1, mt);
    if yt > mt {
      ClampedSize(y, yt, 0);
      PMono(mt, yt - 1);
    }
    if yt < mt {
      PMono(yt, mt - 1);
    }
    SegBound(y, 0, mt - 1);
    assert v == Seg(y, 0, mt - 1) + y[mt - 1] * p;
    TopHalf(v, Seg(y, 0, mt - 1), y[mt - 1], p);
  }

  lemma NormalisedSize(low: int, top: int, p: int, k: int, v: int)
    requires 0 <= low < p && 0 < k && 0 < top && v == (low + top * p) * k
    requires DV <= 2 * (top * k) && (top + 1) * k <= DV
    ensures DV * p <= 2 * v && v < DV * p
  {
    MulLe(top * p, low + top * p, k);
    assert (top * p) * k == (top * k) * p;
    MulLe(DV, 2 * (top * k), p);
    MulAssoc(2, top * k, p);
    MulLt(low + top * p, (top + 1) * p, k);
    assert ((top + 1) * p) * k == ((top + 1) * k) * p;
    MulLe((top + 1) * k, DV, p);
  }

  lemma TopHalf(v: int, low: int, top: int, p: int)
    requires 0 <= low < p && v == low + top * p && DV * p <= 2 * v
    ensures 2 * top >= DV
  {
    if 2 * top < DV {
      MulLe(2 * (top + 1), DV, p);
      MulAssoc(2, top + 1, p);
      assert false;
    }
  }

  lemma LongEnough(r: seq<int>, rt: nat, Q: seq<int>, qt: nat, nsh: nat)
    requires Digits(r, rt, 0) && 0 < qt <= |Q| && Num(r, rt, 0) == Num(Q, qt, 0) * Pow2(nsh)
    requires Num(Q, qt, 0) >= P(qt - 1)
    ensures qt <= rt
  {
    MulMono(Num(Q, qt, 0), 1, Pow2(nsh));
    NumSign(r, rt, 0);
    if rt < qt {
      PMono(rt, qt - 1);
    }
  }

  /** What divRemTo leaves in its optional outputs. */
  ghost predicate Divided(a: int, b: int, q: BigInteger?, r: BigInteger?)
    requires b != 0
    reads q, r
  {
    && (q != null ==> q.Canonical() && q.Value() == TruncDiv(a, b))
    && (r != null ==> r.Canonical() && r.Value() == TruncRem(a, b))
  }

  /** The dividend has fewer limbs than the divisor. */
  ghost predicate FewerLimbs(a: int, b: int) {
    exists k: nat :: AbsInt(a) < P(k) <= AbsInt(b)
  }

  lemma LimbsApart(a: int, s: nat, b: int, t: nat)
    requires t > 0 && P(t - 1) <= AbsInt(b) < P(t) && AbsInt(a) < P(s) && (s > 0 ==> P(s - 1) <= AbsInt(a))
    ensures s < t <==> FewerLimbs(a, b)
    ensures s < t ==> AbsInt(a) < AbsInt(b)
  {
    hide P, AbsInt;
    if s < t {
      PMono(s, t - 1);
      assert AbsInt(a) < P(t - 1) <= AbsInt(b);
    } else {
      forall k: nat | AbsInt(a) < P(k) ensures AbsInt(b) < P(k) {
        if k < s {
          PMono(k, s - 1);
        } else {
          PMono(t, k);
        }
      }
    }
  }

  /** The case of fewer limbs: if the quotient is the dividend, it is cleared before it is copied. */
  method DivideShort(x: BigInteger, q: BigInteger?, r: BigInteger?)
    requires x.Canonical() && (q != null ==> q != r)
    modifies q, r
    ensures q != null ==> q.Canonical() && q.Value() == 0
    ensures r != null ==> r.Canonical() && r.Value() == if q == x then 0 else old(x.Value())
  {
    if q != null {
      q.SetInt(0);
    }
    if r != null {
      x.CopyTo(r);
    }
  }

  /** divRemTo: x / m to q and the remainder to r, either of which may be missing. Either may overwrite
      the dividend or the divisor; division by zero writes nothing. Only where the quotient overwrites a
      dividend of fewer limbs than the divisor is the remainder lost. */
  method DivRemTo(x: BigInteger, m: BigInteger, q: BigInteger?, r: BigInteger?)
    requires x.Canonical() && m.Canonical()
    requires q != null ==> q != r
    modifies q, r
    ensures old(m.Value()) == 0 ==> (q != null ==> unchanged(q)) && (r != null ==> unchanged(r))
    ensures var a, b := old(x.Value()), old(m.Value());
            b != 0 ==> (Divided(a, b, q, r) <==> !(q == x && r != null && a != 0 && FewerLimbs(a, b)))
    ensures var a, b := old(x.Value()), old(m.Value());
            b != 0 && q == x && r != null && FewerLimbs(a, b) ==> Divided(0, b, q, r)
  {
    hide P, Num, TruncDiv, TruncRem, FewerLimbs, Digits, Clamped;
    ghost var a, b := x.Value(), m.Value();
    var pm := Abs(m);
    if pm.t <= 0 {
      NoLimbsZero(pm.d);
      return;
    }
    var pt := Abs(x);
    MagnitudeSize(pm.d, pm.t);
    MagnitudeSize(pt.d, pt.t);
    LimbsApart(a, pt.t, b, pm.t);
    if pt.t < pm.t {
      TruncSmall(a, b);
      TruncSmall(0, b);
      DivideShort(x, q, r);
      return;
    }
    SignWord(x.d, x.t, x.s);
    SignWord(m.d, m.t, m.s);
    DivideLong(pm, pt, q, r, x.s, m.s, a, b);
  }

  /** The case of no fewer limbs, with the outputs that are missing made up for. */
  method DivideLong(pm: BigInteger, pt: BigInteger, q: BigInteger?, r: BigInteger?, ts: int, ms: int, ghost a: int,
                    ghost b: int)
    requires pm.Canonical() && pt.Canonical() && pm.s == 0 && pt.s == 0 && 0 < pm.t <= pt.t
    requires pt.Value() == AbsInt(a) && pm.Value() == AbsInt(b) && b != 0 && (q != null ==> q != r)
    requires (ts < 0) == (a < 0) && (ms < 0) == (b < 0) && -1 <= ts <= 0 && -1 <= ms <= 0
    modifies q, r
    ensures Divided(a, b, q, r)
  {
    var r1: BigInteger;
    if r == null {
      r1 := new BigInteger();
    } else {
      r1 := r;
    }
    var y := new BigInteger();
    var t: BigInteger;
    if q == null {
      t := new BigInteger();
    } else {
      t := q;
    }
    DivMagnitudes(pm, pt, y, t, r1, q, ts, ms, a, b);
  }

  lemma SignWord(d: seq<int>, t: nat, s: int)
    requires Digits(d, t, s)
    ensures -1 <= s <= 0 && ((s < 0) == (Num(d, t, s) < 0))
  {
    NumSign(d, t, s);
  }

  lemma NoLimbsZero(d: seq<int>)
    requires Digits(d, 0, 0)
    ensures Num(d, 0, 0) == 0
  {
  }

  lemma MagnitudeSize(d: seq<int>, t: nat)
    requires Digits(d, t, 0) && Clamped(d, t, 0)
    ensures 0 <= Num(d, t, 0) < P(t) && (t > 0 ==> P(t - 1) <= Num(d, t, 0))
  {
    NumSign(d, t, 0);
    if t > 0 {
      ClampedSize(d, t, 0);
    }
  }

  lemma TruncSmall(a: int, b: int)
    requires AbsInt(a) < AbsInt(b)
    ensures TruncDiv(a, b) == 0 && TruncRem(a, b) == a
  {
    DivUnique(AbsInt(a), AbsInt(b), 0, AbsInt(a));
  }

  /** The second half of divRemTo, after the trivial cases. */
  method DivMagnitudes(pm: BigInteger, pt: BigInteger, y: BigInteger, t: BigInteger, r: BigInteger, q: BigInteger?,
                       ts: int, ms: int, ghost a: int, ghost b: int)
    requires pm.Canonical() && pt.Canonical() && pm.s == 0 && pt.s == 0 && 0 < pm.t <= pt.t
    requires pt.Value() == AbsInt(a) && pm.Value() == AbsInt(b) && b != 0
    requires y != r && y != pm && y != pt && t != r && t != y && (q != null ==> q == t)
    requires (ts < 0) == (a < 0) && (ms < 0) == (b < 0) && -1 <= ts <= 0 && -1 <= ms <= 0
    modifies y, r, t
    ensures Divided(a, b, q, r)
  {
    var nsh := Normalise(pm, pt, y, r);
    var ys := y.t;
    ghost var A, Y := r.Value(), y.Value();
    DivLimbs(y, r, t, Y);
    ghost var rem, Q := Seg(r.d, 0, ys), Seg(r.d, ys, r.t);
    Unscale(AbsInt(a), AbsInt(b), Pow2(nsh), rem, Q, A, Y);
    if q != null {
      LimbQuotient(r.d, ys, r.t);
      r.DRShiftTo(ys, q);
      if ts != ms {
        NegateInPlace(q);
      }
    }
    TakeRemainder(r, ys, nsh, ts);
  }

  lemma LimbQuotient(r: seq<int>, ys: nat, rt: nat)
    requires ys <= rt <= |r| && InRange(r, 0, rt)
    ensures Seg(r, 0, rt) / P(ys) == Seg(r, ys, rt)
  {
    SegSplit(r, 0, ys, rt);
    SegBound(r, 0, ys);
    Comm(P(ys), Seg(r, ys, rt));
    DivUnique(Seg(r, 0, rt), P(ys), Seg(r, ys, rt), Seg(r, 0, ys));
  }

  /** The end of divRemTo: cut off the quotient, denormalise, restore the sign. */
  method TakeRemainder(r: BigInteger, ys: nat, nsh: nat, ts: int)
    requires ys <= |r.d| && InRange(r.d, 0, ys) && r.s == 0
    modifies r
    ensures r.Canonical()
    ensures r.Value() == (if ts < 0 then -(Seg(old(r.d), 0, ys) / Pow2(nsh)) else Seg(old(r.d), 0, ys) / Pow2(nsh))
  {
    assert Pow2(0) == 1;
    r.t := ys;
    r.Clamp();
    if nsh > 0 {
      RShiftTo(r, nsh, r);
    }
    if ts < 0 {
      NegateInPlace(r);
    }
  }

  /** Undoing the normalisation. */
  lemma Unscale(x: int, m: int, k: int, rem: int, Q: int, A: int, Y: int)
    requires 0 < m && 0 < k && A == x * k && Y == m * k && A == rem + Y * Q && 0 <= rem < Y
    ensures Q == x / m && rem / k == x % m
  {
    var r := x - m * Q;
    assert rem == r * k by {
      assert (x - m * Q) * k == x * k - (m * k) * Q;
    }
    if r < 0 {
      MulLe(r, -1, k);
    }
    if r >= m {
      MulLe(m, r, k);
    }
    Comm(m, Q);
    DivUnique(x, m, Q, r);
    DivUnique(rem, k, r, 0);
  }
}
