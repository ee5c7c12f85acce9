/** Bit positions across limbs: reading a field of bits from a limb array, and bitLength. */
module Bits {
  import opened JsNumber
  import opened Limbs
  import opened Modular
  import opened BigIntegers
  import opened Shifts

  /** The bits of x from position p up. */
  function Above(x: nat, p: nat): nat {
    DivBounds(x, Pow2(p), 0);
    x / Pow2(p)
  }

  lemma AboveStep(x: nat, p: nat)
    ensures Above(x, p) == 2 * Above(x, p + 1) + Above(x, p) % 2
  {
    DivDiv(x, Pow2(p), 2);
    assert Pow2(p + 1) == 2 * Pow2(p);
  }

  lemma AboveZero(x: nat)
    ensures Above(x, 0) == x
  {
    DivUnique(x, 1, x, 0);
  }

  lemma AboveAll(x: nat, p: nat)
    requires x < Pow2(p)
    ensures Above(x, p) == 0
  {
    DivUnique(x, Pow2(p), 0, x);
  }

  lemma AboveAbove(x: nat, p: nat, q: nat)
    ensures Above(Above(x, p), q) == Above(x, p + q)
  {
    DivDiv(x, Pow2(p), Pow2(q));
    Pow2Add(p, q);
  }

  /** Limb j and up hold the bits from j * DB on. */
  lemma AboveLimb(e: seq<int>, t: nat, j: nat)
    requires j <= t <= |e| && InRange(e, 0, t)
    ensures 0 <= Seg(e, 0, t) && 0 <= Seg(e, j, t) && Above(Seg(e, 0, t), j * DB()) == Seg(e, j, t)
  {
    SegBound(e, 0, t);
    SegBound(e, j, t);
    SegBound(e, 0, j);
    SegSplit(e, 0, j, t);
    PIsPow2(j);
    Comm(P(j), Seg(e, j, t));
    DivUnique(Seg(e, 0, t), P(j), Seg(e, j, t), Seg(e, 0, j));
  }

  /** Dividing a limb with more above it. */
  lemma AboveInLimb(x: nat, rest: nat, s: nat)
    requires x < DV && s <= DB()
    ensures 0 <= x + DV * rest && Above(x + DV * rest, s) == x / Pow2(s) + Pow2(DB() - s) * rest
    ensures 0 <= x / Pow2(s) < Pow2(DB() - s)
  {
    CutRadix(s);
    var a, b := Pow2(s), Pow2(DB() - s);
    CutLimbLow(x, a, b);
    MulAssoc(a, b, rest);
    DistributeAdd(a, x / a, b * rest);
    Comm(a, x / a + b * rest);
    DivUnique(x + DV * rest, a, x / a + b * rest, x % a);
  }

  lemma AboveScale(x: nat, k: nat, p: nat)
    ensures 0 <= x * Pow2(k) && Above(x * Pow2(k), p + k) == Above(x, p)
  {
    MulLe(0, x, Pow2(k));
    DivUnique(x * Pow2(k), Pow2(k), x, 0);
    AboveAbove(x * Pow2(k), k, p);
  }

  /** bitLength: for a number that is not negative its own, otherwise that of its complement -1 - e. */
  method BitLength(e: BigInteger) returns (n: nat)
    requires e.Canonical()
    ensures n == 0 <==> e.t == 0
    ensures e.Value() == 0 || e.Value() == -1 ==> n == 0
    ensures e.Value() > 0 ==> n > 0 && Pow2(n - 1) <= e.Value() < Pow2(n)
    ensures e.Value() < -1 ==> n > 0 && Pow2(n - 1) <= -1 - e.Value() < Pow2(n)
  {
    hide Pow2, Num, Seg, P;
    if e.t <= 0 {
      NoLimbs(e.d, e.s);
      return 0;
    }
    var top := if e.s == 0 then e.d[e.t - 1] else DV - 1 - e.d[e.t - 1];
    var b := NBits(top);
    n := DB() * (e.t - 1) + b;
    Comm(DB(), e.t - 1);
    if e.s == 0 {
      PositiveLength(e.d, e.t, b, n);
    } else {
      NegativeLength(e.d, e.t, b, n);
    }
  }

  lemma NoLimbs(d: seq<int>, s: int)
    requires Digits(d, 0, s)
    ensures Num(d, 0, s) == s && s <= 0 && -1 <= s
  {
    NumSign(d, 0, s);
    assert P(0) == 1;
  }

  lemma PositiveLength(d: seq<int>, t: nat, b: nat, n: nat)
    requires t > 0 && Digits(d, t, 0) && Clamped(d, t, 0) && n == (t - 1) * DB() + b
    requires 1 <= b && Pow2(b - 1) <= d[t - 1] < Pow2(b)
    ensures Num(d, t, 0) > 0 && n > 0 && Pow2(n - 1) <= Num(d, t, 0) < Pow2(n)
  {
    ClampedSize(d, t, 0);
    PMono(0, t - 1);
    LengthBracket(d, t, b, n);
  }

  lemma NegativeLength(d: seq<int>, t: nat, b: nat, n: nat)
    requires t > 0 && Digits(d, t, -1) && Clamped(d, t, -1) && n == (t - 1) * DB() + b
    requires 1 <= b && Pow2(b - 1) <= DV - 1 - d[t - 1] < Pow2(b)
    ensures Num(d, t, -1) < -1 && n > 0 && Pow2(n - 1) <= -1 - Num(d, t, -1) < Pow2(n)
  {
    ClampedSize(d, t, -1);
    PMono(0, t - 1);
    ComplementValue(d, t);
    LengthBracket(Complement(d, t), t, b, n);
  }

  // The limbs of -1 - e.
  ghost function Complement(d: seq<int>, t: nat): (c: seq<int>)
    requires t <= |d|
    ensures |c| == t && forall i :: 0 <= i < t ==> c[i] == DV - 1 - d[i]
  {
    seq(t, i requires 0 <= i < t => DV - 1 - d[i])
  }

  lemma {:induction false} ComplementSeg(d: seq<int>, c: seq<int>, t: nat, n: nat)
    requires n <= t <= |d| && c == Complement(d, t)
    ensures Seg(c, 0, n) == P(n) - 1 - Seg(d, 0, n)
  {
    if n == 0 {
      assert P(0) == 1;
    } else {
      ComplementSeg(d, c, t, n - 1);
      ComplementLimb(d[n - 1], c[n - 1], P(n - 1));
    }
  }

  lemma ComplementLimb(x: int, y: int, p: int)
    requires y == DV - 1 - x
    ensures y * p == DV * p - p - x * p
  {
    SumProduct(x, y, p);
    SumProduct(DV - 1, 1, p);
  }

  lemma ComplementValue(d: seq<int>, t: nat)
    requires t <= |d| && InRange(d, 0, t)
    ensures InRange(Complement(d, t), 0, t) && Seg(Complement(d, t), 0, t) == -1 - (Seg(d, 0, t) - P(t))
  {
    ComplementSeg(d, Complement(d, t), t, t);
  }

  lemma LengthBracket(e: seq<int>, t: nat, b: nat, n: nat)
    requires 0 < t <= |e| && InRange(e, 0, t) && 1 <= b && Pow2(b - 1) <= e[t - 1] < Pow2(b)
    requires n == (t - 1) * DB() + b
    ensures n > 0 && Pow2(n - 1) <= Seg(e, 0, t) < Pow2(n)
  {
    TopBit(e, t, b);
    AboveBracket(Seg(e, 0, t), n);
  }

  lemma AboveBracket(x: nat, n: nat)
    requires n > 0 && Above(x, n) == 0 && Above(x, n - 1) == 1
    ensures Pow2(n - 1) <= x < Pow2(n)
  {
    DivBounds(x, Pow2(n), 1);
  }

  /** The leading one of a number. */
  lemma TopBit(e: seq<int>, t: nat, b: nat)
    requires 0 < t <= |e| && InRange(e, 0, t) && 1 <= b && Pow2(b - 1) <= e[t - 1] < Pow2(b)
    ensures 0 <= (t - 1) * DB() && 0 <= Seg(e, 0, t)
    ensures Above(Seg(e, 0, t), (t - 1) * DB() + b) == 0 && Above(Seg(e, 0, t), (t - 1) * DB() + b - 1) == 1
  {
    MulLe(0, t - 1, DB());
    AboveLimb(e, t, t - 1);
    SegOne(e, t - 1);
    AboveAbove(Seg(e, 0, t), (t - 1) * DB(), b);
    AboveAbove(Seg(e, 0, t), (t - 1) * DB(), b - 1);
    AboveAll(e[t - 1], b);
    DivUnique(e[t - 1], Pow2(b - 1), 1, e[t - 1] - Pow2(b - 1));
  }

  /** The low a + c bits of h * 2^a + l. */
  lemma LowBits(h: nat, l: nat, a: nat, c: nat)
    requires l < Pow2(a)
    ensures 0 <= h % Pow2(c) < Pow2(c)
    ensures (h * Pow2(a) + l) % Pow2(a + c) == h % Pow2(c) * Pow2(a) + l < Pow2(a + c)
  {
    var q, r, pa, pc := h / Pow2(c), h % Pow2(c), Pow2(a), Pow2(c);
    Pow2Add(a, c);
    assert h == pc * q + r;
    MulLe(r, pc - 1, pa);
    MulLe(0, r, pa);
    MinusOne(pc, pa);
    Comm(pc, pa);
    LowBitsAlgebra(q, r, pa, pc, h);
    DivUnique(h * pa + l, pa * pc, q, r * pa + l);
  }

  lemma LowBitsAlgebra(q: int, r: int, pa: int, pc: int, h: int)
    requires h == pc * q + r
    ensures h * pa == q * (pa * pc) + r * pa
  {
    SumProduct(pc * q, r, pa);
    Comm(pc, q);
    MulAssoc(q, pc, pa);
    Comm(pc, pa);
  }

  lemma ModAddMultiple(v: int, h: int, m: int)
    requires m > 0
    ensures (v + m * h) % m == v % m
  {
    assert v == m * (v / m) + v % m;
    DistributeAdd(m, v / m, h);
    Comm(m, v / m + h);
    DivUnique(v + m * h, m, v / m + h, v % m);
  }

  /** Low bits of a limb are not affected by the limbs above it. */
  lemma LimbLowBits(x: nat, rest: nat, c: nat)
    requires x < DV && c <= DB()
    ensures 0 <= x + DV * rest && (x + DV * rest) % Pow2(c) == x % Pow2(c)
  {
    CutRadix(c);
    var a, b := Pow2(c), Pow2(DB() - c);
    MulAssoc(a, b, rest);
    MulLe(0, DV, rest);
    ModAddMultiple(x, b * rest, a);
  }

  /** The window of k bits that starts at bit i of limb j, read from one limb. */
  lemma WindowInside(e: seq<int>, t: nat, j: nat, i: nat, k: nat)
    requires j < t <= |e| && InRange(e, 0, t) && i < DB() && 1 <= k && k - 1 <= i
    ensures 0 <= Seg(e, 0, t) && 0 <= Seg(e, 0, t) * Pow2(k)
    ensures e[j] / Pow2(i + 1 - k) % Pow2(k) == Above(Seg(e, 0, t) * Pow2(k), j * DB() + i + 1) % Pow2(k)
  {
    AboveLimb(e, t, j);
    SegLow(e, j, t);
    SegBound(e, 0, t);
    SegBound(e, j + 1, t);
    MulLe(0, Seg(e, 0, t), Pow2(k));
    MulLe(0, j, DB());
    InsideValue(Seg(e, 0, t), Seg(e, j, t), e[j], Seg(e, j + 1, t), j * DB(), i + 1 - k, k, j * DB() + i + 1);
  }

  lemma InsideValue(whole: nat, m: nat, x: nat, top: nat, base: nat, s: nat, k: nat, p: nat)
    requires x < DV && m == x + DV * top && m == Above(whole, base) && s + k <= DB() && p == base + s + k
    ensures 0 <= whole * Pow2(k) && 0 <= x / Pow2(s)
    ensures x / Pow2(s) % Pow2(k) == Above(whole * Pow2(k), p) % Pow2(k)
  {
    AboveScale(whole, k, base + s);
    AboveAbove(whole, base, s);
    AboveInLimb(x, top, s);
    var h := Pow2(DB() - s - k) * top;
    Pow2Add(k, DB() - s - k);
    MulAssoc(Pow2(k), Pow2(DB() - s - k), top);
    ModAddMultiple(x / Pow2(s), h, Pow2(k));
  }

  /** The window that runs into the limb below. */
  lemma WindowAcross(e: seq<int>, t: nat, j: nat, i: nat, k: nat)
    requires 0 < j < t <= |e| && InRange(e, 0, t) && i + 1 < k <= DB()
    ensures 0 <= Seg(e, 0, t) && 0 <= Seg(e, 0, t) * Pow2(k)
    ensures 0 <= e[j - 1] / Pow2(DB() + i + 1 - k) < Pow2(k - i - 1)
    ensures e[j] % Pow2(i + 1) * Pow2(k - i - 1) + e[j - 1] / Pow2(DB() + i + 1 - k)
            == Above(Seg(e, 0, t) * Pow2(k), j * DB() + i + 1) % Pow2(k)
  {
    AboveAcross(e, t, j, i, k);
    LowOfHigh(e, t, j, i + 1);
    LowBits(Seg(e, j, t), e[j - 1] / Pow2(DB() + i + 1 - k), k - i - 1, i + 1);
  }

  lemma AboveAcross(e: seq<int>, t: nat, j: nat, i: nat, k: nat)
    requires 0 < j < t <= |e| && InRange(e, 0, t) && i + 1 < k <= DB()
    ensures 0 <= Seg(e, 0, t) && 0 <= Seg(e, 0, t) * Pow2(k) && 0 <= Seg(e, j, t)
    ensures 0 <= e[j - 1] / Pow2(DB() + i + 1 - k) < Pow2(k - i - 1)
    ensures Above(Seg(e, 0, t) * Pow2(k), j * DB() + i + 1)
            == Seg(e, j, t) * Pow2(k - i - 1) + e[j - 1] / Pow2(DB() + i + 1 - k)
  {
    WindowBase(j, i, k);
    SegBound(e, 0, t);
    SegBound(e, j, t);
    AboveLimb(e, t, j - 1);
    SegLow(e, j - 1, t);
    MulLe(0, Seg(e, 0, t), Pow2(k));
    AcrossValue(Seg(e, 0, t), Seg(e, j - 1, t), e[j - 1], Seg(e, j, t), (j - 1) * DB(), DB() + i + 1 - k, k, j * DB() + i + 1);
  }

  lemma AcrossValue(whole: nat, m: nat, x: nat, top: nat, base: nat, s: nat, k: nat, p: nat)
    requires x < DV && m == x + DV * top && m == Above(whole, base) && s < DB() && p == base + s + k
    ensures 0 <= whole * Pow2(k) && 0 <= x / Pow2(s) < Pow2(DB() - s)
    ensures Above(whole * Pow2(k), p) == top * Pow2(DB() - s) + x / Pow2(s)
  {
    AboveScale(whole, k, base + s);
    AboveAbove(whole, base, s);
    AboveInLimb(x, top, s);
    Comm(Pow2(DB() - s), top);
  }

  lemma WindowBase(j: nat, i: nat, k: nat)
    requires j > 0 && i + 1 < k <= DB()
    ensures 0 <= (j - 1) * DB() && (j - 1) * DB() + (DB() + i + 1 - k) + k == j * DB() + i + 1
  {
    SumProduct(j - 1, 1, DB());
    MulLe(0, j - 1, DB());
  }

  lemma LowOfHigh(e: seq<int>, t: nat, j: nat, c: nat)
    requires j < t <= |e| && InRange(e, 0, t) && c <= DB()
    ensures 0 <= Seg(e, j, t) && Seg(e, j, t) % Pow2(c) == e[j] % Pow2(c)
  {
    SegLow(e, j, t);
    SegBound(e, j, t);
    SegBound(e, j + 1, t);
    LimbLowBits(e[j], Seg(e, j + 1, t), c);
  }

  lemma DivLess(x: int, p: int)
    requires 0 <= x && 0 < p
    ensures 0 <= x / p <= x
  {
    DivBounds(x, p, 0);
    MulMono(x + 1, 1, p);
    DivBounds(x, p, x);
  }

  lemma WindowHigh(high: int, a: nat, c: nat)
    requires 0 <= high < Pow2(a) && a + c <= 8
    ensures 0 <= high * Pow2(c) < 256
  {
    MulLt(high, Pow2(a), Pow2(c));
    MulLe(0, high, Pow2(c));
    Pow2Add(a, c);
    Pow2Mono(a + c, 8);
    assert Pow2(8) == 256;
  }
}
