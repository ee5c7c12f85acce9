/** Bit shifts and bit searches: lShiftTo, rShiftTo, nbits, lbit, getLowestSetBit. */
module Shifts {
  import opened JsNumber
  import opened Limbs
  import opened BigIntegers

  lemma ScaleSigned(pn: int, seg: int, pt: int, s: int)
    ensures pn * (seg - (if s < 0 then pt else 0)) == pn * seg - (if s < 0 then pn * pt else 0)
  {
  }

  /** Limbs lo..hi with the sign word above them. */
  function TailNum(a: seq<int>, lo: nat, hi: nat, s: int): int
    requires lo <= hi <= |a|
  {
    Seg(a, lo, hi) - (if s < 0 then P(hi - lo) else 0)
  }

  lemma TailLow(a: seq<int>, lo: nat, hi: nat, s: int)
    requires lo < hi <= |a|
    ensures TailNum(a, lo, hi, s) == a[lo] + DV * TailNum(a, lo + 1, hi, s)
  {
    SegLow(a, lo, hi);
    ScaleSigned(DV, Seg(a, lo + 1, hi), P(hi - lo - 1), s);
  }

  lemma TailSplit(a: seq<int>, mid: nat, hi: nat, s: int)
    requires mid <= hi <= |a|
    ensures Num(a, hi, s) == Seg(a, 0, mid) + P(mid) * TailNum(a, mid, hi, s)
  {
    SegSplit(a, 0, mid, hi);
    PAdd(mid, hi - mid);
    ScaleSigned(P(mid), Seg(a, mid, hi), P(hi - mid), s);
  }

  /** The two halves a shift by bs bits cuts a limb into. */
  lemma CutRadix(bs: nat)
    requires bs <= DB()
    ensures Pow2(bs) * Pow2(DB() - bs) == DV
    ensures 1 <= Pow2(bs) <= DV && 1 <= Pow2(DB() - bs) <= DV
  {
    RadixIsPow2();
    Pow2Add(bs, DB() - bs);
    Pow2Mono(bs, DB());
    Pow2Mono(DB() - bs, DB());
  }

  lemma CutLimb(x: int, pb: int, pc: int)
    requires 0 <= x < DV && pb * pc == DV && pb > 0 && pc > 0
    ensures 0 <= x % pc < pc && 0 <= x / pc < pb
    ensures x == x / pc * pc + x % pc
    ensures 0 <= x % pc * pb < DV
  {
    var q, r := x / pc, x % pc;
    assert x == pc * q + r;
    if q >= pb {
      MulLe(pb, q, pc);
    }
    MulLe(r, pc - 1, pb);
    assert (pc - 1) * pb == DV - pb;
  }

  /** One limb of a left shift. */
  lemma LShiftStep(x: int, h: int, s: int, c: int, pb: int, pc: int)
    requires 0 <= x < DV && pb * pc == DV && pb > 0 && pc > 0
    requires h * pb == DV * s + c
    ensures (x + DV * h) * pb == DV * (c + x / pc + DV * s) + x % pc * pb
  {
    CutLimb(x, pb, pc);
    var q, r := x / pc, x % pc;
    assert x * pb == q * (pb * pc) + r * pb;
    assert (DV * h) * pb == DV * (h * pb);
  }

  /** (h << bs) | l, for l below 2^bs, and with the operands exchanged. */
  lemma OrLimb(q: int, l: int, bs: nat, pb: int, pc: int)
    requires pb == Pow2(bs) && pb * pc == DV && 0 <= q < pc && 0 <= l < pb
    ensures 0 <= q * pb && Or(q * pb, l) == Or(l, q * pb) == q * pb + l < DV
  {
    OrDisjoint(q, l, bs);
    MulLe(q, pc - 1, pb);
    assert (pc - 1) * pb == DV - pb;
  }

  /** The sign word shifted and masked. */
  lemma SignBits(s: int, pb: int, pc: int)
    requires (s == 0 || s == -1) && 0 < pb <= DV && pc > 0 && pb * pc == DV
    ensures s * pb == if s < 0 then -pb else 0
    ensures (s * pb) % DV == (if s < 0 then pc - 1 else 0) * pb == if s < 0 then DV - pb else 0
    ensures s % pb == if s < 0 then pb - 1 else 0
  {
    MinusOne(pc, pb);
    if s < 0 {
      DivUnique(-pb, DV, -1, DV - pb);
      DivUnique(-1, pb, -1, pb - 1);
    } else {
      DivUnique(0, pb, 0, 0);
    }
  }

  /** lShiftTo: r = x << n */
  method LShiftTo(x: BigInteger, n: nat, r: BigInteger)
    requires x.Valid()
    modifies r
    ensures r.Canonical() && r.Value() == old(x.Value()) * Pow2(n)
    ensures r.s == old(x.s)
  {
    ghost var X := x.d;
    var T, s := x.t, x.s;
    var c := LShiftLimbs(x, n % DB(), n / DB(), r);
    LShiftFinish(r, n / DB(), T, s, c);
    LShiftTotal(X, T, s, n, r.Value());
  }

  /** The limb loop of lShiftTo; the last carry out, at the bottom, is returned. */
  method LShiftLimbs(x: BigInteger, bs: nat, ds: nat, r: BigInteger) returns (c: int)
    requires x.Valid() && bs < DB()
    modifies r`d
    ensures 0 <= c < DV && LShiftRows(old(x.d), x.t, x.s, ds, 0, r.d, Pow2(bs), c)
  {
    hide Seg, P, TailNum, Pow2;
    ghost var X, s := x.d, x.s;
    var T := x.t;
    var pb, pc := Pow2(bs), Pow2(DB() - bs);
    CutRadix(bs);
    SignBits(s, pb, pc);
    c := Mask(Shl(x.s, pb), DV);
    ghost var q := if s < 0 then pc - 1 else 0;
    var i := x.t - 1;
    LShiftStart(X, T, s, ds, r.d, pb, q, c);
    while i >= 0
      invariant -1 <= i < T <= |x.d|
      invariant forall k :: 0 <= k <= i ==> x.d[k] == X[k]
      invariant 0 <= q < pc && c == q * pb && 0 <= c < DV
      invariant LShiftRows(X, T, s, ds, i + 1, r.d, pb, c)
    {
      ghost var R := r.d;
      LShiftOr(X[i], q, c, bs, pb, pc);
      var v := x.d[i];
      r.d := Put(r.d, i + ds + 1, Or(Shr(v, pc), c));
      LShiftNext(X, T, s, ds, i, R, r.d, pb, pc, c);
      c := Shl(Mask(v, pc), pb);
      q := v % pc;
      i := i - 1;
    }
  }

  lemma LShiftOr(x: int, q: int, c: int, bs: nat, pb: int, pc: int)
    requires 0 <= x < DV && bs < DB() && pb == Pow2(bs) && pc == Pow2(DB() - bs)
    requires 0 <= q < pc && c == q * pb
    ensures 0 <= c && 0 <= x / pc && Or(x / pc, c) == c + x / pc < DV
    ensures 0 <= x % pc < pc && 0 <= x % pc * pb < DV
  {
    CutRadix(bs);
    CutLimb(x, pb, pc);
    OrLimb(q, x / pc, bs, pb, pc);
  }

  /** Limbs i..T have been shifted into r, with c still to be added below them. */
  ghost predicate LShiftRows(X: seq<int>, T: nat, s: int, ds: nat, i: nat, r: seq<int>, pb: int, c: int)
    requires i <= T <= |X|
  {
    && (i < T ==> T + ds < |r| && InRange(r, i + ds + 1, T + ds + 1))
    && TailNum(X, i, T, s) * pb
       == DV * (if i < T then TailNum(r, i + ds + 1, T + ds + 1, s) else s) + c
  }

  lemma LShiftStart(X: seq<int>, T: nat, s: int, ds: nat, r: seq<int>, pb: int, q: int, c: int)
    requires T <= |X| && (s == 0 || s == -1)
    requires c == if s < 0 then DV - pb else 0
    ensures LShiftRows(X, T, s, ds, T, r, pb, c)
  {
    assert P(0) == 1;
  }

  lemma LShiftNext(X: seq<int>, T: nat, s: int, ds: nat, i: nat, R: seq<int>, r: seq<int>, pb: int, pc: int, c: int)
    requires i < T <= |X| && (s == 0 || s == -1) && 0 <= X[i] < DV && pb * pc == DV && pb > 0 && pc > 0
    requires LShiftRows(X, T, s, ds, i + 1, R, pb, c)
    requires i + ds + 1 < |r| && |R| <= |r| && forall k :: i + ds + 1 < k < |R| ==> r[k] == R[k]
    requires 0 <= r[i + ds + 1] == c + X[i] / pc < DV
    ensures LShiftRows(X, T, s, ds, i, r, pb, X[i] % pc * pb)
  {
    TailLow(X, i, T, s);
    LShiftTail(R, r, i + ds + 1, T + ds + 1, s);
    LShiftStep(X[i], TailNum(X, i + 1, T, s), if i + 1 < T then TailNum(R, i + ds + 2, T + ds + 1, s) else s, c, pb, pc);
  }

  lemma LShiftTail(R: seq<int>, r: seq<int>, j: nat, hi: nat, s: int)
    requires j < hi <= |r| && (j < hi - 1 ==> hi <= |R|)
    requires forall k :: j < k < hi ==> r[k] == R[k]
    requires s == 0 || s == -1
    ensures TailNum(r, j, hi, s) == r[j] + DV * (if j < hi - 1 then TailNum(R, j + 1, hi, s) else s)
  {
    TailLow(r, j, hi, s);
    if j < hi - 1 {
      SegFrame(r, R, j + 1, hi);
    } else {
      assert P(0) == 1;
    }
  }

  /** The tail of lShiftTo: zero limbs, the last carry, sign and clamp. */
  method LShiftFinish(r: BigInteger, ds: nat, T: nat, s: int, c: int)
    requires s == 0 || s == -1
    requires T > 0 ==> T + ds < |r.d| && InRange(r.d, ds + 1, T + ds + 1)
    requires 0 <= c < DV
    modifies r
    ensures r.Canonical() && r.s == s
    ensures r.Value() == P(ds) * (DV * (if T > 0 then TailNum(old(r.d), ds + 1, T + ds + 1, s) else s) + c)
  {
    ghost var R := r.d;
    var i := ds - 1;
    while i >= 0
      invariant -1 <= i < ds && |r.d| >= |R|
      invariant i < ds - 1 ==> ds <= |r.d|
      invariant forall k :: i < k < ds ==> r.d[k] == 0
      invariant forall k :: ds <= k < |R| ==> r.d[k] == R[k]
    {
      r.d := Put(r.d, i, 0);
      i := i - 1;
    }
    r.d := Put(r.d, ds, c);
    r.t := T + ds + 1;
    r.s := s;
    LShiftLow(R, r.d, ds, T, s);
    r.Clamp();
  }

  lemma LShiftLow(R: seq<int>, r: seq<int>, ds: nat, T: nat, s: int)
    requires s == 0 || s == -1
    requires T + ds < |r| && (T > 0 ==> T + ds < |R|)
    requires forall k :: 0 <= k < ds ==> r[k] == 0
    requires forall k :: ds < k < T + ds + 1 ==> r[k] == R[k]
    ensures TailNum(r, 0, T + ds + 1, s)
            == P(ds) * (DV * (if T > 0 then TailNum(R, ds + 1, T + ds + 1, s) else s) + r[ds])
  {
    hide Seg;
    SegZero(r, 0, ds);
    TailSplit(r, ds, T + ds + 1, s);
    LShiftTail(R, r, ds, T + ds + 1, s);
    var rest := if T > 0 then TailNum(R, ds + 1, T + ds + 1, s) else s;
    SameProduct(P(ds), TailNum(r, ds, T + ds + 1, s), DV * rest + r[ds]);
  }

  lemma SameProduct(p: int, a: int, b: int)
    requires a == b
    ensures p * a == p * b
  {
  }

  lemma LShiftTotal(X: seq<int>, T: nat, s: int, n: nat, v: int)
    requires Digits(X, T, s)
    requires v == P(n / DB()) * (TailNum(X, 0, T, s) * Pow2(n % DB()))
    ensures v == Num(X, T, s) * Pow2(n)
  {
    ShiftPower(n);
    MulSwap(P(n / DB()), Num(X, T, s), Pow2(n % DB()));
  }

  lemma ShiftPower(n: nat)
    ensures Pow2(n) == P(n / DB()) * Pow2(n % DB())
  {
    QuotientAndRest(n, DB());
    LimbsAndBits(n / DB(), n % DB());
  }

  lemma QuotientAndRest(n: nat, m: nat)
    requires m > 0
    ensures 0 <= n / m && n / m * m + n % m == n
  {
  }

  lemma LimbsAndBits(q: nat, r: nat)
    ensures 0 <= q * DB() && Pow2(q * DB() + r) == P(q) * Pow2(r)
  {
    MulLe(0, q, DB());
    PIsPow2(q);
    Pow2Add(q * DB(), r);
  }

  /** rShiftTo: r = x >> n, rounding down also for negative numbers. */
  method RShiftTo(x: BigInteger, n: nat, r: BigInteger)
    requires x.Valid()
    modifies r
    ensures r.Canonical() && r.Value() == old(x.Value()) / Pow2(n)
  {
    ghost var X, T, sv := x.d, x.t, x.s;
    r.s := x.s;
    var ds := n / DB();
    if ds >= x.t {
      r.t := 0;
      RShiftGone(X, T, sv, n);
      return;
    }
    RShiftLimbs(x, n % DB(), ds, r);
    RShiftTop(x.s, n % DB(), ds, x.t, r, X);
    r.t := x.t - ds;
    RShiftTotal(X, T, sv, n, r.Value());
    r.Clamp();
  }

  /** The sign bits rShiftTo puts into the top limb. */
  method RShiftTop(s: int, bs: nat, ds: nat, t: nat, r: BigInteger, ghost X: seq<int>)
    requires (s == 0 || s == -1) && bs < DB() && ds < t <= |X| && InRange(X, 0, t)
    requires RShiftRows(X, ds, t, r.d, Pow2(bs))
    modifies r`d
    ensures t - ds <= |r.d| && InRange(r.d, 0, t - ds)
    ensures TailNum(X, ds, t, s) == X[ds] % Pow2(bs) + Pow2(bs) * Num(r.d, t - ds, s)
  {
    ghost var R := r.d;
    var pb, pc := Pow2(bs), Pow2(DB() - bs);
    CutRadix(bs);
    SmallPowers();
    if bs > 0 {
      SignOr(X[t - 1], s, bs, pb, pc);
      r.d := Put(r.d, t - ds - 1, Or(r.d[t - ds - 1], Shl(Mask(s, pb), pc)));
      Pow2Mono(1, bs);
    }
    RShiftEnd(X, t, s, ds, R, r.d, pb, pc);
  }

  lemma SignOr(x: int, s: int, bs: nat, pb: int, pc: int)
    requires 0 <= x < DV && (s == 0 || s == -1) && bs < DB() && pb == Pow2(bs) && pc == Pow2(DB() - bs)
    ensures 0 <= x / pb && 0 <= s % pb && 0 <= s % pb * pc < DV
    ensures Or(x / pb, s % pb * pc) == x / pb + (if s < 0 then pb - 1 else 0) * pc < DV
  {
    CutRadix(bs);
    CutLimbLow(x, pb, pc);
    SignBits(s, pb, pc);
    OrLimb(s % pb, x / pb, DB() - bs, pc, pb);
  }

  /** The limb loop of rShiftTo. */
  method RShiftLimbs(x: BigInteger, bs: nat, ds: nat, r: BigInteger)
    requires x.Valid() && bs < DB() && ds < x.t
    modifies r`d
    ensures RShiftRows(old(x.d), ds, x.t, r.d, Pow2(bs))
  {
    ghost var X, T := x.d, x.t;
    var pb, pc := Pow2(bs), Pow2(DB() - bs);
    CutRadix(bs);
    CutLimbLow(X[ds], pb, pc);
    r.d := Put(r.d, 0, Shr(x.d[ds], pb));
    RShiftStart(X, ds, r.d, pb);
    var i := ds + 1;
    while i < x.t
      invariant ds < i <= T && T <= |x.d|
      invariant forall k :: i <= k < T ==> x.d[k] == X[k]
      invariant RShiftRows(X, ds, i, r.d, pb)
    {
      ghost var R := r.d;
      CutLimbLow(X[i], pb, pc);
      CutLimbLow(X[i - 1], pb, pc);
      OrLimb(X[i] % pb, X[i - 1] / pb, DB() - bs, pc, pb);
      var v := x.d[i];
      r.d := Put(r.d, i - ds - 1, Or(r.d[i - ds - 1], Shl(Mask(v, pb), pc)));
      r.d := Put(r.d, i - ds, Shr(v, pb));
      RShiftStep(X, ds, i, R, r.d, pb, pc);
      i := i + 1;
    }
  }

  lemma CutLimbLow(x: int, pb: int, pc: int)
    requires 0 <= x < DV && pb * pc == DV && pb > 0 && pc > 0
    ensures 0 <= x % pb < pb && 0 <= x / pb < pc
    ensures x == x / pb * pb + x % pb
    ensures 0 <= x % pb * pc < DV
  {
    assert pc * pb == pb * pc;
    CutLimb(x, pc, pb);
  }

  /** Limbs ds..i have been shifted; the limb on top still lacks the bits of its neighbour. */
  ghost predicate RShiftRows(X: seq<int>, ds: nat, i: nat, r: seq<int>, pb: int)
    requires ds < i <= |X| && pb > 0
  {
    && i - ds <= |r| && InRange(r, 0, i - ds) && r[i - ds - 1] == X[i - 1] / pb
    && Seg(X, ds, i) == X[ds] % pb + pb * Seg(r, 0, i - ds)
  }

  lemma RShiftStart(X: seq<int>, ds: nat, r: seq<int>, pb: int)
    requires ds < |X| && 0 < |r| && pb > 0 && 0 <= X[ds] < DV
    requires r[0] == X[ds] / pb && r[0] < DV
    ensures RShiftRows(X, ds, ds + 1, r, pb)
  {
    SegOne(X, ds);
    SegOne(r, 0);
    assert X[ds] == pb * (X[ds] / pb) + X[ds] % pb;
  }

  lemma RShiftStep(X: seq<int>, ds: nat, i: nat, R: seq<int>, r: seq<int>, pb: int, pc: int)
    requires ds < i < |X| && pb > 0 && pc > 0 && pb * pc == DV && 0 <= X[i] < DV
    requires RShiftRows(X, ds, i, R, pb)
    requires i - ds < |r| && |R| <= |r|
    requires forall k :: 0 <= k < i - ds - 1 ==> r[k] == R[k]
    requires r[i - ds - 1] == R[i - ds - 1] + X[i] % pb * pc < DV && r[i - ds] == X[i] / pb
    ensures RShiftRows(X, ds, i + 1, r, pb)
  {
    CutLimbLow(X[i], pb, pc);
    MulLe(pc, DV, 1);
    var k := i - ds - 1;
    SegFrame(r, R, 0, k);
    RShiftArithmetic(Seg(R, 0, k), R[k], X[i] % pb, X[i] / pb, P(k), pb, pc);
    assert pb > 0 && pc <= DV by { if pc > DV { MulLe(1, pb, pc); } }
  }

  lemma RShiftArithmetic(low: int, top: int, lo: int, hi: int, p: int, pb: int, pc: int)
    requires pb * pc == DV
    ensures pb * (low + (top + lo * pc) * p + hi * (DV * p)) == pb * (low + top * p) + (hi * pb + lo) * (DV * p)
  {
    assert (top + lo * pc) * p == top * p + lo * pc * p;
    assert pb * (lo * pc * p) == lo * (pb * pc * p);
    assert pb * (hi * (DV * p)) == (hi * pb) * (DV * p);
  }

  lemma RShiftEnd(X: seq<int>, T: nat, s: int, ds: nat, R: seq<int>, r: seq<int>, pb: int, pc: int)
    requires ds < T <= |X| && (s == 0 || s == -1) && pb > 0 && pc > 0 && pb * pc == DV
    requires RShiftRows(X, ds, T, R, pb)
    requires if pb == 1 then r == R
             else |r| >= |R| && (forall k :: 0 <= k < T - ds - 1 ==> r[k] == R[k])
                  && r[T - ds - 1] == R[T - ds - 1] + (if s < 0 then pb - 1 else 0) * pc
    ensures TailNum(X, ds, T, s) == X[ds] % pb + pb * Num(r, T - ds, s)
  {
    var k := T - ds - 1;
    var lo := if s < 0 then pb - 1 else 0;
    SegFrame(r, R, 0, k);
    RShiftArithmetic(Seg(R, 0, k), R[k], lo, 0, P(k), pb, pc);
    assert r[k] == R[k] + lo * pc;
    assert Seg(r, 0, k + 1) == Seg(R, 0, k) + (R[k] + lo * pc) * P(k);
    assert pb * Seg(r, 0, k + 1) == pb * Seg(R, 0, k + 1) + lo * P(k + 1);
    ScaleSigned(pb, Seg(r, 0, k + 1), P(k + 1), s);
    MinusOne(pb, P(k + 1));
  }

  lemma MinusOne(x: int, p: int)
    ensures (x - 1) * p == x * p - p
  {
  }

  lemma RShiftTotal(X: seq<int>, T: nat, s: int, n: nat, v: int)
    requires Digits(X, T, s) && n / DB() < T
    requires TailNum(X, n / DB(), T, s) == X[n / DB()] % Pow2(n % DB()) + Pow2(n % DB()) * v
    ensures v == Num(X, T, s) / Pow2(n)
  {
    var ds, pb := n / DB(), Pow2(n % DB());
    TailSplit(X, ds, T, s);
    SegBound(X, 0, ds);
    ShiftPower(n);
    FloorParts(Seg(X, 0, ds), X[ds] % pb, v, P(ds), pb);
  }

  lemma FloorParts(lo: int, x: int, v: int, p: int, pb: int)
    requires 0 <= lo < p && 0 <= x < pb
    ensures p * pb > 0 && (lo + p * (x + pb * v)) / (p * pb) == v
  {
    DistributeAdd(p, x, pb * v);
    MulSwap(p, v, pb);
    MinusOne(pb, p);
    MulLe(0, x, p);
    MulLe(x, pb - 1, p);
    MulLe(1, pb, p);
    var b := p * pb;
    assert b == pb * p && p * x == x * p && pb * v == v * pb;
    DivUnique(lo + p * (x + pb * v), b, v, lo + x * p);
  }

  lemma RShiftGone(X: seq<int>, T: nat, s: int, n: nat)
    requires Digits(X, T, s) && n / DB() >= T
    ensures Num(X, T, s) / Pow2(n) == s == Num(X, 0, s)
  {
    NumSign(X, T, s);
    PMono(T, n / DB());
    ShiftPower(n);
    MulLe(1, Pow2(n % DB()), P(n / DB()));
    assert P(0) == 1;
    var b := Pow2(n);
    assert P(n / DB()) <= b by { assert Pow2(n % DB()) * P(n / DB()) == P(n / DB()) * Pow2(n % DB()); }
    if s < 0 {
      DivUnique(Num(X, T, s), b, -1, Num(X, T, s) + b);
    } else {
      DivUnique(Num(X, T, s), b, 0, Num(X, T, s));
    }
  }

  lemma DivDiv(x: int, a: int, h: int)
    requires 0 <= x && a > 0 && h > 0
    ensures a * h > 0 && x / a / h == x / (a * h)
  {
    var q := x / a;
    MulLe(1, a, h);
    assert x == a * q + x % a && q == h * (q / h) + q % h;
    FloorParts(x % a, q % h, q / h, a, h);
  }

  /** One halving step of nbits: x is the argument without its r - 1 low bits. */
  method HalveBits(x0: int, x: int, r: nat, k: nat, h: int) returns (x': int, r': nat)
    requires h == Pow2(k) && r >= 1 && 0 <= x0 && 0 <= x < 0x8000_0000
    requires x == x0 / Pow2(r - 1)
    ensures x' == (if x / h != 0 then x / h else x)
    ensures r' >= r && (x / h == 0 ==> r' == r)
    ensures x' == x0 / Pow2(r' - 1)
  {
    x', r' := x, r;
    var t := Ushr(x, h);
    if t != 0 {
      Pow2Add(r - 1, k);
      DivDiv(x0, Pow2(r - 1), h);
      x', r' := t, r + k;
    }
  }

  /** nbits: the bit length, except that zero counts as one bit. */
  method NBits(x0: int) returns (r: nat)
    requires 0 <= x0 < 0x8000_0000
    ensures x0 == 0 ==> r == 1
    ensures x0 > 0 ==> 1 <= r && Pow2(r - 1) <= x0 < Pow2(r)
  {
    SmallPowers();
    var x: int;
    r := 1;
    x, r := HalveBits(x0, x0, r, 16, 0x1_0000);
    x, r := HalveBits(x0, x, r, 8, 0x100);
    x, r := HalveBits(x0, x, r, 4, 0x10);
    x, r := HalveBits(x0, x, r, 2, 4);
    x, r := HalveBits(x0, x, r, 1, 2);
    BitsBracket(x0, r, x);
  }

  lemma BitsBracket(x0: int, r: nat, x: int)
    requires r >= 1 && x == x0 / Pow2(r - 1)
    ensures x == 1 ==> Pow2(r - 1) <= x0 < Pow2(r)
    ensures x == 0 && x0 >= 0 ==> x0 < Pow2(r)
  {
    assert x0 == Pow2(r - 1) * x + x0 % Pow2(r - 1);
  }

  /** Bit g is the lowest set bit of x. */
  ghost predicate LowestBit(x: int, g: nat) {
    x % Pow2(g) == 0 && (x / Pow2(g)) % 2 == 1
  }

  /** One step of lbit: x' is x0 without r' zero bits. */
  method HalveLow(x0: int, x: int, r: nat, k: nat, h: int) returns (x': int, r': nat)
    requires h == Pow2(k) && 0 < h <= 0x1_0000 && 0 <= x < 0x8000_0000
    requires x0 == x * Pow2(r) && x % (h * h) != 0
    ensures x' == (if x % h == 0 then x / h else x) && x' % h != 0
    ensures x0 == x' * Pow2(r')
  {
    x', r' := x, r;
    if Mask(x, h) == 0 {
      x', r' := Shr(x, h), r + k;
      Pow2Add(r, k);
      assert x == x' * h;
      MulSwap(x', h, Pow2(r));
      StillOdd(x, x', h);
    }
  }

  lemma StillOdd(x: int, q: int, h: int)
    requires 0 < h && x == q * h && x % (h * h) != 0
    ensures q % h != 0
  {
    if q % h == 0 {
      MulAssoc(q / h, h, h);
      DivUnique(x, h * h, q / h, 0);
      assert false;
    }
  }

  /** lbit: index of the lowest set bit, or -1. */
  method LBit(x0: int) returns (r: int)
    requires 0 <= x0 < 0x8000_0000
    ensures x0 == 0 ==> r == -1
    ensures x0 > 0 ==> 0 <= r && LowestBit(x0, r)
  {
    if x0 == 0 {
      return -1;
    }
    SmallPowers();
    var x, n: nat := x0, 0;
    x, n := HalveLow(x0, x, n, 16, 0x1_0000);
    x, n := HalveLow(x0, x, n, 8, 0x100);
    x, n := HalveLow(x0, x, n, 4, 0x10);
    x, n := HalveLow(x0, x, n, 2, 4);
    // The last step tests a single bit and needs no further shift of x.
    x, n := HalveLow(x0, x, n, 1, 2);
    DivUnique(x0, Pow2(n), x, 0);
    r := n;
  }

  lemma OddPart(x: int, g: nat) returns (q: int)
    requires LowestBit(x, g)
    ensures x == q * Pow2(g) && q % 2 == 1
  {
    q := x / Pow2(g);
    assert x == Pow2(g) * q + x % Pow2(g);
  }

  lemma OddMultiple(x: int, g: nat, q: int)
    requires x == q * Pow2(g) && q % 2 == 1
    ensures LowestBit(x, g)
  {
    DivUnique(x, Pow2(g), q, 0);
  }

  lemma OddPartSmall(low: int, g: nat, o: int)
    requires 0 < low < DV && low == o * Pow2(g) && o % 2 == 1
    ensures g < DB()
  {
    RadixIsPow2();
    if g >= DB() {
      Pow2Mono(DB(), g);
      if o >= 1 {
        MulLe(1, o, Pow2(g));
      } else {
        MulLe(o, 0, Pow2(g));
      }
      assert false;
    }
  }

  lemma LowestBitAbove(x: int, low: int, i: nat, g: nat, n: int)
    requires 0 < low < DV && LowestBit(low, g)
    requires x == P(i) * (low + DV * n)
    ensures LowestBit(x, i * DB() + g)
  {
    var o := OddPart(low, g);
    OddPartSmall(low, g, o);
    PIsPow2(i);
    Pow2Add(i * DB(), g);
    RadixIsPow2();
    Pow2Add(g, DB() - g);
    var pg, h := Pow2(g), Pow2(DB() - g - 1);
    assert DV == pg * (2 * h);
    LowestBitArithmetic(P(i), pg, h, o, n);
    EvenSum(o, h * n, o + 2 * (h * n));
    OddMultiple(x, i * DB() + g, o + 2 * (h * n));
  }

  lemma LowestBitArithmetic(p: int, pg: int, h: int, o: int, n: int)
    ensures p * (o * pg + pg * (2 * h) * n) == (o + 2 * (h * n)) * (p * pg)
  {
    var k := h * n;
    assert pg * (2 * h) * n == 2 * k * pg;
    assert o * pg + 2 * k * pg == (o + 2 * k) * pg;
    MulSwap(p, o + 2 * k, pg);
  }

  /** getLowestSetBit */
  method GetLowestSetBit(x: BigInteger) returns (g: int)
    requires x.Canonical()
    ensures x.Value() == 0 ==> g == -1
    ensures x.Value() != 0 ==> 0 <= g && LowestBit(x.Value(), g)
  {
    var i := 0;
    while i < x.t
      invariant 0 <= i <= x.t && forall k :: 0 <= k < i ==> x.d[k] == 0
    {
      if x.d[i] != 0 {
        g := LBit(x.d[i]);
        LowestLimb(x.d, x.t, x.s, i, g);
        return i * DB() + g;
      }
      i := i + 1;
    }
    NoLowLimb(x.d, x.t, x.s);
    if x.s < 0 {
      g := x.t * DB();
      return;
    }
    return -1;
  }

  lemma LowestLimb(d: seq<int>, t: nat, s: int, i: nat, g: nat)
    requires Digits(d, t, s) && i < t && (forall k :: 0 <= k < i ==> d[k] == 0)
    requires d[i] != 0 && LowestBit(d[i], g)
    ensures LowestBit(Num(d, t, s), i * DB() + g) && Num(d, t, s) != 0
  {
    SegZero(d, 0, i);
    TailSplit(d, i, t, s);
    TailLow(d, i, t, s);
    LowestBitAbove(Num(d, t, s), d[i], i, g, TailNum(d, i + 1, t, s));
    var o := OddPart(Num(d, t, s), i * DB() + g);
    if Num(d, t, s) == 0 {
      MulNonZero(o, Pow2(i * DB() + g));
    }
  }

  lemma MulNonZero(x: int, y: int)
    requires x != 0 && y > 0
    ensures x * y != 0
  {
  }

  lemma NoLowLimb(d: seq<int>, t: nat, s: int)
    requires Digits(d, t, s) && (forall k :: 0 <= k < t ==> d[k] == 0)
    ensures s == 0 ==> Num(d, t, s) == 0
    ensures s < 0 ==> Num(d, t, s) != 0 && LowestBit(Num(d, t, s), t * DB())
  {
    SegZero(d, 0, t);
    PIsPow2(t);
    if s < 0 {
      OddMultiple(Num(d, t, s), t * DB(), -1);
    }
  }
}
