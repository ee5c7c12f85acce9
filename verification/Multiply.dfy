/** Limb kernels and products: am, multiplyTo, squareTo. */
module Multiply {
  import opened JsNumber
  import opened Limbs
  import opened AmSteps
  import opened BigIntegers

  /** What am promises after n limbs: w is x * a + w + c on its slice, with the carry out on top. */
  ghost predicate AmDone(a: seq<int>, i: nat, x: int, W: seq<int>, j: nat, c: int, n: nat, w: seq<int>, co: int) {
    && i + n <= |a| && j + n <= |W| == |w|
    && (forall k :: 0 <= k < |W| && !(j <= k < j + n) ==> w[k] == W[k])
    && InRange(w, j, j + n)
    && 0 <= co <= x
    && Seg(w, j, j + n) + co * P(n) == Seg(W, j, j + n) + x * Seg(a, i, i + n) + c
  }

  predicate AmArgs(a: seq<int>, i: nat, x: int, W: seq<int>, j: nat, c: int, n: nat) {
    && i + n <= |a| && j + n <= |W|
    && InRange(a, i, i + n) && InRange(W, j, j + n)
    && 0 <= c <= x < 2 * DV
  }

  lemma AmStart(a: seq<int>, i: nat, x: int, W: seq<int>, j: nat, c: int, n: nat)
    requires AmArgs(a, i, x, W, j, c, n)
    ensures AmDone(a, i, x, W, j, c, 0, W, c)
  {
    assert P(0) == 1;
    assert x * 0 == 0;
  }

  lemma AmNext(a: seq<int>, i: nat, x: int, W: seq<int>, j: nat, c0: int, n: nat, w: seq<int>, c: int, w': seq<int>)
    requires AmDone(a, i, x, W, j, c0, n, w, c)
    requires i + n < |a| && j + n < |w| && 0 <= x < 2 * DV
    requires 0 <= a[i + n] < DV && 0 <= W[j + n] < DV
    requires w' == w[j + n := (x * a[i + n] + w[j + n] + c) % DV]
    ensures StepArgs(DV, x, a[i + n], w[j + n], c)
    ensures AmDone(a, i, x, W, j, c0, n + 1, w', (x * a[i + n] + w[j + n] + c) / DV)
  {
    var p, ai, wj := P(n), a[i + n], W[j + n];
    assert w[j + n] == wj;
    var v := x * ai + wj + c;
    CarryBound(DV, x, ai, wj, c);
    SegFrame(w', w, j, j + n);
    AmArithmetic(p, x, ai, wj, c, v / DV, v % DV, Seg(a, i, i + n));
  }

  lemma AmArithmetic(p: int, x: int, ai: int, wj: int, c: int, q: int, r: int, sa: int)
    requires x * ai + wj + c == q * DV + r
    ensures r * p + q * (DV * p) == x * (ai * p) + wj * p + c * p
    ensures x * (sa + ai * p) == x * sa + x * (ai * p)
  {
    assert (q * DV + r) * p == (x * ai + wj + c) * p;
    assert (q * DV + r) * p == q * (DV * p) + r * p;
    assert (x * ai + wj + c) * p == x * (ai * p) + wj * p + c * p;
  }

  method Am1(self: BigInteger, i: nat, x: int, w: BigInteger, j: nat, c: int, n: nat) returns (co: int)
    requires DV == 0x400_0000
    requires self != w && AmArgs(self.d, i, x, w.d, j, c, n)
    modifies w`d
    ensures AmDone(self.d, i, x, old(w.d), j, c, n, w.d, co)
  {
    ghost var W := w.d;
    AmStart(self.d, i, x, W, j, c, n);
    co := c;
    var k := 0;
    while k < n
      invariant 0 <= k <= n && AmDone(self.d, i, x, W, j, c, k, w.d, co)
    {
      ghost var w0, c0 := w.d, co;
      assert w0[j + k] == W[j + k];
      var r := Am1Step(x, self.d[i + k], w.d[j + k], co);
      w.d, co := w.d[j + k := r.0], r.1;
      AmNext(self.d, i, x, W, j, c, k, w0, c0, w.d);
      k := k + 1;
    }
  }

  method Am2(self: BigInteger, i: nat, x: int, w: BigInteger, j: nat, c: int, n: nat) returns (co: int)
    requires DV == 0x4000_0000
    requires self != w && AmArgs(self.d, i, x, w.d, j, c, n)
    modifies w`d
    ensures AmDone(self.d, i, x, old(w.d), j, c, n, w.d, co)
  {
    ghost var W := w.d;
    AmStart(self.d, i, x, W, j, c, n);
    co := c;
    var k := 0;
    while k < n
      invariant 0 <= k <= n && AmDone(self.d, i, x, W, j, c, k, w.d, co)
    {
      ghost var w0, c0 := w.d, co;
      assert w0[j + k] == W[j + k];
      var r := Am2Step(x, self.d[i + k], w.d[j + k], co);
      w.d, co := w.d[j + k := r.0], r.1;
      AmNext(self.d, i, x, W, j, c, k, w0, c0, w.d);
      k := k + 1;
    }
  }

  method Am3(self: BigInteger, i: nat, x: int, w: BigInteger, j: nat, c: int, n: nat) returns (co: int)
    requires DV == 0x1000_0000
    requires self != w && AmArgs(self.d, i, x, w.d, j, c, n)
    modifies w`d
    ensures AmDone(self.d, i, x, old(w.d), j, c, n, w.d, co)
  {
    ghost var W := w.d;
    AmStart(self.d, i, x, W, j, c, n);
    co := c;
    var k := 0;
    while k < n
      invariant 0 <= k <= n && AmDone(self.d, i, x, W, j, c, k, w.d, co)
    {
      ghost var w0, c0 := w.d, co;
      assert w0[j + k] == W[j + k];
      var r := Am3Step(x, self.d[i + k], w.d[j + k], co);
      w.d, co := w.d[j + k := r.0], r.1;
      AmNext(self.d, i, x, W, j, c, k, w0, c0, w.d);
      k := k + 1;
    }
  }

  /** The kernel the engine analysis installs with the radix. */
  method Am(self: BigInteger, i: nat, x: int, w: BigInteger, j: nat, c: int, n: nat) returns (co: int)
    requires self != w && AmArgs(self.d, i, x, w.d, j, c, n)
    modifies w`d
    ensures AmDone(self.d, i, x, old(w.d), j, c, n, w.d, co)
  {
    if DV == 0x4000_0000 {
      co := Am2(self, i, x, w, j, c, n);
    } else if DV == 0x400_0000 {
      co := Am1(self, i, x, w, j, c, n);
    } else {
      co := Am3(self, i, x, w, j, c, n);
    }
  }

  method Negate(x: BigInteger) returns (r: BigInteger)
    requires x.Valid()
    ensures fresh(r) && r.Canonical() && r.Value() == -x.Value()
  {
    r := new BigInteger();
    var zero := new BigInteger.FromInt(0);
    zero.SubTo(x, r);
  }

  function AbsInt(x: int): nat {
    if x < 0 then -x else x
  }

  /** abs: the object itself unless it is negative. */
  method Abs(x: BigInteger) returns (r: BigInteger)
    requires x.Canonical()
    ensures r.Canonical() && r.Value() == AbsInt(x.Value()) && r.s == 0
    ensures if x.s < 0 then fresh(r) else r == x
  {
    NumSign(x.d, x.t, x.s);
    if x.s < 0 {
      r := Negate(x);
      NumSign(r.d, r.t, r.s);
    } else {
      r := x;
    }
  }

  /** The difference of zero and r, in place. */
  method NegateInPlace(r: BigInteger)
    requires r.Valid()
    modifies r
    ensures r.Canonical() && r.Value() == -old(r.Value())
  {
    var zero := new BigInteger.FromInt(0);
    zero.SubTo(r, r);
  }

  /** Writes zeros into limbs 0..n. */
  method ZeroLimbs(r: BigInteger, n: nat)
    modifies r
    ensures r.t == n && r.s == 0 && r.Valid()
    ensures |r.d| >= |old(r.d)|
    ensures forall k :: 0 <= k < n ==> r.d[k] == 0
    ensures forall k :: n <= k < |old(r.d)| ==> r.d[k] == old(r.d[k])
  {
    r.t := n;
    var i := n - 1;
    ghost var R := r.d;
    while i >= 0
      invariant -1 <= i < n && |r.d| >= |R| && r.t == n
      invariant i < n - 1 ==> n <= |r.d|
      invariant forall k :: i < k < n ==> r.d[k] == 0
      invariant forall k :: n <= k < |R| ==> r.d[k] == R[k]
    {
      r.d := Put(r.d, i, 0);
      i := i - 1;
    }
    r.s := 0;
  }

  /** The limb loops of multiplyTo, on magnitudes. */
  method MultiplyLimbs(u: BigInteger, v: BigInteger, r: BigInteger)
    requires u.Valid() && v.Valid() && r != u && r != v
    modifies r
    ensures r.Valid() && r.s == 0
    ensures Seg(r.d, 0, r.t) == Seg(u.d, 0, u.t) * Seg(v.d, 0, v.t)
  {
    var n := u.t;
    ZeroLimbs(r, n + v.t);
    var i := 0;
    SegZero(r.d, 0, r.t);
    while i < v.t
      invariant 0 <= i <= v.t && r.s == 0 && r.t == n + v.t && r.Valid()
      invariant forall k :: n + i <= k < r.t ==> r.d[k] == 0
      invariant Seg(r.d, 0, r.t) == Seg(u.d, 0, n) * Seg(v.d, 0, i)
    {
      ghost var before := r.d;
      var co := Am(u, 0, v.d[i], r, i, 0, n);
      ghost var mid := r.d;
      r.d := r.d[i + n := co];
      MultiplyRow(u.d, n, v.d[i], before, i, mid, r.d, co, r.t, v.d[i] * Seg(u.d, 0, n));
      RowProduct(Seg(u.d, 0, n), Seg(v.d, 0, i), v.d[i], P(i));
      i := i + 1;
    }
  }

  /** multiplyTo: r = x * a, the schoolbook product of the magnitudes with the sign put on last. */
  method MultiplyTo(x: BigInteger, a: BigInteger, r: BigInteger)
    requires x.Canonical() && a.Canonical() && r != x && r != a
    modifies r
    ensures r.Canonical() && r.Value() == x.Value() * a.Value()
  {
    var u := Abs(x);
    var v := Abs(a);
    MultiplyLimbs(u, v, r);
    r.Clamp();
    NumSign(x.d, x.t, x.s);
    NumSign(a.d, a.t, a.s);
    AbsProduct(x.Value(), a.Value());
    if x.s != a.s {
      NegateInPlace(r);
    }
  }

  /** One row of the schoolbook product adds y * u * DV^i. */
  lemma MultiplyRow(u: seq<int>, n: nat, y: int, before: seq<int>, i: nat, mid: seq<int>, after: seq<int>, co: int,
                    t: nat, row: int)
    requires n <= |u| && i + n < t <= |before|
    requires forall k :: n + i <= k < t ==> before[k] == 0
    requires AmDone(u, 0, y, before, i, 0, n, mid, co)
    requires after == mid[i + n := co]
    requires row == y * Seg(u, 0, n)
    ensures Seg(after, 0, t) == Seg(before, 0, t) + P(i) * row
    ensures forall k :: n + i + 1 <= k < t ==> after[k] == 0
  {
    SegFrame(mid, after, i, i + n);
    assert Seg(after, i, i + n + 1) == Seg(mid, i, i + n) + co * P(n);
    assert before[i + n] == 0;
    assert Seg(before, i, i + n + 1) == Seg(before, i, i + n);
    SegPatch(before, after, i, i + n + 1, t, row);
  }

  lemma RowProduct(u: int, v: int, y: int, p: int)
    ensures u * (v + y * p) == u * v + p * (y * u)
  {
    assert u * (v + y * p) == u * v + u * (y * p);
    assert u * (y * p) == p * (y * u);
  }

  lemma AbsProduct(x: int, a: int)
    ensures AbsInt(x) * AbsInt(a) == (if (x < 0) != (a < 0) then -(x * a) else x * a)
  {
  }

  /** The limb loops of squareTo: each cross product is taken once and doubled, and the doubled
      products can carry out two limbs above the row. */
  method SquareLimbs(u: BigInteger, r: BigInteger)
    requires u.Valid() && r != u
    modifies r
    ensures r.Valid() && r.s == 0
    ensures Seg(r.d, 0, r.t) == Squared(Seg(u.d, 0, u.t))
  {
    var n := u.t;
    ZeroLimbs(r, 2 * n);
    SegZero(r.d, 0, 2 * n);
    SquareStart(Seg(u.d, 0, n));
    var i := 0;
    while i + 1 < n
      invariant 0 <= i <= n && (n > 0 ==> i < n) && r.s == 0 && r.t == 2 * n
      invariant SquareRows(u.d, n, r.d, i)
      invariant SquareSum(u.d, n, r.d, i)
    {
      SquareStep(u, n, i, r);
      i := i + 1;
    }
    if r.t > 0 {
      ghost var before := r.d;
      var v := Am(u, i, u.d[i], r, 2 * i, 0, 1);
      ghost var mid := r.d;
      r.d := r.d[r.t - 1 := r.d[r.t - 1] + v];
      SquareLast(u.d, n, before, v, mid, r.d, u.d[i] * u.d[i]);
    }
  }

  /** squareTo: r = x * x */
  method SquareTo(x: BigInteger, r: BigInteger)
    requires x.Canonical() && r != x
    modifies r
    ensures r.Canonical() && r.Value() == x.Value() * x.Value()
  {
    var u := Abs(x);
    SquareLimbs(u, r);
    r.Clamp();
    NumSign(x.d, x.t, x.s);
    AbsProduct(x.Value(), x.Value());
  }

  /** Before row i, r holds the whole square except that of the limbs i and up. */
  ghost predicate SquareSum(u: seq<int>, n: nat, r: seq<int>, i: nat)
    requires i <= n <= |u| && 2 * n <= |r|
  {
    Seg(r, 0, 2 * n) == Squared(Seg(u, 0, n)) - P(2 * i) * Squared(Seg(u, i, n))
  }

  /** The body of squareTo's loop. */
  method SquareStep(u: BigInteger, n: nat, i: nat, r: BigInteger)
    requires u != r && i + 1 < n && SquareRows(u.d, n, r.d, i) && SquareSum(u.d, n, r.d, i)
    modifies r`d
    ensures SquareRows(u.d, n, r.d, i + 1) && SquareSum(u.d, n, r.d, i + 1)
  {
    ghost var before := r.d;
    var c := Am(u, i, u.d[i], r, 2 * i, 0, 1);
    ghost var mid := r.d;
    var v := Am(u, i + 1, 2 * u.d[i], r, 2 * i + 1, c, n - i - 1);
    ghost var mid' := r.d;
    assert mid'[i + n] == before[i + n];
    r.d := r.d[i + n := r.d[i + n] + v];
    if r.d[i + n] >= DV {
      r.d := r.d[i + n := r.d[i + n] - DV];
      r.d := r.d[i + n + 1 := 1];
    }
    SquareRowShape(u.d, n, i, before, c, mid, v, mid', r.d);
    SquareRow(u.d, n, i, before, c, mid, v, mid', r.d, u.d[i] * u.d[i], 2 * u.d[i] * Seg(u.d, i + 1, n));
    SquareSumNext(u.d, n, i, before, r.d, u.d[i] * u.d[i], 2 * u.d[i] * Seg(u.d, i + 1, n));
  }

  lemma SquareSumNext(u: seq<int>, n: nat, i: nat, before: seq<int>, after: seq<int>, yy: int, yh: int)
    requires i < n <= |u| && 2 * n <= |before| && 2 * n <= |after|
    requires yy == u[i] * u[i] && yh == 2 * u[i] * Seg(u, i + 1, n)
    requires SquareSum(u, n, before, i)
    requires Seg(after, 0, 2 * n) == Seg(before, 0, 2 * n) + P(2 * i) * (yy + DV * yh)
    ensures SquareSum(u, n, after, i + 1)
  {
    SegLow(u, i, n);
    SquareArithmetic(u[i], Seg(u, i + 1, n), P(2 * i), yy, yh);
    assert P(2 * (i + 1)) == DV * (DV * P(2 * i));
  }

  function Squared(x: int): int { x * x }

  /** The state of squareTo before row i: at most a one above the rows done so far. */
  predicate SquareRows(u: seq<int>, n: nat, r: seq<int>, i: nat) {
    && n <= |u| && 2 * n <= |r| && InRange(u, 0, n) && InRange(r, 0, 2 * n)
    && (forall k :: n + i < k < 2 * n ==> r[k] == 0)
    && (n + i < 2 * n ==> r[n + i] <= 1)
  }

  lemma SquareStart(total: int)
    ensures Squared(total) - P(2 * 0) * Squared(total) == 0
  {
    assert P(0) == 1;
  }

  lemma SquareArithmetic(y: int, h: int, p: int, yy: int, yh: int)
    requires yy == y * y && yh == 2 * y * h
    ensures p * Squared(y + DV * h) == p * (yy + DV * yh) + (DV * (DV * p)) * Squared(h)
  {
    var b := DV;
    assert (y + b * h) * (y + b * h) == yy + b * yh + b * b * (h * h);
    assert p * (yy + b * yh + b * b * (h * h)) == p * (yy + b * yh) + p * (b * b * (h * h));
    assert p * (b * b * (h * h)) == (b * (b * p)) * (h * h);
  }

  /** Row i adds u[i]^2 at limb 2i and the doubled products at limb 2i + 1. */
  lemma SquareRow(u: seq<int>, n: nat, i: nat, before: seq<int>, c: int, mid: seq<int>, v: int, mid': seq<int>,
                  after: seq<int>, yy: int, yh: int)
    requires i + 1 < n && SquareRows(u, n, before, i)
    requires AmDone(u, i, u[i], before, 2 * i, 0, 1, mid, c)
    requires AmDone(u, i + 1, 2 * u[i], mid, 2 * i + 1, c, n - i - 1, mid', v)
    requires yy == u[i] * u[i] && yh == 2 * u[i] * Seg(u, i + 1, n)
    requires after == if mid'[i + n] + v >= DV then mid'[i + n := mid'[i + n] + v - DV][i + n + 1 := 1]
                      else mid'[i + n := mid'[i + n] + v]
    ensures Seg(after, 0, 2 * n) == Seg(before, 0, 2 * n) + P(2 * i) * (yy + DV * yh)
  {
    hide Seg;
    SegOne(u, i);
    SegOne(before, 2 * i);
    SegOne(mid, 2 * i);
    assert P(1) == DV * P(0) == DV;
    assert mid'[2 * i] == mid[2 * i];
    assert mid'[i + n] == before[i + n] && mid'[i + n + 1] == 0;
    SegFrame(mid, before, 2 * i + 1, i + n);
    SegFrame(after, mid', 2 * i + 1, i + n);
    SquareRowValue(before, after, 2 * i, i + n, c, v, yy, yh);
    SegPatch(before, after, 2 * i, i + n + 2, 2 * n, yy + DV * yh);
  }

  lemma SquareRowShape(u: seq<int>, n: nat, i: nat, before: seq<int>, c: int, mid: seq<int>, v: int, mid': seq<int>,
                       after: seq<int>)
    requires i + 1 < n && SquareRows(u, n, before, i)
    requires AmDone(u, i, u[i], before, 2 * i, 0, 1, mid, c)
    requires AmDone(u, i + 1, 2 * u[i], mid, 2 * i + 1, c, n - i - 1, mid', v)
    requires after == if mid'[i + n] + v >= DV then mid'[i + n := mid'[i + n] + v - DV][i + n + 1 := 1]
                      else mid'[i + n := mid'[i + n] + v]
    ensures SquareRows(u, n, after, i + 1)
  {
    assert mid'[i + n] == before[i + n] && mid'[i + n + 1] == 0;
  }

  lemma SquareRowValue(before: seq<int>, after: seq<int>, lo: nat, mid: nat, c: int, v: int, yy: int, yh: int)
    requires lo < mid && mid + 2 <= |before| && mid + 2 <= |after|
    requires after[lo] + c * DV == before[lo] + yy
    requires Seg(after, lo + 1, mid) + v * P(mid - lo - 1) == Seg(before, lo + 1, mid) + yh + c
    requires after[mid] + DV * after[mid + 1] == before[mid] + DV * before[mid + 1] + v
    ensures Seg(after, lo, mid + 2) == Seg(before, lo, mid + 2) + (yy + DV * yh)
  {
    SegSlices(before, lo, mid);
    SegSlices(after, lo, mid);
    var p, top := P(mid - lo - 1), before[mid] + DV * before[mid + 1];
    DistributeAdd(p, top, v);
    assert p * v == v * p;
  }

  lemma SegSlices(a: seq<int>, lo: nat, mid: nat)
    requires lo < mid && mid + 2 <= |a|
    ensures Seg(a, lo, mid + 2) == a[lo] + DV * (Seg(a, lo + 1, mid) + P(mid - lo - 1) * (a[mid] + DV * a[mid + 1]))
  {
    SegLow(a, lo, mid + 2);
    SegSplit(a, lo + 1, mid, mid + 2);
    SegLow(a, mid, mid + 2);
    SegOne(a, mid + 1);
  }

  lemma SquareLast(u: seq<int>, n: nat, before: seq<int>, v: int, mid: seq<int>, after: seq<int>, yy: int)
    requires n > 0 && SquareRows(u, n, before, n - 1)
    requires AmDone(u, n - 1, u[n - 1], before, 2 * (n - 1), 0, 1, mid, v)
    requires after == mid[2 * n - 1 := mid[2 * n - 1] + v]
    requires yy == u[n - 1] * u[n - 1]
    requires SquareSum(u, n, before, n - 1)
    ensures InRange(after, 0, 2 * n) && Seg(after, 0, 2 * n) == Squared(Seg(u, 0, n))
  {
    hide Seg;
    SegOne(u, n - 1);
    SegOne(before, 2 * n - 2);
    SegOne(mid, 2 * n - 2);
    assert P(1) == DV * P(0) == DV;
    assert mid[2 * n - 1] == before[2 * n - 1];
    SegTwo(before, 2 * n - 2);
    SegTwo(after, 2 * n - 2);
    assert Squared(Seg(u, n - 1, n)) == yy;
    assert after[2 * n - 2] + DV * after[2 * n - 1] == before[2 * n - 2] + DV * before[2 * n - 1] + yy;
    SegPatch(before, after, 2 * n - 2, 2 * n, 2 * n, yy);
    assert Seg(after, 0, 2 * n) == Squared(Seg(u, 0, n));
    SegBound(u, 0, n);
    TopLimbFits(after, n, Seg(u, 0, n));
  }

  lemma SegTwo(a: seq<int>, lo: nat)
    requires lo + 2 <= |a|
    ensures Seg(a, lo, lo + 2) == a[lo] + DV * a[lo + 1]
  {
    SegLow(a, lo, lo + 2);
    SegOne(a, lo + 1);
  }

  /** A square of an n-limb number fits in 2n limbs, so the top limb of the last row stays in range. */
  lemma TopLimbFits(a: seq<int>, n: nat, x: int)
    requires 0 < n && 2 * n <= |a| && InRange(a, 0, 2 * n - 1) && a[2 * n - 1] >= 0
    requires 0 <= x < P(n) && Seg(a, 0, 2 * n) == Squared(x)
    ensures InRange(a, 0, 2 * n)
  {
    SegBound(a, 0, 2 * n - 1);
    PAdd(n, n);
    SquareFits(x, P(n));
    if a[2 * n - 1] >= DV {
      MulLe(DV, a[2 * n - 1], P(2 * n - 1));
    }
  }

  lemma SquareFits(x: int, p: int)
    requires 0 <= x < p
    ensures x * x < p * p
  {
    MulLe(x, p, x);
    MulLt(x, p, p);
    assert p * x == x * p;
  }
}
