/** Barrett reduction (HAC 14.42) and the truncated products it uses. */
module Barrett {
  import opened JsNumber
  import opened Limbs
  import opened Modular
  import opened BigIntegers
  import opened AmSteps
  import opened Multiply
  import opened Divide
  import opened Shifts

  /** dAddOffset: x += n << w words. */
  method DAddOffset(x: BigInteger, n: int, w0: nat)
    requires x.Canonical() && x.s == 0 && 0 <= n < DV
    modifies x
    ensures x.Canonical() && x.s == 0 && x.Value() == old(x.Value()) + n * P(w0)
  {
    hide Seg, P;
    if n == 0 {
      return;
    }
    ghost var total := x.Value() + n * P(w0);
    PadUpTo(x, w0);
    var w := w0;
    ghost var E := x.d;
    x.d := x.d[w := x.d[w] + n];
    SegOne(E, w);
    SegOne(x.d, w);
    SegPatch(E, x.d, w, w + 1, x.t, n);
    Comm(P(w), n);
    while x.d[w] >= DV
      invariant w < x.t <= |x.d| && x.s == 0 && 0 <= x.d[w] < 2 * DV
      invariant InRange(x.d, 0, w) && InRange(x.d, w + 1, x.t) && Seg(x.d, 0, x.t) == total
      invariant x.t > w + 1 ==> x.d[x.t - 1] != 0
      invariant x.t == w + 1 ==> x.d[w] != 0
      decreases x.t - w, x.d[w]
    {
      w := CarryUp(x, w);
    }
  }

  /** The limbs up to w0 exist, as zeros if they are new. */
  method PadUpTo(x: BigInteger, w0: nat)
    requires x.Canonical() && x.s == 0
    modifies x
    ensures x.Valid() && x.s == 0 && x.t > w0 && x.Value() == old(x.Value())
    ensures x.d[x.t - 1] != 0 || x.t == w0 + 1
  {
    hide P;
    while x.t <= w0
      invariant x.Valid() && x.s == 0 && x.Value() == old(x.Value())
      invariant x.t > w0 ==> (x.d[x.t - 1] != 0 || x.t == w0 + 1)
    {
      ghost var D := x.d;
      x.d := Put(x.d, x.t, 0);
      x.t := x.t + 1;
      SegFrame(x.d, D, 0, x.t - 1);
    }
  }

  /** One carry of dAddOffset, into a new limb if need be. */
  method CarryUp(x: BigInteger, w0: nat) returns (w: nat)
    requires w0 < x.t <= |x.d| && x.s == 0 && DV <= x.d[w0] < 2 * DV
    requires InRange(x.d, 0, w0) && InRange(x.d, w0 + 1, x.t)
    requires x.t > w0 + 1 ==> x.d[x.t - 1] != 0
    modifies x
    ensures w == w0 + 1 < x.t <= |x.d| && x.s == 0 && 0 < x.d[w] < 2 * DV
    ensures InRange(x.d, 0, w) && InRange(x.d, w + 1, x.t)
    ensures Seg(x.d, 0, x.t) == old(Seg(x.d, 0, x.t))
    ensures x.t > w + 1 ==> x.d[x.t - 1] != 0
    ensures if old(x.t) == w0 + 1 then x.t == w + 1 && x.d[w] == 1 else x.t == old(x.t)
  {
    hide P, Seg;
    w := w0 + 1;
    ghost var D, T := x.d, x.t;
    if w >= x.t {
      x.d := Put(x.d, x.t, 0);
      x.t := x.t + 1;
      SegPut(D, x.d, T);
    }
    CarryMoved(x.d, w0, x.t);
    x.d := x.d[w0 := x.d[w0] - DV];
    x.d := x.d[w := x.d[w] + 1];
  }

  lemma SegPut(before: seq<int>, d: seq<int>, t: nat)
    requires t <= |before| && t < |d| && d[t] == 0 && forall k :: 0 <= k < t ==> d[k] == before[k]
    ensures Seg(d, 0, t + 1) == Seg(before, 0, t)
  {
    SegFrame(d, before, 0, t);
  }

  lemma CarryMoved(d: seq<int>, i: nat, t: nat)
    requires i + 1 < t <= |d|
    ensures Seg(d[i := d[i] - DV][i + 1 := d[i + 1] + 1], 0, t) == Seg(d, 0, t)
  {
    var e := d[i := d[i] - DV][i + 1 := d[i + 1] + 1];
    SegTwo(d, i);
    SegTwo(e, i);
    SegPatch(d, e, i, i + 2, t, 0);
  }

  /** multiplyLowerTo: r = the low n words of x * a. */
  method MultiplyLowerTo(x: BigInteger, a: BigInteger, n: nat, r: BigInteger)
    requires x.Canonical() && a.Canonical() && x.s == 0 && a.s == 0 && a.t <= n && r != x && r != a
    modifies r
    ensures r.Canonical() && r.s == 0 && r.Value() == (x.Value() * a.Value()) % P(n)
  {
    var k := if x.t + a.t < n then x.t + a.t else n;
    var i := LowFullRows(x, a, k, r);
    SegBound(r.d, 0, k);
    LowExact(Seg(r.d, 0, k), k, n, x.Value() * Seg(a.d, 0, i));
    while i < a.t
      invariant 0 <= i <= a.t && r.t == k && r.s == 0 && r.Valid()
      invariant i < a.t ==> k == n && n <= i + x.t
      invariant Seg(r.d, 0, k) == (x.Value() * Seg(a.d, 0, i)) % P(n)
    {
      ghost var before := r.d;
      var co := Am(x, 0, a.d[i], r, i, 0, n - i);
      LowRow(x.d, x.t, a.d, i, n, before, r.d, co);
      i := i + 1;
    }
    r.Clamp();
    NumSign(r.d, r.t, r.s);
  }

  /** The rows of multiplyLowerTo that fit whole. */
  method LowFullRows(x: BigInteger, a: BigInteger, k: nat, r: BigInteger) returns (i: nat)
    requires x.Canonical() && a.Canonical() && x.s == 0 && a.s == 0 && r != x && r != a && k <= x.t + a.t
    modifies r
    ensures r.Valid() && r.t == k && r.s == 0 && i <= a.t && k <= i + x.t
    ensures Seg(r.d, 0, k) == x.Value() * Seg(a.d, 0, i)
  {
    ZeroLimbs(r, k);
    SegZero(r.d, 0, k);
    i := 0;
    ghost var X := x.Value();
    LowStart(X, a.d, k);
    while i + x.t < k
      invariant 0 <= i <= a.t && r.t == k && r.s == 0 && r.Valid()
      invariant forall j :: x.t + i <= j < k ==> r.d[j] == 0
      invariant Seg(r.d, 0, k) == X * Seg(a.d, 0, i)
    {
      ghost var before := r.d;
      var co := Am(x, 0, a.d[i], r, i, 0, x.t);
      ghost var mid := r.d;
      r.d := r.d[i + x.t := co];
      MultiplyRow(x.d, x.t, a.d[i], before, i, mid, r.d, co, k, a.d[i] * X);
      RowProduct(X, Seg(a.d, 0, i), a.d[i], P(i));
      i := i + 1;
    }
  }

  lemma LowStart(X: int, a: seq<int>, n: nat)
    ensures X * Seg(a, 0, 0) == 0
  {
  }

  lemma LowExact(v: int, k: nat, n: nat, w: int)
    requires 0 <= v < P(k) && v == w && k <= n
    ensures v == w % P(n)
  {
    PMono(k, n);
    DivUnique(w, P(n), 0, v);
  }

  /** A row cut off at limb n still gives the product modulo DV^n. */
  lemma LowRow(x: seq<int>, xt: nat, a: seq<int>, i: nat, n: nat, before: seq<int>, after: seq<int>, co: int)
    requires xt <= |x| && i < |a| && i <= n <= i + xt && n <= |before|
    requires InRange(before, 0, n)
    requires AmDone(x, 0, a[i], before, i, 0, n - i, after, co)
    requires Seg(before, 0, n) == (Seg(x, 0, xt) * Seg(a, 0, i)) % P(n)
    ensures InRange(after, 0, n) && Seg(after, 0, n) == (Seg(x, 0, xt) * Seg(a, 0, i + 1)) % P(n)
  {
    var y, X, xl, xh := a[i], Seg(x, 0, xt), Seg(x, 0, n - i), Seg(x, n - i, xt);
    var delta := y * xl - co * P(n - i);
    SegPatch(before, after, i, n, n, delta);
    SegSplit(x, 0, n - i, xt);
    PAdd(i, n - i);
    SegBound(after, 0, n);
    CongMod(X * Seg(a, 0, i), P(n));
    var k := CongWitness(Seg(before, 0, n), X * Seg(a, 0, i), P(n));
    RowProduct(X, Seg(a, 0, i), y, P(i));
    LowAlgebra(P(i), P(n - i), y, X, xl, xh, co, delta);
    SumProduct(k, -(co + y * xh), P(n));
    NegProduct(co + y * xh, P(n));
    CongIntro(Seg(after, 0, n), X * Seg(a, 0, i + 1), P(n), k - (co + y * xh));
    CongUnique(Seg(after, 0, n), X * Seg(a, 0, i + 1), P(n));
  }

  lemma LowAlgebra(p: int, q: int, y: int, X: int, xl: int, xh: int, co: int, delta: int)
    requires X == xl + q * xh && delta == y * xl - co * q
    ensures p * delta == p * (y * X) - (co + y * xh) * (p * q)
  {
    assert y * X == y * xl + (y * xh) * q by {
      assert y * (xl + q * xh) == y * xl + y * (q * xh);
      assert y * (q * xh) == (y * xh) * q;
    }
    assert delta == y * X - (co + y * xh) * q by { SumProduct(co, y * xh, q); }
    var z := co + y * xh;
    assert p * (y * X - z * q) == p * (y * X) - p * (z * q);
    MulSwap(p, z, q);
  }

  /** What multiplyUpperTo has summed after i words: the products shifted down by n words, each rounded
      down, hence too small by less than i units. */
  ghost predicate UpperSum(x: int, a: int, i: nat, n: nat, v: int) {
    0 <= x * a - P(n) * v <= i * (DV * P(n))
  }

  /** Row i of multiplyUpperTo: y times the part of x above word n - i. */
  lemma UpperRow(X: int, low: int, high: int, A: int, y: int, i: nat, n: nat, v: int)
    requires i <= n && 0 <= low < P(n - i) && X == low + P(n - i) * high && 0 <= y < DV
    requires UpperSum(X, A, i, n, v)
    ensures UpperSum(X, A + y * P(i), i + 1, n, v + y * high)
  {
    var p, q := P(i), P(n - i);
    PAdd(i, n - i);
    UpperAlgebra(X, low, high, A, y, p, q, v);
    MulLe(0, low, y * p) by { MulLe(0, y, p); }
    MulLe(0, y, p);
    UpperBound(y, p, low, q);
    SumProduct(i, 1, DV * P(n));
  }

  lemma UpperAlgebra(X: int, low: int, high: int, A: int, y: int, p: int, q: int, v: int)
    requires X == low + q * high
    ensures X * (A + y * p) - (p * q) * (v + y * high) == X * A - (p * q) * v + low * (y * p)
  {
    assert X * (A + y * p) == X * A + X * (y * p);
    assert X * (y * p) == low * (y * p) + (q * high) * (y * p);
    assert (q * high) * (y * p) == (p * q) * (y * high);
    assert (p * q) * (v + y * high) == (p * q) * v + (p * q) * (y * high);
  }

  lemma UpperBound(y: int, p: int, low: int, q: int)
    requires 0 <= y < DV && 0 < p && 0 <= low < q
    ensures 0 <= low * (y * p) <= DV * (p * q)
  {
    MulLe(0, y, p);
    MulLe(y, DV, p);
    MulBound(low, y * p, q, DV * p);
    assert q * (DV * p) == DV * (p * q);
  }

  /** multiplyUpperTo: r is close to x * a without its low n words, never above, and below by less than n. */
  method MultiplyUpperTo(x: BigInteger, a: BigInteger, n0: nat, r: BigInteger)
    requires x.Canonical() && a.Canonical() && x.s == 0 && a.s == 0 && r != x && r != a
    requires 0 < n0 && a.t <= n0
    modifies r
    ensures r.Canonical() && r.s == 0
    ensures r.Value() * P(n0) <= x.Value() * a.Value() < (r.Value() + 1 + a.t) * P(n0)
  {
    UpperRows(x, a, n0 - 1, r);
    ghost var V := Seg(r.d, 0, r.t);
    r.Clamp();
    r.DRShiftTo(1, r);
    UpperFinish(x.Value(), a.Value(), a.t, n0 - 1, V, r.Value());
  }

  /** The loops of multiplyUpperTo. */
  method UpperRows(x: BigInteger, a: BigInteger, n: nat, r: BigInteger)
    requires x.Canonical() && a.Canonical() && x.s == 0 && a.s == 0 && r != x && r != a
    requires a.t <= n + 1
    modifies r
    ensures r.Valid() && r.s == 0 && UpperSum(x.Value(), a.Value(), a.t, n, Seg(r.d, 0, r.t))
  {
    // a length below 0, which leaves no limb, is 0 here
    var length := if x.t + a.t > n then x.t + a.t - n else 0;
    ZeroLimbs(r, length);
    SegZero(r.d, 0, r.t);
    var i := if n > x.t then n - x.t else 0;
    UpperStart(x.d, x.t, a.d, if i < a.t then i else a.t, n);
    while i < a.t
      invariant n - x.t <= i && 0 <= i && r.Valid() && r.s == 0 && r.t == length
      invariant forall j :: x.t + i - n <= j < r.t ==> r.d[j] == 0
      invariant var k := if i < a.t then i else a.t;
                UpperSum(Seg(x.d, 0, x.t), Seg(a.d, 0, k), k, n, Seg(r.d, 0, r.t))
    {
      AddUpperRow(x, a, i, n, r);
      i := i + 1;
    }
  }

  /** One row of the product, without the columns below n. */
  method AddUpperRow(x: BigInteger, a: BigInteger, i: nat, n: nat, r: BigInteger)
    requires x.Canonical() && a.Canonical() && x.s == 0 && a.s == 0 && r != x && r != a
    requires a.t <= n + 1 && n - x.t <= i < a.t && r.Valid() && r.s == 0 && r.t == x.t + a.t - n
    requires forall j :: x.t + i - n <= j < r.t ==> r.d[j] == 0
    requires UpperSum(Seg(x.d, 0, x.t), Seg(a.d, 0, i), i, n, Seg(r.d, 0, r.t))
    modifies r`d
    ensures r.Valid() && forall j :: x.t + (i + 1) - n <= j < r.t ==> r.d[j] == 0
    ensures UpperSum(Seg(x.d, 0, x.t), Seg(a.d, 0, i + 1), i + 1, n, Seg(r.d, 0, r.t))
  {
    ghost var before := r.d;
    var co := Am(x, n - i, a.d[i], r, 0, 0, x.t + i - n);
    ghost var mid := r.d;
    r.d := r.d[x.t + i - n := co];
    UpperStep(x.d, x.t, a.d, i, n, before, mid, r.d, co, r.t);
  }

  /** Rows that lie below column n as a whole are left out. */
  lemma UpperStart(x: seq<int>, xt: nat, a: seq<int>, i: nat, n: nat)
    requires xt <= |x| && i <= |a| && InRange(x, 0, xt) && InRange(a, 0, i) && (i > 0 ==> xt + i <= n)
    ensures UpperSum(Seg(x, 0, xt), Seg(a, 0, i), i, n, 0)
  {
    SegBound(x, 0, xt);
    SegBound(a, 0, i);
    if i > 0 {
      PAdd(xt, i);
      PMono(xt + i, n);
      MulBound(Seg(x, 0, xt), Seg(a, 0, i), P(xt), P(i));
      MulLe(1, i * DV, P(n));
      MulAssoc(i, DV, P(n));
    }
  }

  lemma UpperCell(x: seq<int>, lo: nat, xt: nat, y: int, before: seq<int>, mid: seq<int>, after: seq<int>, co: int,
                  t: nat)
    requires lo <= xt <= |x| && xt - lo < t <= |before|
    requires AmDone(x, lo, y, before, 0, 0, xt - lo, mid, co) && after == mid[xt - lo := co]
    requires forall j :: xt - lo <= j < t ==> before[j] == 0
    ensures Seg(after, 0, t) == Seg(before, 0, t) + y * Seg(x, lo, xt)
    ensures forall j :: xt - lo + 1 <= j < t ==> after[j] == 0
  {
    hide Seg, P, AmDone;
    RowWritten(x, lo, xt, y, before, mid, co);
    CellTop(before, mid, after, xt - lo, co, y * Seg(x, lo, xt));
    PatchStart(before, after, xt - lo + 1, t, y * Seg(x, lo, xt));
  }

  lemma PatchStart(a: seq<int>, b: seq<int>, hi: nat, t: nat, delta: int)
    requires hi <= t <= |a| && t <= |b| && Seg(b, 0, hi) == Seg(a, 0, hi) + delta
    requires forall k :: hi <= k < t ==> a[k] == b[k]
    ensures Seg(b, 0, t) == Seg(a, 0, t) + delta
  {
    SegPatch(a, b, 0, hi, t, delta);
    assert P(0) == 1;
  }

  lemma RowWritten(x: seq<int>, lo: nat, xt: nat, y: int, before: seq<int>, mid: seq<int>, co: int)
    requires lo <= xt <= |x| && xt - lo < |before|
    requires AmDone(x, lo, y, before, 0, 0, xt - lo, mid, co)
    ensures |mid| == |before| && forall j :: xt - lo <= j < |before| ==> mid[j] == before[j]
    ensures Seg(mid, 0, xt - lo) + co * P(xt - lo) == Seg(before, 0, xt - lo) + y * Seg(x, lo, xt)
  {
    assert P(0) == 1;
  }

  lemma CellTop(before: seq<int>, mid: seq<int>, after: seq<int>, n: nat, co: int, row: int)
    requires n < |mid| == |before| && after == mid[n := co] && before[n] == 0
    requires Seg(mid, 0, n) + co * P(n) == Seg(before, 0, n) + row
    ensures Seg(after, 0, n + 1) == Seg(before, 0, n + 1) + row
  {
    SegFrame(mid, after, 0, n);
  }

  lemma UpperStep(x: seq<int>, xt: nat, a: seq<int>, i: nat, n: nat, before: seq<int>, mid: seq<int>, after: seq<int>,
                  co: int, t: nat)
    requires i <= n <= xt + i && xt <= |x| && i < |a| && xt + i - n < t <= |before| && InRange(x, 0, xt)
    requires 0 <= a[i] < DV
    requires AmDone(x, n - i, a[i], before, 0, 0, xt + i - n, mid, co) && after == mid[xt + i - n := co]
    requires forall j :: xt + i - n <= j < t ==> before[j] == 0
    requires UpperSum(Seg(x, 0, xt), Seg(a, 0, i), i, n, Seg(before, 0, t))
    ensures UpperSum(Seg(x, 0, xt), Seg(a, 0, i + 1), i + 1, n, Seg(after, 0, t))
    ensures forall j :: xt + i + 1 - n <= j < t ==> after[j] == 0
  {
    UpperCell(x, n - i, xt, a[i], before, mid, after, co, t);
    SegSplit(x, 0, n - i, xt);
    SegBound(x, 0, n - i);
    UpperRow(Seg(x, 0, xt), Seg(x, 0, n - i), Seg(x, n - i, xt), Seg(a, 0, i), a[i], i, n, Seg(before, 0, t));
  }

  lemma UpperFinish(X: int, A: int, k: nat, n: nat, V: int, q: int)
    requires UpperSum(X, A, k, n, V) && q == V / P(1)
    ensures q * P(n + 1) <= X * A < (q + 1 + k) * P(n + 1)
  {
    assert P(1) == DV * P(0) == DV;
    assert V == DV * q + V % DV;
    UpperFloor(P(n), V, q, k, X * A);
  }

  lemma UpperFloor(p: int, V: int, q: int, k: int, xa: int)
    requires 0 < p && DV * q <= V && V + 1 <= DV * (q + 1)
    requires 0 <= xa - p * V <= k * (DV * p)
    ensures q * (DV * p) <= xa < (q + 1 + k) * (DV * p)
  {
    MulMono(p, DV * q, V);
    MulMono(p, V + 1, DV * (q + 1));
    UpperCommute(p, q);
    UpperCommute(p, q + 1);
    DistributeAdd(p, V, 1);
    SumProduct(q + 1, k, DV * p);
  }

  lemma UpperCommute(p: int, q: int)
    ensures p * (DV * q) == q * (DV * p)
  {
  }

  /** The estimated quotient q is never too big: X - q * M >= 0. */
  lemma BarrettUpper(X: int, M: int, mu: int, x1: int, p1: int, p2: int, b: int, q: int)
    requires 0 < M && 0 < p1 && 0 < p2 && b == p1 * p2 && 0 <= X && 0 <= mu && 0 <= x1
    requires mu * M <= b && x1 * p1 <= X && q * p2 <= mu * x1
    ensures q * M <= X
  {
    MulBound(mu * M, x1 * p1, b, X) by {
      MulLe(0, mu, M);
      MulLe(0, x1, p1);
    }
    MulLe(0, M, p1);
    MulLe(q * p2, mu * x1, M * p1);
    Shuffle(mu, x1, M, p1);
    BarrettShuffle(q, p2, M, p1, b);
    if q * M > X {
      MulLt(X, q * M, b);
      Comm(b, X);
      assert false;
    }
  }

  lemma BarrettShuffle(q: int, p2: int, M: int, p1: int, b: int)
    requires b == p1 * p2
    ensures (q * p2) * (M * p1) == (q * M) * b
  {
  }

  /** Nor too small by more than a few units: Q stands for q plus the number of rounded rows. */
  lemma BarrettLower(X: int, M: int, mu: int, x1: int, p1: int, p2: int, b: int, Q: int)
    requires 0 < p1 <= M && 0 < p2 && b == p1 * p2 && 0 <= X < b && 0 <= mu && 0 <= x1
    requires mu * M <= b < mu * M + M && x1 * p1 <= X < x1 * p1 + p1 && mu * x1 < Q * p2
    ensures X < Q * M + 2 * M
  {
    var rho, sig := b - mu * M, X - x1 * p1;
    MulBound(rho, X, M, b);
    MulBound(sig, b, p1, b);
    BarrettExpand(b, rho, X, sig);
    MulBound(rho, sig, rho, sig);
    MulLe(1, M, p1);
    MulLt(mu * x1, Q * p2, M * p1);
    Shuffle(mu, x1, M, p1);
    BarrettShuffle(Q, p2, M, p1, b);
    assert b * X - M * b - p1 * b < (Q * M) * b;
    if X >= Q * M + 2 * M {
      MulLe(Q * M + M + p1, X, b);
      BarrettSum(Q * M, M, p1, b);
      Comm(b, X);
      assert false;
    }
  }

  lemma BarrettExpand(b: int, rho: int, X: int, sig: int)
    ensures (b - rho) * (X - sig) == b * X - rho * X - sig * b + rho * sig
  {
  }

  lemma BarrettSum(x: int, y: int, z: int, b: int)
    ensures (x + y + z) * b == x * b + y * b + z * b
  {
  }

  /** Rounded quotients as inequalities. */
  lemma QuotientOf(a: int, b: int, q: int)
    requires 0 < b && 0 <= a && q == a / b
    ensures 0 <= q && q * b <= a < q * b + b
  {
    assert a == b * q + a % b;
    DivBounds(a, b, 0);
  }

  /** The remainder left by the estimate fits in k + 1 words, so nothing is lost by cutting it there. */
  lemma BarrettFits(X: int, M: int, k: nat, mu: int, x1: int, q: int, rows: nat)
    requires 0 < k && k + 4 <= DV && P(k - 1) <= M < P(k) && 0 <= X < P(2 * k)
    requires mu == P(2 * k) / M && x1 == X / P(k - 1) && rows <= k + 1
    requires q * P(k + 1) <= mu * x1 < (q + 1 + rows) * P(k + 1)
    ensures 0 <= X - q * M < P(k + 1)
  {
    PAdd(k - 1, k + 1);
    QuotientOf(P(2 * k), M, mu);
    QuotientOf(X, P(k - 1), x1);
    BarrettUpper(X, M, mu, x1, P(k - 1), P(k + 1), P(2 * k), q);
    BarrettLower(X, M, mu, x1, P(k - 1), P(k + 1), P(2 * k), q + 1 + rows);
    SumProduct(q, 1 + rows, M);
    SumProduct(1 + rows, 2, M);
    MulLe(3 + rows, DV, M);
    MulMono(DV, M, P(k));
  }

  lemma ManyLimbs(d: seq<int>, t: nat, n: nat)
    requires Digits(d, t, 0) && P(n) <= Num(d, t, 0)
    ensures n < t
  {
    NumSign(d, t, 0);
    if t <= n {
      PMono(t, n);
    }
  }

  /** mu = DV^2k / m has more than k limbs. */
  lemma MuSize(k: nat, M: int)
    requires 0 < M < P(k)
    ensures P(k) <= P(2 * k) / M
  {
    PAdd(k, k);
    MulMono(P(k), M, P(k));
    DivBounds(P(2 * k), M, P(k));
  }

  /** Cutting x down to its low k + 1 limbs. */
  method KeepLow(x: BigInteger, n: nat)
    requires x.Canonical() && x.s == 0
    modifies x
    ensures x.Canonical() && x.s == 0 && x.Value() == old(x.Value()) % P(n)
  {
    ghost var X := x.Value();
    if x.t > n {
      SegSplit(x.d, 0, n, x.t);
      SegBound(x.d, 0, n);
      Comm(P(n), Seg(x.d, n, x.t));
      DivUnique(X, P(n), Seg(x.d, n, x.t), Seg(x.d, 0, n));
      x.t := n;
      x.Clamp();
    } else {
      NumSign(x.d, x.t, x.s);
      PMono(x.t, n);
      DivUnique(X, P(n), 0, X);
    }
  }

  /** The truncated difference is the true remainder, plus DV^n when the subtraction would wrap. */
  lemma WrappedDifference(X: int, q: int, p: int, a: int, b: int)
    requires p > 0 && a == X % p && b == q % p && 0 <= X - q < p
    ensures a - b == X - q || a - b == X - q - p
  {
    CongMod(X, p);
    CongMod(q, p);
    var k := CongWitness(a, X, p);
    var l := CongWitness(b, q, p);
    SumProduct(k, -l, p);
    NegProduct(l, p);
    SplitUnique3(a - b, X - q, p, k - l);
  }

  lemma SplitUnique3(d: int, e: int, p: int, k: int)
    requires d == e + k * p && 0 <= e < p && -p < d < p
    ensures d == e || d == e - p
  {
    if k > 0 {
      MulLe(1, k, p);
    } else if k < -1 {
      MulLe(k, -2, p);
    }
  }

  /** Barrett's reduce leaves the remainder of x in x. */
  method BarrettReduce(x: BigInteger, m: BigInteger, mu: BigInteger, r2: BigInteger, q3: BigInteger)
    requires x != m && x != mu && x != r2 && x != q3 && r2 != q3 && r2 != m && r2 != mu && q3 != m && q3 != mu
    requires m.Canonical() && m.s == 0 && 0 < m.t && m.t + 4 <= DV
    requires mu.Canonical() && mu.s == 0 && m.Value() > 0 && mu.Value() == P(2 * m.t) / m.Value()
    requires x.Canonical() && 0 <= x.Value() < P(2 * m.t)
    modifies x, r2, q3
    ensures x.Canonical() && x.Value() == old(x.Value()) % m.Value()
  {
    ghost var X, M := x.Value(), m.Value();
    var k := m.t;
    NumSign(x.d, x.t, x.s);
    BarrettEstimate(x, m, mu, r2, q3);
    ghost var q := q3.Value();
    KeepLow(x, k + 1);
    MultiplyLowerTo(m, q3, k + 1, r2);
    Comm(q, M);
    WrappedDifference(X, q * M, P(k + 1), x.Value(), r2.Value());
    CongMod(q * M, P(k + 1));
    CongMod(X, P(k + 1));
    WrapSubtract(x, r2, k + 1, X - q * M);
    SubtractModulus(x, m, X, q);
  }

  /** Subtraction modulo DV^n: borrow DV^n first if it would go below zero. */
  method WrapSubtract(x: BigInteger, r: BigInteger, n: nat, ghost d: int)
    requires x != r && x.Canonical() && r.Canonical() && x.s == 0 && r.s == 0
    requires 0 <= d < P(n) && (x.Value() - r.Value() == d || x.Value() - r.Value() == d - P(n))
    modifies x
    ensures x.Canonical() && x.Value() == d
  {
    var c := x.CompareTo(r);
    while c < 0
      invariant x.Canonical() && x.s == 0 && r.Canonical() && r.s == 0
      invariant x.Value() - r.Value() == d || x.Value() - r.Value() == d - P(n)
      invariant c < 0 <==> x.Value() < r.Value()
      decreases if c < 0 then 1 else 0
    {
      DAddOffset(x, 1, n);
      c := x.CompareTo(r);
    }
    x.SubTo(r, x);
  }

  /** q3 becomes the estimated quotient. */
  method BarrettEstimate(x: BigInteger, m: BigInteger, mu: BigInteger, r2: BigInteger, q3: BigInteger)
    requires r2 != x && q3 != x && r2 != q3 && r2 != m && r2 != mu && q3 != m && q3 != mu
    requires m.Canonical() && m.s == 0 && 0 < m.t && m.t + 4 <= DV
    requires mu.Canonical() && mu.s == 0 && m.Value() > 0 && mu.Value() == P(2 * m.t) / m.Value()
    requires x.Canonical() && 0 <= x.Value() < P(2 * m.t)
    modifies r2, q3
    ensures q3.Canonical() && q3.s == 0 && q3.t <= m.t + 1
    ensures 0 <= x.Value() - q3.Value() * m.Value() < P(m.t + 1)
  {
    ghost var X, M := x.Value(), m.Value();
    var k := m.t;
    NumSign(m.d, m.t, m.s);
    ClampedSize(m.d, m.t, m.s);
    NumSign(x.d, x.t, x.s);
    FewLimbs(x.d, x.t, 2 * k);
    x.DRShiftTo(k - 1, r2);
    MuSize(k, M);
    ManyLimbs(mu.d, mu.t, k);
    MultiplyUpperTo(mu, r2, k + 1, q3);
    BarrettFits(X, M, k, mu.Value(), r2.Value(), q3.Value(), r2.t);
    BarrettQuotientSize(X, M, k, q3.Value());
    FewLimbs(q3.d, q3.t, k + 1);
  }

  lemma BarrettQuotientSize(X: int, M: int, k: nat, q: int)
    requires 0 < k && P(k - 1) <= M && 0 <= X < P(2 * k) && q * M <= X
    ensures q < P(k + 1)
  {
    PAdd(k - 1, k + 1);
    if q >= P(k + 1) {
      MulBound(P(k - 1), P(k + 1), M, q);
      Comm(q, M);
    }
  }

  /** The last loop of reduce. */
  method SubtractModulus(x: BigInteger, m: BigInteger, ghost X: int, ghost q: int)
    requires x != m && x.Canonical() && m.Canonical() && m.Value() > 0 && m.s == 0
    requires x.Value() == X - q * m.Value() >= 0
    modifies x
    ensures x.Canonical() && x.Value() == X % m.Value()
  {
    ghost var M, e := m.Value(), q;
    NumSign(x.d, x.t, x.s);
    var c := x.CompareTo(m);
    while c >= 0
      invariant x.Canonical() && x.s == 0 && x.Value() == X - e * M >= 0
      invariant c < 0 <==> x.Value() < M
      decreases x.Value()
    {
      x.SubTo(m, x);
      SumProduct(e, 1, M);
      e := e + 1;
      NumSign(x.d, x.t, x.s);
      c := x.CompareTo(m);
    }
    DivUnique(X, M, e, x.Value());
  }
}
