/** Numbers in base DV, least significant limb first. */
module Limbs {
  import opened JsNumber

  // The engine analysis at load time picks 26, 28 or 30 bits a limb; nothing here depends on which.
  type Radix = n: int | n == 0x400_0000 || n == 0x1000_0000 || n == 0x4000_0000 witness 0x1000_0000

  const DV: Radix

  function DB(): (n: nat)
    ensures n == 26 || n == 28 || n == 30
  {
    if DV == 0x400_0000 then 26 else if DV == 0x1000_0000 then 28 else 30
  }

  lemma RadixIsPow2()
    ensures Pow2(DB()) == DV
  {
    assert Pow2(10) == 1024;
    Pow2Add(10, 10);
    Pow2Add(20, 6);
    Pow2Add(20, 8);
    Pow2Add(20, 10);
    assert Pow2(6) == 64 && Pow2(8) == 256;
  }

  /** DV^n */
  function P(n: nat): (p: int)
    ensures p >= 1
  {
    if n == 0 then 1 else DV * P(n - 1)
  }

  lemma {:induction false} PAdd(a: nat, b: nat)
    ensures P(a + b) == P(a) * P(b)
  {
    if a > 0 {
      PAdd(a - 1, b);
      assert P(a + b) == DV * P(a - 1 + b);
      MulAssoc(DV, P(a - 1), P(b));
    }
  }

  lemma MulAssoc(x: int, y: int, z: int)
    ensures x * (y * z) == (x * y) * z
  {
  }

  lemma MulSwap(a: int, x: int, b: int)
    ensures a * (x * b) == x * (a * b)
  {
    MulAssoc(a, x, b);
    MulAssoc(x, a, b);
  }

  lemma MulRotate(x: int, q: int, p: int)
    ensures x * q * p == x * (p * q)
  {
    MulAssoc(x, q, p);
  }

  lemma MulLe(x: int, y: int, z: int)
    requires x <= y && 0 <= z
    ensures x * z <= y * z
  {
  }

  lemma MulMono(z: int, x: int, y: int)
    requires x <= y && 0 <= z
    ensures z * x <= z * y
  {
  }

  lemma Comm(x: int, y: int)
    ensures x * y == y * x
  {
  }

  lemma MulLt(x: int, y: int, z: int)
    requires x < y && 0 < z
    ensures x * z < y * z
  {
  }

  lemma {:induction false} PMono(a: nat, b: nat)
    requires a <= b
    ensures P(a) <= P(b)
  {
    if a < b {
      PMono(a, b - 1);
      MulLe(1, DV, P(b - 1));
    }
  }

  lemma {:induction false} PStrict(a: nat, b: nat)
    requires a < b
    ensures P(a) * 2 <= P(b)
  {
    PMono(a, b - 1);
    MulLe(2, DV, P(b - 1));
  }

  /** P is a power of two. */
  lemma {:induction false} PIsPow2(n: nat)
    ensures P(n) == Pow2(n * DB())
  {
    if n > 0 {
      PIsPow2(n - 1);
      RadixIsPow2();
      Pow2Add(DB(), (n - 1) * DB());
      assert DB() + (n - 1) * DB() == n * DB();
    }
  }

  /** The number written by limbs lo..hi of a. */
  function Seg(a: seq<int>, lo: nat, hi: nat): int
    requires hi <= |a|
    decreases hi
  {
    if hi <= lo then 0 else Seg(a, lo, hi - 1) + a[hi - 1] * P(hi - 1 - lo)
  }

  predicate InRange(a: seq<int>, lo: nat, hi: nat)
    requires hi <= |a|
  {
    forall k :: lo <= k < hi ==> 0 <= a[k] < DV
  }

  lemma {:induction false} SegFrame(a: seq<int>, b: seq<int>, lo: nat, hi: nat)
    requires hi <= |a| && hi <= |b|
    requires forall k :: lo <= k < hi ==> a[k] == b[k]
    ensures Seg(a, lo, hi) == Seg(b, lo, hi)
    decreases hi
  {
    if lo < hi {
      SegFrame(a, b, lo, hi - 1);
    }
  }

  lemma {:induction false} SegShift(a: seq<int>, b: seq<int>, lo: nat, hi: nat, lo': nat, hi': nat)
    requires lo <= hi <= |a| && lo' <= hi' <= |b|
    requires a[lo..hi] == b[lo'..hi']
    ensures Seg(a, lo, hi) == Seg(b, lo', hi')
    decreases hi
  {
    assert |a[lo..hi]| == |b[lo'..hi']|;
    if lo < hi {
      assert a[lo..hi - 1] == a[lo..hi][..hi - lo - 1] == b[lo'..hi' - 1];
      assert a[hi - 1] == a[lo..hi][hi - 1 - lo] == b[hi' - 1];
      SegShift(a, b, lo, hi - 1, lo', hi' - 1);
    }
  }

  lemma Distribute(p: int, s: int, x: int, q: int)
    ensures p * (s + x * q) == p * s + x * (p * q)
  {
  }

  lemma {:induction false} SegSplit(a: seq<int>, lo: nat, mid: nat, hi: nat)
    requires lo <= mid <= hi <= |a|
    ensures Seg(a, lo, hi) == Seg(a, lo, mid) + P(mid - lo) * Seg(a, mid, hi)
    decreases hi
  {
    if mid < hi {
      SegSplit(a, lo, mid, hi - 1);
      PAdd(mid - lo, hi - 1 - mid);
      assert hi - 1 - lo == (mid - lo) + (hi - 1 - mid);
      Distribute(P(mid - lo), Seg(a, mid, hi - 1), a[hi - 1], P(hi - 1 - mid));
      assert Seg(a, mid, hi) == Seg(a, mid, hi - 1) + a[hi - 1] * P(hi - 1 - mid);
    } else {
      assert Seg(a, mid, hi) == 0;
    }
  }

  lemma SegOne(a: seq<int>, lo: nat)
    requires lo < |a|
    ensures Seg(a, lo, lo + 1) == a[lo]
  {
    assert Seg(a, lo, lo) == 0;
    assert P(0) == 1;
  }

  lemma SegLow(a: seq<int>, lo: nat, hi: nat)
    requires lo < hi <= |a|
    ensures Seg(a, lo, hi) == a[lo] + DV * Seg(a, lo + 1, hi)
  {
    SegSplit(a, lo, lo + 1, hi);
    SegOne(a, lo);
    assert P(1) == DV * P(0) == DV;
  }

  lemma {:induction false} SegBound(a: seq<int>, lo: nat, hi: nat)
    requires lo <= hi <= |a| && InRange(a, lo, hi)
    ensures 0 <= Seg(a, lo, hi) < P(hi - lo)
    decreases hi
  {
    if lo < hi {
      SegBound(a, lo, hi - 1);
      var p, x := P(hi - 1 - lo), a[hi - 1];
      MulLe(x, DV - 1, p);
      MulLe(0, x, p);
      assert P(hi - lo) == DV * p;
      assert (DV - 1) * p == DV * p - p;
    }
  }

  lemma {:induction false} SegZero(a: seq<int>, lo: nat, hi: nat)
    requires lo <= hi <= |a|
    requires forall k :: lo <= k < hi ==> a[k] == 0
    ensures Seg(a, lo, hi) == 0
    decreases hi
  {
    if lo < hi {
      SegZero(a, lo, hi - 1);
    }
  }

  /** A number with a non-zero limb at or above mid is at least that big. */
  lemma {:induction false} SegTop(a: seq<int>, lo: nat, hi: nat)
    requires lo < hi <= |a| && InRange(a, lo, hi) && a[hi - 1] != 0
    ensures Seg(a, lo, hi) >= P(hi - 1 - lo) * a[hi - 1] >= P(hi - 1 - lo)
  {
    SegBound(a, lo, hi - 1);
    MulLe(1, a[hi - 1], P(hi - 1 - lo));
  }

  /** Changing limbs lo..hi changes the whole by DV^lo times the change of the slice. */
  lemma SegPatch(a: seq<int>, b: seq<int>, lo: nat, hi: nat, t: nat, delta: int)
    requires lo <= hi <= t <= |a| && t <= |b|
    requires Seg(b, lo, hi) == Seg(a, lo, hi) + delta
    requires forall k :: 0 <= k < t && !(lo <= k < hi) ==> a[k] == b[k]
    ensures Seg(b, 0, t) == Seg(a, 0, t) + P(lo) * delta
  {
    hide P;
    SegSplit(a, 0, hi, t);
    SegSplit(b, 0, hi, t);
    SegFrame(a, b, hi, t);
    SegSplit(a, 0, lo, hi);
    SegSplit(b, 0, lo, hi);
    SegFrame(a, b, 0, lo);
    DistributeAdd(P(lo), Seg(a, lo, hi), delta);
  }

  lemma DistributeAdd(p: int, x: int, y: int)
    ensures p * (x + y) == p * x + p * y
  {
  }

  /** Division with remainder by a positive number is unique. */
  lemma DivUnique(v: int, b: int, q: int, r: int)
    requires 0 <= r < b
    requires v == q * b + r
    ensures v / b == q && v % b == r
  {
    var q', r' := v / b, v % b;
    assert v == b * q' + r';
    if q < q' {
      MulLe(q + 1, q', b);
      assert false;
    } else if q' < q {
      MulLe(q' + 1, q, b);
      assert false;
    }
  }

  /** A number determines its parts below and above a limb boundary. */
  lemma SegParts(a: seq<int>, lo: nat, mid: nat, hi: nat, low: int, high: int)
    requires lo <= mid <= hi <= |a| && InRange(a, lo, hi)
    requires Seg(a, lo, hi) == low + P(mid - lo) * high
    requires 0 <= low < P(mid - lo)
    ensures Seg(a, lo, mid) == low && Seg(a, mid, hi) == high
  {
    SegSplit(a, lo, mid, hi);
    SegBound(a, lo, mid);
    SplitUnique(P(mid - lo), Seg(a, lo, mid), Seg(a, mid, hi), low, high);
  }

  lemma DivBounds(v: int, b: int, q: int)
    requires 0 < b
    ensures v < (q + 1) * b ==> v / b <= q
    ensures q * b <= v ==> q <= v / b
  {
    var d := v / b;
    assert d * b <= v < d * b + b;
    if d > q {
      MulLe(q + 1, d, b);
    } else if d < q {
      MulLe(d + 1, q, b);
      assert (d + 1) * b == d * b + b;
    }
  }

  lemma SplitUnique(p: int, low: int, high: int, low': int, high': int)
    requires 0 <= low < p && 0 <= low' < p
    requires low + p * high == low' + p * high'
    ensures low == low' && high == high'
  {
    if high < high' {
      MulLe(high + 1, high', p);
      assert false;
    } else if high' < high {
      MulLe(high' + 1, high, p);
      assert false;
    }
  }

  /** r[i] = (c + x) & DM, carry (c + x) >> DB */
  lemma CarryStep(a: seq<int>, b: seq<int>, i: nat, c: int, x: int)
    requires i < |b| && i <= |a|
    requires forall k :: 0 <= k < i ==> a[k] == b[k]
    requires b[i] == (c + x) % DV
    ensures Seg(b, 0, i + 1) + ((c + x) / DV) * P(i + 1) == Seg(a, 0, i) + c * P(i) + x * P(i)
  {
    SegFrame(a, b, 0, i);
    var p := P(i);
    assert c + x == DV * ((c + x) / DV) + (c + x) % DV;
    var q, r := (c + x) / DV, (c + x) % DV;
    assert r * p + q * (DV * p) == (c + x) * p;
  }
}
