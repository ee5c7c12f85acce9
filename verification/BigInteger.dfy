/** The signed multi-precision integer object: limbs d[0..t], sign word s, value
    sum d[i]*DV^i + s*DV^t. Limbs past t stay behind in the object. */
module BigIntegers {
  import opened JsNumber
  import opened Limbs
  import opened AmSteps

  predicate Digits(d: seq<int>, t: nat, s: int) {
    t <= |d| && (s == 0 || s == -1) && InRange(d, 0, t)
  }

  // s & DM
  function SignLimb(s: int): int {
    if s < 0 then DV - 1 else 0
  }

  predicate Clamped(d: seq<int>, t: nat, s: int)
    requires t <= |d|
  {
    t > 0 ==> d[t - 1] != SignLimb(s)
  }

  function Num(d: seq<int>, t: nat, s: int): int
    requires t <= |d|
  {
    Seg(d, 0, t) - (if s < 0 then P(t) else 0)
  }

  /** r[i] = v; slots skipped over by a write past the end are filled in before they are read. */
  function Put(d: seq<int>, i: nat, v: int): (e: seq<int>)
    ensures |e| == (if i < |d| then |d| else i + 1)
    ensures e[i] == v
    ensures forall k :: 0 <= k < |d| && k != i ==> e[k] == d[k]
    ensures forall k :: |d| <= k < i ==> e[k] == 0
  {
    if i < |d| then d[i := v] else d + seq(i - |d|, _ => 0) + [v]
  }

  lemma NumSign(d: seq<int>, t: nat, s: int)
    requires Digits(d, t, s)
    ensures s == 0 ==> 0 <= Num(d, t, s) < P(t)
    ensures s < 0 ==> -P(t) <= Num(d, t, s) < 0
  {
    SegBound(d, 0, t);
  }

  /** A clamped number uses its top limb. */
  lemma ClampedSize(d: seq<int>, t: nat, s: int)
    requires Digits(d, t, s) && Clamped(d, t, s) && t > 0
    ensures s == 0 ==> Num(d, t, s) >= P(t - 1)
    ensures s < 0 ==> Num(d, t, s) < -P(t - 1)
  {
    SegBound(d, 0, t - 1);
    var p, x := P(t - 1), d[t - 1];
    if s == 0 {
      MulLe(1, x, p);
    } else {
      MulLe(x, DV - 2, p);
      assert (DV - 2) * p == DV * p - 2 * p;
    }
  }

  lemma FewLimbs(d: seq<int>, t: nat, n: nat)
    requires Digits(d, t, 0) && Clamped(d, t, 0) && Num(d, t, 0) < P(n)
    ensures t <= n
  {
    if t > n {
      ClampedSize(d, t, 0);
      PMono(n, t - 1);
      assert false;
    }
  }

  lemma DropTop(d: seq<int>, t: nat, s: int)
    requires Digits(d, t, s) && t > 0 && d[t - 1] == SignLimb(s)
    ensures Num(d, t - 1, s) == Num(d, t, s)
  {
    assert (DV - 1) * P(t - 1) == DV * P(t - 1) - P(t - 1);
  }

  class BigInteger {
    var d: seq<int>
    var t: nat
    var s: int

    ghost predicate Valid()
      reads this
    {
      Digits(d, t, s)
    }

    ghost predicate Canonical()
      reads this
    {
      Valid() && Clamped(d, t, s)
    }

    ghost function Value(): int
      reads this
      requires Valid()
    {
      Num(d, t, s)
    }

    // nbi()
    constructor ()
      ensures Canonical() && d == [] && t == 0 && s == 0 && Value() == 0
    {
      d, t, s := [], 0, 0;
    }

    // nbv(i); the branch of fromInt for arguments below -1 names an undefined variable
    constructor FromInt(x: int)
      requires -1 <= x < DV
      ensures Canonical() && Value() == x
      ensures x > 0 ==> t == 1 && d == [x] && s == 0
    {
      d := if x > 0 then [x] else [];
      t := if x > 0 then 1 else 0;
      s := if x < 0 then -1 else 0;
      new;
      assert P(0) == 1;
      if x > 0 {
        SegOne(d, 0);
      }
    }

    /** fromInt(x) on an existing object */
    method SetInt(x: int)
      requires -1 <= x < DV
      modifies this
      ensures Canonical() && Value() == x
    {
      s := if x < 0 then -1 else 0;
      assert P(0) == 1;
      if x > 0 {
        d := Put(d, 0, x);
        t := 1;
        SegOne(d, 0);
      } else {
        t := 0;
      }
    }

    /** clamp: drop limbs that the sign already implies. */
    method Clamp()
      requires Valid()
      modifies this`t
      ensures Canonical() && Value() == old(Value())
      ensures t <= old(t)
      ensures forall k :: t <= k < old(t) ==> d[k] == SignLimb(s)
      ensures old(Clamped(d, t, s)) ==> t == old(t)
    {
      while t > 0 && d[t - 1] == SignLimb(s)
        invariant Valid() && Value() == old(Value()) && t <= old(t)
        invariant forall k :: t <= k < old(t) ==> d[k] == SignLimb(s)
        invariant old(Clamped(d, t, s)) ==> t == old(t)
        decreases t
      {
        DropTop(d, t, s);
        t := t - 1;
      }
    }

    /** copyTo */
    method CopyTo(r: BigInteger)
      requires Valid()
      modifies r
      ensures r.Valid() && r.t == old(t) && r.s == old(s) && r.Value() == old(Value())
      ensures r.d[..r.t] == old(d[..t])
      ensures old(Canonical()) ==> r.Canonical()
    {
      ghost var D := d;
      var i := t - 1;
      while i >= 0
        invariant -1 <= i < t && t == old(t) && s == old(s) && t <= |d|
        invariant i < t - 1 ==> t <= |r.d|
        invariant forall k :: 0 <= k < t ==> d[k] == D[k]
        invariant forall k :: i < k < t ==> r.d[k] == D[k]
      {
        r.d := Put(r.d, i, d[i]);
        i := i - 1;
      }
      r.t := t;
      r.s := s;
      SegFrame(r.d, D, 0, t);
    }

    /** compareTo: the sign of the difference, except that it is reversed when both numbers are
        negative and one needs more limbs. */
    method CompareTo(a: BigInteger) returns (r: int)
      requires Canonical() && a.Canonical()
      ensures r == 0 <==> Value() == a.Value()
      ensures !(s < 0 && a.s < 0 && t != a.t) ==> (r < 0 <==> Value() < a.Value())
      ensures s < 0 && a.s < 0 && t != a.t ==> (r < 0 <==> Value() > a.Value())
    {
      NumSign(d, t, s);
      NumSign(a.d, a.t, a.s);
      r := s - a.s;
      if r != 0 {
        return;
      }
      r := t - a.t;
      if r != 0 {
        if t < a.t {
          LongerIsLarger(d, t, a.d, a.t, s);
        } else {
          LongerIsLarger(a.d, a.t, d, t, s);
        }
        return;
      }
      var i := t;
      while i > 0
        invariant 0 <= i <= t
        invariant forall k :: i <= k < t ==> d[k] == a.d[k]
      {
        i := i - 1;
        r := d[i] - a.d[i];
        if r != 0 {
          if r < 0 {
            CompareLimb(d, a.d, i, t);
          } else {
            CompareLimb(a.d, d, i, t);
          }
          return;
        }
      }
      SegFrame(d, a.d, 0, t);
    }

    /** signum */
    method Signum() returns (r: int)
      requires Canonical()
      ensures r == if Value() < 0 then -1 else if Value() == 0 then 0 else 1
    {
      NumSign(d, t, s);
      if s < 0 {
        return -1;
      }
      if t <= 0 || (t == 1 && d[0] <= 0) {
        return 0;
      }
      ClampedSize(d, t, s);
      return 1;
    }

    /** isEven */
    method IsEven() returns (r: bool)
      requires Canonical()
      ensures r <==> Value() % 2 == 0
    {
      ParityOf(d, t, s);
      r := if t > 0 then d[0] % 2 == 0 else s == 0;
    }

    /** dlShiftTo: r = this * DV^n */
    method DLShiftTo(n: nat, r: BigInteger)
      requires Valid()
      modifies r
      ensures r.Valid() && r.t == old(t) + n && r.s == old(s)
      ensures r.Value() == old(Value()) * P(n)
      ensures forall k :: 0 <= k < n ==> r.d[k] == 0
      ensures r.d[n..r.t] == old(d[..t])
      ensures old(Canonical()) && old(Value()) != 0 ==> r.Canonical()
    {
      hide Seg, P;
      ghost var D, T := d, t;
      var i := t - 1;
      while i >= 0
        invariant -1 <= i < t && t == T && s == old(s) && t <= |d|
        invariant i < t - 1 ==> t + n <= |r.d|
        invariant forall k :: 0 <= k <= i ==> d[k] == D[k]
        invariant forall k :: i < k < t ==> r.d[k + n] == D[k]
      {
        r.d := Put(r.d, i + n, d[i]);
        i := i - 1;
      }
      var sv := s;
      i := n - 1;
      while i >= 0
        invariant -1 <= i < n && t == T && s == old(s)
        invariant T > 0 ==> T + n <= |r.d|
        invariant i < n - 1 ==> n <= |r.d|
        invariant forall k :: 0 <= k < T ==> r.d[k + n] == D[k]
        invariant forall k :: i < k < n ==> r.d[k] == 0
      {
        r.d := Put(r.d, i, 0);
        i := i - 1;
      }
      r.t := t + n;
      r.s := sv;
      DLShiftValue(D, T, sv, n, r.d);
    }

    /** drShiftTo: r = floor(this / DV^n) */
    method DRShiftTo(n: nat, r: BigInteger)
      requires Valid()
      modifies r
      ensures r.Valid() && r.s == old(s)
      ensures r.t == if old(t) > n then old(t) - n else 0
      ensures r.Value() == old(Value()) / P(n)
      ensures n <= old(t) ==> r.d[..r.t] == old(d[n..t])
      ensures old(Canonical()) ==> r.Canonical()
    {
      ghost var D, T := d, t;
      var i: int := n;
      while i < t
        invariant n <= i && (i <= t || i == n) && t == T && s == old(s) && |d| >= T
        invariant i > n ==> i - n <= |r.d|
        invariant forall k :: i <= k < T ==> d[k] == D[k]
        invariant forall k :: n <= k < i ==> r.d[k - n] == D[k]
      {
        r.d := Put(r.d, i - n, d[i]);
        i := i + 1;
      }
      r.t := if t - n > 0 then t - n else 0;
      r.s := s;
      DRShiftValue(D, T, old(s), n, r.d, r.t);
    }

    /** The loop of subTo and addTo over the limbs that both operands have. */
    method CombineLow(a: BigInteger, neg: bool, m: nat, r: BigInteger) returns (c: int)
      requires Valid() && a.Valid() && m <= t && m <= a.t
      modifies r`d
      ensures OperandsKept(a, old(d), old(a.d), m) && Written(r.d, old(r.d), m)
      ensures if neg then -1 <= c <= 0 else 0 <= c <= 1
      ensures Seg(r.d, 0, m) + c * P(m) == Seg(old(d), 0, m) + Signed(neg, Seg(old(a.d), 0, m))
    {
      hide P;
      ghost var X, A, R := d, a.d, r.d;
      var i := 0;
      c := 0;
      while i < m
        invariant 0 <= i <= m && (if neg then -1 <= c <= 0 else 0 <= c <= 1)
        invariant OperandsKept(a, X, A, i) && Written(r.d, R, i)
        invariant Seg(r.d, 0, i) + c * P(i) == Seg(X, 0, i) + Signed(neg, Seg(A, 0, i))
      {
        ghost var before := r.d;
        var x := d[i] + Signed(neg, a.d[i]);
        r.d := Put(r.d, i, (c + x) % DV);
        CarryStep(before, r.d, i, c, x);
        SignedProduct(neg, X[i], A[i], P(i));
        c := (c + x) / DV;
        i := i + 1;
      }
    }

    /** The loop over the remaining limbs of the longer operand in subTo and addTo; X is what its
        limbs were before r was written. */
    method CombineHigh(neg: bool, i0: nat, c0: int, r: BigInteger, ghost X: seq<int>) returns (c: int)
      requires Valid() && i0 <= t && i0 <= |r.d| && InRange(r.d, 0, i0)
      requires t <= |X| && forall k :: i0 <= k < t ==> d[k] == X[k]
      requires if neg then -2 <= c0 <= 0 else -1 <= c0 <= 1
      modifies r`d
      ensures Written(r.d, old(r.d), t)
      ensures if neg then -2 <= c <= 0 else -1 <= c <= 1
      ensures Seg(r.d, 0, t) + c * P(t) - Signed(neg, Seg(X, 0, t))
              == Seg(old(r.d), 0, i0) + c0 * P(i0) - Signed(neg, Seg(X, 0, i0))
    {
      hide P;
      ghost var R := r.d;
      ghost var total := Seg(R, 0, i0) + c0 * P(i0) - Signed(neg, Seg(X, 0, i0));
      var i := i0;
      c := c0;
      while i < t
        invariant i0 <= i <= t <= |d| && (if neg then -2 <= c <= 0 else -1 <= c <= 1)
        invariant forall k :: i <= k < t ==> d[k] == X[k]
        invariant Written(r.d, R, i)
        invariant Seg(r.d, 0, i) + c * P(i) - Signed(neg, Seg(X, 0, i)) == total
      {
        ghost var before := r.d;
        var x := Signed(neg, d[i]);
        r.d := Put(r.d, i, (c + x) % DV);
        CarryStep(before, r.d, i, c, x);
        SignedProduct(neg, 0, X[i], P(i));
        c := (c + x) / DV;
        i := i + 1;
      }
    }

    /** All limb loops of subTo (neg) and addTo, which differ only in the sign of a: the limbs
        written and the final carry add up to the result. */
    method CombineLimbs(a: BigInteger, neg: bool, r: BigInteger) returns (i: nat, c: int)
      requires Valid() && a.Valid()
      modifies r`d
      ensures i == if old(t) >= old(a.t) then old(t) else old(a.t)
      ensures -2 <= c <= 1 && Written(r.d, old(r.d), i)
      ensures Seg(r.d, 0, i) + c * P(i) == old(Value()) + Signed(neg, old(a.Value()))
    {
      if a.t < t {
        i := t;
        c := CombineLongThis(a, neg, r);
      } else {
        i := a.t;
        c := CombineLongThat(a, neg, r);
      }
    }

    method CombineLongThis(a: BigInteger, neg: bool, r: BigInteger) returns (c: int)
      requires Valid() && a.Valid() && a.t < t
      modifies r`d
      ensures -2 <= c <= 1 && Written(r.d, old(r.d), t)
      ensures Seg(r.d, 0, t) + c * P(t) == old(Value()) + Signed(neg, old(a.Value()))
    {
      ghost var X, A, m := d, a.d, a.t;
      var c1 := CombineLow(a, neg, a.t, r);
      ghost var low := Seg(r.d, 0, m);
      var c3 := CombineHigh(false, a.t, c1 + Signed(neg, a.s), r, X);
      c := c3 + s;
      CombineTotal(X, t, s, A, m, a.s, neg, low, Seg(r.d, 0, t), c1, c3);
    }

    method CombineLongThat(a: BigInteger, neg: bool, r: BigInteger) returns (c: int)
      requires Valid() && a.Valid() && t <= a.t
      modifies r`d
      ensures -2 <= c <= 1 && Written(r.d, old(r.d), a.t)
      ensures Seg(r.d, 0, a.t) + c * P(a.t) == old(Value()) + Signed(neg, old(a.Value()))
    {
      ghost var X, A, m := d, a.d, t;
      var c1 := CombineLow(a, neg, t, r);
      ghost var low := Seg(r.d, 0, m);
      var c3 := a.CombineHigh(neg, t, c1 + s, r, A);
      c := c3 + Signed(neg, a.s);
      CombineLonger(X, m, s, A, a.t, a.s, neg, low, Seg(r.d, 0, a.t), c1, c3);
    }

    method Combine(a: BigInteger, neg: bool, r: BigInteger)
      requires Valid() && a.Valid()
      modifies r
      ensures r.Canonical() && r.Value() == old(Value()) + Signed(neg, old(a.Value()))
      ensures Overwritten(r.d, old(r.d), r.t, r.Value(), if old(t) >= old(a.t) then old(t) else old(a.t))
    {
      ghost var total := Value() + Signed(neg, a.Value());
      var i, c := CombineLimbs(a, neg, r);
      FinishCarry(r, i, c, total);
    }

    /** subTo: the difference; r may be either operand. */
    method SubTo(a: BigInteger, r: BigInteger)
      requires Valid() && a.Valid()
      modifies r
      ensures r.Canonical() && r.Value() == old(Value()) - old(a.Value())
      ensures Overwritten(r.d, old(r.d), r.t, r.Value(), if old(t) >= old(a.t) then old(t) else old(a.t))
    {
      Combine(a, true, r);
    }

    /** addTo: the sum; r may be either operand. */
    method AddTo(a: BigInteger, r: BigInteger)
      requires Valid() && a.Valid()
      modifies r
      ensures r.Canonical() && r.Value() == old(Value()) + old(a.Value())
    {
      Combine(a, false, r);
    }

    /** Limbs i and up of both operands are still unread. */
    ghost predicate OperandsKept(a: BigInteger, X: seq<int>, A: seq<int>, i: int)
      reads this, a
    {
      && 0 <= i && t <= |d| && t <= |X| && a.t <= |a.d| && a.t <= |A|
      && InRange(X, 0, t) && InRange(A, 0, a.t)
      && (forall k :: i <= k < t ==> d[k] == X[k])
      && (forall k :: i <= k < a.t ==> a.d[k] == A[k])
    }

    /** The end of subTo and addTo: sign, top limb, clamp. */
    static method FinishCarry(r: BigInteger, i: nat, c: int, ghost total: int)
      requires i <= |r.d| && InRange(r.d, 0, i)
      requires -2 <= c <= 1
      requires Seg(r.d, 0, i) + c * P(i) == total
      modifies r
      ensures r.Canonical() && r.Value() == total
      ensures |r.d| >= i
      ensures total >= 0 ==> forall k :: r.t <= k < i ==> r.d[k] == 0
      ensures 0 <= total < P(i) ==> r.t <= i && r.d == old(r.d)
      ensures |r.d| >= |old(r.d)|
    {
      ghost var D := r.d;
      SegBound(D, 0, i);
      var j := i;
      r.s := if c < 0 then -1 else 0;
      if c < -1 {
        r.d := Put(r.d, i, DV + c);
        j := i + 1;
      } else if c > 0 {
        r.d := Put(r.d, i, c);
        j := i + 1;
      }
      r.t := j;
      SegFrame(r.d, D, 0, i);
      assert (DV + c) * P(i) == DV * P(i) + c * P(i);
      r.Clamp();
    }
  }

  predicate Written(now: seq<int>, before: seq<int>, i: nat) {
    && i <= |now| && |now| >= |before| && InRange(now, 0, i)
    && (forall k :: i <= k < |before| ==> now[k] == before[k])
  }

  /** What subTo leaves in the slots of r: zeros from the new length up to top, and nothing
      disturbed above top. */
  predicate Overwritten(now: seq<int>, before: seq<int>, t: nat, value: int, top: nat) {
    && top <= |now|
    && (value >= 0 ==> forall k :: t <= k < top ==> now[k] == 0)
    && (0 <= value < P(top) ==>
          t <= top && |before| <= |now| && forall k :: top <= k < |before| ==> now[k] == before[k])
  }

  function Signed(neg: bool, x: int): int {
    if neg then -x else x
  }

  lemma SignedProduct(neg: bool, x: int, a: int, p: int)
    ensures (x + Signed(neg, a)) * p == x * p + Signed(neg, a * p)
    ensures Signed(neg, a) * p == Signed(neg, a * p)
  {
  }

  lemma CombineTotal(X: seq<int>, t: nat, xs: int, A: seq<int>, m: nat, as_: int, neg: bool,
                     low: int, high: int, c1: int, c3: int)
    requires m <= t && Digits(X, t, xs) && Digits(A, m, as_)
    requires low + c1 * P(m) == Seg(X, 0, m) + Signed(neg, Seg(A, 0, m))
    requires high + c3 * P(t) - Seg(X, 0, t) == low + (c1 + Signed(neg, as_)) * P(m) - Seg(X, 0, m)
    ensures high + (c3 + xs) * P(t) == Num(X, t, xs) + Signed(neg, Num(A, m, as_))
  {
    SignCarry(c3, xs, P(t));
    SignCarry(c1, Signed(neg, as_), P(m));
  }

  lemma SignCarry(c: int, x: int, p: int)
    requires -1 <= x <= 1
    ensures (c + x) * p == c * p + (if x < 0 then -p else if x == 0 then 0 else p)
  {
  }

  lemma CombineLonger(X: seq<int>, m: nat, xs: int, A: seq<int>, t: nat, as_: int, neg: bool,
                      low: int, high: int, c1: int, c3: int)
    requires m <= t && Digits(X, m, xs) && Digits(A, t, as_)
    requires low + c1 * P(m) == Seg(X, 0, m) + Signed(neg, Seg(A, 0, m))
    requires high + c3 * P(t) - Signed(neg, Seg(A, 0, t)) == low + (c1 + xs) * P(m) - Signed(neg, Seg(A, 0, m))
    ensures high + (c3 + Signed(neg, as_)) * P(t) == Num(X, m, xs) + Signed(neg, Num(A, t, as_))
  {
    SignCarry(c3, Signed(neg, as_), P(t));
    SignCarry(c1, xs, P(m));
  }

  /** Two limb arrays that agree from m on differ only below. */
  lemma SegRest(a: seq<int>, b: seq<int>, m: nat, t: nat)
    requires m <= t <= |a| && t <= |b|
    requires forall k :: m <= k < t ==> a[k] == b[k]
    ensures Seg(a, 0, t) - Seg(a, 0, m) == Seg(b, 0, t) - Seg(b, 0, m)
  {
    SegSplit(a, 0, m, t);
    SegSplit(b, 0, m, t);
    SegFrame(a, b, m, t);
  }

  /** The highest limb where two numbers differ decides. */
  lemma CompareLimb(x: seq<int>, a: seq<int>, i: nat, t: nat)
    requires i < t <= |x| && t <= |a| && InRange(x, 0, t) && InRange(a, 0, t)
    requires forall k :: i < k < t ==> x[k] == a[k]
    requires x[i] < a[i]
    ensures Seg(x, 0, t) < Seg(a, 0, t)
  {
    SegRest(x, a, i + 1, t);
    SegBound(x, 0, i);
    SegBound(a, 0, i);
    MulLe(x[i] + 1, a[i], P(i));
    SignedProduct(false, x[i], 1, P(i));
  }

  /** For equal signs, the number with more limbs has the larger magnitude. */
  lemma LongerIsLarger(x: seq<int>, xt: nat, a: seq<int>, at: nat, s: int)
    requires Digits(x, xt, s) && Digits(a, at, s) && Clamped(a, at, s) && xt < at
    ensures s == 0 ==> Num(x, xt, s) < Num(a, at, s)
    ensures s < 0 ==> Num(x, xt, s) > Num(a, at, s)
  {
    NumSign(x, xt, s);
    ClampedSize(a, at, s);
    PMono(xt, at - 1);
  }

  lemma DLShiftSeg(D: seq<int>, T: nat, n: nat, e: seq<int>)
    requires T <= |D| && T + n <= |e| && e[n..T + n] == D[..T]
    requires forall k :: 0 <= k < n ==> e[k] == 0
    ensures Seg(e, 0, T + n) == P(n) * Seg(D, 0, T) && P(T + n) == P(n) * P(T)
  {
    SegSplit(e, 0, n, T + n);
    SegZero(e, 0, n);
    SegShift(e, D, n, T + n, 0, T);
    PAdd(n, T);
  }

  lemma DLShiftValue(D: seq<int>, T: nat, s: int, n: nat, e: seq<int>)
    requires Digits(D, T, s) && T + n <= |e|
    requires forall k :: 0 <= k < T ==> e[k + n] == D[k]
    requires forall k :: 0 <= k < n ==> e[k] == 0
    ensures Digits(e, T + n, s) && Num(e, T + n, s) == Num(D, T, s) * P(n)
    ensures e[n..T + n] == D[..T]
    ensures Clamped(D, T, s) && Num(D, T, s) != 0 ==> Clamped(e, T + n, s)
  {
    DLShiftDigits(D, T, s, n, e);
    DLShiftNum(D, T, s, n, e);
  }

  lemma DLShiftDigits(D: seq<int>, T: nat, s: int, n: nat, e: seq<int>)
    requires Digits(D, T, s) && T + n <= |e|
    requires forall k :: 0 <= k < T ==> e[k + n] == D[k]
    requires forall k :: 0 <= k < n ==> e[k] == 0
    ensures Digits(e, T + n, s) && e[n..T + n] == D[..T]
    ensures Clamped(D, T, s) && Num(D, T, s) != 0 ==> Clamped(e, T + n, s)
  {
    forall k | n <= k < T + n
      ensures e[k] == D[k - n]
    {
      assert e[k - n + n] == D[k - n];
    }
    if T == 0 && n > 0 {
      assert P(0) == 1;
      assert e[n - 1] == 0;
    }
  }

  lemma DLShiftNum(D: seq<int>, T: nat, s: int, n: nat, e: seq<int>)
    requires T <= |D| && T + n <= |e| && e[n..T + n] == D[..T]
    requires forall k :: 0 <= k < n ==> e[k] == 0
    ensures Num(e, T + n, s) == Num(D, T, s) * P(n)
  {
    DLShiftSeg(D, T, n, e);
    LShiftValue(P(n), Seg(D, 0, T), P(T), s);
  }

  lemma LShiftValue(pn: int, seg: int, pt: int, s: int)
    ensures pn * seg - (if s < 0 then pn * pt else 0) == (seg - (if s < 0 then pt else 0)) * pn
  {
  }

  lemma DRShiftValue(D: seq<int>, T: nat, s: int, n: nat, e: seq<int>, u: nat)
    requires Digits(D, T, s)
    requires u == (if T > n then T - n else 0) && u <= |e|
    requires forall k :: n <= k < T ==> e[k - n] == D[k]
    ensures Digits(e, u, s) && Num(e, u, s) == Num(D, T, s) / P(n)
    ensures n <= T ==> e[..u] == D[n..T]
    ensures Clamped(D, T, s) ==> Clamped(e, u, s)
  {
    forall k | 0 <= k < u
      ensures e[k] == D[k + n]
    {
      assert e[k + n - n] == D[k + n];
    }
    if n <= T {
      assert e[..u] == D[n..T];
      SegShift(D, e, n, T, 0, u);
      DRShiftNum(D, T, s, n, Seg(e, 0, u));
    } else {
      NumSign(D, T, s);
      PMono(T, n);
      assert P(0) == 1;
      DivUnique(Num(D, T, s), P(n), Num(e, u, s), Num(D, T, s) - Num(e, u, s) * P(n));
    }
  }

  lemma DRShiftNum(D: seq<int>, T: nat, s: int, n: nat, high: int)
    requires n <= T && Digits(D, T, s) && high == Seg(D, n, T)
    ensures Num(D, T, s) / P(n) == high - (if s < 0 then P(T - n) else 0)
  {
    SegSplit(D, 0, n, T);
    SegBound(D, 0, n);
    PAdd(n, T - n);
    LShiftValue(P(n), high, P(T - n), s);
    DivUnique(Num(D, T, s), P(n), high - (if s < 0 then P(T - n) else 0), Seg(D, 0, n));
  }

  lemma ParityOf(d: seq<int>, t: nat, s: int)
    requires Digits(d, t, s)
    ensures Num(d, t, s) % 2 == if t > 0 then d[0] % 2 else s % 2
  {
    assert P(0) == 1;
    if t > 0 {
      SegLow(d, 0, t);
      var rest := Seg(d, 1, t) - (if s < 0 then P(t - 1) else 0);
      LShiftValue(DV, Seg(d, 1, t), P(t - 1), s);
      assert Num(d, t, s) == d[0] + DV * rest;
      MulAssoc(2, DV / 2, rest);
      EvenSum(d[0], (DV / 2) * rest, Num(d, t, s));
    }
  }

  lemma EvenSum(x: int, k: int, n: int)
    requires n == x + 2 * k
    ensures n % 2 == x % 2
  {
  }
}
