/** modPow: left-to-right exponentiation with a sliding window (HAC 14.85). */
module ModPow {
  import opened JsNumber
  import opened Limbs
  import opened Modular
  import opened BigIntegers
  import opened Shifts
  import opened Bits
  import opened Multiply
  import opened Reducers

  /** The last window, padded with zero bits. */
  lemma WindowPadded(e: seq<int>, t: nat, i: nat, k: nat)
    requires 0 < t <= |e| && InRange(e, 0, t) && i + 1 < k <= DB()
    ensures 0 <= Seg(e, 0, t) && 0 <= Seg(e, 0, t) * Pow2(k)
    ensures e[0] % Pow2(i + 1) * Pow2(k - i - 1) == Above(Seg(e, 0, t) * Pow2(k), i + 1) % Pow2(k)
  {
    var E, c := Seg(e, 0, t), k - i - 1;
    SegBound(e, 0, t);
    Pow2Add(c, i + 1);
    MulAssoc(E, Pow2(c), Pow2(i + 1));
    MulLe(0, E, Pow2(k));
    DivUnique(E * Pow2(k), Pow2(i + 1), E * Pow2(c), 0);
    LowOfHigh(e, t, 0, i + 1);
    LowBits(E, 0, c, i + 1);
  }

  /** The k bits of e from bit i of limb j down. */
  method Window(e: BigInteger, j: nat, i: nat, k: nat) returns (w: int)
    requires e.Valid() && j < e.t && i < DB() && 1 <= k <= 6
    ensures 0 <= Seg(e.d, 0, e.t) && 0 <= Seg(e.d, 0, e.t) * Pow2(k)
    ensures w == Above(Seg(e.d, 0, e.t) * Pow2(k), j * DB() + i + 1) % Pow2(k)
  {
    var k1 := k - 1;
    SmallPowers();
    Pow2Mono(k, 16);
    if i >= k1 {
      Pow2Mono(i - k1, DB());
      RadixIsPow2();
      WindowInside(e.d, e.t, j, i, k);
      DivBounds(e.d[j], Pow2(i - k1), 0);
      DivLess(e.d[j], Pow2(i - k1));
      w := Mask(Shr(e.d[j], Pow2(i - k1)), Pow2(k));
    } else {
      w := WindowLow(e, j, i, k);
    }
  }

  method WindowLow(e: BigInteger, j: nat, i: nat, k: nat) returns (w: int)
    requires e.Valid() && j < e.t && i + 1 < k <= 6
    ensures 0 <= Seg(e.d, 0, e.t) && 0 <= Seg(e.d, 0, e.t) * Pow2(k)
    ensures w == Above(Seg(e.d, 0, e.t) * Pow2(k), j * DB() + i + 1) % Pow2(k)
  {
    hide Pow2;
    SmallPowers();
    Pow2Mono(i + 1, 16);
    Pow2Mono(k - i - 1, 16);
    assert Pow2(6) == 64;
    Pow2Mono(k, 6);
    var high := Mask(e.d[j], Pow2(i + 1));
    if j > 0 {
      WindowAcross(e.d, e.t, j, i, k);
    } else {
      WindowPadded(e.d, e.t, i, k);
    }
    WindowHigh(high, i + 1, k - i - 1);
    w := Shl(high, Pow2(k - i - 1));
    if j > 0 {
      var low := Shr(e.d[j - 1], Pow2(DB() + i + 1 - k));
      OrDisjoint(high, low, k - i - 1);
      w := Or(w, low);
    }
  }

  /** Position (j, i) has b bits of the exponent at or below it. */
  predicate Cursor(j: int, i: int, t: nat, b: nat) {
    -1 <= j < t && 0 <= i < DB() && b == j * DB() + i + 1
  }

  lemma CursorEnd(j: int, i: int, t: nat, b: nat)
    requires Cursor(j, i, t, b)
    ensures j >= 0 <==> b > 0
  {
    if j >= 0 {
      MulLe(0, j, DB());
    }
  }

  lemma CursorBack(j: int, i: int, t: nat, b: nat, n: nat)
    requires Cursor(j, i, t, b) && n <= b && n <= DB() && j >= 0
    ensures i >= n ==> Cursor(j, i - n, t, b - n)
    ensures i < n ==> Cursor(j - 1, i - n + DB(), t, b - n)
  {
    SumProduct(j - 1, 1, DB());
  }

  /** The bit under the cursor. */
  lemma BitAt(e: seq<int>, t: nat, j: nat, i: nat, b: nat)
    requires t <= |e| && InRange(e, 0, t) && j < t && Cursor(j, i, t, b)
    ensures b > 0 && 0 <= Seg(e, 0, t) && e[j] / Pow2(i) % 2 == Above(Seg(e, 0, t), b - 1) % 2
  {
    CursorEnd(j, i, t, b);
    WindowInside(e, t, j, i, 1);
    AboveScale(Seg(e, 0, t), 1, b - 1);
  }

  /** A window that starts with a one is at least half full. */
  lemma WindowTop(x: nat, k: nat, b: nat)
    requires k >= 1 && b >= 1 && Above(x, b - 1) % 2 == 1
    ensures 0 <= x * Pow2(k) && Above(x * Pow2(k), b) % Pow2(k) >= Pow2(k - 1)
  {
    AboveScale(x, k, b - 1);
    var y, h := Above(x * Pow2(k), b), Pow2(k - 1);
    AboveAbove(x * Pow2(k), b, k - 1);
    TopOfWindow(y, h, Above(x, b - 1));
  }

  lemma TopOfWindow(y: nat, h: nat, o: nat)
    requires h > 0 && y / h == o && o % 2 == 1
    ensures y % (2 * h) >= h
  {
    var q := o / 2;
    assert y == h * o + y % h;
    assert h * (2 * q + 1) == q * (2 * h) + h;
    DivUnique(y, 2 * h, q, h + y % h);
  }

  /** w >>= 1, --n */
  lemma WindowHalf(y: nat, n: nat, w: int)
    requires n >= 1 && y % Pow2(n) == w && w % 2 == 0
    ensures y / 2 % Pow2(n - 1) == w / 2
  {
    var h := Pow2(n - 1);
    var q := y / (2 * h);
    assert y == 2 * h * q + w;
    MulAssoc(2, h, q);
    Comm(h, q);
    DivUnique(y, 2, q * h + w / 2, 0);
    DivUnique(y / 2, h, q, w / 2);
  }

  /** An odd window does not reach the zeros below the exponent. */
  lemma WindowReal(x: nat, k: nat, b: nat, n: nat, y: nat)
    requires 1 <= n <= k && 0 <= x * Pow2(k) && y == Above(x * Pow2(k), b + k - n) && y % Pow2(n) % 2 == 1
    ensures n <= b
    ensures Above(x, b - n) == Above(x, b) * Pow2(n) + y % Pow2(n)
  {
    WindowReach(x, k, b, n, y);
    AboveScale(x, k, b - n);
    AboveAbove(x, b - n, n);
    QuotientRest(y, Pow2(n), Above(x, b));
  }

  lemma QuotientRest(y: int, p: int, q: int)
    requires p > 0 && y / p == q
    ensures y == q * p + y % p
  {
  }

  lemma WindowReach(x: nat, k: nat, b: nat, n: nat, y: nat)
    requires 1 <= n <= k && 0 <= x * Pow2(k) && y == Above(x * Pow2(k), b + k - n) && y % Pow2(n) % 2 == 1
    ensures n <= b
  {
    if n > b {
      WindowEven(x, k, b + k - n);
      EvenMod(y, Pow2(n - 1));
      assert false;
    }
  }

  lemma WindowEven(x: nat, k: nat, p: nat)
    requires p < k && 0 <= x * Pow2(k)
    ensures Above(x * Pow2(k), p) % 2 == 0
  {
    Pow2Add(k - p, p);
    Pow2Add(1, k - p - 1);
    MulAssoc(x, Pow2(k - p), Pow2(p));
    DivUnique(x * Pow2(k), Pow2(p), x * Pow2(k - p), 0);
    Comm(x, Pow2(k - p));
    MulAssoc(2, Pow2(k - p - 1), x);
  }

  lemma EvenMod(y: nat, h: nat)
    requires h > 0 && y % 2 == 0
    ensures y % (2 * h) % 2 == 0
  {
    var q := y / (2 * h);
    assert y == 2 * h * q + y % (2 * h);
    MulAssoc(2, h, q);
  }

  /** Read a window and strip its trailing zeros. */
  method TakeWindow(e: BigInteger, j: nat, i: nat, k: nat, ghost b: nat) returns (w: int, n: nat)
    requires e.Valid() && j < e.t && Cursor(j, i, e.t, b) && 1 <= k <= 6
    requires 0 <= Seg(e.d, 0, e.t) && b >= 1 && Above(Seg(e.d, 0, e.t), b - 1) % 2 == 1
    ensures 1 <= n <= k && n <= b && 1 <= w < Pow2(k) && w % 2 == 1
    ensures Above(Seg(e.d, 0, e.t), b - n) == Above(Seg(e.d, 0, e.t), b) * Pow2(n) + w
  {
    ghost var x := Seg(e.d, 0, e.t);
    w := Window(e, j, i, k);
    WindowTop(x, k, b);
    w, n := StripZeros(w, k, x * Pow2(k), b);
    WindowReal(x, k, b, n, Above(x * Pow2(k), b + k - n));
  }

  method StripZeros(w0: int, k: nat, ghost F: nat, ghost b: nat) returns (w: int, n: nat)
    requires k >= 1 && w0 == Above(F, b) % Pow2(k) >= Pow2(k - 1)
    ensures 1 <= n <= k && 1 <= w < Pow2(k) && w % 2 == 1
    ensures w == Above(F, b + k - n) % Pow2(n)
  {
    w, n := w0, k;
    while w % 2 == 0
      invariant 1 <= n <= k && w == Above(F, b + k - n) % Pow2(n)
      invariant Pow2(n - 1) <= w < Pow2(k)
      decreases n
    {
      WindowHalf(Above(F, b + k - n), n, w);
      AboveStep(F, b + k - n);
      w := w / 2;
      n := n - 1;
    }
  }

  /** Squaring doubles the exponent. */
  method SquarePower(z: Reducer, x: BigInteger, r: BigInteger, ghost X: int, ghost c: nat)
    requires z.Valid() && z.Stands(x, Pow(X, c)) && z.Outside(r) && r != x
    modifies r, z.r2, z.q3
    ensures z.Stands(r, Pow(X, 2 * c))
  {
    z.SqrTo(x, r, Pow(X, c));
    PowAdd(X, c, c);
  }

  lemma TwiceTwice(c: nat, n: nat)
    requires n >= 2
    ensures 2 * (2 * c) * Pow2(n - 2) == c * Pow2(n)
  {
    assert Pow2(n) == 2 * Pow2(n - 1) == 4 * Pow2(n - 2);
  }

  /** Square n times, going back and forth between r and r2: the result is left in p. */
  method SquareUp(z: Reducer, r: BigInteger, r2: BigInteger, n0: nat, ghost X: int, ghost c0: nat)
    returns (p: BigInteger, q: BigInteger)
    requires z.Valid() && z.Stands(r, Pow(X, c0)) && z.Outside(r) && z.Outside(r2) && r != r2
    modifies r, r2, z.r2, z.q3
    ensures (p == r && q == r2) || (p == r2 && q == r)
    ensures 0 <= c0 * Pow2(n0) && z.Stands(p, Pow(X, c0 * Pow2(n0)))
  {
    var n := n0;
    ghost var c: nat := c0;
    while n > 1
      invariant n >= 0 && z.Stands(r, Pow(X, c)) && c * Pow2(n) == c0 * Pow2(n0)
    {
      SquarePower(z, r, r2, X, c);
      SquarePower(z, r2, r, X, 2 * c);
      TwiceTwice(c, n);
      n := n - 2;
      c := 2 * (2 * c);
    }
    if n > 0 {
      SquarePower(z, r, r2, X, c);
      assert c * Pow2(1) == 2 * c;
      p, q := r2, r;
    } else {
      assert c * Pow2(0) == c;
      p, q := r, r2;
    }
  }

  /** The odd powers of X below n. */
  ghost predicate Table(g: map<int, BigInteger>, z: Reducer, X: int, n: int)
    reads z.m, g.Values
  {
    forall w :: 1 <= w < n && w % 2 == 1 ==> w in g && z.Stands(g[w], Pow(X, w))
  }

  /** The entries do not collide with the reducer's own numbers. */
  ghost predicate Entries(g: map<int, BigInteger>, z: Reducer) {
    forall v :: v in g.Values ==> z.Outside(v)
  }

  /** The next odd power, from the last one and the square. */
  method NextPower(z: Reducer, g: map<int, BigInteger>, g2: BigInteger, n: int, ghost X: int)
    returns (h: map<int, BigInteger>)
    requires z.Valid() && n >= 3 && n % 2 == 1 && Table(g, z, X, n) && z.Stands(g2, Pow(X, 2)) && Entries(g, z)
    requires z.Outside(g2)
    modifies z.r2, z.q3
    ensures Table(h, z, X, n + 2) && Entries(h, z) && z.Stands(g2, Pow(X, 2))
    ensures forall v :: v in h.Values ==> v in g.Values || fresh(v)
  {
    var next := new BigInteger();
    var last := g[n - 2];
    z.MulTo(g2, last, next, Pow(X, 2), Pow(X, n - 2));
    PowAdd(X, 2, n - 2);
    TableAdd(g, z, X, n, next);
    h := g[n := next];
  }

  lemma TableAdd(g: map<int, BigInteger>, z: Reducer, X: int, n: int, next: BigInteger)
    requires n >= 3 && n % 2 == 1 && Table(g, z, X, n) && z.Stands(next, Pow(X, n)) && Entries(g, z) && z.Outside(next)
    ensures Table(g[n := next], z, X, n + 2) && Entries(g[n := next], z)
    ensures g[n := next].Values <= g.Values + {next}
  {
    var h := g[n := next];
    forall w | 1 <= w < n + 2 && w % 2 == 1
      ensures w in h && z.Stands(h[w], Pow(X, w))
    {
      assert w < n || w == n;
    }
  }

  /** g[1], g[3], ... : the odd powers up to 2^k - 1. */
  method OddPowers(z: Reducer, x: BigInteger, k: nat) returns (g: map<int, BigInteger>)
    requires z.Valid() && x.Canonical() && z.Convertible(x) && 1 <= k
    modifies z.r2, z.q3
    ensures Table(g, z, x.Value(), Pow2(k)) && Entries(g, z)
    ensures forall v :: v in g.Values ==> v == x || fresh(v)
  {
    g := FirstPower(z, x);
    assert Pow2(k) == 2 * Pow2(k - 1);
    if k > 1 {
      g := MorePowers(z, g, Pow2(k) - 1, x.Value());
    } else {
      assert Pow2(1) == 2;
    }
  }

  method FirstPower(z: Reducer, x: BigInteger) returns (g: map<int, BigInteger>)
    requires z.Valid() && x.Canonical() && z.Convertible(x)
    modifies z.r2, z.q3
    ensures Table(g, z, x.Value(), 3) && Entries(g, z)
    ensures forall v :: v in g.Values ==> v == x || fresh(v)
  {
    ghost var X := x.Value();
    var one := z.Convert(x);
    PowSmall(X);
    g := map[1 := one];
    forall w | 1 <= w < 3 && w % 2 == 1
      ensures w in g && z.Stands(g[w], Pow(X, w))
    {
      assert w == 1;
    }
  }

  method MorePowers(z: Reducer, g0: map<int, BigInteger>, km: int, ghost X: int)
    returns (g: map<int, BigInteger>)
    requires z.Valid() && Table(g0, z, X, 3) && Entries(g0, z)
    requires km % 2 == 1
    modifies z.r2, z.q3
    ensures Table(g, z, X, km + 1) && Entries(g, z)
    ensures forall v :: v in g.Values ==> v in g0.Values || fresh(v)
  {
    g := g0;
    var g2 := new BigInteger();
    var first := g[1];
    SquarePower(z, first, g2, X, 1);
    var n := 3;
    while n <= km
      invariant n >= 3 && n % 2 == 1
      invariant Table(g, z, X, n) && Entries(g, z)
      invariant z.Stands(g2, Pow(X, 2))
      invariant forall v :: v in g.Values ==> v in g0.Values || fresh(v)
      decreases km - n
    {
      g := NextPower(z, g, g2, n, X);
      n := n + 2;
    }
  }

  // Bit i of limb j is not set.
  predicate ZeroAt(e: seq<int>, t: nat, j: nat, i: nat)
    requires j < t <= |e| && InRange(e, 0, t) && i < DB()
  {
    PowInLimb(i);
    Bit(e[j], Pow2(i)) == 0
  }

  lemma PowInLimb(i: nat)
    requires i < DB()
    ensures Pow2(i) <= DV
  {
    RadixIsPow2();
    Pow2Mono(i, DB());
  }

  /** Square through the zero bits under the cursor. */
  method SkipZeros(z: Reducer, e: BigInteger, j0: int, i0: int, r0: BigInteger, s0: BigInteger,
                   ghost X: int, ghost x: nat, ghost b0: nat)
    returns (j: int, i: int, r: BigInteger, r2: BigInteger, ghost b: nat)
    requires e.Valid() && x == Seg(e.d, 0, e.t) && Cursor(j0, i0, e.t, b0)
    requires z.Valid() && z.Stands(r0, Pow(X, Above(x, b0))) && z.Outside(r0) && z.Outside(s0) && r0 != s0
    requires e != r0 && e != s0 && e != z.r2 && e != z.q3
    modifies r0, s0, z.r2, z.q3
    ensures Cursor(j, i, e.t, b) && b <= b0 && (b > 0 ==> Above(x, b - 1) % 2 == 1)
    ensures (r == r0 && r2 == s0) || (r == s0 && r2 == r0)
    ensures z.Stands(r, Pow(X, Above(x, b)))
  {
    hide Pow2, Above;
    j, i, r, r2, b := j0, i0, r0, s0, b0;
    while j >= 0 && ZeroAt(e.d, e.t, j, i)
      invariant Cursor(j, i, e.t, b) && b <= b0 && e.Valid() && x == Seg(e.d, 0, e.t)
      invariant (r == r0 && r2 == s0) || (r == s0 && r2 == r0)
      invariant z.Stands(r, Pow(X, Above(x, b)))
      decreases b
    {
      BitAt(e.d, e.t, j, i, b);
      AboveStep(x, b - 1);
      CursorBack(j, i, e.t, b, 1);
      SquarePower(z, r, r2, X, Above(x, b));
      r, r2 := r2, r;
      b := b - 1;
      i := i - 1;
      if i < 0 {
        i := DB() - 1;
        j := j - 1;
      }
    }
    if j >= 0 {
      BitAt(e.d, e.t, j, i, b);
    }
    CursorEnd(j, i, e.t, b);
  }

  /** r = r^(2^n) * g[w], or a copy of g[w] for the first window. */
  method Accumulate(z: Reducer, g: map<int, BigInteger>, w: int, n: nat, first: bool, r0: BigInteger, s0: BigInteger,
                    ghost X: int, ghost km: int, ghost c: nat)
    returns (r: BigInteger, r2: BigInteger)
    requires z.Valid() && Table(g, z, X, km) && Entries(g, z) && 1 <= w < km && w % 2 == 1
    requires z.Outside(r0) && z.Outside(s0) && r0 != s0 && r0 !in g.Values && s0 !in g.Values
    requires if first then c == 0 else z.Stands(r0, Pow(X, c))
    modifies r0, s0, z.r2, z.q3
    ensures (r == r0 && r2 == s0) || (r == s0 && r2 == r0)
    ensures 0 <= c * Pow2(n) && z.Stands(r, Pow(X, c * Pow2(n) + w)) && Table(g, z, X, km)
  {
    var factor := g[w];
    assert factor in g.Values;
    if first {
      r, r2 := r0, s0;
      factor.CopyTo(r);
    } else {
      r2, r := SquareUp(z, r0, s0, n, X, c);
      z.MulTo(r2, factor, r, Pow(X, c * Pow2(n)), Pow(X, w));
      PowAdd(X, c * Pow2(n), w);
    }
  }

  /** b bits of the exponent x are left, the next one is a one, and r is the power by those before. */
  ghost predicate Progress(z: Reducer, e: BigInteger, j: int, i: int, first: bool, r: BigInteger, X: int, x: nat,
                           b: nat)
    reads z.m, e, r
  {
    && e.Valid() && x == Seg(e.d, 0, e.t) && Cursor(j, i, e.t, b)
    && (b > 0 ==> Above(x, b - 1) % 2 == 1)
    && if first then b > 0 && Above(x, b) == 0 else z.Stands(r, Pow(X, Above(x, b)))
  }

  /** The next window, and the cursor behind it. */
  method NextWindow(e: BigInteger, j0: nat, i0: nat, k: nat, ghost x: nat, ghost b0: nat)
    returns (w: int, n: nat, j: int, i: int, ghost b: nat)
    requires e.Valid() && x == Seg(e.d, 0, e.t) && Cursor(j0, i0, e.t, b0) && 1 <= k <= 6
    requires b0 > 0 ==> Above(x, b0 - 1) % 2 == 1
    ensures Cursor(j, i, e.t, b) && b < b0 && 1 <= w < Pow2(k) && w % 2 == 1
    ensures Above(x, b) == Above(x, b0) * Pow2(n) + w
  {
    CursorEnd(j0, i0, e.t, b0);
    w, n := TakeWindow(e, j0, i0, k, b0);
    CursorBack(j0, i0, e.t, b0, n);
    b := b0 - n;
    j, i := j0, i0 - n;
    if i < 0 {
      i, j := i + DB(), j - 1;
    }
  }

  /** One window. */
  method Round(z: Reducer, g: map<int, BigInteger>, e: BigInteger, k: nat, j0: int, i0: int, first: bool,
               r0: BigInteger, s0: BigInteger, ghost X: int, ghost x: nat, ghost b0: nat)
    returns (j: int, i: int, r: BigInteger, r2: BigInteger, ghost b: nat)
    requires z.Valid() && Progress(z, e, j0, i0, first, r0, X, x, b0) && j0 >= 0 && 1 <= k <= 6
    requires Table(g, z, X, Pow2(k)) && Entries(g, z)
    requires z.Outside(r0) && z.Outside(s0) && r0 != s0 && r0 !in g.Values && s0 !in g.Values
    requires e != r0 && e != s0 && e != z.r2 && e != z.q3
    modifies r0, s0, z.r2, z.q3
    ensures Progress(z, e, j, i, false, r, X, x, b) && b < b0
    ensures (r == r0 && r2 == s0) || (r == s0 && r2 == r0)
    ensures Table(g, z, X, Pow2(k))
  {
    hide Pow2, Above;
    var w, n;
    w, n, j, i, b := NextWindow(e, j0, i0, k, x, b0);
    r, r2 := Accumulate(z, g, w, n, first, r0, s0, X, Pow2(k), Above(x, b0));
    j, i, r, r2, b := SkipZeros(z, e, j, i, r, r2, X, x, b);
  }

  /** The loop over the bits of e, from the leading one down. */
  method Exponentiate(z: Reducer, g: map<int, BigInteger>, e: BigInteger, k: nat, r0: BigInteger, s0: BigInteger,
                      ghost X: int)
    returns (r: BigInteger)
    requires z.Valid() && e.Valid() && e.t > 0 && e.d[e.t - 1] > 0 && 1 <= k <= 6
    requires Table(g, z, X, Pow2(k)) && Entries(g, z)
    requires z.Outside(r0) && z.Outside(s0) && r0 != s0 && r0 !in g.Values && s0 !in g.Values
    requires e != r0 && e != s0 && e != z.r2 && e != z.q3
    modifies r0, s0, z.r2, z.q3
    ensures r == r0 || r == s0
    ensures 0 <= old(Exponent(e)) && z.Stands(r, Pow(X, old(Exponent(e))))
  {
    hide Pow2, Above;
    SegBound(e.d, 0, e.t);
    ghost var x: nat := Seg(e.d, 0, e.t);
    var i := NBits(e.d[e.t - 1]);
    TopBit(e.d, e.t, i);
    ghost var b: nat := (e.t - 1) * DB() + i;
    TopBitFits(e.d[e.t - 1], i);
    i := i - 1;
    var j, first, r2 := e.t - 1, true, s0;
    r := r0;
    while j >= 0
      invariant Progress(z, e, j, i, first, r, X, x, b)
      invariant (r == r0 && r2 == s0) || (r == s0 && r2 == r0)
      invariant Table(g, z, X, Pow2(k))
      decreases b
    {
      j, i, r, r2, b := Round(z, g, e, k, j, i, first, r, r2, X, x, b);
      first := false;
    }
    CursorEnd(j, i, e.t, b);
    AboveZero(x);
  }

  lemma TopBitFits(x: int, b: nat)
    requires 0 < x < DV && b >= 1 && Pow2(b - 1) <= x
    ensures b <= DB()
  {
    RadixIsPow2();
    if b > DB() {
      Pow2Mono(DB(), b - 1);
    }
  }

  // The size of the window for an exponent of i bits.
  function WindowSize(i: nat): (k: nat)
    ensures 1 <= k <= 6
  {
    if i < 18 then 1 else if i < 48 then 3 else if i < 144 then 4 else if i < 768 then 5 else 6
  }

  /** The limbs of e as a number: e itself, or e + DV^t for a negative e of t limbs. */
  ghost function Exponent(e: BigInteger): int
    reads e
    requires e.Valid()
  {
    Seg(e.d, 0, e.t)
  }

  lemma ExponentOf(e: BigInteger)
    requires e.Canonical()
    ensures Exponent(e) == if e.Value() >= 0 then e.Value() else e.Value() + P(e.t)
    ensures 0 <= Exponent(e) && (e.t == 0 ==> Exponent(e) == 0) && (e.t > 0 && e.d[e.t - 1] > 0 ==> Exponent(e) > 0)
    ensures e.Value() >= 0 ==> (e.t > 0 ==> e.d[e.t - 1] > 0)
  {
    NumSign(e.d, e.t, e.s);
    SegBound(e.d, 0, e.t);
    if e.t > 0 {
      SegBound(e.d, 0, e.t - 1);
      if e.d[e.t - 1] > 0 {
        MulLe(1, e.d[e.t - 1], P(e.t - 1));
      }
    }
  }

  /** modPow: x^e mod m for every e that is not negative. The sign of e is not looked at: a negative e
      stands for the number its limbs make, unless its highest limb is zero. */
  method ModPow(x: BigInteger, e: BigInteger, m: BigInteger) returns (r: BigInteger)
    requires x.Canonical() && e.Canonical() && m.Canonical() && m.Value() > 0
    requires e.Value() < -1 ==> e.d[e.t - 1] > 0
    requires m.Value() % 2 == 0 ==> m.t + 4 <= DV
    ensures fresh(r) && r.Canonical() && 0 <= Exponent(e)
    ensures Exponent(e) == if e.Value() >= 0 then e.Value() else e.Value() + P(e.t)
    ensures r.Value() == if Exponent(e) == 0 then 1 else Pow(x.Value(), Exponent(e)) % m.Value()
  {
    ExponentOf(e);
    r := new BigInteger.FromInt(1);
    var i := BitLength(e);
    if i <= 0 {
      return;
    }
    var k := WindowSize(i);
    var even := m.IsEven();
    var kind := if i < 8 then Classic else if even then BarrettKind else MontgomeryKind;
    var z := Reducer.Create(kind, m);
    r := ModPowWith(z, x, e, k, r);
  }

  method ModPowWith(z: Reducer, x: BigInteger, e: BigInteger, k: nat, r0: BigInteger) returns (r: BigInteger)
    requires z.Valid() && x.Canonical() && e.Canonical() && e.t > 0 && e.d[e.t - 1] > 0 && 1 <= k <= 6
    requires z.Convertible(x) && z.Outside(r0) && r0 != x && r0 != e && e != z.r2 && e != z.q3
    modifies r0, z.r2, z.q3
    ensures r == r0 || fresh(r)
    ensures r.Canonical() && z.m.Value() > 0 && old(Exponent(e)) >= 0
    ensures r.Value() == Pow(old(x.Value()), old(Exponent(e))) % z.m.Value()
  {
    ghost var X, E := x.Value(), Exponent(e);
    ExponentOf(e);
    var g := OddPowers(z, x, k);
    var r2 := new BigInteger();
    r := Exponentiate(z, g, e, k, r0, r2, X);
    r := z.Revert(r, Pow(X, E));
  }

  lemma PowSmall(X: int)
    ensures Pow(X, 1) == X
  {
    assert Pow(X, 1) == X * Pow(X, 0);
  }
}
