/** invDigit and montReduce: Newton inversion of a limb and reduction by the radix (HAC 14.32). */
module Montgomery {
  import opened JsNumber
  import opened Limbs
  import opened Modular
  import opened BigIntegers
  import opened Shifts
  import opened AmSteps
  import opened Multiply

  /** One Newton step: an inverse modulo k gives one modulo any divisor of k * k. Only the low part
      x' of x is needed. */
  lemma NewtonStep(x: int, y: int, k: int, m: int, b: int, x': int, y': int)
    requires m > 0 && k > 0 && k * k == b * m
    requires Cong(x * y, 1, k) && Cong(x', x, m) && Cong(y', y * (2 - x' * y), m)
    ensures Cong(x * y', 1, m)
  {
    var a := CongWitness(x * y, 1, k);
    var d := CongWitness(x', x, m);
    var c := CongWitness(y', y * (2 - x' * y), m);
    NewtonAlgebra(x, y, k, m, b, x', y', a, d, c);
    CongIntro(x * y', 1, m, x * c - x * y * d * y - a * a * b);
  }

  lemma NewtonAlgebra(x: int, y: int, k: int, m: int, b: int, x': int, y': int, a: int, d: int, c: int)
    requires k * k == b * m && x * y == 1 + a * k && x' == x + d * m && y' == y * (2 - x' * y) + c * m
    ensures x * y' - 1 == (x * c - x * y * d * y - a * a * b) * m
  {
    var u := x * y;
    NewtonError(a, k, b, m);
    NewtonProduct(x, y, u, d, m, x', c, y');
    NewtonSum(x * c, u * d * y, a * a * b, m, u, a * k);
  }

  lemma NewtonError(a: int, k: int, b: int, m: int)
    requires k * k == b * m
    ensures (a * k) * (a * k) == (a * a * b) * m
  {
    assert (a * k) * (a * k) == (a * a) * (k * k);
    assert (a * a) * (b * m) == (a * a * b) * m;
  }

  lemma NewtonProduct(x: int, y: int, u: int, d: int, m: int, x': int, c: int, y': int)
    requires u == x * y && x' == x + d * m && y' == y * (2 - x' * y) + c * m
    ensures x * y' == u * (2 - u) - (u * d * y) * m + (x * c) * m
  {
    var e := (d * m) * y;
    assert x' * y == u + e;
    assert x * (y * (2 - (u + e))) == u * (2 - (u + e));
    assert u * (2 - (u + e)) == u * (2 - u) - u * e;
    assert u * e == (u * d * y) * m;
    assert x * (c * m) == (x * c) * m;
  }

  lemma NewtonSum(p: int, q: int, r: int, m: int, u: int, w: int)
    requires u == 1 + w && w * w == r * m
    ensures u * (2 - u) - q * m + p * m - 1 == (p - q - r) * m
  {
    assert u * (2 - u) == 1 - w * w;
  }

  // JavaScript's %, whose result has the sign of the dividend.
  function JsRem(v: int, b: int): int
    requires -SAFE < v < SAFE && b > 0
  {
    if v >= 0 then v % b else -((-v) % b)
  }

  lemma RemCong(v: int, b: int)
    requires -SAFE < v < SAFE && b > 0
    ensures -b < JsRem(v, b) < b && Cong(JsRem(v, b), v, b)
  {
    CongMod(AbsInt(v), b);
    if v < 0 {
      var k := CongWitness((-v) % b, -v, b);
      NegProduct(k, b);
      CongIntro(-((-v) % b), v, b, -k);
    }
  }

  /** The masked product inside a Newton step may be replaced by its residue. */
  lemma InnerMask(y: int, p: int, t: int, m: int)
    requires m > 0 && Cong(t, p, m)
    ensures Cong(y * (2 - t), y * (2 - p), m)
  {
    var k := CongWitness(t, p, m);
    InnerAlgebra(y, p, t, k, m);
    CongIntro(y * (2 - t), y * (2 - p), m, -(y * k));
  }

  lemma InnerAlgebra(y: int, p: int, t: int, k: int, m: int)
    requires t == p + k * m
    ensures y * (2 - t) - y * (2 - p) == -(y * k) * m
  {
    assert y * (k * m) == (y * k) * m;
    assert y * (2 - t) == y * (2 - p) - y * (k * m);
    NegProduct(y * k, m);
  }

  /** The inverse modulo 4, 16, 256 of the first three lines. */
  method InvByte(x: int) returns (y: int)
    requires 0 < x < DV && x % 2 == 1
    ensures 0 <= y < 256 && Cong(x * y, 1, 256)
  {
    y := Mask(x, 4);
    OddSquare(x);
    var x4, v4 := Mask(x, 0x10), y * (2 - Mask(x, 0x10) * y);
    MulBoundAbs(y, 2 - x4 * y, 4, 64);
    CongMod(x, 0x10);
    CongMod(v4, 0x10);
    NewtonStep(x, y, 4, 0x10, 1, x4, Mask(v4, 0x10));
    y := Mask(v4, 0x10);
    var x8, v8 := Mask(x, 0x100), y * (2 - Mask(x, 0x100) * y);
    MulBoundAbs(x8, y, 256, 16);
    MulBoundAbs(y, 2 - x8 * y, 16, 4098);
    CongMod(x, 0x100);
    CongMod(v8, 0x100);
    NewtonStep(x, y, 0x10, 0x100, 1, x8, Mask(v8, 0x100));
    y := Mask(v8, 0x100);
  }

  lemma MulBoundAbs(x: int, y: int, X: int, Y: int)
    requires -X <= x <= X && -Y <= y <= Y
    ensures -(X * Y) <= x * y <= X * Y
  {
    MulMono(X, AbsInt(y), Y);
    MulLe(AbsInt(x), X, AbsInt(y));
    AbsProduct(x, y);
  }

  lemma OddSquare(x: int)
    requires x % 2 == 1
    ensures Cong(x * (x % 4), 1, 4)
  {
    var q, r := x / 4, x % 4;
    assert x == 4 * q + r && (r == 1 || r == 3);
    OddSquareAlgebra(q, r, x);
    CongIntro(x * r, 1, 4, q * r + (if r == 1 then 0 else 2));
  }

  lemma OddSquareAlgebra(q: int, r: int, x: int)
    requires x == 4 * q + r && (r == 1 || r == 3)
    ensures x * r - 1 == (q * r + (if r == 1 then 0 else 2)) * 4
  {
  }

  /** invDigit: -1/m modulo DV, or 0 when there is none. */
  method InvDigit(m: BigInteger) returns (r: int)
    requires m.Valid()
    ensures m.t < 1 || m.d[0] % 2 == 0 ==> r == 0
    ensures m.t >= 1 && m.d[0] % 2 == 1 ==> 0 <= r < DV && Cong(m.d[0] * r, -1, DV)
  {
    if m.t < 1 {
      return 0;
    }
    var x := m.d[0];
    if x % 2 == 0 {
      return 0;
    }
    var y := InvByte(x);
    y := InvWord(x, y);
    y := InvLimb(x, y);
    r := if y > 0 then DV - y else -y;
    NegateInverse(x, y, r);
  }

  method InvWord(x: int, y: int) returns (y': int)
    requires 0 < x < DV && 0 <= y < 256 && Cong(x * y, 1, 256)
    ensures 0 <= y' < 0x1_0000 && Cong(x * y', 1, 0x1_0000)
  {
    var x16 := Mask(x, 0x1_0000);
    MulBoundAbs(x16, y, 0x1_0000, 256);
    var t := Mask(x16 * y, 0x1_0000);
    MulBoundAbs(y, 2 - t, 256, 0x1_0000);
    y' := Mask(y * (2 - t), 0x1_0000);
    CongMod(x, 0x1_0000);
    CongMod(x16 * y, 0x1_0000);
    CongMod(y * (2 - t), 0x1_0000);
    InnerMask(y, x16 * y, t, 0x1_0000);
    CongTrans(y', y * (2 - t), y * (2 - x16 * y), 0x1_0000);
    NewtonStep(x, y, 256, 0x1_0000, 1, x16, y');
  }

  method InvLimb(x: int, y: int) returns (y': int)
    requires 0 < x < DV && 0 <= y < 0x1_0000 && Cong(x * y, 1, 0x1_0000)
    ensures -y' < DV && y' < DV && Cong(x * y', 1, DV)
  {
    MulBoundAbs(x, y, 0x4000_0000, 0x1_0000);
    var t := JsRem(x * y, DV);
    RemCong(x * y, DV);
    MulBoundAbs(y, 2 - t, 0x1_0000, 0x4000_0002);
    y' := JsRem(y * (2 - t), DV);
    RemCong(y * (2 - t), DV);
    InnerMask(y, x * y, t, DV);
    CongTrans(y', y * (2 - t), y * (2 - x * y), DV);
    CongRefl(x, DV);
    NewtonStep(x, y, 0x1_0000, DV, if DV == 0x400_0000 then 64 else if DV == 0x1000_0000 then 16 else 4, x, y');
  }

  lemma NegateInverse(x: int, y: int, r: int)
    requires Cong(x * y, 1, DV) && (r == DV - y || r == -y)
    ensures Cong(x * r, -1, DV)
  {
    var k := CongWitness(x * y, 1, DV);
    var e := if r == -y then 0 else 1;
    NegateAlgebra(x, y, r, k, e);
    CongIntro(x * r, -1, DV, x * e - k);
  }

  lemma NegateAlgebra(x: int, y: int, r: int, k: int, e: int)
    requires x * y == 1 + k * DV && r == e * DV - y
    ensures x * r + 1 == (x * e - k) * DV
  {
    assert x * (e * DV - y) == (x * e) * DV - x * y;
  }

  /** The multiplier of a row, limb times -1/m modulo DV, from 15-bit halves; um is 2^(DB - 15). */
  function MontDigit(xi: int, mp: int, um: int): (u0: int)
    requires 0 <= xi < DV && 0 <= mp < DV && um == Pow2(DB() - 15)
    ensures u0 == (xi * mp) % DV
  {
    var mpl, mph := Mask(mp, 0x8000), Shr(mp, 0x8000);
    var j, h := Mask(xi, 0x8000), Shr(xi, 0x8000);
    MulBoundAbs(j, mph, 0x7fff, 0x7fff);
    MulBoundAbs(h, mpl, 0x7fff, 0x7fff);
    MulBoundAbs(j, mpl, 0x7fff, 0x7fff);
    HalfMask();
    MulLe(0, j, mph);
    MulLe(0, h, mpl);
    MulLe(0, j, mpl);
    var mid := j * mph + h * mpl;
    MontHalves(xi, mp, um, mid);
    Mask(j * mpl + Shl(Mask(mid, um), 0x8000), DV)
  }

  lemma HalfMask()
    ensures Pow2(DB() - 15) * 0x8000 == DV && 1 <= Pow2(DB() - 15) <= 0x8000
  {
    RadixIsPow2();
    SmallPowers();
    assert Pow2(15) * 2 == Pow2(16);
    Pow2Add(DB() - 15, 15);
    Pow2Mono(DB() - 15, 15);
  }

  lemma MontHalves(xi: int, mp: int, um: int, mid: int)
    requires um * 0x8000 == DV && um > 0
    requires mid == (xi % 0x8000) * (mp / 0x8000) + (xi / 0x8000) * (mp % 0x8000)
    ensures ((xi % 0x8000) * (mp % 0x8000) + (mid % um) * 0x8000) % DV == (xi * mp) % DV
  {
    var j, h, l, g := xi % 0x8000, xi / 0x8000, mp % 0x8000, mp / 0x8000;
    HalfProducts(xi, mp, 0x8000);
    assert mid == um * (mid / um) + mid % um;
    var b := if DV == 0x400_0000 then 16 else if DV == 0x1000_0000 then 4 else 1;
    var k := (mid / um) + h * g * b;
    assert h * g * (0x8000 * 0x8000) == (h * g * b) * DV by {
      assert 0x8000 * 0x8000 == b * DV;
      MulAssoc(h * g, b, DV);
    }
    assert (mid / um) * DV == (um * (mid / um)) * 0x8000 by {
      MulSwap(0x8000, mid / um, um);
    }
    SumProduct(mid / um, h * g * b, DV);
    AddMultiple(j * l + (mid % um) * 0x8000, k, xi * mp);
  }

  lemma AddMultiple(v: int, k: int, w: int)
    requires w == v + k * DV
    ensures w % DV == v % DV
  {
    CongMod(v, DV);
    var l := CongWitness(v % DV, v, DV);
    SumProduct(k, -l, DV);
    NegProduct(l, DV);
    DivUnique(w, DV, k - l, v % DV);
  }

  /** Adding u0 times the modulus clears limb i. */
  lemma ClearsLimb(x: int, m0: int, mp: int, u0: int, x': int, z: int)
    requires Cong(m0 * mp, -1, DV) && u0 == (x * mp) % DV && 0 <= x' < DV
    requires x' + DV * z == x + u0 * m0
    ensures x' == 0
  {
    var k := CongWitness(m0 * mp, -1, DV);
    CongMod(x * mp, DV);
    var l := CongWitness(u0, x * mp, DV);
    ClearAlgebra(x, m0, mp, u0, k, l);
    var w := x * k + l * m0 - z;
    assert DV * z == z * DV;
    SumProduct(x * k + l * m0, -z, DV);
    NegProduct(z, DV);
    assert x' == w * DV;
    DivUnique(x', DV, w, 0);
    DivUnique(x', DV, 0, x');
  }

  lemma ClearAlgebra(x: int, m0: int, mp: int, u0: int, k: int, l: int)
    requires m0 * mp == -1 + k * DV && u0 == x * mp + l * DV
    ensures x + u0 * m0 == (x * k + l * m0) * DV
  {
    assert (x * mp) * m0 == x * (m0 * mp);
    assert x * (-1 + k * DV) == -x + (x * k) * DV;
    assert (l * DV) * m0 == (l * m0) * DV;
    assert u0 * m0 == (x * mp) * m0 + (l * DV) * m0;
    SumProduct(x * k, l * m0, DV);
  }

  /** The accumulator after i limbs: X0 plus U times the modulus, low limbs cleared. */
  ghost predicate MontState(x: seq<int>, i: nat, n: nat, M: int, X0: int, U: int) {
    && i <= n && 2 * n + 1 <= |x| && InRange(x, 0, 2 * n + 1)
    && (forall k :: 0 <= k < i ==> x[k] == 0)
    && Seg(x, 0, 2 * n + 1) == X0 + M * U
    && 0 <= U < P(i)
  }

  lemma MontSize(n: nat, M: int, X0: int, U: int)
    requires 0 < M < P(n) && 0 <= X0 < M * P(n) && 0 <= U < P(n)
    ensures 0 <= X0 + M * U < P(2 * n + 1)
  {
    MulMono(M, U, P(n));
    MulMono(M, 0, U);
    MulLe(M, P(n), P(n));
    PAdd(n, n);
    PStrict(2 * n, 2 * n + 1);
  }

  lemma MontNext(U: int, u0: int, i: nat, M: int, X0: int, n: nat)
    requires 0 <= U < P(i) && 0 <= u0 < DV && i < n
    ensures 0 <= U + u0 * P(i) < P(i + 1) <= P(n)
    ensures X0 + M * U + P(i) * (u0 * M) == X0 + M * (U + u0 * P(i))
  {
    MulLe(0, u0, P(i));
    MulLe(u0, DV - 1, P(i));
    MinusOne(DV, P(i));
    PMono(i + 1, n);
    RowProduct(M, U, u0, P(i));
  }

  /** A carry of one runs through full limbs behind each row of montReduce. */
  method PropagateCarry(x: BigInteger, j0: nat, top: nat)
    requires j0 < top <= |x.d| && InRange(x.d, 0, j0) && InRange(x.d, j0 + 1, top)
    requires 0 <= x.d[j0] < 2 * DV && Seg(x.d, 0, top) < P(top)
    modifies x`d
    ensures |x.d| == |old(x.d)| && InRange(x.d, 0, top) && Seg(x.d, 0, top) == Seg(old(x.d), 0, top)
    ensures forall k :: 0 <= k < |x.d| && !(j0 <= k < top) ==> x.d[k] == old(x.d[k])
  {
    hide P, Seg;
    ghost var D := x.d;
    var j := j0;
    while x.d[j] >= DV
      invariant j0 <= j < top <= |x.d| && |x.d| == |D|
      invariant InRange(x.d, 0, j) && InRange(x.d, j + 1, top) && 0 <= x.d[j] < 2 * DV
      invariant Seg(x.d, 0, top) == Seg(D, 0, top)
      invariant forall k :: 0 <= k < |x.d| && !(j0 <= k < top) ==> x.d[k] == D[k]
      decreases top - j
    {
      ghost var E := x.d;
      CarryFits(x.d, j, top);
      x.d := x.d[j := x.d[j] - DV];
      j := j + 1;
      x.d := x.d[j := x.d[j] + 1];
      SegTwo(E, j - 1);
      SegTwo(x.d, j - 1);
      SegPatch(E, x.d, j - 1, j + 1, top, 0);
    }
  }

  lemma CarryFits(x: seq<int>, j: nat, top: nat)
    requires j < top <= |x| && InRange(x, 0, j) && InRange(x, j + 1, top) && x[j] >= DV && Seg(x, 0, top) < P(top)
    ensures j + 1 < top
  {
    if j + 1 == top {
      SegBound(x, 0, j);
      MulLe(DV, x[j], P(j));
    }
  }

  /** One turn of montReduce's loop. */
  method MontLimb(x: BigInteger, m: BigInteger, i: nat, mp: int, um: int, ghost X0: int, ghost U: int)
    returns (ghost U': int)
    requires x != m && m.Valid() && m.s == 0 && i < m.t && 0 < m.Value() && 0 <= X0 < m.Value() * P(m.t)
    requires 0 <= mp < DV && um == Pow2(DB() - 15) && Cong(m.d[0] * mp, -1, DV)
    requires MontState(x.d, i, m.t, m.Value(), X0, U)
    modifies x`d
    ensures MontState(x.d, i + 1, m.t, m.Value(), X0, U')
  {
    hide Seg, P, Cong, Pow2;
    ghost var D, n, M := x.d, m.t, m.Value();
    var u0 := MontDigit(x.d[i], mp, um);
    var co := Am(m, 0, u0, x, i, 0, m.t);
    ghost var mid := x.d;
    x.d := x.d[i + m.t := x.d[i + m.t] + co];
    U' := U + u0 * P(i);
    MontRow(D, i, n, m.d, u0, mid, co, x.d, u0 * M, mp);
    MontNext(U, u0, i, M, X0, n);
    SegBound(m.d, 0, n);
    MontSize(n, M, X0, U');
    ghost var after := x.d;
    PropagateCarry(x, i + m.t, 2 * m.t + 1);
    MontStateNext(D, after, x.d, i, n, M, X0, U, U');
  }

  lemma MontStateNext(before: seq<int>, after: seq<int>, x: seq<int>, i: nat, n: nat, M: int, X0: int, U: int, U': int)
    requires MontState(before, i, n, M, X0, U) && i < n && |x| == |after| == |before| && InRange(x, 0, 2 * n + 1)
    requires Seg(x, 0, 2 * n + 1) == X0 + M * U' && 0 <= U' < P(i + 1)
    requires after[i] == 0 && forall k :: 0 <= k < i ==> after[k] == before[k]
    requires forall k :: 0 <= k < i + n ==> x[k] == after[k]
    ensures MontState(x, i + 1, n, M, X0, U')
  {
  }

  lemma MontRow(D: seq<int>, i: nat, n: nat, m: seq<int>, u0: int, mid: seq<int>, co: int, after: seq<int>, row: int,
                mp: int)
    requires i < n <= |m| && 2 * n + 1 <= |D| && InRange(D, 0, 2 * n + 1)
    requires AmDone(m, 0, u0, D, i, 0, n, mid, co) && 0 <= u0 < DV
    requires after == mid[i + n := mid[i + n] + co] && row == u0 * Seg(m, 0, n)
    requires Cong(m[0] * mp, -1, DV) && u0 == (D[i] * mp) % DV
    ensures Seg(after, 0, 2 * n + 1) == Seg(D, 0, 2 * n + 1) + P(i) * row
    ensures after[i] == 0 && 0 <= after[i + n] < 2 * DV
    ensures forall k :: 0 <= k < 2 * n + 1 && !(i <= k <= i + n) ==> after[k] == D[k]
    ensures InRange(after, i, i + n)
  {
    assert mid[i + n] == D[i + n];
    SegFrame(mid, after, i, i + n);
    SignedProduct(false, D[i + n], co, P(n));
    SegPatch(D, after, i, i + n + 1, 2 * n + 1, row);
    MontLow(D, i, n, m, u0, mid, co, mp);
  }

  lemma MontLow(D: seq<int>, i: nat, n: nat, m: seq<int>, u0: int, mid: seq<int>, co: int, mp: int)
    requires i < n <= |m| && i + n <= |D| && 0 <= u0
    requires AmDone(m, 0, u0, D, i, 0, n, mid, co)
    requires Cong(m[0] * mp, -1, DV) && u0 == (D[i] * mp) % DV
    ensures mid[i] == 0
  {
    SegLow(D, i, i + n);
    SegLow(mid, i, i + n);
    SegLow(m, 0, n);
    var a, b, c, p := Seg(mid, i + 1, i + n), Seg(D, i + 1, i + n), Seg(m, 1, n), P(n - 1);
    MontLowAlgebra(mid[i], a, co, p, D[i], b, u0, m[0], c);
    ClearsLimb(D[i], m[0], mp, u0, mid[i], a + co * p - b - u0 * c);
  }

  lemma MontLowAlgebra(x': int, a: int, co: int, p: int, x: int, b: int, u0: int, m0: int, c: int)
    requires x' + DV * a + co * (DV * p) == x + DV * b + u0 * (m0 + DV * c)
    ensures x' + DV * (a + co * p - b - u0 * c) == x + u0 * m0
  {
    assert co * (DV * p) == DV * (co * p);
    assert u0 * (m0 + DV * c) == u0 * m0 + DV * (u0 * c);
  }

  // The rows of reduce: x becomes a multiple of DV^n.
  method MontRows(x: BigInteger, m: BigInteger, mp: int) returns (ghost U: int)
    requires x != m && x.Canonical() && m.Canonical() && m.t > 0 && 0 < m.Value() && m.s == 0
    requires 0 <= mp < DV && Cong(m.d[0] * mp, -1, DV)
    requires 0 <= x.Value() < m.Value() * P(m.t)
    modifies x
    ensures x.t == 2 * m.t + 1 && x.s == 0 && MontState(x.d, m.t, m.t, m.Value(), old(x.Value()), U)
  {
    ghost var X0, M, n := x.Value(), m.Value(), m.t;
    NumSign(m.d, m.t, m.s);
    var um := Pow2(DB() - 15);
    MontPad(x, 2 * m.t, m.t, M);
    U := 0;
    var i := 0;
    assert P(0) == 1;
    while i < m.t
      invariant 0 <= i <= m.t && x.t == 2 * m.t + 1 && x.s == 0
      invariant MontState(x.d, i, n, M, X0, U)
    {
      U := MontLimb(x, m, i, mp, um, X0, U);
      i := i + 1;
    }
  }

  // The end of reduce: the low limbs are shifted out, and m subtracted once if need be.
  method MontFinish(x: BigInteger, m: BigInteger, ghost X0: int, ghost U: int)
    requires x != m && m.Canonical() && m.t > 0 && 0 < m.Value() && x.t == 2 * m.t + 1 && x.s == 0
    requires MontState(x.d, m.t, m.t, m.Value(), X0, U) && 0 <= X0 < m.Value() * P(m.t)
    modifies x
    ensures x.Canonical() && 0 <= x.Value() < m.Value() && Cong(x.Value() * P(m.t), X0, m.Value())
  {
    ghost var M, n := m.Value(), m.t;
    MontQuotient(x.d, n, M, X0, U);
    x.Clamp();
    x.DRShiftTo(m.t, x);
    MontCong(x.Value(), M, P(n), X0, U);
    var c := x.CompareTo(m);
    if c >= 0 {
      x.SubTo(m, x);
    }
  }

  /** montReduce: x becomes x / DV^t mod m. */
  method MontReduce(x: BigInteger, m: BigInteger, mp: int)
    requires x != m && x.Canonical() && m.Canonical() && m.t > 0 && 0 < m.Value()
    requires 0 <= mp < DV && Cong(m.d[0] * mp, -1, DV)
    requires 0 <= x.Value() < m.Value() * P(m.t)
    modifies x
    ensures x.Canonical() && 0 <= x.Value() < m.Value()
    ensures Cong(x.Value() * P(m.t), old(x.Value()), m.Value())
  {
    NumSign(m.d, m.t, m.s);
    ghost var X0 := x.Value();
    ghost var U := MontRows(x, m, mp);
    MontFinish(x, m, X0, U);
  }

  /** Pads x with zero limbs up to t limbs, room for the carries. */
  method MontPad(x: BigInteger, t: nat, n: nat, ghost M: int)
    requires x.Canonical() && t == 2 * n && 0 < M < P(n) && 0 <= x.Value() < M * P(n)
    modifies x
    ensures x.t == t + 1 && x.s == 0 && MontState(x.d, 0, n, M, old(x.Value()), 0)
  {
    NumSign(x.d, x.t, x.s);
    MulLt(M, P(n), P(n));
    PAdd(n, n);
    if x.t > t {
      ClampedSize(x.d, x.t, x.s);
      PMono(t, x.t - 1);
    }
    assert P(0) == 1;
    while x.t <= t
      invariant x.Valid() && x.s == 0 && x.t <= t + 1 && x.Value() == old(x.Value())
    {
      ghost var D := x.d;
      x.d := Put(x.d, x.t, 0);
      x.t := x.t + 1;
      SegFrame(x.d, D, 0, x.t - 1);
    }
  }

  /** With all low limbs cleared the division by DV^n is exact, and leaves less than twice the modulus. */
  lemma MontQuotient(x: seq<int>, n: nat, M: int, X0: int, U: int)
    requires MontState(x, n, n, M, X0, U) && 0 < M && 0 <= X0 < M * P(n)
    ensures var v := Seg(x, 0, 2 * n + 1) / P(n);
            v * P(n) == X0 + M * U && 0 <= v < 2 * M
  {
    SegSplit(x, 0, n, 2 * n + 1);
    SegZero(x, 0, n);
    var p, w := P(n), Seg(x, n, 2 * n + 1);
    Comm(p, w);
    SegBound(x, n, 2 * n + 1);
    DivUnique(p * w, p, w, 0);
    MulMono(M, U, p);
    MulMono(M, 0, U);
    if w >= 2 * M {
      MulLe(2 * M, w, p);
      MulAssoc(2, M, p);
    }
  }

  lemma MontCong(v: int, M: int, p: int, X0: int, U: int)
    requires M > 0 && v * p == X0 + M * U
    ensures Cong(v * p, X0, M) && Cong((v - M) * p, X0, M)
  {
    Comm(M, U);
    CongIntro(v * p, X0, M, U);
    assert (v - M) * p == v * p - p * M;
    SumProduct(U, -p, M);
    NegProduct(p, M);
    CongIntro((v - M) * p, X0, M, U - p);
  }
}
