/** Conversion between limbs and strings of digits in a power-of-two radix, or bytes. */
module RadixConversion {
  import opened JsNumber
  import opened Limbs
  import opened Modular
  import opened BigIntegers
  import opened Shifts
  import opened Bits
  import opened Multiply

  // The exponents of the radices that are handled by regrouping bits.
  predicate DigitSize(k: nat) {
    1 <= k <= 5 || k == 8
  }

  predicate AllBelow(ds: seq<int>, b: int) {
    forall j :: 0 <= j < |ds| ==> 0 <= ds[j] < b
  }

  /** The weight of the digit with n digits below it: 2^k to the n. */
  function Place(k: nat, n: nat): (p: int)
    ensures p >= 1
  {
    if n == 0 then 1 else Place(k, n - 1) * Pow2(k)
  }

  /** What a list of digits denotes, the most significant first. */
  function DigitsValue(ds: seq<int>, k: nat): int {
    if |ds| == 0 then 0 else ds[0] * Place(k, |ds| - 1) + DigitsValue(ds[1..], k)
  }

  lemma {:induction false} DigitsAppend(ds: seq<int>, x: int, k: nat)
    ensures DigitsValue(ds + [x], k) == DigitsValue(ds, k) * Pow2(k) + x
  {
    var e := ds + [x];
    if |ds| == 0 {
      assert e[1..] == [];
      assert Place(k, 0) == 1;
      assert DigitsValue(e, k) == x * 1 + DigitsValue([], k);
    } else {
      assert e[1..] == ds[1..] + [x];
      DigitsAppend(ds[1..], x, k);
      AppendAlgebra(ds[0], Place(k, |ds| - 1), Pow2(k), DigitsValue(ds[1..], k), x);
    }
  }

  lemma AppendAlgebra(y: int, p: int, q: int, v: int, x: int)
    ensures y * (p * q) + (v * q + x) == (y * p + v) * q + x
  {
    MulAssoc(y, p, q);
    SumProduct(y * p, v, q);
  }

  lemma {:induction false} DigitsBound(ds: seq<int>, k: nat)
    requires AllBelow(ds, Pow2(k))
    ensures 0 <= DigitsValue(ds, k) < Place(k, |ds|)
  {
    if |ds| == 0 {
    } else {
      DigitsBound(ds[1..], k);
      var p := Place(k, |ds| - 1);
      MulLe(ds[0], Pow2(k) - 1, p);
      MulLe(0, ds[0], p);
      MinusOne(Pow2(k), p);
      Comm(p, Pow2(k));
      assert Place(k, |ds|) == p * Pow2(k);
    }
  }

  /** The digits of v without leading zeros. */
  function DigitsOf(v: nat, k: nat): seq<int>
    requires k >= 1
    decreases v
  {
    if v == 0 then [] else
    Shrinks(v, k);
    DigitsOf(v / Pow2(k), k) + [v % Pow2(k)]
  }

  lemma Shrinks(v: nat, k: nat)
    requires v > 0 && k >= 1
    ensures 0 <= v / Pow2(k) < v
  {
    Pow2Mono(1, k);
    assert Pow2(1) == 2;
    DivBounds(v, Pow2(k), 0);
    DivBounds(v, Pow2(k), v - 1);
    MulMono(v, 2, Pow2(k));
    SumProduct(v - 1, 1, Pow2(k));
  }

  /** Reading the digits of v gives v back. */
  lemma {:induction false} DigitsRoundTrip(v: nat, k: nat)
    requires k >= 1
    ensures DigitsValue(DigitsOf(v, k), k) == v
    ensures AllBelow(DigitsOf(v, k), Pow2(k))
    decreases v
  {
    if v > 0 {
      Shrinks(v, k);
      DigitsRoundTrip(v / Pow2(k), k);
      var q, d := v / Pow2(k), v % Pow2(k);
      DigitsAppend(DigitsOf(q, k), d, k);
      QuotientDigit(v, Pow2(k));
    }
  }

  lemma QuotientDigit(v: int, p: int)
    requires p > 0
    ensures v == v / p * p + v % p && 0 <= v % p < p
  {
  }

  /** The digits of v, d being its last one. */
  lemma DigitsNext(v: nat, q: nat, d: nat, k: nat)
    requires k >= 1 && d < Pow2(k) && v == q * Pow2(k) + d
    ensures DigitsOf(v, k) == if v == 0 then [] else DigitsOf(q, k) + [d]
    ensures v == 0 ==> q == 0 && d == 0
  {
    MulLe(0, q, Pow2(k));
    if q > 0 {
      MulLe(1, q, Pow2(k));
    }
    DivUnique(v, Pow2(k), q, d);
  }

  // BI_RM, BI_RC, int2char, intAt
  const DIGITS := "0123456789abcdefghijklmnopqrstuvwxyz"

  function IntToChar(n: nat): char
    requires n < 36
  {
    DIGITS[n]
  }

  /** The digits in order: ten figures, and then the small letters. */
  lemma DigitCharacters(n: nat)
    requires n < 36
    ensures IntToChar(n) == if n < 10 then ('0' as int + n) as char else ('a' as int + n - 10) as char
  {
  }

  function CharToInt(c: char): (n: int)
    ensures -1 <= n < 36
  {
    if '0' <= c <= '9' then c as int - 48
    else if 'a' <= c <= 'z' then c as int - 87
    else if 'A' <= c <= 'Z' then c as int - 55
    else -1
  }

  lemma CharRoundTrip(n: nat)
    requires n < 36
    ensures CharToInt(IntToChar(n)) == n && IntToChar(n) != '-'
  {
  }

  /** (i, p): the next digit starts below bit p of limb i; B bits are left. */
  predicate At(i: int, p: int, t: nat, k: nat, B: nat) {
    -1 <= i < t && 1 <= p <= DB() && B == i * DB() + p && k > 0 && B % k == 0
  }

  lemma AtEnd(i: int, p: int, t: nat, k: nat, B: nat)
    requires k > 0 && At(i, p, t, k, B)
    ensures i >= 0 <==> B > 0
    ensures i >= 0 ==> B >= k
    ensures i == 0 ==> p >= k
  {
    if i >= 0 {
      MulLe(0, i, DB());
      Multiple(B, k);
    }
  }

  lemma Multiple(b: int, k: int)
    requires k > 0 && b > 0 && b % k == 0
    ensures b >= k
  {
  }

  lemma AtNext(i: int, p: int, t: nat, k: nat, B: nat)
    requires k > 0 && At(i, p, t, k, B) && B >= k && i >= 0 && k <= DB()
    ensures p > k ==> At(i, p - k, t, k, B - k)
    ensures p <= k ==> At(i - 1, p - k + DB(), t, k, B - k)
  {
    SumProduct(i - 1, 1, DB());
    MultipleLess(B, k);
  }

  lemma MultipleLess(b: int, k: int)
    requires k > 0 && b % k == 0
    ensures (b - k) % k == 0
  {
    var q := b / k;
    assert b == k * q;
    SumProduct(q, -1, k);
    DivUnique(b - k, k, q - 1, 0);
  }

  /** The digit below the cursor, and the cursor moved past it. */
  method ReadDigit(x: BigInteger, i0: int, p0: int, k: nat, ghost B: nat) returns (d: int, i: int, p: int)
    requires x.Valid() && DigitSize(k) && At(i0, p0, x.t, k, B) && i0 >= 0
    ensures B >= k && At(i, p, x.t, k, B - k)
    ensures 0 <= Seg(x.d, 0, x.t) && d == Above(Seg(x.d, 0, x.t), B - k) % Pow2(k)
  {
    AtEnd(i0, p0, x.t, k, B);
    AtNext(i0, p0, x.t, k, B);
    SegBound(x.d, 0, x.t);
    AboveScale(Seg(x.d, 0, x.t), k, B - k);
    i, p := i0, p0;
    if p < k {
      d := DigitAcross(x, i, p, k);
      p := p + (DB() - k);
      i := i - 1;
    } else {
      p := p - k;
      d := DigitInside(x, i, p, k);
      if p <= 0 {
        p := p + DB();
        i := i - 1;
      }
    }
  }

  lemma DigitPowers(k: nat)
    requires k <= 8
    ensures Pow2(k) <= 256 <= DV
  {
    Pow2Mono(k, 8);
    assert Pow2(8) == 256;
  }

  method DigitInside(x: BigInteger, i: nat, p: nat, k: nat) returns (d: int)
    requires x.Valid() && i < x.t && 1 <= k <= 8 && p + k <= DB()
    ensures 0 <= Seg(x.d, 0, x.t) && 0 <= Seg(x.d, 0, x.t) * Pow2(k)
    ensures d == Above(Seg(x.d, 0, x.t) * Pow2(k), i * DB() + p + k) % Pow2(k)
  {
    DigitPowers(k);
    WindowInside(x.d, x.t, i, p + k - 1, k);
    DivLess(x.d[i], Pow2(p));
    d := Mask(Shr(x.d[i], Pow2(p)), Pow2(k));
  }

  method DigitAcross(x: BigInteger, i: nat, p: nat, k: nat) returns (d: int)
    requires x.Valid() && 0 < i < x.t && 1 <= p < k <= 8
    ensures 0 <= Seg(x.d, 0, x.t) && 0 <= Seg(x.d, 0, x.t) * Pow2(k)
    ensures d == Above(Seg(x.d, 0, x.t) * Pow2(k), i * DB() + p) % Pow2(k)
  {
    DigitPowers(p);
    DigitPowers(k - p);
    WindowAcross(x.d, x.t, i, p - 1, k);
    var high := Mask(x.d[i], Pow2(p));
    WindowHigh(high, p, k - p);
    d := Shl(high, Pow2(k - p));
    var low := Shr(x.d[i - 1], Pow2(DB() + p - k));
    OrDisjoint(high, low, k - p);
    d := Or(d, low);
  }

  /** The first, incomplete digit. */
  lemma TopDigit(x: seq<int>, t: nat, p: int, k: nat, B: nat)
    requires t > 0 && t <= |x| && InRange(x, 0, t) && DigitSize(k)
    requires 0 < p <= DB() && p > DB() - k && At(t - 1, p, t, k, B)
    ensures 0 <= Seg(x, 0, t) && Above(Seg(x, 0, t), B) == x[t - 1] / Pow2(p)
    ensures 0 <= x[t - 1] / Pow2(p) < Pow2(DB() - p) <= Pow2(k)
  {
    AboveLimb(x, t, t - 1);
    SegOne(x, t - 1);
    AboveAbove(Seg(x, 0, t), (t - 1) * DB(), p);
    CutRadix(p);
    CutLimbLow(x[t - 1], Pow2(p), Pow2(DB() - p));
    Pow2Mono(DB() - p, k);
  }

  lemma StartPosition(t: nat, k: nat)
    requires t > 0 && DigitSize(k)
    ensures 0 <= t * DB() && At(t - 1, DB() - t * DB() % k, t, k, t * DB() - t * DB() % k)
    ensures DB() - k < DB() - t * DB() % k
  {
    MulLe(0, t, DB());
    SumProduct(t - 1, 1, DB());
    Truncated(t * DB(), k);
  }

  lemma Truncated(n: nat, k: nat)
    requires k > 0
    ensures n - n % k >= 0 && (n - n % k) % k == 0
  {
    var q := n / k;
    assert n == k * q + n % k;
    MulMono(k, 0, q);
    Comm(k, q);
    DivUnique(n - n % k, k, q, 0);
  }

  function Chars(ds: seq<int>): (r: string)
    requires AllBelow(ds, 36)
    ensures |r| == |ds| && forall j :: 0 <= j < |ds| ==> r[j] == IntToChar(ds[j])
  {
    seq(|ds|, j requires 0 <= j < |ds| => IntToChar(ds[j]))
  }

  // What toString means: a sign and the digits, but "0" for zero.
  function Printed(v: int, k: nat): string
    requires 1 <= k <= 5
  {
    DigitsRoundTrip(AbsInt(v), k);
    Radix36(k);
    (if v < 0 then "-" else "") + (if v == 0 then "0" else Chars(DigitsOf(AbsInt(v), k)))
  }

  lemma Radix36(k: nat)
    requires k <= 5
    ensures Pow2(k) <= 32
  {
    Pow2Mono(k, 5);
    assert Pow2(5) == 32;
  }

  /** toString in radix 2^k */
  method ToString(x: BigInteger, k: nat) returns (r: string)
    requires x.Canonical() && (k == 1 || k == 2 || k == 3 || k == 4 || k == 5)
    ensures r == Printed(x.Value(), k)
  {
    NumSign(x.d, x.t, x.s);
    if x.s < 0 {
      var n := Negate(x);
      NumSign(n.d, n.t, n.s);
      var rest := ToStringNat(n, k);
      return "-" + rest;
    }
    r := ToStringNat(x, k);
  }

  /** The digits of v printed so far. */
  ghost predicate PrintedSoFar(r: string, v: nat, k: nat)
    requires 1 <= k <= 5
  {
    DigitsRoundTrip(v, k);
    Radix36(k);
    r == Chars(DigitsOf(v, k))
  }

  lemma PrintNext(r: string, v: nat, q: nat, d: nat, k: nat)
    requires 1 <= k <= 5 && d < Pow2(k) && v == q * Pow2(k) + d && PrintedSoFar(r, q, k)
    ensures d < 36 && PrintedSoFar(if v == 0 then r else r + [IntToChar(d)], v, k)
    ensures v == 0 <==> q == 0 && d == 0
  {
    DigitsNext(v, q, d, k);
    DigitsRoundTrip(v, k);
    DigitsRoundTrip(q, k);
    Radix36(k);
    if v != 0 {
      assert Chars(DigitsOf(v, k)) == r + [IntToChar(d)];
    }
  }

  /** The bits above the last whole digit boundary. */
  method PrintTop(x: BigInteger, k: nat) returns (r: string, m: bool, p: int, ghost B: nat)
    requires x.Valid() && x.t > 0 && 1 <= k <= 5
    ensures At(x.t - 1, p, x.t, k, B) && 0 <= Seg(x.d, 0, x.t)
    ensures PrintedSoFar(r, Above(Seg(x.d, 0, x.t), B), k) && (m <==> Above(Seg(x.d, 0, x.t), B) > 0)
  {
    var i := x.t;
    r, m := "", false;
    StartPosition(x.t, k);
    p := DB() - i * DB() % k;
    B := i * DB() - i * DB() % k;
    i := i - 1;
    TopDigit(x.d, x.t, p, k, B);
    PrintNext("", x.d[i] / Pow2(p), 0, x.d[i] / Pow2(p), k);
    if p < DB() {
      DivLess(x.d[i], Pow2(p));
      var d := Shr(x.d[i], Pow2(p));
      if d > 0 {
        m := true;
        r := [IntToChar(d)];
      }
    } else {
      assert Pow2(0) == 1;
    }
  }

  method ToStringNat(x: BigInteger, k: nat) returns (r: string)
    requires x.Canonical() && x.s == 0 && 1 <= k <= 5
    ensures x.Value() >= 0 && r == Printed(x.Value(), k)
  {
    NumSign(x.d, x.t, x.s);
    ghost var V: nat := Seg(x.d, 0, x.t);
    var m := false;
    r := "";
    assert P(0) == 1;
    if x.t > 0 {
      var p: int;
      ghost var B: nat;
      r, m, p, B := PrintTop(x, k);
      r, m := PrintRest(x, k, r, m, p, B);
    }
    if !m {
      r := "0";
    }
  }

  method PrintRest(x: BigInteger, k: nat, r0: string, m0: bool, p0: int, ghost B0: nat) returns (r: string, m: bool)
    requires x.Valid() && At(x.t - 1, p0, x.t, k, B0) && 1 <= k <= 5
    requires 0 <= Seg(x.d, 0, x.t)
    requires PrintedSoFar(r0, Above(Seg(x.d, 0, x.t), B0), k) && (m0 <==> Above(Seg(x.d, 0, x.t), B0) > 0)
    ensures PrintedSoFar(r, Seg(x.d, 0, x.t), k) && (m <==> Seg(x.d, 0, x.t) > 0)
  {
    var i, p := x.t - 1, p0;
    ghost var B := B0;
    r, m := r0, m0;
    while i >= 0
      invariant At(i, p, x.t, k, B)
      invariant PrintedSoFar(r, Above(Seg(x.d, 0, x.t), B), k) && (m <==> Above(Seg(x.d, 0, x.t), B) > 0)
      decreases B
    {
      r, m, i, p, B := PrintDigit(x, i, p, k, r, m, B);
    }
    AtEnd(i, p, x.t, k, B);
    AboveZero(Seg(x.d, 0, x.t));
  }

  method PrintDigit(x: BigInteger, i0: int, p0: int, k: nat, r0: string, m0: bool, ghost B0: nat)
    returns (r: string, m: bool, i: int, p: int, ghost B: nat)
    requires x.Valid() && At(i0, p0, x.t, k, B0) && i0 >= 0 && 1 <= k <= 5
    requires 0 <= Seg(x.d, 0, x.t)
    requires PrintedSoFar(r0, Above(Seg(x.d, 0, x.t), B0), k) && (m0 <==> Above(Seg(x.d, 0, x.t), B0) > 0)
    ensures B < B0 && At(i, p, x.t, k, B)
    ensures PrintedSoFar(r, Above(Seg(x.d, 0, x.t), B), k) && (m <==> Above(Seg(x.d, 0, x.t), B) > 0)
  {
    ghost var V := Seg(x.d, 0, x.t);
    var d: int;
    r, m := r0, m0;
    d, i, p := ReadDigit(x, i0, p0, k, B0);
    B := B0 - k;
    AboveDigit(V, B, k, d);
    PrintNext(r0, Above(V, B), Above(V, B0), d, k);
    if d > 0 {
      m := true;
    }
    if m {
      r := r + [IntToChar(d)];
    }
  }

  lemma AboveDigit(v: nat, b: nat, k: nat, d: int)
    requires d == Above(v, b) % Pow2(k)
    ensures 0 <= d < Pow2(k) && Above(v, b) == Above(v, b + k) * Pow2(k) + d
  {
    AboveAbove(v, b, k);
    QuotientDigit(Above(v, b), Pow2(k));
  }

  /** Limbs filled from the bottom: sh bits of the top one are in use, or all of it when sh is 0;
      w is the weight of the next digit. */
  ghost predicate Packed(d: seq<int>, t: nat, sh: int, w: int, v: int) {
    && t <= |d| && InRange(d, 0, t) && 0 <= sh < DB() && v == Seg(d, 0, t)
    && (sh > 0 ==> t > 0 && d[t - 1] < Pow2(sh))
    && w == if sh == 0 then P(t) else P(t - 1) * Pow2(sh)
  }

  lemma PackNew(d: seq<int>, e: seq<int>, t: nat, w: int, v: int, x: int, k: nat)
    requires Packed(d, t, 0, w, v) && DigitSize(k) && 0 <= x < Pow2(k)
    requires t < |e| && e[t] == x && forall j :: 0 <= j < t ==> e[j] == d[j]
    ensures Packed(e, t + 1, k, w * Pow2(k), v + x * w)
  {
    SegFrame(d, e, 0, t);
    DigitPowers(k);
  }

  lemma PackTop(d: seq<int>, e: seq<int>, t: nat, sh: nat, w: int, v: int, x: int, k: nat)
    requires Packed(d, t, sh, w, v) && sh > 0 && 0 <= x < Pow2(k) && k > 0
    requires t <= |e| && e[t - 1] == d[t - 1] + x * Pow2(sh) && forall j :: 0 <= j < t - 1 ==> e[j] == d[j]
    requires 0 <= x * Pow2(sh) && 0 <= e[t - 1] < Pow2(sh + k) <= DV
    ensures sh + k < DB() ==> Packed(e, t, sh + k, w * Pow2(k), v + x * w)
    ensures sh + k == DB() ==> Packed(e, t, 0, w * Pow2(k), v + x * w)
  {
    SegFrame(d, e, 0, t - 1);
    var p, q := P(t - 1), Pow2(sh);
    SumProduct(d[t - 1], x * q, p);
    MulRotate(x, q, p);
    Pow2Add(sh, k);
    MulAssoc(p, q, Pow2(k));
    RadixIsPow2();
    Comm(p, DV);
  }

  lemma PackAcross(d: seq<int>, e: seq<int>, t: nat, sh: nat, w: int, v: int, x: int, k: nat)
    requires Packed(d, t, sh, w, v) && sh > 0 && sh + k > DB() && DigitSize(k) && 0 <= x < Pow2(k)
    requires t < |e| && forall j :: 0 <= j < t - 1 ==> e[j] == d[j]
    requires e[t - 1] == d[t - 1] + x % Pow2(DB() - sh) * Pow2(sh) && 0 <= e[t - 1] < DV
    requires e[t] == x / Pow2(DB() - sh)
    ensures Packed(e, t + 1, sh + k - DB(), w * Pow2(k), v + x * w)
  {
    SegFrame(d, e, 0, t - 1);
    var p, q, a, c := P(t - 1), Pow2(sh), Pow2(DB() - sh), Pow2(sh + k - DB());
    CutRadix(sh);
    Pow2Add(DB() - sh, sh + k - DB());
    HighPart(x, a, c);
    var l, h := x % a, x / a;
    SumProduct(d[t - 1], l * q, p);
    AcrossAlgebra(x, l, h, a, q, p);
    WeightAlgebra(p, q, a, c);
    DigitPowers(k);
    Pow2Mono(sh + k - DB(), k);
  }

  lemma HighPart(x: int, a: int, c: int)
    requires a > 0 && 0 <= x < a * c
    ensures x == x / a * a + x % a && 0 <= x % a < a && 0 <= x / a < c
  {
    DivBounds(x, a, 0);
    Comm(a, c);
    SumProduct(c - 1, 1, a);
    DivBounds(x, a, c - 1);
  }

  lemma AcrossAlgebra(x: int, l: int, h: int, a: int, q: int, p: int)
    requires x == h * a + l && q * a == DV
    ensures l * q * p + h * (DV * p) == x * (p * q)
  {
    MulRotate(l, q, p);
    SumProduct(h * a, l, p * q);
    assert h * a * (p * q) == h * ((q * a) * p);
  }

  lemma WeightAlgebra(p: int, q: int, a: int, c: int)
    requires q * a == DV
    ensures p * q * (a * c) == DV * p * c
  {
    assert p * q * (a * c) == (q * a) * p * c;
  }

  lemma ShiftInBound(y: int, x: int, q: int, m: int)
    requires 0 <= y < q && 0 <= x < m
    ensures 0 <= x * q && y + x * q < m * q
  {
    MulLe(0, x, q);
    MulLe(x, m - 1, q);
    SumProduct(m, -1, q);
  }

  lemma ShiftIn(y: int, x: int, sh: nat, k: nat)
    requires 0 <= y < Pow2(sh) && 0 <= x < Pow2(k) && sh + k <= DB()
    ensures 0 <= x * Pow2(sh) && y + x * Pow2(sh) < Pow2(sh + k) <= DV
    ensures Or(y, x * Pow2(sh)) == y + x * Pow2(sh)
  {
    ShiftInBound(y, x, Pow2(sh), Pow2(k));
    Pow2Add(k, sh);
    OrDisjoint(x, y, sh);
    RadixIsPow2();
    Pow2Mono(sh + k, DB());
  }

  /** A digit that fills up the top limb and starts the next one. */
  method AppendAcross(r: BigInteger, x: int, sh: int, k: nat, ghost w: int, ghost v: int)
    requires DigitSize(k) && 0 <= x < Pow2(k) && Packed(r.d, r.t, sh, w, v) && sh > 0 && sh + k > DB()
    modifies r
    ensures r.s == old(r.s) && Packed(r.d, r.t, sh + k - DB(), w * Pow2(k), v + x * w)
  {
    hide Pow2, Or, Seg, P;
    ghost var D, T := r.d, r.t;
    var a := Pow2(DB() - sh);
    DigitPowers(k);
    Pow2Mono(DB() - sh, k);
    CutRadix(sh);
    DivLess(x, a);
    ShiftIn(D[T - 1], x % a, sh, DB() - sh);
    r.d := Put(r.d, r.t - 1, Or(r.d[r.t - 1], Shl(Mask(x, a), Pow2(sh))));
    r.d := Put(r.d, r.t, Shr(x, a));
    r.t := r.t + 1;
    PackAcross(D, r.d, T, sh, w, v, x, k);
  }

  /** One digit of fromString: below it are digits of total weight w. */
  method AppendDigit(r: BigInteger, x: int, sh0: int, k: nat, ghost w: int, ghost v: int) returns (sh: int)
    requires DigitSize(k) && 0 <= x < Pow2(k) && Packed(r.d, r.t, sh0, w, v)
    modifies r
    ensures r.s == old(r.s) && Packed(r.d, r.t, sh, w * Pow2(k), v + x * w)
  {
    hide Pow2, Or, Seg, P;
    ghost var D, T := r.d, r.t;
    DigitPowers(k);
    if sh0 == 0 {
      r.d := Put(r.d, r.t, x);
      r.t := r.t + 1;
      PackNew(D, r.d, T, w, v, x, k);
    } else if sh0 + k > DB() {
      AppendAcross(r, x, sh0, k, w, v);
    } else {
      ShiftIn(r.d[r.t - 1], x, sh0, k);
      r.d := Put(r.d, r.t - 1, Or(r.d[r.t - 1], Shl(x, Pow2(sh0))));
      PackTop(D, r.d, T, sh0, w, v, x, k);
    }
    sh := sh0 + k;
    if sh >= DB() {
      sh := sh - DB();
    }
  }

  // The digits in a string; every other character is skipped.
  function DigitsIn(s: string): seq<int> {
    if |s| == 0 then []
    else if CharToInt(s[0]) < 0 then DigitsIn(s[1..])
    else [CharToInt(s[0])] + DigitsIn(s[1..])
  }

  // A minus sign counts when no digit stands before it.
  predicate Negative(s: string) {
    |s| > 0 && CharToInt(s[0]) < 0 && (s[0] == '-' || Negative(s[1..]))
  }

  // What fromString makes of a string.
  function Parsed(s: string, k: nat): int {
    if Negative(s) then -DigitsValue(DigitsIn(s), k) else DigitsValue(DigitsIn(s), k)
  }

  predicate Digital(s: string, b: int) {
    forall j :: 0 <= j < |s| ==> CharToInt(s[j]) < b
  }

  /** fromString in radix 2^k, for strings without digits too large for the radix */
  method FromString(r: BigInteger, s: string, k: nat)
    requires 1 <= k <= 5 && Digital(s, Pow2(k))
    modifies r
    ensures r.Canonical() && r.Value() == Parsed(s, k)
  {
    var mi := ParseDigits(r, s, k);
    r.Clamp();
    if mi {
      NegateInPlace(r);
    }
  }

  method ParseDigits(r: BigInteger, s: string, k: nat) returns (mi: bool)
    requires 1 <= k <= 5 && Digital(s, Pow2(k))
    modifies r
    ensures r.Valid() && r.s == 0 && r.Value() == DigitsValue(DigitsIn(s), k) && mi == Negative(s)
  {
    r.t := 0;
    r.s := 0;
    mi := false;
    var i, sh := |s| - 1, 0;
    assert s[|s|..] == "";
    while i >= 0
      invariant -1 <= i < |s| && r.s == 0 && mi == Negative(s[i + 1..])
      invariant Packed(r.d, r.t, sh, Place(k, |DigitsIn(s[i + 1..])|), DigitsValue(DigitsIn(s[i + 1..]), k))
    {
      assert s[i..][1..] == s[i + 1..];
      var x := CharToInt(s[i]);
      if x < 0 {
        if s[i] == '-' {
          mi := true;
        }
      } else {
        mi := false;
        ghost var rest := DigitsIn(s[i + 1..]);
        assert DigitsIn(s[i..]) == [x] + rest;
        DigitsPrepend(x, rest, k);
        sh := AppendDigit(r, x, sh, k, Place(k, |rest|), DigitsValue(rest, k));
      }
      i := i - 1;
    }
    assert s[0..] == s;
  }

  lemma DigitsPrepend(x: int, ds: seq<int>, k: nat)
    ensures DigitsValue([x] + ds, k) == DigitsValue(ds, k) + x * Place(k, |ds|)
    ensures |[x] + ds| == |ds| + 1 && Place(k, |ds| + 1) == Place(k, |ds|) * Pow2(k)
  {
    assert ([x] + ds)[1..] == ds;
  }

  lemma {:induction false} DigitsOfChars(ds: seq<int>)
    requires AllBelow(ds, 36)
    ensures DigitsIn(Chars(ds)) == ds && !Negative(Chars(ds))
  {
    if |ds| > 0 {
      DigitsOfChars(ds[1..]);
      assert Chars(ds)[1..] == Chars(ds[1..]);
      CharRoundTrip(ds[0]);
    }
  }

  /** fromString undoes toString, for every number and every radix 2^k. */
  lemma StringRoundTrip(v: int, k: nat)
    requires 1 <= k <= 5
    ensures Digital(Printed(v, k), Pow2(k)) && Parsed(Printed(v, k), k) == v
  {
    var ds := DigitsOf(AbsInt(v), k);
    DigitsRoundTrip(AbsInt(v), k);
    Radix36(k);
    DigitsOfChars(ds);
    DigitalChars(ds, Pow2(k));
    var body := if v == 0 then "0" else Chars(ds);
    if v == 0 {
      assert body[1..] == "";
      assert DigitsIn(body) == [0];
      DigitsPrepend(0, [], k);
      assert [0] + [] == [0];
    }
    if v < 0 {
      assert Printed(v, k)[1..] == body;
    } else {
      assert Printed(v, k) == body;
    }
  }

  lemma DigitalChars(ds: seq<int>, b: int)
    requires AllBelow(ds, 36) && AllBelow(ds, b)
    ensures Digital(Chars(ds), b)
  {
    forall j | 0 <= j < |ds|
      ensures CharToInt(Chars(ds)[j]) < b
    {
      CharRoundTrip(ds[j]);
    }
  }

  // Byte arrays hold numbers whose low eight bits count.
  function LowBytes(bs: seq<int>): (r: seq<int>)
    ensures |r| == |bs| && forall j :: 0 <= j < |bs| ==> r[j] == bs[j] % 256
    ensures AllBelow(r, 256)
  {
    seq(|bs|, j requires 0 <= j < |bs| => bs[j] % 256)
  }

  /** A byte array in two's complement, the most significant byte first. */
  function BytesValue(bs: seq<int>): int {
    DigitsValue(LowBytes(bs), 8) - (if |bs| > 0 && bs[0] % 256 >= 128 then Place(8, |bs|) else 0)
  }

  lemma BytesAppend(bs: seq<int>, d: int)
    requires |bs| > 0
    ensures BytesValue(bs + [d]) == BytesValue(bs) * 256 + d % 256
  {
    assert LowBytes(bs + [d]) == LowBytes(bs) + [d % 256];
    DigitsAppend(LowBytes(bs), d % 256, 8);
    assert Pow2(8) == 256;
  }

  lemma BytesOne(d: int)
    requires -128 <= d < 128
    ensures BytesValue([d]) == d
  {
    assert Place(8, 0) == 1;
    assert Place(8, 1) == Place(8, 0) * Pow2(8);
    assert Pow2(8) == 256;
    assert LowBytes([d]) == [d % 256];
    assert [d % 256][1..] == [];
    DigitsPrepend(d % 256, [], 8);
    assert [d % 256] + [] == [d % 256];
    if d < 0 {
      DivUnique(d, 256, -1, d + 256);
    }
  }

  /** fromString with radix 256: a byte array, with sign */
  method FromBytes(r: BigInteger, s: seq<int>)
    modifies r
    ensures r.Canonical() && r.Value() == BytesValue(s)
  {
    var sh := ParseBytes(r, s);
    if |s| > 0 && s[0] % 256 >= 128 {
      SignExtend(r, sh, Place(8, |s|), DigitsValue(LowBytes(s), 8));
    }
    r.Clamp();
  }

  /** The sign word, and the unused bits of the top limb. */
  method SignExtend(r: BigInteger, sh: int, ghost w: int, ghost v: int)
    requires Packed(r.d, r.t, sh, w, v)
    modifies r
    ensures r.Valid() && r.Value() == v - w
  {
    ghost var D := r.d;
    r.s := -1;
    SignFill(D, r.t, sh, w, v);
    if sh > 0 {
      var fill := Pow2(DB() - sh) - 1;
      r.d := Put(r.d, r.t - 1, Or(r.d[r.t - 1], Shl(fill, Pow2(sh))));
      SignFilled(D, r.d, r.t, sh, w, v);
    }
  }

  method ParseBytes(r: BigInteger, s: seq<int>) returns (sh: int)
    modifies r
    ensures r.s == 0 && Packed(r.d, r.t, sh, Place(8, |s|), DigitsValue(LowBytes(s), 8))
  {
    r.t := 0;
    r.s := 0;
    sh := 0;
    var i := |s| - 1;
    assert Pow2(8) == 256;
    while i >= 0
      invariant -1 <= i < |s| && r.s == 0
      invariant Packed(r.d, r.t, sh, Place(8, |s| - i - 1), DigitsValue(LowBytes(s)[i + 1..], 8))
    {
      var x := s[i] % 256;
      ghost var rest := LowBytes(s)[i + 1..];
      assert LowBytes(s)[i..] == [x] + rest;
      DigitsPrepend(x, rest, 8);
      sh := AppendDigit(r, x, sh, 8, Place(8, |rest|), DigitsValue(rest, 8));
      i := i - 1;
    }
    assert LowBytes(s)[0..] == LowBytes(s);
  }

  lemma SignFill(d: seq<int>, t: nat, sh: int, w: int, v: int)
    requires Packed(d, t, sh, w, v)
    ensures sh == 0 ==> Num(d, t, -1) == v - w
    ensures sh > 0 ==> 0 <= (Pow2(DB() - sh) - 1) * Pow2(sh) == DV - Pow2(sh)
    ensures sh > 0 ==> Or(d[t - 1], DV - Pow2(sh)) == d[t - 1] + DV - Pow2(sh) < DV
  {
    if sh > 0 {
      CutRadix(sh);
      MinusOne(Pow2(DB() - sh), Pow2(sh));
      OrDisjoint(Pow2(DB() - sh) - 1, d[t - 1], sh);
    }
  }

  lemma SignFilled(d: seq<int>, e: seq<int>, t: nat, sh: int, w: int, v: int)
    requires Packed(d, t, sh, w, v) && sh > 0
    requires t <= |e| && e[t - 1] == d[t - 1] + DV - Pow2(sh) < DV && forall j :: 0 <= j < t - 1 ==> e[j] == d[j]
    ensures Digits(e, t, -1) && Num(e, t, -1) == v - w
  {
    CutRadix(sh);
    SegFrame(d, e, 0, t - 1);
    var p, q := P(t - 1), Pow2(sh);
    SumProduct(d[t - 1], DV - q, p);
    SumProduct(DV, -q, p);
    NegProduct(q, p);
    Comm(p, q);
  }

  /** The byte read below bit B, for numbers of either sign. */
  lemma SignedDigit(d: seq<int>, t: nat, s: int, B: nat, x: int)
    requires Digits(d, t, s) && 0 <= Seg(d, 0, t) && B + 8 <= t * DB() && x == Above(Seg(d, 0, t), B) % 256
    ensures Num(d, t, s) / Pow2(B) == Num(d, t, s) / Pow2(B + 8) * 256 + x
  {
    FloorSigned(d, t, s, B);
    FloorSigned(d, t, s, B + 8);
    AboveDigit(Seg(d, 0, t), B, 8, x);
    assert Pow2(8) == 256;
    Pow2Add(t * DB() - B - 8, 8);
    if s < 0 {
      SumProduct(Above(Seg(d, 0, t), B + 8), -Pow2(t * DB() - B - 8), 256);
      NegProduct(Pow2(t * DB() - B - 8), 256);
    }
  }

  lemma FloorSigned(d: seq<int>, t: nat, s: int, B: nat)
    requires Digits(d, t, s) && 0 <= Seg(d, 0, t) && B <= t * DB()
    ensures Num(d, t, s) / Pow2(B) == Above(Seg(d, 0, t), B) - (if s < 0 then Pow2(t * DB() - B) else 0)
  {
    var x, p, q := Seg(d, 0, t), Pow2(B), Pow2(t * DB() - B);
    PIsPow2(t);
    Pow2Add(B, t * DB() - B);
    QuotientDigit(x, p);
    if s < 0 {
      SumProduct(x / p, -q, p);
      NegProduct(q, p);
      Comm(q, p);
      DivUnique(x - P(t), p, x / p - q, x % p);
    }
  }

  /** (B a multiple of 8 below the top) the number above bit B. */
  lemma TopByte(d: seq<int>, t: nat, s: int, p: int, B: nat)
    requires Digits(d, t, s) && t > 0 && p > DB() - 8 && At(t - 1, p, t, 8, B)
    ensures 0 <= Seg(d, 0, t) && 0 <= d[t - 1] / Pow2(p) < Pow2(DB() - p) <= 128
    ensures Num(d, t, s) / Pow2(B) == d[t - 1] / Pow2(p) - (if s < 0 then Pow2(DB() - p) else 0)
  {
    SegBound(d, 0, t);
    TopDigit(d, t, p, 8, B);
    TopGap(t, p, B);
    FloorSigned(d, t, s, B);
    Pow2Mono(DB() - p, 7);
    assert Pow2(7) == 128;
  }

  lemma TopGap(t: nat, p: int, B: nat)
    requires t > 0 && At(t - 1, p, t, 8, B)
    ensures B <= t * DB() && t * DB() - B == DB() - p
  {
    SumProduct(t - 1, 1, DB());
  }

  // d | -m, for 0 <= d < m, when s is -1
  function SignOnto(d: int, s: int, m: int): int
    requires 0 <= d < m && (s == 0 || s == -1)
  {
    if s < 0 then d - m else d
  }

  /** toByteArray */
  method ToByteArray(x: BigInteger) returns (r: seq<int>)
    requires x.Canonical()
    ensures BytesValue(r) == x.Value()
    ensures forall j :: 0 <= j < |r| ==> -128 <= r[j] < 128
  {
    r := [x.s];
    BytesOne(x.s);
    assert P(0) == 1;
    if x.t > 0 {
      r := BytesOf(x);
    }
  }

  /** The bytes written so far are the number above bit B; k counts them, and is 0 while r holds only
      the sign. */
  ghost predicate BytesSoFar(r: seq<int>, k: nat, s: int, v: int) {
    && |r| == (if k == 0 then 1 else k) && (k == 0 ==> r == [s]) && BytesValue(r) == v
    && forall j :: 0 <= j < |r| ==> -128 <= r[j] < 128
  }

  method BytesOf(x: BigInteger) returns (r: seq<int>)
    requires x.Canonical() && x.t > 0
    ensures BytesValue(r) == x.Value()
    ensures forall j :: 0 <= j < |r| ==> -128 <= r[j] < 128
  {
    var k, p;
    ghost var B: nat;
    r, k, p, B := FirstByte(x);
    var i := x.t - 1;
    while i >= 0
      invariant At(i, p, x.t, 8, B)
      invariant BytesSoFar(r, k, x.s, x.Value() / Pow2(B))
      decreases B
    {
      r, k, i, p, B := NextByte(x, i, p, r, k, B);
    }
    AtEnd(i, p, x.t, 8, B);
    assert Pow2(0) == 1;
  }

  method FirstByte(x: BigInteger) returns (r: seq<int>, k: nat, p: int, ghost B: nat)
    requires x.Canonical() && x.t > 0
    ensures At(x.t - 1, p, x.t, 8, B) && BytesSoFar(r, k, x.s, x.Value() / Pow2(B))
  {
    hide Num, Pow2, BytesSoFar, BytesValue, At, SignLimb, SignOnto;
    var i := x.t;
    r, k := [x.s], 0;
    StartPosition(x.t, 8);
    p := DB() - i * DB() % 8;
    B := i * DB() - i * DB() % 8;
    i := i - 1;
    TopByte(x.d, x.t, x.s, p, B);
    TopStored(x.d[i], x.s, p, x.Value() / Pow2(B));
    if p < DB() {
      var d := x.d[i] / Pow2(p);
      if d != SignLimb(x.s) / Pow2(p) {
        r := [SignOnto(d, x.s, Pow2(DB() - p))];
        k := 1;
      }
    }
  }

  /** The top byte is written unless it is the sign alone. */
  lemma TopStored(limb: int, s: int, p: nat, v: int)
    requires 0 < p <= DB() && (s == 0 || s == -1) && 0 <= limb < DV
    requires 0 <= limb / Pow2(p) < Pow2(DB() - p) <= 128
    requires v == limb / Pow2(p) - if s < 0 then Pow2(DB() - p) else 0
    ensures p == DB() || limb / Pow2(p) == SignLimb(s) / Pow2(p) ==> BytesSoFar([s], 0, s, v)
    ensures BytesSoFar([SignOnto(limb / Pow2(p), s, Pow2(DB() - p))], 1, s, v)
  {
    BytesOne(s);
    BytesOne(SignOnto(limb / Pow2(p), s, Pow2(DB() - p)));
    CutRadix(p);
    SignTop(s, Pow2(p), Pow2(DB() - p));
    assert Pow2(0) == 1;
  }

  lemma SignTop(s: int, p: int, q: int)
    requires (s == 0 || s == -1) && p > 0 && q > 0 && p * q == DV
    ensures SignLimb(s) / p == if s < 0 then q - 1 else 0
  {
    if s < 0 {
      Comm(p, q);
      SumProduct(q, -1, p);
      DivUnique(DV - 1, p, q - 1, p - 1);
    } else {
      DivUnique(0, p, 0, 0);
    }
  }

  // The byte as a signed number.
  function SignedByte(d: int): int {
    if d >= 128 then d - 256 else d
  }

  method NextByte(x: BigInteger, i0: int, p0: int, r0: seq<int>, k0: nat, ghost B0: nat)
    returns (r: seq<int>, k: nat, i: int, p: int, ghost B: nat)
    requires x.Canonical() && At(i0, p0, x.t, 8, B0) && i0 >= 0
    requires BytesSoFar(r0, k0, x.s, x.Value() / Pow2(B0))
    ensures B < B0 && At(i, p, x.t, 8, B) && BytesSoFar(r, k, x.s, x.Value() / Pow2(B))
  {
    var d: int;
    d, i, p := ReadDigit(x, i0, p0, 8, B0);
    B := B0 - 8;
    BelowTop(i0, p0, x.t, B0);
    assert Pow2(8) == 256;
    SignedDigit(x.d, x.t, x.s, B, d);
    r, k := PutByte(r0, k0, x.s, d, x.Value() / Pow2(B0));
  }

  lemma BelowTop(i: int, p: int, t: nat, B: nat)
    requires At(i, p, t, 8, B)
    ensures B <= t * DB()
  {
    MulLe(i + 1, t, DB());
    SumProduct(i, 1, DB());
  }

  method PutByte(r0: seq<int>, k0: nat, s: int, d0: int, ghost v: int) returns (r: seq<int>, k: nat)
    requires BytesSoFar(r0, k0, s, v) && 0 <= d0 < 256 && (s == 0 || s == -1)
    ensures BytesSoFar(r, k, s, v * 256 + d0)
  {
    BytesAppend(r0, SignedByte(d0));
    r, k := r0, k0;
    var d := SignedByte(d0);
    BytesOne(d);
    BytesOne(s);
    if k == 0 && (s < 0) != (d0 >= 128) {
      k := k + 1;
    }
    if k > 0 || d != s {
      r := if k == 0 then [d] else r + [d];
      k := k + 1;
    }
  }

  /** fromString(toByteArray(), 256) is the number itself. */
  method ByteRoundTrip(x: BigInteger) returns (r: BigInteger)
    requires x.Canonical()
    ensures fresh(r) && r.Canonical() && r.Value() == x.Value()
  {
    var bytes := ToByteArray(x);
    r := new BigInteger();
    FromBytes(r, bytes);
  }
}
