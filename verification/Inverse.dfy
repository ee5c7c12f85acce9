/** modInverse: the binary extended algorithm (HAC 14.61), which tracks only one coefficient when
    the modulus is odd. */
module Inverses {
  import opened JsNumber
  import opened Limbs
  import opened Modular
  import opened BigIntegers
  import opened Shifts
  import opened Multiply
  import opened Gcds

  /** One of the two rows of the algorithm: u = a * m + b * x, or modulo m when m is odd. */
  datatype Row = Row(u: int, a: int, b: int)

  ghost predicate RowOf(p: Row, x: int, m: int, ac: bool)
    requires m > 0
  {
    p.u >= 0 && if ac then p.a * m + p.b * x == p.u else Cong(p.b * x, p.u, m)
  }

  // The row for half of u, with the coefficients made even first.
  function HalfRow(p: Row, x: int, m: int, ac: bool): Row {
    if ac then
      if p.a % 2 != 0 || p.b % 2 != 0 then Row(p.u / 2, (p.a + x) / 2, (p.b - m) / 2)
      else Row(p.u / 2, p.a / 2, p.b / 2)
    else
      Row(p.u / 2, p.a, if p.b % 2 != 0 then (p.b - m) / 2 else p.b / 2)
  }

  function HalveRow(p: Row, x: int, m: int, ac: bool): Row
    requires p.u > 0
    decreases p.u
  {
    if p.u % 2 != 0 then p else HalveRow(HalfRow(p, x, m, ac), x, m, ac)
  }

  function Minus(p: Row, q: Row, ac: bool): Row {
    Row(p.u - q.u, if ac then p.a - q.a else p.a, p.b - q.b)
  }

  lemma HalveSize(p: Row, x: int, m: int, ac: bool)
    requires p.u > 0
    ensures 0 < HalveRow(p, x, m, ac).u <= p.u && HalveRow(p, x, m, ac).u % 2 == 1
    decreases p.u
  {
    if p.u % 2 == 0 {
      HalveSize(HalfRow(p, x, m, ac), x, m, ac);
    }
  }

  // The loop of the algorithm; the row left when the other has run down to zero.
  function Run(p: Row, q: Row, x: int, m: int, ac: bool): Row
    requires p.u >= 0 && q.u > 0
    decreases p.u + q.u
  {
    if p.u == 0 then q else
    HalveSize(p, x, m, ac);
    HalveSize(q, x, m, ac);
    var p', q' := HalveRow(p, x, m, ac), HalveRow(q, x, m, ac);
    if p'.u >= q'.u then Run(Minus(p', q', ac), q', x, m, ac) else Run(p', Minus(q', p', ac), x, m, ac)
  }

  // The corrections at the end.
  function Adjust(d: int, m: int): int {
    if d >= m then d - m
    else if d < 0 then (if d + m < 0 then d + m + m else d + m)
    else d
  }

  function Inverse(x: int, m: int): int
    requires x > 0 && m > 0
  {
    if x % 2 == 0 && m % 2 == 0 then 0 else
    var last := Run(Row(m, 1, 0), Row(x, 0, 1), x, m, m % 2 == 0);
    if last.u != 1 then 0 else Adjust(last.b, m)
  }

  lemma CongHalf(y: int, z: int, m: int)
    requires m > 0 && m % 2 == 1 && Cong(2 * y, 2 * z, m)
    ensures Cong(y, z, m)
  {
    var k := CongWitness(2 * y, 2 * z, m);
    ProductParity(k, m);
    Double(k / 2, m);
    assert k / 2 * (2 * m) == (k / 2 * 2) * m;
    CongIntro(y, z, m, k / 2);
  }

  lemma HalfKeepsOdd(p: Row, x: int, m: int)
    requires m > 0 && m % 2 == 1 && RowOf(p, x, m, false) && p.u > 0 && p.u % 2 == 0
    ensures RowOf(HalfRow(p, x, m, false), x, m, false)
  {
    var b := if p.b % 2 != 0 then p.b - m else p.b;
    if p.b % 2 != 0 {
      SumProduct(b, m, x);
      Comm(m, x);
      CongIntro(b * x, p.b * x, m, -x);
      CongTrans(b * x, p.b * x, p.u, m);
    }
    HalfProduct(b, x, b * x);
    assert p.u == 2 * (p.u / 2);
    CongHalf(b / 2 * x, p.u / 2, m);
  }

  lemma HalfProduct(b: int, x: int, bx: int)
    requires b % 2 == 0 && bx == b * x
    ensures bx == 2 * (b / 2 * x)
  {
    assert b == 2 * (b / 2);
    MulAssoc(2, b / 2, x);
  }

  lemma AddRelation(a: int, b: int, x: int, m: int)
    ensures (a + x) * m + (b - m) * x == a * m + b * x
  {
    SumProduct(a, x, m);
    SumProduct(b - m, m, x);
    Comm(m, x);
  }

  lemma EvenCoefficient(a: int, b: int, x: int, m: int, u: int)
    requires a * m + b * x == u && u % 2 == 0 && m % 2 == 0 && x % 2 == 1
    ensures b % 2 == 0
  {
    ProductParity(a, m);
    ProductParity(b, x);
  }

  /** With m even and x odd, b is even, so adding (x, -m) makes both coefficients even. */
  lemma HalfKeepsEven(p: Row, x: int, m: int)
    requires m > 0 && m % 2 == 0 && x % 2 == 1 && RowOf(p, x, m, true) && p.u > 0 && p.u % 2 == 0
    ensures RowOf(HalfRow(p, x, m, true), x, m, true)
  {
    EvenCoefficient(p.a, p.b, x, m, p.u);
    if p.a % 2 != 0 {
      HalfShifted(p.a, p.b, x, m, p.u);
    } else {
      HalfRelation(p.a, p.b, x, m, p.u);
    }
  }

  lemma HalfShifted(a: int, b: int, x: int, m: int, u: int)
    requires a % 2 == 1 && x % 2 == 1 && b % 2 == 0 && m % 2 == 0 && a * m + b * x == u
    ensures (a + x) / 2 * m + (b - m) / 2 * x == u / 2
  {
    AddRelation(a, b, x, m);
    HalfRelation(a + x, b - m, x, m, u);
  }

  lemma HalfRelation(a: int, b: int, x: int, m: int, u: int)
    requires a % 2 == 0 && b % 2 == 0 && a * m + b * x == u
    ensures a / 2 * m + b / 2 * x == u / 2
  {
    HalfProduct(a, m, a * m);
    HalfProduct(b, x, b * x);
  }

  lemma {:induction false} HalveKeeps(p: Row, x: int, m: int, ac: bool)
    requires m > 0 && RowOf(p, x, m, ac) && p.u > 0 && (if ac then m % 2 == 0 && x % 2 == 1 else m % 2 == 1)
    ensures RowOf(HalveRow(p, x, m, ac), x, m, ac) && OddRest(p.u, HalveRow(p, x, m, ac).u)
    decreases p.u
  {
    if p.u % 2 == 0 {
      var h := HalfRow(p, x, m, ac);
      if ac {
        HalfKeepsEven(p, x, m);
      } else {
        HalfKeepsOdd(p, x, m);
      }
      HalveKeeps(h, x, m, ac);
      OddRestHalf(p.u, HalveRow(p, x, m, ac).u);
    }
  }

  lemma OddRestHalf(u: int, o: int)
    requires u > 0 && u % 2 == 0 && OddRest(u / 2, o)
    ensures OddRest(u, o)
  {
    forall y | y % 2 == 1
      ensures SameDivisors(u, y, o, y) && SameDivisors(y, u, y, o)
    {
      SameHalf(u, y);
      assert SameDivisors(u / 2, y, o, y) && SameDivisors(y, u / 2, y, o);
      SameTrans(u, y, u / 2, y, o, y);
      SameTrans(y, u, y, u / 2, y, o);
    }
  }

  lemma SameTrans(x: int, y: int, u: int, v: int, p: int, q: int)
    requires SameDivisors(x, y, u, v) && SameDivisors(u, v, p, q)
    ensures SameDivisors(x, y, p, q)
  {
    forall c
      ensures Common(c, x, y) <==> Common(c, p, q)
    {
      assert Common(c, x, y) <==> Common(c, u, v);
    }
  }

  lemma MinusKeeps(p: Row, q: Row, x: int, m: int, ac: bool)
    requires m > 0 && RowOf(p, x, m, ac) && RowOf(q, x, m, ac) && p.u >= q.u
    ensures RowOf(Minus(p, q, ac), x, m, ac)
  {
    SumProduct(p.b, -q.b, x);
    NegProduct(q.b, x);
    if ac {
      SumProduct(p.a, -q.a, m);
      NegProduct(q.a, m);
    } else {
      var k := CongWitness(p.b * x, p.u, m);
      var l := CongWitness(q.b * x, q.u, m);
      SumProduct(k, -l, m);
      NegProduct(l, m);
      CongIntro((p.b - q.b) * x, p.u - q.u, m, k - l);
    }
  }

  /** The row that remains holds the greatest common divisor. */
  lemma {:induction false} RunKeeps(p: Row, q: Row, x: int, m: int, ac: bool)
    requires m > 0 && RowOf(p, x, m, ac) && RowOf(q, x, m, ac) && q.u > 0 && (p.u % 2 == 1 || q.u % 2 == 1)
    requires if ac then m % 2 == 0 && x % 2 == 1 else m % 2 == 1
    ensures RowOf(Run(p, q, x, m, ac), x, m, ac) && IsGcd(Run(p, q, x, m, ac).u, p.u, q.u)
    decreases p.u + q.u
  {
    if p.u == 0 {
      IsGcdOfZero(q.u);
    } else {
      HalveSize(p, x, m, ac);
      HalveSize(q, x, m, ac);
      HalveKeeps(p, x, m, ac);
      HalveKeeps(q, x, m, ac);
      var p', q' := HalveRow(p, x, m, ac), HalveRow(q, x, m, ac);
      StripPair(p.u, q.u, p'.u, q'.u);
      SameMinus(p'.u, q'.u);
      if p'.u >= q'.u {
        MinusKeeps(p', q', x, m, ac);
        RunKeeps(Minus(p', q', ac), q', x, m, ac);
      } else {
        MinusKeeps(q', p', x, m, ac);
        RunKeeps(p', Minus(q', p', ac), x, m, ac);
      }
    }
  }

  lemma IsGcdOfZero(g: int)
    requires g >= 0
    ensures IsGcd(g, 0, g)
  {
    forall c
      ensures Common(c, g, 0) <==> Common(c, 0, g)
    {
    }
  }

  lemma AdjustCong(d: int, x: int, m: int)
    requires m > 0
    ensures Cong(Adjust(d, m) * x, d * x, m)
  {
    CongRefl(x, m);
    CongRefl(d, m);
    var r := Adjust(d, m);
    CongIntro(d - m, d, m, -1);
    CongIntro(d + m, d, m, 1);
    CongIntro(d + m + m, d, m, 2);
    CongMul(r, d, x, x, m);
  }

  /** The result is an inverse, or zero exactly when there is none. */
  lemma InverseCorrect(x: int, m: int)
    requires x > 0 && m > 1
    ensures Gcd(x, m) == 1 ==> Cong(Inverse(x, m) * x, 1, m)
    ensures Inverse(x, m) == 0 <==> Gcd(x, m) != 1
  {
    GcdIsGcd(x, m);
    if x % 2 == 0 && m % 2 == 0 {
      EvenGcd(x, m);
    } else {
      var ac := m % 2 == 0;
      var p, q := Row(m, 1, 0), Row(x, 0, 1);
      CongIntro(0 * x, m, m, -1);
      CongRefl(1 * x, m);
      RunKeeps(p, q, x, m, ac);
      var last := Run(p, q, x, m, ac);
      IsGcdSwap(last.u, m, x);
      GcdUnique(last.u, Gcd(x, m), x, m);
      if last.u == 1 {
        LastRow(last, x, m, ac);
      }
    }
  }

  lemma LastRow(last: Row, x: int, m: int, ac: bool)
    requires m > 1 && RowOf(last, x, m, ac) && last.u == 1
    ensures Cong(Adjust(last.b, m) * x, 1, m) && Adjust(last.b, m) != 0
  {
    if ac {
      NegProduct(last.a, m);
      CongIntro(last.b * x, 1, m, -last.a);
    }
    AdjustCong(last.b, x, m);
    CongTrans(Adjust(last.b, m) * x, last.b * x, 1, m);
    if Adjust(last.b, m) == 0 {
      CongUnique(0, 1, m);
      DivUnique(1, m, 0, 1);
      assert false;
    }
  }

  lemma EvenGcd(x: int, y: int)
    requires x > 0 && y > 0 && x % 2 == 0 && y % 2 == 0
    ensures Gcd(x, y) != 1
  {
    GcdIsGcd(x, y);
    assert Common(2, x, y);
    assert Common(2, Gcd(x, y), 0);
  }

  /** Exactly when the corrections bring the inverse between 0 and m. */
  lemma InRangeIff(x: int, m: int)
    requires x > 0 && m > 1 && Gcd(x, m) == 1
    ensures 0 <= Inverse(x, m) < m <==> -2 * m <= Run(Row(m, 1, 0), Row(x, 0, 1), x, m, m % 2 == 0).b < 2 * m
  {
    InverseCorrect(x, m);
  }

  /** The coefficient of a row that is not a difference, w being m/4 for every round so far: it lies
      between -(m + w/4) and m/2 + w/4. */
  predicate Narrow(b: int, m: int, w: int) {
    -(4 * m + w) <= 4 * b <= 2 * m + w
  }

  // The coefficient of a difference of two such rows.
  predicate Wide(b: int, m: int, w: int) {
    -(6 * m + 2 * w) <= 4 * b <= 6 * m + 2 * w
  }

  predicate Bounded(p: Row, m: int, w: int) {
    Narrow(p.b, m, w) || (p.u % 2 == 0 && Wide(p.b, m, w))
  }

  ghost predicate Working(p: Row, x: int, m: int, ac: bool) {
    m > 1 && RowOf(p, x, m, ac) && if ac then m % 2 == 0 && x % 2 == 1 else m % 2 == 1
  }

  lemma HalfLinear(b: int, c: int, m: int, w: int)
    requires m > 0 && w >= 0 && (2 * c == b || 2 * c == b - m)
    ensures Narrow(b, m, w) ==> Narrow(c, m, w)
    ensures Wide(b, m, w) ==> Narrow(c, m, w + m)
  {
  }

  lemma HalfExact(p: Row, x: int, m: int, ac: bool)
    requires Working(p, x, m, ac) && p.u > 0 && p.u % 2 == 0
    ensures var c := HalfRow(p, x, m, ac).b; 2 * c == p.b || 2 * c == p.b - m
  {
    if ac {
      EvenCoefficient(p.a, p.b, x, m, p.u);
    }
  }

  lemma HalfBounds(p: Row, x: int, m: int, ac: bool, w: int)
    requires Working(p, x, m, ac) && p.u > 0 && p.u % 2 == 0 && w >= 0
    ensures Narrow(p.b, m, w) ==> Narrow(HalfRow(p, x, m, ac).b, m, w)
    ensures Wide(p.b, m, w) ==> Narrow(HalfRow(p, x, m, ac).b, m, w + m)
    ensures Working(HalfRow(p, x, m, ac), x, m, ac)
  {
    hide RowOf, HalfRow;
    HalfExact(p, x, m, ac);
    HalfLinear(p.b, HalfRow(p, x, m, ac).b, m, w);
    if ac {
      HalfKeepsEven(p, x, m);
    } else {
      HalfKeepsOdd(p, x, m);
    }
  }

  lemma {:induction false} HalveNarrow(p: Row, x: int, m: int, ac: bool, w: int)
    requires Working(p, x, m, ac) && p.u > 0 && w >= 0 && Narrow(p.b, m, w)
    ensures Narrow(HalveRow(p, x, m, ac).b, m, w)
    decreases p.u
  {
    if p.u % 2 == 0 {
      HalfBounds(p, x, m, ac, w);
      HalveNarrow(HalfRow(p, x, m, ac), x, m, ac, w);
    }
  }

  /** The first halving turns a difference into a row whose range is wider by m/4 on both sides. */
  lemma HalveBounded(p: Row, x: int, m: int, ac: bool, w: int)
    requires Working(p, x, m, ac) && p.u > 0 && w >= 0 && Bounded(p, m, w)
    ensures Narrow(HalveRow(p, x, m, ac).b, m, w + m)
    ensures p.u % 2 == 0 ==> 2 * HalveRow(p, x, m, ac).u <= p.u
  {
    if Narrow(p.b, m, w) {
      HalveNarrow(p, x, m, ac, w);
    } else {
      HalfBounds(p, x, m, ac, w);
      HalveNarrow(HalfRow(p, x, m, ac), x, m, ac, w + m);
    }
    if p.u % 2 == 0 {
      HalveSize(HalfRow(p, x, m, ac), x, m, ac);
    }
  }

  lemma HalfProductSize(u: int, v: int, u': int, v': int, n: int)
    requires 0 < u' <= u && 0 < v' <= v && (2 * u' <= u || 2 * v' <= v) && u * v < 2 * n
    ensures u' * v' < n
  {
    if 2 * u' <= u {
      MulMono(2 * u', v', v);
      MulMono(v, 2 * u', u);
      assert (2 * u') * v' == 2 * (u' * v');
    } else {
      MulMono(u', 2 * v', v);
      MulMono(v, u', u);
      assert u' * (2 * v') == 2 * (u' * v');
    }
  }

  lemma SmallerProduct(u: int, v: int, n: int)
    requires 0 < v <= u && u * v < n
    ensures (u - v) * v < n && v * (u - v) < n
  {
    MulMono(v, u - v, u);
    Comm(v, u - v);
    Comm(v, u);
  }

  // p and q are the rows at the end of a round.
  ghost predicate AfterRound(p: Row, q: Row, x: int, m: int, ac: bool, w: int, k: nat) {
    && Working(p, x, m, ac) && Working(q, x, m, ac) && p.u >= 0 && q.u > 0 && w >= 0
    && Bounded(p, m, w) && Bounded(q, m, w) && (p.u == 0 ==> Narrow(q.b, m, w))
    && (p.u % 2 == 0 || q.u % 2 == 0) && (p.u % 2 == 1 || q.u % 2 == 1) && p.u * q.u < 2 * Pow2(k)
  }

  lemma DifferenceBounded(b: int, c: int, m: int, w: int)
    requires Narrow(b, m, w) && Narrow(c, m, w)
    ensures Wide(b - c, m, w)
  {
  }

  // The first row takes the second off.
  lemma RowLeft(p: Row, q: Row, x: int, m: int, ac: bool, w: int, n: int)
    requires Working(p, x, m, ac) && Working(q, x, m, ac) && p.u >= q.u > 0 && w >= 0
    requires p.u % 2 == 1 && q.u % 2 == 1 && Narrow(p.b, m, w) && Narrow(q.b, m, w) && p.u * q.u < n
    ensures var d := Minus(p, q, ac);
            Working(d, x, m, ac) && Bounded(d, m, w) && d.u % 2 == 0 && d.u * q.u < n && q.u * d.u < n
  {
    hide RowOf, Wide, Narrow;
    MinusKeeps(p, q, x, m, ac);
    DifferenceBounded(p.b, q.b, m, w);
    SmallerProduct(p.u, q.u, n);
  }

  lemma RowsLeft(p: Row, q: Row, x: int, m: int, ac: bool, w: int, k: nat)
    requires Working(p, x, m, ac) && Working(q, x, m, ac) && p.u > 0 && q.u > 0 && w >= 0
    requires p.u % 2 == 1 && q.u % 2 == 1 && Narrow(p.b, m, w) && Narrow(q.b, m, w) && p.u * q.u < 2 * Pow2(k)
    ensures p.u >= q.u ==> AfterRound(Minus(p, q, ac), q, x, m, ac, w, k)
    ensures p.u < q.u ==> AfterRound(p, Minus(q, p, ac), x, m, ac, w, k)
  {
    hide Working, Wide, Narrow, Pow2;
    if p.u >= q.u {
      RowLeft(p, q, x, m, ac, w, 2 * Pow2(k));
    } else {
      Comm(p.u, q.u);
      RowLeft(q, p, x, m, ac, w, 2 * Pow2(k));
    }
  }

  /** One round on the halved rows. */
  lemma HalvedRows(p: Row, q: Row, x: int, m: int, ac: bool, w: int, k: nat)
    requires AfterRound(p, q, x, m, ac, w, k) && p.u > 0
    ensures var p', q' := HalveRow(p, x, m, ac), HalveRow(q, x, m, ac);
            && 0 < p'.u <= p.u && 0 < q'.u <= q.u && k > 0
            && (p'.u >= q'.u ==> AfterRound(Minus(p', q', ac), q', x, m, ac, w + m, k - 1))
            && (p'.u < q'.u ==> AfterRound(p', Minus(q', p', ac), x, m, ac, w + m, k - 1))
  {
    hide RowOf, Wide, Narrow, Pow2, HalveRow, Bounded;
    HalveSize(p, x, m, ac);
    HalveSize(q, x, m, ac);
    HalveKeeps(p, x, m, ac);
    HalveKeeps(q, x, m, ac);
    HalveBounded(p, x, m, ac, w);
    HalveBounded(q, x, m, ac, w);
    var p', q' := HalveRow(p, x, m, ac), HalveRow(q, x, m, ac);
    HalfProductSize(p.u, q.u, p'.u, q'.u, Pow2(k));
    OneMoreBit(p'.u, q'.u, k);
    RowsLeft(p', q', x, m, ac, w + m, k - 1);
  }

  /** Every round takes at least one bit from the product of u and v. */
  lemma {:induction false} RunBounds(p: Row, q: Row, x: int, m: int, ac: bool, w: int, k: nat, end: int)
    requires AfterRound(p, q, x, m, ac, w, k) && end == w + k * m
    ensures Narrow(Run(p, q, x, m, ac).b, m, end)
    decreases p.u + q.u, 1
  {
    hide HalveRow, Run, Bounded, RowOf;
    if p.u == 0 {
      MulMono(m, 0, k);
      WiderStill(q.b, m, w, k * m);
      RunOver(p, q, x, m, ac);
    } else {
      HalvedRows(p, q, x, m, ac, w, k);
      OneTimeMore(w, k, m);
      RunRounds(p, q, HalveRow(p, x, m, ac), HalveRow(q, x, m, ac), x, m, ac, w + m, k - 1, end);
    }
  }

  lemma WiderStill(b: int, m: int, w: int, more: int)
    requires Narrow(b, m, w) && more >= 0
    ensures Narrow(b, m, w + more)
  {
  }

  lemma RunOver(p: Row, q: Row, x: int, m: int, ac: bool)
    requires p.u == 0 && q.u > 0
    ensures Run(p, q, x, m, ac) == q
  {
  }

  lemma RunTurn(p: Row, q: Row, x: int, m: int, ac: bool)
    requires p.u > 0 && q.u > 0
    ensures var p', q' := HalveRow(p, x, m, ac), HalveRow(q, x, m, ac);
            && p'.u > 0 && q'.u > 0
            && Run(p, q, x, m, ac) == if p'.u >= q'.u then Run(Minus(p', q', ac), q', x, m, ac)
                                      else Run(p', Minus(q', p', ac), x, m, ac)
  {
    hide Minus, HalveRow;
    HalveSize(p, x, m, ac);
    HalveSize(q, x, m, ac);
  }

  lemma OneTimeMore(w: int, k: int, m: int)
    ensures w + m + (k - 1) * m == w + k * m
  {
  }

  lemma RunRounds(p: Row, q: Row, p': Row, q': Row, x: int, m: int, ac: bool, w: int, k: nat, end: int)
    requires p.u > 0 && q.u > 0 && p' == HalveRow(p, x, m, ac) && q' == HalveRow(q, x, m, ac)
    requires 0 < p'.u <= p.u && 0 < q'.u <= q.u && end == w + k * m
    requires p'.u >= q'.u ==> AfterRound(Minus(p', q', ac), q', x, m, ac, w, k)
    requires p'.u < q'.u ==> AfterRound(p', Minus(q', p', ac), x, m, ac, w, k)
    ensures Narrow(Run(p, q, x, m, ac).b, m, end)
    decreases p.u + q.u, 0
  {
    hide AfterRound, Narrow, Run, HalveRow;
    RunTurn(p, q, x, m, ac);
    if p'.u >= q'.u {
      RunBounds(Minus(p', q', ac), q', x, m, ac, w, k, end);
    } else {
      RunBounds(p', Minus(q', p', ac), x, m, ac, w, k, end);
    }
  }

  lemma OneMoreBit(u: int, v: int, k: nat)
    requires u > 0 && v > 0 && u * v < Pow2(k)
    ensures k > 0 && u * v < 2 * Pow2(k - 1)
  {
    MulMono(u, 1, v);
  }

  /** However far the coefficient strays, it is bounded by the bits of x and m: for a product of at most
      k + 1 bits, by -(m + k * m/4) and m/2 + k * m/4. */
  lemma CoefficientBounds(x: int, m: int, k: nat)
    requires x > 0 && m > 1 && (x % 2 == 1 || m % 2 == 1) && m * x < 2 * Pow2(k)
    ensures Narrow(Run(Row(m, 1, 0), Row(x, 0, 1), x, m, m % 2 == 0).b, m, k * m)
  {
    hide RowOf, HalveRow, AfterRound;
    var ac, p, q := m % 2 == 0, Row(m, 1, 0), Row(x, 0, 1);
    StartWorking(x, m);
    HalveSize(p, x, m, ac);
    HalveSize(q, x, m, ac);
    HalveKeeps(p, x, m, ac);
    HalveKeeps(q, x, m, ac);
    HalveNarrow(p, x, m, ac, 0);
    HalveNarrow(q, x, m, ac, 0);
    var p', q' := HalveRow(p, x, m, ac), HalveRow(q, x, m, ac);
    SmallerFactors(p'.u, q'.u, m, x);
    RowsLeft(p', q', x, m, ac, 0, k);
    if p'.u >= q'.u {
      RunBounds(Minus(p', q', ac), q', x, m, ac, 0, k, k * m);
    } else {
      RunBounds(p', Minus(q', p', ac), x, m, ac, 0, k, k * m);
    }
  }

  lemma StartWorking(x: int, m: int)
    requires x > 0 && m > 1 && (x % 2 == 1 || m % 2 == 1)
    ensures Working(Row(m, 1, 0), x, m, m % 2 == 0) && Working(Row(x, 0, 1), x, m, m % 2 == 0)
  {
    CongIntro(0 * x, m, m, -1);
    CongRefl(1 * x, m);
  }

  lemma SmallerFactors(u: int, v: int, m: int, x: int)
    requires 0 < u <= m && 0 < v <= x
    ensures u * v <= m * x
  {
    MulMono(u, v, x);
    MulMono(x, u, m);
  }

  /** So the inverse is never further out of its range than that, less what the corrections add. */
  lemma InverseBounds(x: int, m: int, k: nat)
    requires x > 0 && m > 1 && m * x < 2 * Pow2(k)
    ensures Inverse(x, m) < m || 4 * Inverse(x, m) <= k * m - 2 * m
    ensures Inverse(x, m) >= 0 || 4 * Inverse(x, m) >= 4 * m - k * m
    ensures k <= 4 ==> 0 <= Inverse(x, m) < m
  {
    hide Run;
    MulMono(m, 0, k);
    if x % 2 == 1 || m % 2 == 1 {
      CoefficientBounds(x, m, k);
      Corrected(Run(Row(m, 1, 0), Row(x, 0, 1), x, m, m % 2 == 0).b, m, k * m);
    }
    if k <= 4 {
      MulMono(m, k, 4);
    }
  }

  lemma Corrected(b: int, m: int, w: int)
    requires m > 1 && w >= 0 && -(4 * m + w) <= 4 * b <= 2 * m + w
    ensures var r := Adjust(b, m); (r < m || 4 * r <= w - 2 * m) && (r >= 0 || 4 * r >= 4 * m - w)
    ensures w <= 4 * m ==> 0 <= Adjust(b, m) < m
  {
  }

  lemma RunStep(x: int, m: int, p: Row, q: Row, p': Row, q': Row)
    requires p.u > 0 && q.u > 0 && p'.u > 0 && q'.u > 0
    requires HalveRow(p, x, m, m % 2 == 0) == p' && HalveRow(q, x, m, m % 2 == 0) == q'
    ensures Run(p, q, x, m, m % 2 == 0)
            == if p'.u >= q'.u then Run(Minus(p', q', m % 2 == 0), q', x, m, m % 2 == 0)
               else Run(p', Minus(q', p', m % 2 == 0), x, m, m % 2 == 0)
  {
    RunTurn(p, q, x, m, m % 2 == 0);
  }

  lemma OddModulusEnd()
    ensures Run(Row(22, 1, 7632), Row(53, 0, -5231), 1748, 3659, false) == Row(1, 0, -7969)
  {
    hide Run;
    RunStep(1748, 3659, Row(22, 1, 7632), Row(53, 0, -5231), Row(11, 1, 3816), Row(53, 0, -5231));
    RunStep(1748, 3659, Row(11, 1, 3816), Row(42, 0, -9047), Row(11, 1, 3816), Row(21, 0, -6353));
    RunStep(1748, 3659, Row(11, 1, 3816), Row(10, 0, -10169), Row(11, 1, 3816), Row(5, 0, -6914));
    RunStep(1748, 3659, Row(6, 1, 10730), Row(5, 0, -6914), Row(3, 1, 5365), Row(5, 0, -6914));
    RunStep(1748, 3659, Row(3, 1, 5365), Row(2, 0, -12279), Row(3, 1, 5365), Row(1, 0, -7969));
    RunStep(1748, 3659, Row(2, 1, 13334), Row(1, 0, -7969), Row(1, 1, 6667), Row(1, 0, -7969));
    RunOver(Row(0, 1, 14636), Row(1, 0, -7969), 1748, 3659, false);
  }

  lemma OddModulusMiddle()
    ensures Run(Row(75, 1, 2401), Row(362, 0, -5145), 1748, 3659, false)
            == Run(Row(22, 1, 7632), Row(53, 0, -5231), 1748, 3659, false)
  {
    hide Run;
    RunStep(1748, 3659, Row(75, 1, 2401), Row(362, 0, -5145), Row(75, 1, 2401), Row(181, 0, -4402));
    RunStep(1748, 3659, Row(75, 1, 2401), Row(106, 0, -6803), Row(75, 1, 2401), Row(53, 0, -5231));
  }

  /** The corrections do not always suffice: the inverse of 1748 modulo 3659 comes out negative. */
  lemma OddModulusOutOfRange()
    ensures Inverse(1748, 3659) == -651
  {
    hide Run;
    assert HalveRow(Row(1748, 0, 1), 1748, 3659, false) == HalveRow(Row(874, 0, -1829), 1748, 3659, false);
    RunStep(1748, 3659, Row(3659, 1, 0), Row(1748, 0, 1), Row(3659, 1, 0), Row(437, 0, -2744));
    RunStep(1748, 3659, Row(3222, 1, 2744), Row(437, 0, -2744), Row(1611, 1, 1372), Row(437, 0, -2744));
    RunStep(1748, 3659, Row(1174, 1, 4116), Row(437, 0, -2744), Row(587, 1, 2058), Row(437, 0, -2744));
    RunStep(1748, 3659, Row(150, 1, 4802), Row(437, 0, -2744), Row(75, 1, 2401), Row(437, 0, -2744));
    OddModulusMiddle();
    OddModulusEnd();
  }

  lemma EvenModulusEnd()
    ensures Run(Row(10, -34850, 71962), Row(27, 22386, -46225), 14205, 29332, true) == Row(1, 33448, -69067)
  {
    hide Run;
    RunStep(14205, 29332, Row(10, -34850, 71962), Row(27, 22386, -46225), Row(5, -17425, 35981), Row(27, 22386, -46225));
    RunStep(14205, 29332, Row(5, -17425, 35981), Row(22, 39811, -82206), Row(5, -17425, 35981), Row(11, 27008, -55769));
    RunStep(14205, 29332, Row(5, -17425, 35981), Row(6, 44433, -91750), Row(5, -17425, 35981), Row(3, 29319, -60541));
    RunStep(14205, 29332, Row(2, -46744, 96522), Row(3, 29319, -60541), Row(1, -23372, 48261), Row(3, 29319, -60541));
    RunStep(14205, 29332, Row(1, -23372, 48261), Row(2, 52691, -108802), Row(1, -23372, 48261), Row(1, 33448, -69067));
    RunOver(Row(0, -56820, 117328), Row(1, 33448, -69067), 14205, 29332, true);
  }

  lemma EvenModulusMiddle()
    ensures Run(Row(330, -13650, 28186), Row(859, 9322, -19249), 14205, 29332, true)
            == Run(Row(10, -34850, 71962), Row(27, 22386, -46225), 14205, 29332, true)
  {
    hide Run;
    RunStep(14205, 29332, Row(330, -13650, 28186), Row(859, 9322, -19249), Row(165, -6825, 14093), Row(859, 9322, -19249));
    RunStep(14205, 29332, Row(165, -6825, 14093), Row(694, 16147, -33342), Row(165, -6825, 14093), Row(347, 15176, -31337));
    RunStep(14205, 29332, Row(165, -6825, 14093), Row(182, 22001, -45430), Row(165, -6825, 14093), Row(91, 18103, -37381));
    RunStep(14205, 29332, Row(74, -24928, 51474), Row(91, 18103, -37381), Row(37, -12464, 25737), Row(91, 18103, -37381));
    RunStep(14205, 29332, Row(37, -12464, 25737), Row(54, 30567, -63118), Row(37, -12464, 25737), Row(27, 22386, -46225));
  }

  lemma EvenModulusStart()
    ensures HalveRow(Row(29332, 1, 0), 14205, 29332, true) == Row(7333, 10654, -21999)
    ensures HalveRow(Row(6872, -10654, 22000), 14205, 29332, true) == Row(859, 9322, -19249)
  {
    assert HalveRow(Row(14666, 7103, -14666), 14205, 29332, true) == Row(7333, 10654, -21999);
    assert HalveRow(Row(1718, 4439, -9166), 14205, 29332, true) == Row(859, 9322, -19249);
    assert HalveRow(Row(3436, -5327, 11000), 14205, 29332, true) == HalveRow(Row(1718, 4439, -9166), 14205, 29332, true);
  }

  /** Nor do they for even moduli. */
  lemma EvenModulusOutOfRange()
    ensures Inverse(14205, 29332) == -10403
  {
    hide Run;
    EvenModulusStart();
    RunStep(14205, 29332, Row(29332, 1, 0), Row(14205, 0, 1), Row(7333, 10654, -21999), Row(14205, 0, 1));
    RunStep(14205, 29332, Row(7333, 10654, -21999), Row(6872, -10654, 22000), Row(7333, 10654, -21999), Row(859, 9322, -19249));
    RunStep(14205, 29332, Row(6474, 1332, -2750), Row(859, 9322, -19249), Row(3237, 666, -1375), Row(859, 9322, -19249));
    RunStep(14205, 29332, Row(2378, -8656, 17874), Row(859, 9322, -19249), Row(1189, -4328, 8937), Row(859, 9322, -19249));
    EvenModulusMiddle();
    EvenModulusEnd();
  }

  ghost function Values(u: BigInteger, a: BigInteger, b: BigInteger): Row
    reads u, a, b
    requires u.Valid() && a.Valid() && b.Valid()
  {
    Row(u.Value(), a.Value(), b.Value())
  }

  ghost predicate Clean(u: BigInteger, a: BigInteger, b: BigInteger)
    reads u, a, b
  {
    u != a && u != b && a != b && u.Canonical() && a.Canonical() && b.Canonical()
  }

  /** One turn of an inner loop, which halves u. */
  method HalfStep(u: BigInteger, a: BigInteger, b: BigInteger, x: BigInteger, m: BigInteger, ac: bool)
    requires Clean(u, a, b) && x.Canonical() && m.Canonical()
    requires x != u && x != a && x != b && m != u && m != a && m != b
    modifies u, a, b
    ensures Clean(u, a, b) && Values(u, a, b) == HalfRow(old(Values(u, a, b)), x.Value(), m.Value(), ac)
  {
    ghost var p := Values(u, a, b);
    assert Pow2(1) == 2;
    RShiftTo(u, 1, u);
    var bEven := b.IsEven();
    if ac {
      var aEven := a.IsEven();
      if !aEven || !bEven {
        a.AddTo(x, a);
        b.SubTo(m, b);
      }
      RShiftTo(a, 1, a);
    } else if !bEven {
      b.SubTo(m, b);
    }
    RShiftTo(b, 1, b);
  }

  /** An inner loop: u is halved until it is odd. */
  method Halve(u: BigInteger, a: BigInteger, b: BigInteger, x: BigInteger, m: BigInteger, ac: bool)
    requires Clean(u, a, b) && x.Canonical() && m.Canonical() && u.Value() > 0
    requires x != u && x != a && x != b && m != u && m != a && m != b
    modifies u, a, b
    ensures Clean(u, a, b) && Values(u, a, b) == HalveRow(old(Values(u, a, b)), x.Value(), m.Value(), ac)
  {
    ghost var p := Values(u, a, b);
    var even := u.IsEven();
    while even
      invariant Clean(u, a, b) && u.Value() > 0 && (even <==> u.Value() % 2 == 0)
      invariant HalveRow(Values(u, a, b), x.Value(), m.Value(), ac) == HalveRow(p, x.Value(), m.Value(), ac)
      decreases u.Value()
    {
      HalfStep(u, a, b, x, m, ac);
      even := u.IsEven();
    }
  }

  /** One row is taken from the other, with the coefficients. */
  method SubtractRow(u: BigInteger, a: BigInteger, b: BigInteger, v: BigInteger, c: BigInteger, d: BigInteger, ac: bool)
    requires Clean(u, a, b) && Clean(v, c, d) && {u, a, b} !! {v, c, d}
    modifies u, a, b
    ensures Clean(u, a, b) && Values(u, a, b) == Minus(old(Values(u, a, b)), Values(v, c, d), ac)
  {
    u.SubTo(v, u);
    if ac {
      a.SubTo(c, a);
    }
    b.SubTo(d, b);
  }

  /** One turn of the outer loop. */
  method RunRound(u: BigInteger, a: BigInteger, b: BigInteger, v: BigInteger, c: BigInteger, d: BigInteger,
                  x: BigInteger, m: BigInteger, ac: bool)
    requires Clean(u, a, b) && Clean(v, c, d) && {u, a, b} !! {v, c, d} && x.Canonical() && m.Canonical()
    requires {x, m} !! {u, a, b, v, c, d} && u.Value() > 0 && v.Value() > 0
    modifies u, a, b, v, c, d
    ensures Clean(u, a, b) && Clean(v, c, d) && u.Value() >= 0 && v.Value() > 0
    ensures u.Value() + v.Value() < old(u.Value()) + old(v.Value())
    ensures Run(Values(u, a, b), Values(v, c, d), x.Value(), m.Value(), ac)
            == Run(old(Values(u, a, b)), old(Values(v, c, d)), x.Value(), m.Value(), ac)
  {
    ghost var p, q, X, M := Values(u, a, b), Values(v, c, d), x.Value(), m.Value();
    Halve(u, a, b, x, m, ac);
    Halve(v, c, d, x, m, ac);
    HalveSize(p, X, M, ac);
    HalveSize(q, X, M, ac);
    NumSign(u.d, u.t, u.s);
    NumSign(v.d, v.t, v.s);
    var order := u.CompareTo(v);
    if order >= 0 {
      SubtractRow(u, a, b, v, c, d, ac);
    } else {
      SubtractRow(v, c, d, u, a, b, ac);
    }
  }

  /** The corrections at the end of modInverse. */
  method Correct(d: BigInteger, m: BigInteger) returns (r: BigInteger)
    requires d != m && d.Canonical() && m.Canonical() && m.Value() > 0
    modifies d
    ensures r == d || fresh(r)
    ensures r.Canonical() && r.Value() == Adjust(old(d.Value()), m.Value())
  {
    NumSign(m.d, m.t, m.s);
    var order := d.CompareTo(m);
    if order >= 0 {
      r := new BigInteger();
      d.SubTo(m, r);
      return;
    }
    r := d;
    var sign := d.Signum();
    if sign < 0 {
      d.AddTo(m, d);
    } else {
      return;
    }
    sign := d.Signum();
    if sign < 0 {
      r := new BigInteger();
      d.AddTo(m, r);
    }
  }

  /** modInverse: zero exactly when this and m have a common factor, otherwise a number that
      multiplies this to 1 modulo m, although not always the one between 0 and m: InRangeIff says when, and
      InverseBounds how far it may be off. */
  method ModInverse(x: BigInteger, m: BigInteger) returns (r: BigInteger)
    requires x.Canonical() && m.Canonical() && x.Value() > 0 && m.Value() > 1
    ensures r.Canonical() && r.Value() == Inverse(x.Value(), m.Value())
    ensures r.Value() == 0 <==> Gcd(x.Value(), m.Value()) != 1
    ensures Gcd(x.Value(), m.Value()) == 1 ==> Cong(r.Value() * x.Value(), 1, m.Value())
  {
    ghost var X, M := x.Value(), m.Value();
    InverseCorrect(X, M);
    var ac := m.IsEven();
    var xEven := x.IsEven();
    if xEven && ac {
      r := new BigInteger();
      return;
    }
    r := InverseFrom(x, m, ac);
  }

  method NewRow(x: BigInteger, i: int, j: int) returns (u: BigInteger, a: BigInteger, b: BigInteger)
    requires x.Canonical() && 0 <= i <= 1 && 0 <= j <= 1
    ensures fresh({u, a, b}) && Clean(u, a, b) && Values(u, a, b) == Row(x.Value(), i, j)
  {
    u := new BigInteger();
    x.CopyTo(u);
    a := new BigInteger.FromInt(i);
    b := new BigInteger.FromInt(j);
  }

  /** modInverse after its guard. */
  method InverseFrom(x: BigInteger, m: BigInteger, ac: bool) returns (r: BigInteger)
    requires x.Canonical() && m.Canonical() && x.Value() > 0 && m.Value() > 1
    requires ac == (m.Value() % 2 == 0) && !(x.Value() % 2 == 0 && ac)
    ensures r.Canonical() && r.Value() == Inverse(x.Value(), m.Value())
  {
    var u, a, b := NewRow(m, 1, 0);
    var v, c, d := NewRow(x, 0, 1);
    RunRows(u, a, b, v, c, d, x, m, ac);
    var one := new BigInteger.FromInt(1);
    NumSign(v.d, v.t, v.s);
    NumSign(one.d, one.t, one.s);
    var order := v.CompareTo(one);
    if order != 0 {
      r := new BigInteger();
      return;
    }
    r := Correct(d, m);
  }

  method RunRows(u: BigInteger, a: BigInteger, b: BigInteger, v: BigInteger, c: BigInteger, d: BigInteger,
                 x: BigInteger, m: BigInteger, ac: bool)
    requires Clean(u, a, b) && Clean(v, c, d) && {u, a, b} !! {v, c, d} && x.Canonical() && m.Canonical()
    requires {x, m} !! {u, a, b, v, c, d} && u.Value() >= 0 && v.Value() > 0
    modifies u, a, b, v, c, d
    ensures Clean(v, c, d)
    ensures Values(v, c, d) == Run(old(Values(u, a, b)), old(Values(v, c, d)), x.Value(), m.Value(), ac)
  {
    ghost var p, q, X, M := Values(u, a, b), Values(v, c, d), x.Value(), m.Value();
    var sign := u.Signum();
    while sign != 0
      invariant Clean(u, a, b) && Clean(v, c, d) && u.Value() >= 0 && v.Value() > 0 && (sign == 0 <==> u.Value() == 0)
      invariant Run(Values(u, a, b), Values(v, c, d), X, M, ac) == Run(p, q, X, M, ac)
      decreases u.Value() + v.Value()
    {
      RunRound(u, a, b, v, c, d, x, m, ac);
      sign := u.Signum();
    }
  }
}
