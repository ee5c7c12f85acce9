/** Binary greatest common divisor (HAC 14.54) and binary modular inverse (HAC 14.61). */
module Gcds {
  import opened JsNumber
  import opened Limbs
  import opened Modular
  import opened BigIntegers
  import opened Shifts
  import opened Multiply

  predicate Divides(c: int, n: int)
    requires c > 0
  {
    n % c == 0
  }

  lemma DividesIntro(c: int, n: int, k: int)
    requires c > 0 && n == k * c
    ensures Divides(c, n)
  {
    DivUnique(n, c, k, 0);
  }

  lemma DividesWitness(c: int, n: int) returns (k: int)
    requires c > 0 && Divides(c, n)
    ensures n == k * c
  {
    k := n / c;
    Comm(c, k);
  }

  lemma DividesSum(c: int, x: int, y: int)
    requires c > 0 && Divides(c, x) && Divides(c, y)
    ensures Divides(c, x + y) && Divides(c, x - y)
  {
    var k := DividesWitness(c, x);
    var l := DividesWitness(c, y);
    SumProduct(k, l, c);
    SumProduct(k, -l, c);
    NegProduct(l, c);
    DividesIntro(c, x + y, k + l);
    DividesIntro(c, x - y, k - l);
  }

  lemma DividesTwice(c: int, x: int)
    requires c > 0
    ensures Divides(c, x) ==> Divides(c, 2 * x)
    ensures Divides(2 * c, 2 * x) <==> Divides(c, x)
    ensures c % 2 == 1 && Divides(c, 2 * x) ==> Divides(c, x)
  {
    if Divides(c, x) {
      DividesSum(c, x, x);
      var k := DividesWitness(c, x);
      MulAssoc(2, k, c);
      DividesIntro(2 * c, 2 * x, k);
    }
    if Divides(2 * c, 2 * x) {
      var k := DividesWitness(2 * c, 2 * x);
      assert k * (2 * c) == 2 * (k * c);
      DividesIntro(c, x, k);
    }
    if c % 2 == 1 && Divides(c, 2 * x) {
      var k := DividesWitness(c, 2 * x);
      ProductParity(k, c);
      assert k / 2 * 2 == k;
      assert k / 2 * 2 * c == 2 * (k / 2 * c);
      DividesIntro(c, x, k / 2);
    }
  }

  /** A product is odd when both factors are. */
  lemma ProductParity(k: int, c: int)
    ensures k * c % 2 == 1 <==> k % 2 == 1 && c % 2 == 1
  {
    var i, j := k / 2, c / 2;
    ParityAlgebra(i, j, k % 2, c % 2);
    assert k == 2 * i + k % 2 && c == 2 * j + c % 2;
    var z := 2 * (i * j) + i * (c % 2) + j * (k % 2);
    assert k * c == 2 * z + (k % 2) * (c % 2);
    assert k % 2 == 0 || k % 2 == 1;
  }

  lemma ParityAlgebra(i: int, j: int, r: int, s: int)
    ensures (2 * i + r) * (2 * j + s) == 2 * (2 * (i * j) + i * s + j * r) + r * s
  {
    assert (2 * i + r) * (2 * j + s) == 2 * i * (2 * j + s) + r * (2 * j + s);
    assert 2 * i * (2 * j + s) == 4 * (i * j) + 2 * (i * s);
  }

  lemma OddDivisor(c: int, y: int)
    requires c > 0 && Divides(c, y) && y % 2 == 1
    ensures c % 2 == 1
  {
    var k := DividesWitness(c, y);
    ProductParity(k, c);
  }

  ghost predicate Common(c: int, x: int, y: int) {
    c > 0 && Divides(c, x) && Divides(c, y)
  }

  /** The pairs have the same common divisors. */
  ghost predicate SameDivisors(x: int, y: int, u: int, v: int) {
    forall c :: Common(c, x, y) <==> Common(c, u, v)
  }

  /** g is the greatest common divisor: it is not negative, and its divisors are the common ones. */
  ghost predicate IsGcd(g: int, x: int, y: int) {
    g >= 0 && SameDivisors(g, 0, x, y)
  }

  lemma DividesZero(c: int)
    requires c > 0
    ensures Divides(c, 0)
  {
    DividesIntro(c, 0, 0);
  }

  /** ... which determines it. */
  lemma GcdUnique(g: int, h: int, x: int, y: int)
    requires IsGcd(g, x, y) && IsGcd(h, x, y)
    ensures g == h
  {
    GcdBelow(g, h, x, y);
    GcdBelow(h, g, x, y);
  }

  lemma GcdBelow(g: int, h: int, x: int, y: int)
    requires IsGcd(g, x, y) && IsGcd(h, x, y)
    ensures g == 0 ==> h == 0
    ensures h > 0 ==> g <= h
  {
    if g == 0 && h > 0 {
      DividesZero(h + 1);
      assert Common(h + 1, g, 0);
      assert Common(h + 1, h, 0);
      var k := DividesWitness(h + 1, h);
      TooBig(k, h + 1, h);
    } else if h > 0 {
      DividesZero(g);
      DividesIntro(g, g, 1);
      assert Common(g, g, 0);
      assert Common(g, h, 0);
      var k := DividesWitness(g, h);
      TooBig(k, g, h);
    }
  }

  lemma TooBig(k: int, c: int, n: int)
    requires n == k * c && n > 0 && c > 0
    ensures c <= n
  {
    if k <= 0 {
      MulLe(k, 0, c);
    } else {
      MulLe(1, k, c);
    }
  }

  /** Halving one number does not matter while the other is odd. */
  lemma SameHalf(x: int, y: int)
    requires x % 2 == 0 && y % 2 == 1
    ensures SameDivisors(x, y, x / 2, y) && SameDivisors(y, x, y, x / 2)
  {
    forall c
      ensures Common(c, x, y) <==> Common(c, x / 2, y)
      ensures Common(c, y, x) <==> Common(c, y, x / 2)
    {
      if c > 0 {
        DividesTwice(c, x / 2);
        if Divides(c, y) {
          OddDivisor(c, y);
        }
      }
    }
  }

  lemma SameMinus(x: int, y: int)
    ensures SameDivisors(x, y, x - y, y) && SameDivisors(x, y, x, y - x)
  {
    forall c
      ensures Common(c, x, y) <==> Common(c, x - y, y)
      ensures Common(c, x, y) <==> Common(c, x, y - x)
    {
      if c > 0 {
        if Divides(c, x) && Divides(c, y) {
          DividesSum(c, x, y);
          DividesSum(c, y, x);
        } else if Divides(c, x - y) && Divides(c, y) {
          DividesSum(c, x - y, y);
        } else if Divides(c, x) && Divides(c, y - x) {
          DividesSum(c, y - x, x);
        }
      }
    }
  }

  /** A common factor of two comes out. */
  lemma GcdTwice(g: int, x: int, y: int)
    requires IsGcd(g, x, y)
    ensures IsGcd(2 * g, 2 * x, 2 * y)
  {
    forall c
      ensures Common(c, 2 * g, 0) <==> Common(c, 2 * x, 2 * y)
    {
      if c > 0 {
        DividesZero(c);
        if c % 2 == 1 {
          DividesTwice(c, g);
          DividesTwice(c, x);
          DividesTwice(c, y);
          assert Common(c, g, 0) <==> Common(c, x, y);
        } else {
          var h := c / 2;
          DividesZero(h);
          DividesTwice(h, g);
          DividesTwice(h, x);
          DividesTwice(h, y);
          assert c == 2 * h;
          assert Common(h, g, 0) <==> Common(h, x, y);
        }
      }
    }
  }

  lemma {:induction false} GcdShift(g: int, x: int, y: int, n: nat)
    requires IsGcd(g, x, y)
    ensures IsGcd(g * Pow2(n), x * Pow2(n), y * Pow2(n))
  {
    if n > 0 {
      GcdShift(g, x, y, n - 1);
      GcdTwice(g * Pow2(n - 1), x * Pow2(n - 1), y * Pow2(n - 1));
      Double(g, Pow2(n - 1));
      Double(x, Pow2(n - 1));
      Double(y, Pow2(n - 1));
    } else {
      assert Pow2(0) == 1;
    }
  }

  lemma Double(x: int, p: int)
    ensures 2 * (x * p) == x * (2 * p)
  {
  }

  /** Euclid's definition agrees. */
  function Gcd(x: nat, y: nat): (g: nat)
    decreases y
  {
    if y == 0 then x else Gcd(y, x % y)
  }

  lemma {:induction false} GcdIsGcd(x: nat, y: nat)
    ensures IsGcd(Gcd(x, y), x, y)
    decreases y
  {
    if y > 0 {
      GcdIsGcd(y, x % y);
      forall c
        ensures Common(c, x, y) <==> Common(c, y, x % y)
      {
        if c > 0 && Divides(c, y) {
          var k := DividesWitness(c, y);
          var q := x / y;
          assert x == y * q + x % y;
          MulAssoc(q, k, c);
          Comm(q, y);
          DividesIntro(c, y * q, q * k);
          if Divides(c, x) {
            DividesSum(c, x, y * q);
          } else if Divides(c, x % y) {
            DividesSum(c, y * q, x % y);
          }
        }
      }
    }
  }

  /** A copy of |x|. */
  method AbsCopy(x: BigInteger) returns (r: BigInteger)
    requires x.Canonical()
    ensures fresh(r) && r.Canonical() && r.Value() == AbsInt(x.Value())
  {
    NumSign(x.d, x.t, x.s);
    if x.s < 0 {
      r := Negate(x);
    } else {
      r := new BigInteger();
      x.CopyTo(r);
    }
  }

  /** Powers of two do not matter beside an odd number. */
  lemma {:induction false} SameOdd(o: int, i: nat, y: int)
    requires y % 2 == 1
    ensures SameDivisors(o * Pow2(i), y, o, y) && SameDivisors(y, o * Pow2(i), y, o)
  {
    if i > 0 {
      SameOdd(o, i - 1, y);
      Double(o, Pow2(i - 1));
      SameHalf(o * Pow2(i), y);
    }
  }

  /** What removing the trailing zero bits of x leaves. */
  ghost predicate OddRest(x: int, o: int) {
    && o % 2 == 1 && 0 < o <= x && (x % 2 == 1 ==> o == x)
    && forall y :: y % 2 == 1 ==> SameDivisors(x, y, o, y) && SameDivisors(y, x, y, o)
  }

  lemma OddRestOf(x: int, i: nat)
    requires x > 0 && LowestBit(x, i)
    ensures OddRest(x, x / Pow2(i))
  {
    var p, o := Pow2(i), x / Pow2(i);
    Comm(p, o);
    assert o * p == x;
    TooBigQuotient(o, p, x);
    if i > 0 {
      Double(o, Pow2(i - 1));
    }
    forall y | y % 2 == 1
      ensures SameDivisors(x, y, o, y) && SameDivisors(y, x, y, o)
    {
      SameOdd(o, i, y);
    }
  }

  lemma TooBigQuotient(o: int, p: int, x: int)
    requires o * p == x && x > 0 && p > 0
    ensures 0 < o <= x
  {
    if o <= 0 {
      MulLe(o, 0, p);
    } else {
      MulMono(o, 1, p);
    }
  }

  /** x loses its factors of two. */
  method StripTwos(x: BigInteger)
    requires x.Canonical() && x.Value() > 0
    modifies x
    ensures x.Canonical() && OddRest(old(x.Value()), x.Value())
  {
    ghost var X := x.Value();
    var i := GetLowestSetBit(x);
    OddRestOf(X, i);
    if i > 0 {
      RShiftTo(x, i, x);
    } else {
      DivUnique(X, 1, X, 0);
    }
  }

  lemma StripPair(x: int, y: int, x': int, y': int)
    requires x % 2 == 1 || y % 2 == 1
    requires OddRest(x, x') && OddRest(y, y')
    ensures SameDivisors(x, y, x', y')
  {
    if x % 2 == 1 {
      assert SameDivisors(x, y, x, y');
    } else {
      assert SameDivisors(x, y, x', y);
    }
  }

  lemma SubtractHalf(x: int, y: int)
    requires x % 2 == 1 && y % 2 == 1
    ensures (x - y) % 2 == 0 && SameDivisors(x, y, (x - y) / 2, y) && SameDivisors(y, x, y, (x - y) / 2)
  {
    SameMinus(x, y);
    SameMinus(y, x);
    SameHalf(x - y, y);
  }

  /** The loop of gcd; one of the numbers is odd. */
  method GcdLoop(x: BigInteger, y: BigInteger)
    requires x != y && x.Canonical() && y.Canonical() && x.Value() >= 0 && y.Value() > 0
    requires x.Value() % 2 == 1 || y.Value() % 2 == 1
    modifies x, y
    ensures y.Canonical() && IsGcd(y.Value(), old(x.Value()), old(y.Value()))
  {
    ghost var X, Y := x.Value(), y.Value();
    var sign := x.Signum();
    while sign > 0
      invariant x.Canonical() && y.Canonical() && x.Value() >= 0 && y.Value() > 0
      invariant x.Value() % 2 == 1 || y.Value() % 2 == 1
      invariant SameDivisors(X, Y, x.Value(), y.Value())
      invariant sign > 0 <==> x.Value() > 0
      decreases x.Value() + y.Value()
    {
      GcdStep(x, y);
      sign := x.Signum();
    }
    forall c
      ensures Common(c, y.Value(), 0) <==> Common(c, X, Y)
    {
      assert Common(c, 0, y.Value()) <==> Common(c, X, Y);
    }
  }

  method GcdStep(x: BigInteger, y: BigInteger)
    requires x != y && x.Canonical() && y.Canonical() && x.Value() > 0 && y.Value() > 0
    requires x.Value() % 2 == 1 || y.Value() % 2 == 1
    modifies x, y
    ensures x.Canonical() && y.Canonical() && x.Value() >= 0 && y.Value() > 0
    ensures x.Value() % 2 == 1 || y.Value() % 2 == 1
    ensures SameDivisors(old(x.Value()), old(y.Value()), x.Value(), y.Value())
    ensures x.Value() + y.Value() < old(x.Value()) + old(y.Value())
  {
    hide Seg, P, SignLimb;
    ghost var X, Y := x.Value(), y.Value();
    StripTwos(x);
    StripTwos(y);
    ghost var u, v := x.Value(), y.Value();
    StripPair(X, Y, u, v);
    assert Pow2(1) == 2;
    NumSign(x.d, x.t, x.s);
    NumSign(y.d, y.t, y.s);
    var c := x.CompareTo(y);
    if c >= 0 {
      SubtractHalf(u, v);
      x.SubTo(y, x);
      RShiftTo(x, 1, x);
    } else {
      SubtractHalf(v, u);
      y.SubTo(x, y);
      RShiftTo(y, 1, y);
    }
  }

  /** Shifting out no more than the trailing zero bits. */
  lemma CommonTwos(x: int, i: nat, g: nat)
    requires x > 0 && LowestBit(x, i) && g <= i
    ensures x == x / Pow2(g) * Pow2(g) && x / Pow2(g) > 0
    ensures g == i ==> x / Pow2(g) % 2 == 1
  {
    var o := x / Pow2(i);
    ExactQuotient(x, o, Pow2(i));
    Pow2Add(i - g, g);
    TwosAlgebra(x, o, Pow2(i - g), Pow2(g));
  }

  lemma ExactQuotient(x: int, o: int, p: int)
    requires p > 0 && o == x / p && x % p == 0
    ensures x == o * p
  {
    Comm(p, o);
  }

  lemma TwosAlgebra(x: int, o: int, a: int, p: int)
    requires x == o * (a * p) && x > 0 && p > 0
    ensures x / p == o * a && x == x / p * p && x / p > 0
  {
    MulAssoc(o, a, p);
    DivUnique(x, p, o * a, 0);
    TooBigQuotient(o * a, p, x);
  }

  /** The rest of gcd, for x >= y >= 0. */
  method GcdOrdered(x: BigInteger, y: BigInteger) returns (r: BigInteger)
    requires x != y && x.Canonical() && y.Canonical() && x.Value() >= y.Value() >= 0
    modifies x, y
    ensures (r == x || r == y) && r.Canonical() && IsGcd(r.Value(), old(x.Value()), old(y.Value()))
  {
    ghost var X, Y := x.Value(), y.Value();
    var i := GetLowestSetBit(x);
    var g := GetLowestSetBit(y);
    if g < 0 {
      r := x;
      return;
    }
    var n := if i < g then i else g;
    CommonTwos(X, i, n);
    CommonTwos(Y, g, n);
    GcdScaled(x, y, n);
    r := y;
  }

  method GcdScaled(x: BigInteger, y: BigInteger, g: nat)
    requires x != y && x.Canonical() && y.Canonical()
    requires x.Value() == x.Value() / Pow2(g) * Pow2(g) && x.Value() / Pow2(g) >= 0
    requires y.Value() == y.Value() / Pow2(g) * Pow2(g) && y.Value() / Pow2(g) > 0
    requires x.Value() / Pow2(g) % 2 == 1 || y.Value() / Pow2(g) % 2 == 1
    modifies x, y
    ensures y.Canonical() && IsGcd(y.Value(), old(x.Value()), old(y.Value()))
  {
    ghost var u, v := x.Value() / Pow2(g), y.Value() / Pow2(g);
    if g > 0 {
      RShiftTo(x, g, x);
      RShiftTo(y, g, y);
    } else {
      assert Pow2(0) == 1;
    }
    GcdLoop(x, y);
    GcdShift(y.Value(), u, v, g);
    if g > 0 {
      LShiftTo(y, g, y);
    }
  }

  /** gcd: the greatest common divisor of the magnitudes, for every pair of numbers. */
  method GCD(x0: BigInteger, a: BigInteger) returns (r: BigInteger)
    requires x0.Canonical() && a.Canonical()
    ensures fresh(r) && r.Canonical() && r.Value() == Gcd(AbsInt(x0.Value()), AbsInt(a.Value()))
  {
    ghost var A, B := AbsInt(x0.Value()), AbsInt(a.Value());
    GcdIsGcd(A, B);
    var x := AbsCopy(x0);
    var y := AbsCopy(a);
    NumSign(x.d, x.t, x.s);
    NumSign(y.d, y.t, y.s);
    var c := x.CompareTo(y);
    if c < 0 {
      x, y := y, x;
    }
    ghost var u, v := x.Value(), y.Value();
    r := GcdOrdered(x, y);
    IsGcdSwap(r.Value(), u, v);
    GcdUnique(r.Value(), Gcd(A, B), A, B);
  }

  lemma IsGcdSwap(g: int, x: int, y: int)
    requires IsGcd(g, x, y)
    ensures IsGcd(g, y, x)
  {
    forall c
      ensures Common(c, g, 0) <==> Common(c, y, x)
    {
      assert Common(c, g, 0) <==> Common(c, x, y);
    }
  }
}
