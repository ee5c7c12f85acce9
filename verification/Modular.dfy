/** Congruence modulo a positive number, and powers. */
module Modular {
  import opened Limbs

  ghost predicate Cong(a: int, b: int, m: int)
    requires m > 0
  {
    (a - b) % m == 0
  }

  lemma CongIntro(a: int, b: int, m: int, k: int)
    requires m > 0 && a - b == k * m
    ensures Cong(a, b, m)
  {
    DivUnique(a - b, m, k, 0);
  }

  lemma CongWitness(a: int, b: int, m: int) returns (k: int)
    requires m > 0 && Cong(a, b, m)
    ensures a - b == k * m
  {
    k := (a - b) / m;
    assert a - b == m * k + (a - b) % m;
  }

  lemma CongRefl(a: int, m: int)
    requires m > 0
    ensures Cong(a, a, m)
  {
    CongIntro(a, a, m, 0);
  }

  lemma CongSym(a: int, b: int, m: int)
    requires m > 0 && Cong(a, b, m)
    ensures Cong(b, a, m)
  {
    var k := CongWitness(a, b, m);
    NegProduct(k, m);
    CongIntro(b, a, m, -k);
  }

  lemma NegProduct(k: int, m: int)
    ensures (-k) * m == -(k * m)
  {
  }

  lemma CongTrans(a: int, b: int, c: int, m: int)
    requires m > 0 && Cong(a, b, m) && Cong(b, c, m)
    ensures Cong(a, c, m)
  {
    var k := CongWitness(a, b, m);
    var l := CongWitness(b, c, m);
    SumProduct(k, l, m);
    CongIntro(a, c, m, k + l);
  }

  lemma SumProduct(k: int, l: int, m: int)
    ensures (k + l) * m == k * m + l * m
  {
  }

  lemma CongMul(a: int, b: int, c: int, d: int, m: int)
    requires m > 0 && Cong(a, b, m) && Cong(c, d, m)
    ensures Cong(a * c, b * d, m)
  {
    var k := CongWitness(a, b, m);
    var l := CongWitness(c, d, m);
    ProductWitness(a, b, c, d, m, k, l);
    CongIntro(a * c, b * d, m, a * l + k * d);
  }

  lemma ProductWitness(a: int, b: int, c: int, d: int, m: int, k: int, l: int)
    requires a - b == k * m && c - d == l * m
    ensures a * c - b * d == (a * l + k * d) * m
  {
    assert a * (c - d) == a * c - a * d;
    assert (a - b) * d == a * d - b * d;
    assert a * (l * m) == (a * l) * m;
    assert (k * m) * d == (k * d) * m;
    SumProduct(a * l, k * d, m);
  }

  /** The residue itself. */
  lemma CongMod(a: int, m: int)
    requires m > 0
    ensures 0 <= a % m < m && Cong(a % m, a, m)
  {
    assert a == m * (a / m) + a % m;
    Comm(m, a / m);
    NegProduct(a / m, m);
    CongIntro(a % m, a, m, -(a / m));
  }

  /** A residue is determined by its class. */
  lemma CongUnique(a: int, b: int, m: int)
    requires m > 0 && 0 <= a < m && Cong(a, b, m)
    ensures a == b % m
  {
    var k := CongWitness(a, b, m);
    NegProduct(k, m);
    DivUnique(b, m, -k, a);
  }

  function Pow(x: int, n: nat): int {
    if n == 0 then 1 else x * Pow(x, n - 1)
  }

  lemma {:induction false} PowAdd(x: int, a: nat, b: nat)
    ensures Pow(x, a + b) == Pow(x, a) * Pow(x, b)
  {
    if a > 0 {
      PowAdd(x, a - 1, b);
      MulAssoc(x, Pow(x, a - 1), Pow(x, b));
      assert Pow(x, a + b) == x * Pow(x, a - 1 + b);
    }
  }

  lemma {:induction false} PowCong(x: int, y: int, n: nat, m: int)
    requires m > 0 && Cong(x, y, m)
    ensures Cong(Pow(x, n), Pow(y, n), m)
  {
    if n == 0 {
      CongRefl(1, m);
    } else {
      PowCong(x, y, n - 1, m);
      CongMul(x, y, Pow(x, n - 1), Pow(y, n - 1), m);
    }
  }

  lemma {:induction false} PowOne(n: nat)
    ensures Pow(1, n) == 1
  {
    if n > 0 {
      PowOne(n - 1);
    }
  }

  lemma {:induction false} PowProduct(x: int, y: int, n: nat)
    ensures Pow(x * y, n) == Pow(x, n) * Pow(y, n)
  {
    if n > 0 {
      PowProduct(x, y, n - 1);
      var u, v := Pow(x, n - 1), Pow(y, n - 1);
      Shuffle(x, y, u, v);
    }
  }

  lemma Shuffle(x: int, y: int, u: int, v: int)
    ensures (x * y) * (u * v) == (x * u) * (y * v)
  {
    MulAssoc(x, y, u * v);
    MulAssoc(y, u, v);
    MulAssoc(x, u, y * v);
    assert y * (u * v) == u * (y * v) by { Comm(y, u); MulAssoc(u, y, v); }
  }

}
