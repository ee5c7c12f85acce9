/** JavaScript's number operators on integers, restricted to the ranges where they are exact.
    Every precondition here is a machine bound that the callers have to prove. */
module JsNumber {

  // Doubles represent every integer of smaller magnitude exactly.
  const SAFE: int := 0x20_0000_0000_0000

  predicate IsInt32(v: int) {
    -0x8000_0000 <= v < 0x8000_0000
  }

  /** v & (m - 1), for m a power of two up to 2^31. The operands are truncated to 32 bits first,
      which keeps the low bits of any exactly represented integer. */
  function Mask(v: int, m: int): int
    requires -SAFE < v < SAFE
    requires 0 < m <= 0x8000_0000
  {
    v % m
  }

  /** v >> k, for m == 2^k: the arithmetic shift rounds down. */
  function Shr(v: int, m: int): int
    requires IsInt32(v)
    requires 0 < m
  {
    v / m
  }

  /** v >>> k, for m == 2^k. */
  function Ushr(v: int, m: int): int
    requires 0 <= v < 0x1_0000_0000
    requires 0 < m
  {
    v / m
  }

  /** v << k, for m == 2^k, where no bit is lost. */
  function Shl(v: int, m: int): int
    requires 0 < m
    requires IsInt32(v) && IsInt32(v * m)
  {
    v * m
  }

  /** Math.floor(v / m), for m a power of two: the quotient of two exact doubles is exact. */
  function FloorDiv(v: int, m: int): int
    requires -SAFE < v < SAFE
    requires 0 < m
  {
    v / m
  }

  /** v & m, for m a power of two. */
  function Bit(v: int, m: int): int
    requires IsInt32(v)
    requires 0 < m <= 0x8000_0000
  {
    if v / m % 2 == 1 then m else 0
  }

  /** x | y, bit by bit. */
  function Or(x: nat, y: nat): nat
  {
    if x == 0 && y == 0 then 0
    else (if x % 2 == 1 || y % 2 == 1 then 1 else 0) + 2 * Or(x / 2, y / 2)
  }

  function Pow2(n: nat): (p: int)
    ensures p >= 1
  {
    if n == 0 then 1 else 2 * Pow2(n - 1)
  }

  lemma Pow2Add(a: nat, b: nat)
    ensures Pow2(a + b) == Pow2(a) * Pow2(b)
  {
    if a > 0 {
      Pow2Add(a - 1, b);
      assert Pow2(a + b) == 2 * Pow2(a - 1 + b);
    }
  }

  lemma SmallPowers()
    ensures Pow2(0) == 1 && Pow2(1) == 2 && Pow2(2) == 4 && Pow2(4) == 16 && Pow2(6) == 64 && Pow2(8) == 256
    ensures Pow2(16) == 0x1_0000
  {
    assert Pow2(3) == 8 && Pow2(5) == 32 && Pow2(7) == 128;
    Pow2Add(8, 8);
  }

  lemma Pow2Mono(a: nat, b: nat)
    requires a <= b
    ensures Pow2(a) <= Pow2(b)
  {
    if a < b {
      Pow2Mono(a, b - 1);
    }
  }

  lemma {:induction false} OrZero(x: nat)
    ensures Or(x, 0) == x
    ensures Or(0, x) == x
  {
    if x > 0 {
      OrZero(x / 2);
    }
  }

  /** Operands with no bit in common are added. */
  lemma {:induction false} OrDisjoint(h: nat, l: nat, k: nat)
    requires l < Pow2(k)
    ensures Or(h * Pow2(k), l) == h * Pow2(k) + l
    ensures Or(l, h * Pow2(k)) == h * Pow2(k) + l
    decreases k
  {
    if k == 0 {
      OrZero(h);
    } else {
      var x := h * Pow2(k);
      assert x == 2 * (h * Pow2(k - 1));
      assert x % 2 == 0 && x / 2 == h * Pow2(k - 1);
      OrDisjoint(h, l / 2, k - 1);
      if x == 0 && l == 0 {
      } else {
        assert Or(x, l) == l % 2 + 2 * Or(x / 2, l / 2);
        assert Or(l, x) == l % 2 + 2 * Or(l / 2, x / 2);
      }
    }
  }
}
