/** Bytes as elements of the field of AES: addition is exclusive or, and multiplication by x reduces with 0x11b. */
module ByteField {
  import opened JsNumber

  type Byte = n: int | 0 <= n < 256 witness 0

  /** The ^ operator. */
  function Xor(a: nat, b: nat): nat
    decreases a + b
  {
    if a == 0 && b == 0 then 0
    else (if a % 2 == b % 2 then 0 else 1) + 2 * Xor(a / 2, b / 2)
  }

  function HasBit(a: nat, k: nat): bool
    decreases k
  {
    if k == 0 then a % 2 == 1 else HasBit(a / 2, k - 1)
  }

  lemma {:induction false} XorBelow(a: nat, b: nat, n: nat)
    requires a < Pow2(n) && b < Pow2(n)
    ensures Xor(a, b) < Pow2(n)
  {
    if n > 0 {
      XorBelow(a / 2, b / 2, n - 1);
    }
  }

  lemma {:induction false} XorBit(a: nat, b: nat, k: nat)
    ensures HasBit(Xor(a, b), k) == (HasBit(a, k) != HasBit(b, k))
    decreases k
  {
    XorHalves(a, b);
    if k > 0 {
      XorBit(a / 2, b / 2, k - 1);
    }
  }

  lemma XorHalves(a: nat, b: nat)
    ensures Xor(a, b) / 2 == Xor(a / 2, b / 2) && Xor(a, b) % 2 == if a % 2 == b % 2 then 0 else 1
  {
    assert Xor(0, 0) == 0;
  }

  lemma {:induction false} SameBits(a: nat, b: nat, n: nat)
    requires a < Pow2(n) && b < Pow2(n) && forall k :: 0 <= k < n ==> HasBit(a, k) == HasBit(b, k)
    ensures a == b
  {
    if n > 0 {
      assert HasBit(a, 0) == HasBit(b, 0);
      forall k | 0 <= k < n - 1 ensures HasBit(a / 2, k) == HasBit(b / 2, k) {
        assert HasBit(a, k + 1) == HasBit(b, k + 1);
      }
      SameBits(a / 2, b / 2, n - 1);
    }
  }

  lemma Pow2Eight()
    ensures Pow2(8) == 256 && Pow2(7) == 128
  {
    assert Pow2(4) == 16;
  }

  /** Addition in the field, section 4.1 of FIPS 197. */
  function Add(a: Byte, b: Byte): Byte {
    Pow2Eight();
    XorBelow(a, b, 8);
    Xor(a, b)
  }

  lemma AddBits()
    ensures forall a: Byte, b: Byte, k: nat :: HasBit(Add(a, b), k) == (HasBit(a, k) != HasBit(b, k))
  {
    forall a: Byte, b: Byte, k: nat ensures HasBit(Add(a, b), k) == (HasBit(a, k) != HasBit(b, k)) {
      XorBit(a, b, k);
    }
  }

  lemma ByBits(a: Byte, b: Byte)
    requires forall k: nat :: k < 8 ==> HasBit(a, k) == HasBit(b, k)
    ensures a == b
  {
    Pow2Eight();
    SameBits(a, b, 8);
  }

  lemma {:induction false} TopBit(a: nat, n: nat)
    requires a < 2 * Pow2(n)
    ensures HasBit(a, n) <==> a >= Pow2(n)
  {
    if n > 0 {
      TopBit(a / 2, n - 1);
    }
  }

  lemma {:induction false} LowBit(a: nat, n: nat, k: nat)
    requires k < n
    ensures HasBit(Pow2(n) + a, k) == HasBit(a, k)
    decreases n
  {
    if k > 0 {
      assert (Pow2(n) + a) / 2 == Pow2(n - 1) + a / 2;
      LowBit(a / 2, n - 1, k - 1);
    }
  }

  /** Multiplication by x, section 4.2.1 of FIPS 197. */
  function Xtime(b: Byte): Byte {
    if b < 128 then 2 * b else Add(2 * b - 256, 0x1b)
  }

  /** A shift, and 0x1b added when a bit was shifted out. */
  lemma XtimeBit(b: Byte, k: nat)
    requires k < 8
    ensures HasBit(Xtime(b), k) == ((k > 0 && HasBit(b, k - 1)) != (HasBit(b, 7) && HasBit(0x1b, k)))
  {
    HighBit(b);
    if b < 128 {
      ShiftBit(b, k);
    } else {
      ShiftOutBit(b - 128, k);
      AddBit(2 * b - 256, 0x1b, k);
    }
  }

  lemma HighBit(b: Byte)
    ensures HasBit(b, 7) <==> b >= 128
  {
    Pow2Eight();
    TopBit(b, 7);
  }

  lemma ShiftOutBit(i: nat, k: nat)
    requires k < 8
    ensures HasBit(2 * i, k) == (k > 0 && HasBit(128 + i, k - 1))
  {
    Pow2Eight();
    ShiftBit(i, k);
    if k > 0 {
      LowBit(i, 7, k - 1);
    }
  }

  lemma AddBit(a: Byte, b: Byte, k: nat)
    ensures HasBit(Add(a, b), k) == (HasBit(a, k) != HasBit(b, k))
  {
    XorBit(a, b, k);
  }

  lemma ShiftBit(a: nat, k: nat)
    ensures HasBit(2 * a, k) == (k > 0 && HasBit(a, k - 1))
  {
  }

  /** Multiplication by x distributes over addition. */
  lemma XtimeLinear(a: Byte, b: Byte)
    ensures Xtime(Add(a, b)) == Add(Xtime(a), Xtime(b))
  {
    AddBits();
    forall k: nat | k < 8 ensures HasBit(Xtime(Add(a, b)), k) == HasBit(Add(Xtime(a), Xtime(b)), k) {
      XtimeBit(a, k);
      XtimeBit(b, k);
      XtimeBit(Add(a, b), k);
    }
    ByBits(Xtime(Add(a, b)), Add(Xtime(a), Xtime(b)));
  }

  lemma AddTwice(a: Byte, b: Byte)
    ensures Add(Add(a, b), b) == a
  {
    AddBits();
    ByBits(Add(Add(a, b), b), a);
  }
}
