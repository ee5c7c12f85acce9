/** The substitution table of AES is the one of section 5.1.1 of FIPS 197: the inverse in the field, and
    then an affine map of its bits. */
module SubstitutionLaw {
  import opened ByteField
  import opened SubstitutionTable

  /** Multiplication in the field, section 4.2 of FIPS 197: b as a polynomial, by Horner's rule. */
  function Product(a: Byte, b: nat): Byte {
    if b == 0 then 0 else Add(Xtime(Product(a, b / 2)), if b % 2 == 1 then a else 0)
  }

  /** The inverse in the field; zero stands for its own. */
  predicate IsInverse(x: Byte, y: Byte) {
    if x == 0 then y == 0 else Product(x, y) == 1
  }

  // Modulo 8.
  function Around(i: nat): nat {
    if i < 8 then i else i - 8
  }

  // The exclusive or of five bits and a constant one.
  predicate AffineBit(y: Byte, i: nat) {
    ((((HasBit(y, i) != HasBit(y, Around(i + 4))) != HasBit(y, Around(i + 5))) != HasBit(y, Around(i + 6)))
      != HasBit(y, Around(i + 7))) != HasBit(0x63, i)
  }

  /** The affine map, formula 5.1 of FIPS 197. */
  predicate IsAffine(y: Byte, s: Byte) {
    forall i :: 0 <= i < 8 ==> HasBit(s, i) == AffineBit(y, i)
  }

  /** s stands for x in SubBytes. */
  ghost predicate IsSubstitute(x: Byte, s: Byte) {
    exists y: Byte :: IsInverse(x, y) && IsAffine(y, s)
  }

  // A byte by its bits, the highest first, in which products are cheap to work out.
  datatype Bits = Bits(h: bool, g: bool, f: bool, e: bool, d: bool, c: bool, b: bool, a: bool)

  const ZERO := Bits(false, false, false, false, false, false, false, false)
  const ONE := Bits(false, false, false, false, false, false, false, true)

  function BitsOf(n: Byte): Bits {
    Bits(HasBit(n, 7), HasBit(n, 6), HasBit(n, 5), HasBit(n, 4), HasBit(n, 3), HasBit(n, 2), HasBit(n, 1), HasBit(n, 0))
  }

  function ByteOf(p: Bits): Byte {
    (if p.h then 128 else 0) + (if p.g then 64 else 0) + (if p.f then 32 else 0) + (if p.e then 16 else 0)
    + (if p.d then 8 else 0) + (if p.c then 4 else 0) + (if p.b then 2 else 0) + (if p.a then 1 else 0)
  }

  // The bits of a literal.
  function Literal(v: bv8): Bits {
    Bits(v & 0x80 != 0, v & 0x40 != 0, v & 0x20 != 0, v & 0x10 != 0, v & 8 != 0, v & 4 != 0, v & 2 != 0, v & 1 != 0)
  }

  function Plus(p: Bits, q: Bits): Bits {
    Bits(p.h != q.h, p.g != q.g, p.f != q.f, p.e != q.e, p.d != q.d, p.c != q.c, p.b != q.b, p.a != q.a)
  }

  function Shift(p: Bits): Bits {
    Bits(p.g, p.f, p.e, p.d != p.h, p.c != p.h, p.b, p.a != p.h, p.h)
  }

  function Horner(p: Bits, a: Bits, bit: bool): Bits {
    if bit then Plus(Shift(p), a) else Shift(p)
  }

  function Times(a: Bits, b: Bits): Bits {
    Horner(Horner(Horner(Horner(Horner(Horner(Horner(Horner(
      ZERO, a, b.h), a, b.g), a, b.f), a, b.e), a, b.d), a, b.c), a, b.b), a, b.a)
  }

  function Affine(p: Bits): Bits {
    Bits(((((p.h != p.d) != p.e) != p.f) != p.g), (((((p.g != p.c) != p.d) != p.e) != p.f) != true),
         (((((p.f != p.b) != p.c) != p.d) != p.e) != true), ((((p.e != p.a) != p.b) != p.c) != p.d),
         ((((p.d != p.h) != p.a) != p.b) != p.c), ((((p.c != p.g) != p.h) != p.a) != p.b),
         (((((p.b != p.f) != p.g) != p.h) != p.a) != true), (((((p.a != p.e) != p.f) != p.g) != p.h) != true))
  }

  /** Equal bits, equal bytes. */
  lemma BitsDiffer(m: Byte, n: Byte)
    requires BitsOf(m) == BitsOf(n)
    ensures m == n
  {
    forall k: nat | k < 8 ensures HasBit(m, k) == HasBit(n, k) {
      assert k == 0 || k == 1 || k == 2 || k == 3 || k == 4 || k == 5 || k == 6 || k == 7;
    }
    ByBits(m, n);
  }

  lemma PlusIsAdd(m: Byte, n: Byte)
    ensures BitsOf(Add(m, n)) == Plus(BitsOf(m), BitsOf(n))
  {
    hide HasBit;
    AddBits();
  }

  lemma ConstantBits()
    ensures BitsOf(0x1b) == Bits(false, false, false, true, true, false, true, true)
    ensures BitsOf(0x63) == Bits(false, true, true, false, false, false, true, true)
    ensures BitsOf(0) == ZERO && BitsOf(1) == ONE
  {
    ByteOfBits(Bits(false, false, false, true, true, false, true, true));
    ByteOfBits(Bits(false, true, true, false, false, false, true, true));
    ByteOfBits(ZERO);
    ByteOfBits(ONE);
  }

  lemma LowestBit(n: nat, m: nat, bit: bool)
    requires n == 2 * m + if bit then 1 else 0
    ensures HasBit(n, 0) == bit && HasBit(n, 1) == HasBit(m, 0) && HasBit(n, 2) == HasBit(m, 1)
    ensures HasBit(n, 3) == HasBit(m, 2) && HasBit(n, 4) == HasBit(m, 3) && HasBit(n, 5) == HasBit(m, 4)
    ensures HasBit(n, 6) == HasBit(m, 5) && HasBit(n, 7) == HasBit(m, 6)
  {
    assert n / 2 == m && n % 2 == if bit then 1 else 0;
  }

  lemma ByteOfBits(p: Bits)
    ensures BitsOf(ByteOf(p)) == p
  {
    hide HasBit;
    var m7: nat := if p.h then 1 else 0;
    var m6: nat := 2 * m7 + if p.g then 1 else 0;
    var m5: nat := 2 * m6 + if p.f then 1 else 0;
    var m4: nat := 2 * m5 + if p.e then 1 else 0;
    var m3: nat := 2 * m4 + if p.d then 1 else 0;
    var m2: nat := 2 * m3 + if p.c then 1 else 0;
    var m1: nat := 2 * m2 + if p.b then 1 else 0;
    assert ByteOf(p) == 2 * m1 + if p.a then 1 else 0;
    LowestBit(ByteOf(p), m1, p.a);
    LowestBit(m1, m2, p.b);
    LowestBit(m2, m3, p.c);
    LowestBit(m3, m4, p.d);
    LowestBit(m4, m5, p.e);
    LowestBit(m5, m6, p.f);
    LowestBit(m6, m7, p.g);
    LowestBit(m7, 0, p.h);
  }

  lemma ShiftIsXtime(n: Byte)
    ensures BitsOf(Xtime(n)) == Shift(BitsOf(n))
  {
    hide HasBit, Xtime;
    ConstantBits();
    XtimeBit(n, 0);
    XtimeBit(n, 1);
    XtimeBit(n, 2);
    XtimeBit(n, 3);
    XtimeBit(n, 4);
    XtimeBit(n, 5);
    XtimeBit(n, 6);
    XtimeBit(n, 7);
  }

  lemma HornerStep(a: Byte, b: nat)
    ensures BitsOf(Product(a, b)) == Horner(BitsOf(Product(a, b / 2)), BitsOf(a), b % 2 == 1)
  {
    hide HasBit, Xtime;
    ConstantBits();
    ShiftIsXtime(Product(a, b / 2));
    PlusIsAdd(Xtime(Product(a, b / 2)), if b % 2 == 1 then a else 0);
  }

  lemma TimesIsProduct(a: Byte, b: Byte)
    ensures BitsOf(Product(a, b)) == Times(BitsOf(a), BitsOf(b))
  {
    hide Horner, Product;
    var b1 := b / 2;
    var b2 := b1 / 2;
    var b3 := b2 / 2;
    var b4 := b3 / 2;
    var b5 := b4 / 2;
    var b6 := b5 / 2;
    var b7 := b6 / 2;
    HornerStep(a, b);
    HornerStep(a, b1);
    HornerStep(a, b2);
    HornerStep(a, b3);
    HornerStep(a, b4);
    HornerStep(a, b5);
    HornerStep(a, b6);
    HornerStep(a, b7);
    assert b7 / 2 == 0;
    NoProduct(a);
  }

  lemma NoProduct(a: Byte)
    ensures BitsOf(Product(a, 0)) == ZERO
  {
    ConstantBits();
  }

  lemma AffineBits(y: Byte, s: Byte)
    requires BitsOf(s) == Affine(BitsOf(y))
    ensures IsAffine(y, s)
  {
    hide HasBit, AffineBit;
    AffineBits0(y, s);
    AffineBits2(y, s);
    AffineBits4(y, s);
    AffineBits6(y, s);
    forall i | 0 <= i < 8 ensures HasBit(s, i) == AffineBit(y, i) {
      assert i == 0 || i == 1 || i == 2 || i == 3 || i == 4 || i == 5 || i == 6 || i == 7;
    }
  }

  lemma AffineConstant()
    ensures HasBit(0x63, 0) && HasBit(0x63, 1) && !HasBit(0x63, 2) && !HasBit(0x63, 3)
    ensures !HasBit(0x63, 4) && HasBit(0x63, 5) && HasBit(0x63, 6) && !HasBit(0x63, 7)
  {
    hide HasBit;
    ConstantBits();
  }

  lemma AffineBits0(y: Byte, s: Byte)
    requires BitsOf(s) == Affine(BitsOf(y))
    ensures HasBit(s, 0) == AffineBit(y, 0) && HasBit(s, 1) == AffineBit(y, 1)
  {
    hide HasBit;
    AffineConstant();
  }

  lemma AffineBits2(y: Byte, s: Byte)
    requires BitsOf(s) == Affine(BitsOf(y))
    ensures HasBit(s, 2) == AffineBit(y, 2) && HasBit(s, 3) == AffineBit(y, 3)
  {
    hide HasBit;
    AffineConstant();
  }

  lemma AffineBits4(y: Byte, s: Byte)
    requires BitsOf(s) == Affine(BitsOf(y))
    ensures HasBit(s, 4) == AffineBit(y, 4) && HasBit(s, 5) == AffineBit(y, 5)
  {
    hide HasBit;
    AffineConstant();
  }

  lemma AffineBits6(y: Byte, s: Byte)
    requires BitsOf(s) == Affine(BitsOf(y))
    ensures HasBit(s, 6) == AffineBit(y, 6) && HasBit(s, 7) == AffineBit(y, 7)
  {
    hide HasBit;
    AffineConstant();
  }

  // The same operations on literals.
  function HornerBv(p: bv8, a: bv8, bit: bool): bv8 {
    var q := if p & 0x80 != 0 then (p << 1) ^ 0x1b else p << 1;
    if bit then q ^ a else q
  }

  function TimesBv(a: bv8, b: bv8): bv8 {
    HornerBv(HornerBv(HornerBv(HornerBv(HornerBv(HornerBv(HornerBv(HornerBv(
      0, a, b & 0x80 != 0), a, b & 0x40 != 0), a, b & 0x20 != 0), a, b & 0x10 != 0),
      a, b & 8 != 0), a, b & 4 != 0), a, b & 2 != 0), a, b & 1 != 0)
  }

  function TurnBv(v: bv8): bv8 {
    (v << 1) | (v >> 7)
  }

  function AffineBv(v: bv8): bv8 {
    var v1 := TurnBv(v);
    var v2 := TurnBv(v1);
    var v3 := TurnBv(v2);
    v ^ v1 ^ v2 ^ v3 ^ TurnBv(v3) ^ 0x63
  }

  lemma HornerLiteral(p: bv8, a: bv8, bit: bool)
    ensures Literal(HornerBv(p, a, bit)) == Horner(Literal(p), Literal(a), bit)
  {
  }

  lemma TimesLiteral(a: bv8, b: bv8)
    ensures Literal(TimesBv(a, b)) == Times(Literal(a), Literal(b))
  {
    hide HornerBv, Horner;
    var p7 := HornerBv(0, a, b & 0x80 != 0);
    var p6 := HornerBv(p7, a, b & 0x40 != 0);
    var p5 := HornerBv(p6, a, b & 0x20 != 0);
    var p4 := HornerBv(p5, a, b & 0x10 != 0);
    var p3 := HornerBv(p4, a, b & 8 != 0);
    var p2 := HornerBv(p3, a, b & 4 != 0);
    var p1 := HornerBv(p2, a, b & 2 != 0);
    HornerLiteral(0, a, b & 0x80 != 0);
    HornerLiteral(p7, a, b & 0x40 != 0);
    HornerLiteral(p6, a, b & 0x20 != 0);
    HornerLiteral(p5, a, b & 0x10 != 0);
    HornerLiteral(p4, a, b & 8 != 0);
    HornerLiteral(p3, a, b & 4 != 0);
    HornerLiteral(p2, a, b & 2 != 0);
    HornerLiteral(p1, a, b & 1 != 0);
  }

  lemma AffineLiteral(v: bv8)
    ensures Literal(AffineBv(v)) == Affine(Literal(v))
  {
  }

  /** What is to be worked out for one entry: y is the inverse of x, and s its affine image. */
  lemma Entry(n: Byte, x: bv8, y: bv8, s: nat)
    requires ByteOf(Literal(x)) == n && TimesBv(x, y) == 1 && s == ByteOf(Literal(AffineBv(y)))
    ensures s < 256 && IsSubstitute(n, s)
  {
    hide ByteOf, TimesBv, AffineBv, Times, Affine, IsSubstitute;
    TimesLiteral(x, y);
    AffineLiteral(y);
    EntryBits(n, ByteOf(Literal(y)), s, Literal(x), Literal(y));
  }

  lemma EntryBits(n: Byte, m: Byte, s: Byte, p: Bits, q: Bits)
    requires n == ByteOf(p) && m == ByteOf(q) && s == ByteOf(Affine(q)) && Times(p, q) == ONE
    ensures IsSubstitute(n, s)
  {
    hide ByteOf, BitsOf, Affine, Times, Product;
    ByteOfBits(p);
    ByteOfBits(q);
    ByteOfBits(Affine(q));
    ConstantBits();
    TimesIsProduct(n, m);
    BitsDiffer(Product(n, m), 1);
    AffineBits(m, s);
    NotZero(n, m);
    assert IsInverse(n, m);
  }

  lemma NotZero(n: Byte, m: Byte)
    requires Product(n, m) == 1
    ensures n != 0
  {
    if n == 0 {
      ZeroProduct(m);
      assert false;
    }
  }

  lemma {:induction false} ZeroProduct(b: nat)
    ensures Product(0, b) == 0
  {
    if b > 0 {
      ZeroProduct(b / 2);
      ZeroSum();
    }
  }

  lemma ZeroSum()
    ensures Add(0, 0) == 0 && Xtime(0) == 0
  {
  }

  lemma ZeroEntry()
    ensures IsSubstitute(0, Sub0(0))
  {
    hide HasBit;
    ConstantBits();
    AffineBits(0, 0x63);
    assert IsInverse(0, 0);
  }

  lemma Row0Low(c: nat)
    requires c < 8
    ensures IsSubstitute(0 + c, Sub0(c))
  {
    hide IsSubstitute, HasBit, Product, BitsOf, Times, Affine;
    match c
    case 0 => ZeroEntry(); case 1 => Entry(1, 0x01, 0x01, Sub0(1));
    case 2 => Entry(2, 0x02, 0x8d, Sub0(2)); case 3 => Entry(3, 0x03, 0xf6, Sub0(3));
    case 4 => Entry(4, 0x04, 0xcb, Sub0(4)); case 5 => Entry(5, 0x05, 0x52, Sub0(5));
    case 6 => Entry(6, 0x06, 0x7b, Sub0(6)); case _ => Entry(7, 0x07, 0xd1, Sub0(7));
  }

  lemma Row0High(c: nat)
    requires 8 <= c < 16
    ensures IsSubstitute(0 + c, Sub0(c))
  {
    hide IsSubstitute, HasBit, Product, BitsOf, Times, Affine;
    match c
    case 8 => Entry(8, 0x08, 0xe8, Sub0(8)); case 9 => Entry(9, 0x09, 0x4f, Sub0(9));
    case 10 => Entry(10, 0x0a, 0x29, Sub0(10)); case 11 => Entry(11, 0x0b, 0xc0, Sub0(11));
    case 12 => Entry(12, 0x0c, 0xb0, Sub0(12)); case 13 => Entry(13, 0x0d, 0xe1, Sub0(13));
    case 14 => Entry(14, 0x0e, 0xe5, Sub0(14)); case _ => Entry(15, 0x0f, 0xc7, Sub0(15));
  }

  lemma Row1Low(c: nat)
    requires c < 8
    ensures IsSubstitute(16 + c, Sub1(c))
  {
    hide IsSubstitute, HasBit, Product, BitsOf, Times, Affine;
    match c
    case 0 => Entry(16, 0x10, 0x74, Sub1(0)); case 1 => Entry(17, 0x11, 0xb4, Sub1(1));
    case 2 => Entry(18, 0x12, 0xaa, Sub1(2)); case 3 => Entry(19, 0x13, 0x4b, Sub1(3));
    case 4 => Entry(20, 0x14, 0x99, Sub1(4)); case 5 => Entry(21, 0x15, 0x2b, Sub1(5));
    case 6 => Entry(22, 0x16, 0x60, Sub1(6)); case _ => Entry(23, 0x17, 0x5f, Sub1(7));
  }

  lemma Row1High(c: nat)
    requires 8 <= c < 16
    ensures IsSubstitute(16 + c, Sub1(c))
  {
    hide IsSubstitute, HasBit, Product, BitsOf, Times, Affine;
    match c
    case 8 => Entry(24, 0x18, 0x58, Sub1(8)); case 9 => Entry(25, 0x19, 0x3f, Sub1(9));
    case 10 => Entry(26, 0x1a, 0xfd, Sub1(10)); case 11 => Entry(27, 0x1b, 0xcc, Sub1(11));
    case 12 => Entry(28, 0x1c, 0xff, Sub1(12)); case 13 => Entry(29, 0x1d, 0x40, Sub1(13));
    case 14 => Entry(30, 0x1e, 0xee, Sub1(14)); case _ => Entry(31, 0x1f, 0xb2, Sub1(15));
  }

  lemma Row2Low(c: nat)
    requires c < 8
    ensures IsSubstitute(32 + c, Sub2(c))
  {
    hide IsSubstitute, HasBit, Product, BitsOf, Times, Affine;
    match c
    case 0 => Entry(32, 0x20, 0x3a, Sub2(0)); case 1 => Entry(33, 0x21, 0x6e, Sub2(1));
    case 2 => Entry(34, 0x22, 0x5a, Sub2(2)); case 3 => Entry(35, 0x23, 0xf1, Sub2(3));
    case 4 => Entry(36, 0x24, 0x55, Sub2(4)); case 5 => Entry(37, 0x25, 0x4d, Sub2(5));
    case 6 => Entry(38, 0x26, 0xa8, Sub2(6)); case _ => Entry(39, 0x27, 0xc9, Sub2(7));
  }

  lemma Row2High(c: nat)
    requires 8 <= c < 16
    ensures IsSubstitute(32 + c, Sub2(c))
  {
    hide IsSubstitute, HasBit, Product, BitsOf, Times, Affine;
    match c
    case 8 => Entry(40, 0x28, 0xc1, Sub2(8)); case 9 => Entry(41, 0x29, 0x0a, Sub2(9));
    case 10 => Entry(42, 0x2a, 0x98, Sub2(10)); case 11 => Entry(43, 0x2b, 0x15, Sub2(11));
    case 12 => Entry(44, 0x2c, 0x30, Sub2(12)); case 13 => Entry(45, 0x2d, 0x44, Sub2(13));
    case 14 => Entry(46, 0x2e, 0xa2, Sub2(14)); case _ => Entry(47, 0x2f, 0xc2, Sub2(15));
  }

  lemma Row3Low(c: nat)
    requires c < 8
    ensures IsSubstitute(48 + c, Sub3(c))
  {
    hide IsSubstitute, HasBit, Product, BitsOf, Times, Affine;
    match c
    case 0 => Entry(48, 0x30, 0x2c, Sub3(0)); case 1 => Entry(49, 0x31, 0x45, Sub3(1));
    case 2 => Entry(50, 0x32, 0x92, Sub3(2)); case 3 => Entry(51, 0x33, 0x6c, Sub3(3));
    case 4 => Entry(52, 0x34, 0xf3, Sub3(4)); case 5 => Entry(53, 0x35, 0x39, Sub3(5));
    case 6 => Entry(54, 0x36, 0x66, Sub3(6)); case _ => Entry(55, 0x37, 0x42, Sub3(7));
  }

  lemma Row3High(c: nat)
    requires 8 <= c < 16
    ensures IsSubstitute(48 + c, Sub3(c))
  {
    hide IsSubstitute, HasBit, Product, BitsOf, Times, Affine;
    match c
    case 8 => Entry(56, 0x38, 0xf2, Sub3(8)); case 9 => Entry(57, 0x39, 0x35, Sub3(9));
    case 10 => Entry(58, 0x3a, 0x20, Sub3(10)); case 11 => Entry(59, 0x3b, 0x6f, Sub3(11));
    case 12 => Entry(60, 0x3c, 0x77, Sub3(12)); case 13 => Entry(61, 0x3d, 0xbb, Sub3(13));
    case 14 => Entry(62, 0x3e, 0x59, Sub3(14)); case _ => Entry(63, 0x3f, 0x19, Sub3(15));
  }

  lemma Row4Low(c: nat)
    requires c < 8
    ensures IsSubstitute(64 + c, Sub4(c))
  {
    hide IsSubstitute, HasBit, Product, BitsOf, Times, Affine;
    match c
    case 0 => Entry(64, 0x40, 0x1d, Sub4(0)); case 1 => Entry(65, 0x41, 0xfe, Sub4(1));
    case 2 => Entry(66, 0x42, 0x37, Sub4(2)); case 3 => Entry(67, 0x43, 0x67, Sub4(3));
    case 4 => Entry(68, 0x44, 0x2d, Sub4(4)); case 5 => Entry(69, 0x45, 0x31, Sub4(5));
    case 6 => Entry(70, 0x46, 0xf5, Sub4(6)); case _ => Entry(71, 0x47, 0x69, Sub4(7));
  }

  lemma Row4High(c: nat)
    requires 8 <= c < 16
    ensures IsSubstitute(64 + c, Sub4(c))
  {
    hide IsSubstitute, HasBit, Product, BitsOf, Times, Affine;
    match c
    case 8 => Entry(72, 0x48, 0xa7, Sub4(8)); case 9 => Entry(73, 0x49, 0x64, Sub4(9));
    case 10 => Entry(74, 0x4a, 0xab, Sub4(10)); case 11 => Entry(75, 0x4b, 0x13, Sub4(11));
    case 12 => Entry(76, 0x4c, 0x54, Sub4(12)); case 13 => Entry(77, 0x4d, 0x25, Sub4(13));
    case 14 => Entry(78, 0x4e, 0xe9, Sub4(14)); case _ => Entry(79, 0x4f, 0x09, Sub4(15));
  }

  lemma Row5Low(c: nat)
    requires c < 8
    ensures IsSubstitute(80 + c, Sub5(c))
  {
    hide IsSubstitute, HasBit, Product, BitsOf, Times, Affine;
    match c
    case 0 => Entry(80, 0x50, 0xed, Sub5(0)); case 1 => Entry(81, 0x51, 0x5c, Sub5(1));
    case 2 => Entry(82, 0x52, 0x05, Sub5(2)); case 3 => Entry(83, 0x53, 0xca, Sub5(3));
    case 4 => Entry(84, 0x54, 0x4c, Sub5(4)); case 5 => Entry(85, 0x55, 0x24, Sub5(5));
    case 6 => Entry(86, 0x56, 0x87, Sub5(6)); case _ => Entry(87, 0x57, 0xbf, Sub5(7));
  }

  lemma Row5High(c: nat)
    requires 8 <= c < 16
    ensures IsSubstitute(80 + c, Sub5(c))
  {
    hide IsSubstitute, HasBit, Product, BitsOf, Times, Affine;
    match c
    case 8 => Entry(88, 0x58, 0x18, Sub5(8)); case 9 => Entry(89, 0x59, 0x3e, Sub5(9));
    case 10 => Entry(90, 0x5a, 0x22, Sub5(10)); case 11 => Entry(91, 0x5b, 0xf0, Sub5(11));
    case 12 => Entry(92, 0x5c, 0x51, Sub5(12)); case 13 => Entry(93, 0x5d, 0xec, Sub5(13));
    case 14 => Entry(94, 0x5e, 0x61, Sub5(14)); case _ => Entry(95, 0x5f, 0x17, Sub5(15));
  }

  lemma Row6Low(c: nat)
    requires c < 8
    ensures IsSubstitute(96 + c, Sub6(c))
  {
    hide IsSubstitute, HasBit, Product, BitsOf, Times, Affine;
    match c
    case 0 => Entry(96, 0x60, 0x16, Sub6(0)); case 1 => Entry(97, 0x61, 0x5e, Sub6(1));
    case 2 => Entry(98, 0x62, 0xaf, Sub6(2)); case 3 => Entry(99, 0x63, 0xd3, Sub6(3));
    case 4 => Entry(100, 0x64, 0x49, Sub6(4)); case 5 => Entry(101, 0x65, 0xa6, Sub6(5));
    case 6 => Entry(102, 0x66, 0x36, Sub6(6)); case _ => Entry(103, 0x67, 0x43, Sub6(7));
  }

  lemma Row6High(c: nat)
    requires 8 <= c < 16
    ensures IsSubstitute(96 + c, Sub6(c))
  {
    hide IsSubstitute, HasBit, Product, BitsOf, Times, Affine;
    match c
    case 8 => Entry(104, 0x68, 0xf4, Sub6(8)); case 9 => Entry(105, 0x69, 0x47, Sub6(9));
    case 10 => Entry(106, 0x6a, 0x91, Sub6(10)); case 11 => Entry(107, 0x6b, 0xdf, Sub6(11));
    case 12 => Entry(108, 0x6c, 0x33, Sub6(12)); case 13 => Entry(109, 0x6d, 0x93, Sub6(13));
    case 14 => Entry(110, 0x6e, 0x21, Sub6(14)); case _ => Entry(111, 0x6f, 0x3b, Sub6(15));
  }

  lemma Row7Low(c: nat)
    requires c < 8
    ensures IsSubstitute(112 + c, Sub7(c))
  {
    hide IsSubstitute, HasBit, Product, BitsOf, Times, Affine;
    match c
    case 0 => Entry(112, 0x70, 0x79, Sub7(0)); case 1 => Entry(113, 0x71, 0xb7, Sub7(1));
    case 2 => Entry(114, 0x72, 0x97, Sub7(2)); case 3 => Entry(115, 0x73, 0x85, Sub7(3));
    case 4 => Entry(116, 0x74, 0x10, Sub7(4)); case 5 => Entry(117, 0x75, 0xb5, Sub7(5));
    case 6 => Entry(118, 0x76, 0xba, Sub7(6)); case _ => Entry(119, 0x77, 0x3c, Sub7(7));
  }

  lemma Row7High(c: nat)
    requires 8 <= c < 16
    ensures IsSubstitute(112 + c, Sub7(c))
  {
    hide IsSubstitute, HasBit, Product, BitsOf, Times, Affine;
    match c
    case 8 => Entry(120, 0x78, 0xb6, Sub7(8)); case 9 => Entry(121, 0x79, 0x70, Sub7(9));
    case 10 => Entry(122, 0x7a, 0xd0, Sub7(10)); case 11 => Entry(123, 0x7b, 0x06, Sub7(11));
    case 12 => Entry(124, 0x7c, 0xa1, Sub7(12)); case 13 => Entry(125, 0x7d, 0xfa, Sub7(13));
    case 14 => Entry(126, 0x7e, 0x81, Sub7(14)); case _ => Entry(127, 0x7f, 0x82, Sub7(15));
  }

  lemma Row8Low(c: nat)
    requires c < 8
    ensures IsSubstitute(128 + c, Sub8(c))
  {
    hide IsSubstitute, HasBit, Product, BitsOf, Times, Affine;
    match c
    case 0 => Entry(128, 0x80, 0x83, Sub8(0)); case 1 => Entry(129, 0x81, 0x7e, Sub8(1));
    case 2 => Entry(130, 0x82, 0x7f, Sub8(2)); case 3 => Entry(131, 0x83, 0x80, Sub8(3));
    case 4 => Entry(132, 0x84, 0x96, Sub8(4)); case 5 => Entry(133, 0x85, 0x73, Sub8(5));
    case 6 => Entry(134, 0x86, 0xbe, Sub8(6)); case _ => Entry(135, 0x87, 0x56, Sub8(7));
  }

  lemma Row8High(c: nat)
    requires 8 <= c < 16
    ensures IsSubstitute(128 + c, Sub8(c))
  {
    hide IsSubstitute, HasBit, Product, BitsOf, Times, Affine;
    match c
    case 8 => Entry(136, 0x88, 0x9b, Sub8(8)); case 9 => Entry(137, 0x89, 0x9e, Sub8(9));
    case 10 => Entry(138, 0x8a, 0x95, Sub8(10)); case 11 => Entry(139, 0x8b, 0xd9, Sub8(11));
    case 12 => Entry(140, 0x8c, 0xf7, Sub8(12)); case 13 => Entry(141, 0x8d, 0x02, Sub8(13));
    case 14 => Entry(142, 0x8e, 0xb9, Sub8(14)); case _ => Entry(143, 0x8f, 0xa4, Sub8(15));
  }

  lemma Row9Low(c: nat)
    requires c < 8
    ensures IsSubstitute(144 + c, Sub9(c))
  {
    hide IsSubstitute, HasBit, Product, BitsOf, Times, Affine;
    match c
    case 0 => Entry(144, 0x90, 0xde, Sub9(0)); case 1 => Entry(145, 0x91, 0x6a, Sub9(1));
    case 2 => Entry(146, 0x92, 0x32, Sub9(2)); case 3 => Entry(147, 0x93, 0x6d, Sub9(3));
    case 4 => Entry(148, 0x94, 0xd8, Sub9(4)); case 5 => Entry(149, 0x95, 0x8a, Sub9(5));
    case 6 => Entry(150, 0x96, 0x84, Sub9(6)); case _ => Entry(151, 0x97, 0x72, Sub9(7));
  }

  lemma Row9High(c: nat)
    requires 8 <= c < 16
    ensures IsSubstitute(144 + c, Sub9(c))
  {
    hide IsSubstitute, HasBit, Product, BitsOf, Times, Affine;
    match c
    case 8 => Entry(152, 0x98, 0x2a, Sub9(8)); case 9 => Entry(153, 0x99, 0x14, Sub9(9));
    case 10 => Entry(154, 0x9a, 0x9f, Sub9(10)); case 11 => Entry(155, 0x9b, 0x88, Sub9(11));
    case 12 => Entry(156, 0x9c, 0xf9, Sub9(12)); case 13 => Entry(157, 0x9d, 0xdc, Sub9(13));
    case 14 => Entry(158, 0x9e, 0x89, Sub9(14)); case _ => Entry(159, 0x9f, 0x9a, Sub9(15));
  }

  lemma Row10Low(c: nat)
    requires c < 8
    ensures IsSubstitute(160 + c, Sub10(c))
  {
    hide IsSubstitute, HasBit, Product, BitsOf, Times, Affine;
    match c
    case 0 => Entry(160, 0xa0, 0xfb, Sub10(0)); case 1 => Entry(161, 0xa1, 0x7c, Sub10(1));
    case 2 => Entry(162, 0xa2, 0x2e, Sub10(2)); case 3 => Entry(163, 0xa3, 0xc3, Sub10(3));
    case 4 => Entry(164, 0xa4, 0x8f, Sub10(4)); case 5 => Entry(165, 0xa5, 0xb8, Sub10(5));
    case 6 => Entry(166, 0xa6, 0x65, Sub10(6)); case _ => Entry(167, 0xa7, 0x48, Sub10(7));
  }

  lemma Row10High(c: nat)
    requires 8 <= c < 16
    ensures IsSubstitute(160 + c, Sub10(c))
  {
    hide IsSubstitute, HasBit, Product, BitsOf, Times, Affine;
    match c
    case 8 => Entry(168, 0xa8, 0x26, Sub10(8)); case 9 => Entry(169, 0xa9, 0xc8, Sub10(9));
    case 10 => Entry(170, 0xaa, 0x12, Sub10(10)); case 11 => Entry(171, 0xab, 0x4a, Sub10(11));
    case 12 => Entry(172, 0xac, 0xce, Sub10(12)); case 13 => Entry(173, 0xad, 0xe7, Sub10(13));
    case 14 => Entry(174, 0xae, 0xd2, Sub10(14)); case _ => Entry(175, 0xaf, 0x62, Sub10(15));
  }

  lemma Row11Low(c: nat)
    requires c < 8
    ensures IsSubstitute(176 + c, Sub11(c))
  {
    hide IsSubstitute, HasBit, Product, BitsOf, Times, Affine;
    match c
    case 0 => Entry(176, 0xb0, 0x0c, Sub11(0)); case 1 => Entry(177, 0xb1, 0xe0, Sub11(1));
    case 2 => Entry(178, 0xb2, 0x1f, Sub11(2)); case 3 => Entry(179, 0xb3, 0xef, Sub11(3));
    case 4 => Entry(180, 0xb4, 0x11, Sub11(4)); case 5 => Entry(181, 0xb5, 0x75, Sub11(5));
    case 6 => Entry(182, 0xb6, 0x78, Sub11(6)); case _ => Entry(183, 0xb7, 0x71, Sub11(7));
  }

  lemma Row11High(c: nat)
    requires 8 <= c < 16
    ensures IsSubstitute(176 + c, Sub11(c))
  {
    hide IsSubstitute, HasBit, Product, BitsOf, Times, Affine;
    match c
    case 8 => Entry(184, 0xb8, 0xa5, Sub11(8)); case 9 => Entry(185, 0xb9, 0x8e, Sub11(9));
    case 10 => Entry(186, 0xba, 0x76, Sub11(10)); case 11 => Entry(187, 0xbb, 0x3d, Sub11(11));
    case 12 => Entry(188, 0xbc, 0xbd, Sub11(12)); case 13 => Entry(189, 0xbd, 0xbc, Sub11(13));
    case 14 => Entry(190, 0xbe, 0x86, Sub11(14)); case _ => Entry(191, 0xbf, 0x57, Sub11(15));
  }

  lemma Row12Low(c: nat)
    requires c < 8
    ensures IsSubstitute(192 + c, Sub12(c))
  {
    hide IsSubstitute, HasBit, Product, BitsOf, Times, Affine;
    match c
    case 0 => Entry(192, 0xc0, 0x0b, Sub12(0)); case 1 => Entry(193, 0xc1, 0x28, Sub12(1));
    case 2 => Entry(194, 0xc2, 0x2f, Sub12(2)); case 3 => Entry(195, 0xc3, 0xa3, Sub12(3));
    case 4 => Entry(196, 0xc4, 0xda, Sub12(4)); case 5 => Entry(197, 0xc5, 0xd4, Sub12(5));
    case 6 => Entry(198, 0xc6, 0xe4, Sub12(6)); case _ => Entry(199, 0xc7, 0x0f, Sub12(7));
  }

  lemma Row12High(c: nat)
    requires 8 <= c < 16
    ensures IsSubstitute(192 + c, Sub12(c))
  {
    hide IsSubstitute, HasBit, Product, BitsOf, Times, Affine;
    match c
    case 8 => Entry(200, 0xc8, 0xa9, Sub12(8)); case 9 => Entry(201, 0xc9, 0x27, Sub12(9));
    case 10 => Entry(202, 0xca, 0x53, Sub12(10)); case 11 => Entry(203, 0xcb, 0x04, Sub12(11));
    case 12 => Entry(204, 0xcc, 0x1b, Sub12(12)); case 13 => Entry(205, 0xcd, 0xfc, Sub12(13));
    case 14 => Entry(206, 0xce, 0xac, Sub12(14)); case _ => Entry(207, 0xcf, 0xe6, Sub12(15));
  }

  lemma Row13Low(c: nat)
    requires c < 8
    ensures IsSubstitute(208 + c, Sub13(c))
  {
    hide IsSubstitute, HasBit, Product, BitsOf, Times, Affine;
    match c
    case 0 => Entry(208, 0xd0, 0x7a, Sub13(0)); case 1 => Entry(209, 0xd1, 0x07, Sub13(1));
    case 2 => Entry(210, 0xd2, 0xae, Sub13(2)); case 3 => Entry(211, 0xd3, 0x63, Sub13(3));
    case 4 => Entry(212, 0xd4, 0xc5, Sub13(4)); case 5 => Entry(213, 0xd5, 0xdb, Sub13(5));
    case 6 => Entry(214, 0xd6, 0xe2, Sub13(6)); case _ => Entry(215, 0xd7, 0xea, Sub13(7));
  }

  lemma Row13High(c: nat)
    requires 8 <= c < 16
    ensures IsSubstitute(208 + c, Sub13(c))
  {
    hide IsSubstitute, HasBit, Product, BitsOf, Times, Affine;
    match c
    case 8 => Entry(216, 0xd8, 0x94, Sub13(8)); case 9 => Entry(217, 0xd9, 0x8b, Sub13(9));
    case 10 => Entry(218, 0xda, 0xc4, Sub13(10)); case 11 => Entry(219, 0xdb, 0xd5, Sub13(11));
    case 12 => Entry(220, 0xdc, 0x9d, Sub13(12)); case 13 => Entry(221, 0xdd, 0xf8, Sub13(13));
    case 14 => Entry(222, 0xde, 0x90, Sub13(14)); case _ => Entry(223, 0xdf, 0x6b, Sub13(15));
  }

  lemma Row14Low(c: nat)
    requires c < 8
    ensures IsSubstitute(224 + c, Sub14(c))
  {
    hide IsSubstitute, HasBit, Product, BitsOf, Times, Affine;
    match c
    case 0 => Entry(224, 0xe0, 0xb1, Sub14(0)); case 1 => Entry(225, 0xe1, 0x0d, Sub14(1));
    case 2 => Entry(226, 0xe2, 0xd6, Sub14(2)); case 3 => Entry(227, 0xe3, 0xeb, Sub14(3));
    case 4 => Entry(228, 0xe4, 0xc6, Sub14(4)); case 5 => Entry(229, 0xe5, 0x0e, Sub14(5));
    case 6 => Entry(230, 0xe6, 0xcf, Sub14(6)); case _ => Entry(231, 0xe7, 0xad, Sub14(7));
  }

  lemma Row14High(c: nat)
    requires 8 <= c < 16
    ensures IsSubstitute(224 + c, Sub14(c))
  {
    hide IsSubstitute, HasBit, Product, BitsOf, Times, Affine;
    match c
    case 8 => Entry(232, 0xe8, 0x08, Sub14(8)); case 9 => Entry(233, 0xe9, 0x4e, Sub14(9));
    case 10 => Entry(234, 0xea, 0xd7, Sub14(10)); case 11 => Entry(235, 0xeb, 0xe3, Sub14(11));
    case 12 => Entry(236, 0xec, 0x5d, Sub14(12)); case 13 => Entry(237, 0xed, 0x50, Sub14(13));
    case 14 => Entry(238, 0xee, 0x1e, Sub14(14)); case _ => Entry(239, 0xef, 0xb3, Sub14(15));
  }

  lemma Row15Low(c: nat)
    requires c < 8
    ensures IsSubstitute(240 + c, Sub15(c))
  {
    hide IsSubstitute, HasBit, Product, BitsOf, Times, Affine;
    match c
    case 0 => Entry(240, 0xf0, 0x5b, Sub15(0)); case 1 => Entry(241, 0xf1, 0x23, Sub15(1));
    case 2 => Entry(242, 0xf2, 0x38, Sub15(2)); case 3 => Entry(243, 0xf3, 0x34, Sub15(3));
    case 4 => Entry(244, 0xf4, 0x68, Sub15(4)); case 5 => Entry(245, 0xf5, 0x46, Sub15(5));
    case 6 => Entry(246, 0xf6, 0x03, Sub15(6)); case _ => Entry(247, 0xf7, 0x8c, Sub15(7));
  }

  lemma Row15High(c: nat)
    requires 8 <= c < 16
    ensures IsSubstitute(240 + c, Sub15(c))
  {
    hide IsSubstitute, HasBit, Product, BitsOf, Times, Affine;
    match c
    case 8 => Entry(248, 0xf8, 0xdd, Sub15(8)); case 9 => Entry(249, 0xf9, 0x9c, Sub15(9));
    case 10 => Entry(250, 0xfa, 0x7d, Sub15(10)); case 11 => Entry(251, 0xfb, 0xa0, Sub15(11));
    case 12 => Entry(252, 0xfc, 0xcd, Sub15(12)); case 13 => Entry(253, 0xfd, 0x1a, Sub15(13));
    case 14 => Entry(254, 0xfe, 0x41, Sub15(14)); case _ => Entry(255, 0xff, 0x1c, Sub15(15));
  }

  /** Every entry of the table stands for its place. */
  lemma SubIsSubstitute(x: Byte)
    ensures IsSubstitute(x, Sub(x))
  {
    hide IsSubstitute, Sub0, Sub1, Sub2, Sub3, Sub4, Sub5, Sub6, Sub7, Sub8, Sub9, Sub10, Sub11, Sub12, Sub13, Sub14, Sub15;
    match x / 16
    case 0 => if x % 16 < 8 { Row0Low(x % 16); } else { Row0High(x % 16); }
    case 1 => if x % 16 < 8 { Row1Low(x % 16); } else { Row1High(x % 16); }
    case 2 => if x % 16 < 8 { Row2Low(x % 16); } else { Row2High(x % 16); }
    case 3 => if x % 16 < 8 { Row3Low(x % 16); } else { Row3High(x % 16); }
    case 4 => if x % 16 < 8 { Row4Low(x % 16); } else { Row4High(x % 16); }
    case 5 => if x % 16 < 8 { Row5Low(x % 16); } else { Row5High(x % 16); }
    case 6 => if x % 16 < 8 { Row6Low(x % 16); } else { Row6High(x % 16); }
    case 7 => if x % 16 < 8 { Row7Low(x % 16); } else { Row7High(x % 16); }
    case 8 => if x % 16 < 8 { Row8Low(x % 16); } else { Row8High(x % 16); }
    case 9 => if x % 16 < 8 { Row9Low(x % 16); } else { Row9High(x % 16); }
    case 10 => if x % 16 < 8 { Row10Low(x % 16); } else { Row10High(x % 16); }
    case 11 => if x % 16 < 8 { Row11Low(x % 16); } else { Row11High(x % 16); }
    case 12 => if x % 16 < 8 { Row12Low(x % 16); } else { Row12High(x % 16); }
    case 13 => if x % 16 < 8 { Row13Low(x % 16); } else { Row13High(x % 16); }
    case 14 => if x % 16 < 8 { Row14Low(x % 16); } else { Row14High(x % 16); }
    case _ => if x % 16 < 8 { Row15Low(x % 16); } else { Row15High(x % 16); }
  }
}
