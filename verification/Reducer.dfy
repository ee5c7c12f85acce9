/** The three reducers of modPow behind one interface: classic division, Barrett and Montgomery. */
module Reducers {
  import opened JsNumber
  import opened Limbs
  import opened Modular
  import opened BigIntegers
  import opened Multiply
  import opened Divide
  import opened Montgomery
  import opened Barrett

  /** mod: the representative of x between 0 and a - 1. */
  method Mod(x: BigInteger, a: BigInteger) returns (r: BigInteger)
    requires x.Canonical() && a.Canonical() && a.Value() > 0
    ensures fresh(r) && r.Canonical() && r.Value() == x.Value() % a.Value()
  {
    r := new BigInteger();
    var u := Abs(x);
    DivRemTo(u, a, null, r);
    ghost var rem := r.Value();
    ModOfAbs(x.Value(), a.Value(), rem);
    var pos := r.Signum();
    if x.s < 0 && pos > 0 {
      a.SubTo(r, r);
    }
    NumSign(x.d, x.t, x.s);
  }

  lemma ModOfAbs(x: int, m: int, rem: int)
    requires m > 0 && rem == TruncRem(AbsInt(x), m)
    ensures 0 <= rem && x % m == if x < 0 && rem > 0 then m - rem else rem
  {
    if x < 0 {
      var q := (-x) / m;
      assert -x == m * q + rem;
      NegProduct(q, m);
      SumProduct(-q, -1, m);
      if rem > 0 {
        DivUnique(x, m, -q - 1, m - rem);
      } else {
        DivUnique(x, m, -q, 0);
      }
    }
  }

  datatype Kind = Classic | BarrettKind | MontgomeryKind

  /** x = y / r and y = x * r agree modulo m when r * i is 1. */
  lemma InverseMoves(x: int, y: int, r: int, i: int, m: int)
    requires m > 0 && Cong(r * i, 1, m) && Cong(x * r, y, m)
    ensures Cong(x, y * i, m)
  {
    CongRefl(i, m);
    CongMul(x * r, y, i, i, m);
    CongRefl(x, m);
    CongMul(x, x, r * i, 1, m);
    MulAssoc(x, r, i);
    CongSym(x * (r * i), x * 1, m);
    CongTrans(x, x * r * i, y * i, m);
  }

  /** (a * r) * (b * r) * i stands for a * b. */
  lemma ProductStands(x: int, y: int, v: int, a: int, b: int, r: int, i: int, m: int)
    requires m > 0 && Cong(r * i, 1, m) && Cong(x, a * r, m) && Cong(y, b * r, m) && Cong(v, x * y * i, m)
    ensures Cong(v, a * b * r, m)
  {
    CongMul(x, a * r, y, b * r, m);
    CongRefl(i, m);
    CongMul(x * y, a * r * (b * r), i, i, m);
    CongTrans(v, x * y * i, a * r * (b * r) * i, m);
    CongRefl(a * b * r, m);
    CongMul(a * b * r, a * b * r, r * i, 1, m);
    StandsAlgebra(a, b, r, i);
    CongTrans(v, a * r * (b * r) * i, a * b * r, m);
  }

  lemma StandsAlgebra(a: int, b: int, r: int, i: int)
    ensures a * r * (b * r) * i == a * b * r * (r * i)
  {
    Shuffle(a, r, b, r);
    MulAssoc(a * b, r, r);
    MulAssoc(a * b * r, r, i);
  }

  /** DV has an inverse modulo m, and so have its powers. */
  lemma {:induction false} RadixInverse(n: nat, w: int, m: int)
    requires m > 0 && Cong(DV * w, 1, m)
    ensures Cong(P(n) * Pow(w, n), 1, m)
  {
    if n == 0 {
      CongRefl(1, m);
    } else {
      RadixInverse(n - 1, w, m);
      CongMul(DV * w, 1, P(n - 1) * Pow(w, n - 1), 1, m);
      Shuffle(DV, w, P(n - 1), Pow(w, n - 1));
    }
  }

  lemma LimbInverse(m: seq<int>, t: nat, mp: int) returns (w: int)
    requires 0 < t <= |m| && Seg(m, 0, t) > 0 && Cong(m[0] * mp, -1, DV)
    ensures Cong(DV * w, 1, Seg(m, 0, t))
  {
    var k := CongWitness(m[0] * mp, -1, DV);
    var rest, M := Seg(m, 1, t), Seg(m, 0, t);
    SegLow(m, 0, t);
    w := k + rest * mp;
    LimbInverseAlgebra(m[0], rest, mp, k, M, w);
    CongIntro(DV * w, 1, M, mp);
  }

  lemma LimbInverseAlgebra(m0: int, rest: int, mp: int, k: int, M: int, w: int)
    requires m0 * mp == -1 + k * DV && M == m0 + DV * rest && w == k + rest * mp
    ensures DV * w - 1 == mp * M
  {
    assert mp * (m0 + DV * rest) == m0 * mp + DV * (rest * mp);
    assert DV * (k + rest * mp) == k * DV + DV * (rest * mp);
  }

  class Reducer {
    const kind: Kind
    const m: BigInteger
    // Montgomery: -1/m mod DV
    const mp: int
    // Barrett: DV^2t / m, and two scratch numbers
    const mu: BigInteger
    const r2: BigInteger
    const q3: BigInteger
    // The factor numbers are represented with, and its inverse modulo m
    ghost const radix: int
    ghost const inverse: int

    constructor Init(kind: Kind, m: BigInteger, mp: int, mu: BigInteger, r2: BigInteger, q3: BigInteger,
                     ghost radix: int, ghost inverse: int)
      ensures this.kind == kind && this.m == m && this.mp == mp && this.mu == mu && this.r2 == r2 && this.q3 == q3
      ensures this.radix == radix && this.inverse == inverse
    {
      this.kind, this.m, this.mp, this.mu, this.r2, this.q3 := kind, m, mp, mu, r2, q3;
      this.radix, this.inverse := radix, inverse;
    }

    ghost predicate Valid()
      reads m, mu
    {
      && m.Canonical() && m.s == 0 && m.t > 0 && m.Value() > 0
      && r2 != q3 && r2 != m && r2 != mu && q3 != m && q3 != mu && m != mu
      && Cong(radix * inverse, 1, m.Value())
      && (kind.BarrettKind? ==>
            m.t + 4 <= DV && mu.Canonical() && mu.s == 0 && mu.Value() == P(2 * m.t) / m.Value())
      && (kind.MontgomeryKind? ==> 0 <= mp < DV && Cong(m.d[0] * mp, -1, DV) && radix == P(m.t))
      && (!kind.MontgomeryKind? ==> radix == 1)
    }

    /** x stands for the residue y. */
    ghost predicate Stands(x: BigInteger, y: int)
      reads m, x
    {
      m.Canonical() && m.Value() > 0 && x.Canonical() && 0 <= x.Value() < m.Value() && Cong(x.Value(), y * radix, m.Value())
    }

    /** Not one of the reducer's own numbers. */
    ghost predicate Outside(x: BigInteger) {
      x != m && x != mu && x != r2 && x != q3
    }

    /** The modulus itself may be converted. */
    ghost predicate Convertible(x: BigInteger) {
      x != mu && x != r2 && x != q3
    }

    /** new Classic(m), new Barrett(m), new Montgomery(m) */
    static method Create(kind: Kind, m: BigInteger) returns (z: Reducer)
      requires m.Canonical() && m.Value() > 0
      requires kind.BarrettKind? ==> m.t + 4 <= DV
      requires kind.MontgomeryKind? ==> m.Value() % 2 == 1
      ensures fresh(z) && fresh(z.mu) && fresh(z.r2) && fresh(z.q3)
      ensures z.Valid() && z.kind == kind && z.m == m
    {
      NumSign(m.d, m.t, m.s);
      assert P(0) == 1;
      var mu := new BigInteger();
      var r2 := new BigInteger();
      var q3 := new BigInteger();
      var mp := 0;
      ghost var radix, inverse := 1, 1;
      CongRefl(1, m.Value());
      if kind.BarrettKind? {
        var one := new BigInteger.FromInt(1);
        one.DLShiftTo(2 * m.t, r2);
        DivRemTo(r2, m, mu, null);
        BarrettConstant(m.t, m.Value());
        NumSign(mu.d, mu.t, mu.s);
      } else if kind.MontgomeryKind? {
        ParityOf(m.d, m.t, m.s);
        mp := InvDigit(m);
        ghost var w := LimbInverse(m.d, m.t, mp);
        radix, inverse := P(m.t), Pow(w, m.t);
        RadixInverse(m.t, w, m.Value());
      }
      z := new Reducer.Init(kind, m, mp, mu, r2, q3, radix, inverse);
    }

    static lemma BarrettConstant(t: nat, m: int)
      requires m > 0
      ensures TruncDiv(1 * P(2 * t), m) == P(2 * t) / m >= 0
    {
      DivBounds(P(2 * t), m, 0);
    }

    /** reduce */
    method Reduce(x: BigInteger)
      requires Valid() && Outside(x)
      requires x.Canonical() && 0 <= x.Value() < m.Value() * m.Value()
      modifies x, r2, q3
      ensures Valid() && x.Canonical() && 0 <= x.Value() < m.Value()
      ensures Cong(x.Value(), old(x.Value()) * inverse, m.Value())
    {
      ghost var X, M := x.Value(), m.Value();
      SegBound(m.d, 0, m.t);
      PAdd(m.t, m.t);
      SquareFits(M, P(m.t));
      MulMono(M, M, P(m.t));
      if kind.Classic? {
        DivRemTo(x, m, null, x);
      } else if kind.BarrettKind? {
        BarrettReduce(x, m, mu, r2, q3);
      } else {
        MulLt(M, P(m.t), M);
        MontReduce(x, m, mp);
      }
      CongMod(X, M);
      InverseMoves(x.Value(), X, radix, inverse, M);
    }

    /** mulTo */
    method MulTo(x: BigInteger, y: BigInteger, r: BigInteger, ghost a: int, ghost b: int)
      requires Valid() && Stands(x, a) && Stands(y, b) && Outside(r) && r != x && r != y
      modifies r, r2, q3
      ensures Stands(r, a * b)
    {
      ghost var X, Y, M := x.Value(), y.Value(), m.Value();
      ProductFits(X, Y, M);
      MultiplyTo(x, y, r);
      Reduce(r);
      ProductStands(X, Y, r.Value(), a, b, radix, inverse, M);
    }

    /** sqrTo */
    method SqrTo(x: BigInteger, r: BigInteger, ghost a: int)
      requires Valid() && Stands(x, a) && Outside(r) && r != x
      modifies r, r2, q3
      ensures Stands(r, a * a)
    {
      ghost var X, M := x.Value(), m.Value();
      ProductFits(X, X, M);
      SquareTo(x, r);
      Reduce(r);
      ProductStands(X, X, r.Value(), a, a, radix, inverse, M);
    }

    /** convert: the number itself when it is already a residue and needs no factor. */
    method Convert(x: BigInteger) returns (r: BigInteger)
      requires Valid() && x.Canonical() && Convertible(x)
      modifies r2, q3
      ensures r == x || fresh(r)
      ensures Stands(r, x.Value()) && Outside(r)
    {
      ghost var X, M := x.Value(), m.Value();
      NumSign(x.d, x.t, x.s);
      if kind.MontgomeryKind? {
        r := MontConvert(x);
      } else if x.s < 0 || (kind.BarrettKind? && x.t > 2 * m.t) {
        r := Mod(x, m);
        CongMod(X, M);
      } else {
        CongRefl(X, M);
        CongMod(X, M);
        var c := x.CompareTo(m);
        if c < 0 {
          r := x;
        } else if kind.BarrettKind? {
          r := new BigInteger();
          x.CopyTo(r);
          PMono(x.t, 2 * m.t);
          BarrettReduce(r, m, mu, r2, q3);
        } else {
          r := Mod(x, m);
        }
      }
    }

    /** montConvert */
    method MontConvert(x: BigInteger) returns (r: BigInteger)
      requires Valid() && kind.MontgomeryKind? && x.Canonical()
      ensures fresh(r) && Stands(r, x.Value())
    {
      hide Seg, P, Cong, SignLimb, Digits;
      ghost var X, M, v := x.Value(), m.Value(), x.Value() * P(m.t);
      r := new BigInteger();
      var u := Abs(x);
      u.DLShiftTo(m.t, r);
      NumSign(r.d, r.t, r.s);
      r.Clamp();
      DivRemTo(r, m, null, r);
      AbsScale(X, P(m.t));
      ModOfAbs(v, M, r.Value());
      var pos := r.Signum();
      NumSign(x.d, x.t, x.s);
      if x.s < 0 && pos > 0 {
        m.SubTo(r, r);
      }
      CongMod(v, M);
    }

    /** revert: back to the residue itself. */
    method Revert(x: BigInteger, ghost a: int) returns (r: BigInteger)
      requires Valid() && Stands(x, a) && Outside(x)
      modifies r2, q3
      ensures r == x || fresh(r)
      ensures r.Canonical() && r.Value() == a % m.Value()
    {
      ghost var X, M := x.Value(), m.Value();
      if kind.MontgomeryKind? {
        r := new BigInteger();
        x.CopyTo(r);
        MulMono(M, 1, M);
        Reduce(r);
        RevertStands(r.Value(), X, a, radix, inverse, M);
      } else {
        r := x;
        CongUnique(X, a, M);
      }
    }
  }

  lemma ProductFits(x: int, y: int, m: int)
    requires 0 <= x < m && 0 <= y < m
    ensures 0 <= x * y < m * m
  {
    MulLe(0, x, y);
    MulLe(x, m, y);
    MulLtMono(m, y, m);
  }

  lemma MulLtMono(z: int, x: int, y: int)
    requires x < y && 0 < z
    ensures z * x < z * y
  {
  }

  lemma AbsScale(x: int, p: int)
    requires p > 0
    ensures AbsInt(x) * p == AbsInt(x * p) && (x < 0 <==> x * p < 0)
  {
    AbsProduct(x, p);
  }

  lemma RevertStands(v: int, x: int, a: int, r: int, i: int, m: int)
    requires m > 0 && 0 <= v < m && Cong(r * i, 1, m) && Cong(x, a * r, m) && Cong(v, x * i, m)
    ensures v == a % m
  {
    CongRefl(i, m);
    CongMul(x, a * r, i, i, m);
    CongTrans(v, x * i, a * r * i, m);
    CongRefl(a, m);
    CongMul(a, a, r * i, 1, m);
    MulAssoc(a, r, i);
    CongTrans(v, a * r * i, a * 1, m);
    CongUnique(v, a, m);
  }
}
