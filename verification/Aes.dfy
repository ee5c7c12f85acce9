/** The AES block cipher on a 16-byte state that is changed in place. */
module Aes {
  import opened ByteField
  import opened SubstitutionTable
  import opened SubstitutionLaw
  import opened Fips197

  function Sbox(): (s: seq<Byte>)
    ensures |s| == 256
  {
    seq(256, i requires 0 <= i < 256 => Sub(i))
  }

  function SboxInverse(): (s: seq<Byte>)
    ensures |s| == 256
  {
    seq(256, i requires 0 <= i < 256 => Unsub(i))
  }

  /** The inverse table takes every substitution back. */
  lemma SboxUndone(x: Byte)
    ensures SboxInverse()[Sbox()[x]] == x
  {
    UnsubSub(x);
  }

  function ShiftRowTab(): seq<nat> {
    [0, 5, 10, 15, 4, 9, 14, 3, 8, 13, 2, 7, 12, 1, 6, 11]
  }

  function ShiftRowTabInverse(): seq<nat> {
    [0, 13, 10, 7, 4, 1, 14, 11, 8, 5, 2, 15, 12, 9, 6, 3]
  }

  /** The byte in row r and column c comes from column c + r of that row, section 5.1.2 of FIPS 197. */
  lemma ShiftRowTabMeans(r: nat, c: nat)
    requires r < 4 && c < 4
    ensures ShiftRowTab()[4 * c + r] == 4 * ((c + r) % 4) + r
    ensures ShiftRowTabInverse()[4 * ((c + r) % 4) + r] == 4 * c + r
  {
    assert (r == 0 || r == 1 || r == 2 || r == 3) && (c == 0 || c == 1 || c == 2 || c == 3);
  }

  /** The tables the cipher works with. */
  datatype Tables = Tables(sbox: seq<Byte>, sboxInv: seq<Byte>, shiftRowTab: seq<nat>, shiftRowTabInv: seq<nat>, xtime: seq<Byte>)

  ghost predicate XtimeTable(t: seq<Byte>) {
    |t| == 256 && forall x: Byte :: t[x] == Xtime(x)
  }

  // Every entry of the table is found at its place in inv.
  ghost predicate Undoes(inv: seq<nat>, tab: seq<nat>) {
    |inv| == |tab| && forall i :: 0 <= i < |tab| ==> tab[i] < |tab| && inv[tab[i]] == i
  }

  /** What the cipher needs of its tables. */
  ghost predicate Working(g: Tables) {
    && |g.sbox| == 256
    && Undoes(g.sboxInv, g.sbox) && Undoes(g.shiftRowTab, g.shiftRowTabInv)
    && Places(g.shiftRowTab) && Places(g.shiftRowTabInv)
    && XtimeTable(g.xtime)
  }

  function Substituted(s: seq<Byte>, box: seq<Byte>): (r: seq<Byte>)
    requires |box| == 256
    ensures |r| == |s|
  {
    seq(|s|, i requires 0 <= i < |s| => box[s[i]])
  }

  predicate Places(tab: seq<nat>) {
    |tab| == 16 && forall i :: 0 <= i < 16 ==> tab[i] < 16
  }

  function Shifted(s: seq<Byte>, tab: seq<nat>): (r: seq<Byte>)
    requires |s| == 16 && Places(tab)
    ensures |r| == 16
  {
    seq(16, i requires 0 <= i < 16 => s[tab[i]])
  }

  function KeyAdded(s: seq<Byte>, k: seq<Byte>): (r: seq<Byte>)
    requires |s| == |k|
    ensures |r| == |s|
  {
    seq(|s|, i requires 0 <= i < |s| => Add(s[i], k[i]))
  }

  // a + b + c + d
  function Sum(a: Byte, b: Byte, c: Byte, d: Byte): Byte {
    Add(Add(a, b), Add(c, d))
  }

  // {02} a + {03} b + c + d, a row of the matrix of section 5.1.3 of FIPS 197
  function MixRow(a: Byte, b: Byte, c: Byte, d: Byte): Byte {
    Sum(Xtime(a), Add(Xtime(b), b), c, d)
  }

  function Times4(a: Byte): Byte {
    Xtime(Xtime(a))
  }

  function Times8(a: Byte): Byte {
    Xtime(Times4(a))
  }

  function Times9(a: Byte): Byte {
    Add(Times8(a), a)
  }

  function Times11(a: Byte): Byte {
    Add(Times8(a), Add(Xtime(a), a))
  }

  function Times13(a: Byte): Byte {
    Add(Times8(a), Add(Times4(a), a))
  }

  function Times14(a: Byte): Byte {
    Add(Times8(a), Add(Times4(a), Xtime(a)))
  }

  // {0e} a + {0b} b + {0d} c + {09} d, a row of the matrix of section 5.3.3 of FIPS 197
  function UnmixRow(a: Byte, b: Byte, c: Byte, d: Byte): Byte {
    Sum(Times14(a), Times11(b), Times13(c), Times9(d))
  }

  datatype Column = Column(a: Byte, b: Byte, c: Byte, d: Byte)

  function MixColumn(s: Column): Column {
    Column(MixRow(s.a, s.b, s.c, s.d), MixRow(s.b, s.c, s.d, s.a), MixRow(s.c, s.d, s.a, s.b), MixRow(s.d, s.a, s.b, s.c))
  }

  function UnmixColumn(s: Column): Column {
    Column(UnmixRow(s.a, s.b, s.c, s.d), UnmixRow(s.b, s.c, s.d, s.a), UnmixRow(s.c, s.d, s.a, s.b), UnmixRow(s.d, s.a, s.b, s.c))
  }

  function ByteAt(c: Column, r: nat): Byte {
    match r case 0 => c.a case 1 => c.b case 2 => c.c case _ => c.d
  }

  function ColumnAt(s: seq<Byte>, c: nat): Column
    requires |s| == 16 && c < 4
  {
    Column(s[4 * c], s[4 * c + 1], s[4 * c + 2], s[4 * c + 3])
  }

  // A pass over the columns of a state.
  function Columns(s: seq<Byte>, f: Column -> Column): (r: seq<Byte>)
    requires |s| == 16
    ensures |r| == 16
  {
    seq<Byte>(16, i requires 0 <= i < 16 => ByteAt(f(ColumnAt(s, i / 4)), i % 4))
  }

  function Mixed(s: seq<Byte>): (r: seq<Byte>)
    requires |s| == 16
    ensures |r| == 16
  {
    Columns(s, MixColumn)
  }

  function Unmixed(s: seq<Byte>): (r: seq<Byte>)
    requires |s| == 16
    ensures |r| == 16
  {
    Columns(s, UnmixColumn)
  }

  // The bytes of a column after the two passes, as they are computed.
  function Mix(a: Byte, b: Byte, c: Byte, d: Byte): Byte {
    Add(a, Add(Sum(a, b, c, d), Xtime(Add(a, b))))
  }

  function Unmix(a: Byte, b: Byte, c: Byte, d: Byte): Byte {
    Add(a, Add(Add(Times4(Add(Xtime(Sum(a, b, c, d)), Add(a, c))), Sum(a, b, c, d)), Xtime(Add(a, b))))
  }

  /** The pass over a column multiplies it by the matrix. */
  lemma MixIsRow(a: Byte, b: Byte, c: Byte, d: Byte)
    ensures Mix(a, b, c, d) == MixRow(a, b, c, d)
  {
    XtimeLinear(a, b);
    MixTerms(a, b, c, d, Xtime(a), Xtime(b));
  }

  lemma MixTerms(a: Byte, b: Byte, c: Byte, d: Byte, x: Byte, y: Byte)
    ensures Add(a, Add(Sum(a, b, c, d), Add(x, y))) == Sum(x, Add(y, b), c, d)
  {
    AddBits();
    ByBits(Add(a, Add(Sum(a, b, c, d), Add(x, y))), Sum(x, Add(y, b), c, d));
  }

  lemma Times4Linear(a: Byte, b: Byte)
    ensures Times4(Add(a, b)) == Add(Times4(a), Times4(b))
  {
    XtimeLinear(a, b);
    XtimeLinear(Xtime(a), Xtime(b));
  }

  lemma Times8Linear(a: Byte, b: Byte)
    ensures Times8(Add(a, b)) == Add(Times8(a), Times8(b))
  {
    Times4Linear(a, b);
    XtimeLinear(Times4(a), Times4(b));
  }

  lemma Times8Sum(a: Byte, b: Byte, c: Byte, d: Byte)
    ensures Times8(Sum(a, b, c, d)) == Sum(Times8(a), Times8(b), Times8(c), Times8(d))
  {
    Times8Linear(Add(a, b), Add(c, d));
    Times8Linear(a, b);
    Times8Linear(c, d);
  }

  /** The factored inverse pass multiplies a column by the inverse matrix. */
  lemma UnmixIsRow(a: Byte, b: Byte, c: Byte, d: Byte)
    ensures Unmix(a, b, c, d) == UnmixRow(a, b, c, d)
  {
    Times4Linear(Xtime(Sum(a, b, c, d)), Add(a, c));
    Times4Linear(a, c);
    Times8Sum(a, b, c, d);
    XtimeLinear(a, b);
    UnmixTerms(a, b, c, d, Xtime(a), Xtime(b), Times4(a), Times4(c), Times8(a), Times8(b), Times8(c), Times8(d));
  }

  lemma UnmixTerms(a: Byte, b: Byte, c: Byte, d: Byte, a2: Byte, b2: Byte, a4: Byte, c4: Byte, a8: Byte, b8: Byte,
                   c8: Byte, d8: Byte)
    ensures Add(a, Add(Add(Add(Sum(a8, b8, c8, d8), Add(a4, c4)), Sum(a, b, c, d)), Add(a2, b2)))
            == Sum(Add(a8, Add(a4, a2)), Add(b8, Add(b2, b)), Add(c8, Add(c4, c)), Add(d8, d))
  {
    AddBits();
    ByBits(Add(a, Add(Add(Add(Sum(a8, b8, c8, d8), Add(a4, c4)), Sum(a, b, c, d)), Add(a2, b2))),
           Sum(Add(a8, Add(a4, a2)), Add(b8, Add(b2, b)), Add(c8, Add(c4, c)), Add(d8, d)));
  }

  lemma SumTurns(a: Byte, b: Byte, c: Byte, d: Byte)
    ensures Sum(b, c, d, a) == Sum(a, b, c, d)
  {
    AddBits();
    ByBits(Sum(b, c, d, a), Sum(a, b, c, d));
  }

  lemma PairSums(a: Byte, b: Byte, c: Byte, d: Byte)
    ensures Add(Add(a, b), Add(b, c)) == Add(a, c) && Add(Add(c, d), Add(d, a)) == Add(a, c)
  {
    AddBits();
    ByBits(Add(Add(a, b), Add(b, c)), Add(a, c));
    ByBits(Add(Add(c, d), Add(d, a)), Add(a, c));
  }

  /** A column is mixed without changing its sum. */
  lemma SumKept(a: Byte, b: Byte, c: Byte, d: Byte)
    ensures Sum(Mix(a, b, c, d), Mix(b, c, d, a), Mix(c, d, a, b), Mix(d, a, b, c)) == Sum(a, b, c, d)
  {
    SumTurns(a, b, c, d);
    SumTurns(b, c, d, a);
    SumTurns(c, d, a, b);
    PairSums(a, b, c, d);
    XtimeLinear(Add(a, b), Add(b, c));
    XtimeLinear(Add(c, d), Add(d, a));
    SumTerms(a, b, c, d, Xtime(Add(a, b)), Xtime(Add(b, c)), Xtime(Add(c, d)), Xtime(Add(d, a)), Sum(a, b, c, d));
  }

  lemma SumTerms(a: Byte, b: Byte, c: Byte, d: Byte, x: Byte, y: Byte, z: Byte, w: Byte, h: Byte)
    requires Add(x, y) == Add(z, w)
    ensures Sum(Add(a, Add(h, x)), Add(b, Add(h, y)), Add(c, Add(h, z)), Add(d, Add(h, w))) == Sum(a, b, c, d)
  {
    AddBits();
    forall k: nat | k < 8 ensures ((HasBit(x, k) != HasBit(y, k)) == (HasBit(z, k) != HasBit(w, k))) {
      assert HasBit(Add(x, y), k) == HasBit(Add(z, w), k);
    }
    ByBits(Sum(Add(a, Add(h, x)), Add(b, Add(h, y)), Add(c, Add(h, z)), Add(d, Add(h, w))), Sum(a, b, c, d));
  }

  /** The inverse pass takes the first byte of a mixed column back. */
  lemma UnmixMix(a: Byte, b: Byte, c: Byte, d: Byte)
    ensures Unmix(Mix(a, b, c, d), Mix(b, c, d, a), Mix(c, d, a, b), Mix(d, a, b, c)) == a
  {
    SumTurns(a, b, c, d);
    SumTurns(b, c, d, a);
    SumKept(a, b, c, d);
    XtimeLinear(Add(a, b), Add(c, d));
    XtimeLinear(Add(a, b), Add(b, c));
    XtimeLinear(Add(a, b), Xtime(Add(a, c)));
    PairSums(a, b, c, d);
    OppositeTerms(a, c, Sum(a, b, c, d), Xtime(Add(a, b)), Xtime(Add(c, d)));
    AdjacentTerms(a, b, Sum(a, b, c, d), Xtime(Add(a, b)), Xtime(Add(b, c)));
    FirstTerms(a, Sum(a, b, c, d), Xtime(Add(a, b)), Times4(Add(a, c)));
  }

  lemma OppositeTerms(a: Byte, c: Byte, h: Byte, x: Byte, z: Byte)
    ensures Add(Add(x, z), Add(Add(a, Add(h, x)), Add(c, Add(h, z)))) == Add(a, c)
  {
    AddBits();
    ByBits(Add(Add(x, z), Add(Add(a, Add(h, x)), Add(c, Add(h, z)))), Add(a, c));
  }

  lemma AdjacentTerms(a: Byte, b: Byte, h: Byte, x: Byte, y: Byte)
    ensures Add(Add(a, Add(h, x)), Add(b, Add(h, y))) == Add(Add(a, b), Add(x, y))
  {
    AddBits();
    ByBits(Add(Add(a, Add(h, x)), Add(b, Add(h, y))), Add(Add(a, b), Add(x, y)));
  }

  lemma FirstTerms(a: Byte, h: Byte, x: Byte, q: Byte)
    ensures Add(Add(a, Add(h, x)), Add(Add(q, h), Add(x, q))) == a
  {
    AddBits();
    ByBits(Add(Add(a, Add(h, x)), Add(Add(q, h), Add(x, q))), a);
  }

  lemma UnmixMixColumn(s: Column)
    ensures UnmixColumn(MixColumn(s)) == s
  {
    UnmixMixRow(s.a, s.b, s.c, s.d);
    UnmixMixRow(s.b, s.c, s.d, s.a);
    UnmixMixRow(s.c, s.d, s.a, s.b);
    UnmixMixRow(s.d, s.a, s.b, s.c);
  }

  /** A row of the inverse matrix against the columns of the matrix. */
  lemma UnmixMixRow(a: Byte, b: Byte, c: Byte, d: Byte)
    ensures UnmixRow(MixRow(a, b, c, d), MixRow(b, c, d, a), MixRow(c, d, a, b), MixRow(d, a, b, c)) == a
  {
    MixIsRow(a, b, c, d);
    MixIsRow(b, c, d, a);
    MixIsRow(c, d, a, b);
    MixIsRow(d, a, b, c);
    UnmixIsRow(MixRow(a, b, c, d), MixRow(b, c, d, a), MixRow(c, d, a, b), MixRow(d, a, b, c));
    UnmixMix(a, b, c, d);
  }

  lemma ColumnOfPass(s: seq<Byte>, f: Column -> Column, c: nat)
    requires |s| == 16 && c < 4
    ensures ColumnAt(Columns(s, f), c) == f(ColumnAt(s, c))
  {
    InColumn(c);
  }

  lemma InColumn(c: nat)
    ensures (4 * c) / 4 == c && (4 * c + 1) / 4 == c && (4 * c + 2) / 4 == c && (4 * c + 3) / 4 == c
    ensures (4 * c) % 4 == 0 && (4 * c + 1) % 4 == 1 && (4 * c + 2) % 4 == 2 && (4 * c + 3) % 4 == 3
  {
  }

  lemma ByteOfColumn(s: seq<Byte>, i: nat)
    requires |s| == 16 && i < 16
    ensures ByteAt(ColumnAt(s, i / 4), i % 4) == s[i]
  {
  }

  lemma ColumnsUndone(s: seq<Byte>, f: Column -> Column, g: Column -> Column)
    requires |s| == 16 && forall c :: g(f(c)) == c
    ensures Columns(Columns(s, f), g) == s
  {
    forall i | 0 <= i < 16 ensures Columns(Columns(s, f), g)[i] == s[i] {
      ColumnOfPass(s, f, i / 4);
      ByteOfColumn(s, i);
    }
  }

  /** InvMixColumns undoes MixColumns. */
  lemma UnmixedMixed(s: seq<Byte>)
    requires |s| == 16
    ensures Unmixed(Mixed(s)) == s
  {
    forall c ensures UnmixColumn(MixColumn(c)) == c {
      UnmixMixColumn(c);
    }
    ColumnsUndone(s, MixColumn, UnmixColumn);
  }

  lemma UnsubstitutedSubstituted(s: seq<Byte>, box: seq<Byte>, inv: seq<Byte>)
    requires |box| == 256 && Undoes(inv, box)
    ensures Substituted(Substituted(s, box), inv) == s
  {
  }

  lemma UnshiftedShifted(s: seq<Byte>, tab: seq<nat>, inv: seq<nat>)
    requires |s| == 16 && Places(tab) && Places(inv) && Undoes(tab, inv)
    ensures Shifted(Shifted(s, tab), inv) == s
  {
  }

  lemma KeyAddedTwice(s: seq<Byte>, k: seq<Byte>)
    requires |s| == |k|
    ensures KeyAdded(KeyAdded(s, k), k) == s
  {
    forall i | 0 <= i < |s| ensures KeyAdded(KeyAdded(s, k), k)[i] == s[i] {
      AddTwice(s[i], k[i]);
    }
  }

  // The state with one round applied, section 5.1 of FIPS 197.
  function Round(s: seq<Byte>, k: seq<Byte>, g: Tables): (r: seq<Byte>)
    requires |s| == 16 && |k| == 16 && |g.sbox| == 256 && Places(g.shiftRowTab)
    ensures |r| == 16
  {
    KeyAdded(Mixed(Shifted(Substituted(s, g.sbox), g.shiftRowTab)), k)
  }

  function LastRound(s: seq<Byte>, k: seq<Byte>, g: Tables): (r: seq<Byte>)
    requires |s| == 16 && |k| == 16 && |g.sbox| == 256 && Places(g.shiftRowTab)
    ensures |r| == 16
  {
    KeyAdded(Shifted(Substituted(s, g.sbox), g.shiftRowTab), k)
  }

  // A round taken back, section 5.3 of FIPS 197.
  function InverseRound(s: seq<Byte>, k: seq<Byte>, g: Tables): (r: seq<Byte>)
    requires |s| == 16 && |k| == 16 && |g.sboxInv| == 256 && Places(g.shiftRowTabInv)
    ensures |r| == 16
  {
    Substituted(Shifted(Unmixed(KeyAdded(s, k)), g.shiftRowTabInv), g.sboxInv)
  }

  function InverseLastRound(s: seq<Byte>, k: seq<Byte>, g: Tables): (r: seq<Byte>)
    requires |s| == 16 && |k| == 16 && |g.sboxInv| == 256 && Places(g.shiftRowTabInv)
    ensures |r| == 16
  {
    Substituted(Shifted(KeyAdded(s, k), g.shiftRowTabInv), g.sboxInv)
  }

  lemma RoundUndone(s: seq<Byte>, k: seq<Byte>, g: Tables)
    requires |s| == 16 && |k| == 16 && Working(g)
    ensures InverseRound(Round(s, k, g), k, g) == s
  {
    var sub := Substituted(s, g.sbox);
    KeyAddedTwice(Mixed(Shifted(sub, g.shiftRowTab)), k);
    UnmixedMixed(Shifted(sub, g.shiftRowTab));
    UnshiftedShifted(sub, g.shiftRowTab, g.shiftRowTabInv);
    UnsubstitutedSubstituted(s, g.sbox, g.sboxInv);
  }

  lemma LastRoundUndone(s: seq<Byte>, k: seq<Byte>, g: Tables)
    requires |s| == 16 && |k| == 16 && Working(g)
    ensures InverseLastRound(LastRound(s, k, g), k, g) == s
  {
    var sub := Substituted(s, g.sbox);
    KeyAddedTwice(Shifted(sub, g.shiftRowTab), k);
    UnshiftedShifted(sub, g.shiftRowTab, g.shiftRowTabInv);
    UnsubstitutedSubstituted(s, g.sbox, g.sboxInv);
  }

  // A key schedule of n round keys.
  predicate Schedule(key: seq<Byte>, n: nat) {
    |key| == 16 * n && n >= 2
  }

  // The state when r round keys have been used.
  ghost function After(block: seq<Byte>, key: seq<Byte>, r: nat, g: Tables): (s: seq<Byte>)
    requires |block| == 16 && 1 <= r && 16 * r <= |key| && Working(g)
    ensures |s| == 16
  {
    if r == 1 then KeyAdded(block, key[0..16]) else Round(After(block, key, r - 1, g), key[16 * (r - 1)..16 * r], g)
  }

  /** The cipher of section 5.1 of FIPS 197. */
  ghost function Cipher(block: seq<Byte>, key: seq<Byte>, n: nat, g: Tables): (s: seq<Byte>)
    requires |block| == 16 && Schedule(key, n) && Working(g)
    ensures |s| == 16
  {
    LastRound(After(block, key, n - 1, g), key[16 * (n - 1)..16 * n], g)
  }

  // The state when the round keys behind round r have been taken back.
  ghost function Before(block: seq<Byte>, key: seq<Byte>, n: nat, r: nat, g: Tables): (s: seq<Byte>)
    requires |block| == 16 && Schedule(key, n) && r + 1 < n && Working(g)
    ensures |s| == 16
    decreases n - r
  {
    if r + 2 == n then InverseLastRound(block, key[16 * (n - 1)..16 * n], g)
    else InverseRound(Before(block, key, n, r + 1, g), key[16 * (r + 1)..16 * (r + 2)], g)
  }

  /** The inverse cipher of section 5.3 of FIPS 197. */
  ghost function InverseCipher(block: seq<Byte>, key: seq<Byte>, n: nat, g: Tables): (s: seq<Byte>)
    requires |block| == 16 && Schedule(key, n) && Working(g)
    ensures |s| == 16
  {
    KeyAdded(Before(block, key, n, 0, g), key[0..16])
  }

  lemma {:induction false} BeforeAfter(block: seq<Byte>, key: seq<Byte>, n: nat, r: nat, g: Tables)
    requires |block| == 16 && Schedule(key, n) && r + 1 < n && Working(g)
    ensures Before(Cipher(block, key, n, g), key, n, r, g) == After(block, key, r + 1, g)
    decreases n - r
  {
    if r + 2 == n {
      LastRoundUndone(After(block, key, n - 1, g), key[16 * (n - 1)..16 * n], g);
    } else {
      BeforeAfter(block, key, n, r + 1, g);
      AfterStep(block, key, r + 1, key[16 * (r + 1)..16 * (r + 2)], g);
      BeforeStep(Cipher(block, key, n, g), key, n, r, After(block, key, r + 2, g), key[16 * (r + 1)..16 * (r + 2)], g);
      RoundUndone(After(block, key, r + 1, g), key[16 * (r + 1)..16 * (r + 2)], g);
    }
  }

  lemma AfterStep(block: seq<Byte>, key: seq<Byte>, r: nat, k: seq<Byte>, g: Tables)
    requires |block| == 16 && 1 <= r && 16 * (r + 1) <= |key| && Working(g) && k == key[16 * r..16 * (r + 1)]
    ensures After(block, key, r + 1, g) == Round(After(block, key, r, g), k, g)
  {
  }

  lemma BeforeStep(block: seq<Byte>, key: seq<Byte>, n: nat, r: nat, s: seq<Byte>, k: seq<Byte>, g: Tables)
    requires |block| == 16 && Schedule(key, n) && r + 2 < n && Working(g)
    requires s == Before(block, key, n, r + 1, g) && k == key[16 * (r + 1)..16 * (r + 2)]
    ensures Before(block, key, n, r, g) == InverseRound(s, k, g)
  {
  }

  /** Decryption undoes encryption, whatever the block and the key schedule. */
  lemma DecryptEncrypt(block: seq<Byte>, key: seq<Byte>, n: nat, g: Tables)
    requires |block| == 16 && Schedule(key, n) && Working(g)
    ensures InverseCipher(Cipher(block, key, n, g), key, n, g) == block
  {
    BeforeAfter(block, key, n, 0, g);
    KeyAddedTwice(block, key[0..16]);
  }

  // The tables are the ones of the program.
  ghost predicate Standard(g: Tables) {
    Working(g) && g.sbox == Sbox() && g.shiftRowTab == ShiftRowTab()
  }

  lemma SmallProducts(a: Byte)
    ensures Product(a, 1) == a && Product(a, 2) == Xtime(a) && Product(a, 3) == Add(Xtime(a), a)
  {
    hide Add, Xtime;
    ZeroSum();
    ZeroAdded(a);
    ZeroAdded(Xtime(a));
    assert Product(a, 0) == 0;
    assert Product(a, 1) == Add(Xtime(Product(a, 0)), a);
    assert Product(a, 2) == Add(Xtime(Product(a, 1)), 0);
  }

  lemma ZeroAdded(a: Byte)
    ensures Add(0, a) == a && Add(a, 0) == a
  {
    hide HasBit, Add;
    ConstantBits();
    PlusIsAdd(0, a);
    PlusIsAdd(a, 0);
    BitsDiffer(Add(0, a), a);
    BitsDiffer(Add(a, 0), a);
  }

  /** The four rows of a mixed column. */
  lemma MixedRow(r: nat, a: Byte, b: Byte, c: Byte, d: Byte)
    requires r < 4
    ensures ByteAt(MixColumn(Column(a, b, c, d)), r) == MatrixRow(r, a, b, c, d)
  {
    hide Add, Xtime, Product;
    SmallProducts(a);
    SmallProducts(b);
    SmallProducts(c);
    SmallProducts(d);
    SumTurns(a, Xtime(b), Add(Xtime(c), c), d);
    SumTurns(a, b, Xtime(c), Add(Xtime(d), d));
    SumTurns(b, Xtime(c), Add(Xtime(d), d), a);
    SumTurns(Add(Xtime(a), a), b, c, Xtime(d));
    SumTurns(b, c, Xtime(d), Add(Xtime(a), a));
    SumTurns(c, Xtime(d), Add(Xtime(a), a), b);
  }

  lemma SubstitutedLaw(s: seq<Byte>)
    requires |s| == 16
    ensures IsSubstituted(s, Substituted(s, Sbox()))
  {
    hide IsSubstitute, Sub;
    forall i | 0 <= i < 16 ensures IsSubstitute(s[i], Sbox()[s[i]]) {
      SubIsSubstitute(s[i]);
    }
  }

  lemma ShiftedFrom(t: seq<Byte>, c: nat, j: nat)
    requires |t| == 16 && c < 4 && j < 4
    ensures Places(ShiftRowTab()) && Shifted(t, ShiftRowTab())[4 * c + j] == t[From(c, j)]
  {
    ShiftRowTabMeans(j, c);
  }

  /** A round is that of section 5.1 of FIPS 197. */
  lemma RoundIsStandard(s: seq<Byte>, k: seq<Byte>, g: Tables)
    requires |s| == 16 && |k| == 16 && Standard(g)
    ensures IsRound(s, k, Round(s, k, g))
  {
    hide IsSubstituted, MatrixRow, MixColumn, Add, From;
    var t := Substituted(s, Sbox());
    SubstitutedLaw(s);
    forall c: nat, r: nat | c < 4 && r < 4 ensures RoundByte(t, k, Round(s, k, g), c, r) {
      RoundByteLaw(t, k, g, c, r);
    }
  }

  lemma RoundByteLaw(t: seq<Byte>, k: seq<Byte>, g: Tables, c: nat, r: nat)
    requires |t| == 16 && |k| == 16 && Standard(g) && c < 4 && r < 4
    ensures RoundByte(t, k, KeyAdded(Mixed(Shifted(t, g.shiftRowTab)), k), c, r)
  {
    hide MatrixRow, MixColumn, Add, From, Sbox, Working;
    var u := Shifted(t, ShiftRowTab());
    ShiftedFrom(t, c, 0);
    ShiftedFrom(t, c, 1);
    ShiftedFrom(t, c, 2);
    ShiftedFrom(t, c, 3);
    MixedRow(r, u[4 * c], u[4 * c + 1], u[4 * c + 2], u[4 * c + 3]);
    RowInColumn(c, r);
    assert ColumnAt(u, c) == Column(u[4 * c], u[4 * c + 1], u[4 * c + 2], u[4 * c + 3]);
    assert Mixed(u)[4 * c + r] == ByteAt(MixColumn(ColumnAt(u, c)), r);
    assert KeyAdded(Mixed(u), k)[4 * c + r] == Add(Mixed(u)[4 * c + r], k[4 * c + r]);
  }

  lemma RowInColumn(c: nat, r: nat)
    requires r < 4
    ensures (4 * c + r) / 4 == c && (4 * c + r) % 4 == r
  {
  }

  lemma LastRoundIsStandard(s: seq<Byte>, k: seq<Byte>, g: Tables)
    requires |s| == 16 && |k| == 16 && Standard(g)
    ensures IsLastRound(s, k, LastRound(s, k, g))
  {
    hide IsSubstituted, Add, From;
    var t := Substituted(s, Sbox());
    SubstitutedLaw(s);
    forall c: nat, r: nat | c < 4 && r < 4 ensures LastByte(t, k, LastRound(s, k, g), c, r) {
      ShiftedFrom(t, c, r);
    }
  }

  lemma {:induction false} AfterIsStandard(block: seq<Byte>, key: seq<Byte>, r: nat, g: Tables)
    requires |block| == 16 && 1 <= r && 16 * r <= |key| && Standard(g)
    ensures IsAfter(block, key, r, After(block, key, r, g))
  {
    hide Round, IsRound, Working;
    if r > 1 {
      AfterIsStandard(block, key, r - 1, g);
      AfterStep(block, key, r - 1, RoundKey(key, r - 1), g);
      RoundIsStandard(After(block, key, r - 1, g), RoundKey(key, r - 1), g);
      assert Follows(block, key, r, After(block, key, r - 1, g), After(block, key, r, g));
    }
  }

  /** With the tables of the program, the cipher is that of section 5.1 of FIPS 197. */
  lemma CipherIsStandard(block: seq<Byte>, key: seq<Byte>, n: nat, g: Tables)
    requires |block| == 16 && Schedule(key, n) && Standard(g)
    ensures IsCipher(block, key, n, Cipher(block, key, n, g))
  {
    hide After, LastRound, IsLastRound, Working, IsAfter;
    AfterIsStandard(block, key, n - 1, g);
    LastRoundIsStandard(After(block, key, n - 1, g), RoundKey(key, n - 1), g);
    assert Ends(block, key, n, After(block, key, n - 1, g), Cipher(block, key, n, g));
  }

  /** AES_SubBytes */
  method SubBytes(state: array<Byte>, sbox: seq<Byte>)
    requires |sbox| == 256
    requires state.Length == 16
    modifies state
    ensures state[..] == Substituted(old(state[..]), sbox)
  {
    var i := 0;
    while i < 16
      invariant 0 <= i <= 16
      invariant forall j :: 0 <= j < i ==> state[j] == sbox[old(state[j])]
      invariant forall j :: i <= j < 16 ==> state[j] == old(state[j])
    {
      state[i] := sbox[state[i]];
      i := i + 1;
    }
  }

  /** AES_AddRoundKey */
  method AddRoundKey(state: array<Byte>, rkey: seq<Byte>)
    requires state.Length == 16 && |rkey| == 16
    modifies state
    ensures state[..] == KeyAdded(old(state[..]), rkey)
  {
    var i := 0;
    while i < 16
      invariant 0 <= i <= 16
      invariant forall j :: 0 <= j < i ==> state[j] == Add(old(state[j]), rkey[j])
      invariant forall j :: i <= j < 16 ==> state[j] == old(state[j])
    {
      state[i] := Add(state[i], rkey[i]);
      i := i + 1;
    }
  }

  /** AES_ShiftRows */
  method ShiftRows(state: array<Byte>, shifttab: seq<nat>)
    requires state.Length == 16 && Places(shifttab)
    modifies state
    ensures state[..] == Shifted(old(state[..]), shifttab)
  {
    var h := state[..];
    var i := 0;
    while i < 16
      invariant 0 <= i <= 16
      invariant forall j :: 0 <= j < i ==> state[j] == h[shifttab[j]]
    {
      state[i] := h[shifttab[i]];
      i := i + 1;
    }
  }

  // The first c columns have had the pass, the others are as they were.
  ghost predicate PassedTo(was: seq<Byte>, now: seq<Byte>, c: nat, f: Column -> Column) {
    && |was| == |now| == 16 && c <= 4
    && (forall j :: 0 <= j < 4 * c ==> now[j] == Columns(was, f)[j])
    && (forall j :: 4 * c <= j < 16 ==> now[j] == was[j])
  }

  lemma PassStep(was: seq<Byte>, now: seq<Byte>, next: seq<Byte>, c: nat, f: Column -> Column, m: Column)
    requires c < 4 && PassedTo(was, now, c, f) && m == f(ColumnAt(now, c))
    requires next == now[4 * c := m.a][4 * c + 1 := m.b][4 * c + 2 := m.c][4 * c + 3 := m.d]
    ensures PassedTo(was, next, c + 1, f)
  {
    InColumn(c);
    assert ColumnAt(was, c) == ColumnAt(now, c);
    var all := Columns(was, f);
    assert all[4 * c] == m.a && all[4 * c + 1] == m.b && all[4 * c + 2] == m.c && all[4 * c + 3] == m.d;
  }

  /** AES_MixColumns */
  method MixColumns(state: array<Byte>, xtime: seq<Byte>)
    requires state.Length == 16 && XtimeTable(xtime)
    modifies state
    ensures state[..] == Mixed(old(state[..]))
  {
    var i := 0;
    ghost var was := state[..];
    ghost var c := 0;
    while i < 16
      invariant 0 <= c <= 4 && i == 4 * c && PassedTo(was, state[..], c, MixColumn)
    {
      ghost var now := state[..];
      ghost var m := MixOneColumn(state, i, xtime, c);
      PassStep(was, now, state[..], c, MixColumn, m);
      i, c := i + 4, c + 1;
    }
  }

  // The body of the loop for the column at i.
  method MixOneColumn(state: array<Byte>, i: nat, xtime: seq<Byte>, ghost c: nat) returns (ghost m: Column)
    requires state.Length == 16 && c < 4 && i == 4 * c && XtimeTable(xtime)
    modifies state
    ensures m == MixColumn(ColumnAt(old(state[..]), c))
    ensures state[..] == old(state[..])[i := m.a][i + 1 := m.b][i + 2 := m.c][i + 3 := m.d]
  {
    var s0, s1, s2, s3 := state[i], state[i + 1], state[i + 2], state[i + 3];
    var h := Sum(s0, s1, s2, s3);
    m := MixedBytes(s0, s1, s2, s3, h);
    state[i] := Add(state[i], Add(h, xtime[Add(s0, s1)]));
    state[i + 1] := Add(state[i + 1], Add(h, xtime[Add(s1, s2)]));
    state[i + 2] := Add(state[i + 2], Add(h, xtime[Add(s2, s3)]));
    state[i + 3] := Add(state[i + 3], Add(h, xtime[Add(s3, s0)]));
  }

  lemma MixedBytes(s0: Byte, s1: Byte, s2: Byte, s3: Byte, h: Byte) returns (m: Column)
    requires h == Sum(s0, s1, s2, s3)
    ensures m == MixColumn(Column(s0, s1, s2, s3))
    ensures Add(s0, Add(h, Xtime(Add(s0, s1)))) == m.a && Add(s1, Add(h, Xtime(Add(s1, s2)))) == m.b
    ensures Add(s2, Add(h, Xtime(Add(s2, s3)))) == m.c && Add(s3, Add(h, Xtime(Add(s3, s0)))) == m.d
  {
    m := MixColumn(Column(s0, s1, s2, s3));
    SumTurns(s0, s1, s2, s3);
    SumTurns(s1, s2, s3, s0);
    SumTurns(s2, s3, s0, s1);
    MixIsRow(s0, s1, s2, s3);
    MixIsRow(s1, s2, s3, s0);
    MixIsRow(s2, s3, s0, s1);
    MixIsRow(s3, s0, s1, s2);
  }

  /** AES_MixColumns_Inv */
  method MixColumnsInv(state: array<Byte>, xtime: seq<Byte>)
    requires state.Length == 16 && XtimeTable(xtime)
    modifies state
    ensures state[..] == Unmixed(old(state[..]))
  {
    var i := 0;
    ghost var was := state[..];
    ghost var c := 0;
    while i < 16
      invariant 0 <= c <= 4 && i == 4 * c && PassedTo(was, state[..], c, UnmixColumn)
    {
      ghost var now := state[..];
      ghost var m := UnmixOneColumn(state, i, xtime, c);
      PassStep(was, now, state[..], c, UnmixColumn, m);
      i, c := i + 4, c + 1;
    }
  }

  method UnmixOneColumn(state: array<Byte>, i: nat, xtime: seq<Byte>, ghost c: nat) returns (ghost m: Column)
    requires state.Length == 16 && c < 4 && i == 4 * c && XtimeTable(xtime)
    modifies state
    ensures m == UnmixColumn(ColumnAt(old(state[..]), c))
    ensures state[..] == old(state[..])[i := m.a][i + 1 := m.b][i + 2 := m.c][i + 3 := m.d]
  {
    var s0, s1, s2, s3 := state[i], state[i + 1], state[i + 2], state[i + 3];
    var h := Sum(s0, s1, s2, s3);
    var xh := xtime[h];
    var h1 := Add(xtime[xtime[Add(xh, Add(s0, s2))]], h);
    var h2 := Add(xtime[xtime[Add(xh, Add(s1, s3))]], h);
    m := UnmixedBytes(s0, s1, s2, s3, h1, h2);
    state[i] := Add(state[i], Add(h1, xtime[Add(s0, s1)]));
    state[i + 1] := Add(state[i + 1], Add(h2, xtime[Add(s1, s2)]));
    state[i + 2] := Add(state[i + 2], Add(h1, xtime[Add(s2, s3)]));
    state[i + 3] := Add(state[i + 3], Add(h2, xtime[Add(s3, s0)]));
  }

  lemma UnmixedBytes(s0: Byte, s1: Byte, s2: Byte, s3: Byte, h1: Byte, h2: Byte) returns (m: Column)
    requires h1 == Add(Times4(Add(Xtime(Sum(s0, s1, s2, s3)), Add(s0, s2))), Sum(s0, s1, s2, s3))
    requires h2 == Add(Times4(Add(Xtime(Sum(s0, s1, s2, s3)), Add(s1, s3))), Sum(s0, s1, s2, s3))
    ensures m == UnmixColumn(Column(s0, s1, s2, s3))
    ensures Add(s0, Add(h1, Xtime(Add(s0, s1)))) == m.a && Add(s1, Add(h2, Xtime(Add(s1, s2)))) == m.b
    ensures Add(s2, Add(h1, Xtime(Add(s2, s3)))) == m.c && Add(s3, Add(h2, Xtime(Add(s3, s0)))) == m.d
  {
    m := UnmixColumn(Column(s0, s1, s2, s3));
    SumTurns(s0, s1, s2, s3);
    SumTurns(s1, s2, s3, s0);
    SumTurns(s2, s3, s0, s1);
    AddSwaps(s0, s2);
    AddSwaps(s1, s3);
    UnmixIsRow(s0, s1, s2, s3);
    UnmixIsRow(s1, s2, s3, s0);
    UnmixIsRow(s2, s3, s0, s1);
    UnmixIsRow(s3, s0, s1, s2);
  }

  lemma AddSwaps(a: Byte, b: Byte)
    ensures Add(a, b) == Add(b, a)
  {
    AddBits();
    ByBits(Add(a, b), Add(b, a));
  }

  /** AES_Init */
  method Init() returns (g: Tables)
    ensures Working(g)
    ensures g.sbox == Sbox() && g.sboxInv == SboxInverse()
    ensures g.shiftRowTab == ShiftRowTab() && g.shiftRowTabInv == ShiftRowTabInverse()
  {
    SboxDistinct();
    var sboxInv := InvertSbox(Sbox(), SboxInverse());
    var shiftRowTabInv := InvertShiftRowTab();
    var xtime := DoublingTable();
    g := Tables(Sbox(), sboxInv, ShiftRowTab(), shiftRowTabInv, xtime);
  }

  lemma SboxDistinct()
    ensures Undoes(SboxInverse(), Sbox())
  {
    forall i | 0 <= i < 256 ensures SboxInverse()[Sbox()[i]] == i {
      SboxUndone(i);
    }
  }

  // The first m entries of a table.
  ghost function Image(tab: seq<nat>, m: nat): set<int>
    requires m <= |tab|
  {
    if m == 0 then {} else Image(tab, m - 1) + {tab[m - 1]}
  }

  ghost function Range(m: nat): set<int> {
    if m == 0 then {} else Range(m - 1) + {m - 1}
  }

  lemma {:induction false} ImageMembers(inv: seq<nat>, tab: seq<nat>, m: nat, v: int)
    requires Undoes(inv, tab) && m <= |tab| && v in Image(tab, m)
    ensures 0 <= v < |tab| && inv[v] < m && tab[inv[v]] == v
  {
    if v != tab[m - 1] {
      ImageMembers(inv, tab, m - 1, v);
    }
  }

  lemma {:induction false} ImageSize(inv: seq<nat>, tab: seq<nat>, m: nat)
    requires Undoes(inv, tab) && m <= |tab|
    ensures |Image(tab, m)| == m
  {
    if m > 0 {
      ImageSize(inv, tab, m - 1);
      if tab[m - 1] in Image(tab, m - 1) {
        ImageMembers(inv, tab, m - 1, tab[m - 1]);
      }
    }
  }

  lemma {:induction false} RangeMembers(m: nat)
    ensures |Range(m)| == m && forall v :: v in Range(m) <==> 0 <= v < m
  {
    if m > 0 {
      RangeMembers(m - 1);
    }
  }

  lemma SameSize(a: set<int>, b: set<int>)
    requires a <= b && |a| == |b|
    ensures a == b
  {
    assert |b - a| == 0 && b == a + (b - a);
  }

  /** A table without repetitions has every value as an entry. */
  lemma Onto(inv: seq<nat>, tab: seq<nat>, n: nat)
    requires Undoes(inv, tab) && n < |tab|
    ensures inv[n] < |tab| && tab[inv[n]] == n
  {
    var all := |tab|;
    ImageSize(inv, tab, all);
    RangeMembers(all);
    forall v | v in Image(tab, all) ensures v in Range(all) {
      ImageMembers(inv, tab, all, v);
    }
    SameSize(Image(tab, all), Range(all));
    ImageMembers(inv, tab, all, n);
  }

  method InvertSbox(sbox: seq<Byte>, ghost undo: seq<Byte>) returns (inv: seq<Byte>)
    requires |sbox| == 256 && Undoes(undo, sbox)
    ensures inv == undo
  {
    var table := new Byte[256];
    var i := 0;
    while i < 256
      invariant 0 <= i <= 256
      invariant forall j :: 0 <= j < i ==> table[sbox[j]] == j
    {
      assert forall j :: 0 <= j < i ==> undo[sbox[j]] == j && undo[sbox[i]] == i;
      table[sbox[i]] := i;
      i := i + 1;
    }
    inv := table[..];
    OnlyInverse(inv, undo, sbox);
  }

  lemma OnlyInverse(inv: seq<nat>, undo: seq<nat>, tab: seq<nat>)
    requires Undoes(undo, tab) && |inv| == |tab| && forall j :: 0 <= j < |tab| ==> inv[tab[j]] == j
    ensures inv == undo
  {
    forall n | 0 <= n < |tab| ensures inv[n] == undo[n] {
      Onto(undo, tab, n);
      assert inv[tab[undo[n]]] == undo[n];
    }
  }

  method InvertShiftRowTab() returns (inv: seq<nat>)
    ensures inv == ShiftRowTabInverse()
  {
    var tab := ShiftRowTab();
    var table := new nat[16];
    var i := 0;
    while i < 16
      invariant 0 <= i <= 16
      invariant forall j :: 0 <= j < i ==> table[tab[j]] == j
    {
      table[tab[i]] := i;
      i := i + 1;
    }
    inv := table[..];
    OnlyInverse(inv, ShiftRowTabInverse(), tab);
  }

  method DoublingTable() returns (xtime: seq<Byte>)
    ensures XtimeTable(xtime)
  {
    var table := new Byte[256];
    var i := 0;
    while i < 128
      invariant 0 <= i <= 128
      invariant forall j :: 0 <= j < i ==> table[j] == Xtime(j)
      invariant forall j :: 128 <= j < 128 + i ==> table[j] == Xtime(j)
    {
      table[i] := 2 * i;
      table[128 + i] := Add(2 * i, 0x1b);
      i := i + 1;
    }
    xtime := table[..];
  }

  /** AES_ExpandKey: the key schedule of a key of 16, 24 or 32 bytes; any other key is left as it is. */
  method ExpandKey(key: seq<Byte>, g: Tables) returns (w: seq<Byte>)
    requires Standard(g)
    ensures |key| == 16 || |key| == 24 || |key| == 32 ==> |w| == 4 * |key| + 112 && IsSchedule(key, w, |w| / 4)
    ensures |key| != 16 && |key| != 24 && |key| != 32 ==> w == key
  {
    hide IsSchedule, Standard, IsTemp, Rcon, Add;
    w := key;
    var kl := |key|;
    if kl != 16 && kl != 24 && kl != 32 {
      return;
    }
    var ks := if kl == 16 then 16 * (10 + 1) else if kl == 24 then 16 * (12 + 1) else 16 * (14 + 1);
    var rcon: Byte := 1;
    var i := kl;
    ghost var n := kl / 4;
    ScheduleStart(key);
    while i < ks
      invariant i == 4 * n == |w| && kl / 4 <= n && i <= ks && IsSchedule(key, w, n)
      invariant rcon == RconAt(n, kl)
    {
      w, rcon := NextWord(key, w, i, kl, n, rcon, g);
      i, n := i + 4, n + 1;
    }
  }

  // The constant for the next word whose number is a multiple of the key's.
  ghost function RconAt(n: nat, kl: nat): Byte
    requires (kl == 16 || kl == 24 || kl == 32) && n >= kl / 4
  {
    RconTurns(n, kl / 4);
    Rcon((n + kl / 4 - 1) / (kl / 4))
  }

  method NextWord(ghost key: seq<Byte>, w0: seq<Byte>, i: nat, kl: nat, ghost n: nat, rcon0: Byte, g: Tables)
    returns (w: seq<Byte>, rcon: Byte)
    requires Standard(g) && kl == |key| && (kl == 16 || kl == 24 || kl == 32) && i == 4 * n == |w0| && n >= kl / 4
    requires IsSchedule(key, w0, n) && rcon0 == RconAt(n, kl)
    ensures |w| == 4 * n + 4 && IsSchedule(key, w, n + 1) && rcon == RconAt(n + 1, kl)
  {
    hide IsSchedule, Standard, IsTemp, Rcon, Add;
    var temp;
    temp, rcon := NextTemp(w0, i, kl, n, rcon0, g);
    w := w0 + [Add(w0[i - kl], temp[0]), Add(w0[i - kl + 1], temp[1]), Add(w0[i - kl + 2], temp[2]), Add(w0[i - kl + 3], temp[3])];
    assert w[..4 * n] == w0;
    ScheduleStep(key, w0, w, n, temp);
  }

  lemma ScheduleStart(key: seq<Byte>)
    requires |key| == 16 || |key| == 24 || |key| == 32
    ensures IsSchedule(key, key, |key| / 4) && RconAt(|key| / 4, |key|) == 1
  {
    assert key[..|key|] == key;
  }

  // The first part of the loop of AES_ExpandKey: what is added to the word kl bytes before.
  method NextTemp(w: seq<Byte>, i: nat, kl: nat, ghost n: nat, rcon0: Byte, g: Tables) returns (temp: seq<Byte>,
                  rcon: Byte)
    requires Standard(g) && (kl == 16 || kl == 24 || kl == 32) && i == 4 * n == |w| && n >= kl / 4
    requires rcon0 == RconAt(n, kl)
    ensures |temp| == 4 && forall j: nat :: j < 4 ==> IsTemp(w, kl / 4, n, j, temp[j])
    ensures rcon == RconAt(n + 1, kl)
  {
    hide IsSubstitute, Sub, Add;
    hide IsTemp, Rcon, RconAt, Standard;
    temp, rcon := w[i - 4..i], rcon0;
    RconTurns(n, kl / 4);
    ghost var last := temp;
    RconMoves(n, kl);
    StandardSize(g);
    if i % kl == 0 {
      temp := [Add(g.sbox[temp[1]], rcon), g.sbox[temp[2]], g.sbox[temp[3]], g.sbox[temp[0]]];
      rcon := if 2 * rcon >= 256 then Add(2 * rcon - 256, 0x1b) else 2 * rcon;
    } else if kl > 24 && i % kl == 16 {
      temp := [g.sbox[temp[0]], g.sbox[temp[1]], g.sbox[temp[2]], g.sbox[temp[3]]];
    }
    TempByte(w, kl / 4, n, 0, last, temp[0], rcon0, g);
    TempByte(w, kl / 4, n, 1, last, temp[1], rcon0, g);
    TempByte(w, kl / 4, n, 2, last, temp[2], rcon0, g);
    TempByte(w, kl / 4, n, 3, last, temp[3], rcon0, g);
  }

  lemma RconMoves(n: nat, kl: nat)
    requires (kl == 16 || kl == 24 || kl == 32) && n >= kl / 4
    ensures n % (kl / 4) == 0 ==> n / (kl / 4) >= 1 && RconAt(n, kl) == Rcon(n / (kl / 4))
    ensures RconAt(n + 1, kl) == if n % (kl / 4) == 0 then Xtime(RconAt(n, kl)) else RconAt(n, kl)
  {
    hide Xtime, Rcon;
    RconTurns(n, kl / 4);
    var nk, whole := kl / 4, n % (kl / 4) == 0;
    RconStep((n + nk - 1) / nk, (n + nk) / nk, whole);
  }

  lemma RconStep(a: nat, b: nat, whole: bool)
    requires a >= 1 && b == a + (if whole then 1 else 0)
    ensures Rcon(b) == if whole then Xtime(Rcon(a)) else Rcon(a)
  {
    hide Xtime;
  }

  lemma StandardSize(g: Tables)
    requires Standard(g)
    ensures |g.sbox| == 256
  {
  }

  lemma TempByte(w: seq<Byte>, nk: nat, n: nat, j: nat, last: seq<Byte>, t: Byte, rcon: Byte, g: Tables)
    requires nk >= 4 && n >= nk && j < 4 && |w| == 4 * n && last == w[4 * n - 4..4 * n] && Standard(g)
    requires |g.sbox| == 256
    requires n % nk == 0 ==> n / nk >= 1 && rcon == Rcon(n / nk)
    requires if n % nk == 0 then t == (if j == 0 then Add(g.sbox[last[1]], rcon) else g.sbox[last[if j == 3 then 0 else j + 1]])
             else if nk > 6 && n % nk == 4 then t == g.sbox[last[j]] else t == last[j]
    ensures IsTemp(w, nk, n, j, t)
  {
    hide IsSubstitute, Sub, Add, Rcon, Standard;
    SboxLaw(g, Turned(w, n, j));
    SboxLaw(g, Last(w, n, j));
    assert last[if j == 3 then 0 else j + 1] == Turned(w, n, j) && last[j] == Last(w, n, j);
    if n % nk == 0 {
      ghost var u := g.sbox[Turned(w, n, j)];
      assert IsSubstitute(Turned(w, n, j), u) && t == (if j == 0 then Add(u, Rcon(n / nk)) else u);
    }
  }

  lemma SboxLaw(g: Tables, x: Byte)
    requires Standard(g)
    ensures |g.sbox| == 256 && IsSubstitute(x, g.sbox[x])
  {
    SubIsSubstitute(x);
  }

  /** The constant moves on after every word whose number is a multiple of the key's. */
  lemma RconTurns(n: nat, nk: nat)
    requires n >= nk && (nk == 4 || nk == 6 || nk == 8)
    ensures (n + nk) / nk == (n + nk - 1) / nk + (if n % nk == 0 then 1 else 0) && (n + nk - 1) / nk >= 1
    ensures n % nk == 0 ==> (n + nk - 1) / nk == n / nk
    ensures (4 * n) % (4 * nk) == 4 * (n % nk)
  {
    if nk == 4 {
      RconTurnsFour(n);
    } else if nk == 6 {
      RconTurnsSix(n);
    } else {
      RconTurnsEight(n);
    }
  }

  lemma RconTurnsFour(n: nat)
    ensures (n + 4) / 4 == (n + 3) / 4 + (if n % 4 == 0 then 1 else 0) && (n % 4 == 0 ==> (n + 3) / 4 == n / 4)
    ensures (4 * n) % 16 == 4 * (n % 4)
  {
  }

  lemma RconTurnsSix(n: nat)
    ensures (n + 6) / 6 == (n + 5) / 6 + (if n % 6 == 0 then 1 else 0) && (n % 6 == 0 ==> (n + 5) / 6 == n / 6)
    ensures (4 * n) % 24 == 4 * (n % 6)
  {
  }

  lemma RconTurnsEight(n: nat)
    ensures (n + 8) / 8 == (n + 7) / 8 + (if n % 8 == 0 then 1 else 0) && (n % 8 == 0 ==> (n + 7) / 8 == n / 8)
    ensures (4 * n) % 32 == 4 * (n % 8)
  {
  }

  lemma ScheduleStep(key: seq<Byte>, was: seq<Byte>, w: seq<Byte>, n: nat, temp: seq<Byte>)
    requires IsSchedule(key, was, n) && |was| == 4 * n && |w| == 4 * n + 4 && |temp| == 4 && w[..4 * n] == was
    requires forall j: nat :: j < 4 ==> IsTemp(was, |key| / 4, n, j, temp[j])
    requires forall j: nat :: j < 4 ==> w[4 * n + j] == Add(was[4 * (n - |key| / 4) + j], temp[j])
    ensures IsSchedule(key, w, n + 1)
  {
    hide IsTemp, IsWordByte, Add;
    assert was[..|key|] == w[..|key|];
    forall i: nat, j: nat | |key| / 4 <= i < n + 1 && j < 4 ensures IsWordByte(w, |key| / 4, i, j) {
      if i < n {
        WordKept(was, w, |key| / 4, i, j);
      } else {
        TempKept(was, w, |key| / 4, n, j, temp[j]);
        WordMade(w, |key| / 4, n, j, temp[j]);
      }
    }
  }

  lemma WordMade(w: seq<Byte>, nk: nat, i: nat, j: nat, t: Byte)
    requires nk >= 4 && i >= nk && j < 4 && 4 * i + 4 <= |w|
    requires IsTemp(w, nk, i, j, t) && w[4 * i + j] == Add(w[4 * (i - nk) + j], t)
    ensures IsWordByte(w, nk, i, j)
  {
    hide IsTemp, Add;
    assert exists t: Byte :: IsTemp(w, nk, i, j, t) && w[4 * i + j] == Add(w[4 * (i - nk) + j], t);
  }

  lemma TempKept(was: seq<Byte>, w: seq<Byte>, nk: nat, i: nat, j: nat, t: Byte)
    requires nk >= 4 && i >= nk && j < 4 && 4 * i <= |was| && was <= w && IsTemp(was, nk, i, j, t)
    ensures IsTemp(w, nk, i, j, t)
  {
    hide IsSubstitute, Add;
    assert Turned(was, i, j) == Turned(w, i, j) && Last(was, i, j) == Last(w, i, j);
  }

  lemma WordKept(was: seq<Byte>, w: seq<Byte>, nk: nat, i: nat, j: nat)
    requires nk >= 4 && i >= nk && j < 4 && 4 * i + 4 <= |was| && was <= w && IsWordByte(was, nk, i, j)
    ensures IsWordByte(w, nk, i, j)
  {
    hide IsTemp, Add;
    var t: Byte :| IsTemp(was, nk, i, j, t) && was[4 * i + j] == Add(was[4 * (i - nk) + j], t);
    TempKept(was, w, nk, i, j, t);
    assert w[4 * i + j] == was[4 * i + j] && w[4 * (i - nk) + j] == was[4 * (i - nk) + j];
    WordMade(w, nk, i, j, t);
  }

  // The body of the loop of AES_Encrypt.
  method CipherRound(block: array<Byte>, rkey: seq<Byte>, g: Tables)
    requires Working(g) && block.Length == 16 && |rkey| == 16
    modifies block
    ensures block[..] == Round(old(block[..]), rkey, g)
  {
    SubBytes(block, g.sbox);
    ShiftRows(block, g.shiftRowTab);
    MixColumns(block, g.xtime);
    AddRoundKey(block, rkey);
  }

  /** AES_Encrypt */
  method Encrypt(block: array<Byte>, key: seq<Byte>, g: Tables, ghost n: nat)
    requires Working(g) && block.Length == 16 && Schedule(key, n)
    modifies block
    ensures block[..] == Cipher(old(block[..]), key, n, g)
    ensures Standard(g) ==> IsCipher(old(block[..]), key, n, block[..])
  {
    var l := |key|;
    ghost var plain := block[..];
    AddRoundKey(block, key[0..16]);
    var i := 16;
    ghost var r := 1;
    while i < l - 16
      invariant i == 16 * r && 1 <= r < n && block[..] == After(plain, key, r, g)
    {
      AfterStep(plain, key, r, key[i..i + 16], g);
      CipherRound(block, key[i..i + 16], g);
      i, r := i + 16, r + 1;
    }
    CipherEnds(plain, key, n, block[..], key[i..l], g);
    EndOfCipher(block, key[i..l], g);
    if Standard(g) {
      CipherIsStandard(plain, key, n, g);
    }
  }

  lemma CipherEnds(block: seq<Byte>, key: seq<Byte>, n: nat, s: seq<Byte>, k: seq<Byte>, g: Tables)
    requires |block| == 16 && Schedule(key, n) && Working(g)
    requires s == After(block, key, n - 1, g) && k == key[16 * (n - 1)..16 * n]
    ensures Cipher(block, key, n, g) == LastRound(s, k, g)
  {
  }

  method EndOfCipher(block: array<Byte>, rkey: seq<Byte>, g: Tables)
    requires Working(g) && block.Length == 16 && |rkey| == 16
    modifies block
    ensures block[..] == LastRound(old(block[..]), rkey, g)
  {
    SubBytes(block, g.sbox);
    ShiftRows(block, g.shiftRowTab);
    AddRoundKey(block, rkey);
  }

  // The body of the loop of AES_Decrypt.
  method InverseCipherRound(block: array<Byte>, rkey: seq<Byte>, g: Tables)
    requires Working(g) && block.Length == 16 && |rkey| == 16
    modifies block
    ensures block[..] == InverseRound(old(block[..]), rkey, g)
  {
    AddRoundKey(block, rkey);
    MixColumnsInv(block, g.xtime);
    ShiftRows(block, g.shiftRowTabInv);
    SubBytes(block, g.sboxInv);
  }

  method StartOfInverseCipher(block: array<Byte>, rkey: seq<Byte>, g: Tables)
    requires Working(g) && block.Length == 16 && |rkey| == 16
    modifies block
    ensures block[..] == InverseLastRound(old(block[..]), rkey, g)
  {
    AddRoundKey(block, rkey);
    ShiftRows(block, g.shiftRowTabInv);
    SubBytes(block, g.sboxInv);
  }

  /** AES_Decrypt */
  method Decrypt(block: array<Byte>, key: seq<Byte>, g: Tables, ghost n: nat)
    requires Working(g) && block.Length == 16 && Schedule(key, n)
    modifies block
    ensures block[..] == InverseCipher(old(block[..]), key, n, g)
  {
    var l := |key|;
    ghost var c := block[..];
    InverseStarts(c, key, n, key[l - 16..l], g);
    StartOfInverseCipher(block, key[l - 16..l], g);
    var i := l - 32;
    ghost var r := n - 2;
    while i >= 16
      invariant i == 16 * r && 0 <= r < n - 1 && block[..] == Before(c, key, n, r, g)
    {
      InverseStep(c, key, n, r, block[..], key[i..i + 16], g);
      InverseCipherRound(block, key[i..i + 16], g);
      i, r := i - 16, r - 1;
    }
    InverseEnds(c, key, n, block[..], key[0..16], g);
    AddRoundKey(block, key[0..16]);
  }

  lemma InverseStarts(block: seq<Byte>, key: seq<Byte>, n: nat, k: seq<Byte>, g: Tables)
    requires |block| == 16 && Schedule(key, n) && Working(g) && k == key[16 * (n - 1)..16 * n]
    ensures Before(block, key, n, n - 2, g) == InverseLastRound(block, k, g)
  {
  }

  lemma InverseStep(block: seq<Byte>, key: seq<Byte>, n: nat, r: nat, s: seq<Byte>, k: seq<Byte>, g: Tables)
    requires |block| == 16 && Schedule(key, n) && 0 < r && r + 1 < n && Working(g)
    requires s == Before(block, key, n, r, g) && k == key[16 * r..16 * r + 16]
    ensures Before(block, key, n, r - 1, g) == InverseRound(s, k, g)
  {
  }

  lemma InverseEnds(block: seq<Byte>, key: seq<Byte>, n: nat, s: seq<Byte>, k: seq<Byte>, g: Tables)
    requires |block| == 16 && Schedule(key, n) && Working(g) && s == Before(block, key, n, 0, g) && k == key[0..16]
    ensures InverseCipher(block, key, n, g) == KeyAdded(s, k)
  {
  }

  /** A block encrypted and decrypted in place is what it was. */
  method EncryptAndDecrypt(block: array<Byte>, key: seq<Byte>)
    requires block.Length == 16 && |key| % 16 == 0 && |key| >= 32
    modifies block
    ensures block[..] == old(block[..])
  {
    var g := Init();
    ghost var plain, n := block[..], |key| / 16;
    Encrypt(block, key, g, n);
    Decrypt(block, key, g, n);
    DecryptEncrypt(plain, key, n, g);
  }
}
