/** The cipher as section 5.1 of FIPS 197 tells it, byte by byte: what a round makes of a state, and what a
    block becomes. */
module Fips197 {
  import opened ByteField
  import opened SubstitutionLaw

  /** The matrix of section 5.1.3. */
  function Coefficient(r: nat, j: nat): nat
    requires r < 4 && j < 4
  {
    match (j + 4 - r) % 4 case 0 => 2 case 1 => 3 case _ => 1
  }

  // Row r of the matrix against a column.
  function MatrixRow(r: nat, a: Byte, b: Byte, c: Byte, d: Byte): Byte
    requires r < 4
  {
    Add(Add(Product(a, Coefficient(r, 0)), Product(b, Coefficient(r, 1))),
        Add(Product(c, Coefficient(r, 2)), Product(d, Coefficient(r, 3))))
  }

  /** Section 5.1.1, byte by byte. */
  ghost predicate IsSubstituted(s: seq<Byte>, t: seq<Byte>) {
    |s| == |t| == 16 && forall i :: 0 <= i < 16 ==> IsSubstitute(s[i], t[i])
  }

  // Where the byte in row j of column c comes from, section 5.1.2.
  function From(c: nat, j: nat): (i: nat)
    requires j < 4
    ensures i < 16
  {
    4 * ((c + j) % 4) + j
  }

  /** The byte in row r of column c of the next state. */
  ghost predicate RoundByte(t: seq<Byte>, k: seq<Byte>, s: seq<Byte>, c: nat, r: nat)
    requires |t| == |k| == |s| == 16 && c < 4 && r < 4
  {
    s[4 * c + r] == Add(MatrixRow(r, t[From(c, 0)], t[From(c, 1)], t[From(c, 2)], t[From(c, 3)]), k[4 * c + r])
  }

  ghost predicate LastByte(t: seq<Byte>, k: seq<Byte>, s: seq<Byte>, c: nat, r: nat)
    requires |t| == |k| == |s| == 16 && c < 4 && r < 4
  {
    s[4 * c + r] == Add(t[From(c, r)], k[4 * c + r])
  }

  ghost predicate IsRound(was: seq<Byte>, k: seq<Byte>, s: seq<Byte>) {
    |was| == |k| == |s| == 16
    && exists t :: IsSubstituted(was, t) && forall c: nat, r: nat :: c < 4 && r < 4 ==> RoundByte(t, k, s, c, r)
  }

  ghost predicate IsLastRound(was: seq<Byte>, k: seq<Byte>, s: seq<Byte>) {
    |was| == |k| == |s| == 16
    && exists t :: IsSubstituted(was, t) && forall c: nat, r: nat :: c < 4 && r < 4 ==> LastByte(t, k, s, c, r)
  }

  ghost predicate IsKeyAdded(was: seq<Byte>, k: seq<Byte>, s: seq<Byte>) {
    |was| == |k| == |s| == 16 && forall i :: 0 <= i < 16 ==> s[i] == Add(was[i], k[i])
  }

  function RoundKey(key: seq<Byte>, r: nat): (k: seq<Byte>)
    requires 16 * (r + 1) <= |key|
    ensures |k| == 16
  {
    key[16 * r..16 * r + 16]
  }

  /** The state when r round keys have been used. */
  ghost predicate IsAfter(block: seq<Byte>, key: seq<Byte>, r: nat, s: seq<Byte>)
    requires 1 <= r && 16 * r <= |key|
    decreases r, 1
  {
    if r == 1 then IsKeyAdded(block, RoundKey(key, 0), s) else exists was :: Follows(block, key, r, was, s)
  }

  // The last of the r rounds.
  ghost predicate Follows(block: seq<Byte>, key: seq<Byte>, r: nat, was: seq<Byte>, s: seq<Byte>)
    requires 2 <= r && 16 * r <= |key|
    decreases r, 0
  {
    IsAfter(block, key, r - 1, was) && IsRound(was, RoundKey(key, r - 1), s)
  }

  // The round that leaves out the matrix.
  ghost predicate Ends(block: seq<Byte>, key: seq<Byte>, n: nat, was: seq<Byte>, s: seq<Byte>)
    requires n >= 2 && |key| == 16 * n
  {
    IsAfter(block, key, n - 1, was) && IsLastRound(was, RoundKey(key, n - 1), s)
  }

  /** The block under n round keys. */
  ghost predicate IsCipher(block: seq<Byte>, key: seq<Byte>, n: nat, s: seq<Byte>)
    requires n >= 2 && |key| == 16 * n
  {
    exists was :: Ends(block, key, n, was, s)
  }

  /** The round constants of section 5.2: the powers of x from the first on. */
  function Rcon(n: nat): Byte
    requires n >= 1
  {
    if n == 1 then 1 else Xtime(Rcon(n - 1))
  }

  // The byte before word i that stands in place j, and the one that RotWord puts there.
  function Last(w: seq<Byte>, i: nat, j: nat): Byte
    requires i >= 1 && j < 4 && 4 * i <= |w|
  {
    w[4 * (i - 1) + j]
  }

  function Turned(w: seq<Byte>, i: nat, j: nat): Byte
    requires i >= 1 && j < 4 && 4 * i <= |w|
  {
    Last(w, i, if j == 3 then 0 else j + 1)
  }

  // What byte j of word i of the schedule adds to the word nk before, from word i - 1.
  ghost predicate IsTemp(w: seq<Byte>, nk: nat, i: nat, j: nat, t: Byte)
    requires nk >= 4 && i >= nk && j < 4 && 4 * i <= |w|
  {
    if i % nk == 0 then
      exists u: Byte :: IsSubstitute(Turned(w, i, j), u) && t == (if j == 0 then Add(u, Rcon(i / nk)) else u)
    else if nk > 6 && i % nk == 4 then IsSubstitute(Last(w, i, j), t)
    else t == Last(w, i, j)
  }

  ghost predicate IsWordByte(w: seq<Byte>, nk: nat, i: nat, j: nat)
    requires nk >= 4 && i >= nk && j < 4 && 4 * i + 4 <= |w|
  {
    exists t: Byte :: IsTemp(w, nk, i, j, t) && w[4 * i + j] == Add(w[4 * (i - nk) + j], t)
  }

  /** The first n words of a key schedule, figure 11 of FIPS 197. */
  ghost predicate IsSchedule(key: seq<Byte>, w: seq<Byte>, n: nat) {
    && |key| >= 16 && |key| % 4 == 0 && |key| <= 4 * n <= |w| && w[..|key|] == key
    && forall i: nat, j: nat :: |key| / 4 <= i < n && j < 4 ==> IsWordByte(w, |key| / 4, i, j)
  }
}
