/** The string operations diff and patch are built from, and the searches for a common prefix,
    suffix or overlap. */
module Strings {

  predicate Occurs(s: string, p: string, i: int) {
    0 <= i && i + |p| <= |s| && s[i..i + |p|] == p
  }

  /** std::string::find from position i: the first occurrence, or -1 for npos. */
  function FindFrom(s: string, p: string, i: nat): (r: int)
    ensures r == -1 || (i <= r && Occurs(s, p, r))
    ensures forall j :: i <= j && (r == -1 || j < r) ==> !Occurs(s, p, j)
    decreases |s| - i
  {
    if i + |p| > |s| then -1 else if Occurs(s, p, i) then i else FindFrom(s, p, i + 1)
  }

  function Find(s: string, p: string): (r: int)
    ensures r == -1 || Occurs(s, p, r)
    ensures forall j :: 0 <= j && (r == -1 || j < r) ==> !Occurs(s, p, j)
  {
    FindFrom(s, p, 0)
  }

  /** std::string::rfind: the last occurrence. */
  function FindBack(s: string, p: string, i: nat): (r: int)
    ensures r == -1 || (r <= i && Occurs(s, p, r))
    ensures forall j :: r < j <= i ==> !Occurs(s, p, j)
  {
    if Occurs(s, p, i) then i else if i == 0 then -1 else FindBack(s, p, i - 1)
  }

  // right(str, n): the last n characters
  function Right(s: string, n: nat): (r: string)
    requires n <= |s|
    ensures |r| == n
  {
    s[|s| - n..]
  }

  function Min(a: int, b: int): int {
    if a < b then a else b
  }

  function Max(a: int, b: int): int {
    if a > b then a else b
  }

  // std::string::substr(pos, n) for pos within the string: n is cut off at the end
  function Mid(s: string, pos: nat, n: nat): string
    requires pos <= |s|
  {
    s[pos..Min(|s|, pos + n)]
  }

  lemma Assoc<T>(a: seq<T>, b: seq<T>, c: seq<T>)
    ensures a + (b + c) == a + b + c
  {
  }

  lemma FiveParts(a: string, p: string, x: string, s: string, b: string)
    ensures a + (p + x + s) + b == (a + p) + x + (s + b)
  {
  }

  lemma PartOfPart(t: string, i: int, j: int, p: int, q: int)
    requires 0 <= i <= j <= |t| && 0 <= p <= q <= j - i
    ensures t[i..j][p..q] == t[i + p..i + q]
  {
    var a, b := t[i..j][p..q], t[i + p..i + q];
    assert |a| == |b| && forall k :: 0 <= k < |a| ==> a[k] == b[k];
  }

  /** n characters in common at the front, and no more. */
  predicate LongestPrefix(a: string, b: string, n: int) {
    && 0 <= n <= |a| && n <= |b| && a[..n] == b[..n]
    && (n < |a| && n < |b| ==> a[n] != b[n])
  }

  predicate CommonEnd(a: string, b: string, n: int) {
    0 <= n <= |a| && n <= |b| && Right(a, n) == Right(b, n)
  }

  lemma EndCharacter(a: string, b: string, n: int, k: int)
    requires CommonEnd(a, b, n) && 0 <= k < n
    ensures a[|a| - 1 - k] == b[|b| - 1 - k]
  {
    assert Right(a, n)[n - 1 - k] == Right(b, n)[n - 1 - k];
  }

  predicate LongestSuffix(a: string, b: string, n: int) {
    && CommonEnd(a, b, n)
    && (n < |a| && n < |b| ==> a[|a| - 1 - n] != b[|b| - 1 - n])
  }

  /** diff_commonPrefix */
  method CommonPrefix(text1: string, text2: string) returns (r: int)
    ensures LongestPrefix(text1, text2, r)
  {
    var n := Min(|text1|, |text2|);
    var i := 0;
    while i < n
      invariant 0 <= i <= n && text1[..i] == text2[..i]
    {
      if text1[i] != text2[i] {
        return i;
      }
      i := i + 1;
    }
    return n;
  }

  /** diff_commonSuffix */
  method CommonSuffix(text1: string, text2: string) returns (r: int)
    ensures LongestSuffix(text1, text2, r)
  {
    var length1, length2 := |text1|, |text2|;
    var n := Min(length1, length2);
    var i := 1;
    while i <= n
      invariant 1 <= i <= n + 1 && CommonEnd(text1, text2, i - 1)
    {
      if text1[length1 - i] != text2[length2 - i] {
        return i - 1;
      }
      RightGrow(text1, text2, i - 1);
      i := i + 1;
    }
    return n;
  }

  lemma RightGrow(a: string, b: string, n: nat)
    requires CommonEnd(a, b, n) && n < |a| && n < |b| && a[|a| - 1 - n] == b[|b| - 1 - n]
    ensures CommonEnd(a, b, n + 1)
  {
    assert Right(a, n + 1) == [a[|a| - 1 - n]] + Right(a, n);
    assert Right(b, n + 1) == [b[|b| - 1 - n]] + Right(b, n);
  }

  /** The last n characters of a are the first n of b. */
  predicate Overlaps(a: string, b: string, n: int) {
    0 <= n <= |a| && n <= |b| && Right(a, n) == b[..n]
  }

  /** The longest overlap not above n. */
  function OverlapUpTo(a: string, b: string, n: nat): (r: nat)
    requires n <= |a| && n <= |b|
    ensures r <= n && Overlaps(a, b, r)
    ensures forall j :: r < j <= n ==> !Overlaps(a, b, j)
  {
    if Overlaps(a, b, n) then n else OverlapUpTo(a, b, n - 1)
  }

  function LongestOverlap(a: string, b: string): (r: nat)
    ensures Overlaps(a, b, r)
    ensures forall j :: r < j ==> !Overlaps(a, b, j)
  {
    OverlapUpTo(a, b, Min(|a|, |b|))
  }

  function SuffixLength(a: string, b: string): (r: nat)
    ensures LongestSuffix(a, b, r)
  {
    if |a| == 0 || |b| == 0 || a[|a| - 1] != b[|b| - 1] then 0
    else
      var r := SuffixLength(a[..|a| - 1], b[..|b| - 1]);
      SuffixGrow(a, b, r);
      r + 1
  }

  lemma SuffixGrow(a: string, b: string, r: nat)
    requires |a| > 0 && |b| > 0 && a[|a| - 1] == b[|b| - 1] && LongestSuffix(a[..|a| - 1], b[..|b| - 1], r)
    ensures LongestSuffix(a, b, r + 1)
  {
    assert Right(a, r + 1) == Right(a[..|a| - 1], r) + [a[|a| - 1]];
    assert Right(b, r + 1) == Right(b[..|b| - 1], r) + [b[|b| - 1]];
  }

  lemma {:induction false} SuffixEqual(a: string, b: string, n: nat)
    requires |a| == |b| && n <= |a|
    ensures Right(a, n) == Right(b, n) <==> n <= SuffixLength(a, b)
  {
    var c := SuffixLength(a, b);
    if n <= c {
      assert Right(a, n) == Right(Right(a, c), n);
      assert Right(b, n) == Right(Right(b, c), n);
    } else {
      assert Right(a, n)[n - 1 - c] == a[|a| - 1 - c];
      assert Right(b, n)[n - 1 - c] == b[|b| - 1 - c];
    }
  }

  lemma SuffixUnique(a: string, b: string, m: int, n: int)
    requires LongestSuffix(a, b, m) && LongestSuffix(a, b, n)
    ensures m == n
  {
    if m < n {
      EndCharacter(a, b, n, m);
    } else if n < m {
      EndCharacter(a, b, m, n);
    }
  }

  // The operands cut to the same length.
  function CutLeft(a: string, b: string): string {
    if |a| > |b| then Right(a, |b|) else a
  }

  function CutRight(a: string, b: string): string {
    if |a| < |b| then b[..|a|] else b
  }

  lemma CutOverlap(a: string, b: string, n: nat)
    ensures Overlaps(a, b, n) <==> Overlaps(CutLeft(a, b), CutRight(a, b), n)
  {
    if n <= |a| && n <= |b| {
      assert Right(a, n) == Right(CutLeft(a, b), n);
      assert b[..n] == CutRight(a, b)[..n];
    }
  }

  /** When the comparison of two suffixes, which the search makes where it means to compare a suffix
      with a prefix, does no harm. */
  predicate SuffixTestHarmless(a: string, b: string) {
    var t1, t2, t := CutLeft(a, b), CutRight(a, b), LongestOverlap(a, b);
    t < |t1| ==>
      var f := Find(t2, Right(t1, t + 1));
      f == -1 || t + 1 + f > SuffixLength(t1, t2)
  }

  /** p is a contiguous part of s. */
  ghost predicate Part(p: string, s: string) {
    exists i :: Occurs(s, p, i)
  }

  lemma PartAt(p: string, s: string, i: int)
    requires Occurs(s, p, i)
    ensures Part(p, s)
  {
  }

  lemma PartWhole(s: string)
    ensures Part(s, s)
  {
    PartAt(s, s, 0);
  }

  lemma PartMiddle(a: string, p: string, b: string)
    ensures Part(p, a + p + b)
  {
    PartAt(p, a + p + b, |a|);
  }

  lemma PartTrans(p: string, q: string, s: string)
    requires Part(p, q) && Part(q, s)
    ensures Part(p, s)
  {
    var i :| Occurs(q, p, i);
    var j :| Occurs(s, q, j);
    PartOfPart(s, j, j + |q|, i, i + |p|);
    PartAt(p, s, j + i);
  }

  /** The suffix comparison does no harm on whatever parts of the two texts it is made. */
  ghost predicate NoHarm(text1: string, text2: string) {
    forall a, b :: Part(a, text1) && Part(b, text2) ==> SuffixTestHarmless(a, b)
  }

  lemma HarmlessParts(a: string, b: string, text1: string, text2: string)
    requires NoHarm(text1, text2) && Part(a, text1) && Part(b, text2)
    ensures SuffixTestHarmless(a, b)
  {
  }

  lemma NoHarmInParts(a: string, b: string, text1: string, text2: string)
    requires NoHarm(text1, text2) && Part(a, text1) && Part(b, text2)
    ensures NoHarm(a, b)
  {
    forall p, q | Part(p, a) && Part(q, b) ensures SuffixTestHarmless(p, q) {
      PartTrans(p, a, text1);
      PartTrans(q, b, text2);
      HarmlessParts(p, q, text1, text2);
    }
  }

  /** No two characters stand side by side in both texts, unless the second of them occurs once in text2. */
  predicate PairsApart(text1: string, text2: string) {
    forall i, j, k :: 0 < i < |text1| && 0 < j < |text2| && 0 <= k < |text2| && InBoth(text1, text2, i, j) ==>
      (text2[k] == text2[j] ==> k == j)
  }

  // The characters before i and j and at them agree.
  predicate InBoth(text1: string, text2: string, i: int, j: int) {
    0 < i < |text1| && 0 < j < |text2| && text1[i - 1] == text2[j - 1] && text1[i] == text2[j]
  }

  /** Harm takes a common suffix of two characters whose last one has been seen before in the second text. */
  lemma HarmShape(a: string, b: string) returns (n: nat, k: nat)
    requires !SuffixTestHarmless(a, b)
    ensures 2 <= n <= |a| && n <= |b| && InBoth(a, b, |a| - 1, n - 1) && k < n - 1 && b[k] == b[n - 1]
  {
    var t1, t2, t := CutLeft(a, b), CutRight(a, b), LongestOverlap(a, b);
    n := |t1|;
    CutOverlap(a, b, t + 1);
    CutOverlap(a, b, n);
    k := HarmAt(t1, t2, t);
    CutAt(a, b, n, k);
  }

  // The same for texts cut to the same length, t being their longest overlap.
  lemma HarmAt(t1: string, t2: string, t: nat) returns (k: nat)
    requires |t1| == |t2| && t < |t1| && !Overlaps(t1, t2, t + 1) && !Overlaps(t1, t2, |t1|)
    requires var f := Find(t2, Right(t1, t + 1)); f != -1 && t + 1 + f <= SuffixLength(t1, t2)
    ensures |t1| >= 2 && InBoth(t1, t2, |t1| - 1, |t1| - 1) && k < |t1| - 1 && t2[k] == t2[|t1| - 1]
  {
    hide SuffixLength, Find, FindFrom;
    var n, w, s := |t1|, Right(t1, t + 1), SuffixLength(t1, t2);
    var f := Find(t2, w);
    assert f != 0;
    LastInSuffix(t1, t2, s);
    InText(t2, w, f, t);
    assert Right(t1, n) == t1 && Right(t2, n) == t2 == t2[..n];
    k := f + t;
  }

  lemma CutAt(a: string, b: string, n: nat, k: nat)
    requires n == |CutLeft(a, b)| == |CutRight(a, b)| && n >= 2 && k < n - 1
    requires InBoth(CutLeft(a, b), CutRight(a, b), n - 1, n - 1) && CutRight(a, b)[k] == CutRight(a, b)[n - 1]
    ensures n <= |a| && n <= |b| && InBoth(a, b, |a| - 1, n - 1) && b[k] == b[n - 1]
  {
  }

  lemma LastInSuffix(a: string, b: string, n: nat)
    requires CommonEnd(a, b, n) && n >= 2
    ensures a[|a| - 1] == b[|b| - 1] && a[|a| - 2] == b[|b| - 2]
  {
    assert Right(a, n)[n - 1] == Right(b, n)[n - 1] && Right(a, n)[n - 2] == Right(b, n)[n - 2];
  }

  /** The shape is found in the texts of which the two are parts. */
  lemma ApartHarmless(a: string, b: string, text1: string, text2: string)
    requires PairsApart(text1, text2) && Part(a, text1) && Part(b, text2)
    ensures SuffixTestHarmless(a, b)
  {
    hide SuffixTestHarmless, PairsApart, InBoth;
    if !SuffixTestHarmless(a, b) {
      var n, k := HarmShape(a, b);
      var i :| Occurs(text1, a, i);
      var j :| Occurs(text2, b, j);
      RepeatedInTexts(a, b, text1, text2, i, j, n, k);
      assert false;
    }
  }

  lemma RepeatedInTexts(a: string, b: string, text1: string, text2: string, i: int, j: int, n: nat, k: nat)
    requires Occurs(text1, a, i) && Occurs(text2, b, j) && 2 <= n <= |a| && n <= |b|
    requires InBoth(a, b, |a| - 1, n - 1) && k < n - 1 && b[k] == b[n - 1]
    ensures !PairsApart(text1, text2)
  {
    InText(text1, a, i, |a| - 1);
    InText(text1, a, i, |a| - 2);
    InText(text2, b, j, n - 1);
    InText(text2, b, j, n - 2);
    InText(text2, b, j, k);
    assert InBoth(text1, text2, i + |a| - 1, j + n - 1);
  }

  lemma InText(s: string, p: string, i: int, k: nat)
    requires Occurs(s, p, i) && k < |p|
    ensures 0 <= i + k < |s| && s[i + k] == p[k]
  {
    assert s[i..i + |p|][k] == p[k];
  }

  /** What a caller can look for in the two texts: without such a pair, there is no harm. */
  lemma PairsApartNoHarm(text1: string, text2: string)
    requires PairsApart(text1, text2)
    ensures NoHarm(text1, text2)
  {
    forall a, b | Part(a, text1) && Part(b, text2) ensures SuffixTestHarmless(a, b) {
      ApartHarmless(a, b, text1, text2);
    }
  }

  /** diff_commonOverlap compares two suffixes inside its loop; with fixed set, the
      comparison is the one its contract asks for. */
  method CommonOverlap(text1: string, text2: string, fixed: bool) returns (r: int)
    ensures 0 <= r <= |text1| && r <= |text2|
    ensures fixed ==> r == LongestOverlap(text1, text2)
    ensures !fixed ==> (Overlaps(text1, text2, r) <==> SuffixTestHarmless(text1, text2))
    ensures Overlaps(text1, text2, r) ==> r == LongestOverlap(text1, text2)
  {
    if |text1| == 0 || |text2| == 0 {
      return 0;
    }
    var t1, t2 := CutLeft(text1, text2), CutRight(text1, text2);
    var n := Min(|text1|, |text2|);
    ghost var t := LongestOverlap(text1, text2);
    forall j: nat
      ensures Overlaps(text1, text2, j) <==> Overlaps(t1, t2, j)
    {
      CutOverlap(text1, text2, j);
    }
    if t1 == t2 {
      assert Overlaps(t1, t2, n);
      return n;
    }
    assert Right(t1, n) == t1 && t2[..n] == t2;
    r := OverlapSearch(t1, t2, t, fixed);
  }

  /** The loop of diff_commonOverlap, t being the length it should find. */
  method OverlapSearch(t1: string, t2: string, ghost t: nat, fixed: bool) returns (best: int)
    requires |t1| == |t2| && t1 != t2 && t < |t1|
    requires Overlaps(t1, t2, t) && forall j: nat :: t < j ==> !Overlaps(t1, t2, j)
    ensures t <= best <= |t1|
    ensures fixed ==> best == t
    ensures !fixed ==> (best == t <==> (var f := Find(t2, Right(t1, t + 1)); f == -1 || t + 1 + f > SuffixLength(t1, t2)))
  {
    ghost var n, f := |t1|, Find(t2, Right(t1, t + 1));
    best := 0;
    var length := 1;
    while true
      invariant 1 <= length <= n && 0 <= best < length
      invariant length == t + 1 ==> best == t
      invariant length > t + 1 ==> BeyondOverlap(t1, t2, t, f, fixed, best, length)
      decreases n - length
    {
      var found := Find(t2, Right(t1, length));
      if length <= t {
        BeforeOverlap(t1, t2, t, length);
      }
      if found == -1 {
        return;
      }
      assert found == 0 ==> Overlaps(t1, t2, length);
      length := length + found;
      SuffixEqual(t1, t2, length);
      if length == n {
        assert Right(t1, n) == t1 && Right(t2, n) == t2 == t2[..n];
      }
      if found == 0 || Right(t1, length) == (if fixed then t2[..length] else Right(t2, length)) {
        assert fixed ==> Overlaps(t1, t2, length);
        best := length;
        length := length + 1;
      }
    }
  }

  /** Past the longest overlap, only the suffix test can still change the result. */
  ghost predicate BeyondOverlap(t1: string, t2: string, t: nat, f: int, fixed: bool, best: int, length: int) {
    && f >= 0
    && (fixed ==> best == t)
    && (!fixed ==> if t + 1 + f <= SuffixLength(t1, t2) then best > t else best == t && length > SuffixLength(t1, t2))
  }

  /** A shorter suffix than the overlap is found inside it. */
  lemma BeforeOverlap(t1: string, t2: string, t: nat, length: nat)
    requires Overlaps(t1, t2, t) && length <= t
    ensures Find(t2, Right(t1, length)) != -1 && length + Find(t2, Right(t1, length)) <= t
    ensures length == t ==> Find(t2, Right(t1, length)) == 0
  {
    assert Right(t1, length) == Right(Right(t1, t), length);
    assert t2[t - length..t] == Right(t2[..t], length);
    assert Occurs(t2, Right(t1, length), t - length);
  }

  /** A string that defeats the suffix test: nothing overlaps, but two characters are reported. */
  lemma OverlapMisreported()
    ensures LongestOverlap("wbb", "abbX") == 0
    ensures !SuffixTestHarmless("wbb", "abbX")
  {
    var a, b, t := "wbb", "abbX", LongestOverlap("wbb", "abbX");
    assert CutRight(a, b) == "abb" && CutLeft(a, b) == a;
    assert Right(a, 3) == a && Right(a, 2) == "bb" && Right(a, 1) == "b";
    assert b[..3] == "abb" && b[..2] == "ab" && b[..1] == "a";
    assert t == 0;
    assert Occurs("abb", "b", 1);
    assert SuffixLength(a, "abb") == 2 by {
      assert a[..2] == "wb" && "abb"[..2] == "ab" && "wb"[..1] == "w" && "ab"[..1] == "a";
    }
  }

  /** The number of characters from position off to the next delimiter or the end. */
  function TokenLength(str: string, delim: char, off: nat): (n: nat)
    requires off <= |str|
    ensures off + n <= |str| && forall i :: off <= i < off + n ==> str[i] != delim
    ensures off + n < |str| ==> str[off + n] == delim
    decreases |str| - off
  {
    if off == |str| || str[off] == delim then 0 else 1 + TokenLength(str, delim, off + 1)
  }

  /** next_token */
  method NextToken(str: string, delim: char, off: nat) returns (n: nat)
    requires off <= |str|
    ensures n == TokenLength(str, delim, off)
  {
    var p := off;
    while p != |str| && str[p] != delim
      invariant off <= p <= |str|
      invariant TokenLength(str, delim, off) == p - off + TokenLength(str, delim, p)
      decreases |str| - p
    {
      p := p + 1;
    }
    n := p - off;
  }
}
