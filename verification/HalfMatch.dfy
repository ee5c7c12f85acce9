/** diff_halfMatch: a common substring of at least half the longer text's length. */
module HalfMatches {
  import opened Strings

  datatype HalfMatch = HalfMatch(text1a: string, text1b: string, text2a: string, text2b: string, common: string)

  /** The five parts put both texts together. */
  predicate Splits(h: HalfMatch, text1: string, text2: string) {
    text1 == h.text1a + h.common + h.text1b && text2 == h.text2a + h.common + h.text2b
  }

  /** A seed at i of one text and j of the other, grown in both directions. */
  lemma Grown(long: string, short: string, i: int, j: int, prefix: int, suffix: int)
    requires 0 <= i <= |long| && 0 <= j <= |short|
    requires LongestPrefix(long[i..], short[j..], prefix) && LongestSuffix(long[..i], short[..j], suffix)
    ensures 0 <= suffix <= i && suffix <= j && 0 <= prefix && i + prefix <= |long| && j + prefix <= |short|
    ensures Splits(HalfMatch(long[..i - suffix], long[i + prefix..], short[..j - suffix], short[j + prefix..],
                             short[j - suffix..j] + short[j..j + prefix]), long, short)
  {
    GrownLeft(long, short, i, j, suffix);
    GrownRight(long, short, i, j, prefix);
    Joined(long, short, i, j, prefix, suffix);
  }

  lemma Joined(long: string, short: string, i: int, j: int, prefix: int, suffix: int)
    requires 0 <= suffix <= i && suffix <= j && 0 <= prefix && i + prefix <= |long| && j + prefix <= |short|
    requires long[i - suffix..i] == short[j - suffix..j] && long[i..i + prefix] == short[j..j + prefix]
    ensures Splits(HalfMatch(long[..i - suffix], long[i + prefix..], short[..j - suffix], short[j + prefix..],
                             short[j - suffix..j] + short[j..j + prefix]), long, short)
  {
    Assemble(long, i - suffix, i, i + prefix, short[j - suffix..j], short[j..j + prefix]);
    Assemble(short, j - suffix, j, j + prefix, short[j - suffix..j], short[j..j + prefix]);
  }

  lemma Assemble(s: string, a: int, b: int, c: int, left: string, right: string)
    requires 0 <= a <= b <= c <= |s| && s[a..b] == left && s[b..c] == right
    ensures s == s[..a] + (left + right) + s[c..]
  {
    assert s[a..c] == left + right;
    assert s == s[..a] + s[a..c] + s[c..];
  }

  lemma GrownLeft(long: string, short: string, i: int, j: int, suffix: int)
    requires 0 <= i <= |long| && 0 <= j <= |short| && CommonEnd(long[..i], short[..j], suffix)
    ensures suffix <= i && suffix <= j && long[i - suffix..i] == short[j - suffix..j]
  {
    assert Right(long[..i], suffix) == long[i - suffix..i];
    assert Right(short[..j], suffix) == short[j - suffix..j];
  }

  lemma GrownRight(long: string, short: string, i: int, j: int, prefix: int)
    requires 0 <= i <= |long| && 0 <= j <= |short| && LongestPrefix(long[i..], short[j..], prefix)
    ensures i + prefix <= |long| && j + prefix <= |short| && long[i..i + prefix] == short[j..j + prefix]
  {
    assert long[i..][..prefix] == long[i..i + prefix];
    assert short[j..][..prefix] == short[j..j + prefix];
  }

  /** long and short agree on the left characters before and the right ones from i and j. */
  predicate Agree(long: string, short: string, i: int, j: int, left: int, right: int) {
    && 0 <= left <= i && left <= j && 0 <= right && i + right <= |long| && j + right <= |short|
    && long[i - left..i + right] == short[j - left..j + right]
  }

  // No agreement around i and j is longer than n.
  ghost predicate AgreeUpTo(long: string, short: string, i: int, j: int, n: int) {
    forall left, right :: Agree(long, short, i, j, left, right) ==> left + right <= n
  }

  lemma AgreeAt(long: string, short: string, i: int, j: int, left: int, right: int, k: int)
    requires Agree(long, short, i, j, left, right) && -left <= k < right
    ensures long[i + k] == short[j + k]
  {
    assert long[i - left..i + right][left + k] == short[j - left..j + right][left + k];
  }

  /** What the two searches from i and j find is the longest agreement there. */
  lemma LongestAgreement(long: string, short: string, i: int, j: int, prefix: int, suffix: int)
    requires 0 <= i <= |long| && 0 <= j <= |short|
    requires LongestPrefix(long[i..], short[j..], prefix) && LongestSuffix(long[..i], short[..j], suffix)
    ensures AgreeUpTo(long, short, i, j, prefix + suffix)
  {
    forall left, right | Agree(long, short, i, j, left, right)
      ensures left <= suffix && right <= prefix
    {
      if right > prefix {
        AgreeAt(long, short, i, j, left, right, prefix);
      }
      if left > suffix {
        AgreeAt(long, short, i, j, left, right, -1 - suffix);
      }
    }
  }

  /** Whatever agrees with the whole seed is found. */
  lemma SeedFound(long: string, short: string, i: int, j: int, left: int, right: int, n: int)
    requires 0 <= i && 0 <= n && i + n <= |long| && Agree(long, short, i, j, left, right) && n <= right
    ensures Occurs(short, long[i..i + n], j)
  {
    PartOfPart(long, i - left, i + right, left, left + n);
    PartOfPart(short, j - left, j + right, left, left + n);
  }

  // Nothing around i and an occurrence of the seed before the end is longer than n.
  ghost predicate Searched(long: string, short: string, seed: string, i: int, end: int, n: int) {
    forall j :: 0 <= j < end && Occurs(short, seed, j) ==> AgreeUpTo(long, short, i, j, n)
  }

  lemma SearchedMore(long: string, short: string, seed: string, i: int, j: int, was: int, n: int, best: int)
    requires 0 <= j && Searched(long, short, seed, i, j, was) && AgreeUpTo(long, short, i, j, n) && best == Max(was, n)
    ensures SearchedTo(long, short, seed, i, FindFrom(short, seed, j + 1), best)
  {
    hide Occurs, Agree;
    SearchedNext(long, short, seed, i, j + 1, best);
  }

  lemma SearchedNext(long: string, short: string, seed: string, i: int, j: nat, n: int)
    requires Searched(long, short, seed, i, j, n)
    ensures SearchedTo(long, short, seed, i, FindFrom(short, seed, j), n)
  {
    hide AgreeUpTo, Occurs;
    assert forall k :: Occurs(short, seed, k) ==> k <= |short| by {
      OccursInside(short, seed);
    }
  }

  lemma SearchedNone(long: string, short: string, seed: string, i: int)
    ensures SearchedTo(long, short, seed, i, FindFrom(short, seed, 0), 0)
  {
    hide AgreeUpTo, Occurs;
    SearchedNext(long, short, seed, i, 0, 0);
  }

  lemma OccursInside(s: string, p: string)
    ensures forall k :: Occurs(s, p, k) ==> 0 <= k <= |s|
  {
  }

  // As far as the search for the seed has come, which ends at npos.
  ghost predicate SearchedTo(long: string, short: string, seed: string, i: int, j: int, n: int) {
    if j == -1 then Searched(long, short, seed, i, |short| + 1, n)
    else 0 <= j <= |short| && Searched(long, short, seed, i, j, n)
  }

  /** diff_halfMatchI: the best growth of the quarter-length seed that starts at i. */
  method HalfMatchAt(long: string, short: string, i: nat) returns (ok: bool, best: HalfMatch)
    requires i <= |long|
    ensures ok <==> |best.common| * 2 >= |long|
    ensures best.common != "" ==> Splits(best, long, short)
    ensures Searched(long, short, Mid(long, i, |long| / 4), i, |short| + 1, |best.common|)
  {
    hide Splits, Searched, AgreeUpTo, LongestPrefix, LongestSuffix, Occurs;
    var seed := Mid(long, i, |long| / 4);
    best := HalfMatch("", "", "", "", "");
    SearchedNone(long, short, seed, i);
    var j := FindFrom(short, seed, 0);
    while j != -1
      invariant best.common != "" ==> Splits(best, long, short)
      invariant SearchedTo(long, short, seed, i, j, |best.common|)
      decreases if j == -1 then -1 else |short| - j
    {
      var prefix := CommonPrefix(long[i..], short[j..]);
      var suffix := CommonSuffix(long[..i], short[..j]);
      ghost var was := |best.common|;
      LongestAgreement(long, short, i, j, prefix, suffix);
      if |best.common| < suffix + prefix {
        Grown(long, short, i, j, prefix, suffix);
        best := HalfMatch(long[..i - suffix], long[i + prefix..], short[..j - suffix], short[j + prefix..],
                          short[j - suffix..j] + short[j..j + prefix]);
      }
      SearchedMore(long, short, seed, i, j, was, prefix + suffix, |best.common|);
      j := FindFrom(short, seed, j + 1);
    }
    ok := |best.common| * 2 >= |long|;
  }

  // c stands in both texts.
  ghost predicate Common(c: string, text1: string, text2: string) {
    Part(c, text1) && Part(c, text2)
  }

  // A common part at least half as long as either text.
  ghost predicate HalfOf(c: string, text1: string, text2: string) {
    Common(c, text1, text2) && |c| * 2 >= |text1| && |c| * 2 >= |text2|
  }

  /** A part of half the longer text holds the second or the third quarter of it whole. */
  lemma QuarterInside(length: int, a: int, n: int)
    requires length >= 4 && 0 <= a && a + n <= length && n * 2 >= length
    ensures a <= (length + 3) / 4 <= a + n - length / 4 || a <= (length + 1) / 2 <= a + n - length / 4
  {
  }

  lemma CommonAgrees(long: string, short: string, c: string, a: int, b: int, i: int)
    requires Occurs(long, c, a) && Occurs(short, c, b) && a <= i <= a + |c|
    ensures Agree(long, short, i, b + i - a, i - a, a + |c| - i)
  {
  }

  /** No common part of half the longer text is longer than the better of the two results. */
  lemma LongestFound(long: string, short: string, c: string, n1: int, n2: int)
    requires |long| >= 4 && |c| * 2 >= |long| && Common(c, long, short)
    requires var i := (|long| + 3) / 4; Searched(long, short, Mid(long, i, |long| / 4), i, |short| + 1, n1)
    requires var i := (|long| + 1) / 2; Searched(long, short, Mid(long, i, |long| / 4), i, |short| + 1, n2)
    ensures |c| <= n1 || |c| <= n2
  {
    hide Searched;
    var a :| Occurs(long, c, a);
    var b :| Occurs(short, c, b);
    QuarterInside(|long|, a, |c|);
    var q := (|long| + 3) / 4;
    if a <= q <= a + |c| - |long| / 4 {
      FoundAt(long, short, c, a, b, q, |long| / 4, n1);
    } else {
      FoundAt(long, short, c, a, b, (|long| + 1) / 2, |long| / 4, n2);
    }
  }

  lemma FoundAt(long: string, short: string, c: string, a: int, b: int, i: int, m: int, n: int)
    requires Occurs(long, c, a) && Occurs(short, c, b) && 0 <= a <= i <= a + |c| - m && m >= 0
    requires Searched(long, short, Mid(long, i, m), i, |short| + 1, n)
    ensures |c| <= n
  {
    hide AgreeUpTo;
    var left, right, j := i - a, a + |c| - i, b + i - a;
    CommonAgrees(long, short, c, a, b, i);
    SeedFound(long, short, i, j, left, right, m);
    AgreedAt(long, short, i, j, left, right, n);
  }

  lemma AgreedAt(long: string, short: string, i: int, j: int, left: int, right: int, n: int)
    requires AgreeUpTo(long, short, i, j, n) && Agree(long, short, i, j, left, right)
    ensures left + right <= n
  {
  }

  lemma SplitsCommon(h: HalfMatch, text1: string, text2: string)
    requires Splits(h, text1, text2)
    ensures Common(h.common, text1, text2)
  {
    PartMiddle(h.text1a, h.common, h.text1b);
    PartMiddle(h.text2a, h.common, h.text2b);
  }

  lemma SplitsSwapped(h: HalfMatch, text1: string, text2: string)
    requires Splits(h, text1, text2)
    ensures Splits(HalfMatch(h.text2a, h.text2b, h.text1a, h.text1b, h.common), text2, text1)
  {
  }

  lemma CommonFits(text1: string, text2: string)
    ensures forall c :: Common(c, text1, text2) ==> |c| <= |text1| && |c| <= |text2|
  {
    forall c | Common(c, text1, text2) ensures |c| <= |text1| && |c| <= |text2| {
      var i :| Occurs(text1, c, i);
      var j :| Occurs(text2, c, j);
    }
  }

  lemma BestOfBoth(text1: string, text2: string, long: string, short: string, n1: int, n2: int)
    requires |long| >= |short| && |long| >= 4
    requires (long == text1 && short == text2) || (long == text2 && short == text1)
    requires var i := (|long| + 3) / 4; Searched(long, short, Mid(long, i, |long| / 4), i, |short| + 1, n1)
    requires var i := (|long| + 1) / 2; Searched(long, short, Mid(long, i, |long| / 4), i, |short| + 1, n2)
    ensures forall c :: Common(c, text1, text2) && |c| * 2 >= |long| ==> |c| <= Max(n1, n2)
  {
    hide Searched, Part;
    forall c | Common(c, text1, text2) && |c| * 2 >= |long| ensures |c| <= Max(n1, n2) {
      LongestFound(long, short, c, n1, n2);
    }
  }

  /** diff_halfMatch: found exactly if the texts have a common part of half the longer one, and then a
      longest one. */
  method FindHalfMatch(text1: string, text2: string) returns (ok: bool, h: HalfMatch)
    ensures ok ==> Splits(h, text1, text2) && |h.common| >= 2
    ensures ok ==> |h.common| * 2 >= |text1| && |h.common| * 2 >= |text2|
    ensures ok <==> Max(|text1|, |text2|) >= 4 && exists c :: HalfOf(c, text1, text2)
    ensures ok ==> forall c :: Common(c, text1, text2) ==> |c| <= |h.common|
  {
    hide Splits, Searched, Part;
    var long := if |text1| > |text2| then text1 else text2;
    var short := if |text1| > |text2| then text2 else text1;
    h := HalfMatch("", "", "", "", "");
    CommonFits(text1, text2);
    if |long| < 4 || |short| * 2 < |long| {
      return false, h;
    }
    var hm1, res1 := HalfMatchAt(long, short, (|long| + 3) / 4);
    var hm2, res2 := HalfMatchAt(long, short, (|long| + 1) / 2);
    BestOfBoth(text1, text2, long, short, |res1.common|, |res2.common|);
    if !hm1 && !hm2 {
      return false, h;
    } else if !hm2 {
      h := res1;
    } else if !hm1 {
      h := res2;
    } else {
      h := if |res1.common| > |res2.common| then res1 else res2;
    }
    SplitsCommon(h, long, short);
    assert HalfOf(h.common, text1, text2);
    if |text1| <= |text2| {
      SplitsSwapped(h, long, short);
      h := HalfMatch(h.text2a, h.text2b, h.text1a, h.text1b, h.common);
    }
    ok := true;
  }
}
