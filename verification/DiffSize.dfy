/** How many characters a diff edits, against the texts it is made for. */
module DiffSizes {
  import opened Strings
  import opened Diffs
  import opened EditDistances
  import opened HalfMatches

  function Gap(a: string, b: string): nat {
    if |a| > |b| then |a| - |b| else |b| - |a|
  }

  /** At most both texts are edited, and at least what one has more than the other. */
  lemma {:induction false} EditedFits(ds: seq<Diff>)
    ensures Gap(Text1(ds), Text2(ds)) <= Edited(ds) <= |Text1(ds)| + |Text2(ds)|
  {
    if ds != [] {
      EditedFits(ds[1..]);
    }
  }

  function PrefixLength(a: string, b: string): (r: nat)
    ensures LongestPrefix(a, b, r)
  {
    if |a| == 0 || |b| == 0 || a[0] != b[0] then 0
    else
      var r := PrefixLength(a[1..], b[1..]);
      assert a[..r + 1] == [a[0]] + a[1..][..r] && b[..r + 1] == [b[0]] + b[1..][..r];
      r + 1
  }

  /** What is left of two texts between the ends they have in common. */
  function Inner(text1: string, text2: string): (string, string) {
    var n := PrefixLength(text1, text2);
    var a, b := text1[n..], text2[n..];
    var m := SuffixLength(a, b);
    (a[..|a| - m], b[..|b| - m])
  }

  lemma PrefixCharacter(a: string, b: string, n: int, k: int)
    requires 0 <= k < n <= |a| && n <= |b| && a[..n] == b[..n]
    ensures a[k] == b[k]
  {
    assert a[..n][k] == b[..n][k];
  }

  lemma PrefixUnique(a: string, b: string, n: int, m: int)
    requires LongestPrefix(a, b, n) && LongestPrefix(a, b, m)
    ensures n == m
  {
    if n < m {
      PrefixCharacter(a, b, m, n);
    } else if m < n {
      PrefixCharacter(a, b, n, m);
    }
  }

  lemma SuffixUnique(a: string, b: string, n: int, m: int)
    requires LongestSuffix(a, b, n) && LongestSuffix(a, b, m)
    ensures n == m
  {
    if n < m {
      EndCharacter(a, b, m, n);
    } else if m < n {
      EndCharacter(a, b, n, m);
    }
  }

  lemma InnerIs(text1: string, text2: string, n: int, m: int)
    requires LongestPrefix(text1, text2, n) && LongestSuffix(text1[n..], text2[n..], m)
    ensures Inner(text1, text2) == (text1[n..][..|text1| - n - m], text2[n..][..|text2| - n - m])
  {
    hide LongestSuffix;
    PrefixUnique(text1, text2, n, PrefixLength(text1, text2));
    SuffixUnique(text1[n..], text2[n..], m, SuffixLength(text1[n..], text2[n..]));
  }

  /** The ends make no difference to the distance, and a text that is a part of the other stays one. */
  lemma InnerDistance(text1: string, text2: string)
    ensures var (c1, c2) := Inner(text1, text2); Distance(c1, c2) == Distance(text1, text2) && Gap(c1, c2) == Gap(text1, text2)
  {
    hide Distance;
    var n := PrefixLength(text1, text2);
    var a, b := text1[n..], text2[n..];
    RestDistance(text1, text2, a, b, n);
    InnerOfRest(a, b, SuffixLength(a, b));
  }

  lemma RestDistance(text1: string, text2: string, a: string, b: string, n: nat)
    requires LongestPrefix(text1, text2, n) && a == text1[n..] && b == text2[n..]
    ensures Distance(a, b) == Distance(text1, text2) && Gap(a, b) == Gap(text1, text2)
  {
    hide Distance;
    var p := text1[..n];
    assert text1 == p + a && text2 == p + b;
    CommonPrefixFree(p, a, b);
  }

  lemma InnerOfRest(a: string, b: string, m: nat)
    requires LongestSuffix(a, b, m)
    ensures Distance(a[..|a| - m], b[..|b| - m]) == Distance(a, b) && Gap(a[..|a| - m], b[..|b| - m]) == Gap(a, b)
  {
    hide Distance;
    var c1, c2, s := a[..|a| - m], b[..|b| - m], Right(a, m);
    assert a == c1 + s && b == c2 + s;
    CommonSuffixFree(c1, c2, s);
  }

  lemma InnerPart(text1: string, text2: string)
    requires Part(text2, text1)
    ensures var (c1, c2) := Inner(text1, text2); Part(c2, c1)
  {
    hide Occurs;
    var i :| Occurs(text1, text2, i);
    var n := PrefixLength(text1, text2);
    var m := SuffixLength(text1[n..], text2[n..]);
    var (c1, c2) := Inner(text1, text2);
    OccursInside(text1, text2, i, n, m);
    PartAt(c2, c1, i);
  }

  lemma OccursInside(s: string, p: string, i: int, n: nat, m: nat)
    requires Occurs(s, p, i) && n + m <= |p|
    ensures Occurs(s[n..][..|s| - n - m], p[n..][..|p| - n - m], i)
  {
    var c, q := s[n..][..|s| - n - m], p[n..][..|p| - n - m];
    PartOfPart(s, i, i + |p|, n, |p| - m);
    assert c[i..i + |q|] == s[i + n..i + |p| - m];
    assert q == p[n..|p| - m];
  }

  lemma InnerSwapped(text1: string, text2: string)
    ensures Inner(text2, text1) == (Inner(text1, text2).1, Inner(text1, text2).0)
  {
    var n := PrefixLength(text1, text2);
    InnerIs(text2, text1, n, SuffixLength(text1[n..], text2[n..]));
  }

  // One of the texts is a part of the other.
  ghost predicate Contained(a: string, b: string) {
    Part(a, b) || Part(b, a)
  }

  lemma InnerContained(text1: string, text2: string)
    requires Contained(text1, text2)
    ensures Contained(Inner(text1, text2).0, Inner(text1, text2).1)
  {
    hide Part, Inner;
    InnerSwapped(text1, text2);
    if Part(text2, text1) {
      InnerPart(text1, text2);
    } else {
      InnerPart(text2, text1);
    }
  }

  lemma InnerOfEqual(t: string)
    ensures Inner(t, t) == ("", "")
  {
    PrefixUnique(t, t, |t|, PrefixLength(t, t));
    assert t[|t|..] == "";
  }

  /** A half match is there to be found. */
  ghost predicate HalfInCommon(a: string, b: string) {
    Max(|a|, |b|) >= 4 && exists c :: HalfOf(c, a, b)
  }

  /** How much of two texts with no end in common a diff may edit. Without a deadline, and if they are not
      compared as lines, that is the least there is; a text inside the other is kept; and with a deadline a
      half match is kept at least. */
  ghost predicate Sparing(ds: seq<Diff>, a: string, b: string, timed: bool, lines: bool) {
    && Edited(ds) <= |a| + |b|
    && (!timed && !(lines && |a| > 100 && |b| > 100) ==> Edited(ds) == Distance(a, b))
    && (Contained(a, b) ==> Edited(ds) == Gap(a, b))
    && (timed && HalfInCommon(a, b) ==> Edited(ds) <= Min(|a|, |b|))
  }

  /** A diff that edits no more than the difference in length. */
  lemma GapSparing(ds: seq<Diff>, a: string, b: string, timed: bool, lines: bool)
    requires Text1(ds) == a && Text2(ds) == b && Edited(ds) == Gap(a, b)
    ensures Sparing(ds, a, b, timed, lines)
  {
    hide To;
    NoDiffShorter(ds);
    EditDistances.Between(a, b, |a|, |b|);
    if HalfInCommon(a, b) {
      var c :| HalfOf(c, a, b);
      ShortPart(c, a);
      ShortPart(c, b);
    }
  }

  lemma ShortPart(c: string, a: string)
    requires Part(c, a)
    ensures |c| <= |a|
  {
  }

  /** Texts that are replaced as a whole, when the shorter one is a single character that is not in the longer. */
  lemma WholeSparing(ds: seq<Diff>, a: string, b: string, timed: bool, lines: bool)
    requires Text1(ds) == a && Text2(ds) == b && Edited(ds) == |a| + |b| && NoneInCommon(a, b) && a != "" && b != ""
    ensures Sparing(ds, a, b, timed, lines)
  {
    ReplacedWhole(a, b);
    if HalfInCommon(a, b) {
      var c :| HalfOf(c, a, b);
      assert c != "";
      CommonCharacter(c, a, b);
      assert false;
    }
    if Contained(a, b) {
      WholeIsPart(a, b);
      assert false;
    }
  }

  lemma WholeIsPart(a: string, b: string)
    requires NoneInCommon(a, b) && a != "" && b != ""
    ensures !Contained(a, b)
  {
    if Part(a, b) {
      PartWhole(a);
      CommonCharacter(a, a, b);
      assert false;
    }
    if Part(b, a) {
      PartWhole(b);
      CommonCharacter(b, a, b);
      assert false;
    }
  }

  lemma CommonCharacter(c: string, a: string, b: string)
    requires Part(c, a) && Part(c, b) && c != ""
    ensures !NoneInCommon(a, b)
  {
    var i :| Occurs(a, c, i);
    var j :| Occurs(b, c, j);
    assert a[i..i + |c|][0] == b[j..j + |c|][0];
    assert a[i] == b[j];
  }

  /** Between common ends, and after nothing more is edited. */
  lemma SparingKept(ds: seq<Diff>, es: seq<Diff>, prefix: string, a: string, b: string, suffix: string, timed: bool,
                    lines: bool)
    requires Sparing(ds, a, b, timed, lines) && Edited(es) <= Edited(ds)
    requires |Text1(es)| == |prefix + a + suffix| && Text2(es) == prefix + b + suffix
    requires !timed && !(lines && |a| > 100 && |b| > 100) ==> Text1(es) == prefix + a + suffix
    ensures Sparing(es, a, b, timed, lines)
  {
    hide Distance, Contained, HalfInCommon;
    EditedFits(es);
    NoDiffShorter(es);
    CommonSuffixFree(prefix + a, prefix + b, suffix);
    CommonPrefixFree(prefix, a, b);
  }

  // What a run of edits costs when a deletion and an insertion that meet are compared again.
  ghost function RunCost(dels: nat, ins: nat, td: string, ti: string): nat {
    if dels >= 1 && ins >= 1 then Distance(td, ti) else |td| + |ti|
  }

  /** What is edited when between the equalities only the shortest edits are left. */
  ghost function Closest(ds: seq<Diff>, dels: nat, ins: nat, td: string, ti: string): nat {
    if ds == [] then RunCost(dels, ins, td, ti)
    else
      match ds[0].op
      case DELETE => Closest(ds[1..], dels + 1, ins, td + ds[0].text, ti)
      case INSERT => Closest(ds[1..], dels, ins + 1, td, ti + ds[0].text)
      case EQUAL => RunCost(dels, ins, td, ti) + Closest(ds[1..], 0, 0, "", "")
  }

  /** An equality at the end changes nothing. */
  lemma {:induction false} ClosestEnd(ds: seq<Diff>, dels: nat, ins: nat, td: string, ti: string)
    ensures Closest(ds + [Diff(EQUAL, "")], dels, ins, td, ti) == Closest(ds, dels, ins, td, ti)
  {
    hide RunCost;
    var es := ds + [Diff(EQUAL, "")];
    if ds == [] {
      assert es[1..] == [];
      assert Closest([], 0, 0, "", "") == 0 by { NoRunCost(); }
    } else {
      assert es[0] == ds[0] && es[1..] == ds[1..] + [Diff(EQUAL, "")];
      match ds[0].op
      case DELETE => ClosestEnd(ds[1..], dels + 1, ins, td + ds[0].text, ti);
      case INSERT => ClosestEnd(ds[1..], dels, ins + 1, td, ti + ds[0].text);
      case EQUAL => ClosestEnd(ds[1..], 0, 0, "", "");
    }
  }

  lemma NoRunCost()
    ensures RunCost(0, 0, "", "") == 0
  {
  }

  /** What the entries before a run cost as they are, and those from it on at their closest. */
  ghost function Spent(ds: seq<Diff>, cur: nat, dels: nat, ins: nat, td: string, ti: string): nat
    requires dels + ins <= cur <= |ds|
  {
    Edited(ds[..cur - dels - ins]) + Closest(ds[cur..], dels, ins, td, ti)
  }

  lemma SpentOnEdit(ds: seq<Diff>, cur: nat, dels: nat, ins: nat, td: string, ti: string)
    requires dels + ins <= cur < |ds|
    ensures ds[cur].op == DELETE ==>
              Spent(ds, cur + 1, dels + 1, ins, td + ds[cur].text, ti) == Spent(ds, cur, dels, ins, td, ti)
    ensures ds[cur].op == INSERT ==>
              Spent(ds, cur + 1, dels, ins + 1, td, ti + ds[cur].text) == Spent(ds, cur, dels, ins, td, ti)
  {
    assert ds[cur..][1..] == ds[cur + 1..];
  }

  /** A run that stays, or gives way to a shortest diff, and the equality behind it. */
  lemma SpentOnRun(ds: seq<Diff>, cur: nat, dels: nat, ins: nat, td: string, ti: string, run: seq<Diff>, es: seq<Diff>)
    requires dels + ins <= cur < |ds| && ds[cur].op == EQUAL && Edited(run) == RunCost(dels, ins, td, ti)
    requires es == ds[..cur - dels - ins] + run + ds[cur..]
    ensures Spent(es, cur - dels - ins + |run| + 1, 0, 0, "", "") == Spent(ds, cur, dels, ins, td, ti)
  {
    hide RunCost, Edited, Closest;
    var first := cur - dels - ins;
    var next := first + |run| + 1;
    RunReplaced(ds, first, cur, run, es, next);
    EditedAppend(ds[..first] + run, [ds[cur]]);
    EditedAppend(ds[..first], run);
    EditedOne(ds[cur]);
    ClosestOnEquality(ds[cur..], dels, ins, td, ti);
  }

  lemma RunReplaced(ds: seq<Diff>, first: nat, cur: nat, run: seq<Diff>, es: seq<Diff>, next: nat)
    requires first <= cur < |ds| && es == ds[..first] + run + ds[cur..] && next == first + |run| + 1
    ensures next <= |es| && es[..next] == ds[..first] + run + [ds[cur]] && es[next..] == ds[cur..][1..]
  {
  }

  lemma ClosestOnEquality(ds: seq<Diff>, dels: nat, ins: nat, td: string, ti: string)
    requires ds != [] && ds[0].op == EQUAL
    ensures Closest(ds, dels, ins, td, ti) == RunCost(dels, ins, td, ti) + Closest(ds[1..], 0, 0, "", "")
  {
  }
}
