/** diff_main: texts to diffs, through trimming, containment, half match, line mode and bisection. */
module DiffEngine {
  import opened Strings
  import opened Diffs
  import opened CleanupMerging
  import opened Semantic
  import opened HalfMatches
  import opened Lines
  import opened DiffSizes
  import EditDistances
  import Bisect
  import BisectWays

  /** The behaviour settings a diff depends on: whether there is a deadline, which of the two
      comparisons diff_commonOverlap makes, and the scoring of boundaries. */
  datatype Settings = Settings(timed: bool, fixed: bool, score: (string, string) -> int)

  /** ds turns text1 into text2, if it is exact; otherwise only the length of text1 is right. */
  ghost predicate Denotes(ds: seq<Diff>, text1: string, text2: string, exact: bool) {
    Text2(ds) == text2 && |Text1(ds)| == |text1| && (exact <==> Text1(ds) == text1)
  }

  /** What line mode searches for overlaps: it does no harm in any of the lists. */
  ghost predicate AllHarmless(mids: seq<seq<Diff>>, fixed: bool) {
    forall i :: 0 <= i < |mids| ==> Harmless(mids[i], fixed)
  }

  lemma HarmlessAppend(a: seq<seq<Diff>>, b: seq<seq<Diff>>, fixed: bool)
    ensures AllHarmless(a + b, fixed) <==> AllHarmless(a, fixed) && AllHarmless(b, fixed)
  {
    if AllHarmless(a + b, fixed) {
      forall i | 0 <= i < |a| ensures Harmless(a[i], fixed) {
        assert (a + b)[i] == a[i];
      }
      forall i | 0 <= i < |b| ensures Harmless(b[i], fixed) {
        assert (a + b)[|a| + i] == b[i];
      }
    }
  }

  /** The lists are diffs between parts of the two texts. */
  ghost predicate BetweenParts(mids: seq<seq<Diff>>, text1: string, text2: string) {
    forall i :: 0 <= i < |mids| ==> Part(Text1(mids[i]), text1) && Part(Text2(mids[i]), text2)
  }

  lemma PartsBetween(mids: seq<seq<Diff>>, a: string, b: string, text1: string, text2: string)
    requires BetweenParts(mids, a, b) && Part(a, text1) && Part(b, text2)
    ensures BetweenParts(mids, text1, text2)
  {
    forall i | 0 <= i < |mids| ensures Part(Text1(mids[i]), text1) && Part(Text2(mids[i]), text2) {
      PartTrans(Text1(mids[i]), a, text1);
      PartTrans(Text2(mids[i]), b, text2);
    }
  }

  /** Lists for the middle of two texts. */
  lemma BetweenMiddles(mids: seq<seq<Diff>>, a: string, b: string, prefix1: string, suffix1: string, prefix2: string,
                       suffix2: string)
    requires BetweenParts(mids, a, b)
    ensures BetweenParts(mids, prefix1 + a + suffix1, prefix2 + b + suffix2)
  {
    PartMiddle(prefix1, a, suffix1);
    PartMiddle(prefix2, b, suffix2);
    PartsBetween(mids, a, b, prefix1 + a + suffix1, prefix2 + b + suffix2);
  }

  lemma BetweenAppend(a: seq<seq<Diff>>, b: seq<seq<Diff>>, text1: string, text2: string)
    requires BetweenParts(a, text1, text2) && BetweenParts(b, text1, text2)
    ensures BetweenParts(a + b, text1, text2)
  {
  }

  lemma BetweenOne(mid: seq<Diff>, text1: string, text2: string)
    requires Text1(mid) == text1 && Text2(mid) == text2
    ensures BetweenParts([mid], text1, text2)
  {
    PartWhole(text1);
    PartWhole(text2);
  }

  /** Where no parts of the texts make the suffix comparison do harm, no search does. */
  lemma NoHarmAnywhere(mids: seq<seq<Diff>>, text1: string, text2: string)
    requires BetweenParts(mids, text1, text2) && NoHarm(text1, text2)
    ensures AllHarmless(mids, false) && AllHarmless(mids, true)
  {
    forall i | 0 <= i < |mids| ensures Harmless(mids[i], false) {
      PartsHarmless(mids[i], text1, text2);
    }
  }

  function Replacement(text1: string, text2: string): seq<Diff> {
    [Diff(DELETE, text1), Diff(INSERT, text2)]
  }

  /** Two different texts of one character. */
  predicate OneCharEach(text1: string, text2: string) {
    |text1| == 1 && |text2| == 1 && text1 != text2
  }

  /** Two texts of one line each that are compared as lines, as they have no end in common and neither is
      a part of the other. */
  predicate OneLineEach(text1: string, text2: string) {
    && Bisect.Trimmed(text1, text2) && |text1| > 100 && |text2| > 100 && IsOneLine(text1) && IsOneLine(text2)
    && Find(text1, text2) == -1 && Find(text2, text1) == -1
  }

  lemma DenotesAppend(a: seq<Diff>, a1: string, a2: string, exact: bool, b: seq<Diff>, b1: string, b2: string,
                      exact': bool)
    requires Denotes(a, a1, a2, exact) && Denotes(b, b1, b2, exact')
    ensures Denotes(a + b, a1 + b1, a2 + b2, exact && exact')
  {
    TextAppend(a, b);
    EqualParts(Text1(a), Text1(b), a1, b1);
  }

  lemma DenotesEqual(t: string)
    ensures Denotes([Diff(EQUAL, t)], t, t, true)
  {
    TextOne(Diff(EQUAL, t));
  }

  lemma DenotesNothing()
    ensures Denotes([], "", "", true)
  {
  }

  /** Deleting one text and inserting the other. */
  lemma DenotesReplace(text1: string, text2: string)
    ensures Denotes(Replacement(text1, text2), text1, text2, true)
  {
    TextTwo(Diff(DELETE, text1), Diff(INSERT, text2));
    assert text1 + "" == text1 && "" + text2 == text2;
  }

  /** The shorter text inside the longer one. */
  lemma DenotesContained(long: string, short: string, i: int)
    requires Occurs(long, short, i)
    ensures var e := Diff(EQUAL, short); var a, b := long[..i], long[i + |short|..];
            && Denotes([Diff(DELETE, a), e, Diff(DELETE, b)], long, short, true)
            && Denotes([Diff(INSERT, a), e, Diff(INSERT, b)], short, long, true)
  {
    var a, b := long[..i], long[i + |short|..];
    assert long == a + short + b;
    AroundTexts(a, short, b);
  }

  lemma AroundTexts(a: string, t: string, b: string)
    ensures Denotes([Diff(DELETE, a), Diff(EQUAL, t), Diff(DELETE, b)], a + t + b, t, true)
    ensures Denotes([Diff(INSERT, a), Diff(EQUAL, t), Diff(INSERT, b)], t, a + t + b, true)
  {
    TextThree(Diff(DELETE, a), Diff(EQUAL, t), Diff(DELETE, b));
    TextThree(Diff(INSERT, a), Diff(EQUAL, t), Diff(INSERT, b));
    assert "" + t + "" == t;
  }

  /** diff_main: the diff turns text1 into text2 exactly if the overlaps searched for in line mode do no
      harm; they do none if no parts of the two texts make the suffix comparison do any. Line mode is for
      texts of more than 100 characters; without it and without a deadline no diff edits fewer characters.
      Equal texts are one equality, the ends in common are kept, and so is a text inside the other one. */
  method DiffMain(d: DiffList, text1: string, text2: string, checklines: bool, s: Settings)
    returns (ghost mids: seq<seq<Diff>>)
    requires checklines ==> LinesFit(text1, text2)
    modifies d
    ensures Denotes(d.items, text1, text2, AllHarmless(mids, s.fixed)) && BetweenParts(mids, text1, text2)
    ensures !checklines || |text1| <= 100 || |text2| <= 100 ==> mids == []
    ensures OneCharEach(text1, text2) ==> d.items == Replacement(text1, text2)
    ensures checklines && !s.timed && OneLineEach(text1, text2) ==> mids == [Replacement(text1, text2)]
    ensures s.fixed || NoHarm(text1, text2) ==> Text1(d.items) == text1
    ensures text1 == text2 ==> d.items == if text1 == "" then [] else [Diff(EQUAL, text1)]
    ensures Sparing(d.items, Inner(text1, text2).0, Inner(text1, text2).1, s.timed, checklines)
    ensures !s.timed && (!checklines || |text1| <= 100 || |text2| <= 100) ==>
              Edited(d.items) == EditDistances.Distance(text1, text2)
    ensures Contained(text1, text2) ==> Edited(d.items) == Gap(text1, text2)
    decreases checklines, |text1| + |text2|, 4
  {
    hide NoHarm, BetweenParts, LinesFit, Denotes, OneLineEach, OneCharEach, Apart, AllHarmless, Sparing, Inner, Contained;
    mids := [];
    d.items := [];
    NoLists(s.fixed);
    if text1 == text2 {
      DenotesNothing();
      DenotesEqual(text1);
      if text1 != "" {
        d.items := d.items + [Diff(EQUAL, text1)];
        assert d.items == [Diff(EQUAL, text1)];
      }
      NotOneLineEach(text1);
      EqualSparing(d.items, text1, s.timed, checklines);
      WholeSize(d.items, text1, text2, s.timed, checklines);
      ExactWithoutHarm(d.items, mids, text1, text2, s.fixed);
      return;
    }
    ApartWhenEach(text1, text2);
    var prefix, chopped1, chopped2, suffix := TrimEnds(text1, text2);
    mids := Middle(d, prefix, suffix, chopped1, chopped2, checklines, s);
    WholeSize(d.items, text1, text2, s.timed, checklines);
    ExactWithoutHarm(d.items, mids, text1, text2, s.fixed);
  }

  /** The common prefix and suffix, and what is left of the texts between them. */
  method TrimEnds(text1: string, text2: string) returns (prefix: string, chopped1: string, chopped2: string,
                  suffix: string)
    ensures (chopped1, chopped2) == Inner(text1, text2)
    ensures text1 == prefix + chopped1 + suffix && text2 == prefix + chopped2 + suffix && Apart(chopped1, chopped2)
    ensures Apart(text1, text2) && text1 != "" && text2 != "" ==>
              prefix == "" && suffix == "" && chopped1 == text1 && chopped2 == text2
  {
    hide Apart, Inner;
    var n := CommonPrefix(text1, text2);
    prefix := text1[..n];
    chopped1, chopped2 := text1[n..], text2[n..];
    var m := CommonSuffix(chopped1, chopped2);
    suffix := Right(chopped1, m);
    chopped1, chopped2 := chopped1[..|chopped1| - m], chopped2[..|chopped2| - m];
    InnerIs(text1, text2, n, m);
    TrimmedTexts(text1, text2, n, m, prefix, suffix, chopped1, chopped2);
  }

  lemma ExactWithoutHarm(ds: seq<Diff>, mids: seq<seq<Diff>>, text1: string, text2: string, fixed: bool)
    requires Denotes(ds, text1, text2, AllHarmless(mids, fixed)) && BetweenParts(mids, text1, text2)
    ensures fixed || NoHarm(text1, text2) ==> Text1(ds) == text1
  {
    hide NoHarm;
    if NoHarm(text1, text2) {
      NoHarmAnywhere(mids, text1, text2);
    }
  }

  lemma NotOneLineEach(t: string)
    ensures !OneLineEach(t, t) && !OneCharEach(t, t)
  {
  }

  lemma ApartWhenEach(text1: string, text2: string)
    ensures OneLineEach(text1, text2) || OneCharEach(text1, text2) ==> Apart(text1, text2) && text1 != "" && text2 != ""
  {
  }

  /** The diff of what is left between the common ends, put back between them. */
  method Middle(d: DiffList, prefix: string, suffix: string, text1: string, text2: string, checklines: bool,
                s: Settings)
    returns (ghost mids: seq<seq<Diff>>)
    requires checklines ==> LinesFit(prefix + text1 + suffix, prefix + text2 + suffix)
    requires d.items == [] && Apart(text1, text2)
    modifies d
    ensures Denotes(d.items, prefix + text1 + suffix, prefix + text2 + suffix, AllHarmless(mids, s.fixed))
    ensures BetweenParts(mids, prefix + text1 + suffix, prefix + text2 + suffix)
    ensures !checklines || |text1| <= 100 || |text2| <= 100 ==> mids == []
    ensures prefix == "" && suffix == "" && OneCharEach(text1, text2) ==> d.items == Replacement(text1, text2)
    ensures checklines && !s.timed && OneLineEach(text1, text2) ==> mids == [Replacement(text1, text2)]
    ensures Sparing(d.items, text1, text2, s.timed, checklines)
    decreases checklines, |text1| + |text2|, 3
  {
    hide LinesFit, Denotes, AllHarmless, BetweenParts, NoHarm, Apart, OneLineEach, Sparing, NotMore, Edited;
    if checklines {
      PartsFit(prefix, text1, suffix, prefix, text2, suffix);
    }
    mids := Compute(d, text1, text2, checklines, s);
    BetweenMiddles(mids, text1, text2, prefix, suffix, prefix, suffix);
    ghost var D := d.items;
    Restored(D, prefix, suffix, text1, text2, AllHarmless(mids, s.fixed));
    if prefix != "" {
      d.items := [Diff(EQUAL, prefix)] + d.items;
    }
    if suffix != "" {
      d.items := d.items + [Diff(EQUAL, suffix)];
    }
    ghost var E := d.items;
    RestoredSize(D, E, prefix, suffix);
    CleanupMerge(d);
    NotMoreEdited(E, d.items);
    SameDenotes(E, d.items, prefix + text1 + suffix, prefix + text2 + suffix, AllHarmless(mids, s.fixed));
    NoLists(s.fixed);
    MiddleSparing(D, d.items, prefix, text1, text2, suffix, s.timed, checklines, AllHarmless(mids, s.fixed));
    if OneCharEach(text1, text2) && E == Replacement(text1, text2) {
      ReplacementKept(text1, text2, d.items);
    }
  }

  lemma NotMoreEdited(ds: seq<Diff>, es: seq<Diff>)
    requires NotMore(es, ds)
    ensures Edited(es) <= Edited(ds)
  {
  }

  /** The equalities at the ends add nothing. */
  lemma RestoredSize(mid: seq<Diff>, ds: seq<Diff>, prefix: string, suffix: string)
    requires var a := if prefix != "" then [Diff(EQUAL, prefix)] + mid else mid;
             ds == if suffix != "" then a + [Diff(EQUAL, suffix)] else a
    ensures Edited(ds) == Edited(mid)
  {
    var a := if prefix != "" then [Diff(EQUAL, prefix)] + mid else mid;
    EditedAppend([Diff(EQUAL, prefix)], mid);
    EditedOne(Diff(EQUAL, prefix));
    EditedAppend(a, [Diff(EQUAL, suffix)]);
    EditedOne(Diff(EQUAL, suffix));
  }

  lemma MiddleSparing(ds: seq<Diff>, es: seq<Diff>, prefix: string, a: string, b: string, suffix: string,
                      timed: bool, lines: bool,
                      exact: bool)
    requires Sparing(ds, a, b, timed, lines) && Edited(es) <= Edited(ds)
    requires Denotes(es, prefix + a + suffix, prefix + b + suffix, exact) && (!lines || |a| <= 100 || |b| <= 100 ==> exact)
    ensures Sparing(es, a, b, timed, lines)
  {
    hide Sparing;
    SparingKept(ds, es, prefix, a, b, suffix, timed, lines);
  }

  lemma EqualSparing(ds: seq<Diff>, t: string, timed: bool, lines: bool)
    requires ds == if t == "" then [] else [Diff(EQUAL, t)]
    ensures Sparing(ds, Inner(t, t).0, Inner(t, t).1, timed, lines)
  {
    hide Inner, Sparing, Contained, HalfInCommon;
    InnerOfEqual(t);
    EditedOne(Diff(EQUAL, t));
    GapSparing([], "", "", timed, lines);
    SameSize([], ds, "", "", timed, lines);
  }

  lemma SameSize(ds: seq<Diff>, es: seq<Diff>, a: string, b: string, timed: bool, lines: bool)
    requires Sparing(ds, a, b, timed, lines) && Edited(es) == Edited(ds)
    ensures Sparing(es, a, b, timed, lines)
  {
    hide EditDistances.Distance, Contained, HalfInCommon;
  }

  /** What the size means for the whole texts. */
  lemma WholeSize(ds: seq<Diff>, text1: string, text2: string, timed: bool, lines: bool)
    requires Sparing(ds, Inner(text1, text2).0, Inner(text1, text2).1, timed, lines)
    ensures !timed && (!lines || |text1| <= 100 || |text2| <= 100) ==> Edited(ds) == EditDistances.Distance(text1, text2)
    ensures Contained(text1, text2) ==> Edited(ds) == Gap(text1, text2)
  {
    hide EditDistances.Distance, Contained, HalfInCommon;
    InnerDistance(text1, text2);
    if Contained(text1, text2) {
      InnerContained(text1, text2);
    }
  }

  lemma SameDenotes(a: seq<Diff>, b: seq<Diff>, text1: string, text2: string, exact: bool)
    requires Denotes(a, text1, text2, exact) && Same(b, a)
    ensures Denotes(b, text1, text2, exact)
  {
  }

  /** Merging leaves the replacement of one character by another as it is. */
  lemma ReplacementKept(a: string, b: string, ds: seq<Diff>)
    requires OneCharEach(a, b) && Same(ds, Replacement(a, b)) && Tidy(ds) && NotMore(ds, Replacement(a, b))
    ensures ds == Replacement(a, b)
  {
    TextTwo(Diff(DELETE, a), Diff(INSERT, b));
    EditedTwo(a, b);
    assert Text1(ds) == a && Text2(ds) == b;
    EditedParity(ds);
    if |ds| < 2 {
      OneTextOnly(ds);
    } else if |ds| == 2 {
      assert ds == [ds[0], ds[1]];
      TextTwo(ds[0], ds[1]);
      assert Neighbours(ds[0], ds[1]);
      EditedPair(ds[0], ds[1]);
      PairKept(ds[0], ds[1], a, b);
    }
  }

  lemma OneTextOnly(ds: seq<Diff>)
    requires |ds| < 2
    ensures Text1(ds) == Text2(ds) || Text1(ds) == "" || Text2(ds) == ""
  {
    if |ds| == 1 {
      assert ds == [ds[0]];
      TextOne(ds[0]);
    }
  }

  lemma PairKept(d: Diff, e: Diff, a: string, b: string)
    requires OneCharEach(a, b) && Neighbours(d, e)
    requires Part1(d) + Part1(e) == a && Part2(d) + Part2(e) == b
    requires (if d.op == EQUAL then 0 else |d.text|) + (if e.op == EQUAL then 0 else |e.text|) == 2
    ensures d == Diff(DELETE, a) && e == Diff(INSERT, b)
  {
    if d.op != EQUAL && e.op != EQUAL {
      assert d.text + "" == d.text && "" + e.text == e.text;
    }
  }

  lemma EditedPair(d: Diff, e: Diff)
    ensures Edited([d, e]) == Edited([d]) + Edited([e])
    ensures Edited([d]) == (if d.op == EQUAL then 0 else |d.text|) && Edited([e]) == (if e.op == EQUAL then 0 else |e.text|)
  {
    assert [d, e] == [d] + [e];
    EditedAppend([d], [e]);
    EditedOne(d);
    EditedOne(e);
  }

  lemma EditedTwo(a: string, b: string)
    ensures Edited(Replacement(a, b)) == |a| + |b|
  {
    EditedPair(Diff(DELETE, a), Diff(INSERT, b));
  }

  /** A character that is not edited is in both texts. */
  lemma {:induction false} EditedParity(ds: seq<Diff>)
    ensures (|Text1(ds)| + |Text2(ds)| - Edited(ds)) % 2 == 0
    ensures Edited(ds) == 0 ==> Text1(ds) == Text2(ds)
  {
    if |ds| > 0 {
      EditedParity(ds[1..]);
    }
  }

  lemma TrimmedTexts(text1: string, text2: string, n: int, m: int, prefix: string, suffix: string, c1: string,
                     c2: string)
    requires LongestPrefix(text1, text2, n) && prefix == text1[..n] && LongestSuffix(text1[n..], text2[n..], m)
    requires suffix == Right(text1[n..], m)
    requires c1 == text1[n..][..|text1| - n - m] && c2 == text2[n..][..|text2| - n - m]
    ensures text1 == prefix + c1 + suffix && text2 == prefix + c2 + suffix && Apart(c1, c2)
    ensures Apart(text1, text2) && text1 != "" && text2 != "" ==> prefix == "" && suffix == "" && c1 == text1 && c2 == text2
  {
    EndsPutBack(text1, n, m, prefix, suffix, c1);
    EndsPutBack(text2, n, m, prefix, suffix, c2);
    MiddleApart(text1, text2, n, m, c1, c2);
    if Apart(text1, text2) && text1 != "" && text2 != "" {
      NoCommonEnds(text1, text2, n, m);
    }
  }

  lemma EndsPutBack(t: string, n: int, m: int, prefix: string, suffix: string, c: string)
    requires 0 <= n <= |t| && prefix == t[..n] && 0 <= m <= |t| - n && suffix == Right(t[n..], m)
    requires c == t[n..][..|t| - n - m]
    ensures t == prefix + c + suffix
  {
    assert t[n..] == c + suffix;
    assert t == prefix + t[n..];
  }

  lemma MiddleApart(text1: string, text2: string, n: int, m: int, c1: string, c2: string)
    requires LongestPrefix(text1, text2, n) && LongestSuffix(text1[n..], text2[n..], m)
    requires c1 == text1[n..][..|text1| - n - m] && c2 == text2[n..][..|text2| - n - m]
    ensures Apart(c1, c2)
  {
    if |c1| > 0 && |c2| > 0 {
      assert c1[0] == text1[n] && c2[0] == text2[n];
      assert c1[|c1| - 1] == text1[n..][|text1| - n - 1 - m] && c2[|c2| - 1] == text2[n..][|text2| - n - 1 - m];
    }
  }

  lemma NoCommonEnds(a: string, b: string, n: int, m: int)
    requires a != "" && b != "" && Apart(a, b) && LongestPrefix(a, b, n) && LongestSuffix(a[n..], b[n..], m)
    ensures n == 0 && m == 0
  {
    if n > 0 {
      FirstInCommon(a, b, n);
      assert false;
    }
    assert a[0..] == a && b[0..] == b;
    if m > 0 {
      EndCharacter(a, b, m, 0);
      assert false;
    }
  }

  lemma FirstInCommon(a: string, b: string, n: int)
    requires LongestPrefix(a, b, n) && n > 0
    ensures a[0] == b[0]
  {
    assert a[..n][0] == b[..n][0];
  }

  lemma Restored(mid: seq<Diff>, prefix: string, suffix: string, c1: string, c2: string, exact: bool)
    requires Denotes(mid, c1, c2, exact)
    ensures var a := if prefix != "" then [Diff(EQUAL, prefix)] + mid else mid;
            var b := if suffix != "" then a + [Diff(EQUAL, suffix)] else a;
            Denotes(b, prefix + c1 + suffix, prefix + c2 + suffix, exact)
  {
    DenotesEqual(prefix);
    DenotesEqual(suffix);
    DenotesAppend([Diff(EQUAL, prefix)], prefix, prefix, true, mid, c1, c2, exact);
    var a := if prefix != "" then [Diff(EQUAL, prefix)] + mid else mid;
    assert prefix == "" ==> prefix + c1 == c1 && prefix + c2 == c2;
    DenotesAppend(a, prefix + c1, prefix + c2, exact, [Diff(EQUAL, suffix)], suffix, suffix, true);
    assert suffix == "" ==> prefix + c1 + suffix == prefix + c1 && prefix + c2 + suffix == prefix + c2;
  }

  /** diff_compute */
  method Compute(d: DiffList, text1: string, text2: string, checklines: bool, s: Settings)
    returns (ghost mids: seq<seq<Diff>>)
    requires checklines ==> LinesFit(text1, text2)
    requires d.items == [] && Apart(text1, text2)
    modifies d
    ensures Denotes(d.items, text1, text2, AllHarmless(mids, s.fixed)) && BetweenParts(mids, text1, text2)
    ensures !checklines || |text1| <= 100 || |text2| <= 100 ==> mids == []
    ensures OneCharEach(text1, text2) ==> d.items == Replacement(text1, text2)
    ensures checklines && !s.timed && OneLineEach(text1, text2) ==> mids == [Replacement(text1, text2)]
    ensures Sparing(d.items, text1, text2, s.timed, checklines)
    decreases checklines, |text1| + |text2|, 2
  {
    hide LinesFit, Denotes, AllHarmless, BetweenParts, NoHarm, Harmless, OneLineEach, Sparing, Contained, HalfInCommon;
    mids := [];
    NoLists(s.fixed);
    EachUncontained(text1, text2);
    if text1 == "" {
      d.items := [Diff(INSERT, text2)];
      DenotesInsert(text2);
      GapsOnly(d.items, text1, text2, s.timed, checklines);
      return;
    }
    if text2 == "" {
      d.items := [Diff(DELETE, text1)];
      DenotesDelete(text1);
      GapsOnly(d.items, text1, text2, s.timed, checklines);
      return;
    }
    var long := if |text1| > |text2| then text1 else text2;
    var short := if |text1| > |text2| then text2 else text1;
    var i := Find(long, short);
    if i != -1 {
      var op := if |text1| > |text2| then DELETE else INSERT;
      d.items := [Diff(op, long[..i]), Diff(EQUAL, short), Diff(op, long[i + |short|..])];
      DenotesContained(long, short, i);
      ContainedSize(long, short, i, op);
      GapsOnly(d.items, text1, text2, s.timed, checklines);
      return;
    }
    NotContained(text1, text2, long, short);
    if |short| == 1 {
      d.items := [Diff(DELETE, text1), Diff(INSERT, text2)];
      DenotesReplace(text1, text2);
      OneCharSparing(text1, text2, long, short, s.timed, checklines);
      return;
    }
    if s.timed {
      var found, h := FindHalfMatch(text1, text2);
      HalfFound(text1, text2, found);
      if found {
        mids := HalfMatched(d, text1, text2, h, checklines, s);
        HalfSparing(d.items, text1, text2, |h.common|, checklines);
        return;
      }
    }
    if checklines && |text1| > 100 && |text2| > 100 {
      ghost var cleaned;
      mids, cleaned := LineMode(d, text1, text2, s);
      RestSparing(d.items, text1, text2, s.timed, checklines, AllHarmless(mids, s.fixed));
      return;
    }
    Bisected(d, text1, text2, checklines, s);
    RestSparing(d.items, text1, text2, s.timed, checklines, true);
  }

  lemma GapsOnly(ds: seq<Diff>, a: string, b: string, timed: bool, lines: bool)
    requires Denotes(ds, a, b, true) && Edited(ds) == Gap(a, b)
    ensures Sparing(ds, a, b, timed, lines)
  {
    hide Sparing;
    GapSparing(ds, a, b, timed, lines);
  }

  lemma ContainedSize(long: string, short: string, i: int, op: Operation)
    requires Occurs(long, short, i) && op != EQUAL
    ensures Edited([Diff(op, long[..i]), Diff(EQUAL, short), Diff(op, long[i + |short|..])]) == |long| - |short|
  {
    var x, e, y := Diff(op, long[..i]), Diff(EQUAL, short), Diff(op, long[i + |short|..]);
    EditedPair(x, e);
    assert [x, e, y] == [x, e] + [y];
    EditedAppend([x, e], [y]);
    EditedOne(y);
  }

  lemma NotContained(a: string, b: string, long: string, short: string)
    requires if |a| > |b| then long == a && short == b else long == b && short == a
    requires Find(long, short) == -1
    ensures !Contained(a, b)
  {
    if Contained(a, b) {
      FoundWhenContained(long, short);
    }
  }

  lemma FoundWhenContained(long: string, short: string)
    requires |long| >= |short| && Contained(long, short)
    ensures Find(long, short) != -1
  {
    if Part(long, short) {
      var i :| Occurs(short, long, i);
      assert short[0..|short|] == short && long[0..|long|] == long;
      assert Occurs(long, short, 0);
    }
  }

  /** A single character that is not in the longer text. */
  lemma OneCharSparing(a: string, b: string, long: string, short: string, timed: bool, lines: bool)
    requires (long == a && short == b) || (long == b && short == a)
    requires |short| == 1 && Find(long, short) == -1 && a != "" && b != ""
    ensures Sparing(Replacement(a, b), a, b, timed, lines)
  {
    hide Sparing, Contained, HalfInCommon;
    forall i, j | 0 <= i < |a| && 0 <= j < |b| ensures a[i] != b[j] {
      var k := if long == a && short == b then i else j;
      if a[i] == b[j] {
        CharOccurs(long, short, k);
        assert false;
      }
    }
    TextTwo(Diff(DELETE, a), Diff(INSERT, b));
    assert a + "" == a && "" + b == b;
    EditedTwo(a, b);
    WholeSparing(Replacement(a, b), a, b, timed, lines);
  }

  lemma CharOccurs(s: string, c: string, k: int)
    requires 0 <= k < |s| && |c| == 1 && s[k] == c[0]
    ensures Occurs(s, c, k)
  {
    assert s[k..k + 1] == c;
  }

  lemma HalfFound(a: string, b: string, found: bool)
    requires found <==> Max(|a|, |b|) >= 4 && exists c :: HalfOf(c, a, b)
    ensures found <==> HalfInCommon(a, b)
  {
  }

  lemma HalfSparing(ds: seq<Diff>, a: string, b: string, common: nat, lines: bool)
    requires Edited(ds) <= |a| + |b| - 2 * common && 2 * common >= |a| && 2 * common >= |b| && !Contained(a, b)
    ensures Sparing(ds, a, b, true, lines)
  {
    hide Contained, HalfInCommon;
  }

  /** The size of a diff when neither text is in the other and there is no half match. */
  lemma RestSparing(ds: seq<Diff>, a: string, b: string, timed: bool, lines: bool, exact: bool)
    requires Denotes(ds, a, b, exact) && !Contained(a, b) && (timed ==> !HalfInCommon(a, b))
    requires !timed && !(lines && |a| > 100 && |b| > 100) ==> Edited(ds) == EditDistances.Distance(a, b)
    ensures Sparing(ds, a, b, timed, lines)
  {
    hide Contained, HalfInCommon, EditDistances.Distance;
    EditedFits(ds);
  }

  lemma NoLists(fixed: bool)
    ensures AllHarmless([], fixed) && forall a, b :: BetweenParts([], a, b)
  {
  }

  lemma EachUncontained(text1: string, text2: string)
    ensures OneLineEach(text1, text2) ==> |text1| > 100 && |text2| > 100 && Find(text1, text2) == -1 && Find(text2, text1) == -1
    ensures OneCharEach(text1, text2) ==> Find(text2, text1) == -1
  {
    assert text2[0..|text2|] == text2;
  }

  lemma DenotesInsert(t: string)
    ensures Denotes([Diff(INSERT, t)], "", t, true)
  {
    TextOne(Diff(INSERT, t));
  }

  lemma DenotesDelete(t: string)
    ensures Denotes([Diff(DELETE, t)], t, "", true)
  {
    TextOne(Diff(DELETE, t));
  }

  /** What diff_compute does with a half match: the texts before it, it, and the texts behind it. */
  method HalfMatched(d: DiffList, text1: string, text2: string, h: HalfMatch, checklines: bool, s: Settings)
    returns (ghost mids: seq<seq<Diff>>)
    requires checklines ==> LinesFit(text1, text2)
    requires Splits(h, text1, text2) && h.common != ""
    modifies d
    ensures Denotes(d.items, text1, text2, AllHarmless(mids, s.fixed)) && BetweenParts(mids, text1, text2)
    ensures !checklines || |text1| <= 100 || |text2| <= 100 ==> mids == []
    ensures Edited(d.items) <= |text1| + |text2| - 2 * |h.common|
    decreases checklines, |text1| + |text2|, 1
  {
    hide LinesFit, Denotes, AllHarmless, BetweenParts, NoHarm, OneLineEach, OneCharEach, Sparing, Inner, Contained, Edited;
    if checklines {
      PartsFit(h.text1a, h.common, h.text1b, h.text2a, h.common, h.text2b);
    }
    mids := DiffMain(d, h.text1a, h.text2a, checklines, s);
    ghost var a, exact := d.items, AllHarmless(mids, s.fixed);
    d.items := d.items + [Diff(EQUAL, h.common)];
    var rest := new DiffList([]);
    ghost var more := DiffMain(rest, h.text1b, h.text2b, checklines, s);
    DenotesEqual(h.common);
    DenotesAppend(a, h.text1a, h.text2a, exact, [Diff(EQUAL, h.common)], h.common, h.common, true);
    DenotesAppend(a + [Diff(EQUAL, h.common)], h.text1a + h.common, h.text2a + h.common, exact,
                  rest.items, h.text1b, h.text2b, AllHarmless(more, s.fixed));
    HarmlessAppend(mids, more, s.fixed);
    BetweenHalves(mids, more, text1, text2, h);
    HalvesSize(a, rest.items, h, exact, AllHarmless(more, s.fixed));
    mids := mids + more;
    d.items := d.items + rest.items;
  }

  lemma HalvesSize(a: seq<Diff>, b: seq<Diff>, h: HalfMatch, exact: bool, exact': bool)
    requires Denotes(a, h.text1a, h.text2a, exact) && Denotes(b, h.text1b, h.text2b, exact')
    ensures Edited(a + [Diff(EQUAL, h.common)] + b) <= |h.text1a| + |h.text2a| + |h.text1b| + |h.text2b|
  {
    EditedFits(a);
    EditedFits(b);
    EditedAppend(a, [Diff(EQUAL, h.common)]);
    EditedOne(Diff(EQUAL, h.common));
    EditedAppend(a + [Diff(EQUAL, h.common)], b);
  }

  lemma BetweenHalves(a: seq<seq<Diff>>, b: seq<seq<Diff>>, text1: string, text2: string, h: HalfMatch)
    requires Splits(h, text1, text2) && BetweenParts(a, h.text1a, h.text2a) && BetweenParts(b, h.text1b, h.text2b)
    ensures BetweenParts(a + b, text1, text2)
  {
    hide BetweenParts;
    BetweenMiddles(a, h.text1a, h.text2a, "", h.common + h.text1b, "", h.common + h.text2b);
    BetweenMiddles(b, h.text1b, h.text2b, h.text1a + h.common, "", h.text2a + h.common, "");
    AroundCommon(h.text1a, h.common, h.text1b);
    AroundCommon(h.text2a, h.common, h.text2b);
    BetweenAppend(a, b, text1, text2);
  }

  lemma AroundCommon(a: string, c: string, b: string)
    ensures "" + a + (c + b) == a + c + b && a + c + b + "" == a + c + b
  {
  }

  /** diff_bisect: the texts are cut where the two paths meet, which is inside both and not at a corner.
      Without a deadline no diff edits fewer characters. */
  method Bisected(d: DiffList, text1: string, text2: string, checklines: bool, s: Settings)
    requires Bisect.Trimmed(text1, text2)
    modifies d
    ensures Denotes(d.items, text1, text2, true) && (!s.timed ==> Edited(d.items) == EditDistances.Distance(text1, text2))
    decreases checklines, |text1| + |text2|, 1
  {
    hide EditDistances.Distance, BisectWays.OnShortest, Edited;
    var found, x, y := Bisect.Search(text1, text2, s.timed);
    if found {
      BisectSplit(d, text1, text2, x, y, s);
      return;
    }
    d.items := [Diff(DELETE, text1), Diff(INSERT, text2)];
    DenotesReplace(text1, text2);
    EditedTwo(text1, text2);
  }

  /** diff_bisectSplit */
  method BisectSplit(d: DiffList, text1: string, text2: string, x: nat, y: nat, s: Settings)
    requires Bisect.Inside(|text1|, |text2|, x, y) && BisectWays.OnShortest(text1, text2, x, y)
    modifies d
    ensures Denotes(d.items, text1, text2, true) && (!s.timed ==> Edited(d.items) == EditDistances.Distance(text1, text2))
    decreases false, |text1| + |text2|, 0
  {
    hide EditDistances.Distance, Sparing, Inner, Contained, Denotes, AllHarmless, BetweenParts, NoHarm, OneCharEach, Edited;
    NoLists(s.fixed);
    ghost var none := DiffMain(d, text1[..x], text2[..y], false, s);
    var rest := new DiffList([]);
    none := DiffMain(rest, text1[x..], text2[y..], false, s);
    DenotesAppend(d.items, text1[..x], text2[..y], true, rest.items, text1[x..], text2[y..], true);
    assert text1 == text1[..x] + text1[x..] && text2 == text2[..y] + text2[y..];
    EditedAppend(d.items, rest.items);
    d.items := d.items + rest.items;
  }

  /** diff_lineMode: the texts are compared as strings of line numbers. cleaned is the diff by lines after
      its clean-up; without a deadline each block of it that replaces lines gives way to a shortest diff. */
  method LineMode(d: DiffList, text1: string, text2: string, s: Settings)
    returns (ghost mids: seq<seq<Diff>>, ghost cleaned: seq<Diff>)
    requires LinesFit(text1, text2) && |text1| > 100 && |text2| > 100
    modifies d
    ensures Denotes(d.items, text1, text2, AllHarmless(mids, s.fixed)) && BetweenParts(mids, text1, text2)
    ensures OneLineEach(text1, text2) ==> mids == [Replacement(text1, text2)]
    ensures |mids| == 1 && Folded(cleaned, mids[0], Harmless(mids[0], s.fixed)) && (!s.timed ==> Edited(d.items) == Closest(cleaned, 0, 0, "", ""))
    decreases true, 0, 5
  {
    hide LinesFit, OneLineEach, BetweenParts, NoHarm, Text1, Text2, Hydrate, Sparing, Inner, Contained, Closest, Edited, Staged, Settled;
    WholeFits(text1, text2);
    var chars1, chars2, lines := LinesToChars(text1, text2);
    if OneLineEach(text1, text2) {
      OneCharForLine(text1, text2, chars1, chars2, lines);
    }
    ghost var none := DiffMain(d, chars1, chars2, false, s);
    FromChars(d, text1, text2, chars1, chars2, lines);
    ghost var D := d.items;
    ghost var g := CleanupSemantic(d, s.score, s.fixed);
    StagedSame(D, g, s.score);
    ghost var mid := g.mid;
    mids, cleaned := [mid], d.items;
    BetweenOne(mid, text1, text2);
    if OneLineEach(text1, text2) {
      PairSettled(text1, text2);
    }
    assert AllHarmless(mids, s.fixed) <==> Harmless(mids[0], s.fixed);
    RediffAll(d, s);
  }

  lemma OneCharForLine(text1: string, text2: string, chars1: string, chars2: string, lines: seq<string>)
    requires OneLineEach(text1, text2)
    requires Numbered(chars1, lines) && Hydrate(chars1, lines) == text1 && |chars1| == LineCount(text1, 0)
    requires Numbered(chars2, lines) && Hydrate(chars2, lines) == text2 && |chars2| == LineCount(text2, 0)
    ensures OneCharEach(chars1, chars2)
  {
    OneLine(text1);
    OneLine(text2);
  }

  /** The numbers in the diff become lines again. */
  method FromChars(d: DiffList, ghost text1: string, ghost text2: string, ghost chars1: string, ghost chars2: string,
                   lines: seq<string>)
    requires Denotes(d.items, chars1, chars2, true)
    requires Numbered(chars1, lines) && Hydrate(chars1, lines) == text1
    requires Numbered(chars2, lines) && Hydrate(chars2, lines) == text2
    modifies d
    ensures Denotes(d.items, text1, text2, true)
    ensures old(d.items) == Replacement(chars1, chars2) ==> d.items == Replacement(text1, text2)
  {
    TextsNumbered(d.items, lines);
    HydrateTexts(d.items, lines);
    if d.items == Replacement(chars1, chars2) {
      HydrateReplacement(chars1, chars2, lines);
    }
    CharsToLines(d, lines);
  }

  lemma HydrateReplacement(chars1: string, chars2: string, lines: seq<string>)
    requires Numbered(chars1, lines) && Numbered(chars2, lines)
    ensures AllNumbered(Replacement(chars1, chars2), lines)
    ensures HydrateAll(Replacement(chars1, chars2), lines) == Replacement(Hydrate(chars1, lines), Hydrate(chars2, lines))
  {
    var ds := Replacement(chars1, chars2);
    assert ds[1..] == [Diff(INSERT, chars2)] && ds[1..][1..] == [];
    assert HydrateAll(ds[1..][1..], lines) == [];
    assert HydrateAll(ds[1..], lines) == [Diff(INSERT, Hydrate(chars2, lines))];
  }

  /** The pass that compares replaced lines again; a dummy ends the list while it runs. */
  method RediffAll(d: DiffList, s: Settings)
    modifies d
    ensures Same(d.items, old(d.items)) && (!s.timed ==> Edited(d.items) == Closest(old(d.items), 0, 0, "", ""))
    decreases true, 0, 4
  {
    hide Edited, Closest, Text1, Text2;
    DummyEnd(d.items);
    ClosestEnd(d.items, 0, 0, "", "");
    d.items := d.items + [Diff(EQUAL, "")];
    Rediff(d, s);
    DropLast(d.items);
    d.items := d.items[..|d.items| - 1];
  }

  lemma DropLast(ds: seq<Diff>)
    requires |ds| > 0 && ds[|ds| - 1] == Diff(EQUAL, "")
    ensures Same(ds[..|ds| - 1], ds) && Edited(ds[..|ds| - 1]) == Edited(ds)
  {
    assert ds == ds[..|ds| - 1] + [Diff(EQUAL, "")];
    DummyEnd(ds[..|ds| - 1]);
  }

  /** Where the second diff of line mode stands: the run of edits before cur is collected. */
  ghost predicate Collected(ds: seq<Diff>, cur: nat, dels: nat, ins: nat, td: string, ti: string) {
    dels + ins <= cur <= |ds| && Run(ds[cur - dels - ins..cur], dels, ins, td, ti)
  }

  lemma CollectDelete(ds: seq<Diff>, cur: nat, dels: nat, ins: nat, td: string, ti: string)
    requires Collected(ds, cur, dels, ins, td, ti) && cur < |ds| && ds[cur].op == DELETE
    ensures Collected(ds, cur + 1, dels + 1, ins, td + ds[cur].text, ti)
  {
    RunGrow(ds[cur - dels - ins..cur], dels, ins, td, ti, ds[cur]);
    assert ds[cur - dels - ins..cur + 1] == ds[cur - dels - ins..cur] + [ds[cur]];
  }

  lemma CollectInsert(ds: seq<Diff>, cur: nat, dels: nat, ins: nat, td: string, ti: string)
    requires Collected(ds, cur, dels, ins, td, ti) && cur < |ds| && ds[cur].op == INSERT
    ensures Collected(ds, cur + 1, dels, ins + 1, td, ti + ds[cur].text)
  {
    RunGrow(ds[cur - dels - ins..cur], dels, ins, td, ti, ds[cur]);
    assert ds[cur - dels - ins..cur + 1] == ds[cur - dels - ins..cur] + [ds[cur]];
  }

  lemma CollectNone(ds: seq<Diff>, cur: nat)
    requires cur <= |ds|
    ensures Collected(ds, cur, 0, 0, "", "")
  {
    assert ds[cur..cur] == [];
  }

  /** The pass of diff_lineMode over the lines that are replaced, which are compared as characters; the
      list ends with a dummy. */
  method Rediff(d: DiffList, s: Settings)
    requires |d.items| > 0 && d.items[|d.items| - 1] == Diff(EQUAL, "")
    modifies d
    ensures Same(d.items, old(d.items)) && |d.items| > 0 && d.items[|d.items| - 1] == Diff(EQUAL, "")
    ensures !s.timed ==> Edited(d.items) == Closest(old(d.items), 0, 0, "", "")
    decreases true, 0, 3
  {
    hide Collected, Closest, Edited, Text1, Text2;
    ghost var D := d.items;
    var cur: nat, dels: nat, ins: nat, td, ti := 0, 0, 0, "", "";
    CollectNone(D, 0);
    NothingSpent(D);
    while cur < |d.items|
      invariant Collected(d.items, cur, dels, ins, td, ti) && Same(d.items, D) && dels + ins <= cur <= |d.items|
      invariant !s.timed ==> Spent(d.items, cur, dels, ins, td, ti) == Closest(D, 0, 0, "", "")
      invariant |d.items| > 0 && d.items[|d.items| - 1] == Diff(EQUAL, "")
      decreases |d.items| - cur
    {
      cur, dels, ins, td, ti := RediffEntry(d, cur, dels, ins, td, ti, s);
    }
    AllSpent(d.items, cur, dels, ins, td, ti);
  }

  lemma NothingSpent(ds: seq<Diff>)
    ensures Spent(ds, 0, 0, 0, "", "") == Closest(ds, 0, 0, "", "")
  {
    assert ds[0..] == ds && ds[..0] == [];
  }

  lemma AllSpent(ds: seq<Diff>, cur: nat, dels: nat, ins: nat, td: string, ti: string)
    requires Collected(ds, cur, dels, ins, td, ti) && cur == |ds| > 0 && ds[|ds| - 1].op == EQUAL
    ensures Spent(ds, cur, dels, ins, td, ti) == Edited(ds)
  {
    hide Collected;
    RunEnds(ds, cur, dels, ins, td, ti);
    assert ds[..cur] == ds && ds[cur..] == [];
  }

  lemma RunEnds(ds: seq<Diff>, cur: nat, dels: nat, ins: nat, td: string, ti: string)
    requires Collected(ds, cur, dels, ins, td, ti)
    ensures dels + ins > 0 ==> 0 < cur <= |ds| && ds[cur - 1].op != EQUAL
    ensures dels + ins == 0 ==> td == "" && ti == ""
  {
    if dels + ins > 0 {
      assert ds[cur - dels - ins..cur][dels + ins - 1] == ds[cur - 1];
    }
  }

  method RediffEntry(d: DiffList, cur0: nat, dels0: nat, ins0: nat, td0: string, ti0: string, s: Settings)
    returns (cur: nat, dels: nat, ins: nat, td: string, ti: string)
    requires cur0 < |d.items| && Collected(d.items, cur0, dels0, ins0, td0, ti0)
    modifies d
    ensures Same(d.items, old(d.items)) && |d.items| - cur == old(|d.items|) - cur0 - 1
    ensures |d.items| > 0 && d.items[|d.items| - 1] == old(d.items[|d.items| - 1])
    ensures Collected(d.items, cur, dels, ins, td, ti) && dels + ins <= cur <= |d.items| && dels0 + ins0 <= cur0
    ensures !s.timed ==> Spent(d.items, cur, dels, ins, td, ti) == old(Spent(d.items, cur0, dels0, ins0, td0, ti0))
    decreases true, 0, 2
  {
    hide Collected, Text1, Text2, Spent;
    CollectedBounds(d.items, cur0, dels0, ins0, td0, ti0);
    SpentOnEdit(d.items, cur0, dels0, ins0, td0, ti0);
    var e := d.items[cur0];
    if e.op == INSERT {
      CollectInsert(d.items, cur0, dels0, ins0, td0, ti0);
      return cur0 + 1, dels0, ins0 + 1, td0, ti0 + e.text;
    }
    if e.op == DELETE {
      CollectDelete(d.items, cur0, dels0, ins0, td0, ti0);
      return cur0 + 1, dels0 + 1, ins0, td0 + e.text, ti0;
    }
    cur := RediffEquality(d, cur0, dels0, ins0, td0, ti0, s);
    dels, ins, td, ti := 0, 0, "", "";
  }

  /** At an equality, the run before it is compared again if it deletes and inserts. */
  method RediffEquality(d: DiffList, cur0: nat, dels: nat, ins: nat, td: string, ti: string, s: Settings)
    returns (cur: nat)
    requires cur0 < |d.items| && Collected(d.items, cur0, dels, ins, td, ti)
    modifies d
    ensures Same(d.items, old(d.items)) && |d.items| - cur == old(|d.items|) - cur0 - 1
    ensures |d.items| > 0 && d.items[|d.items| - 1] == old(d.items[|d.items| - 1])
    ensures Collected(d.items, cur, 0, 0, "", "") && cur <= |d.items| && dels + ins <= cur0
    ensures !s.timed && old(d.items[cur0].op == EQUAL) ==>
              Spent(d.items, cur, 0, 0, "", "") == old(Spent(d.items, cur0, dels, ins, td, ti))
    decreases true, 0, 1
  {
    hide Collected, Text1, Text2, Spent, Edited;
    CollectedBounds(d.items, cur0, dels, ins, td, ti);
    ghost var D := d.items;
    cur := cur0;
    if dels >= 1 && ins >= 1 {
      cur := RediffRun(d, cur0, dels, ins, td, ti, s);
    } else {
      RunStays(D, cur0, dels, ins, td, ti);
    }
    cur := cur + 1;
    CollectNone(d.items, cur);
  }

  /** One replacement block: the run before cur gives way to the diff of its two texts. */
  method RediffRun(d: DiffList, cur0: nat, dels: nat, ins: nat, td: string, ti: string, s: Settings) returns (cur: nat)
    requires cur0 < |d.items| && Collected(d.items, cur0, dels, ins, td, ti)
    modifies d
    ensures Same(d.items, old(d.items)) && cur < |d.items| && |d.items| - cur == old(|d.items|) - cur0
    ensures d.items[|d.items| - 1] == old(d.items[|d.items| - 1]) && dels + ins <= cur0
    ensures !s.timed && dels >= 1 && ins >= 1 && old(d.items[cur0].op == EQUAL) ==>
              Spent(d.items, cur + 1, 0, 0, "", "") == old(Spent(d.items, cur0, dels, ins, td, ti))
    decreases true, 0, 0
  {
    hide Spent, Sparing, Inner, Contained, AllHarmless, BetweenParts, NoHarm, OneCharEach, Edited, Collected, Denotes;
    NoLists(s.fixed);
    CollectedBounds(d.items, cur0, dels, ins, td, ti);
    cur := cur0 - dels - ins;
    var block := new DiffList([]);
    ghost var none := DiffMain(block, td, ti, false, s);
    BlockSpliced(d.items, cur0, dels, ins, td, ti, block.items);
    if !s.timed && dels >= 1 && ins >= 1 && d.items[cur0].op == EQUAL {
      SpentOnRun(d.items, cur0, dels, ins, td, ti, block.items, Splice(d.items, cur, cur0, block.items));
    }
    d.items := Splice(d.items, cur, cur0, block.items);
    cur := cur + |block.items|;
  }

  lemma BlockSpliced(ds: seq<Diff>, cur: nat, dels: nat, ins: nat, td: string, ti: string, block: seq<Diff>)
    requires Collected(ds, cur, dels, ins, td, ti) && cur < |ds| && Denotes(block, td, ti, true)
    ensures dels + ins <= cur
    ensures var es := Splice(ds, cur - dels - ins, cur, block);
            && Same(es, ds) && |es| - (cur - dels - ins + |block|) == |ds| - cur && es[|es| - 1] == ds[|ds| - 1]
  {
    SpliceSame(ds, cur - dels - ins, cur, block);
  }

  lemma CollectedBounds(ds: seq<Diff>, cur: nat, dels: nat, ins: nat, td: string, ti: string)
    requires Collected(ds, cur, dels, ins, td, ti)
    ensures dels + ins <= cur <= |ds|
  {
  }

  lemma RunStays(ds: seq<Diff>, cur: nat, dels: nat, ins: nat, td: string, ti: string)
    requires Collected(ds, cur, dels, ins, td, ti) && !(dels >= 1 && ins >= 1) && dels + ins <= cur < |ds|
    ensures ds[cur].op == EQUAL ==> Spent(ds, cur + 1, 0, 0, "", "") == Spent(ds, cur, dels, ins, td, ti)
  {
    if ds[cur].op == EQUAL {
      var run := ds[cur - dels - ins..cur];
      assert ds == ds[..cur - dels - ins] + run + ds[cur..];
      SpentOnRun(ds, cur, dels, ins, td, ti, run, ds);
    }
  }

  /** The two texts of a run of one character behind different beginnings, the second with one more at
      the end. */
  lemma RunsOverlap(k: nat, text1: string, text2: string)
    requires k >= 100 && text1 == "w" + seq(k, _ => 'b') && text2 == "a" + seq(k, _ => 'b') + "X"
    ensures OneLineEach(text1, text2) && !SuffixTestHarmless(text1, text2)
  {
    hide LongestOverlap, SuffixLength, FindFrom;
    var t2 := CutRight(text1, text2);
    assert t2 == "a" + seq(k, _ => 'b') && CutLeft(text1, text2) == text1;
    var t := LongestOverlap(text1, text2);
    if t > 0 {
      OverlapStarts(text1, text2, t);
      assert false;
    }
    assert Right(text1, 1) == "b";
    assert Occurs(t2, "b", 1) && !Occurs(t2, "b", 0);
    assert Right(text1, 2) == "bb" && Right(t2, 2) == "bb";
    SuffixEqual(text1, t2, 2);
    var i := Find(text2, text1);
    if i != -1 {
      OccurrenceStarts(text2, text1, i);
      assert false;
    }
  }

  lemma OccurrenceStarts(t: string, p: string, i: int)
    requires Occurs(t, p, i) && p != ""
    ensures t[i] == p[0] && |p| <= |t| - i
  {
    assert t[i..i + |p|][0] == p[0];
  }

  lemma OverlapStarts(a: string, b: string, n: int)
    requires Overlaps(a, b, n) && n > 0
    ensures a[|a| - n] == b[0]
  {
    assert Right(a, n)[0] == b[..n][0];
  }

  lemma OneLineFits(text1: string, text2: string)
    requires OneLineEach(text1, text2)
    ensures LinesFit(text1, text2)
  {
    OneLine(text1);
    OneLine(text2);
    FewLines(text1, text2);
  }

  lemma NotHarmless(mids: seq<seq<Diff>>, text1: string, text2: string)
    requires mids == [Replacement(text1, text2)] && !SuffixTestHarmless(text1, text2)
    ensures !AllHarmless(mids, false)
  {
    PairSettled(text1, text2);
    assert !Harmless(mids[0], false);
  }

  lemma NotExact(ds: seq<Diff>, text1: string, text2: string)
    requires Denotes(ds, text1, text2, false)
    ensures Text2(ds) == text2 && |Text1(ds)| == |text1| && Text1(ds) != text1
  {
  }

  /** diff_main, run on texts of one line without a deadline, can lose the first of them. */
  method LineModeLosesText(k: nat, score: (string, string) -> int) returns (text1: string, text2: string, ds: seq<Diff>)
    requires k >= 100
    ensures text1 == "w" + seq(k, _ => 'b') && text2 == "a" + seq(k, _ => 'b') + "X"
    ensures Text2(ds) == text2 && |Text1(ds)| == |text1| && Text1(ds) != text1
  {
    text1, text2 := "w" + seq(k, _ => 'b'), "a" + seq(k, _ => 'b') + "X";
    hide *;
    RunsOverlap(k, text1, text2);
    OneLineFits(text1, text2);
    PairSettled(text1, text2);
    var d := new DiffList([]);
    ghost var mids := DiffMain(d, text1, text2, true, Settings(false, false, score));
    NotHarmless(mids, text1, text2);
    NotExact(d.items, text1, text2);
    ds := d.items;
  }
}
