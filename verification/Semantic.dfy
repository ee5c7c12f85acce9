/** diff_cleanupSemanticLossless and diff_cleanupSemantic. */
module Semantic {
  import opened Strings
  import opened Diffs
  import opened CleanupMerging
  import opened Cleanup

  /** An edit between two equalities, and what it may become by sliding it sideways. */
  predicate Slid(e1: string, x: string, e2: string, f1: string, y: string, f2: string) {
    f1 + y + f2 == e1 + x + e2 && f1 + f2 == e1 + e2
  }

  /** The edit cannot be slid: it does not end like the equality before it nor begin like the one
      behind it. */
  predicate Wedged(e1: string, x: string, e2: string) {
    && (e1 != "" && x != "" ==> e1[|e1| - 1] != x[|x| - 1])
    && (x != "" && e2 != "" ==> x[0] != e2[0])
  }

  predicate AllWedged(ds: seq<Diff>) {
    forall i :: 0 <= i < |ds| - 2 && ds[i].op == EQUAL && ds[i + 2].op == EQUAL ==>
      Wedged(ds[i].text, ds[i + 1].text, ds[i + 2].text)
  }

  /** Where an edit can slide to is an interval: up to any place it can reach, the text before it is
      the text of both sides and what it slid over stands behind it. */
  lemma SlidPlace(e1: string, x: string, e2: string, g1: string, y: string, g2: string)
    requires Slid(e1, x, e2, g1, y, g2)
    ensures |y| == |x|
    ensures forall i :: 0 <= i < |g1| ==> (e1 + e2)[i] == (e1 + x + e2)[i]
    ensures forall i :: |g1| <= i < |e1 + e2| ==> (e1 + e2)[i] == (e1 + x + e2)[i + |x|]
  {
    assert |g1 + y + g2| == |e1 + x + e2| && |g1 + g2| == |e1 + e2|;
    forall i | 0 <= i < |g1| ensures (e1 + e2)[i] == (e1 + x + e2)[i] {
      assert (g1 + g2)[i] == (g1 + y + g2)[i];
    }
    forall i | |g1| <= i < |e1 + e2| ensures (e1 + e2)[i] == (e1 + x + e2)[i + |x|] {
      assert (g1 + g2)[i] == (g1 + y + g2)[i + |y|];
    }
  }

  lemma SlidUnique(e1: string, x: string, e2: string, g1: string, y: string, g2: string, h1: string, z: string,
                   h2: string)
    requires Slid(e1, x, e2, g1, y, g2) && Slid(e1, x, e2, h1, z, h2) && |g1| == |h1|
    ensures g1 == h1 && y == z && g2 == h2
  {
    EqualParts(g1, g2, h1, h2);
    EqualParts(g1, y + g2, h1, z + h2);
    assert g1 + (y + g2) == g1 + y + g2 && h1 + (z + h2) == h1 + z + h2;
    assert |g1 + y + g2| == |h1 + z + h2|;
    EqualParts(y, g2, z, h2);
  }

  /** An edit that can stand further right begins with the character behind it. */
  lemma SlidFurther(e1: string, x: string, e2: string, f1: string, y: string, f2: string, g1: string, z: string,
                    g2: string)
    requires Slid(e1, x, e2, f1, y, f2) && Slid(e1, x, e2, g1, z, g2) && y != "" && |f1| < |g1|
    ensures f2 != "" && y[0] == f2[0]
  {
    SlidPlace(e1, x, e2, g1, z, g2);
    assert |f1 + f2| == |g1 + g2|;
    assert (f1 + f2)[|f1|] == f2[0] && (f1 + y + f2)[|f1|] == y[0];
  }

  /** An edit that can stand further left ends with the character before it. */
  lemma SlidEarlier(e1: string, x: string, e2: string, f1: string, y: string, f2: string, g1: string, z: string,
                    g2: string)
    requires Slid(e1, x, e2, f1, y, f2) && Slid(e1, x, e2, g1, z, g2) && y != "" && |g1| < |f1|
    ensures y[|y| - 1] == f1[|f1| - 1]
  {
    SlidPlace(e1, x, e2, g1, z, g2);
    SlidPlace(e1, x, e2, f1, y, f2);
    var i := |f1| - 1;
    assert (f1 + f2)[i] == f1[i] && (f1 + y + f2)[i + |y|] == y[|y| - 1];
  }

  // The edit can be slid further left than by the suffix it has in common with the equality before it.
  predicate GoesOn(e1: string, x: string) {
    var n := SuffixLength(e1, x);
    x != "" && n == |x| && n < |e1| && e1[|e1| - 1 - n] == x[|x| - 1]
  }

  /** The comment at the slide to the left says as far as possible. It is, unless the whole edit is
      repeated before itself and can go on: the common suffix is no longer than the edit. */
  lemma LeftmostIff(e1: string, x: string, e2: string)
    requires x != ""
    ensures (forall g1, y, g2 :: Slid(e1, x, e2, g1, y, g2) ==> |g1| >= |e1| - SuffixLength(e1, x))
            <==> !GoesOn(e1, x)
  {
    hide Slid, SuffixLength, GoesOn;
    if GoesOn(e1, x) {
      var h, y, g := Repeated(e1, x, e2);
      assert Slid(e1, x, e2, h, y, g);
    } else {
      var f1, y, f2 := SuffixSlid(e1, x, e2);
      forall g1, z, g2 | Slid(e1, x, e2, g1, z, g2) ensures |g1| >= |e1| - SuffixLength(e1, x) {
        if |g1| < |f1| {
          SlidEarlier(e1, x, e2, f1, y, f2, g1, z, g2);
        }
      }
    }
  }

  /** The whole edit stands before itself, and can move one place more. */
  lemma Repeated(e1: string, x: string, e2: string) returns (h: string, y: string, g: string)
    requires GoesOn(e1, x)
    ensures Slid(e1, x, e2, h, y, g) && |h| == |e1| - SuffixLength(e1, x) - 1
  {
    var c, z := x[|x| - 1], x[..|x| - 1];
    h := e1[..|e1| - |x| - 1];
    y, g := [c] + z, [c] + x + e2;
    CutBefore(e1, x);
    FurtherLeft(h, c, z, x, e2);
  }

  lemma CutBefore(e1: string, x: string)
    requires GoesOn(e1, x)
    ensures e1 == e1[..|e1| - |x| - 1] + [x[|x| - 1]] + x && x == x[..|x| - 1] + [x[|x| - 1]]
  {
    assert Right(x, |x|) == x;
    assert e1 == e1[..|e1| - |x| - 1] + [e1[|e1| - |x| - 1]] + Right(e1, |x|);
  }

  /** The edit slid left over the suffix: it ends where the suffix began. */
  lemma SuffixSlid(e1: string, x: string, e2: string) returns (f1: string, y: string, f2: string)
    requires x != ""
    ensures Slid(e1, x, e2, f1, y, f2) && |f1| == |e1| - SuffixLength(e1, x) && y != ""
    ensures f1 != "" && y[|y| - 1] == f1[|f1| - 1] ==> GoesOn(e1, x)
  {
    hide SuffixLength, Slid;
    var n := SuffixLength(e1, x);
    f1, y, f2 := e1[..|e1| - n], Right(x, n) + x[..|x| - n], Right(x, n) + e2;
    SuffixCut(e1, x, e2, n);
    if n == |x| {
      assert y == x;
    } else {
      assert y[|y| - 1] == x[|x| - 1 - n];
    }
  }

  lemma SuffixCut(e1: string, x: string, e2: string, n: int)
    requires CommonEnd(e1, x, n)
    ensures Slid(e1, x, e2, e1[..|e1| - n], Right(x, n) + x[..|x| - n], Right(x, n) + e2)
  {
    var f1, common, rest := e1[..|e1| - n], Right(x, n), x[..|x| - n];
    assert e1 == f1 + common && x == rest + common;
    SlideLeftText(f1, common, rest, e2);
  }

  lemma FurtherLeft(h: string, c: char, z: string, x: string, e2: string)
    requires x == z + [c]
    ensures h + ([c] + z) + ([c] + x + e2) == (h + [c] + x) + x + e2
    ensures h + ([c] + x + e2) == (h + [c] + x) + e2
  {
  }

  // Both boundaries of an edit.
  function Total(score: (string, string) -> int, f1: string, y: string, f2: string): int {
    score(f1, y) + score(y, f2)
  }

  /** No place from lo to hi scores higher than b1, and none behind it as high. */
  ghost predicate BestWithin(e1: string, x: string, e2: string, score: (string, string) -> int, lo: int, hi: int,
                             b1: string, b: string, b2: string) {
    forall g1, y, g2 :: Slid(e1, x, e2, g1, y, g2) && lo <= |g1| <= hi ==>
      || Total(score, g1, y, g2) < Total(score, b1, b, b2)
      || (Total(score, g1, y, g2) == Total(score, b1, b, b2) && |g1| <= |b1|)
  }

  /** The last best place among all from the common suffix of the edit and the equality before it on. */
  ghost predicate Aligned(e1: string, x: string, e2: string, score: (string, string) -> int,
                          b1: string, b: string, b2: string) {
    && Slid(e1, x, e2, b1, b, b2) && |e1| - SuffixLength(e1, x) <= |b1|
    && (x == "" ==> b1 == e1)
    && (x != "" ==>
          BestWithin(e1, x, e2, score, |e1| - SuffixLength(e1, x), |e1| + |e2|, b1, b, b2))
  }

  lemma AlignedSlid(e1: string, x: string, e2: string, score: (string, string) -> int,
                    b1: string, b: string, b2: string)
    requires Aligned(e1, x, e2, score, b1, b, b2)
    ensures Slid(e1, x, e2, b1, b, b2)
  {
  }

  /** Only one place is the last best. */
  lemma AlignedUnique(e1: string, x: string, e2: string, score: (string, string) -> int,
                      b1: string, b: string, b2: string, c1: string, c: string, c2: string)
    requires Aligned(e1, x, e2, score, b1, b, b2) && Aligned(e1, x, e2, score, c1, c, c2)
    ensures b1 == c1 && b == c && b2 == c2
  {
    assert |b1 + b2| == |e1 + e2| && |c1 + c2| == |e1 + e2|;
    SlidUnique(e1, x, e2, b1, b, b2, c1, c, c2);
  }

  /** The edit slides left over the text it has in common with the equality before it. */
  method SlideLeft(e1: string, x: string, e2: string) returns (f1: string, y: string, f2: string)
    ensures Slid(e1, x, e2, f1, y, f2) && |f1| == |e1| - SuffixLength(e1, x)
    ensures Wedged(e1, x, e2) ==> f1 == e1 && y == x && f2 == e2
  {
    hide SuffixLength, Slid;
    SlidNowhere(e1, x, e2);
    f1, y, f2 := e1, x, e2;
    var n := CommonSuffix(e1, x);
    SuffixUnique(e1, x, n, SuffixLength(e1, x));
    if n != 0 {
      var common := x[|x| - n..];
      SuffixCut(e1, x, e2, n);
      EndCharacter(e1, x, n, 0);
      f1 := e1[..|e1| - n];
      y := common + x[..|x| - n];
      f2 := common + e2;
    }
  }

  lemma SlidNowhere(e1: string, x: string, e2: string)
    ensures Slid(e1, x, e2, e1, x, e2)
  {
  }

  lemma SlideLeftText(f: string, c: string, x: string, e: string)
    ensures f + (c + x) + (c + e) == (f + c) + (x + c) + e && f + (c + e) == (f + c) + e
  {
  }

  lemma SlideRightText(f1: string, c: char, y: string, f2: string)
    ensures (f1 + [c]) + (y + [c]) + f2 == f1 + ([c] + y) + ([c] + f2)
    ensures (f1 + [c]) + f2 == f1 + ([c] + f2)
  {
  }

  /** All positions of the edit from the leftmost on, with the best score. */
  method BestSlide(e1: string, x: string, e2: string, score: (string, string) -> int)
    returns (b1: string, b: string, b2: string)
    ensures Aligned(e1, x, e2, score, b1, b, b2)
    ensures Wedged(e1, x, e2) ==> b1 == e1
  {
    hide Slid, BestWithin;
    var f1, y, f2 := SlideLeft(e1, x, e2);
    b1, b, b2 := f1, y, f2;
    var best := score(f1, y) + score(y, f2);
    ghost var lo := |f1|;
    SlidLength(e1, x, e2, f1, y, f2);
    BestAlone(e1, x, e2, score, f1, y, f2);
    while y != "" && f2 != "" && y[0] == f2[0]
      invariant Slid(e1, x, e2, f1, y, f2) && Slid(e1, x, e2, b1, b, b2)
      invariant |y| == |x| && lo <= |b1| <= |f1| && best == Total(score, b1, b, b2)
      invariant y == "" ==> b1 == e1
      invariant BestWithin(e1, x, e2, score, lo, |f1|, b1, b, b2)
      invariant Wedged(e1, x, e2) ==> f1 == e1 && y == x && f2 == e2 && b1 == e1
      decreases |f2|
    {
      SlidStep(e1, x, e2, f1, y, f2);
      BestOneMore(e1, x, e2, score, lo, f1 + [y[0]], y[1..] + [y[0]], f2[1..], b1, b, b2);
      f1 := f1 + [y[0]];
      y := y[1..] + [f2[0]];
      f2 := f2[1..];
      var s := score(f1, y) + score(y, f2);
      if s >= best {
        best := s;
        b1, b, b2 := f1, y, f2;
      }
    }
    if x == "" {
    } else {
      BestOfAll(e1, x, e2, score, lo, f1, y, f2, b1, b, b2);
    }
  }

  lemma SlidLength(e1: string, x: string, e2: string, f1: string, y: string, f2: string)
    requires Slid(e1, x, e2, f1, y, f2)
    ensures |y| == |x|
  {
    SlidPlace(e1, x, e2, f1, y, f2);
  }

  lemma SlidStep(e1: string, x: string, e2: string, f1: string, y: string, f2: string)
    requires Slid(e1, x, e2, f1, y, f2) && y != "" && f2 != "" && y[0] == f2[0]
    ensures Slid(e1, x, e2, f1 + [y[0]], y[1..] + [y[0]], f2[1..])
  {
    assert y == [y[0]] + y[1..] && f2 == [y[0]] + f2[1..];
    SlideRightText(f1, y[0], y[1..], f2[1..]);
  }

  lemma BestAlone(e1: string, x: string, e2: string, score: (string, string) -> int, f1: string, y: string, f2: string)
    requires Slid(e1, x, e2, f1, y, f2)
    ensures BestWithin(e1, x, e2, score, |f1|, |f1|, f1, y, f2)
  {
    hide Slid;
    forall g1, z, g2 | Slid(e1, x, e2, g1, z, g2) && |g1| == |f1| ensures g1 == f1 && z == y && g2 == f2 {
      SlidUnique(e1, x, e2, g1, z, g2, f1, y, f2);
    }
  }

  // The next place replaces the best so far if it scores at least as high.
  lemma BestOneMore(e1: string, x: string, e2: string, score: (string, string) -> int, lo: int,
                    f1: string, y: string, f2: string, b1: string, b: string, b2: string)
    requires Slid(e1, x, e2, f1, y, f2) && BestWithin(e1, x, e2, score, lo, |f1| - 1, b1, b, b2) && |b1| < |f1|
    ensures if Total(score, f1, y, f2) >= Total(score, b1, b, b2)
            then BestWithin(e1, x, e2, score, lo, |f1|, f1, y, f2)
            else BestWithin(e1, x, e2, score, lo, |f1|, b1, b, b2)
  {
    hide Slid, Total;
    BestAlone(e1, x, e2, score, f1, y, f2);
  }

  lemma BestOfAll(e1: string, x: string, e2: string, score: (string, string) -> int, lo: int,
                  f1: string, y: string, f2: string, b1: string, b: string, b2: string)
    requires Slid(e1, x, e2, f1, y, f2) && y != "" && (f2 == "" || y[0] != f2[0])
    requires BestWithin(e1, x, e2, score, lo, |f1|, b1, b, b2)
    ensures BestWithin(e1, x, e2, score, lo, |e1| + |e2|, b1, b, b2)
  {
    hide Slid, Total;
    forall g1, z, g2 | Slid(e1, x, e2, g1, z, g2) ensures |g1| <= |f1| {
      if |f1| < |g1| {
        SlidFurther(e1, x, e2, f1, y, f2, g1, z, g2);
      }
    }
  }

  function Kept(t: string): seq<Diff> {
    if t == "" then [] else [Diff(EQUAL, t)]
  }

  /** A slid edit with the equalities that are left of its neighbours. */
  lemma SlidSame(p: Diff, c: Diff, n: Diff, b1: string, b: string, b2: string)
    requires p.op == EQUAL && n.op == EQUAL && Slid(p.text, c.text, n.text, b1, b, b2)
    ensures Same([p, c, n], Kept(b1) + [c.(text := b)] + Kept(b2))
  {
    TextThree(p, c, n);
    var c' := c.(text := b);
    TextAppend(Kept(b1) + [c'], Kept(b2));
    TextAppend(Kept(b1), [c']);
    TextOne(c');
    KeptText(b1);
    KeptText(b2);
    assert p.text + "" == p.text && b1 + "" == b1;
  }

  lemma KeptText(t: string)
    ensures Text1(Kept(t)) == t && Text2(Kept(t)) == t
  {
    TextOne(Diff(EQUAL, t));
  }

  /** The list with the edit at prev + 1 where it scores best; an equality slid over is gone, and then
      the next edit has moved one place forward. */
  ghost predicate SlidTo(ds: seq<Diff>, prev: nat, score: (string, string) -> int, ds': seq<Diff>, next: nat)
    requires prev + 2 < |ds|
  {
    var p, c, n := ds[prev], ds[prev + 1], ds[prev + 2];
    if p.op == EQUAL && n.op == EQUAL then
      exists b1, b, b2 :: Aligned(p.text, c.text, n.text, score, b1, b, b2)
        && if b1 == p.text then ds' == ds && next == prev + 1
           else && ds' == Splice(ds, prev, prev + 3, Kept(b1) + [c.(text := b)] + Kept(b2))
                && next == (if b1 == "" || b2 == "" then prev else prev + 1)
    else ds' == ds && next == prev + 1
  }

  /** From prev on, one single edit after the other takes the place where it scores best. */
  ghost predicate AllAligned(ds: seq<Diff>, prev: nat, score: (string, string) -> int, out: seq<Diff>)
    decreases |ds| - prev
  {
    if prev + 2 >= |ds| then out == ds
    else exists ds', next ::
      SlidTo(ds, prev, score, ds', next) && |ds'| - next < |ds| - prev && AllAligned(ds', next, score, out)
  }

  /** diff_cleanupSemanticLossless, for any scoring of boundaries. */
  method CleanupSemanticLossless(d: DiffList, score: (string, string) -> int)
    modifies d
    ensures Same(d.items, old(d.items)) && (AllWedged(old(d.items)) ==> d.items == old(d.items))
    ensures AllAligned(old(d.items), 0, score, d.items)
  {
    hide SlidTo, Text1, Text2, AllWedged;
    ghost var D := d.items;
    var prev := 0;
    while prev + 2 < |d.items|
      invariant prev >= 0 && Same(d.items, D) && (AllWedged(D) ==> d.items == D)
      invariant forall out :: AllAligned(d.items, prev, score, out) ==> AllAligned(D, 0, score, out)
      decreases |d.items| - prev
    {
      ghost var ds, prev0 := d.items, prev;
      prev := SlideEdit(d, prev, score);
      forall out | AllAligned(d.items, prev, score, out) ensures AllAligned(ds, prev0, score, out) {
        assert SlidTo(ds, prev0, score, d.items, prev);
      }
    }
  }

  /** One single edit; the result is where the three cursors continue. */
  method SlideEdit(d: DiffList, prev: nat, score: (string, string) -> int) returns (next: nat)
    requires prev + 2 < |d.items|
    modifies d
    ensures Same(d.items, old(d.items)) && |d.items| - next < old(|d.items|) - prev
    ensures AllWedged(old(d.items)) ==> d.items == old(d.items)
    ensures SlidTo(old(d.items), prev, score, d.items, next)
  {
    hide Aligned, Wedged, Text1, Text2;
    var p, c, n := d.items[prev], d.items[prev + 1], d.items[prev + 2];
    next := prev + 1;
    if p.op == EQUAL && n.op == EQUAL {
      var b1, b, b2 := BestSlide(p.text, c.text, n.text, score);
      AlignedSlid(p.text, c.text, n.text, score, b1, b, b2);
      if p.text != b1 {
        SlidSame(p, c, n, b1, b, b2);
        SlidEnds(p.text, n.text, b1, b2);
        assert d.items[prev..prev + 3] == [p, c, n];
        SpliceSame(d.items, prev, prev + 3, Kept(b1) + [c.(text := b)] + Kept(b2));
        d.items := Splice(d.items, prev, prev + 3, Kept(b1) + [c.(text := b)] + Kept(b2));
        if b1 == "" || b2 == "" {
          // either the previous entry or the next one has been erased
          next := prev;
        }
      }
    }
  }

  /** The outer entries are never erased both, which would leave a dangling cursor. */
  lemma SlidEnds(e1: string, e2: string, b1: string, b2: string)
    requires b1 + b2 == e1 + e2 && e1 != b1
    ensures b1 != "" || b2 != ""
  {
    assert |b1 + b2| == |e1 + e2|;
  }

  lemma EqualParts(a: string, b: string, c: string, d: string)
    requires |a| == |c|
    ensures a + b == c + d <==> a == c && b == d
  {
    if a + b == c + d {
      assert (a + b)[..|a|] == a && (c + d)[..|a|] == c;
      assert (a + b)[|a|..] == b && (c + d)[|a|..] == d;
    }
  }

  /** How a list may differ from its source when overlaps are folded: text2 stays, text1 keeps its
      length, and text1 stays exactly if every overlap folded was one. */
  ghost predicate Folded(ds: seq<Diff>, src: seq<Diff>, exact: bool) {
    && Text2(ds) == Text2(src) && |Text1(ds)| == |Text1(src)|
    && (Text1(ds) == Text1(src) <==> exact)
  }

  lemma FoldedAppend(ds: seq<Diff>, src: seq<Diff>, exact: bool, ds': seq<Diff>, src': seq<Diff>, exact': bool)
    requires Folded(ds, src, exact) && Folded(ds', src', exact')
    ensures Folded(ds + ds', src + src', exact && exact')
  {
    TextAppend(ds, ds');
    TextAppend(src, src');
    EqualParts(Text1(ds), Text1(ds'), Text1(src), Text1(src'));
  }

  lemma FoldedRefl(ds: seq<Diff>)
    ensures Folded(ds, ds, true)
  {
  }

  function FoldedPair(del: string, ins: string, n: int): seq<Diff>
    requires 0 <= n <= |del| && n <= |ins|
  {
    if n == 0 then [Diff(DELETE, del), Diff(INSERT, ins)]
    else [Diff(DELETE, del[..|del| - n]), Diff(EQUAL, ins[..n]), Diff(INSERT, ins[n..])]
  }

  lemma FoldPair(del: string, ins: string, n: int)
    requires 0 <= n <= |del| && n <= |ins|
    ensures Folded(FoldedPair(del, ins, n), [Diff(DELETE, del), Diff(INSERT, ins)], Overlaps(del, ins, n))
  {
    TextTwo(Diff(DELETE, del), Diff(INSERT, ins));
    if n != 0 {
      var x, e, y := del[..|del| - n], ins[..n], ins[n..];
      assert del == x + Right(del, n) && ins == e + y;
      FoldedTexts(x, e, y);
      EqualParts(x, e, x, Right(del, n));
    }
  }

  lemma FoldedTexts(x: string, e: string, y: string)
    ensures Text1([Diff(DELETE, x), Diff(EQUAL, e), Diff(INSERT, y)]) == x + e
    ensures Text2([Diff(DELETE, x), Diff(EQUAL, e), Diff(INSERT, y)]) == e + y
  {
    TextThree(Diff(DELETE, x), Diff(EQUAL, e), Diff(INSERT, y));
    assert x + e + "" == x + e && "" + e + y == e + y;
  }

  /** The list is a with rest behind it, the source b with the same rest, and a is b folded. */
  ghost predicate FoldState(ds: seq<Diff>, src: seq<Diff>, a: seq<Diff>, b: seq<Diff>, rest: seq<Diff>, exact: bool) {
    ds == a + rest && src == b + rest && Folded(a, b, exact)
  }

  lemma FoldTwo(a: seq<Diff>, b: seq<Diff>, rest: seq<Diff>, exact: bool, n: int)
    requires |rest| >= 2 && rest[0].op == DELETE && rest[1].op == INSERT && Folded(a, b, exact)
    requires 0 <= n <= |rest[0].text| && n <= |rest[1].text|
    ensures var f := FoldedPair(rest[0].text, rest[1].text, n);
            && FoldState(Splice(a + rest, |a|, |a| + 2, f), b + rest, a + f, b + rest[..2], rest[2..],
                         exact && Overlaps(rest[0].text, rest[1].text, n))
            && (n == 0 ==> Splice(a + rest, |a|, |a| + 2, f) == a + rest)
  {
    var del, ins := rest[0].text, rest[1].text;
    var f := FoldedPair(del, ins, n);
    FoldPair(del, ins, n);
    assert rest[..2] == [Diff(DELETE, del), Diff(INSERT, ins)];
    FoldedAppend(a, b, exact, f, rest[..2], Overlaps(del, ins, n));
    TwoInMiddle(a, rest, f);
    TwoInMiddle(b, rest, rest[..2]);
  }

  lemma TwoInMiddle(a: seq<Diff>, rest: seq<Diff>, f: seq<Diff>)
    requires |rest| >= 2
    ensures Splice(a + rest, |a|, |a| + 2, f) == a + f + rest[2..]
    ensures a + rest == a + rest[..2] + rest[2..]
  {
    assert (a + rest)[..|a|] == a && (a + rest)[|a| + 2..] == rest[2..];
  }

  lemma FoldOne(a: seq<Diff>, b: seq<Diff>, rest: seq<Diff>, exact: bool)
    requires |rest| >= 1 && Folded(a, b, exact)
    ensures FoldState(a + rest, b + rest, a + rest[..1], b + rest[..1], rest[1..], exact)
  {
    FoldedRefl(rest[..1]);
    FoldedAppend(a, b, exact, rest[..1], rest[..1], true);
    assert rest == rest[..1] + rest[1..];
    assert a + rest == a + rest[..1] + rest[1..];
    assert b + rest == b + rest[..1] + rest[1..];
  }

  /** The pairs that are tested for overlaps are all such that the test does no harm. */
  predicate PairsHarmless(ds: seq<Diff>) {
    if |ds| < 2 then true
    else if ds[0].op == DELETE && ds[1].op == INSERT then
      SuffixTestHarmless(ds[0].text, ds[1].text) && PairsHarmless(ds[2..])
    else PairsHarmless(ds[1..])
  }

  ghost predicate Harmless(ds: seq<Diff>, fixed: bool) {
    fixed || PairsHarmless(ds)
  }

  lemma TailParts(d: Diff, ds: seq<Diff>, text1: string, text2: string)
    requires Part(Text1([d] + ds), text1) && Part(Text2([d] + ds), text2)
    ensures Part(Text1(ds), text1) && Part(Text2(ds), text2)
    ensures Part(Part1(d), text1) && Part(Part2(d), text2)
  {
    assert ([d] + ds)[1..] == ds;
    FrontAndBack(Part1(d), Text1(ds), text1);
    FrontAndBack(Part2(d), Text2(ds), text2);
  }

  lemma FirstTwo<T>(s: seq<T>)
    requires |s| >= 2
    ensures s == [s[0]] + s[1..] && s[1..] == [s[1]] + s[2..]
  {
  }

  lemma FrontAndBack(a: string, b: string, text: string)
    requires Part(a + b, text)
    ensures Part(a, text) && Part(b, text)
  {
    PartMiddle("", a, b);
    PartMiddle(a, b, "");
    assert "" + a + b == a + b && a + b + "" == a + b;
    PartTrans(a, a + b, text);
    PartTrans(b, a + b, text);
  }

  /** Where no parts of the two texts make the suffix comparison do harm, no list of diffs between them does. */
  lemma {:induction false} PartsHarmless(ds: seq<Diff>, text1: string, text2: string)
    requires NoHarm(text1, text2) && Part(Text1(ds), text1) && Part(Text2(ds), text2)
    ensures PairsHarmless(ds)
  {
    hide NoHarm, Part, SuffixTestHarmless, Text1, Text2;
    if |ds| >= 2 {
      FirstTwo(ds);
      TailParts(ds[0], ds[1..], text1, text2);
      if ds[0].op == DELETE && ds[1].op == INSERT {
        TailParts(ds[1], ds[2..], text1, text2);
        HarmlessParts(ds[0].text, ds[1].text, text1, text2);
        PartsHarmless(ds[2..], text1, text2);
      } else {
        PartsHarmless(ds[1..], text1, text2);
      }
    }
  }

  /** No deletion has an overlap with an insertion behind it. */
  predicate Unoverlapped(ds: seq<Diff>) {
    forall i :: 0 <= i < |ds| - 1 && ds[i].op == DELETE && ds[i + 1].op == INSERT ==> LongestOverlap(ds[i].text, ds[i + 1].text) == 0
  }

  // Neither within a nor between it and the rest.
  predicate UnoverlappedTo(a: seq<Diff>, rest: seq<Diff>) {
    Unoverlapped(a) && (a != [] && rest != [] && a[|a| - 1].op == DELETE ==> rest[0].op != INSERT)
  }

  lemma PairUnoverlapped(a: seq<Diff>, rest: seq<Diff>, n: int)
    requires UnoverlappedTo(a, rest) && |rest| >= 2 && rest[0].op == DELETE && rest[1].op == INSERT
    requires 0 <= n <= |rest[0].text| && n <= |rest[1].text| && n == LongestOverlap(rest[0].text, rest[1].text)
    ensures UnoverlappedTo(a + FoldedPair(rest[0].text, rest[1].text, n), rest[2..])
  {
    hide Unoverlapped, LongestOverlap;
    var f := FoldedPair(rest[0].text, rest[1].text, n);
    FoldedUnoverlapped(rest[0].text, rest[1].text, n);
    UnoverlappedJoin(a, f);
  }

  lemma FoldedUnoverlapped(del: string, ins: string, n: int)
    requires 0 <= n <= |del| && n <= |ins| && n == LongestOverlap(del, ins)
    ensures Unoverlapped(FoldedPair(del, ins, n))
  {
    hide LongestOverlap;
  }

  lemma UnoverlappedJoin(a: seq<Diff>, b: seq<Diff>)
    requires Unoverlapped(a) && Unoverlapped(b) && (a != [] && b != [] && a[|a| - 1].op == DELETE ==> b[0].op != INSERT)
    ensures Unoverlapped(a + b)
  {
    hide LongestOverlap;
  }

  lemma OneUnoverlapped(a: seq<Diff>, rest: seq<Diff>)
    requires UnoverlappedTo(a, rest) && |rest| >= 1 && (|rest| >= 2 && rest[0].op == DELETE ==> rest[1].op != INSERT)
    ensures UnoverlappedTo(a + rest[..1], rest[1..])
  {
  }

  lemma RestUnoverlapped(a: seq<Diff>, rest: seq<Diff>)
    requires UnoverlappedTo(a, rest) && |rest| <= 1
    ensures Unoverlapped(a + rest)
  {
  }

  /** The pass of diff_cleanupSemantic that folds a deletion and an insertion that overlap. */
  method FoldOverlaps(d: DiffList, fixed: bool) returns (ghost exact: bool)
    modifies d
    ensures Folded(d.items, old(d.items), exact) && exact == Harmless(old(d.items), fixed)
    ensures exact ==> Unoverlapped(d.items)
  {
    hide Unoverlapped;
    NoneOverlapped(d.items);
    ghost var src := d.items;
    ghost var a: seq<Diff>, b: seq<Diff>, rest := [], [], d.items;
    exact := true;
    var prev := 0;
    while prev + 1 < |d.items|
      invariant prev == |a| && FoldState(d.items, src, a, b, rest, exact)
      invariant (exact && Harmless(rest, fixed)) == Harmless(src, fixed)
      invariant exact ==> UnoverlappedTo(a, rest)
      decreases |rest|
    {
      prev, a, b, rest, exact := FoldNext(d, fixed, src, a, b, rest, exact, prev);
    }
    FoldedRefl(rest);
    FoldedAppend(a, b, exact, rest, rest, true);
    if exact {
      RestUnoverlapped(a, rest);
    }
  }

  lemma NoneOverlapped(ds: seq<Diff>)
    ensures UnoverlappedTo([], ds)
  {
  }

  method FoldNext(d: DiffList, fixed: bool, ghost src: seq<Diff>, ghost a0: seq<Diff>, ghost b0: seq<Diff>,
                  ghost rest0: seq<Diff>, ghost exact0: bool, prev0: nat)
    returns (prev: nat, ghost a: seq<Diff>, ghost b: seq<Diff>, ghost rest: seq<Diff>, ghost exact: bool)
    requires prev0 + 1 < |d.items| && prev0 == |a0|
    requires FoldState(d.items, src, a0, b0, rest0, exact0) && (exact0 ==> UnoverlappedTo(a0, rest0))
    modifies d
    ensures prev == |a| && FoldState(d.items, src, a, b, rest, exact) && |rest| < |rest0|
    ensures (exact && Harmless(rest, fixed)) == (exact0 && Harmless(rest0, fixed))
    ensures exact ==> UnoverlappedTo(a, rest)
  {
    hide UnoverlappedTo;
    var p, c := d.items[prev0], d.items[prev0 + 1];
    assert p == rest0[0] && c == rest0[1];
    if p.op == DELETE && c.op == INSERT {
      var n := CommonOverlap(p.text, c.text, fixed);
      var f := FoldedPair(p.text, c.text, n);
      FoldTwo(a0, b0, rest0, exact0, n);
      a, b, rest, exact := a0 + f, b0 + rest0[..2], rest0[2..], exact0 && Overlaps(p.text, c.text, n);
      if exact {
        PairUnoverlapped(a0, rest0, n);
      }
      if n != 0 {
        d.items := Splice(d.items, prev0, prev0 + 2, f);
      }
      prev := prev0 + |f|;
    } else {
      FoldOne(a0, b0, rest0, exact0);
      if exact0 {
        OneUnoverlapped(a0, rest0);
      }
      a, b, rest, exact := a0 + rest0[..1], b0 + rest0[..1], rest0[1..], exact0;
      prev := prev0 + 1;
    }
  }

  /** No equality is swallowed and no edit can be slid. */
  ghost predicate Settled(ds: seq<Diff>) {
    (forall e, c :: !Swallowed(ds, e, c)) && AllWedged(ds)
  }

  /** The lists diff_cleanupSemantic goes through: with the swallowed equalities given up, merged again, and
      with the single edits where they score best. */
  datatype Stages = Stages(split: seq<Diff>, merged: seq<Diff>, mid: seq<Diff>)

  ghost predicate Staged(ds: seq<Diff>, g: Stages, score: (string, string) -> int) {
    && Same(g.split, ds) && GivenUp(g.split, ds, exists e, c :: Swallowed(ds, e, c))
    && (if exists e, c :: Swallowed(ds, e, c) then
          Same(g.merged, ds) && Tidy(g.merged) && Unshiftable(g.merged) && NotMore(g.merged, g.split)
        else g.merged == ds)
    && Same(g.mid, ds) && AllAligned(g.merged, 0, score, g.mid)
  }

  lemma StagedSame(ds: seq<Diff>, g: Stages, score: (string, string) -> int)
    requires Staged(ds, g, score)
    ensures Same(g.mid, ds)
  {
    hide AllAligned, Tidy, Unshiftable, NotMore, GivenUp, Swallowed;
  }

  /** diff_cleanupSemantic: text2 always stays. The list mid that is searched for overlaps has both
      texts, and is the given one if that is settled; after that, text1 stays exactly if the suffix test
      does no harm in mid. It stays for every list where the test does no harm on any parts of the two
      texts, and always with the comparison in diff_commonOverlap corrected. */
  method CleanupSemantic(d: DiffList, score: (string, string) -> int, fixed: bool)
    returns (ghost g: Stages)
    modifies d
    ensures Staged(old(d.items), g, score) && (Settled(old(d.items)) ==> g.mid == old(d.items))
    ensures Folded(d.items, old(d.items), Harmless(g.mid, fixed)) && (Harmless(g.mid, fixed) ==> Unoverlapped(d.items))
    ensures fixed || NoHarm(Text1(old(d.items)), Text2(old(d.items))) ==> Same(d.items, old(d.items))
  {
    hide NoHarm, Swallowed, GivenUp, Tidy, Unshiftable, NotMore, AllAligned, AllWedged, Settled, Text1, Text2, Part, Unoverlapped;
    ghost var D := d.items;
    g := Stages(D, D, D);
    if |d.items| == 0 {
      NothingStaged(D, score, fixed);
      return;
    }
    ghost var text1, text2 := Text1(d.items), Text2(d.items);
    var changes := SplitSemantic(d);
    ghost var split := d.items;
    if changes {
      CleanupMerge(d);
    } else {
      NoneGivenUp(split, D);
    }
    ghost var merged := d.items;
    CleanupSemanticLossless(d, score);
    ghost var mid := d.items;
    g := Stages(split, merged, mid);
    if Settled(D) {
      SettledStays(D);
    }
    if NoHarm(text1, text2) {
      PartWhole(text1);
      PartWhole(text2);
      PartsHarmless(mid, text1, text2);
    }
    ghost var exact := FoldOverlaps(d, fixed);
  }

  lemma SettledStays(ds: seq<Diff>)
    requires Settled(ds)
    ensures AllWedged(ds) && forall e, c :: !Swallowed(ds, e, c)
  {
  }

  lemma NothingStaged(ds: seq<Diff>, score: (string, string) -> int, fixed: bool)
    requires ds == []
    ensures Staged(ds, Stages(ds, ds, ds), score) && Folded(ds, ds, Harmless(ds, fixed)) && Unoverlapped(ds)
  {
    assert forall e, c :: !Swallowed(ds, e, c);
  }

  /** A deletion and an insertion alone are settled. */
  lemma PairSettled(a: string, b: string)
    ensures var ds := [Diff(DELETE, a), Diff(INSERT, b)];
            Settled(ds) && PairsHarmless(ds) == SuffixTestHarmless(a, b)
  {
    var ds := [Diff(DELETE, a), Diff(INSERT, b)];
    assert ds[2..] == [];
    assert forall e, c :: !Swallowed(ds, e, c);
  }

  /** Where text1 gets lost: what comes back for "wbb" and "abbX" does not have "wbb" any more. */
  method OverlapLosesText(score: (string, string) -> int) returns (ds: seq<Diff>)
    ensures Text2(ds) == "abbX" && |Text1(ds)| == 3 && Text1(ds) != "wbb"
  {
    var d := new DiffList([Diff(DELETE, "wbb"), Diff(INSERT, "abbX")]);
    TextTwo(Diff(DELETE, "wbb"), Diff(INSERT, "abbX"));
    PairSettled("wbb", "abbX");
    OverlapMisreported();
    ghost var g := CleanupSemantic(d, score, false);
    ds := d.items;
  }
}
