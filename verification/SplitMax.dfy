/** patch_splitMax: patches longer than the match algorithm can handle are broken into pieces that, in
    order, do the same. */
module Splitting {
  import opened Strings
  import opened Diffs
  import opened Patches

  /** What is left to be taken: the entries and their characters. */
  function Weight(ds: seq<Diff>): nat {
    if |ds| == 0 then 0 else 1 + |ds[0].text| + Weight(ds[1..])
  }

  /** a is taken off the front of ds, b is left. */
  ghost predicate Taken(ds: seq<Diff>, a: seq<Diff>, b: seq<Diff>) {
    && Text1(ds) == Text1(a) + Text1(b) && Text2(ds) == Text2(a) + Text2(b)
    && Weight(b) <= Weight(ds) && (a != [] ==> Weight(b) < Weight(ds))
  }

  lemma TakenNothing(ds: seq<Diff>)
    ensures Taken(ds, [], ds)
  {
    assert "" + Text1(ds) == Text1(ds) && "" + Text2(ds) == Text2(ds);
  }

  lemma TakenMore(ds: seq<Diff>, a: seq<Diff>, b: seq<Diff>, x: Diff, c: seq<Diff>)
    requires Taken(ds, a, b) && Taken(b, [x], c)
    ensures Taken(ds, a + [x], c)
  {
    TextAppend(a, [x]);
    TakenTexts(Text1(ds), Text1(a), Text1(b), Text1([x]), Text1(c));
    TakenTexts(Text2(ds), Text2(a), Text2(b), Text2([x]), Text2(c));
  }

  lemma TakenTexts(t: string, a: string, b: string, x: string, c: string)
    requires t == a + b && b == x + c
    ensures t == a + x + c
  {
  }

  lemma TakenFirst(ds: seq<Diff>)
    requires |ds| > 0
    ensures Taken(ds, [ds[0]], ds[1..])
  {
    TextOne(ds[0]);
  }

  /** Only the first n characters of the first entry. */
  lemma TakenPart(ds: seq<Diff>, n: nat)
    requires |ds| > 0 && ds[0].op != INSERT && 0 < n <= |ds[0].text|
    ensures Taken(ds, [Diff(ds[0].op, ds[0].text[..n])], [Diff(ds[0].op, ds[0].text[n..])] + ds[1..])
  {
    var a, b := Diff(ds[0].op, ds[0].text[..n]), Diff(ds[0].op, ds[0].text[n..]);
    TextOne(a);
    assert ([b] + ds[1..])[1..] == ds[1..];
    assert ds[0].text == a.text + b.text;
    assert a.text + b.text + Text1(ds[1..]) == a.text + (b.text + Text1(ds[1..]));
    assert a.text + b.text + Text2(ds[1..]) == a.text + (b.text + Text2(ds[1..]));
  }

  /** A piece is small enough to be matched, or has an oversized deletion. */
  predicate Matchable(p: Patch, c: Settings) {
    p.length1 <= c.maxBits || exists i :: 0 <= i < |p.diffs| && Oversized(p.diffs[i], c)
  }

  predicate Oversized(d: Diff, c: Settings) {
    d.op == DELETE && |d.text| > 2 * c.maxBits
  }

  predicate NoEdits(ds: seq<Diff>) {
    forall i :: 0 <= i < |ds| ==> ds[i].op == EQUAL
  }

  lemma {:induction false} NoEditsText(ds: seq<Diff>)
    requires NoEdits(ds)
    ensures Text1(ds) == Text2(ds)
  {
    if |ds| > 0 {
      NoEditsText(ds[1..]);
    }
  }

  // The piece under construction, with what has been taken for it.
  datatype Piece = Piece(patch: Patch, rest: seq<Diff>, start1: int, start2: int, empty: bool)

  /** The piece holds the context pre and then the diffs taken. */
  ghost predicate Holds(p: Piece, p0: Piece, pre: string, taken: seq<Diff>, c: Settings) {
    && p.patch.diffs == Context(pre) + taken && Taken(p0.rest, taken, p.rest)
    && p.patch.start1 == p0.patch.start1 && p.patch.start2 == p0.patch.start2
    && p.patch.length1 == |pre| + |Text1(taken)| && p.patch.length2 == |pre| + |Text2(taken)|
    && p.start1 == p0.start1 + |Text1(taken)| && p.start2 == p0.start2 + |Text2(taken)|
    && (p.empty <==> NoEdits(taken))
    && Bounded(p.patch, |pre|, c)
  }

  ghost predicate Bounded(p: Patch, n: nat, c: Settings) {
    p.length1 <= Max(n, c.maxBits - c.margin) || exists i :: 0 <= i < |p.diffs| && Oversized(p.diffs[i], c)
  }

  lemma GrowBounded(p: Piece, n: nat, c: Settings, d: Diff, rest: seq<Diff>)
    requires Bounded(p.patch, n, c)
    requires Oversized(d, c) || p.patch.length1 + |Part1(d)| <= c.maxBits - c.margin
    ensures Bounded(Grow(p, d, rest).patch, n, c)
  {
    var q := Grow(p, d, rest);
    assert q.patch.diffs[|q.patch.diffs| - 1] == d;
  }

  // One more diff for the piece.
  function Grow(p: Piece, d: Diff, rest: seq<Diff>): Piece {
    var n1, n2 := |Part1(d)|, |Part2(d)|;
    Piece(Patch(p.patch.diffs + [d], p.patch.start1, p.patch.start2, p.patch.length1 + n1, p.patch.length2 + n2),
          rest, p.start1 + n1, p.start2 + n2, p.empty && d.op == EQUAL)
  }

  lemma NoEditsMore(ds: seq<Diff>, d: Diff)
    ensures NoEdits(ds + [d]) <==> NoEdits(ds) && d.op == EQUAL
  {
    assert (ds + [d])[|ds|] == d;
    if NoEdits(ds + [d]) {
      assert forall i :: 0 <= i < |ds| ==> ds[i] == (ds + [d])[i];
    }
  }

  lemma GrowHolds(p: Piece, p0: Piece, pre: string, taken: seq<Diff>, c: Settings, d: Diff, rest: seq<Diff>)
    requires Holds(p, p0, pre, taken, c) && Taken(p.rest, [d], rest)
    requires Oversized(d, c) || p.patch.length1 + |Part1(d)| <= c.maxBits - c.margin
    ensures Holds(Grow(p, d, rest), p0, pre, taken + [d], c)
  {
    hide Taken, NoEdits, Text1, Text2, Bounded;
    TakenMore(p0.rest, taken, p.rest, d, rest);
    NoEditsMore(taken, d);
    TextAppend(taken, [d]);
    TextOne(d);
    assert Context(pre) + taken + [d] == Context(pre) + (taken + [d]);
    GrowBounded(p, |pre|, c, d, rest);
  }

  // patch_splitMax's choice of how much to take from the first diff.
  function Portion(p: Piece, c: Settings): (n: nat)
    requires p.rest != [] && p.patch.length1 < c.maxBits - c.margin
    ensures n <= |p.rest[0].text|
  {
    Min(|p.rest[0].text|, c.maxBits - p.patch.length1 - c.margin)
  }

  // A large deletion passes in one chunk.
  predicate LargeDeletion(p: Piece, c: Settings)
    requires p.rest != []
  {
    && p.rest[0].op == DELETE && |p.patch.diffs| == 1 && p.patch.diffs[0].op == EQUAL
    && |p.rest[0].text| > 2 * c.maxBits
  }

  /** One turn of the inner loop. */
  method TakeDiff(p: Piece, c: Settings, ghost p0: Piece, ghost pre: string, ghost taken: seq<Diff>)
    returns (q: Piece, ghost more: seq<Diff>)
    requires Usable(c) && p.rest != [] && p.patch.length1 < c.maxBits - c.margin
    requires Holds(p, p0, pre, taken, c)
    ensures Holds(q, p0, pre, more, c) && more != [] && Weight(q.rest) < Weight(p.rest)
  {
    var d := p.rest[0];
    if d.op == INSERT || LargeDeletion(p, c) {
      TakenFirst(p.rest);
      GrowHolds(p, p0, pre, taken, c, d, p.rest[1..]);
      q := Grow(p, d, p.rest[1..]);
      more := taken + [d];
    } else {
      var n := Portion(p, c);
      var part := Diff(d.op, d.text[..n]);
      var rest;
      if n == |d.text| {
        rest := p.rest[1..];
        TakenFirst(p.rest);
        assert part == d;
      } else {
        rest := [Diff(d.op, d.text[n..])] + p.rest[1..];
        TakenPart(p.rest, n);
      }
      GrowHolds(p, p0, pre, taken, c, part, rest);
      q := Grow(p, part, rest);
      more := taken + [part];
    }
  }

  /** The inner loop: take diffs until the piece is full up to a margin. */
  method FillPiece(p0: Piece, c: Settings, ghost pre: string) returns (p: Piece, ghost taken: seq<Diff>)
    requires Usable(c) && Holds(p0, p0, pre, [], c) && p0.rest != []
    ensures Holds(p, p0, pre, taken, c)
    ensures if |pre| < c.maxBits - c.margin then Weight(p.rest) < Weight(p0.rest) else p == p0 && taken == []
    ensures p.rest == [] || p.patch.length1 >= c.maxBits - c.margin
  {
    p, taken := p0, [];
    while p.rest != [] && p.patch.length1 < c.maxBits - c.margin
      invariant Holds(p, p0, pre, taken, c)
      invariant if taken == [] then p == p0 else |pre| < c.maxBits - c.margin && Weight(p.rest) < Weight(p0.rest)
      decreases Weight(p.rest)
    {
      p, taken := TakeDiff(p, c, p0, pre, taken);
    }
  }

  /** What the next piece begins with. The length that is cut down to a margin is that of the
      context of this piece, not of the text it is taken from. */
  function NextContext(p: Patch, pre: string, c: Settings): string
    requires |pre| <= |Text2(p.diffs)|
  {
    Text2(p.diffs)[Max(0, |pre| - c.margin)..]
  }

  // What this piece ends with.
  function EndContext(rest: seq<Diff>, c: Settings): (r: string)
    ensures r <= Text1(rest) && |r| <= c.margin
  {
    var t := Text1(rest);
    if |t| > c.margin then t[..c.margin] else t
  }

  // The end context joins the last diff if that is an equality.
  function WithEnd(p: Patch, post: string): Patch {
    var n := |p.diffs|;
    if post == "" then p
    else
      Patch(if n > 0 && p.diffs[n - 1].op == EQUAL then p.diffs[..n - 1] + [Diff(EQUAL, p.diffs[n - 1].text + post)]
            else p.diffs + [Diff(EQUAL, post)],
            p.start1, p.start2, p.length1 + |post|, p.length2 + |post|)
  }

  lemma WithEndText(p: Patch, post: string)
    ensures Text1(WithEnd(p, post).diffs) == Text1(p.diffs) + post
    ensures Text2(WithEnd(p, post).diffs) == Text2(p.diffs) + post
  {
    hide Text1, Text2;
    var n := |p.diffs|;
    if post == "" {
    } else if n > 0 && p.diffs[n - 1].op == EQUAL {
      var a, e := p.diffs[..n - 1], p.diffs[n - 1].text;
      assert p.diffs == a + [Diff(EQUAL, e)];
      TextAppend(a, [Diff(EQUAL, e)]);
      TextAppend(a, [Diff(EQUAL, e + post)]);
      TextOne(Diff(EQUAL, e));
      TextOne(Diff(EQUAL, e + post));
    } else {
      TextAppend(p.diffs, [Diff(EQUAL, post)]);
      TextOne(Diff(EQUAL, post));
    }
  }

  lemma WithEndMatchable(p: Patch, n: nat, post: string, c: Settings)
    requires Bounded(p, n, c) && n <= c.maxBits - c.margin && |post| <= c.margin && c.maxBits >= c.margin
    ensures Matchable(WithEnd(p, post), c)
  {
    if i :| 0 <= i < |p.diffs| && Oversized(p.diffs[i], c) {
      assert WithEnd(p, post).diffs[i] == p.diffs[i];
    }
  }

  lemma PieceStrings(g: string, pre: string, x: string, post: string, r: string, tail: string)
    ensures (g + pre) + (x + (post + r)) + tail == g + (pre + x + post) + (r + tail)
    ensures ((g + pre) + x) + (post + r) + tail == g + (pre + x + post) + (r + tail)
  {
  }

  lemma FitsBetween(q: Patch, g: string, x: string, y: string, r: string)
    requires Text1(q.diffs) == x && Text2(q.diffs) == y && q.start2 == |g|
    requires q.length1 == |x| && q.length2 == |y|
    ensures Fits(q, g + x + r) && Applied(q, g + x + r) == g + y + r
  {
    var t := g + x + r;
    assert t[..|g|] == g && t[|g|..|g| + |x|] == x && t[|g| + |x|..] == r;
    FitsAt(q, t, |g|, |g| + |x|, x, y, g + y + r);
  }

  /** The piece q, with context pre and post around x1 and x2, in the text h + x1 + r + tail. */
  lemma PieceFits(q: Patch, h: string, pre: string, x1: string, x2: string, post: string, r: string, tail: string)
    requires |pre| <= |h| && Right(h, |pre|) == pre && post <= r
    requires Text1(q.diffs) == pre + x1 + post && Text2(q.diffs) == pre + x2 + post
    requires q.start2 == |h| - |pre| && q.length1 == |pre + x1 + post| && q.length2 == |pre + x2 + post|
    ensures Fits(q, h + (x1 + r) + tail) && Applied(q, h + (x1 + r) + tail) == (h + x2) + r + tail
  {
    var g, r' := h[..|h| - |pre|], r[|post|..];
    assert h == g + pre && r == post + r';
    PieceStrings(g, pre, x1, post, r', tail);
    PieceStrings(g, pre, x2, post, r', tail);
    FitsBetween(q, g, pre + x1 + post, pre + x2 + post, r' + tail);
  }

  /** The outer loop: h has been dealt with, rest is left, and the pieces turn t into h with the
      source text of the rest behind it. */
  ghost predicate SplitSoFar(pieces: seq<Patch>, rest: seq<Diff>, start2: int, pre: string, h: string, tail: string,
                             t: string, u: string) {
    && Chain(pieces, t, h + Text1(rest) + tail) && u == h + Text2(rest) + tail
    && start2 == |h| && |pre| <= |h| && Right(h, |pre|) == pre
  }

  predicate AllMatchable(ps: seq<Patch>, c: Settings) {
    forall i :: 0 <= i < |ps| ==> Matchable(ps[i], c)
  }

  /** The context for the next piece stands at the end of what has been dealt with. */
  lemma NextContextEnds(p: Patch, h: string, pre: string, x2: string, c: Settings)
    requires |pre| <= |h| && Right(h, |pre|) == pre && Text2(p.diffs) == pre + x2
    ensures |NextContext(p, pre, c)| <= |h + x2| && Right(h + x2, |NextContext(p, pre, c)|) == NextContext(p, pre, c)
  {
    var n := NextContext(p, pre, c);
    var g := h[..|h| - |pre|];
    assert h + x2 == g + (pre + x2);
    assert n == Right(pre + x2, |n|);
    assert Right(g + (pre + x2), |n|) == Right(pre + x2, |n|);
  }

  // The context pre and the entries taken, at start1 and start2.
  function Filled(pre: string, taken: seq<Diff>, start1: int, start2: int): Patch {
    Patch(Context(pre) + taken, start1 - |pre|, start2 - |pre|, |pre| + |Text1(taken)|, |pre| + |Text2(taken)|)
  }

  /** taken is what the next piece takes off the front of rest: as much as a piece holds besides its contexts. */
  ghost predicate Cut(rest: seq<Diff>, pre: string, taken: seq<Diff>, left: seq<Diff>, c: Settings) {
    && Taken(rest, taken, left) && Bounded(Filled(pre, taken, 0, 0), |pre|, c)
    && (left == [] || |pre| + |Text1(taken)| >= c.maxBits - c.margin)
  }

  function Following(pre: string, taken: seq<Diff>, c: Settings): string {
    (pre + Text2(taken))[Max(0, |pre| - c.margin)..]
  }

  /** How a patch is cut up: pieces deal with the entries in rest, which start at start1 and start2. Each
      begins with the context pre and ends with the margin that follows it; a stretch without edits makes none. */
  ghost predicate Carved(rest: seq<Diff>, start1: int, start2: int, pre: string, pieces: seq<Patch>, c: Settings)
    decreases Weight(rest), if |pre| < c.maxBits - c.margin then 0 else 1
  {
    if rest == [] then pieces == []
    else
      exists taken, left :: (
        && Cut(rest, pre, taken, left, c) && Goes(rest, pre, taken, left, c)
        && (NoEdits(taken) || (pieces != [] && pieces[0] == WithEnd(Filled(pre, taken, start1, start2), EndContext(left, c))))
        && Carved(left, start1 + |Text1(taken)|, start2 + |Text2(taken)|, Following(pre, taken, c),
                  if NoEdits(taken) then pieces else pieces[1..], c))
  }

  // Something is taken, or there was no room for it and is now.
  ghost predicate Goes(rest: seq<Diff>, pre: string, taken: seq<Diff>, left: seq<Diff>, c: Settings) {
    || Weight(left) < Weight(rest)
    || (Weight(left) == Weight(rest) && |pre| >= c.maxBits - c.margin > |Following(pre, taken, c)|)
  }

  lemma CarvedStep(rest: seq<Diff>, start1: int, start2: int, pre: string, taken: seq<Diff>, left: seq<Diff>,
                   q: Patch, tail: seq<Patch>, c: Settings)
    requires rest != [] && Cut(rest, pre, taken, left, c) && Goes(rest, pre, taken, left, c)
    requires q == WithEnd(Filled(pre, taken, start1, start2), EndContext(left, c))
    requires Carved(left, start1 + |Text1(taken)|, start2 + |Text2(taken)|, Following(pre, taken, c), tail, c)
    ensures Carved(rest, start1, start2, pre, (if NoEdits(taken) then [] else [q]) + tail, c)
  {
    hide Cut, Goes, Filled, Following, WithEnd, EndContext, NoEdits, Text1, Text2;
    var pieces := (if NoEdits(taken) then [] else [q]) + tail;
    if NoEdits(taken) {
      assert pieces == tail;
    } else {
      assert pieces[1..] == tail;
    }
  }

  /** What is carved from a later state, behind what has been carved before it. */
  lemma CarvedThrough(rest0: seq<Diff>, a1: int, a2: int, pre0: string, pieces: seq<Patch>,
                      rest: seq<Diff>, b1: int, b2: int, pre: string, more: seq<Patch>,
                      left: seq<Diff>, c1: int, c2: int, next: string, c: Settings)
    requires forall tail :: Carved(rest, b1, b2, pre, tail, c) ==> Carved(rest0, a1, a2, pre0, pieces + tail, c)
    requires pieces <= more
    requires forall tail :: Carved(left, c1, c2, next, tail, c) ==> Carved(rest, b1, b2, pre, more[|pieces|..] + tail, c)
    ensures forall tail :: Carved(left, c1, c2, next, tail, c) ==> Carved(rest0, a1, a2, pre0, more + tail, c)
  {
    hide Carved;
    forall tail | Carved(left, c1, c2, next, tail, c) ensures Carved(rest0, a1, a2, pre0, more + tail, c) {
      assert pieces + (more[|pieces|..] + tail) == more + tail;
    }
  }

  /** One turn of the outer loop; fits says that the patch being split fits its text. */
  method SplitRound(pieces: seq<Patch>, rest0: seq<Diff>, start1: int, start2: int, pre: string, c: Settings,
                    ghost fits: bool, ghost h0: string, ghost tail: string, ghost t: string, ghost u: string)
    returns (more: seq<Patch>, rest: seq<Diff>, next1: int, next2: int, next: string, ghost h: string)
    requires Usable(c) && rest0 != [] && AllMatchable(pieces, c)
    requires fits ==> SplitSoFar(pieces, rest0, start2, pre, h0, tail, t, u)
    ensures AllMatchable(more, c)
    ensures fits ==> SplitSoFar(more, rest, next2, next, h, tail, t, u)
    ensures if |pre| < c.maxBits - c.margin then Weight(rest) < Weight(rest0)
            else Weight(rest) == Weight(rest0) && |next| < c.maxBits - c.margin
    ensures pieces <= more
    ensures forall tail :: Carved(rest, next1, next2, next, tail, c) ==>
                           Carved(rest0, start1, start2, pre, more[|pieces|..] + tail, c)
  {
    hide Carved, Cut, Goes, Holds, Text1, Text2, Weight, Matchable, NoEdits, Filled, Following, WithEnd, SplitSoFar;
    var p0 := Piece(Patch(Context(pre), start1 - |pre|, start2 - |pre|, |pre|, |pre|), rest0, start1, start2, true);
    StartHolds(p0, pre, c);
    var p;
    ghost var taken;
    p, taken := FillPiece(p0, c, pre);
    PieceTexts(p.patch, pre, taken);
    next := NextContext(p.patch, pre, c);
    rest, next1, next2 := p.rest, p.start1, p.start2;
    h := h0 + Text2(taken);
    var post := EndContext(rest, c);
    var q := WithEnd(p.patch, post);
    if fits {
      RoundKeeps(p, p0, q, post, pre, taken, c, pieces, h0, tail, t, u);
    }
    more := pieces;
    if !p.empty {
      WithEndMatchable(p.patch, |pre|, post, c);
      more := more + [q];
    }
    RoundCarves(p, p0, pre, taken, q, next, c);
    RoundTails(rest0, start1, start2, pre, taken, rest, q, pieces, more, c);
  }

  lemma RoundTails(rest0: seq<Diff>, start1: int, start2: int, pre: string, taken: seq<Diff>, rest: seq<Diff>, q: Patch,
                   pieces: seq<Patch>, more: seq<Patch>, c: Settings)
    requires rest0 != [] && Cut(rest0, pre, taken, rest, c) && Goes(rest0, pre, taken, rest, c)
    requires q == WithEnd(Filled(pre, taken, start1, start2), EndContext(rest, c))
    requires more == if NoEdits(taken) then pieces else pieces + [q]
    ensures pieces <= more
    ensures forall tail :: Carved(rest, start1 + |Text1(taken)|, start2 + |Text2(taken)|, Following(pre, taken, c), tail, c) ==>
                           Carved(rest0, start1, start2, pre, more[|pieces|..] + tail, c)
  {
    hide Cut, Goes, Carved, Text1, Text2, Following, NoEdits, Filled, WithEnd, EndContext;
    assert more[|pieces|..] == if NoEdits(taken) then [] else [q];
    forall tail | Carved(rest, start1 + |Text1(taken)|, start2 + |Text2(taken)|, Following(pre, taken, c), tail, c)
      ensures Carved(rest0, start1, start2, pre, more[|pieces|..] + tail, c)
    {
      CarvedStep(rest0, start1, start2, pre, taken, rest, q, tail, c);
    }
  }

  lemma RoundCarves(p: Piece, p0: Piece, pre: string, taken: seq<Diff>, q: Patch, next: string, c: Settings)
    requires Holds(p, p0, pre, taken, c) && |pre| <= |Text2(p.patch.diffs)| && next == NextContext(p.patch, pre, c)
    requires p0.patch.start1 == p0.start1 - |pre| && p0.patch.start2 == p0.start2 - |pre|
    requires q == WithEnd(p.patch, EndContext(p.rest, c)) && Usable(c)
    requires if |pre| < c.maxBits - c.margin then Weight(p.rest) < Weight(p0.rest)
             else Weight(p.rest) == Weight(p0.rest) && |next| < c.maxBits - c.margin
    requires p.rest == [] || p.patch.length1 >= c.maxBits - c.margin
    ensures Cut(p0.rest, pre, taken, p.rest, c) && Goes(p0.rest, pre, taken, p.rest, c)
    ensures next == Following(pre, taken, c)
    ensures q == WithEnd(Filled(pre, taken, p0.start1, p0.start2), EndContext(p.rest, c))
    ensures p.start1 == p0.start1 + |Text1(taken)| && p.start2 == p0.start2 + |Text2(taken)|
    ensures p.empty == NoEdits(taken)
  {
    hide Text1, Text2, Weight, Oversized, NoEdits, EndContext, Taken, WithEnd;
    PieceTexts(p.patch, pre, taken);
    assert p.patch == Filled(pre, taken, p0.start1, p0.start2);
    FilledBounded(p.patch, pre, taken, c);
  }

  lemma FilledBounded(p: Patch, pre: string, taken: seq<Diff>, c: Settings)
    requires Bounded(p, |pre|, c) && p.diffs == Context(pre) + taken && p.length1 == |pre| + |Text1(taken)|
    ensures Bounded(Filled(pre, taken, 0, 0), |pre|, c)
  {
    if i :| 0 <= i < |p.diffs| && Oversized(p.diffs[i], c) {
      assert Filled(pre, taken, 0, 0).diffs[i] == p.diffs[i];
    }
  }

  lemma RoundKeeps(p: Piece, p0: Piece, q: Patch, post: string, pre: string, taken: seq<Diff>, c: Settings,
                   pieces: seq<Patch>, h0: string, tail: string, t: string, u: string)
    requires Holds(p, p0, pre, taken, c) && post == EndContext(p.rest, c) && q == WithEnd(p.patch, post)
    requires p0.patch.start2 == p0.start2 - |pre| && |pre| <= |Text2(p.patch.diffs)|
    requires SplitSoFar(pieces, p0.rest, p0.start2, pre, h0, tail, t, u)
    ensures SplitSoFar(if p.empty then pieces else pieces + [q], p.rest, p.start2, NextContext(p.patch, pre, c),
                       h0 + Text2(taken), tail, t, u)
  {
    var x1, x2, r := Text1(taken), Text2(taken), Text1(p.rest);
    PieceTexts(p.patch, pre, taken);
    NextContextEnds(p.patch, h0, pre, x2, c);
    WithEndText(p.patch, post);
    PieceFits(q, h0, pre, x1, x2, post, r, tail);
    RestTexts(h0, x2, Text2(p.rest), tail);
    if p.empty {
      NoEditsText(taken);
      RestTexts(h0, x1, r, tail);
    } else {
      var v := h0 + Text1(p0.rest) + tail;
      ChainOne(q, v);
      ChainAppend(pieces, [q], t, v, h0 + x2 + r + tail);
    }
  }

  lemma RestTexts(h: string, x: string, r: string, tail: string)
    ensures h + (x + r) + tail == (h + x) + r + tail
  {
  }

  lemma StartHolds(p0: Piece, pre: string, c: Settings)
    requires p0.patch.diffs == Context(pre) && p0.patch.length1 == |pre| && p0.patch.length2 == |pre| && p0.empty
    ensures Holds(p0, p0, pre, [], c)
  {
    TakenNothing(p0.rest);
    assert Context(pre) + [] == Context(pre);
  }

  lemma PieceTexts(p: Patch, pre: string, taken: seq<Diff>)
    requires p.diffs == Context(pre) + taken
    ensures Text1(p.diffs) == pre + Text1(taken) && Text2(p.diffs) == pre + Text2(taken)
  {
    TextAppend(Context(pre), taken);
    ContextText(pre);
  }

  /** Break up one patch. */
  method SplitBig(big: Patch, c: Settings, ghost fits: bool, ghost t: string) returns (pieces: seq<Patch>)
    requires Usable(c) && (fits ==> Fits(big, t))
    ensures AllMatchable(pieces, c)
    ensures fits ==> Chain(pieces, t, Applied(big, t))
    ensures Carved(big.diffs, big.start1, big.start2, "", pieces, c)
  {
    hide Weight, Text1, Text2, Carved, AllMatchable;
    pieces := [];
    var rest, start1, start2, pre := big.diffs, big.start1, big.start2, "";
    ghost var h, tail, u := "", "", "";
    if fits {
      h, tail, u := t[..start2], t[start2 + big.length1..], Applied(big, t);
      assert t == h + Text1(rest) + tail;
    }
    NothingMatchable(c);
    NothingCarved(big, c);
    while rest != []
      invariant AllMatchable(pieces, c)
      invariant forall tail :: Carved(rest, start1, start2, pre, tail, c) ==>
                               Carved(big.diffs, big.start1, big.start2, "", pieces + tail, c)
      invariant fits ==> SplitSoFar(pieces, rest, start2, pre, h, tail, t, u)
      decreases Weight(rest), if |pre| < c.maxBits - c.margin then 0 else 1
    {
      ghost var pieces0, rest0, b1, b2, pre0 := pieces, rest, start1, start2, pre;
      pieces, rest, start1, start2, pre, h := SplitRound(pieces, rest, start1, start2, pre, c, fits, h, tail, t, u);
      CarvedThrough(big.diffs, big.start1, big.start2, "", pieces0, rest0, b1, b2, pre0, pieces, rest, start1, start2, pre, c);
    }
    AllCarved(big, pieces, start1, start2, pre, c);
    if fits {
      NothingLeft(pieces, start2, pre, h, tail, t, u);
    }
  }

  lemma NothingMatchable(c: Settings)
    ensures AllMatchable([], c)
  {
  }

  lemma NothingCarved(big: Patch, c: Settings)
    ensures forall tail :: Carved(big.diffs, big.start1, big.start2, "", tail, c) ==>
                           Carved(big.diffs, big.start1, big.start2, "", [] + tail, c)
  {
    hide Carved;
    forall tail: seq<Patch> ensures [] + tail == tail {
    }
  }

  lemma AllCarved(big: Patch, pieces: seq<Patch>, start1: int, start2: int, pre: string, c: Settings)
    requires forall tail :: Carved([], start1, start2, pre, tail, c) ==>
                            Carved(big.diffs, big.start1, big.start2, "", pieces + tail, c)
    ensures Carved(big.diffs, big.start1, big.start2, "", pieces, c)
  {
    assert Carved([], start1, start2, pre, [], c);
    assert pieces + [] == pieces;
  }

  lemma NothingLeft(pieces: seq<Patch>, start2: int, pre: string, h: string, tail: string, t: string, u: string)
    requires SplitSoFar(pieces, [], start2, pre, h, tail, t, u)
    ensures Chain(pieces, t, u)
  {
    assert h + "" + tail == h + Text1([]) + tail;
  }

  // Small patches stay, and others are cut up.
  ghost predicate PiecesOf(p: Patch, pieces: seq<Patch>, c: Settings) {
    if p.length1 <= c.maxBits then pieces == [p] else Carved(p.diffs, p.start1, p.start2, "", pieces, c)
  }

  ghost predicate SplitInto(ps: seq<Patch>, qs: seq<Patch>, c: Settings) {
    if ps == [] then qs == []
    else exists k: nat :: k <= |qs| && PiecesOf(ps[0], qs[..k], c) && SplitInto(ps[1..], qs[k..], c)
  }

  lemma SplitOne(ps: seq<Patch>, pieces: seq<Patch>, qs: seq<Patch>, c: Settings)
    requires ps != [] && PiecesOf(ps[0], pieces, c) && SplitInto(ps[1..], qs, c)
    ensures SplitInto(ps, pieces + qs, c)
  {
    hide PiecesOf;
    assert (pieces + qs)[..|pieces|] == pieces && (pieces + qs)[|pieces|..] == qs;
  }

  lemma SplitThrough(ps: seq<Patch>, before: seq<Patch>, rest: seq<Patch>, pieces: seq<Patch>, c: Settings)
    requires rest != [] && PiecesOf(rest[0], pieces, c)
    requires forall tail :: SplitInto(rest, tail, c) ==> SplitInto(ps, before + tail, c)
    ensures forall tail :: SplitInto(rest[1..], tail, c) ==> SplitInto(ps, before + pieces + tail, c)
  {
    hide PiecesOf, SplitInto;
    forall tail | SplitInto(rest[1..], tail, c) ensures SplitInto(ps, before + pieces + tail, c) {
      SplitOne(rest, pieces, tail, c);
      assert before + (pieces + tail) == before + pieces + tail;
    }
  }

  lemma SplitAll(ps: seq<Patch>, qs: seq<Patch>, c: Settings)
    requires forall tail :: SplitInto([], tail, c) ==> SplitInto(ps, qs + tail, c)
    ensures SplitInto(ps, qs, c)
  {
    assert SplitInto([], [], c);
    assert qs + [] == qs;
  }

  /** patch_splitMax: the pieces, in order, do what the patches did, and every patch can be matched. Patches
      that are small enough stay as they are, the others are cut up into pieces with context. */
  method SplitMax(ps: seq<Patch>, c: Settings, ghost fits: bool, ghost t: string,
                  ghost u: string) returns (qs: seq<Patch>)
    requires Usable(c) && (fits ==> Chain(ps, t, u))
    ensures AllMatchable(qs, c)
    ensures fits ==> Chain(qs, t, u)
    ensures SplitInto(ps, qs, c)
  {
    hide SplitInto, PiecesOf, Carved;
    qs := ps;
    var cur := 0;
    ghost var v := t;
    NothingSplit(ps, c);
    while cur < |qs|
      invariant 0 <= cur <= |qs| && AllMatchable(qs[..cur], c)
      invariant fits ==> Chain(qs[..cur], t, v) && Chain(qs[cur..], v, u)
      invariant forall tail :: SplitInto(qs[cur..], tail, c) ==> SplitInto(ps, qs[..cur] + tail, c)
      decreases |qs| - cur
    {
      var p := qs[cur];
      ghost var before, after := qs[..cur], qs[cur + 1..];
      assert qs[cur..][0] == p && qs[cur..][1..] == after;
      var pieces := [p];
      if p.length1 > c.maxBits {
        pieces := SplitBig(p, c, fits, v);
      }
      SplitPieces(p, pieces, c);
      SplitThrough(ps, before, qs[cur..], pieces, c);
      qs := qs[..cur] + pieces + qs[cur + 1..];
      cur := cur + |pieces|;
      assert qs[..cur] == before + pieces && qs[cur..] == after;
      if fits {
        ChainOne(p, v);
        ChainAppend(before, pieces, t, v, Applied(p, v));
        v := Applied(p, v);
      }
    }
    assert qs[..cur] == qs && qs[cur..] == [];
    SplitAll(ps, qs, c);
  }

  lemma NothingSplit(ps: seq<Patch>, c: Settings)
    ensures forall tail :: SplitInto(ps[0..], tail, c) ==> SplitInto(ps, ps[..0] + tail, c)
  {
    hide SplitInto;
    assert ps[0..] == ps;
    forall tail: seq<Patch> ensures ps[..0] + tail == tail {
    }
  }

  lemma SplitPieces(p: Patch, pieces: seq<Patch>, c: Settings)
    requires if p.length1 <= c.maxBits then pieces == [p] else Carved(p.diffs, p.start1, p.start2, "", pieces, c)
    ensures PiecesOf(p, pieces, c)
  {
    hide Carved;
  }
}
