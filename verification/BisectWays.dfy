/** The paths of diff_bisect against the distance of the texts: before round d every point they stand on is
    d - 1 edits away at most, and no point that near lies further along its diagonal. */
module BisectWays {
  import opened Strings
  import opened EditDistances
  import opened BisectPaths

  predicate InGrid(a: string, b: string, x: int, y: int) {
    0 <= x <= |a| && 0 <= y <= |b|
  }

  /** The characters on diagonal k agree from x0 to x, and no further. */
  predicate Slid(a: string, b: string, k: int, x0: int, x: int) {
    if InGrid(a, b, x0, x0 - k) then
      && x0 <= x <= |a| && x - k <= |b| && (forall i :: x0 <= i < x ==> a[i] == b[i - k])
      && (x < |a| && x - k < |b| ==> a[x] != b[x - k])
    else x == x0
  }

  /** No point the path stands on is further away than its rounds. */
  ghost predicate Sound(a: string, b: string, v: seq<int>, off: int, d: int, s: Shape)
    requires Seen(v, off, d, s)
  {
    forall p :: off + s.lo <= p <= off + s.hi && InGrid(a, b, v[p], v[p] - (p - off)) ==>
      To(a, b, v[p], v[p] - (p - off)) <= d - 1
  }

  // Up to the diagonals on which the edges have been reached.
  predicate Allowed(s: Shape, k: int) {
    (s.right ==> k <= s.beta) && (s.bottom ==> s.gamma <= k)
  }

  /** No point as near lies further along a diagonal of the last round, up to the edges. */
  ghost predicate Complete(a: string, b: string, v: seq<int>, off: int, d: int, s: Shape)
    requires Seen(v, off, d, s)
  {
    forall x: nat, y: nat :: x <= |a| && y <= |b| && To(a, b, x, y) <= d - 1 && SameParity(x - y, d - 1) && Allowed(s, x - y) ==>
      s.lo <= x - y <= s.hi && v[off + (x - y)] >= x
  }

  ghost predicate Ways(a: string, b: string, v: seq<int>, off: int, d: int, s: Shape)
    requires Seen(v, off, d, s)
  {
    Sound(a, b, v, off, d, s) && Complete(a, b, v, off, d, s)
  }

  lemma StartWays(a: string, b: string, v: seq<int>, off: int)
    requires Seen(v, off, 0, START)
    ensures Ways(a, b, v, off, 0, START)
  {
  }

  /** Along agreeing characters nothing is added. */
  lemma {:induction false} SlideTo(a: string, b: string, k: int, x0: int, x: int)
    requires InGrid(a, b, x0, x0 - k) && x0 <= x <= |a| && x - k <= |b| && forall i :: x0 <= i < x ==> a[i] == b[i - k]
    ensures To(a, b, x, x - k) == To(a, b, x0, x0 - k)
    decreases x - x0
  {
    if x0 < x {
      SlideTo(a, b, k, x0, x - 1);
    }
  }

  /** One more edit, and the snake behind it. */
  lemma PointSound(a: string, b: string, v: seq<int>, off: int, d: int, start: int, end: int, s: Shape, k: int, x: int)
    requires Turn(v, off, |a|, |b|, d, start, end, s, k) && Sound(a, b, v, off, d, s)
    requires -d <= k <= d && Slid(a, b, k, Chosen(v, off, d, k), x) && InGrid(a, b, x, x - k)
    ensures To(a, b, x, x - k) <= d
  {
    hide To;
    ChosenSeen(v, off, |a|, |b|, d, start, end, s, k);
    var x0 := Chosen(v, off, d, k);
    SlideTo(a, b, k, x0, x);
    ChosenSound(a, b, v, off, d, start, end, s, k, x0);
  }

  lemma ChosenSound(a: string, b: string, v: seq<int>, off: int, d: int, start: int, end: int, s: Shape, k: int,
                    x0: int)
    requires Turn(v, off, |a|, |b|, d, start, end, s, k) && Sound(a, b, v, off, d, s)
    requires -d <= k <= d && x0 == Chosen(v, off, d, k) && InGrid(a, b, x0, x0 - k)
    ensures To(a, b, x0, x0 - k) <= d
  {
    hide Range, RightEdge, BottomEdge, Clear, To;
    ChosenSeen(v, off, |a|, |b|, d, start, end, s, k);
    if d == 0 {
      NothingTo(a, b);
    } else if s.lo <= k + 1 <= s.hi && x0 == v[off + k + 1] {
      assert To(a, b, v[off + k + 1], v[off + k + 1] - (off + k + 1 - off)) <= d - 1;
      Near(a, b, x0, x0 - k - 1);
    } else {
      assert To(a, b, v[off + k - 1], v[off + k - 1] - (off + k - 1 - off)) <= d - 1;
      Near(a, b, x0 - 1, x0 - k);
    }
  }

  lemma NothingTo(a: string, b: string)
    ensures To(a, b, 0, 0) == 0
  {
  }

  /** No point d edits away lies behind the end of the snake. */
  lemma {:induction false} PointComplete(a: string, b: string, v: seq<int>, off: int, d: int, start: int, end: int,
                                         s: Shape,
                                         k: int, x: int, u: nat, w: nat)
    requires Turn(v, off, |a|, |b|, d, start, end, s, k) && Complete(a, b, v, off, d, s)
    requires -d <= k <= d && Slid(a, b, k, Chosen(v, off, d, k), x)
    requires (s.right ==> k + 1 <= s.beta) && (s.bottom ==> s.gamma <= k - 1)
    requires u <= |a| && w <= |b| && u - w == k && To(a, b, u, w) <= d
    ensures u <= x
    decreases u + w
  {
    hide Complete, Range, RightEdge, BottomEdge, Clear, Seen;
    ChosenSeen(v, off, |a|, |b|, d, start, end, s, k);
    if u > 0 && w > 0 && a[u - 1] == b[w - 1] {
      PointComplete(a, b, v, off, d, start, end, s, k, x, u - 1, w - 1);
    } else if u > 0 && (w == 0 || To(a, b, u - 1, w) <= To(a, b, u, w - 1)) {
      CompleteAt(a, b, v, off, d, s, u - 1, w);
    } else if w > 0 {
      CompleteAt(a, b, v, off, d, s, u, w - 1);
    }
  }

  lemma CompleteAt(a: string, b: string, v: seq<int>, off: int, d: int, s: Shape, x: nat, y: nat)
    requires Seen(v, off, d, s) && Complete(a, b, v, off, d, s) && x <= |a| && y <= |b| && To(a, b, x, y) <= d - 1
    requires SameParity(x - y, d - 1) && Allowed(s, x - y)
    ensures s.lo <= x - y <= s.hi && 0 <= off + (x - y) < |v| && v[off + (x - y)] >= x
  {
    hide To;
  }

  /** The diagonals visited in the round have been extended from the vector before it. */
  ghost predicate Extended(a: string, b: string, v0: seq<int>, v: seq<int>, off: int, d: int, first: int, k: int) {
    && 0 <= d < off && off >= 2 && |v0| == |v| == 2 * off && -d <= first
    && forall p :: 0 <= p < |v| && Visited(off, d, first, k, p) ==>
         p - off <= d && Slid(a, b, p - off, Chosen(v0, off, d, p - off), v[p])
  }

  lemma ExtendedStart(a: string, b: string, v: seq<int>, off: int, d: int, first: int)
    requires 0 <= d < off && off >= 2 && |v| == 2 * off && -d <= first
    ensures Extended(a, b, v, v, off, d, first, first)
  {
  }

  lemma ExtendedStep(a: string, b: string, v0: seq<int>, v: seq<int>, off: int, d: int, first: int, k: int, x: int)
    requires Extended(a, b, v0, v, off, d, first, k) && first <= k <= d && SameParity(k, d)
    requires Slid(a, b, k, Chosen(v0, off, d, k), x)
    ensures Extended(a, b, v0, v[off + k := x], off, d, first, k + 2)
  {
    hide Slid, Chosen;
    var w := v[off + k := x];
    forall p | 0 <= p < |w| && Visited(off, d, first, k + 2, p)
      ensures p - off <= d && Slid(a, b, p - off, Chosen(v0, off, d, p - off), w[p])
    {
      VisitedNext(off, d, first, k, p);
    }
  }

  /** All points a round away are covered by the diagonals visited, up to the edges; the path stands in the grid there. */
  ghost predicate Covered(a: string, b: string, v: seq<int>, off: int, d: int, e: Shape, first: int, k: int) {
    forall x: nat, y: nat :: x <= |a| && y <= |b| && To(a, b, x, y) <= d && SameParity(x - y, d) && Allowed(e, x - y) ==>
      && 0 <= off + (x - y) < |v| && Visited(off, d, first, k, off + (x - y))
      && InGrid(a, b, v[off + (x - y)], v[off + (x - y)] - (x - y)) && x <= v[off + (x - y)]
  }

  /** Up to the edges of the round, all diagonals have been visited. */
  lemma VisitedAllowed(v0: seq<int>, v: seq<int>, off: int, n: int, m: int, d: int, start0: int, end0: int, s: Shape,
                       k: int, start: int, end: int, t: Shape, q: int)
    requires End(v0, v, off, n, m, d, start0, end0, s, k, start, end, t)
    requires -d <= q <= d && SameParity(q, d) && Allowed(Ended(s, t, start0 - d, k), q)
    ensures 0 <= off + q < |v| && Visited(off, d, start0 - d, k, off + q)
    ensures Turn(v0, off, n, m, d, start0, end0, s, q)
    ensures (s.right ==> q + 1 <= s.beta) && (s.bottom ==> s.gamma <= q - 1)
  {
    hide Results, RightEdge, BottomEdge;
    EndVisits(v0, v, off, n, m, d, start0, end0, s, k, start, end, t);
    EndVisitsBottom(v0, v, off, n, m, d, start0, end0, s, k, start, end, t);
    EndEdges(v0, v, off, n, m, d, start0, end0, s, k, start, end, t);
    EndCounts(v0, v, off, n, m, d, start0, end0, s, k, start, end, t);
  }

  lemma CoveredAt(a: string, b: string, v0: seq<int>, v: seq<int>, off: int, d: int, start0: int, end0: int, s: Shape,
                  k: int, start: int, end: int, t: Shape, x: nat, y: nat)
    requires End(v0, v, off, |a|, |b|, d, start0, end0, s, k, start, end, t) && Seen(v0, off, d, s)
    requires Complete(a, b, v0, off, d, s)
    requires Extended(a, b, v0, v, off, d, start0 - d, k)
    requires x <= |a| && y <= |b| && To(a, b, x, y) <= d && SameParity(x - y, d)
    requires Allowed(Ended(s, t, start0 - d, k), x - y)
    ensures 0 <= off + (x - y) < |v| && Visited(off, d, start0 - d, k, off + (x - y))
    ensures InGrid(a, b, v[off + (x - y)], v[off + (x - y)] - (x - y)) && x <= v[off + (x - y)]
  {
    hide End, Turn, Seen, Complete, Slid, To, Chosen;
    var q := x - y;
    Between(a, b, x, y);
    VisitedAllowed(v0, v, off, |a|, |b|, d, start0, end0, s, k, start, end, t, q);
    PointComplete(a, b, v0, off, d, start0, end0, s, q, v[off + q], x, y);
    VisitedInGrid(a, b, v0, v, off, d, start0, end0, s, k, start, end, t, q);
  }

  lemma VisitedInGrid(a: string, b: string, v0: seq<int>, v: seq<int>, off: int, d: int, start0: int, end0: int,
                      s: Shape,
                      k: int, start: int, end: int, t: Shape, q: int)
    requires End(v0, v, off, |a|, |b|, d, start0, end0, s, k, start, end, t)
    requires 0 <= off + q < |v| && Visited(off, d, start0 - d, k, off + q)
    requires (s.right ==> q + 1 <= s.beta) && (s.bottom ==> s.gamma <= q - 1)
    ensures InGrid(a, b, v[off + q], v[off + q] - q)
  {
    hide RightEdge, BottomEdge, MidRight, MidBottom, Seen, Range;
    VisitedPoint(v0, v, off, |a|, |b|, d, s, start0 - d, k, off + q);
  }

  lemma EndCovered(a: string, b: string, v0: seq<int>, v: seq<int>, off: int, d: int, start0: int, end0: int, s: Shape,
                   k: int, start: int, end: int, t: Shape)
    requires End(v0, v, off, |a|, |b|, d, start0, end0, s, k, start, end, t) && Seen(v0, off, d, s)
    requires Complete(a, b, v0, off, d, s)
    requires Extended(a, b, v0, v, off, d, start0 - d, k)
    ensures Covered(a, b, v, off, d, Ended(s, t, start0 - d, k), start0 - d, k)
  {
    hide End, Seen, Complete, Extended, To, Allowed;
    var e := Ended(s, t, start0 - d, k);
    forall x: nat, y: nat | x <= |a| && y <= |b| && To(a, b, x, y) <= d && SameParity(x - y, d) && Allowed(e, x - y)
      ensures 0 <= off + (x - y) < |v| && Visited(off, d, start0 - d, k, off + (x - y))
      ensures InGrid(a, b, v[off + (x - y)], v[off + (x - y)] - (x - y)) && x <= v[off + (x - y)]
    {
      CoveredAt(a, b, v0, v, off, d, start0, end0, s, k, start, end, t, x, y);
    }
  }

  lemma CoveredComplete(a: string, b: string, v: seq<int>, off: int, d: int, s: Shape, t: Shape, first: int, k: int)
    requires Covered(a, b, v, off, d, Ended(s, t, first, k), first, k) && SameParity(first, d) && SameParity(k, d)
    requires Seen(v, off, d + 1, Ended(s, t, first, k))
    ensures Complete(a, b, v, off, d + 1, Ended(s, t, first, k))
  {
    hide To, Allowed, Seen;
  }

  lemma EndSound(a: string, b: string, v0: seq<int>, v: seq<int>, off: int, d: int, start0: int, end0: int, s: Shape,
                 k: int, start: int, end: int, t: Shape)
    requires End(v0, v, off, |a|, |b|, d, start0, end0, s, k, start, end, t) && Seen(v0, off, d, s)
    requires Sound(a, b, v0, off, d, s)
    requires Extended(a, b, v0, v, off, d, start0 - d, k) && Stretch(off, d, s, start0 - d, k)
    requires Seen(v, off, d + 1, Ended(s, t, start0 - d, k))
    ensures Sound(a, b, v, off, d + 1, Ended(s, t, start0 - d, k))
  {
    hide End, To, Slid, Extended, Seen;
    var e := Ended(s, t, start0 - d, k);
    SeenBounds(v, off, d + 1, e);
    forall p | off + e.lo <= p <= off + e.hi && InGrid(a, b, v[p], v[p] - (p - off))
      ensures To(a, b, v[p], v[p] - (p - off)) <= d
    {
      EndSoundAt(a, b, v0, v, off, d, start0, end0, s, k, start, end, t, p);
    }
  }

  lemma SeenBounds(v: seq<int>, off: int, d: int, s: Shape)
    requires Seen(v, off, d, s)
    ensures 0 <= off + s.lo && off + s.hi < |v|
  {
  }

  lemma EndSoundAt(a: string, b: string, v0: seq<int>, v: seq<int>, off: int, d: int, start0: int, end0: int, s: Shape,
                   k: int, start: int, end: int, t: Shape, p: int)
    requires End(v0, v, off, |a|, |b|, d, start0, end0, s, k, start, end, t) && Seen(v0, off, d, s)
    requires Sound(a, b, v0, off, d, s)
    requires Extended(a, b, v0, v, off, d, start0 - d, k) && Stretch(off, d, s, start0 - d, k)
    requires off + Ended(s, t, start0 - d, k).lo <= p <= off + Ended(s, t, start0 - d, k).hi && 0 <= p < |v|
    requires InGrid(a, b, v[p], v[p] - (p - off))
    ensures To(a, b, v[p], v[p] - (p - off)) <= d
  {
    hide To, Slid, Seen, End, Turn, Chosen, Results, Point;
    EndResults(v0, v, off, |a|, |b|, d, start0, end0, s, k, start, end, t);
    NewOrOld(v0, v, off, |a|, |b|, d, s, t, start0 - d, k, p);
    if Visited(off, d, start0 - d, k, p) {
      VisitedTurn(v0, v, off, |a|, |b|, d, start0, end0, s, k, start, end, t, p - off);
      PointSound(a, b, v0, off, d, start0, end0, s, p - off, v[p]);
    }
  }

  lemma EndResults(v0: seq<int>, v: seq<int>, off: int, n: int, m: int, d: int, start0: int, end0: int, s: Shape,
                   k: int, start: int, end: int, t: Shape)
    requires End(v0, v, off, n, m, d, start0, end0, s, k, start, end, t)
    ensures Results(v0, v, off, n, m, d, s, start0 - d, k) && |v0| == 2 * off
  {
    hide Results, RightEdge, BottomEdge, MidRight, MidBottom, Range;
  }

  lemma VisitedTurn(v0: seq<int>, v: seq<int>, off: int, n: int, m: int, d: int, start0: int, end0: int, s: Shape,
                    k: int, start: int, end: int, t: Shape, q: int)
    requires End(v0, v, off, n, m, d, start0, end0, s, k, start, end, t) && Visited(off, d, start0 - d, k, off + q)
    ensures Turn(v0, off, n, m, d, start0, end0, s, q) && -d <= q <= d
  {
    hide Results, RightEdge, BottomEdge, MidRight, MidBottom, Seen;
  }

  /** A round keeps what is known of the ways. */
  lemma EndWays(a: string, b: string, v0: seq<int>, v: seq<int>, off: int, d: int, start0: int, end0: int, s: Shape,
                k: int, start: int, end: int, t: Shape)
    requires End(v0, v, off, |a|, |b|, d, start0, end0, s, k, start, end, t) && Seen(v0, off, d, s)
    requires Ways(a, b, v0, off, d, s)
    requires Extended(a, b, v0, v, off, d, start0 - d, k)
    ensures Seen(v, off, d + 1, Ended(s, t, start0 - d, k)) && Ways(a, b, v, off, d + 1, Ended(s, t, start0 - d, k))
    ensures Covered(a, b, v, off, d, Ended(s, t, start0 - d, k), start0 - d, k)
  {
    hide End, Seen, Sound, Complete, Extended, Covered;
    SeenEnds(v0, v, off, |a|, |b|, d, start0, end0, s, k, start, end, t);
    EndSound(a, b, v0, v, off, d, start0, end0, s, k, start, end, t);
    EndCovered(a, b, v0, v, off, d, start0, end0, s, k, start, end, t);
    CoveredComplete(a, b, v, off, d, s, t, start0 - d, k);
  }

  /** A shortest way does not lead beyond the edges: from where the path has reached one, the rest is shorter. */
  lemma WayAllowed(a: string, b: string, v: seq<int>, off: int, d: int, start: int, end: int, s: Shape, e: nat,
                   x: nat, y: nat)
    requires Reach(v, off, |a|, |b|, d, start, end, s) && Sound(a, b, v, off, d, s) && OnWay(a, b, e, x, y)
    requires e == d - 1
    ensures Allowed(s, x - y)
  {
    hide To, From, Distance, Seen, Range;
    RestAtLeast(a, b, x, y);
    if s.right && s.beta < x - y {
      RightPoint(a, b, v, off, d, start, end, s);
      Through(a, b, |a|, |a| - s.beta);
      FromStep(a, b, |a|, |a| - s.beta);
      assert false;
    }
    if s.bottom && x - y < s.gamma {
      BottomPoint(a, b, v, off, d, start, end, s);
      Through(a, b, |b| + s.gamma, |b|);
      FromStep(a, b, |b| + s.gamma, |b|);
      assert false;
    }
  }

  lemma RestAtLeast(a: string, b: string, x: nat, y: nat)
    requires x <= |a| && y <= |b|
    ensures From(a, b, x, y) >= |b| - |a| + (x - y) && From(a, b, x, y) >= |a| - |b| - (x - y)
  {
    Between(Reversed(a), Reversed(b), |a| - x, |b| - y);
  }

  lemma RightPoint(a: string, b: string, v: seq<int>, off: int, d: int, start: int, end: int, s: Shape)
    requires Reach(v, off, |a|, |b|, d, start, end, s) && Sound(a, b, v, off, d, s) && s.right
    ensures 0 <= |a| - s.beta < |b| && To(a, b, |a|, |a| - s.beta) <= d - 1
  {
    hide To, BottomEdge;
    assert v[off + s.beta] == |a|;
  }

  lemma BottomPoint(a: string, b: string, v: seq<int>, off: int, d: int, start: int, end: int, s: Shape)
    requires Reach(v, off, |a|, |b|, d, start, end, s) && Sound(a, b, v, off, d, s) && s.bottom
    ensures 0 <= |b| + s.gamma < |a| && To(a, b, |b| + s.gamma, |b|) <= d - 1
  {
    hide To, RightEdge;
    assert v[off + s.gamma] == |b| + s.gamma;
  }

  /** The other way round it is the same way. */
  lemma WayReversed(a: string, b: string, e: nat, x: nat, y: nat)
    requires OnWay(a, b, e, x, y)
    ensures OnWay(Reversed(a), Reversed(b), Distance(a, b) - e, |a| - x, |b| - y)
  {
    hide To;
    ReversedTwice(a);
    ReversedTwice(b);
    DistanceReversed(a, b);
  }

  /** Both lengths together and the distance are even or odd alike. */
  lemma DistanceParity(a: string, b: string)
    ensures (|a| - |b| - Distance(a, b)) % 2 == 0
  {
    var j := EditDistances.Kept(a, b, |a|, |b|);
    assert |a| - |b| - Distance(a, b) == 2 * (j - |b|);
  }

  lemma PointParity(a: string, b: string, e: nat, x: nat, y: nat)
    requires OnWay(a, b, e, x, y)
    ensures SameParity(x - y, e)
  {
    hide From, Distance;
    var j := EditDistances.Kept(a, b, x, y);
    assert x - y - e == 2 * (j - y);
  }

  /** What is known before a round of how far the texts are apart. */
  ghost predicate AtLeast(a: string, b: string, d: int) {
    Distance(a, b) >= if (|a| - |b|) % 2 == 0 then 2 * d else 2 * d - 1
  }

  /** A shortest way of 2 d - 1 edits would have been met when the front path has gone d rounds and the reverse
      path one less. */
  lemma NotMetOdd(a: string, b: string, v1: seq<int>, v2: seq<int>, off: int, d: int,
                  start1: int, end1: int, e1: Shape, first: int, k: int, start2: int, end2: int, s2: Shape)
    requires Reach(v1, off, |a|, |b|, d + 1, start1, end1, e1) && Ways(a, b, v1, off, d + 1, e1)
    requires Covered(a, b, v1, off, d, e1, first, k)
    requires Reach(v2, off, |a|, |b|, d, start2, end2, s2) && Ways(Reversed(a), Reversed(b), v2, off, d, s2)
    requires Unmet(v2, v1, off, |a|, |b|, d, first, k, s2) && (|a| - |b|) % 2 != 0 && AtLeast(a, b, d) && d >= 0
    ensures AtLeast(a, b, d + 1)
  {
    hide Reach, Seen, To, From, Distance, OnWay, Sound, Complete, Covered, Unmet, Allowed;
    DistanceParity(a, b);
    if Distance(a, b) < 2 * d + 1 {
      OddDistance(|a| - |b|, Distance(a, b), d);
      var x, y := WayPoint(a, b, d);
      MetOdd(a, b, v1, v2, off, d, start1, end1, e1, first, k, start2, end2, s2, x, y);
      assert false;
    }
  }

  lemma OddDistance(delta: int, dist: int, d: int)
    requires (delta - dist) % 2 == 0 && delta % 2 != 0 && 2 * d - 1 <= dist < 2 * d + 1
    ensures dist == 2 * d - 1
  {
    assert dist != 2 * d;
  }

  lemma MetOdd(a: string, b: string, v1: seq<int>, v2: seq<int>, off: int, d: int,
               start1: int, end1: int, e1: Shape, first: int, k: int, start2: int, end2: int, s2: Shape, x: nat, y: nat)
    requires Reach(v1, off, |a|, |b|, d + 1, start1, end1, e1) && Ways(a, b, v1, off, d + 1, e1)
    requires Covered(a, b, v1, off, d, e1, first, k)
    requires Reach(v2, off, |a|, |b|, d, start2, end2, s2) && Ways(Reversed(a), Reversed(b), v2, off, d, s2)
    requires d >= 1 && OnWay(a, b, d, x, y) && Distance(a, b) == 2 * d - 1
    ensures !Unmet(v2, v1, off, |a|, |b|, d, first, k, s2)
  {
    hide Reach, Seen, To, Distance, Sound, Complete, Covered, Allowed;
    WayAllowed(a, b, v1, off, d + 1, start1, end1, e1, d, x, y);
    PointParity(a, b, d, x, y);
    CoveredThere(a, b, v1, off, d, e1, first, k, x, y);
    ReverseThere(a, b, v2, off, d, d - 1, start2, end2, s2, d, x, y);
    var p := off + (x - y);
    assert |a| - |b| - (p - off) == (|a| - x) - (|b| - y);
  }

  lemma CoveredThere(a: string, b: string, v: seq<int>, off: int, d: int, e: Shape, first: int, k: int, x: nat, y: nat)
    requires Covered(a, b, v, off, d, e, first, k) && x <= |a| && y <= |b| && To(a, b, x, y) <= d
    requires SameParity(x - y, d) && Allowed(e, x - y)
    ensures 0 <= off + (x - y) < |v| && Visited(off, d, first, k, off + (x - y))
    ensures InGrid(a, b, v[off + (x - y)], v[off + (x - y)] - (x - y)) && x <= v[off + (x - y)]
  {
    hide To;
  }

  /** The reverse path has come as near to a point of a shortest way as it can have. */
  lemma ReverseThere(a: string, b: string, v: seq<int>, off: int, d: int, r: nat, start: int, end: int, s: Shape,
                     e: nat, x: nat, y: nat)
    requires Reach(v, off, |a|, |b|, d, start, end, s) && Ways(Reversed(a), Reversed(b), v, off, d, s)
    requires OnWay(a, b, e, x, y) && r == d - 1 && Distance(a, b) == e + r
    ensures var q := (|a| - x) - (|b| - y); s.lo <= q <= s.hi && 0 <= off + q < |v| && v[off + q] >= |a| - x
  {
    hide Reach, To, From, Distance, Sound, Complete, Allowed;
    ReachSeen(v, off, |a|, |b|, d, start, end, s);
    WayReversed(a, b, e, x, y);
    WayAllowed(Reversed(a), Reversed(b), v, off, d, start, end, s, r, |a| - x, |b| - y);
    PointParity(Reversed(a), Reversed(b), r, |a| - x, |b| - y);
    CompleteAt(Reversed(a), Reversed(b), v, off, d, s, |a| - x, |b| - y);
  }

  /** The same when both paths have gone d rounds. */
  lemma NotMetEven(a: string, b: string, v1: seq<int>, v2: seq<int>, off: int, d: int,
                   start1: int, end1: int, e1: Shape, start2: int, end2: int, e2: Shape, first: int, k: int)
    requires Reach(v1, off, |a|, |b|, d + 1, start1, end1, e1) && Ways(a, b, v1, off, d + 1, e1)
    requires Reach(v2, off, |a|, |b|, d + 1, start2, end2, e2) && Ways(Reversed(a), Reversed(b), v2, off, d + 1, e2)
    requires Covered(Reversed(a), Reversed(b), v2, off, d, e2, first, k)
    requires Unmet(v1, v2, off, |a|, |b|, d, first, k, e1) && (|a| - |b|) % 2 == 0 && AtLeast(a, b, d) && d >= 0
    ensures AtLeast(a, b, d + 1)
  {
    hide Reach, Seen, To, From, Distance, OnWay, Sound, Complete, Covered, Unmet, Allowed;
    DistanceParity(a, b);
    if Distance(a, b) < 2 * d + 2 {
      EvenDistance(|a| - |b|, Distance(a, b), d);
      var x, y := WayPoint(a, b, d);
      MetEven(a, b, v1, v2, off, d, start1, end1, e1, start2, end2, e2, first, k, x, y);
      assert false;
    }
  }

  lemma EvenDistance(delta: int, dist: int, d: int)
    requires (delta - dist) % 2 == 0 && delta % 2 == 0 && 2 * d <= dist < 2 * d + 2
    ensures dist == 2 * d
  {
    assert dist != 2 * d + 1;
  }

  lemma MetEven(a: string, b: string, v1: seq<int>, v2: seq<int>, off: int, d: int,
                start1: int, end1: int, e1: Shape, start2: int, end2: int, e2: Shape, first: int, k: int, x: nat,
                y: nat)
    requires Reach(v1, off, |a|, |b|, d + 1, start1, end1, e1) && Ways(a, b, v1, off, d + 1, e1)
    requires Reach(v2, off, |a|, |b|, d + 1, start2, end2, e2) && Ways(Reversed(a), Reversed(b), v2, off, d + 1, e2)
    requires Covered(Reversed(a), Reversed(b), v2, off, d, e2, first, k)
    requires d >= 0 && OnWay(a, b, d, x, y) && Distance(a, b) == 2 * d
    ensures !Unmet(v1, v2, off, |a|, |b|, d, first, k, e1)
  {
    hide Reach, Seen, To, From, Distance, Sound, Complete, Covered, Allowed;
    var u, w := |a| - x, |b| - y;
    WayReversed(a, b, d, x, y);
    WayAllowed(Reversed(a), Reversed(b), v2, off, d + 1, start2, end2, e2, d, u, w);
    PointParity(Reversed(a), Reversed(b), d, u, w);
    CoveredThere(Reversed(a), Reversed(b), v2, off, d, e2, first, k, u, w);
    WayAllowed(a, b, v1, off, d + 1, start1, end1, e1, d, x, y);
    PointParity(a, b, d, x, y);
    ReachSeen(v1, off, |a|, |b|, d + 1, start1, end1, e1);
    CompleteAt(a, b, v1, off, d + 1, e1, x, y);
    var p := off + (u - w);
    assert |a| - |b| - (p - off) == x - y;
  }

  /** A shortest way leads through the point. */
  ghost predicate OnShortest(a: string, b: string, x: int, y: int) {
    InGrid(a, b, x, y) && Distance(a, b) == Distance(a[..x], b[..y]) + Distance(a[x..], b[y..])
  }

  /** Where the paths meet on a diagonal, the rest is no longer than the reverse path. */
  lemma MeetingShortest(a: string, b: string, x: int, y: int, u: int, r: int, d: int)
    requires InGrid(a, b, x, y) && To(a, b, x, y) <= d
    requires 0 <= u <= |a| && 0 <= u - (|a| - |b| - (x - y)) <= |b| && x >= |a| - u
    requires To(Reversed(a), Reversed(b), u, u - (|a| - |b| - (x - y))) <= r
    requires Distance(a, b) >= d + r
    ensures OnShortest(a, b, x, y)
  {
    hide To, Distance;
    var w := u - (|a| - |b| - (x - y));
    Diagonal(Reversed(a), Reversed(b), |a| - x, |b| - y, u - (|a| - x));
    Through(a, b, x, y);
    PartsOfPoint(a, b, x, y);
  }

  /** Where the front path may look for the reverse path, that is in the grid. */
  ghost predicate Inwards(v2: seq<int>, off: int, n: int, m: int, s2: Shape, s1: Shape) {
    forall p :: 0 <= p < |v2| && s2.lo <= p - off <= s2.hi && s1.lo - 1 <= n - m - (p - off) <= s1.hi + 1 ==>
      0 <= v2[p] <= n && 0 <= v2[p] - (p - off) <= m
  }

  lemma AllInwards(v2: seq<int>, off: int, n: int, m: int, d: int, s2: Shape, e2: Shape, first: int, k2: int, s1: Shape)
    requires Walked(v2, off, n, m, d, s2, e2, first, k2) && Positive(v2, off, e2) && Apart(n - m, s2, s1)
    ensures Inwards(v2, off, n, m, e2, s1)
  {
    hide Walked, Positive, Apart;
    forall p | 0 <= p < |v2| && e2.lo <= p - off <= e2.hi && s1.lo - 1 <= n - m - (p - off) <= s1.hi + 1
      ensures 0 <= v2[p] <= n && 0 <= v2[p] - (p - off) <= m
    {
      MeetsInside(v2, off, n, m, d, s2, e2, first, k2, s1, n - m - (p - off));
      PositiveAt(v2, off, e2, p);
    }
  }

  lemma PositiveAt(v: seq<int>, off: int, s: Shape, p: int)
    requires Positive(v, off, s) && off + s.lo <= p <= off + s.hi
    ensures 0 <= p < |v| && v[p] >= 0 && v[p] >= p - off
  {
  }

  /** A meeting on the front path in round d. */
  lemma MetFront(a: string, b: string, v0: seq<int>, v2: seq<int>, off: int, d: int, start: int, end: int, s: Shape,
                 s2: Shape,
                 k: int, x: int)
    requires Turn(v0, off, |a|, |b|, d, start, end, s, k) && -d <= k <= d && Slid(a, b, k, Chosen(v0, off, d, k), x)
    requires InGrid(a, b, x, x - k) && Sound(a, b, v0, off, d, s)
    requires Seen(v2, off, d, s2) && Sound(Reversed(a), Reversed(b), v2, off, d, s2)
    requires Inwards(v2, off, |a|, |b|, s2, s)
    requires AtLeast(a, b, d) && (|a| - |b|) % 2 != 0
    requires 0 <= off + (|a| - |b| - k) < |v2| && v2[off + (|a| - |b| - k)] != -1
    requires x >= |a| - v2[off + (|a| - |b| - k)]
    requires d == 0 ==> x == 0
    ensures OnShortest(a, b, x, x - k)
  {
    hide To, Distance, OnShortest, Turn, Slid, Chosen;
    var q := |a| - |b| - k;
    ChosenSeen(v0, off, |a|, |b|, d, start, end, s, k);
    PointSound(a, b, v0, off, d, start, end, s, k, x);
    TurnParity(v0, off, |a|, |b|, d, start, end, s, k);
    SeenNotStart(v2, off, |a|, |b|, d, s2, k, x);
    assert To(Reversed(a), Reversed(b), v2[off + q], v2[off + q] - (off + q - off)) <= d - 1;
    MeetingShortest(a, b, x, x - k, v2[off + q], d - 1, d);
  }

  lemma TurnParity(v: seq<int>, off: int, n: int, m: int, d: int, start: int, end: int, s: Shape, k: int)
    requires Turn(v, off, n, m, d, start, end, s, k)
    ensures SameParity(k, d) && n >= 2 && d >= 0
  {
  }

  lemma SeenNotStart(v: seq<int>, off: int, n: int, m: int, d: int, s: Shape, k: int, x: int)
    requires Seen(v, off, d, s) && 0 <= off + (n - m - k) < |v| && v[off + (n - m - k)] != -1
    requires SameParity(k, d) && (n - m) % 2 != 0
    requires x >= n - v[off + (n - m - k)] && (d == 0 ==> x == 0) && n >= 2
    ensures s.lo <= n - m - k <= s.hi
  {
  }

  /** A meeting on the reverse path in round d, at the end of the front path there. */
  lemma MetReverse(a: string, b: string, v1: seq<int>, v0: seq<int>, off: int, d: int, e1: Shape,
                   start: int, end: int, s: Shape, k: int, x: int)
    requires Turn(v0, off, |a|, |b|, d, start, end, s, k) && -d <= k <= d
    requires Slid(Reversed(a), Reversed(b), k, Chosen(v0, off, d, k), x) && InGrid(a, b, x, x - k)
    requires Sound(Reversed(a), Reversed(b), v0, off, d, s)
    requires Seen(v1, off, d + 1, e1) && Sound(a, b, v1, off, d + 1, e1) && AtLeast(a, b, d) && (|a| - |b|) % 2 == 0
    requires e1.lo <= |a| - |b| - k <= e1.hi && 0 <= off + (|a| - |b| - k) < |v1|
    requires InGrid(a, b, v1[off + (|a| - |b| - k)], v1[off + (|a| - |b| - k)] - (|a| - |b| - k))
    requires v1[off + (|a| - |b| - k)] >= |a| - x
    ensures OnShortest(a, b, v1[off + (|a| - |b| - k)], v1[off + (|a| - |b| - k)] - (|a| - |b| - k))
  {
    hide To, Distance, OnShortest, Turn, Slid, Chosen;
    var q := |a| - |b| - k;
    PointSound(Reversed(a), Reversed(b), v0, off, d, start, end, s, k, x);
    assert To(a, b, v1[off + q], v1[off + q] - (off + q - off)) <= d;
    MeetingShortest(a, b, v1[off + q], v1[off + q] - q, x, d, d);
  }
}
