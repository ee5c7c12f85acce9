/** The search of diff_bisect for a point where the forward and the reverse path meet. Every access to
    the vectors and the texts is in range, the point is inside the grid and not at a corner, and a shortest
    way from one text to the other leads through it. */
module Bisect {
  import opened Strings
  import opened EditDistances
  import opened BisectPaths
  import opened BisectWays

  /** Texts as diff_compute hands them over: they have no common character at either end. */
  predicate Trimmed(text1: string, text2: string) {
    && |text1| >= 2 && |text2| >= 2 && text1[0] != text2[0] && text1[|text1| - 1] != text2[|text2| - 1]
  }

  /** The characters agree from x0, y0 up to x, y. */
  method Snake(text1: string, text2: string, x0: int, y0: int) returns (x: int, y: int)
    requires x0 >= 0 && y0 >= 0 && Trimmed(text1, text2)
    ensures x - y == x0 - y0
    ensures if x0 <= |text1| && y0 <= |text2| then x0 <= x <= |text1| && y <= |text2| else x == x0
    ensures x > x0 ==> x < |text1| || y < |text2|
    ensures x0 == 0 && y0 == 0 ==> x == 0
    ensures Slid(text1, text2, x0 - y0, x0, x)
  {
    x, y := x0, y0;
    while x < |text1| && y < |text2| && text1[x] == text2[y]
      invariant x >= x0 && x - y == x0 - y0
      invariant if x0 <= |text1| && y0 <= |text2| then x <= |text1| && y <= |text2| else x == x0
      invariant x > x0 ==> 0 < x <= |text1| && 0 < y <= |text2| && text1[x - 1] == text2[y - 1]
      invariant x0 == 0 && y0 == 0 ==> x == 0
      invariant forall i :: x0 <= i < x ==> text1[i] == text2[i - (x0 - y0)]
      decreases |text1| - x
    {
      x, y := x + 1, y + 1;
    }
  }

  /** The same from the ends of the texts. */
  method ReverseSnake(text1: string, text2: string, x0: int, y0: int) returns (x: int, y: int)
    requires x0 >= 0 && y0 >= 0 && Trimmed(text1, text2)
    ensures x - y == x0 - y0
    ensures if x0 <= |text1| && y0 <= |text2| then x0 <= x <= |text1| && y <= |text2| else x == x0
    ensures x > x0 ==> x < |text1| || y < |text2|
    ensures x0 == 0 && y0 == 0 ==> x == 0
    ensures Slid(Reversed(text1), Reversed(text2), x0 - y0, x0, x)
  {
    x, y := x0, y0;
    while x < |text1| && y < |text2| && text1[|text1| - x - 1] == text2[|text2| - y - 1]
      invariant x >= x0 && x - y == x0 - y0
      invariant if x0 <= |text1| && y0 <= |text2| then x <= |text1| && y <= |text2| else x == x0
      invariant x > x0 ==> 0 < x <= |text1| && 0 < y <= |text2| && text1[|text1| - x] == text2[|text2| - y]
      invariant x0 == 0 && y0 == 0 ==> x == 0
      invariant forall i :: x0 <= i < x ==> Reversed(text1)[i] == Reversed(text2)[i - (x0 - y0)]
      decreases |text1| - x
    {
      x, y := x + 1, y + 1;
    }
  }

  lemma SnakeResult(v: seq<int>, off: int, n: int, m: int, d: int, k: int, x0: int, x: int)
    requires 0 <= d < off && off >= 2 && |v| == 2 * off && -d <= k <= d && x0 == Chosen(v, off, d, k)
    requires if x0 <= n && x0 - k <= m then x0 <= x <= n && x - k <= m else x == x0
    requires x > x0 ==> x < n || x - k < m
    requires d == 0 ==> x0 == 0 && k == 0
    requires x0 == 0 && k == 0 ==> x == 0
    ensures Result(v, off, n, m, d, k, x)
  {
  }

  /** One step of the front path: an insertion or deletion, and the snake behind it. */
  method FrontPoint(text1: string, text2: string, v: array<int>, off: int, d: int, k: int,
                    ghost v0: seq<int>, ghost start0: int, ghost end0: int, ghost s: Shape, ghost start: int,
                    ghost end: int, ghost t: Shape)
    returns (x: int, y: int)
    requires Trimmed(text1, text2) && k <= d - end
    requires Midway(v0, v[..], off, |text1|, |text2|, d, start0, end0, s, k, start, end, t)
    ensures y == x - k && Result(v0, off, |text1|, |text2|, d, k, x)
    ensures Slid(text1, text2, k, Chosen(v0, off, d, k), x)
  {
    hide Midway, Reach, Seen, Result, Slid;
    ghost var n, m := |text1|, |text2|;
    MidTurn(v0, v[..], off, n, m, d, start0, end0, s, k, start, end, t);
    ChosenSeen(v0, off, n, m, d, start0, end0, s, k);
    var o := off + k;
    var x0 := if k == -d || (k != d && v[o - 1] < v[o + 1]) then v[o + 1] else v[o - 1] + 1;
    x, y := Snake(text1, text2, x0, x0 - k);
    SnakeResult(v0, off, n, m, d, k, x0, x);
  }

  /** One step of the reverse path. */
  method ReversePoint(text1: string, text2: string, v: array<int>, off: int, d: int, k: int,
                      ghost v0: seq<int>, ghost start0: int, ghost end0: int, ghost s: Shape, ghost start: int,
                      ghost end: int, ghost t: Shape)
    returns (x: int, y: int)
    requires Trimmed(text1, text2) && k <= d - end
    requires Midway(v0, v[..], off, |text1|, |text2|, d, start0, end0, s, k, start, end, t)
    ensures y == x - k && Result(v0, off, |text1|, |text2|, d, k, x)
    ensures Slid(Reversed(text1), Reversed(text2), k, Chosen(v0, off, d, k), x)
  {
    hide Midway, Reach, Seen, Result, Slid;
    ghost var n, m := |text1|, |text2|;
    MidTurn(v0, v[..], off, n, m, d, start0, end0, s, k, start, end, t);
    ChosenSeen(v0, off, n, m, d, start0, end0, s, k);
    var o := off + k;
    var x0 := if k == -d || (k != d && v[o - 1] < v[o + 1]) then v[o + 1] else v[o - 1] + 1;
    x, y := ReverseSnake(text1, text2, x0, x0 - k);
    SnakeResult(v0, off, n, m, d, k, x0, x);
  }

  /** A point of the grid that is neither the beginning nor the end of both texts. */
  predicate Inside(n: int, m: int, x: int, y: int) {
    0 <= x <= n && 0 <= y <= m && 0 < x + y < n + m
  }

  lemma UnmetStart(va: seq<int>, vb: seq<int>, off: int, n: int, m: int, d: int, first: int, a: Shape)
    ensures Unmet(va, vb, off, n, m, d, first, first, a)
  {
  }

  lemma UnmetStep(va: seq<int>, vb: seq<int>, off: int, n: int, m: int, d: int, first: int, k: int, a: Shape, x: int)
    requires Unmet(va, vb, off, n, m, d, first, k, a) && 0 <= off + k < |vb| && first <= k && SameParity(k, d)
    requires x <= n && x - k <= m && a.lo <= n - m - k <= a.hi && 0 <= off + (n - m - k) < |va| ==> va[off + (n - m - k)] < n - x
    ensures Unmet(va, vb[off + k := x], off, n, m, d, first, k + 2, a)
  {
    var w := vb[off + k := x];
    forall p | 0 <= p < |w| && Visited(off, d, first, k + 2, p) && w[p] <= n && w[p] - (p - off) <= m
               && a.lo <= n - m - (p - off) <= a.hi && 0 <= off + (n - m - (p - off)) < |va|
      ensures va[off + (n - m - (p - off))] < n - w[p]
    {
      VisitedNext(off, d, first, k, p);
    }
  }

  /** A meeting found on the front path is inside the grid. */
  lemma FoundFront(v2: seq<int>, off: int, n: int, m: int, d: int, s: Shape, s2: Shape, k: int, x: int)
    requires n >= 2 && m >= 2 && d >= 0 && SameParity(k, d) && Point(n, m, d, s, k, x) && x <= n && x - k <= m
    requires Seen(v2, off, d, s2) && 0 <= off + (n - m - k) < |v2| && x >= n - v2[off + (n - m - k)]
    requires v2[off + (n - m - k)] != -1 && (d == 0 ==> k == 0)
    ensures Inside(n, m, x, x - k)
  {
  }

  /** Before round d of the front path: what both paths are worth, how far the texts are apart at least, and
      that the reverse path is in the grid where the front path will look for it. */
  ghost predicate Measured(a: string, b: string, v1: seq<int>, v2: seq<int>, off: int, d: int, s1: Shape, s2: Shape) {
    && Seen(v1, off, d, s1) && Ways(a, b, v1, off, d, s1)
    && Seen(v2, off, d, s2) && Ways(Reversed(a), Reversed(b), v2, off, d, s2)
    && AtLeast(a, b, d) && ((|a| - |b|) % 2 != 0 ==> Inwards(v2, off, |a|, |b|, s2, s1))
  }

  /** Before the reverse path's round. */
  ghost predicate HalfMeasured(a: string, b: string, v1: seq<int>, v2: seq<int>, off: int, d: int, e1: Shape, s2: Shape) {
    && Seen(v1, off, d + 1, e1) && Ways(a, b, v1, off, d + 1, e1)
    && Seen(v2, off, d, s2) && Ways(Reversed(a), Reversed(b), v2, off, d, s2) && AtLeast(a, b, d)
  }

  lemma FrontMeets(a: string, b: string, v0: seq<int>, v2: seq<int>, off: int, d: int, start: int, end: int,
                   s: Shape, s2: Shape,
                   k: int, x: int)
    requires Turn(v0, off, |a|, |b|, d, start, end, s, k) && -d <= k <= d && Slid(a, b, k, Chosen(v0, off, d, k), x)
    requires Measured(a, b, v0, v2, off, d, s, s2) && InGrid(a, b, x, x - k) && (|a| - |b|) % 2 != 0
    requires 0 <= off + (|a| - |b| - k) < |v2| && v2[off + (|a| - |b| - k)] != -1
    requires x >= |a| - v2[off + (|a| - |b| - k)]
    requires d == 0 ==> x == 0
    ensures OnShortest(a, b, x, x - k)
  {
    hide Turn, Slid, Chosen, InGrid, Complete, Sound, Inwards, AtLeast, OnShortest, Seen;
    MetFront(a, b, v0, v2, off, d, start, end, s, s2, k, x);
  }

  lemma ReverseMeets(a: string, b: string, v1: seq<int>, v0: seq<int>, off: int, d: int, starta: int, enda: int,
                     e1: Shape,
                     start: int, end: int, s: Shape, k: int, x: int)
    requires Turn(v0, off, |a|, |b|, d, start, end, s, k) && -d <= k <= d
    requires Slid(Reversed(a), Reversed(b), k, Chosen(v0, off, d, k), x) && InGrid(a, b, x, x - k)
    requires HalfMeasured(a, b, v1, v0, off, d, e1, s) && (|a| - |b|) % 2 == 0
    requires Reach(v1, off, |a|, |b|, d + 1, starta, enda, e1) && SameParity(k, d) && d >= 0 && (d == 0 ==> x == 0)
    requires 0 <= off + (|a| - |b| - k) < |v1| && v1[off + (|a| - |b| - k)] != -1
    requires v1[off + (|a| - |b| - k)] >= |a| - x
    requires InGrid(a, b, v1[off + (|a| - |b| - k)], v1[off + (|a| - |b| - k)] - (|a| - |b| - k))
    ensures OnShortest(a, b, v1[off + (|a| - |b| - k)], v1[off + (|a| - |b| - k)] - (|a| - |b| - k))
  {
    hide Turn, Slid, Chosen, InGrid, Complete, Sound, AtLeast, OnShortest, Seen, Reach;
    if d == 0 {
      EvenDiagonal(|a| - |b|, k, d);
    }
    SeenThere(v1, off, |a|, |b|, d, starta, enda, e1, |a| - |b| - k);
    MetReverse(a, b, v1, v0, off, d, e1, start, end, s, k, x);
  }

  lemma MeasuredFront(a: string, b: string, v1: seq<int>, v2: seq<int>, off: int, d: int, s1: Shape, s2: Shape)
    requires Measured(a, b, v1, v2, off, d, s1, s2)
    ensures Seen(v1, off, d, s1) && Ways(a, b, v1, off, d, s1)
  {
    hide Seen, Ways;
  }

  lemma MeasuredReverse(a: string, b: string, v1: seq<int>, v2: seq<int>, off: int, d: int, e1: Shape, s2: Shape)
    requires HalfMeasured(a, b, v1, v2, off, d, e1, s2)
    ensures Seen(v2, off, d, s2) && Ways(Reversed(a), Reversed(b), v2, off, d, s2)
  {
    hide Seen, Ways;
  }

  lemma ReachRange(v: seq<int>, off: int, n: int, m: int, d: int, start: int, end: int, s: Shape)
    requires Reach(v, off, n, m, d, start, end, s)
    ensures off >= 2 && |v| == 2 * off && d >= 0 && -d <= start - d
  {
  }

  lemma EvenDiagonal(delta: int, k: int, d: int)
    requires delta % 2 == 0 && SameParity(k, d) && d == 0
    ensures delta - k != 1
  {
  }

  /** The path noted on diagonal k, and the bounds that follow. */
  method Note(v: array<int>, x: int, k: int, start0: int, end0: int, n: int, m: int, off: int, d: int,
              ghost v0: seq<int>, ghost startr: int, ghost endr: int, ghost s: Shape, ghost t0: Shape)
    returns (start: int, end: int, ghost t: Shape)
    requires Midway(v0, v[..], off, n, m, d, startr, endr, s, k, start0, end0, t0) && k <= d - end0
    requires Result(v0, off, n, m, d, k, x)
    modifies v
    ensures Midway(v0, v[..], off, n, m, d, startr, endr, s, k + 2, start, end, t)
    ensures -d <= k <= d < off && v.Length == 2 * off && v[..] == old(v[..])[off + k := x] && Point(n, m, d, s, k, x)
    ensures startr - d <= k && SameParity(k, d) && n >= 2 && m >= 2 && end >= end0
  {
    hide Midway, Results, MidRight, MidBottom, Reach, Seen, RightEdge, BottomEdge;
    MidTurn(v0, v[..], off, n, m, d, startr, endr, s, k, start0, end0, t0);
    ResultPoint(v0, off, n, m, d, startr, endr, s, k, x);
    MidStep(v0, v[..], off, n, m, d, startr, endr, s, k, start0, end0, t0, x);
    ghost var now := v[..];
    v[off + k] := x;
    assert v[..] == now[off + k := x];
    start, end, t := start0, end0, Noted(t0, k, x, n, m);
    if x > n {
      end := end + 2;
    } else if x - k > m {
      start := start + 2;
    }
  }

  /** Every diagonal of a round of the front path is extended as far as its snake reaches. */
  method WalkFront(text1: string, text2: string, v1: array<int>, v2: array<int>, off: int, d: int, start0: int,
                   end0: int,
                   ghost s: Shape, ghost s2: Shape)
    returns (found: bool, x1: int, y1: int, start: int, end: int, ghost e: Shape, ghost k: int)
    requires v1 != v2 && Trimmed(text1, text2) && d < off && Clear(|text1|, |text2|, s)
    requires Reach(v1[..], off, |text1|, |text2|, d, start0, end0, s) && Seen(v2[..], off, d, s2)
    requires Measured(text1, text2, v1[..], v2[..], off, d, s, s2)
    modifies v1
    ensures found ==> Inside(|text1|, |text2|, x1, y1) && OnShortest(text1, text2, x1, y1)
    ensures !found ==> Seen(v1[..], off, d + 1, e) && Ways(text1, text2, v1[..], off, d + 1, e)
    ensures !found ==> Covered(text1, text2, v1[..], off, d, e, start0 - d, k)
    ensures !found ==> Reach(v1[..], off, |text1|, |text2|, d + 1, start, end, e)
    ensures !found ==> Walked(v1[..], off, |text1|, |text2|, d, s, e, start0 - d, k)
    ensures !found && (|text1| - |text2|) % 2 != 0 ==>
              Unmet(v2[..], v1[..], off, |text1|, |text2|, d, start0 - d, k, s2)
  {
    hide Midway, Reach, Seen, Unmet, Walked, Measured, Ways, Covered, Extended;
    ghost var n, m, v0 := |text1|, |text2|, v1[..];
    found, x1, y1 := false, 0, 0;
    start, end := start0, end0;
    var k1 := -d + start;
    ghost var t := NONE;
    MidStart(v0, off, n, m, d, start0, end0, s);
    ReachRange(v0, off, n, m, d, start0, end0, s);
    ExtendedStart(text1, text2, v0, off, d, start0 - d);
    UnmetStart(v2[..], v0, off, n, m, d, start0 - d, s2);
    while k1 <= d - end
      invariant Midway(v0, v1[..], off, n, m, d, start0, end0, s, k1, start, end, t)
      invariant (n - m) % 2 != 0 ==> Unmet(v2[..], v1[..], off, n, m, d, start0 - d, k1, s2)
      invariant Extended(text1, text2, v0, v1[..], off, d, start0 - d, k1)
      decreases d - end - k1
    {
      found, x1, y1, start, end, t := FrontTurn(text1, text2, v1, v2, off, d, k1, start, end, s2, v0, start0, end0, s, t);
      if found {
        e, k := s, k1;
        return;
      }
      k1 := k1 + 2;
    }
    EndReach(v0, v1[..], off, n, m, d, start0, end0, s, k1, start, end, t);
    MeasuredFront(text1, text2, v0, v2[..], off, d, s, s2);
    EndWays(text1, text2, v0, v1[..], off, d, start0, end0, s, k1, start, end, t);
    EndWalked(v0, v1[..], off, n, m, d, start0, end0, s, k1, start, end, t);
    e, k := Ended(s, t, start0 - d, k1), k1;
  }

  /** One diagonal of the front path; when the paths can only meet here, the reverse path is compared. */
  method FrontTurn(text1: string, text2: string, v1: array<int>, v2: array<int>, off: int, d: int, k1: int,
                   start0: int, end0: int, ghost s2: Shape,
                   ghost v0: seq<int>, ghost startr: int, ghost endr: int, ghost s: Shape, ghost t0: Shape)
    returns (found: bool, x1: int, y1: int, start: int, end: int, ghost t: Shape)
    requires v1 != v2 && Trimmed(text1, text2) && k1 <= d - end0 && Seen(v2[..], off, d, s2)
    requires Midway(v0, v1[..], off, |text1|, |text2|, d, startr, endr, s, k1, start0, end0, t0)
    requires (|text1| - |text2|) % 2 != 0 ==> Unmet(v2[..], v1[..], off, |text1|, |text2|, d, startr - d, k1, s2)
    requires Measured(text1, text2, v0, v2[..], off, d, s, s2)
    requires Extended(text1, text2, v0, v1[..], off, d, startr - d, k1)
    modifies v1
    ensures found ==> Inside(|text1|, |text2|, x1, y1) && OnShortest(text1, text2, x1, y1)
    ensures !found ==> Extended(text1, text2, v0, v1[..], off, d, startr - d, k1 + 2)
    ensures !found ==> Midway(v0, v1[..], off, |text1|, |text2|, d, startr, endr, s, k1 + 2, start, end, t) && end >= end0
    ensures !found && (|text1| - |text2|) % 2 != 0 ==>
              Unmet(v2[..], v1[..], off, |text1|, |text2|, d, startr - d, k1 + 2, s2)
  {
    hide Midway, Reach, Seen, Unmet, Measured, Extended, Slid, OnShortest;
    ghost var now := v1[..];
    var delta := |text1| - |text2|;
    var front := delta % 2 != 0;
    found := false;
    MidTurn(v0, now, off, |text1|, |text2|, d, startr, endr, s, k1, start0, end0, t0);
    x1, y1 := FrontPoint(text1, text2, v1, off, d, k1, v0, startr, endr, s, start0, end0, t0);
    start, end, t := Note(v1, x1, k1, start0, end0, |text1|, |text2|, off, d, v0, startr, endr, s, t0);
    if x1 <= |text1| && y1 <= |text2| && front {
      var o2 := off + delta - k1;
      if o2 >= 0 && o2 < v2.Length && v2[o2] != -1 {
        var x2 := |text1| - v2[o2];
        if x1 >= x2 {
          FrontMeets(text1, text2, v0, v2[..], off, d, startr, endr, s, s2, k1, x1);
          FoundFront(v2[..], off, |text1|, |text2|, d, s, s2, k1, x1);
          found := true;
          return;
        }
      }
    }
    ExtendedStep(text1, text2, v0, now, off, d, startr - d, k1, x1);
    if front {
      UnmetStep(v2[..], now, off, |text1|, |text2|, d, startr - d, k1, s2, x1);
    }
  }

  /** A meeting found on the reverse path is inside the grid. */
  lemma FoundReverse(v1: seq<int>, off: int, n: int, m: int, d: int, starta: int, enda: int, s1: Shape, e1: Shape,
                     first1: int, k1: int,
                     s2: Shape, k: int, x: int)
    requires Reach(v1, off, n, m, d + 1, starta, enda, e1) && Walked(v1, off, n, m, d, s1, e1, first1, k1)
    requires Apart(n - m, s1, s2) && s2.lo - 1 <= k <= s2.hi + 1 && d >= 0 && SameParity(k, d) && SameParity(n - m, 0)
    requires x <= n && (d == 0 ==> x == 0) && 0 <= off + (n - m - k) < |v1| && v1[off + (n - m - k)] != -1
    requires v1[off + (n - m - k)] >= n - x
    ensures Inside(n, m, v1[off + (n - m - k)], v1[off + (n - m - k)] - (n - m - k))
  {
    hide Midway, RightEdge, BottomEdge;
    ReachEdges(v1, off, n, m, d, starta, enda, e1);
    SeenThere(v1, off, n, m, d, starta, enda, e1, n - m - k);
    MeetsInside(v1, off, n, m, d, s1, e1, first1, k1, s2, k);
    NotCorner(v1, off, n, m, d, starta, enda, e1);
    if k == n - m {
      EvenRound(n - m, d);
    }
  }

  lemma EvenRound(delta: int, d: int)
    requires SameParity(delta, d) && SameParity(delta, 0)
    ensures d % 2 == 0
  {
    assert d == delta - (delta - d);
  }

  lemma SeenThere(v: seq<int>, off: int, n: int, m: int, d: int, start: int, end: int, s: Shape, c: int)
    requires Reach(v, off, n, m, d + 1, start, end, s) && 0 <= off + c < |v| && v[off + c] != -1 && d >= 0 && (d == 0 ==> c != 1)
    ensures s.lo <= c <= s.hi
  {
  }

  lemma NotCorner(v: seq<int>, off: int, n: int, m: int, d: int, start: int, end: int, s: Shape)
    requires Reach(v, off, n, m, d + 1, start, end, s)
    ensures 0 <= off + (n - m) < |v| && s.lo <= n - m <= s.hi ==> v[off + (n - m)] < n
    ensures d >= 2 ==> v[off] >= 1
  {
  }

  /** One diagonal of the reverse path; when the paths can only meet here, the front path is compared. */
  method ReverseTurn(text1: string, text2: string, v1: array<int>, v2: array<int>, off: int, d: int, k2: int,
                     start0: int, end0: int, ghost starta: int, ghost enda: int, ghost s1: Shape, ghost e1: Shape,
                     ghost first1: int, ghost k1: int,
                     ghost v0: seq<int>, ghost startr: int, ghost endr: int, ghost s: Shape, ghost t0: Shape)
    returns (found: bool, x1: int, y1: int, start: int, end: int, ghost t: Shape)
    requires v1 != v2 && Trimmed(text1, text2) && k2 <= d - end0
    requires Reach(v1[..], off, |text1|, |text2|, d + 1, starta, enda, e1)
    requires (|text1| - |text2|) % 2 == 0 ==>
               Walked(v1[..], off, |text1|, |text2|, d, s1, e1, first1, k1) && Apart(|text1| - |text2|, s1, s)
    requires Midway(v0, v2[..], off, |text1|, |text2|, d, startr, endr, s, k2, start0, end0, t0)
    requires (|text1| - |text2|) % 2 == 0 ==> Unmet(v1[..], v2[..], off, |text1|, |text2|, d, startr - d, k2, e1)
    requires HalfMeasured(text1, text2, v1[..], v0, off, d, e1, s)
    requires Extended(Reversed(text1), Reversed(text2), v0, v2[..], off, d, startr - d, k2)
    modifies v2
    ensures found ==> Inside(|text1|, |text2|, x1, y1) && OnShortest(text1, text2, x1, y1)
    ensures !found ==> Extended(Reversed(text1), Reversed(text2), v0, v2[..], off, d, startr - d, k2 + 2)
    ensures !found ==> Midway(v0, v2[..], off, |text1|, |text2|, d, startr, endr, s, k2 + 2, start, end, t) && end >= end0
    ensures !found && (|text1| - |text2|) % 2 == 0 ==>
              Unmet(v1[..], v2[..], off, |text1|, |text2|, d, startr - d, k2 + 2, e1)
  {
    hide Midway, Reach, Seen, Unmet, Walked, Apart, HalfMeasured, Extended, Slid, OnShortest;
    ghost var now := v2[..];
    var delta := |text1| - |text2|;
    var front := delta % 2 != 0;
    found, x1, y1 := false, 0, 0;
    MidTurn(v0, now, off, |text1|, |text2|, d, startr, endr, s, k2, start0, end0, t0);
    ChosenSeen(v0, off, |text1|, |text2|, d, startr, endr, s, k2);
    var x2, y2 := ReversePoint(text1, text2, v2, off, d, k2, v0, startr, endr, s, start0, end0, t0);
    start, end, t := Note(v2, x2, k2, start0, end0, |text1|, |text2|, off, d, v0, startr, endr, s, t0);
    if x2 <= |text1| && y2 <= |text2| && !front {
      var o1 := off + delta - k2;
      if o1 >= 0 && o1 < v1.Length && v1[o1] != -1 {
        x1 := v1[o1];
        y1 := off + x1 - o1;
        if x1 >= |text1| - x2 {
          FoundReverse(v1[..], off, |text1|, |text2|, d, starta, enda, s1, e1, first1, k1, s, k2, x2);
          ReverseMeets(text1, text2, v1[..], v0, off, d, starta, enda, e1, startr, endr, s, k2, x2);
          found := true;
          return;
        }
      }
    }
    ExtendedStep(Reversed(text1), Reversed(text2), v0, now, off, d, startr - d, k2, x2);
    if !front {
      UnmetStep(v1[..], now, off, |text1|, |text2|, d, startr - d, k2, e1, x2);
    }
  }

  /** The same for a round of the reverse path. */
  method WalkReverse(text1: string, text2: string, v1: array<int>, v2: array<int>, off: int, d: int, start0: int,
                     end0: int,
                     ghost s: Shape, ghost starta: int, ghost enda: int, ghost s1: Shape, ghost e1: Shape,
                     ghost first1: int, ghost k1: int)
    returns (found: bool, x1: int, y1: int, start: int, end: int, ghost e: Shape, ghost k: int)
    requires v1 != v2 && Trimmed(text1, text2) && d < off && Clear(|text1|, |text2|, s)
    requires Reach(v2[..], off, |text1|, |text2|, d, start0, end0, s)
    requires Reach(v1[..], off, |text1|, |text2|, d + 1, starta, enda, e1)
    requires (|text1| - |text2|) % 2 == 0 ==>
               Walked(v1[..], off, |text1|, |text2|, d, s1, e1, first1, k1) && Apart(|text1| - |text2|, s1, s)
    requires HalfMeasured(text1, text2, v1[..], v2[..], off, d, e1, s)
    modifies v2
    ensures found ==> Inside(|text1|, |text2|, x1, y1) && OnShortest(text1, text2, x1, y1)
    ensures !found ==> Seen(v2[..], off, d + 1, e) && Ways(Reversed(text1), Reversed(text2), v2[..], off, d + 1, e)
    ensures !found ==> Covered(Reversed(text1), Reversed(text2), v2[..], off, d, e, start0 - d, k)
    ensures !found ==> Reach(v2[..], off, |text1|, |text2|, d + 1, start, end, e)
    ensures !found ==> Walked(v2[..], off, |text1|, |text2|, d, s, e, start0 - d, k)
    ensures !found && (|text1| - |text2|) % 2 == 0 ==>
              Unmet(v1[..], v2[..], off, |text1|, |text2|, d, start0 - d, k, e1)
  {
    hide Midway, Reach, Seen, Unmet, Walked, Apart, HalfMeasured, Ways, Covered, Extended;
    ghost var n, m, v0 := |text1|, |text2|, v2[..];
    found, x1, y1 := false, 0, 0;
    start, end := start0, end0;
    var k2 := -d + start;
    ghost var t := NONE;
    MidStart(v0, off, n, m, d, start0, end0, s);
    ReachRange(v0, off, n, m, d, start0, end0, s);
    ExtendedStart(Reversed(text1), Reversed(text2), v0, off, d, start0 - d);
    UnmetStart(v1[..], v0, off, n, m, d, start0 - d, e1);
    while k2 <= d - end
      invariant Midway(v0, v2[..], off, n, m, d, start0, end0, s, k2, start, end, t)
      invariant (n - m) % 2 == 0 ==> Unmet(v1[..], v2[..], off, n, m, d, start0 - d, k2, e1)
      invariant Extended(Reversed(text1), Reversed(text2), v0, v2[..], off, d, start0 - d, k2)
      decreases d - end - k2
    {
      found, x1, y1, start, end, t :=
        ReverseTurn(text1, text2, v1, v2, off, d, k2, start, end, starta, enda, s1, e1, first1, k1, v0, start0, end0, s, t);
      if found {
        e, k := s, k2;
        return;
      }
      k2 := k2 + 2;
    }
    EndReach(v0, v2[..], off, n, m, d, start0, end0, s, k2, start, end, t);
    MeasuredReverse(text1, text2, v1[..], v0, off, d, e1, s);
    EndWays(Reversed(text1), Reversed(text2), v0, v2[..], off, d, start0, end0, s, k2, start, end, t);
    EndWalked(v0, v2[..], off, n, m, d, start0, end0, s, k2, start, end, t);
    e, k := Ended(s, t, start0 - d, k2), k2;
  }

  /** Before round d: both paths, and that they have not met. When they can only meet on the front path, the
      last round of the reverse path has not been compared yet. */
  ghost predicate Searching(v1: seq<int>, v2: seq<int>, off: int, n: int, m: int, d: int, start1: int, end1: int,
                            s1: Shape,
                            start2: int, end2: int, s2: Shape) {
    && Reach(v1, off, n, m, d, start1, end1, s1) && Reach(v2, off, n, m, d, start2, end2, s2) && Clear(n, m, s1)
    && if (n - m) % 2 == 0 then Apart(n - m, s1, s2) && Clear(n, m, s2) else Behind(n - m, s2, s1) && (d == 0 ==> s2 == START)
  }

  /** The front path's round, when it is the reverse path that is compared. */
  lemma EvenFront(v1: seq<int>, v2: seq<int>, off: int, n: int, m: int, d: int, s1: Shape, e1: Shape, first: int,
                  k: int,
                  start2: int, end2: int, s2: Shape)
    requires Walked(v1, off, n, m, d, s1, e1, first, k) && Apart(n - m, s1, s2) && (n - m) % 2 == 0
    requires Reach(v2, off, n, m, d, start2, end2, s2)
    ensures Behind(n - m, e1, s2)
  {
    hide Reach, Walked, Behind;
    ReachSeen(v2, off, n, m, d, start2, end2, s2);
    StaysBehind(v1, off, n, m, d, s1, e1, first, k, s2, d);
  }

  lemma EvenRoundOver(v1: seq<int>, v2: seq<int>, off: int, n: int, m: int, d: int, start1: int, end1: int, e1: Shape,
                      start2: int, end2: int, s2: Shape, e2: Shape, first: int, k: int)
    requires Reach(v1, off, n, m, d + 1, start1, end1, e1) && Reach(v2, off, n, m, d + 1, start2, end2, e2) && d >= 0
    requires Walked(v2, off, n, m, d, s2, e2, first, k) && Behind(n - m, e1, s2) && (n - m) % 2 == 0
    requires Unmet(v1, v2, off, n, m, d, first, k, e1)
    ensures Apart(n - m, e1, e2) && Clear(n, m, e1) && Clear(n, m, e2)
  {
    hide Reach, Walked, Behind, Seen, Unmet, Edges;
    ReachSeen(v1, off, n, m, d + 1, start1, end1, e1);
    ReachSeen(v2, off, n, m, d + 1, start2, end2, e2);
    StillApart(v1, v2, off, n, m, d, e1, d, s2, e2, first, k);
    ApartTurns(n - m, e1, e2);
    ApartClear(n, m, e1, d, e2);
    ApartClear(n, m, e2, d, e1);
  }

  lemma ApartTurns(delta: int, a: Shape, b: Shape)
    requires Apart(delta, a, b)
    ensures Apart(delta, b, a) && Behind(delta, a, b)
  {
  }

  /** The front path's round, when it is compared with the reverse path's round before it. */
  lemma OddFront(v1: seq<int>, v2: seq<int>, off: int, n: int, m: int, d: int, start1: int, end1: int, s1: Shape,
                 e1: Shape,
                 first: int, k: int, start2: int, end2: int, s2: Shape)
    requires Reach(v1, off, n, m, d + 1, start1, end1, e1) && Reach(v2, off, n, m, d, start2, end2, s2) && d >= 0
    requires Walked(v1, off, n, m, d, s1, e1, first, k) && Behind(n - m, s2, s1) && (n - m) % 2 != 0
    requires Unmet(v2, v1, off, n, m, d, first, k, s2)
    ensures Behind(n - m, s2, e1) && Clear(n, m, e1) && Clear(n, m, s2) && Apart(n - m, s2, e1)
  {
    hide Reach, Walked, Behind, Seen, Unmet, Edges, Apart;
    ReachSeen(v1, off, n, m, d + 1, start1, end1, e1);
    ReachSeen(v2, off, n, m, d, start2, end2, s2);
    StillApart(v2, v1, off, n, m, d - 1, s2, d, s1, e1, first, k);
    ApartTurns(n - m, s2, e1);
    ApartClear(n, m, s2, d, e1);
    AheadClear(n, m, e1, d, s2);
  }

  /** The reverse path's round, when it is compared only in the next one. */
  lemma OddRoundOver(v1: seq<int>, v2: seq<int>, off: int, n: int, m: int, d: int, start1: int, end1: int, e1: Shape,
                     s2: Shape, e2: Shape, first: int, k: int)
    requires Reach(v1, off, n, m, d + 1, start1, end1, e1)
    requires Walked(v2, off, n, m, d, s2, e2, first, k) && Behind(n - m, s2, e1) && (n - m) % 2 != 0
    ensures Behind(n - m, e2, e1)
  {
    hide Reach, Walked, Behind;
    ReachSeen(v1, off, n, m, d + 1, start1, end1, e1);
    StaysBehind(v2, off, n, m, d, s2, e2, first, k, e1, d + 1);
  }

  /** A round in which the paths have not met. */
  lemma FrontRoundMeasured(a: string, b: string, v0: seq<int>, v1: seq<int>, v2: seq<int>, off: int, d: int, s1: Shape,
                           start1: int, end1: int, e1: Shape, first: int, k: int, start2: int, end2: int, s2: Shape)
    requires Measured(a, b, v0, v2, off, d, s1, s2) && d >= 0
    requires Reach(v1, off, |a|, |b|, d + 1, start1, end1, e1) && Ways(a, b, v1, off, d + 1, e1)
    requires Covered(a, b, v1, off, d, e1, first, k) && Reach(v2, off, |a|, |b|, d, start2, end2, s2)
    requires (|a| - |b|) % 2 != 0 ==> Unmet(v2, v1, off, |a|, |b|, d, first, k, s2)
    ensures HalfMeasured(a, b, v1, v2, off, d, e1, s2) && ((|a| - |b|) % 2 != 0 ==> AtLeast(a, b, d + 1))
  {
    hide Reach, Seen, Ways, AtLeast, Inwards, Covered, Unmet;
    ReachSeen(v1, off, |a|, |b|, d + 1, start1, end1, e1);
    if (|a| - |b|) % 2 != 0 {
      NotMetOdd(a, b, v1, v2, off, d, start1, end1, e1, first, k, start2, end2, s2);
    }
  }

  lemma RoundMeasured(a: string, b: string, v1: seq<int>, v0: seq<int>, v2: seq<int>, off: int, d: int,
                      start1: int, end1: int, e1: Shape, s2: Shape, start2: int, end2: int, e2: Shape, first: int,
                      k: int)
    requires HalfMeasured(a, b, v1, v0, off, d, e1, s2) && d >= 0
    requires Reach(v1, off, |a|, |b|, d + 1, start1, end1, e1)
    requires Reach(v2, off, |a|, |b|, d + 1, start2, end2, e2) && Ways(Reversed(a), Reversed(b), v2, off, d + 1, e2)
    requires Covered(Reversed(a), Reversed(b), v2, off, d, e2, first, k)
    requires if (|a| - |b|) % 2 == 0 then Unmet(v1, v2, off, |a|, |b|, d, first, k, e1)
             else AtLeast(a, b, d + 1) && Inwards(v2, off, |a|, |b|, e2, e1)
    ensures Measured(a, b, v1, v2, off, d + 1, e1, e2)
  {
    hide Reach, Seen, Ways, AtLeast, Inwards, Covered, Unmet;
    ReachSeen(v2, off, |a|, |b|, d + 1, start2, end2, e2);
    if (|a| - |b|) % 2 == 0 {
      NotMetEven(a, b, v1, v2, off, d, start1, end1, e1, start2, end2, e2, first, k);
    }
  }

  lemma OddInwards(v2: seq<int>, off: int, n: int, m: int, d: int, s2: Shape, start: int, end: int, e2: Shape,
                   first: int, k2: int, e1: Shape)
    requires Walked(v2, off, n, m, d, s2, e2, first, k2) && Reach(v2, off, n, m, d + 1, start, end, e2)
    requires Apart(n - m, s2, e1)
    ensures Inwards(v2, off, n, m, e2, e1)
  {
    hide Walked, Reach, Apart, Inwards, Positive;
    ReachSeen(v2, off, n, m, d + 1, start, end, e2);
    AllInwards(v2, off, n, m, d, s2, e2, first, k2, e1);
  }

  lemma StartMeasured(a: string, b: string, v1: seq<int>, v2: seq<int>, off: int)
    requires Seen(v1, off, 0, START) && Seen(v2, off, 0, START)
    ensures Measured(a, b, v1, v2, off, 0, START, START)
  {
    hide Distance, Ways;
    StartWays(a, b, v1, off);
    StartWays(Reversed(a), Reversed(b), v2, off);
  }

  /** The main loop of diff_bisect; timed says that there is a deadline, which may strike at any round. When
      a meeting is found it is inside the grid, and a shortest way leads through it; when none is found
      without a deadline, the shortest way is to replace the whole text. */
  method Search(text1: string, text2: string, timed: bool) returns (found: bool, x: int, y: int)
    requires Trimmed(text1, text2)
    ensures found ==> Inside(|text1|, |text2|, x, y) && OnShortest(text1, text2, x, y)
    ensures !found && !timed ==> Distance(text1, text2) == |text1| + |text2|
  {
    hide Measured, Distance, OnShortest;
    var maxD := (|text1| + |text2| + 1) / 2;
    var v1, v2 := new int[2 * maxD](_ => -1), new int[2 * maxD](_ => -1);
    v1[maxD + 1] := 0;
    v2[maxD + 1] := 0;
    StartReach(v1[..], maxD, |text1|, |text2|);
    StartReach(v2[..], maxD, |text1|, |text2|);
    StartSearching(v1[..], v2[..], maxD, |text1|, |text2|);
    StartMeasured(text1, text2, v1[..], v2[..], maxD);
    found, x, y := SearchFrom(text1, text2, v1, v2, maxD, timed);
  }

  lemma StartSearching(v1: seq<int>, v2: seq<int>, off: int, n: int, m: int)
    requires Reach(v1, off, n, m, 0, 0, 0, START) && Reach(v2, off, n, m, 0, 0, 0, START)
    ensures Searching(v1, v2, off, n, m, 0, 0, 0, START, 0, 0, START)
  {
  }

  /** After all rounds no character is left that both texts could keep. */
  lemma NothingKept(a: string, b: string, v1: seq<int>, v2: seq<int>, off: int, d: int, s1: Shape, s2: Shape)
    requires Measured(a, b, v1, v2, off, d, s1, s2) && d >= (|a| + |b| + 1) / 2
    ensures Distance(a, b) == |a| + |b|
  {
    hide Seen, Ways, Inwards, To;
    EditDistances.Between(a, b, |a|, |b|);
  }

  method SearchFrom(text1: string, text2: string, v1: array<int>, v2: array<int>, maxD: int, timed: bool)
    returns (found: bool, x: int, y: int)
    requires v1 != v2 && Trimmed(text1, text2) && maxD == (|text1| + |text2| + 1) / 2
    requires Searching(v1[..], v2[..], maxD, |text1|, |text2|, 0, 0, 0, START, 0, 0, START) && maxD >= 0
    requires Measured(text1, text2, v1[..], v2[..], maxD, 0, START, START)
    modifies v1, v2
    ensures found ==> Inside(|text1|, |text2|, x, y) && OnShortest(text1, text2, x, y)
    ensures !found && !timed ==> Distance(text1, text2) == |text1| + |text2|
  {
    hide Reach, Seen, Apart, Behind, Clear, Measured, Searching, Distance, OnShortest;
    var start1, end1, start2, end2 := 0, 0, 0, 0;
    ghost var s1, s2 := START, START;
    found, x, y := false, 0, 0;
    var d := 0;
    while d < maxD
      invariant 0 <= d <= maxD && !found
      invariant Searching(v1[..], v2[..], maxD, |text1|, |text2|, d, start1, end1, s1, start2, end2, s2)
      invariant Measured(text1, text2, v1[..], v2[..], maxD, d, s1, s2)
    {
      var late := false;
      if timed {
        late := *;
      }
      if late {
        return;
      }
      found, x, y, start1, end1, s1, start2, end2, s2 :=
        OneRound(text1, text2, v1, v2, maxD, d, start1, end1, s1, start2, end2, s2);
      if found {
        return;
      }
      d := d + 1;
    }
    NothingKept(text1, text2, v1[..], v2[..], maxD, d, s1, s2);
  }

  /** One round of both paths. */
  method OneRound(text1: string, text2: string, v1: array<int>, v2: array<int>, off: int, d: int,
                  start10: int, end10: int, ghost s10: Shape, start20: int, end20: int, ghost s20: Shape)
    returns (found: bool, x: int, y: int, start1: int, end1: int, ghost s1: Shape, start2: int, end2: int, ghost s2: Shape)
    requires v1 != v2 && Trimmed(text1, text2) && 0 <= d < off
    requires Searching(v1[..], v2[..], off, |text1|, |text2|, d, start10, end10, s10, start20, end20, s20)
    requires Measured(text1, text2, v1[..], v2[..], off, d, s10, s20)
    modifies v1, v2
    ensures found ==> Inside(|text1|, |text2|, x, y) && OnShortest(text1, text2, x, y)
    ensures !found ==> Searching(v1[..], v2[..], off, |text1|, |text2|, d + 1, start1, end1, s1, start2, end2, s2)
    ensures !found ==> Measured(text1, text2, v1[..], v2[..], off, d + 1, s1, s2)
  {
    hide Reach, Seen, Unmet, Walked, Apart, Behind, Clear, Measured, HalfMeasured, Ways, Covered, Inwards, AtLeast, OnShortest;
    ghost var n, m, k1, k2 := |text1|, |text2|, 0, 0;
    start1, end1, start2, end2 := start10, end10, start20, end20;
    s1, s2 := s10, s20;
    ReachSeen(v2[..], off, n, m, d, start20, end20, s20);
    ghost var v0 := v1[..];
    found, x, y, start1, end1, s1, k1 := WalkFront(text1, text2, v1, v2, off, d, start10, end10, s10, s20);
    if found {
      return;
    }
    FrontRoundMeasured(text1, text2, v0, v1[..], v2[..], off, d, s10, start1, end1, s1, start10 - d, k1, start20, end20, s20);
    if (n - m) % 2 == 0 {
      EvenFront(v1[..], v2[..], off, n, m, d, s10, s1, start10 - d, k1, start20, end20, s20);
    } else {
      OddFront(v1[..], v2[..], off, n, m, d, start1, end1, s10, s1, start10 - d, k1, start20, end20, s20);
    }
    v0 := v2[..];
    found, x, y, start2, end2, s2, k2 :=
      WalkReverse(text1, text2, v1, v2, off, d, start20, end20, s20, start1, end1, s10, s1, start10 - d, k1);
    if found {
      return;
    }
    if (n - m) % 2 == 0 {
      EvenRoundOver(v1[..], v2[..], off, n, m, d, start1, end1, s1, start2, end2, s20, s2, start20 - d, k2);
    } else {
      OddRoundOver(v1[..], v2[..], off, n, m, d, start1, end1, s1, s20, s2, start20 - d, k2);
      OddInwards(v2[..], off, n, m, d, s20, start2, end2, s2, start20 - d, k2, s1);
    }
    RoundMeasured(text1, text2, v1[..], v0, v2[..], off, d, start1, end1, s1, s20, start2, end2, s2, start20 - d, k2);
  }
}
