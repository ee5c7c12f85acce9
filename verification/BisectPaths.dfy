/** The vectors of diff_bisect: where the forward and the reverse path have been, and where in the grid. */
module BisectPaths {
  import opened Strings

  /** What is known of one path after d rounds. Its diagonals are lo to hi. beta is the lowest diagonal
      not below the corner's on which the right edge is reached, and gamma the highest one not above the
      corner's on which the bottom edge is reached, if there are such. */
  datatype Shape = Shape(lo: int, hi: int, right: bool, beta: int, bottom: bool, gamma: int)

  const START: Shape := Shape(1, -1, false, 0, false, 0)

  predicate SameParity(k: int, d: int) {
    (k - d) % 2 == 0
  }

  /** v holds the furthest x on diagonal k at off + k, and -1 where the path has not been; before the
      second round there is also the zero that the search starts from. */
  ghost predicate Seen(v: seq<int>, off: int, d: int, s: Shape) {
    && off >= 2 && |v| == 2 * off && 0 <= d <= off && 1 - d <= s.lo && s.hi <= d - 1
    && (if d == 0 then s == START && v[off + 1] == 0 else s.lo <= 0 <= s.hi)
    && (d >= 2 ==> s.lo <= -1 && 1 <= s.hi) && (d >= 3 ==> v[off] >= 1)
    && (forall p :: off + s.lo <= p <= off + s.hi ==> v[p] >= 0 && v[p] >= p - off)
    && (forall p :: 0 <= p < |v| && !(off + s.lo <= p <= off + s.hi) ==> v[p] == -1 || (d <= 1 && p == off + 1 && v[p] == 0))
  }

  /** The diagonals of round d run from start - d to d - end. */
  ghost predicate Range(d: int, start: int, end: int, s: Shape) {
    && start >= 0 && end >= 0 && start % 2 == 0 && end % 2 == 0
    && s.lo - 1 <= start - d && d - end <= s.hi + 1
    && (start == 0 ==> s.lo == 1 - d) && (end == 0 ==> s.hi == d - 1)
    && (d <= 1 ==> !s.right && !s.bottom) && (d <= 2 ==> start == 0 && end == 0)
  }

  /** Beyond beta the path may have left the grid; it never gets lower than beta's point does. */
  ghost predicate RightEdge(v: seq<int>, off: int, n: int, m: int, d: int, start: int, end: int, s: Shape)
    requires Seen(v, off, d, s)
  {
    if !s.right then
      end == 0 && forall p :: off + s.lo <= p <= off + s.hi && p - off >= n - m ==> v[p] < n
    else
      && n - m < s.beta <= s.hi && s.lo <= s.beta && SameParity(s.beta, d - 1) && v[off + s.beta] == n
      && start - d <= s.beta - 1 <= d - end
      && (forall p :: off + s.lo <= p <= off + s.hi && n - m <= p - off < s.beta ==> v[p] < n)
      && (forall p :: off + s.lo <= p <= off + s.hi && p - off > s.beta ==> v[p] - (p - off) <= n - s.beta)
  }

  ghost predicate BottomEdge(v: seq<int>, off: int, n: int, m: int, d: int, start: int, end: int, s: Shape)
    requires Seen(v, off, d, s)
  {
    if !s.bottom then
      start == 0 && forall p :: off + s.lo <= p <= off + s.hi && p - off <= n - m ==> v[p] - (p - off) < m
    else
      && s.lo <= s.gamma < n - m && s.gamma <= s.hi && SameParity(s.gamma, d - 1) && v[off + s.gamma] == m + s.gamma
      && start - d <= s.gamma + 1 <= d - end
      && (forall p :: off + s.lo <= p <= off + s.hi && s.gamma < p - off <= n - m ==> v[p] - (p - off) < m)
      && (forall p :: off + s.lo <= p <= off + s.hi && p - off < s.gamma ==> v[p] <= m + s.gamma)
  }

  /** A path before round d in a grid n wide and m high. */
  ghost predicate Reach(v: seq<int>, off: int, n: int, m: int, d: int, start: int, end: int, s: Shape) {
    && n >= 2 && m >= 2 && Seen(v, off, d, s) && Range(d, start, end, s)
    && RightEdge(v, off, n, m, d, start, end, s) && BottomEdge(v, off, n, m, d, start, end, s)
  }

  /** The edges have not been reached next to the corner. */
  ghost predicate Clear(n: int, m: int, s: Shape) {
    (s.right ==> s.beta >= n - m + 2) && (s.bottom ==> s.gamma <= n - m - 2)
  }

  lemma StartReach(v: seq<int>, off: int, n: int, m: int)
    requires off >= 2 && |v| == 2 * off && n >= 2 && m >= 2
    requires forall j :: 0 <= j < |v| ==> v[j] == if j == off + 1 then 0 else -1
    ensures Reach(v, off, n, m, 0, 0, 0, START) && Clear(n, m, START)
  {
  }

  // One insertion or deletion from a neighbouring diagonal.
  function Chosen(v: seq<int>, off: int, d: int, k: int): int
    requires 0 <= d < off && off >= 2 && |v| == 2 * off && -d <= k <= d
  {
    if k == -d || (k != d && v[off + k - 1] < v[off + k + 1]) then v[off + k + 1] else v[off + k - 1] + 1
  }

  // A diagonal of the round, and what it is reached from.
  ghost predicate Turn(v: seq<int>, off: int, n: int, m: int, d: int, start: int, end: int, s: Shape, k: int) {
    && Reach(v, off, n, m, d, start, end, s) && Clear(n, m, s) && 0 <= d < off && SameParity(k, d)
    && start - d <= k <= d - end
  }

  /** The point is on the path of a neighbour that has been seen. */
  lemma ChosenSeen(v: seq<int>, off: int, n: int, m: int, d: int, start: int, end: int, s: Shape, k: int)
    requires Turn(v, off, n, m, d, start, end, s, k)
    ensures -d <= k <= d && s.lo - 1 <= k <= s.hi + 1
    ensures var x := Chosen(v, off, d, k);
            && x >= 0 && x >= k
            && (d == 0 ==> x == 0 && k == 0)
            && (d > 0 ==> || (s.lo <= k + 1 <= s.hi && x == v[off + k + 1])
                          || (s.lo <= k - 1 <= s.hi && x == v[off + k - 1] + 1))
            && (s.lo <= k + 1 <= s.hi ==> x >= v[off + k + 1])
            && (s.lo <= k - 1 <= s.hi ==> x >= v[off + k - 1] + 1)
  {
  }

  /** Outside the grid the path comes from beyond the diagonals where the edges are reached. */
  lemma OutsideBeyond(v: seq<int>, off: int, n: int, m: int, d: int, start: int, end: int, s: Shape, k: int)
    requires Turn(v, off, n, m, d, start, end, s, k)
    ensures -d <= k <= d
    ensures var x := Chosen(v, off, d, k);
            && (x > n ==> s.right && s.beta < k)
            && (x - k > m ==> s.bottom && k < s.gamma)
            && (k <= n - m ==> x <= n) && (k >= n - m ==> x - k <= m) && (k == n - m ==> x < n)
  {
    ChosenSeen(v, off, n, m, d, start, end, s, k);
  }

  /** The edges are reached one diagonal further in. */
  lemma EdgesMove(v: seq<int>, off: int, n: int, m: int, d: int, start: int, end: int, s: Shape, k: int)
    requires Turn(v, off, n, m, d, start, end, s, k)
    ensures -d <= k <= d
    ensures var x := Chosen(v, off, d, k);
            && (s.right && k == s.beta - 1 ==> x >= n)
            && (s.bottom && k == s.gamma + 1 ==> x - k >= m)
            && (s.right && k > s.beta ==> x - k <= n - s.beta + 1)
            && (s.bottom && k < s.gamma ==> x <= m + s.gamma + 1)
            && (d >= 2 && k == 0 ==> x >= 1)
  {
    ChosenSeen(v, off, n, m, d, start, end, s, k);
  }

  /** x is where the path stands on diagonal k after following the snake; there is none at the
      beginning and none into the corner. */
  ghost predicate Result(v: seq<int>, off: int, n: int, m: int, d: int, k: int, x: int) {
    && 0 <= d < off && off >= 2 && |v| == 2 * off && -d <= k <= d
    && var x0 := Chosen(v, off, d, k);
       if x0 <= n && x0 - k <= m then
         x0 <= x <= n && x - k <= m && (k == n - m && x0 < n ==> x < n) && (d == 0 ==> x == 0)
       else x == x0
  }

  predicate Visited(off: int, d: int, first: int, k: int, p: int) {
    off + first <= p < off + k && SameParity(p - off, d)
  }

  /** Within round d: v0 is the vector before it, start0 and end0 its bounds then, and k the next diagonal.
      t holds what the round has found out about the edges. */
  ghost predicate Midway(v0: seq<int>, v: seq<int>, off: int, n: int, m: int, d: int, start0: int, end0: int, s: Shape,
                      k: int, start: int, end: int, t: Shape) {
    && Reach(v0, off, n, m, d, start0, end0, s) && Clear(n, m, s) && d < off && |v| == |v0|
    && SameParity(k, d) && start0 - d <= k <= d - end0 + 2
    && Results(v0, v, off, n, m, d, s, start0 - d, k)
    && MidRight(v, off, n, m, d, start0, end0, s, k, end, t) && MidBottom(v, off, n, m, d, start0, s, k, start, t)
  }

  /** What is known of the point reached on diagonal k. */
  predicate Point(n: int, m: int, d: int, s: Shape, k: int, x: int) {
    && (x > n ==> s.right && s.beta < k) && (x - k > m ==> s.bottom && k < s.gamma)
    && (k <= n - m ==> x <= n) && (k >= n - m ==> x - k <= m) && (k == n - m ==> x < n)
    && (s.right && k == s.beta - 1 ==> x >= n) && (s.bottom && k == s.gamma + 1 ==> x - k >= m)
    && (s.right && k > s.beta ==> x - k <= n - s.beta + 1) && (s.bottom && k < s.gamma ==> x <= m + s.gamma + 1)
    && x >= 0 && x >= k && (d >= 2 && k == 0 ==> x >= 1) && (d == 0 ==> x == 0)
  }

  /** The vector holds the results of the diagonals visited, and is otherwise unchanged. */
  ghost predicate Results(v0: seq<int>, v: seq<int>, off: int, n: int, m: int, d: int, s: Shape, first: int, k: int) {
    && |v| == |v0|
    && (forall p :: 0 <= p < |v| && !Visited(off, d, first, k, p) ==> v[p] == v0[p])
    && (forall p :: 0 <= p < |v| && Visited(off, d, first, k, p) ==> Point(n, m, d, s, p - off, v[p]))
  }

  ghost predicate MidRight(v: seq<int>, off: int, n: int, m: int, d: int, start0: int, end0: int, s: Shape, k: int,
                           end: int, t: Shape)
  {
    && end0 <= end && end % 2 == 0
    && (if t.right then
          && n - m < t.beta && 0 <= off + t.beta < |v| && Visited(off, d, start0 - d, k, off + t.beta)
          && v[off + t.beta] == n && t.beta <= d - end
        else end == end0)
    && (forall p :: 0 <= p < |v| && Visited(off, d, start0 - d, k, p) && p - off >= n - m && (t.right ==> p - off < t.beta) ==> v[p] < n)
    && (if s.right then (k > s.beta - 1 ==> t.right && t.beta <= s.beta - 1) && (k <= s.beta + 1 ==> end == end0) else end == 0)
  }

  ghost predicate MidBottom(v: seq<int>, off: int, n: int, m: int, d: int, start0: int, s: Shape, k: int, start: int,
                            t: Shape)
  {
    && start0 <= start && start % 2 == 0
    && (t.bottom ==>
          && t.gamma < n - m && 0 <= off + t.gamma < |v| && Visited(off, d, start0 - d, k, off + t.gamma)
          && v[off + t.gamma] >= m + t.gamma)
    && (forall p :: 0 <= p < |v| && Visited(off, d, start0 - d, k, p) && p - off <= n - m && (t.bottom ==> p - off > t.gamma) ==>
          v[p] - (p - off) < m)
    && (if s.bottom then
          && (k > s.gamma + 1 ==> t.bottom && t.gamma >= s.gamma + 1)
          && start - start0 <= k - (start0 - d) && start - start0 <= s.gamma + 1 - (start0 - d)
        else start == 0)
  }

  const NONE: Shape := Shape(0, 0, false, 0, false, 0)

  lemma MidStart(v: seq<int>, off: int, n: int, m: int, d: int, start: int, end: int, s: Shape)
    requires Reach(v, off, n, m, d, start, end, s) && Clear(n, m, s) && d < off
    ensures Midway(v, v, off, n, m, d, start, end, s, start - d, start, end, NONE) && start - d <= d - end
  {
  }

  // What a round knows of the edges after diagonal k.
  function Noted(t: Shape, k: int, x: int, n: int, m: int): Shape {
    Shape(t.lo, t.hi, t.right || (k >= n - m && x >= n), if t.right then t.beta else k,
          t.bottom || (k <= n - m && x - k >= m), if k <= n - m && x - k >= m then k else t.gamma)
  }

  lemma MidTurn(v0: seq<int>, v: seq<int>, off: int, n: int, m: int, d: int, start0: int, end0: int, s: Shape,
                k: int, start: int, end: int, t: Shape)
    requires Midway(v0, v, off, n, m, d, start0, end0, s, k, start, end, t) && k <= d - end
    ensures Turn(v0, off, n, m, d, start0, end0, s, k) && -d <= k <= d < off && |v| == |v0| == 2 * off && n >= 2
    ensures m >= 2
    ensures off >= 2 && Chosen(v, off, d, k) == Chosen(v0, off, d, k)
  {
    hide Noted, Point;
    assert !Visited(off, d, start0 - d, k, off + k - 1) && !Visited(off, d, start0 - d, k, off + k + 1);
  }

  lemma ResultPoint(v: seq<int>, off: int, n: int, m: int, d: int, start: int, end: int, s: Shape, k: int, x: int)
    requires Turn(v, off, n, m, d, start, end, s, k) && Result(v, off, n, m, d, k, x)
    ensures Point(n, m, d, s, k, x)
  {
    ChosenSeen(v, off, n, m, d, start, end, s, k);
    OutsideBeyond(v, off, n, m, d, start, end, s, k);
    EdgesMove(v, off, n, m, d, start, end, s, k);
  }

  /** One diagonal: the path is noted at k, and a bound moves in when it has left the grid. */
  lemma MidStep(v0: seq<int>, v: seq<int>, off: int, n: int, m: int, d: int, start0: int, end0: int, s: Shape,
                k: int, start: int, end: int, t: Shape, x: int)
    requires Midway(v0, v, off, n, m, d, start0, end0, s, k, start, end, t) && k <= d - end
    requires Result(v0, off, n, m, d, k, x)
    ensures Midway(v0, v[off + k := x], off, n, m, d, start0, end0, s, k + 2,
                if x <= n && x - k > m then start + 2 else start, if x > n then end + 2 else end, Noted(t, k, x, n, m))
  {
    MidTurn(v0, v, off, n, m, d, start0, end0, s, k, start, end, t);
    ResultPoint(v0, off, n, m, d, start0, end0, s, k, x);
    MidStepRight(v, off, n, m, d, start0, end0, s, k, end, t, x);
    MidStepBottom(v, off, n, m, d, start0, s, k, start, t, x);
    MidStepValues(v0, v, off, n, m, d, s, start0 - d, k, x);
  }

  lemma MidStepValues(v0: seq<int>, v: seq<int>, off: int, n: int, m: int, d: int, s: Shape, first: int, k: int, x: int)
    requires Results(v0, v, off, n, m, d, s, first, k)
    requires 0 <= off + k < |v| && first <= k && SameParity(k, d) && Point(n, m, d, s, k, x)
    ensures Results(v0, v[off + k := x], off, n, m, d, s, first, k + 2)
  {
    forall p | 0 <= p < |v| ensures Visited(off, d, first, k + 2, p) <==> Visited(off, d, first, k, p) || p == off + k {
      VisitedNext(off, d, first, k, p);
    }
  }

  lemma VisitedNext(off: int, d: int, first: int, k: int, p: int)
    requires first <= k && SameParity(k, d)
    ensures Visited(off, d, first, k + 2, p) <==> Visited(off, d, first, k, p) || p == off + k
  {
  }

  lemma MidStepRight(v: seq<int>, off: int, n: int, m: int, d: int, start0: int, end0: int, s: Shape,
                     k: int, end: int, t: Shape, x: int)
    requires MidRight(v, off, n, m, d, start0, end0, s, k, end, t) && 0 <= off + k < |v|
    requires start0 - d <= k <= d - end && SameParity(k, d) && Point(n, m, d, s, k, x)
    requires Clear(n, m, s) && (s.right ==> SameParity(s.beta, d - 1))
    ensures MidRight(v[off + k := x], off, n, m, d, start0, end0, s, k + 2, if x > n then end + 2 else end, Noted(t, k, x, n, m))
  {
  }

  lemma MidStepBottom(v: seq<int>, off: int, n: int, m: int, d: int, start0: int, s: Shape,
                      k: int, start: int, t: Shape, x: int)
    requires MidBottom(v, off, n, m, d, start0, s, k, start, t) && 0 <= off + k < |v|
    requires start0 - d <= k && SameParity(k, d) && Point(n, m, d, s, k, x)
    requires Clear(n, m, s) && (s.bottom ==> SameParity(s.gamma, d - 1) && start0 - d <= s.gamma + 1)
    ensures MidBottom(v[off + k := x], off, n, m, d, start0, s, k + 2,
                      if x <= n && x - k > m then start + 2 else start, Noted(t, k, x, n, m))
  {
  }

  // What the round has made of the shape; k is behind its last diagonal.
  function Ended(s: Shape, t: Shape, first: int, k: int): Shape {
    Shape(Min(s.lo, first), Max(s.hi, k - 2), t.right, t.beta, t.bottom, t.gamma)
  }

  /** The end of a round. */
  ghost predicate End(v0: seq<int>, v: seq<int>, off: int, n: int, m: int, d: int, start0: int, end0: int, s: Shape,
                      k: int, start: int, end: int, t: Shape) {
    Midway(v0, v, off, n, m, d, start0, end0, s, k, start, end, t) && k > d - end
  }

  /** All diagonals up to the edges have been visited. */
  lemma EndVisits(v0: seq<int>, v: seq<int>, off: int, n: int, m: int, d: int, start0: int, end0: int, s: Shape,
                  k: int, start: int, end: int, t: Shape)
    requires End(v0, v, off, n, m, d, start0, end0, s, k, start, end, t)
    ensures start0 - d <= k - 2 <= d && k - 2 <= s.hi + 1 && start0 - d >= s.lo - 1
    ensures s.right ==> s.beta - 1 <= k - 2 && t.right && t.beta <= s.beta - 1
    ensures s.bottom ==> s.gamma + 1 <= k - 2 && t.bottom && t.gamma >= s.gamma + 1
    ensures !t.right ==> end == 0
    ensures end == 0 ==> k - 2 == d
    ensures t.right ==> start - (d + 1) <= t.beta - 1 <= d + 1 - end
  {
  }

  /** The first rounds visit everything. */
  lemma EndFirstRounds(v0: seq<int>, v: seq<int>, off: int, n: int, m: int, d: int, start0: int, end0: int, s: Shape,
                       k: int, start: int, end: int, t: Shape)
    requires End(v0, v, off, n, m, d, start0, end0, s, k, start, end, t)
    ensures d <= 1 ==> start0 == 0 && start == 0 && end == 0 && k - 2 == d
    ensures d == 2 ==> start0 - d <= 0 <= k - 2
    ensures d == 0 ==> !t.right && !t.bottom
  {
    EndVisits(v0, v, off, n, m, d, start0, end0, s, k, start, end, t);
    if d == 0 {
      VisitedPoint(v0, v, off, n, m, d, s, start0 - d, k, off);
    }
  }

  lemma EndVisitsBottom(v0: seq<int>, v: seq<int>, off: int, n: int, m: int, d: int, start0: int, end0: int, s: Shape,
                        k: int, start: int, end: int, t: Shape)
    requires End(v0, v, off, n, m, d, start0, end0, s, k, start, end, t)
    ensures t.bottom ==> start - (d + 1) <= t.gamma + 1 <= d + 1 - end
    ensures !t.bottom ==> start == 0
  {
    EndVisits(v0, v, off, n, m, d, start0, end0, s, k, start, end, t);
  }

  lemma VisitedPoint(v0: seq<int>, v: seq<int>, off: int, n: int, m: int, d: int, s: Shape, first: int, k: int, p: int)
    requires Results(v0, v, off, n, m, d, s, first, k) && 0 <= p < |v|
    ensures Visited(off, d, first, k, p) ==> Point(n, m, d, s, p - off, v[p])
    ensures !Visited(off, d, first, k, p) ==> v[p] == v0[p]
  {
  }

  lemma OldDiagonal(s: Shape, t: Shape, off: int, d: int, first: int, k: int, p: int)
    requires off + Ended(s, t, first, k).lo <= p <= off + Ended(s, t, first, k).hi && !Visited(off, d, first, k, p)
    requires s.lo - 1 <= first <= k - 2 <= s.hi + 1 && SameParity(first, d) && SameParity(k, d)
    ensures off + s.lo <= p <= off + s.hi
  {
    if p == off + first {
      assert false;
    }
    if p == off + k - 2 {
      assert false;
    }
  }

  // The bounds of the diagonals of a round against those of the shape.
  predicate Stretch(off: int, d: int, s: Shape, first: int, k: int) {
    && 0 <= d < off && 1 - d <= s.lo && s.hi <= d - 1 && SameParity(first, d) && SameParity(k, d)
    && s.lo - 1 <= first <= k - 2 <= s.hi + 1 && -d <= first && k - 2 <= d
  }

  lemma EndStretch(v0: seq<int>, v: seq<int>, off: int, n: int, m: int, d: int, start0: int, end0: int, s: Shape,
                   k: int, start: int, end: int, t: Shape)
    requires End(v0, v, off, n, m, d, start0, end0, s, k, start, end, t)
    ensures Stretch(off, d, s, start0 - d, k)
  {
    EndVisits(v0, v, off, n, m, d, start0, end0, s, k, start, end, t);
  }

  // A diagonal of the new shape was visited, or is as it was.
  lemma NewOrOld(v0: seq<int>, v: seq<int>, off: int, n: int, m: int, d: int, s: Shape, t: Shape, first: int, k: int,
                 p: int)
    requires Results(v0, v, off, n, m, d, s, first, k) && |v0| == 2 * off && Stretch(off, d, s, first, k)
    requires off + Ended(s, t, first, k).lo <= p <= off + Ended(s, t, first, k).hi
    ensures 0 <= p < |v|
    ensures if Visited(off, d, first, k, p) then Point(n, m, d, s, p - off, v[p])
            else off + s.lo <= p <= off + s.hi && v[p] == v0[p]
  {
    VisitedPoint(v0, v, off, n, m, d, s, first, k, p);
    if !Visited(off, d, first, k, p) {
      OldDiagonal(s, t, off, d, first, k, p);
    }
  }

  lemma SeenAt(v0: seq<int>, v: seq<int>, off: int, n: int, m: int, d: int, s: Shape, t: Shape, first: int, k: int,
               p: int)
    requires Seen(v0, off, d, s) && Results(v0, v, off, n, m, d, s, first, k) && Stretch(off, d, s, first, k)
    requires off + Ended(s, t, first, k).lo <= p <= off + Ended(s, t, first, k).hi
    ensures 0 <= p < |v| && v[p] >= 0 && v[p] >= p - off
  {
    NewOrOld(v0, v, off, n, m, d, s, t, first, k, p);
  }

  lemma UnseenAt(v0: seq<int>, v: seq<int>, off: int, n: int, m: int, d: int, s: Shape, t: Shape, first: int, k: int,
                 p: int)
    requires Seen(v0, off, d, s) && Results(v0, v, off, n, m, d, s, first, k) && Stretch(off, d, s, first, k)
    requires 0 <= p < |v| && !(off + Ended(s, t, first, k).lo <= p <= off + Ended(s, t, first, k).hi)
    requires d >= 1 ==> Ended(s, t, first, k).lo <= 1 <= Ended(s, t, first, k).hi
    ensures v[p] == -1 || (d == 0 && p == off + 1 && v[p] == 0)
  {
    OutsideVisited(off, d, first, k, p);
    VisitedPoint(v0, v, off, n, m, d, s, first, k, p);
  }

  lemma EndSeen(v0: seq<int>, v: seq<int>, off: int, n: int, m: int, d: int, s: Shape, t: Shape, first: int, k: int)
    requires Seen(v0, off, d, s) && Results(v0, v, off, n, m, d, s, first, k) && Stretch(off, d, s, first, k)
    requires first <= 0 <= k - 2 || s.lo <= 0 <= s.hi
    requires d == 2 ==> first <= 0 <= k - 2
    requires d >= 1 ==> (first <= -1 || s.lo <= -1) && (1 <= k - 2 || 1 <= s.hi)
    ensures Seen(v, off, d + 1, Ended(s, t, first, k))
  {
    var e := Ended(s, t, first, k);
    if d >= 2 {
      VisitedPoint(v0, v, off, n, m, d, s, first, k, off);
    }
    forall p | off + e.lo <= p <= off + e.hi ensures 0 <= p < |v| && v[p] >= 0 && v[p] >= p - off {
      SeenAt(v0, v, off, n, m, d, s, t, first, k, p);
    }
    forall p | 0 <= p < |v| && !(off + e.lo <= p <= off + e.hi)
      ensures v[p] == -1 || (d == 0 && p == off + 1 && v[p] == 0)
    {
      UnseenAt(v0, v, off, n, m, d, s, t, first, k, p);
    }
  }

  lemma OutsideVisited(off: int, d: int, first: int, k: int, p: int)
    requires SameParity(first, d) && SameParity(k, d) && !(off + first <= p <= off + k - 2)
    ensures !Visited(off, d, first, k, p)
  {
  }

  lemma RightAt(v0: seq<int>, v: seq<int>, off: int, n: int, m: int, d: int, start0: int, end0: int, s: Shape,
                k: int, end: int, t: Shape, p: int)
    requires Seen(v0, off, d, s) && RightEdge(v0, off, n, m, d, start0, end0, s) && Stretch(off, d, s, start0 - d, k)
    requires Results(v0, v, off, n, m, d, s, start0 - d, k) && MidRight(v, off, n, m, d, start0, end0, s, k, end, t)
    requires s.right ==> t.right && t.beta <= s.beta - 1
    requires off + Ended(s, t, start0 - d, k).lo <= p <= off + Ended(s, t, start0 - d, k).hi
    ensures 0 <= p < |v|
    ensures p - off >= n - m && (t.right ==> p - off < t.beta) ==> v[p] < n
    ensures t.right && p - off > t.beta ==> v[p] - (p - off) <= n - t.beta
  {
    NewOrOld(v0, v, off, n, m, d, s, t, start0 - d, k, p);
  }

  lemma GammaBelow(v: seq<int>, off: int, n: int, m: int, d: int, start0: int, s: Shape, k: int, start: int, t: Shape)
    requires MidBottom(v, off, n, m, d, start0, s, k, start, t)
    ensures t.bottom ==> t.gamma < n - m
  {
  }

  lemma BottomAt(v0: seq<int>, v: seq<int>, off: int, n: int, m: int, d: int, start0: int, end0: int, s: Shape,
                 k: int, start: int, t: Shape, p: int)
    requires Seen(v0, off, d, s) && BottomEdge(v0, off, n, m, d, start0, end0, s) && Stretch(off, d, s, start0 - d, k)
    requires Results(v0, v, off, n, m, d, s, start0 - d, k) && MidBottom(v, off, n, m, d, start0, s, k, start, t)
    requires s.bottom ==> t.bottom && t.gamma >= s.gamma + 1
    requires off + Ended(s, t, start0 - d, k).lo <= p <= off + Ended(s, t, start0 - d, k).hi
    ensures 0 <= p < |v|
    ensures p - off <= n - m && (t.bottom ==> p - off > t.gamma) ==> v[p] - (p - off) < m
    ensures t.bottom && p - off < t.gamma ==> v[p] <= m + t.gamma
  {
    hide Results, BottomEdge, MidBottom, Point;
    GammaBelow(v, off, n, m, d, start0, s, k, start, t);
    NewOrOld(v0, v, off, n, m, d, s, t, start0 - d, k, p);
    if Visited(off, d, start0 - d, k, p) {
      BottomNew(v, off, n, m, d, start0, s, k, start, t, p);
    } else {
      BottomOld(v0, off, n, m, d, start0, end0, s, t, p);
    }
  }

  lemma GammaPoint(v0: seq<int>, v: seq<int>, off: int, n: int, m: int, d: int, start0: int, s: Shape, k: int,
                   start: int, t: Shape)
    requires Results(v0, v, off, n, m, d, s, start0 - d, k) && MidBottom(v, off, n, m, d, start0, s, k, start, t)
    requires t.bottom && (s.bottom ==> t.gamma >= s.gamma + 1)
    ensures v[off + t.gamma] == m + t.gamma
  {
    VisitedPoint(v0, v, off, n, m, d, s, start0 - d, k, off + t.gamma);
  }

  lemma BottomNew(v: seq<int>, off: int, n: int, m: int, d: int, start0: int, s: Shape, k: int, start: int, t: Shape,
                  p: int)
    requires MidBottom(v, off, n, m, d, start0, s, k, start, t) && 0 <= p < |v| && Visited(off, d, start0 - d, k, p)
    requires Point(n, m, d, s, p - off, v[p]) && (s.bottom ==> t.bottom && t.gamma >= s.gamma + 1)
    ensures p - off <= n - m && (t.bottom ==> p - off > t.gamma) ==> v[p] - (p - off) < m
    ensures t.bottom && p - off < t.gamma ==> v[p] <= m + t.gamma
  {
  }

  lemma BottomOld(v0: seq<int>, off: int, n: int, m: int, d: int, start0: int, end0: int, s: Shape, t: Shape, p: int)
    requires Seen(v0, off, d, s) && BottomEdge(v0, off, n, m, d, start0, end0, s) && off + s.lo <= p <= off + s.hi
    requires if s.bottom then t.bottom && t.gamma >= s.gamma + 1 else true
    requires t.bottom ==> t.gamma < n - m
    ensures 0 <= p < |v0|
    ensures p - off <= n - m && (t.bottom ==> p - off > t.gamma) ==> v0[p] - (p - off) < m
    ensures t.bottom && p - off < t.gamma ==> v0[p] <= m + t.gamma
  {
  }

  lemma EndRight(v0: seq<int>, v: seq<int>, off: int, n: int, m: int, d: int, start0: int, end0: int, s: Shape,
                 k: int, start: int, end: int, t: Shape)
    requires Seen(v0, off, d, s) && RightEdge(v0, off, n, m, d, start0, end0, s) && Stretch(off, d, s, start0 - d, k)
    requires Results(v0, v, off, n, m, d, s, start0 - d, k) && MidRight(v, off, n, m, d, start0, end0, s, k, end, t)
    requires s.right ==> t.right && t.beta <= s.beta - 1
    requires if t.right then start - (d + 1) <= t.beta - 1 <= d + 1 - end else end == 0
    requires Seen(v, off, d + 1, Ended(s, t, start0 - d, k))
    ensures RightEdge(v, off, n, m, d + 1, start, end, Ended(s, t, start0 - d, k))
  {
    var e := Ended(s, t, start0 - d, k);
    forall p | off + e.lo <= p <= off + e.hi
      ensures p - off >= n - m && (t.right ==> p - off < t.beta) ==> v[p] < n
      ensures t.right && p - off > t.beta ==> v[p] - (p - off) <= n - t.beta
    {
      RightAt(v0, v, off, n, m, d, start0, end0, s, k, end, t, p);
    }
  }

  lemma EndBottom(v0: seq<int>, v: seq<int>, off: int, n: int, m: int, d: int, start0: int, end0: int, s: Shape,
                  k: int, start: int, end: int, t: Shape)
    requires Seen(v0, off, d, s) && BottomEdge(v0, off, n, m, d, start0, end0, s) && Stretch(off, d, s, start0 - d, k)
    requires Results(v0, v, off, n, m, d, s, start0 - d, k) && MidBottom(v, off, n, m, d, start0, s, k, start, t)
    requires s.bottom ==> t.bottom && t.gamma >= s.gamma + 1
    requires if t.bottom then start - (d + 1) <= t.gamma + 1 <= d + 1 - end else start == 0
    requires Seen(v, off, d + 1, Ended(s, t, start0 - d, k))
    ensures BottomEdge(v, off, n, m, d + 1, start, end, Ended(s, t, start0 - d, k))
  {
    var e := Ended(s, t, start0 - d, k);
    forall p | off + e.lo <= p <= off + e.hi
      ensures p - off <= n - m && (t.bottom ==> p - off > t.gamma) ==> v[p] - (p - off) < m
      ensures t.bottom && p - off < t.gamma ==> v[p] <= m + t.gamma
    {
      BottomAt(v0, v, off, n, m, d, start0, end0, s, k, start, t, p);
    }
    if t.bottom {
      GammaPoint(v0, v, off, n, m, d, start0, s, k, start, t);
    }
  }

  lemma SeenEnds(v0: seq<int>, v: seq<int>, off: int, n: int, m: int, d: int, start0: int, end0: int, s: Shape,
                 k: int, start: int, end: int, t: Shape)
    requires End(v0, v, off, n, m, d, start0, end0, s, k, start, end, t)
    ensures Stretch(off, d, s, start0 - d, k) && Seen(v, off, d + 1, Ended(s, t, start0 - d, k))
  {
    EndFirstRounds(v0, v, off, n, m, d, start0, end0, s, k, start, end, t);
    EndStretch(v0, v, off, n, m, d, start0, end0, s, k, start, end, t);
    EndSeen(v0, v, off, n, m, d, s, t, start0 - d, k);
  }

  lemma EndCounts(v0: seq<int>, v: seq<int>, off: int, n: int, m: int, d: int, start0: int, end0: int, s: Shape,
                  k: int, start: int, end: int, t: Shape)
    requires End(v0, v, off, n, m, d, start0, end0, s, k, start, end, t)
    ensures Range(d, start0, end0, s) && start0 <= start && end0 <= end && start % 2 == 0 && end % 2 == 0 && k > d - end
    ensures d >= 1 ==> s.lo <= 0 <= s.hi
    ensures d == 0 ==> s == START
    ensures 0 <= d && 1 - d <= s.lo && s.hi <= d - 1 && SameParity(k, d)
  {
    hide Results, MidRight, MidBottom, RightEdge, BottomEdge, Clear;
    EndSteps(v0, v, off, n, m, d, start0, end0, s, k, start, end, t);
  }

  lemma EndSteps(v0: seq<int>, v: seq<int>, off: int, n: int, m: int, d: int, start0: int, end0: int, s: Shape,
                 k: int, start: int, end: int, t: Shape)
    requires End(v0, v, off, n, m, d, start0, end0, s, k, start, end, t)
    ensures start0 <= start && end0 <= end && start % 2 == 0 && end % 2 == 0
  {
    hide Results, Reach, Clear;
  }

  // The same on the counts alone.
  lemma RangeCounts(d: int, start0: int, end0: int, s: Shape, k: int, start: int, end: int, t: Shape)
    requires Range(d, start0, end0, s) && start0 <= start && end0 <= end && start % 2 == 0 && end % 2 == 0
    requires k > d - end
    requires 0 <= d && 1 - d <= s.lo && s.hi <= d - 1 && (d >= 1 ==> s.lo <= 0 <= s.hi) && (d == 0 ==> s == START)
    requires start0 - d <= k - 2 <= d && k - 2 <= s.hi + 1 && start0 - d >= s.lo - 1 && SameParity(k, d)
    requires end == 0 ==> k - 2 == d
    requires t.right ==> start - (d + 1) <= t.beta - 1 <= d + 1 - end
    requires t.bottom ==> start - (d + 1) <= t.gamma + 1 <= d + 1 - end
    requires (!t.right ==> end == 0) && (!t.bottom ==> start == 0)
    requires d <= 1 ==> start0 == 0 && start == 0 && end == 0 && k - 2 == d
    requires d == 0 ==> !t.right && !t.bottom
    ensures Range(d + 1, start, end, Ended(s, t, start0 - d, k))
  {
  }

  lemma RangeEnds(v0: seq<int>, v: seq<int>, off: int, n: int, m: int, d: int, start0: int, end0: int, s: Shape,
                 k: int, start: int, end: int, t: Shape)
    requires End(v0, v, off, n, m, d, start0, end0, s, k, start, end, t)
    ensures Range(d + 1, start, end, Ended(s, t, start0 - d, k))
  {
    hide End, Range;
    EndVisits(v0, v, off, n, m, d, start0, end0, s, k, start, end, t);
    EndVisitsBottom(v0, v, off, n, m, d, start0, end0, s, k, start, end, t);
    EndFirstRounds(v0, v, off, n, m, d, start0, end0, s, k, start, end, t);
    EndCounts(v0, v, off, n, m, d, start0, end0, s, k, start, end, t);
    RangeCounts(d, start0, end0, s, k, start, end, t);
  }

  lemma RightEnds(v0: seq<int>, v: seq<int>, off: int, n: int, m: int, d: int, start0: int, end0: int, s: Shape,
                 k: int, start: int, end: int, t: Shape)
    requires End(v0, v, off, n, m, d, start0, end0, s, k, start, end, t) && Stretch(off, d, s, start0 - d, k)
    requires Seen(v, off, d + 1, Ended(s, t, start0 - d, k))
    ensures RightEdge(v, off, n, m, d + 1, start, end, Ended(s, t, start0 - d, k))
  {
    EndVisits(v0, v, off, n, m, d, start0, end0, s, k, start, end, t);
    EndRight(v0, v, off, n, m, d, start0, end0, s, k, start, end, t);
  }

  lemma BottomEnds(v0: seq<int>, v: seq<int>, off: int, n: int, m: int, d: int, start0: int, end0: int, s: Shape,
                 k: int, start: int, end: int, t: Shape)
    requires End(v0, v, off, n, m, d, start0, end0, s, k, start, end, t) && Stretch(off, d, s, start0 - d, k)
    requires Seen(v, off, d + 1, Ended(s, t, start0 - d, k))
    ensures BottomEdge(v, off, n, m, d + 1, start, end, Ended(s, t, start0 - d, k))
  {
    EndVisits(v0, v, off, n, m, d, start0, end0, s, k, start, end, t);
    EndVisitsBottom(v0, v, off, n, m, d, start0, end0, s, k, start, end, t);
    EndBottom(v0, v, off, n, m, d, start0, end0, s, k, start, end, t);
  }

  /** A round keeps what is known of a path. */
  lemma EndReach(v0: seq<int>, v: seq<int>, off: int, n: int, m: int, d: int, start0: int, end0: int, s: Shape,
                 k: int, start: int, end: int, t: Shape)
    requires End(v0, v, off, n, m, d, start0, end0, s, k, start, end, t)
    ensures Stretch(off, d, s, start0 - d, k) && Reach(v, off, n, m, d + 1, start, end, Ended(s, t, start0 - d, k))
  {
    SeenEnds(v0, v, off, n, m, d, start0, end0, s, k, start, end, t);
    RangeEnds(v0, v, off, n, m, d, start0, end0, s, k, start, end, t);
    RightEnds(v0, v, off, n, m, d, start0, end0, s, k, start, end, t);
    BottomEnds(v0, v, off, n, m, d, start0, end0, s, k, start, end, t);
  }

  /** Where a round has been: outside the grid only beyond the old edges, and everywhere in between. */
  ghost predicate Walked(v: seq<int>, off: int, n: int, m: int, d: int, s: Shape, e: Shape, first: int, k: int) {
    && off >= 2 && |v| == 2 * off && -off < e.lo <= 0 <= e.hi < off
    && (e.lo == s.lo || (e.lo == s.lo - 1 && SameParity(e.lo, d))) && (e.hi == s.hi || (e.hi == s.hi + 1 && SameParity(e.hi, d)))
    && e.lo <= first <= k - 2 <= e.hi && SameParity(first, d) && SameParity(k, d)
    && OutBeyond(v, off, n, m, s, e) && GapsBeyond(d, s, e, first, k)
    && (e.right ==> first <= e.beta <= k - 2) && (e.bottom ==> first <= e.gamma <= k - 2)
  }

  ghost predicate OutBeyond(v: seq<int>, off: int, n: int, m: int, s: Shape, e: Shape)
    requires 0 <= off + e.lo && off + e.hi < |v|
  {
    && (forall p :: off + e.lo <= p <= off + e.hi && v[p] > n ==> s.right && s.beta < p - off)
    && (forall p :: off + e.lo <= p <= off + e.hi && v[p] - (p - off) > m ==> s.bottom && p - off < s.gamma)
  }

  ghost predicate GapsBeyond(d: int, s: Shape, e: Shape, first: int, k: int) {
    && (forall q :: e.lo <= q < first && SameParity(q, d) ==> s.bottom && q < s.gamma)
    && (forall q :: k - 2 < q <= e.hi && SameParity(q, d) ==> s.right && s.beta < q)
  }

  lemma WalkedAt(v0: seq<int>, v: seq<int>, off: int, n: int, m: int, d: int, start0: int, end0: int, s: Shape,
                 k: int, t: Shape, p: int)
    requires Reach(v0, off, n, m, d, start0, end0, s) && Stretch(off, d, s, start0 - d, k)
    requires Results(v0, v, off, n, m, d, s, start0 - d, k)
    requires off + Ended(s, t, start0 - d, k).lo <= p <= off + Ended(s, t, start0 - d, k).hi
    ensures 0 <= p < |v|
    ensures v[p] > n ==> s.right && s.beta < p - off
    ensures v[p] - (p - off) > m ==> s.bottom && p - off < s.gamma
  {
    NewOrOld(v0, v, off, n, m, d, s, t, start0 - d, k, p);
  }

  lemma EndGaps(v0: seq<int>, v: seq<int>, off: int, n: int, m: int, d: int, start0: int, end0: int, s: Shape,
                k: int, start: int, end: int, t: Shape, q: int)
    requires End(v0, v, off, n, m, d, start0, end0, s, k, start, end, t) && SameParity(q, d)
    requires Ended(s, t, start0 - d, k).lo <= q <= Ended(s, t, start0 - d, k).hi
    ensures q < start0 - d ==> s.bottom && q < s.gamma
    ensures q > k - 2 ==> s.right && s.beta < q
  {
    EndVisits(v0, v, off, n, m, d, start0, end0, s, k, start, end, t);
  }

  lemma EndOut(v0: seq<int>, v: seq<int>, off: int, n: int, m: int, d: int, start0: int, end0: int, s: Shape, k: int,
               t: Shape)
    requires Reach(v0, off, n, m, d, start0, end0, s) && Stretch(off, d, s, start0 - d, k)
    requires Results(v0, v, off, n, m, d, s, start0 - d, k)
    ensures var e := Ended(s, t, start0 - d, k); 0 <= off + e.lo && off + e.hi < |v| && OutBeyond(v, off, n, m, s, e)
  {
    var e := Ended(s, t, start0 - d, k);
    forall p | off + e.lo <= p <= off + e.hi
      ensures v[p] > n ==> s.right && s.beta < p - off
      ensures v[p] - (p - off) > m ==> s.bottom && p - off < s.gamma
    {
      WalkedAt(v0, v, off, n, m, d, start0, end0, s, k, t, p);
    }
  }

  lemma EndGapsAll(v0: seq<int>, v: seq<int>, off: int, n: int, m: int, d: int, start0: int, end0: int, s: Shape,
                  k: int, start: int, end: int, t: Shape)
    requires End(v0, v, off, n, m, d, start0, end0, s, k, start, end, t)
    ensures GapsBeyond(d, s, Ended(s, t, start0 - d, k), start0 - d, k)
  {
    var e := Ended(s, t, start0 - d, k);
    forall q | e.lo <= q <= e.hi && SameParity(q, d)
      ensures q < start0 - d ==> s.bottom && q < s.gamma
      ensures q > k - 2 ==> s.right && s.beta < q
    {
      EndGaps(v0, v, off, n, m, d, start0, end0, s, k, start, end, t, q);
    }
  }

  lemma EndEdges(v0: seq<int>, v: seq<int>, off: int, n: int, m: int, d: int, start0: int, end0: int, s: Shape,
                  k: int, start: int, end: int, t: Shape)
    requires End(v0, v, off, n, m, d, start0, end0, s, k, start, end, t)
    ensures t.right ==> start0 - d <= t.beta <= k - 2
    ensures t.bottom ==> start0 - d <= t.gamma <= k - 2
    ensures off >= 2 && |v| == 2 * off && s.lo <= 1 && -1 <= s.hi && (d > 0 ==> s.lo <= 0 <= s.hi)
  {
  }

  lemma EndOutAll(v0: seq<int>, v: seq<int>, off: int, n: int, m: int, d: int, start0: int, end0: int, s: Shape,
                  k: int, start: int, end: int, t: Shape)
    requires End(v0, v, off, n, m, d, start0, end0, s, k, start, end, t) && Stretch(off, d, s, start0 - d, k)
    ensures var e := Ended(s, t, start0 - d, k);
            off >= 2 && |v| == 2 * off && 0 <= off + e.lo && off + e.hi < |v| && OutBeyond(v, off, n, m, s, e)
  {
    EndOut(v0, v, off, n, m, d, start0, end0, s, k, t);
  }

  lemma WalkedJoin(v: seq<int>, off: int, n: int, m: int, d: int, s: Shape, t: Shape, first: int, k: int)
    requires Stretch(off, d, s, first, k) && off >= 2 && |v| == 2 * off && s.lo <= 1 && -1 <= s.hi && (d > 0 ==> s.lo <= 0 <= s.hi)
    requires OutBeyond(v, off, n, m, s, Ended(s, t, first, k)) && GapsBeyond(d, s, Ended(s, t, first, k), first, k)
    requires (t.right ==> first <= t.beta <= k - 2) && (t.bottom ==> first <= t.gamma <= k - 2)
    ensures Walked(v, off, n, m, d, s, Ended(s, t, first, k), first, k)
  {
  }

  lemma EndWalked(v0: seq<int>, v: seq<int>, off: int, n: int, m: int, d: int, start0: int, end0: int, s: Shape,
                  k: int, start: int, end: int, t: Shape)
    requires End(v0, v, off, n, m, d, start0, end0, s, k, start, end, t) && Stretch(off, d, s, start0 - d, k)
    ensures Walked(v, off, n, m, d, s, Ended(s, t, start0 - d, k), start0 - d, k)
  {
    hide End, OutBeyond, GapsBeyond;
    EndEdges(v0, v, off, n, m, d, start0, end0, s, k, start, end, t);
    EndOutAll(v0, v, off, n, m, d, start0, end0, s, k, start, end, t);
    EndGapsAll(v0, v, off, n, m, d, start0, end0, s, k, start, end, t);
    WalkedJoin(v, off, n, m, d, s, t, start0 - d, k);
  }

  /** Neither path has been on a diagonal where the other has reached an edge. Diagonal k of one path is
      diagonal delta - k of the other. */
  ghost predicate Apart(delta: int, a: Shape, b: Shape) {
    && (a.right ==> delta - b.lo < a.beta) && (a.bottom ==> a.gamma < delta - b.hi)
    && Behind(delta, a, b)
  }

  // The half of it that concerns the edges of b.
  ghost predicate Behind(delta: int, a: Shape, b: Shape) {
    (b.right ==> delta - a.lo < b.beta) && (b.bottom ==> b.gamma < delta - a.hi)
  }

  /** A round of a keeps it behind the edges of b, whose next round is on the same diagonals. */
  lemma StaysBehind(v: seq<int>, off: int, n: int, m: int, d: int, a: Shape, e: Shape, first: int, k: int, b: Shape,
                    db: int)
    requires Walked(v, off, n, m, d, a, e, first, k) && Behind(n - m, a, b) && SameParity(db, d + n - m)
    requires (b.right ==> SameParity(b.beta, db - 1)) && (b.bottom ==> SameParity(b.gamma, db - 1))
    ensures Behind(n - m, e, b)
  {
    hide OutBeyond, GapsBeyond;
  }

  /** On the diagonals of the round, b is where it does not meet a. */
  ghost predicate Unmet(va: seq<int>, vb: seq<int>, off: int, n: int, m: int, d: int, first: int, k: int, a: Shape) {
    forall p :: 0 <= p < |vb| && Visited(off, d, first, k, p) && vb[p] <= n && vb[p] - (p - off) <= m
                && a.lo <= n - m - (p - off) <= a.hi && 0 <= off + (n - m - (p - off)) < |va|
                ==> va[off + (n - m - (p - off))] < n - vb[p]
  }

  // Where a path has been it stands in the quadrant of the grid.
  ghost predicate Positive(v: seq<int>, off: int, s: Shape) {
    && off >= 2 && |v| == 2 * off && -off < s.lo && s.hi < off
    && forall p :: off + s.lo <= p <= off + s.hi ==> v[p] >= 0 && v[p] >= p - off
  }

  // Where the edges have been reached in the last round d.
  ghost predicate Edges(v: seq<int>, off: int, n: int, m: int, d: int, s: Shape) {
    && Positive(v, off, s)
    && (s.right ==> n - m < s.beta && s.lo <= s.beta <= s.hi && SameParity(s.beta, d) && v[off + s.beta] == n)
    && (s.bottom ==> s.gamma < n - m && s.lo <= s.gamma <= s.hi && SameParity(s.gamma, d) && v[off + s.gamma] == m + s.gamma)
  }

  lemma ReachEdges(v: seq<int>, off: int, n: int, m: int, d: int, start: int, end: int, s: Shape)
    requires Reach(v, off, n, m, d + 1, start, end, s)
    ensures Edges(v, off, n, m, d, s)
  {
  }

  lemma Mirrored(delta: int, c: int, d: int, db: int)
    requires SameParity(c, d) && SameParity(db, d + delta)
    ensures SameParity(delta - c, db)
  {
    assert delta - c - db == (delta + d - db) - (c - d) - 2 * d;
  }

  /** a has not been where b stands on an edge. */
  lemma NotOnEdge(va: seq<int>, vb: seq<int>, off: int, n: int, m: int, db: int, a: Shape, e: Shape, first: int,
                  k: int, q: int)
    requires Unmet(va, vb, off, n, m, db, first, k, a) && Positive(vb, off, e) && e.lo <= q <= e.hi
    requires Positive(va, off, a)
    requires first <= q <= k - 2 && SameParity(q, db)
    requires (vb[off + q] == n && q > n - m) || (vb[off + q] == m + q && q < n - m)
    ensures !(a.lo <= n - m - q <= a.hi)
  {
    assert Visited(off, db, first, k, off + q);
  }

  /** b has not been where a stands on an edge. */
  lemma NotThere(va: seq<int>, vb: seq<int>, off: int, n: int, m: int, db: int, a: Shape, b: Shape, e: Shape,
                 first: int, k: int, c: int)
    requires Walked(vb, off, n, m, db, b, e, first, k) && Positive(va, off, a) && Positive(vb, off, e)
    requires a.lo <= c <= a.hi
    requires SameParity(n - m - c, db) && Behind(n - m, a, b) && Unmet(va, vb, off, n, m, db, first, k, a)
    requires va[off + c] == n || va[off + c] == m + c
    ensures !(e.lo <= n - m - c <= e.hi)
  {
    var q := n - m - c;
    if e.lo <= q <= e.hi {
      if first <= q <= k - 2 {
        assert Visited(off, db, first, k, off + q);
        assert false;
      }
      assert false;
    }
  }

  /** Paths that have not met are apart when the round is over. */
  lemma StillApart(va: seq<int>, vb: seq<int>, off: int, n: int, m: int, da: int, a: Shape, db: int, b: Shape, e: Shape,
                   first: int, k: int)
    requires Edges(va, off, n, m, da, a) && Edges(vb, off, n, m, db, e) && Walked(vb, off, n, m, db, b, e, first, k)
    requires SameParity(db, da + n - m) && Behind(n - m, a, b) && Unmet(va, vb, off, n, m, db, first, k, a)
    requires a.lo <= 0 <= a.hi || (!e.right && !e.bottom)
    ensures Apart(n - m, a, e)
  {
    hide Unmet, Positive;
    if a.right {
      Mirrored(n - m, a.beta, da, db);
      NotThere(va, vb, off, n, m, db, a, b, e, first, k, a.beta);
    }
    if a.bottom {
      Mirrored(n - m, a.gamma, da, db);
      NotThere(va, vb, off, n, m, db, a, b, e, first, k, a.gamma);
    }
    if e.right {
      NotOnEdge(va, vb, off, n, m, db, a, e, first, k, e.beta);
    }
    if e.bottom {
      NotOnEdge(va, vb, off, n, m, db, a, e, first, k, e.gamma);
    }
  }

  /** Where b would meet a, a is inside the grid. */
  lemma MeetsInside(va: seq<int>, off: int, n: int, m: int, d: int, a0: Shape, a: Shape, first: int, ka: int,
                    b: Shape, k: int)
    requires Walked(va, off, n, m, d, a0, a, first, ka) && Positive(va, off, a) && Apart(n - m, a0, b)
    requires b.lo - 1 <= k <= b.hi + 1 && a.lo <= n - m - k <= a.hi
    ensures var x := va[off + (n - m - k)]; 0 <= x <= n && 0 <= x - (n - m - k) <= m
  {
  }

  lemma ApartClear(n: int, m: int, a: Shape, da: nat, b: Shape)
    requires Apart(n - m, a, b) && (da >= 1 ==> b.lo <= -1 && 1 <= b.hi) && (da == 0 ==> !a.right && !a.bottom)
    ensures Clear(n, m, a)
  {
  }

  /** In the first round only parity keeps a path that is ahead off the diagonals next to the corner. */
  lemma AheadClear(n: int, m: int, a: Shape, d: nat, b: Shape)
    requires Apart(n - m, b, a) && (d >= 2 ==> b.lo <= -1 && 1 <= b.hi) && (d == 1 ==> b.lo <= 0 <= b.hi)
    requires (a.right ==> SameParity(a.beta, d)) && (a.bottom ==> SameParity(a.gamma, d)) && SameParity(n - m, 1)
    requires d == 0 ==> !a.right && !a.bottom
    ensures Clear(n, m, a)
  {
  }

  lemma ReachSeen(v: seq<int>, off: int, n: int, m: int, d: int, start: int, end: int, s: Shape)
    requires Reach(v, off, n, m, d, start, end, s)
    ensures Seen(v, off, d, s) && (s.right ==> SameParity(s.beta, d - 1)) && (s.bottom ==> SameParity(s.gamma, d - 1))
    ensures d <= 1 ==> !s.right && !s.bottom
    ensures (d >= 1 ==> s.lo <= 0 <= s.hi) && (d >= 2 ==> s.lo <= -1 && 1 <= s.hi)
    ensures Edges(v, off, n, m, d - 1, s)
  {
  }
}
