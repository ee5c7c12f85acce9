/** The fewest characters that have to be deleted and inserted to turn one text into another. */
module EditDistances {
  import opened Strings
  import opened Diffs

  /** The distance between the first x and the first y characters. */
  function To(a: string, b: string, x: nat, y: nat): nat
    requires x <= |a| && y <= |b|
    decreases x + y
  {
    if x == 0 then y
    else if y == 0 then x
    else if a[x - 1] == b[y - 1] then To(a, b, x - 1, y - 1)
    else 1 + Min(To(a, b, x - 1, y), To(a, b, x, y - 1))
  }

  function Distance(a: string, b: string): nat {
    To(a, b, |a|, |b|)
  }

  /** One character more changes it by at most one. */
  lemma {:induction false} Near(a: string, b: string, x: nat, y: nat)
    requires x <= |a| && y <= |b|
    ensures x < |a| ==> -1 <= To(a, b, x + 1, y) - To(a, b, x, y) <= 1
    ensures y < |b| ==> -1 <= To(a, b, x, y + 1) - To(a, b, x, y) <= 1
    decreases x + y
  {
    if y > 0 {
      Near(a, b, x, y - 1);
    }
    if x > 0 {
      Near(a, b, x - 1, y);
    }
  }

  /** What it is less than both lengths together is twice the characters kept. */
  lemma {:induction false} Kept(a: string, b: string, x: nat, y: nat) returns (j: nat)
    requires x <= |a| && y <= |b|
    ensures To(a, b, x, y) + 2 * j == x + y
    decreases x + y
  {
    if x == 0 || y == 0 {
      j := 0;
    } else if a[x - 1] == b[y - 1] {
      j := Kept(a, b, x - 1, y - 1);
      j := j + 1;
    } else if To(a, b, x - 1, y) <= To(a, b, x, y - 1) {
      j := Kept(a, b, x - 1, y);
    } else {
      j := Kept(a, b, x, y - 1);
    }
  }

  lemma {:induction false} Between(a: string, b: string, x: nat, y: nat)
    requires x <= |a| && y <= |b|
    ensures x - y <= To(a, b, x, y) && y - x <= To(a, b, x, y) <= x + y
    decreases x + y
  {
    if x > 0 && y > 0 {
      Between(a, b, x - 1, y - 1);
      Between(a, b, x - 1, y);
      Between(a, b, x, y - 1);
    }
  }

  /** Along a diagonal it does not fall. */
  lemma DiagonalStep(a: string, b: string, x: nat, y: nat)
    requires x < |a| && y < |b|
    ensures To(a, b, x, y) <= To(a, b, x + 1, y + 1)
  {
    Near(a, b, x, y);
  }

  lemma {:induction false} Diagonal(a: string, b: string, x: nat, y: nat, i: nat)
    requires x + i <= |a| && y + i <= |b|
    ensures To(a, b, x, y) <= To(a, b, x + i, y + i)
    decreases i
  {
    if i > 0 {
      Diagonal(a, b, x, y, i - 1);
      DiagonalStep(a, b, x + i - 1, y + i - 1);
    }
  }

  function Reversed(s: string): (r: string)
    ensures |r| == |s|
    ensures forall i :: 0 <= i < |s| ==> r[i] == s[|s| - 1 - i]
  {
    seq(|s|, i requires 0 <= i < |s| => s[|s| - 1 - i])
  }

  lemma ReversedTwice(s: string)
    ensures Reversed(Reversed(s)) == s
  {
  }

  /** The distance between the texts from x and y on. */
  function From(a: string, b: string, x: nat, y: nat): nat
    requires x <= |a| && y <= |b|
  {
    To(Reversed(a), Reversed(b), |a| - x, |b| - y)
  }

  /** It goes from the front as the other does from the back. */
  lemma FromStep(a: string, b: string, x: nat, y: nat)
    requires x <= |a| && y <= |b|
    ensures x == |a| ==> From(a, b, x, y) == |b| - y
    ensures y == |b| ==> From(a, b, x, y) == |a| - x
    ensures x < |a| && y < |b| ==>
              From(a, b, x, y) == if a[x] == b[y] then From(a, b, x + 1, y + 1)
                                  else 1 + Min(From(a, b, x + 1, y), From(a, b, x, y + 1))
  {
  }

  /** A way that leads through a point is not shorter. */
  lemma {:induction false} Through(a: string, b: string, x: nat, y: nat)
    requires x <= |a| && y <= |b|
    ensures Distance(a, b) <= To(a, b, x, y) + From(a, b, x, y)
    decreases |a| - x + |b| - y
  {
    FromStep(a, b, x, y);
    Near(a, b, x, y);
    if x < |a| && y < |b| && a[x] == b[y] {
      Through(a, b, x + 1, y + 1);
    } else {
      if x < |a| {
        Through(a, b, x + 1, y);
        FromStep(a, b, x + 1, y);
      }
      if y < |b| {
        Through(a, b, x, y + 1);
        FromStep(a, b, x, y + 1);
      }
    }
  }

  /** Both ways of counting agree. */
  lemma DistanceReversed(a: string, b: string)
    ensures From(a, b, 0, 0) == Distance(Reversed(a), Reversed(b)) == Distance(a, b)
  {
    Through(a, b, 0, 0);
    Through(Reversed(a), Reversed(b), 0, 0);
    ReversedTwice(a);
    ReversedTwice(b);
  }

  // A point of a shortest way, e edits from its beginning.
  predicate OnWay(a: string, b: string, e: nat, x: nat, y: nat) {
    x <= |a| && y <= |b| && To(a, b, x, y) == e && e <= Distance(a, b) && From(a, b, x, y) == Distance(a, b) - e
  }

  /** A shortest way can be followed to any number of edits. */
  lemma {:induction false} FollowWay(a: string, b: string, e: nat, x0: nat, y0: nat, e0: nat) returns (x: nat, y: nat)
    requires OnWay(a, b, e0, x0, y0) && e0 <= e <= Distance(a, b)
    ensures OnWay(a, b, e, x, y)
    decreases |a| - x0 + |b| - y0
  {
    x, y := x0, y0;
    if e0 < e {
      var x1, y1, e1 := NextOnWay(a, b, x0, y0, e0);
      x, y := FollowWay(a, b, e, x1, y1, e1);
    }
  }

  lemma NextOnWay(a: string, b: string, x: nat, y: nat, e: nat) returns (x': nat, y': nat, e': nat)
    requires OnWay(a, b, e, x, y) && e < Distance(a, b)
    ensures OnWay(a, b, e', x', y') && e <= e' <= e + 1 && x <= x' && y <= y' && x + y < x' + y'
  {
    FromStep(a, b, x, y);
    Near(a, b, x, y);
    if x < |a| && y < |b| && a[x] == b[y] {
      x', y', e' := x + 1, y + 1, e;
    } else if x < |a| && (y == |b| || From(a, b, x + 1, y) <= From(a, b, x, y + 1)) {
      x', y', e' := x + 1, y, e + 1;
      FromStep(a, b, x + 1, y);
      Through(a, b, x + 1, y);
    } else {
      x', y', e' := x, y + 1, e + 1;
      FromStep(a, b, x, y + 1);
      Through(a, b, x, y + 1);
    }
  }

  lemma WayPoint(a: string, b: string, e: nat) returns (x: nat, y: nat)
    requires e <= Distance(a, b)
    ensures OnWay(a, b, e, x, y)
  {
    DistanceReversed(a, b);
    x, y := FollowWay(a, b, e, 0, 0, 0);
  }

  lemma {:induction false} ToPrefixes(a: string, b: string, c: string, d: string, x: nat, y: nat)
    requires x <= |a| && y <= |b| && x <= |c| && y <= |d| && a[..x] == c[..x] && b[..y] == d[..y]
    ensures To(a, b, x, y) == To(c, d, x, y)
    decreases x + y
  {
    if x > 0 && y > 0 {
      assert a[x - 1] == a[..x][x - 1] && c[x - 1] == c[..x][x - 1];
      assert b[y - 1] == b[..y][y - 1] && d[y - 1] == d[..y][y - 1];
      assert a[..x - 1] == a[..x][..x - 1] && c[..x - 1] == c[..x][..x - 1];
      assert b[..y - 1] == b[..y][..y - 1] && d[..y - 1] == d[..y][..y - 1];
      ToPrefixes(a, b, c, d, x - 1, y - 1);
      ToPrefixes(a, b, c, d, x - 1, y);
      ToPrefixes(a, b, c, d, x, y - 1);
    }
  }

  lemma PrefixOfPoint(a: string, b: string, x: nat, y: nat)
    requires x <= |a| && y <= |b|
    ensures To(a, b, x, y) == Distance(a[..x], b[..y])
  {
    hide To;
    WholeFront(a[..x], x);
    WholeFront(b[..y], y);
    ToPrefixes(a, b, a[..x], b[..y], x, y);
  }

  lemma WholeFront(s: string, n: nat)
    requires n == |s|
    ensures s[..n] == s
  {
  }

  lemma SuffixOfPoint(a: string, b: string, x: nat, y: nat)
    requires x <= |a| && y <= |b|
    ensures From(a, b, x, y) == Distance(a[x..], b[y..])
  {
    hide To, Reversed, Distance;
    var c, d := a[x..], b[y..];
    ReversedRest(a, x);
    ReversedRest(b, y);
    ToPrefixes(Reversed(a), Reversed(b), Reversed(c), Reversed(d), |a| - x, |b| - y);
    WholeWay(Reversed(c), Reversed(d), |a| - x, |b| - y);
    DistanceReversed(c, d);
  }

  lemma WholeWay(a: string, b: string, x: nat, y: nat)
    requires x == |a| && y == |b|
    ensures To(a, b, x, y) == Distance(a, b)
  {
  }

  /** The distances before and behind a point are those of the parts. */
  lemma PartsOfPoint(a: string, b: string, x: nat, y: nat)
    requires x <= |a| && y <= |b|
    ensures To(a, b, x, y) == Distance(a[..x], b[..y]) && From(a, b, x, y) == Distance(a[x..], b[y..])
  {
    hide To, From, Distance;
    PrefixOfPoint(a, b, x, y);
    SuffixOfPoint(a, b, x, y);
  }

  lemma ReversedRest(s: string, i: nat)
    requires i <= |s|
    ensures |Reversed(s[i..])| == |s| - i && Reversed(s)[..|s| - i] == Reversed(s[i..])[..|s| - i]
  {
  }

  /** Texts put together are no further apart than their parts. */
  lemma Together(a: string, b: string, c: string, d: string)
    ensures Distance(a + c, b + d) <= Distance(a, b) + Distance(c, d)
  {
    assert (a + c)[..|a|] == a && (a + c)[|a|..] == c && (b + d)[..|b|] == b && (b + d)[|b|..] == d;
    PartsOfPoint(a + c, b + d, |a|, |b|);
    Through(a + c, b + d, |a|, |b|);
  }

  lemma {:induction false} NoDistance(t: string, x: nat)
    requires x <= |t|
    ensures To(t, t, x, x) == 0
  {
    if x > 0 {
      NoDistance(t, x - 1);
    }
  }

  /** A common end makes no difference. */
  lemma {:induction false} CommonSuffixFree(a: string, b: string, s: string)
    ensures Distance(a + s, b + s) == Distance(a, b)
    decreases |s|
  {
    if s == "" {
      assert a + s == a && b + s == b;
    } else {
      var t, c := s[..|s| - 1], s[|s| - 1];
      assert s == t + [c];
      CommonSuffixFree(a, b, t);
      OneMore(a + t, b + t, c);
      assert a + s == a + t + [c] && b + s == b + t + [c];
    }
  }

  lemma OneMore(a: string, b: string, c: char)
    ensures Distance(a + [c], b + [c]) == Distance(a, b)
  {
    assert (a + [c])[..|a|] == a && (b + [c])[..|b|] == b;
    assert a[..|a|] == a && b[..|b|] == b;
    ToPrefixes(a + [c], b + [c], a, b, |a|, |b|);
  }

  lemma ReversedAppend(a: string, b: string)
    ensures Reversed(a + b) == Reversed(b) + Reversed(a)
  {
  }

  lemma CommonPrefixFree(p: string, a: string, b: string)
    ensures Distance(p + a, p + b) == Distance(a, b)
  {
    DistanceReversed(p + a, p + b);
    DistanceReversed(a, b);
    ReversedAppend(p, a);
    ReversedAppend(p, b);
    CommonSuffixFree(Reversed(a), Reversed(b), Reversed(p));
  }

  lemma DistanceOfOne(d: Diff)
    ensures Distance(Part1(d), Part2(d)) <= Edited([d])
  {
    NoDistance(d.text, |d.text|);
    EditedOne(d);
  }

  /** No diff between two texts edits fewer characters. */
  lemma {:induction false} NoDiffShorter(ds: seq<Diff>)
    ensures Distance(Text1(ds), Text2(ds)) <= Edited(ds)
  {
    if ds == [] {
      assert Distance("", "") == 0;
    } else {
      var d, rest := ds[0], ds[1..];
      NoDiffShorter(rest);
      DistanceOfOne(d);
      assert ds == [d] + rest;
      EditedAppend([d], rest);
      Together(Part1(d), Part2(d), Text1(rest), Text2(rest));
    }
  }

  /** No character of one text is in the other. */
  predicate NoneInCommon(a: string, b: string) {
    forall i, j :: 0 <= i < |a| && 0 <= j < |b| ==> a[i] != b[j]
  }

  lemma {:induction false} NothingToKeep(a: string, b: string, x: nat, y: nat)
    requires NoneInCommon(a, b) && x <= |a| && y <= |b|
    ensures To(a, b, x, y) == x + y
    decreases x + y
  {
    if x > 0 && y > 0 {
      NothingToKeep(a, b, x - 1, y);
      NothingToKeep(a, b, x, y - 1);
    }
  }

  /** The texts have to be replaced as a whole exactly if they have no character in common. */
  lemma ReplacedWhole(a: string, b: string)
    ensures Distance(a, b) == |a| + |b| <==> NoneInCommon(a, b)
  {
    hide To;
    if NoneInCommon(a, b) {
      NothingToKeep(a, b, |a|, |b|);
    } else {
      var i, j :| 0 <= i < |a| && 0 <= j < |b| && a[i] == b[j];
      Through(a, b, i, j);
      FromStep(a, b, i, j);
      Between(a, b, i, j);
      Between(Reversed(a), Reversed(b), |a| - i - 1, |b| - j - 1);
    }
  }
}
