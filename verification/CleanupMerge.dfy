/** diff_cleanupMerge: like edits are merged, and single edits are shifted to absorb equalities. */
module CleanupMerging {
  import opened Strings
  import opened Diffs

  /** The edits of a run and what they delete and insert. */
  ghost predicate Run(ds: seq<Diff>, dels: nat, ins: nat, td: string, ti: string) {
    && |ds| == dels + ins
    && (forall j :: 0 <= j < |ds| ==> ds[j].op != EQUAL)
    && Text1(ds) == td && Text2(ds) == ti && Edited(ds) == |td| + |ti|
    && (dels == 0 ==> td == "") && (ins == 0 ==> ti == "")
  }

  lemma RunGrow(ds: seq<Diff>, dels: nat, ins: nat, td: string, ti: string, d: Diff)
    requires Run(ds, dels, ins, td, ti) && d.op != EQUAL
    ensures d.op == DELETE ==> Run(ds + [d], dels + 1, ins, td + d.text, ti)
    ensures d.op == INSERT ==> Run(ds + [d], dels, ins + 1, td, ti + d.text)
  {
    TextAppend(ds, [d]);
    TextOne(d);
    EditedAppend(ds, [d]);
    EditedOne(d);
  }

  /** Nothing in common at either end. */
  predicate Apart(td: string, ti: string) {
    |td| > 0 && |ti| > 0 ==> td[0] != ti[0] && td[|td| - 1] != ti[|ti| - 1]
  }

  /** Two entries that may stand side by side: edits meet only as a deletion and the insertion that
      replaces it, which share no prefix and no suffix. */
  predicate Neighbours(a: Diff, b: Diff) {
    a.op == EQUAL || b.op == EQUAL || (a.op == DELETE && b.op == INSERT && Apart(a.text, b.text))
  }

  predicate Tidy(ds: seq<Diff>) {
    forall i :: 1 <= i < |ds| ==> Neighbours(ds[i - 1], ds[i])
  }

  predicate EndsEqual(ds: seq<Diff>) {
    |ds| == 0 || ds[|ds| - 1].op == EQUAL
  }

  lemma TidyEqual(ds: seq<Diff>, e: Diff)
    requires Tidy(ds) && e.op == EQUAL
    ensures Tidy(ds + [e]) && EndsEqual(ds + [e])
  {
  }

  lemma TidyMerged(ds: seq<Diff>, td: string, ti: string)
    requires Tidy(ds) && EndsEqual(ds) && Apart(td, ti)
    ensures Tidy(ds + Merged(td, ti))
  {
  }

  /** Two equalities stand side by side. */
  predicate Paired(ds: seq<Diff>) {
    exists i :: 1 <= i < |ds| && ds[i - 1].op == EQUAL && ds[i].op == EQUAL
  }

  lemma PairedAppend(a: seq<Diff>, b: seq<Diff>)
    requires EndsEqual(a)
    ensures Paired(a + b) <==> Paired(a) || Paired(b) || (|a| > 0 && |b| > 0 && b[0].op == EQUAL)
  {
    var s := a + b;
    if Paired(a) {
      var i :| 1 <= i < |a| && a[i - 1].op == EQUAL && a[i].op == EQUAL;
      assert s[i - 1].op == EQUAL && s[i].op == EQUAL;
    }
    if Paired(b) {
      var i :| 1 <= i < |b| && b[i - 1].op == EQUAL && b[i].op == EQUAL;
      assert s[|a| + i - 1].op == EQUAL && s[|a| + i].op == EQUAL;
    }
    if |a| > 0 && |b| > 0 && b[0].op == EQUAL {
      assert s[|a| - 1].op == EQUAL && s[|a|].op == EQUAL;
    }
    if Paired(s) {
      var i :| 1 <= i < |s| && s[i - 1].op == EQUAL && s[i].op == EQUAL;
      PairedWhere(a, b, i);
    }
  }

  lemma PairedWhere(a: seq<Diff>, b: seq<Diff>, i: int)
    requires 1 <= i < |a + b| && (a + b)[i - 1].op == EQUAL && (a + b)[i].op == EQUAL
    ensures Paired(a) || Paired(b) || (|a| > 0 && |b| > 0 && b[0].op == EQUAL)
  {
    if i < |a| {
      assert a[i - 1].op == EQUAL && a[i].op == EQUAL;
    } else if i > |a| {
      assert b[i - |a| - 1].op == EQUAL && b[i - |a|].op == EQUAL;
    }
  }

  /** The edits from i to j between two equalities, or in front of the first, delete what they insert, and
      are more than one. */
  predicate Cancels(ds: seq<Diff>, i: int, j: int) {
    && 0 <= i && i + 1 < j < |ds| && ds[j].op == EQUAL && (i == 0 || ds[i - 1].op == EQUAL)
    && (forall k :: i <= k < j ==> ds[k].op != EQUAL)
    && Text1(ds[i..j]) == Text2(ds[i..j]) && (i == 0 ==> Text1(ds[i..j]) != "")
  }

  ghost predicate Cancelled(ds: seq<Diff>, n: int) {
    exists i, j :: j < n && Cancels(ds, i, j)
  }

  /** Neither the edited characters nor, if they stay the same, the entries became more. */
  predicate NotMore(a: seq<Diff>, b: seq<Diff>) {
    Edited(a) < Edited(b) || (Edited(a) == Edited(b) && |a| <= |b|)
  }
  function Merged(td: string, ti: string): (r: seq<Diff>)
    ensures |r| == (if td == "" then 0 else 1) + (if ti == "" then 0 else 1)
    ensures forall j :: 0 <= j < |r| ==> r[j].op != EQUAL
  {
    (if td == "" then [] else [Diff(DELETE, td)]) + (if ti == "" then [] else [Diff(INSERT, ti)])
  }

  lemma MergedText(td: string, ti: string)
    ensures Text1(Merged(td, ti)) == td && Text2(Merged(td, ti)) == ti && Edited(Merged(td, ti)) == |td| + |ti|
  {
    var a: seq<Diff> := if td == "" then [] else [Diff(DELETE, td)];
    var b: seq<Diff> := if ti == "" then [] else [Diff(INSERT, ti)];
    TextAppend(a, b);
    EditedAppend(a, b);
    TextOne(Diff(DELETE, td));
    TextOne(Diff(INSERT, ti));
    EditedOne(Diff(DELETE, td));
    EditedOne(Diff(INSERT, ti));
  }

  /** The list while a merged run is still to be inserted at cur. */
  function Pending(ds: seq<Diff>, cur: nat, td: string, ti: string): seq<Diff>
    requires cur <= |ds|
  {
    ds[..cur] + Merged(td, ti) + ds[cur..]
  }

  lemma EraseRun(ds: seq<Diff>, first: nat, cur: nat, dels: nat, ins: nat, td: string, ti: string)
    requires first <= cur <= |ds| && dels + ins > 1 && Run(ds[first..cur], dels, ins, td, ti)
    ensures first <= |Splice(ds, first, cur, [])|
    ensures var v := Pending(Splice(ds, first, cur, []), first, td, ti); Same(v, ds) && NotMore(v, ds)
  {
    var e := Splice(ds, first, cur, []);
    assert Pending(e, first, td, ti) == Splice(ds, first, cur, Merged(td, ti));
    MergedText(td, ti);
    SpliceSame(ds, first, cur, Merged(td, ti));
    EditedSplice(ds, first, cur, Merged(td, ti));
  }

  /** A common prefix moves into the equality before the run. */
  lemma PrefixOut(x: string, p: string, td: string, ti: string)
    ensures Same([Diff(EQUAL, x + p)] + Merged(td, ti), [Diff(EQUAL, x)] + Merged(p + td, p + ti))
    ensures Edited([Diff(EQUAL, x + p)] + Merged(td, ti)) == Edited([Diff(EQUAL, x)] + Merged(p + td, p + ti)) - 2 * |p|
  {
    RunAfter(x + p, td, ti);
    RunAfter(x, p + td, p + ti);
    Assoc(x, p, td);
    Assoc(x, p, ti);
  }

  lemma RunAfter(x: string, td: string, ti: string)
    ensures var v := [Diff(EQUAL, x)] + Merged(td, ti);
            Text1(v) == x + td && Text2(v) == x + ti && Edited(v) == |td| + |ti|
  {
    MergedText(td, ti);
    TextAppend([Diff(EQUAL, x)], Merged(td, ti));
    EditedAppend([Diff(EQUAL, x)], Merged(td, ti));
    TextOne(Diff(EQUAL, x));
    EditedOne(Diff(EQUAL, x));
  }

  /** A common suffix moves into the equality behind it. */
  lemma SuffixOut(x: string, p: string, td: string, ti: string)
    ensures Same(Merged(td, ti) + [Diff(EQUAL, p + x)], Merged(td + p, ti + p) + [Diff(EQUAL, x)])
    ensures Edited(Merged(td, ti) + [Diff(EQUAL, p + x)]) == Edited(Merged(td + p, ti + p) + [Diff(EQUAL, x)]) - 2 * |p|
  {
    RunBefore(p + x, td, ti);
    RunBefore(x, td + p, ti + p);
    Assoc(td, p, x);
    Assoc(ti, p, x);
  }

  lemma RunBefore(x: string, td: string, ti: string)
    ensures var v := Merged(td, ti) + [Diff(EQUAL, x)];
            Text1(v) == td + x && Text2(v) == ti + x && Edited(v) == |td| + |ti|
  {
    MergedText(td, ti);
    TextAppend(Merged(td, ti), [Diff(EQUAL, x)]);
    EditedAppend(Merged(td, ti), [Diff(EQUAL, x)]);
    TextOne(Diff(EQUAL, x));
    EditedOne(Diff(EQUAL, x));
  }

  lemma Around(a: seq<Diff>, b: seq<Diff>, b': seq<Diff>, c: seq<Diff>)
    requires Same(b', b) && Edited(b') < Edited(b)
    ensures Same(a + b' + c, a + b + c) && Edited(a + b' + c) < Edited(a + b + c)
  {
    SameAround(a, b', c, b);
    EditedAppend(a + b, c);
    EditedAppend(a, b);
    EditedAppend(a + b', c);
    EditedAppend(a, b');
  }

  lemma PrefixToPrevious(ds: seq<Diff>, cur: nat, p: string, td: string, ti: string)
    requires 0 < cur <= |ds| && p != "" && ds[cur - 1].op == EQUAL
    ensures var v := Pending(ds[cur - 1 := Diff(EQUAL, ds[cur - 1].text + p)], cur, td, ti);
            Same(v, Pending(ds, cur, p + td, p + ti)) && Edited(v) < Edited(Pending(ds, cur, p + td, p + ti))
  {
    hide Text1, Text2, Edited;
    var x, a, c := ds[cur - 1].text, ds[..cur - 1], ds[cur..];
    PrefixOut(x, p, td, ti);
    Around(a, [Diff(EQUAL, x)] + Merged(p + td, p + ti), [Diff(EQUAL, x + p)] + Merged(td, ti), c);
    PendingBehind(a, Diff(EQUAL, x), c, p + td, p + ti);
    PendingBehind(a, Diff(EQUAL, x + p), c, td, ti);
    assert ds == a + [Diff(EQUAL, x)] + c;
    assert ds[cur - 1 := Diff(EQUAL, x + p)] == a + [Diff(EQUAL, x + p)] + c;
  }

  lemma PendingBehind(a: seq<Diff>, e: Diff, c: seq<Diff>, td: string, ti: string)
    ensures Pending(a + [e] + c, |a| + 1, td, ti) == a + ([e] + Merged(td, ti)) + c
  {
    assert (a + [e] + c)[..|a| + 1] == a + [e] && (a + [e] + c)[|a| + 1..] == c;
  }

  lemma PendingBefore(a: seq<Diff>, e: Diff, c: seq<Diff>, td: string, ti: string)
    ensures Pending(a + [e] + c, |a|, td, ti) == a + (Merged(td, ti) + [e]) + c
  {
    assert (a + [e] + c)[..|a|] == a && (a + [e] + c)[|a|..] == [e] + c;
  }

  lemma PrefixInFront(ds: seq<Diff>, p: string, td: string, ti: string)
    requires p != ""
    ensures var v := Pending([Diff(EQUAL, p)] + ds, 1, td, ti);
            Same(v, Pending(ds, 0, p + td, p + ti)) && Edited(v) < Edited(Pending(ds, 0, p + td, p + ti))
  {
    RunAfter(p, td, ti);
    MergedText(p + td, p + ti);
    var e, m := [Diff(EQUAL, p)] + ds, Merged(p + td, p + ti);
    var v := [Diff(EQUAL, p)] + Merged(td, ti);
    InFront(v, m, ds);
    PendingFirst(ds, p + td, p + ti);
    PendingSecond(ds, Diff(EQUAL, p), td, ti);
  }

  lemma InFront(b': seq<Diff>, b: seq<Diff>, c: seq<Diff>)
    requires Same(b', b) && Edited(b') < Edited(b)
    ensures Same(b' + c, b + c) && Edited(b' + c) < Edited(b + c)
  {
    TextAppend(b', c);
    TextAppend(b, c);
    EditedAppend(b', c);
    EditedAppend(b, c);
  }

  lemma PendingFirst(ds: seq<Diff>, td: string, ti: string)
    ensures Pending(ds, 0, td, ti) == Merged(td, ti) + ds
  {
  }

  lemma PendingSecond(ds: seq<Diff>, e: Diff, td: string, ti: string)
    ensures Pending([e] + ds, 1, td, ti) == [e] + Merged(td, ti) + ds
  {
    assert ([e] + ds)[..1] == [e] && ([e] + ds)[1..] == ds;
  }

  lemma SuffixFactored(ds: seq<Diff>, cur: nat, p: string, td: string, ti: string)
    requires cur < |ds| && p != "" && ds[cur].op == EQUAL
    ensures var v := Pending(ds[cur := Diff(EQUAL, p + ds[cur].text)], cur, td, ti);
            Same(v, Pending(ds, cur, td + p, ti + p)) && Edited(v) < Edited(Pending(ds, cur, td + p, ti + p))
  {
    var x, a, c := ds[cur].text, ds[..cur], ds[cur + 1..];
    SuffixBetween(a, x, c, p, td, ti);
    assert ds == a + [Diff(EQUAL, x)] + c;
    assert ds[cur := Diff(EQUAL, p + x)] == a + [Diff(EQUAL, p + x)] + c;
  }

  lemma SuffixBetween(a: seq<Diff>, x: string, c: seq<Diff>, p: string, td: string, ti: string)
    requires p != ""
    ensures var v, w := Pending(a + [Diff(EQUAL, p + x)] + c, |a|, td, ti), Pending(a + [Diff(EQUAL, x)] + c, |a|, td + p, ti + p);
            Same(v, w) && Edited(v) < Edited(w)
  {
    SuffixOut(x, p, td, ti);
    Around(a, Merged(td + p, ti + p) + [Diff(EQUAL, x)], Merged(td, ti) + [Diff(EQUAL, p + x)], c);
    PendingBefore(a, Diff(EQUAL, x), c, td + p, ti + p);
    PendingBefore(a, Diff(EQUAL, p + x), c, td, ti);
  }

  /** What the deleted and the inserted text begin with alike goes into the equality before them. */
  method FactorPrefix(d: DiffList, cur0: nat, td0: string, ti0: string) returns (cur: nat, td: string, ti: string)
    requires cur0 < |d.items| && d.items[cur0].op == EQUAL && (cur0 > 0 ==> d.items[cur0 - 1].op == EQUAL)
    requires Tidy(d.items[..cur0])
    modifies d
    ensures cur < |d.items| && d.items[cur..] == old(d.items[cur0..]) && (cur > 0 ==> d.items[cur - 1].op == EQUAL)
    ensures Tidy(d.items[..cur]) && (|td| > 0 && |ti| > 0 ==> td[0] != ti[0])
    ensures Paired(d.items[..cur]) == old(Paired(d.items[..cur0])) && (td == ti <==> td0 == ti0)
    ensures cur > 0 <==> cur0 > 0 || (|td0| > 0 && |ti0| > 0 && td0[0] == ti0[0])
    ensures Same(Pending(d.items, cur, td, ti), old(Pending(d.items, cur0, td0, ti0)))
    ensures NotMore(Pending(d.items, cur, td, ti), old(Pending(d.items, cur0, td0, ti0)))
  {
    ghost var D := d.items;
    cur, td, ti := cur0, td0, ti0;
    var n := CommonPrefix(ti, td);
    if n != 0 {
      ghost var p := ti[..n];
      ti, td := ti[n..], td[n..];
      assert ti0 == p + ti && td0 == p + td;
      SameBehind(p, td, ti);
      if cur != 0 {
        PrefixToPrevious(D, cur, p, td, ti);
        PairedText(D, cur, Diff(EQUAL, D[cur - 1].text + p));
        var prev := cur - 1;
        if d.items[prev].op != EQUAL {
          assert false;
        }
        d.items := d.items[prev := Diff(EQUAL, d.items[prev].text + ti0[..n])];
      } else {
        PrefixInFront(D, p, td, ti);
        d.items := [Diff(EQUAL, ti0[..n])] + d.items;
        cur := cur + 1;
      }
    }
  }

  lemma SameBehind(p: string, a: string, b: string)
    ensures p + a == p + b <==> a == b
  {
    assert (p + a)[|p|..] == a && (p + b)[|p|..] == b;
  }

  // Only the text of the last entry changes.
  lemma PairedText(ds: seq<Diff>, cur: nat, e: Diff)
    requires 0 < cur <= |ds| && ds[cur - 1].op == EQUAL && e.op == EQUAL
    ensures Paired(ds[cur - 1 := e][..cur]) == Paired(ds[..cur])
  {
    var a, b := ds[..cur], ds[cur - 1 := e][..cur];
    assert |a| == |b| && forall k :: 0 <= k < |a| ==> a[k].op == b[k].op;
  }

  /** What they end with alike goes into the equality behind them. */
  method FactorSuffix(d: DiffList, cur: nat, td0: string, ti0: string) returns (td: string, ti: string, ghost x: string)
    requires cur < |d.items| && d.items[cur].op == EQUAL
    modifies d
    ensures d.items == old(d.items[cur := Diff(EQUAL, x)])
    ensures (|td0| > 0 && |ti0| > 0 ==> td0[0] != ti0[0]) ==> Apart(td, ti) && (td == ti <==> td0 == ti0)
    ensures Edited(Pending(d.items, cur, td, ti)) == old(Edited(Pending(d.items, cur, td0, ti0))) ==> d.items == old(d.items)
    ensures Same(Pending(d.items, cur, td, ti), old(Pending(d.items, cur, td0, ti0)))
    ensures NotMore(Pending(d.items, cur, td, ti), old(Pending(d.items, cur, td0, ti0)))
  {
    td, ti, x := td0, ti0, d.items[cur].text;
    var n := CommonSuffix(ti, td);
    if n != 0 {
      SuffixStep(d.items, cur, td0, ti0, n);
      x := Right(ti, n) + d.items[cur].text;
      d.items := d.items[cur := Diff(EQUAL, Right(ti, n) + d.items[cur].text)];
      ti, td := ti[..|ti| - n], td[..|td| - n];
    }
  }

  lemma SuffixStep(ds: seq<Diff>, cur: nat, td: string, ti: string, n: nat)
    requires cur < |ds| && ds[cur].op == EQUAL && n > 0 && CommonEnd(ti, td, n)
    ensures var v := Pending(ds[cur := Diff(EQUAL, Right(ti, n) + ds[cur].text)], cur, td[..|td| - n], ti[..|ti| - n]);
            Same(v, Pending(ds, cur, td, ti)) && Edited(v) < Edited(Pending(ds, cur, td, ti))
  {
    var p := Right(ti, n);
    assert ti == ti[..|ti| - n] + p && td == td[..|td| - n] + p;
    SuffixFactored(ds, cur, p, td[..|td| - n], ti[..|ti| - n]);
  }

  /** The run comes back as at most one deletion and one insertion. */
  method InsertMerged(d: DiffList, cur0: nat, td: string, ti: string) returns (cur: nat)
    requires cur0 <= |d.items| && Tidy(d.items[..cur0]) && EndsEqual(d.items[..cur0]) && Apart(td, ti)
    modifies d
    ensures d.items == old(Pending(d.items, cur0, td, ti)) && cur <= |d.items| && d.items[cur..] == old(d.items[cur0..])
    ensures Tidy(d.items[..cur])
  {
    ghost var D := d.items;
    cur := cur0;
    TidyMerged(D[..cur0], td, ti);
    if td != "" {
      d.items := Splice(d.items, cur, cur, [Diff(DELETE, td)]);
      cur := cur + 1;
    }
    if ti != "" {
      d.items := Splice(d.items, cur, cur, [Diff(INSERT, ti)]);
      cur := cur + 1;
    }
    assert d.items[..cur] == D[..cur0] + Merged(td, ti);
  }

  /** A run of more than one edit is taken out; its texts are pending. */
  method DropRun(d: DiffList, cur0: nat, dels: nat, ins: nat, td: string, ti: string, ghost eq: Diff,
                 ghost tail: seq<Diff>)
    returns (cur: nat)
    requires dels + ins > 1 && dels + ins <= cur0 < |d.items| && d.items[cur0..] == [eq] + tail
    requires Run(d.items[cur0 - dels - ins..cur0], dels, ins, td, ti)
    modifies d
    ensures cur == cur0 - dels - ins && cur < |d.items|
    ensures d.items[..cur] == old(d.items[..cur]) && d.items[cur..] == [eq] + tail
    ensures Same(Pending(d.items, cur, td, ti), old(d.items)) && NotMore(Pending(d.items, cur, td, ti), old(d.items))
  {
    cur := cur0 - dels - ins;
    EraseRun(d.items, cur, cur0, dels, ins, td, ti);
    d.items := Splice(d.items, cur, cur0, []);
  }

  method PutRun(d: DiffList, cur0: nat, td: string, ti: string, ghost eq: Diff,
                ghost tail: seq<Diff>) returns (cur: nat)
    requires cur0 < |d.items| && d.items[cur0..] == [eq] + tail && eq.op == EQUAL
    requires Tidy(d.items[..cur0]) && EndsEqual(d.items[..cur0]) && Apart(td, ti)
    modifies d
    ensures d.items == old(Pending(d.items, cur0, td, ti))
    ensures cur < |d.items| && d.items[cur..] == [eq] + tail
    ensures Tidy(d.items[..cur + 1]) && EndsEqual(d.items[..cur + 1])
    ensures Paired(d.items[..cur + 1]) <==> old(Paired(d.items[..cur0])) || (td == "" && ti == "" && cur0 > 0)
  {
    ghost var D := d.items[..cur0];
    cur := InsertMerged(d, cur0, td, ti);
    TidyEqual(d.items[..cur], eq);
    assert d.items[cur] == d.items[cur..][0];
    assert d.items[..cur + 1] == d.items[..cur] + [eq];
    assert d.items[..cur] == D + Merged(td, ti);
    PutPaired(D, td, ti, eq);
  }

  lemma PutPaired(a: seq<Diff>, td: string, ti: string, eq: Diff)
    requires EndsEqual(a) && eq.op == EQUAL
    ensures Paired(a + Merged(td, ti) + [eq]) <==> Paired(a) || (td == "" && ti == "" && |a| > 0)
  {
    var b := Merged(td, ti) + [eq];
    Assoc(a, Merged(td, ti), [eq]);
    assert !Paired(b);
    PairedAppend(a, b);
  }

  method Factor(d: DiffList, cur0: nat, td0: string, ti0: string, ghost eq0: Diff, ghost tail: seq<Diff>)
    returns (cur: nat, td: string, ti: string, ghost eq: Diff)
    requires cur0 < |d.items| && d.items[cur0..] == [eq0] + tail && eq0.op == EQUAL
    requires Tidy(d.items[..cur0]) && EndsEqual(d.items[..cur0])
    modifies d
    ensures cur < |d.items| && d.items[cur..] == [eq] + tail && eq.op == EQUAL
    ensures Tidy(d.items[..cur]) && EndsEqual(d.items[..cur]) && Apart(td, ti)
    ensures Paired(d.items[..cur]) == old(Paired(d.items[..cur0])) && (td0 == ti0 <==> td == "" && ti == "")
    ensures (cur0 > 0 ==> cur > 0) && (td0 == ti0 ==> (cur > 0 <==> cur0 > 0 || td0 != ""))
    ensures Same(Pending(d.items, cur, td, ti), old(Pending(d.items, cur0, td0, ti0)))
    ensures NotMore(Pending(d.items, cur, td, ti), old(Pending(d.items, cur0, td0, ti0)))
    ensures Edited(Pending(d.items, cur, td, ti)) == old(Edited(Pending(d.items, cur0, td0, ti0))) ==> eq == eq0
  {
    assert cur0 > 0 ==> d.items[..cur0][cur0 - 1] == d.items[cur0 - 1];
    assert d.items[cur0] == d.items[cur0..][0];
    cur, td, ti := FactorPrefix(d, cur0, td0, ti0);
    assert d.items[cur] == d.items[cur..][0];
    ghost var x, D := "", d.items;
    td, ti, x := FactorSuffix(d, cur, td, ti);
    eq := Diff(EQUAL, x);
    ReplaceAt(D, cur, eq, eq0, tail);
  }

  lemma ReplaceAt(ds: seq<Diff>, cur: nat, e: Diff, e0: Diff, tail: seq<Diff>)
    requires cur < |ds| && ds[cur..] == [e0] + tail
    ensures ds[cur := e][cur..] == [e] + tail && ds[cur := e][..cur] == ds[..cur]
    ensures cur > 0 ==> ds[..cur][cur - 1] == ds[cur - 1]
    ensures ds[cur := e] == ds ==> e == e0
  {
    assert ds[cur] == ds[cur..][0];
  }

  /** What the equality case of the first pass does to a run of more than one edit. The entry before
      the run, if there is one, is an equality: the exception is never thrown. */
  method MergeRun(d: DiffList, cur0: nat, dels: nat, ins: nat, td0: string, ti0: string, ghost eq0: Diff,
                  ghost tail: seq<Diff>)
    returns (cur: nat, ghost eq: Diff)
    requires dels + ins > 1 && dels + ins <= cur0 < |d.items| && d.items[cur0..] == [eq0] + tail && eq0.op == EQUAL
    requires Run(d.items[cur0 - dels - ins..cur0], dels, ins, td0, ti0)
    requires Tidy(d.items[..cur0 - dels - ins]) && EndsEqual(d.items[..cur0 - dels - ins])
    modifies d
    ensures Same(d.items, old(d.items)) && NotMore(d.items, old(d.items))
    ensures cur < |d.items| && d.items[cur..] == [eq] + tail && eq.op == EQUAL
    ensures Tidy(d.items[..cur + 1]) && EndsEqual(d.items[..cur + 1])
    ensures var first := cur0 - dels - ins;
            Paired(d.items[..cur + 1]) <==> old(Paired(d.items[..first])) || (td0 == ti0 && (first > 0 || td0 != ""))
    ensures Edited(d.items) == old(Edited(d.items)) ==> eq == eq0
  {
    var td, ti := td0, ti0;
    eq := eq0;
    cur := DropRun(d, cur0, dels, ins, td, ti, eq0, tail);
    if dels != 0 && ins != 0 {
      cur, td, ti, eq := Factor(d, cur, td, ti, eq0, tail);
    }
    cur := PutRun(d, cur, td, ti, eq, tail);
  }

  /** The state of the first pass: the entries before the run that ends at cur are tidy, and prev is
      the equality just before cur, or -1. */
  ghost predicate Scan(ds: seq<Diff>, cur: nat, prev: int, dels: nat, ins: nat, td: string, ti: string) {
    && dels + ins <= cur <= |ds|
    && Run(ds[cur - dels - ins..cur], dels, ins, td, ti)
    && Tidy(ds[..cur - dels - ins]) && EndsEqual(ds[..cur - dels - ins])
    && (prev != -1 ==> prev == cur - 1 && dels + ins == 0)
  }

  /** The entries not yet seen, and the open run, are still those of the list D at the start; two equalities
      stand side by side behind the cursor exactly if a run there has cancelled out. */
  ghost predicate Followed(ds: seq<Diff>, cur: nat, prev: int, run: nat, D: seq<Diff>) {
    && run <= cur <= |ds| && |ds| - cur + run <= |D|
    && var first := |D| - (|ds| - cur) - run;
       && ds[cur - run..] == D[first..] && (first == 0 <==> cur - run == 0)
       && (first == 0 || D[first - 1].op == EQUAL) && (forall k :: first <= k < first + run ==> D[k].op != EQUAL)
       && (prev == -1 && run == 0 ==> cur == 0)
       && (Paired(ds[..cur - run]) <==> Cancelled(D, first))
  }

  // Where the cursor stands in the list at the start.
  function Place(ds: seq<Diff>, cur: nat, D: seq<Diff>): int {
    |D| - (|ds| - cur)
  }

  lemma FollowStart(ds: seq<Diff>)
    ensures Followed(ds, 0, -1, 0, ds)
  {
    assert ds[..0] == [] && ds[0..] == ds;
  }

  lemma FollowEdit(ds: seq<Diff>, cur: nat, prev: int, run: nat, D: seq<Diff>)
    requires Followed(ds, cur, prev, run, D) && cur < |ds| && ds[cur].op != EQUAL
    ensures Followed(ds, cur + 1, -1, run + 1, D)
  {
    var first := Place(ds, cur, D) - run;
    assert ds[cur] == ds[cur - run..][run] && D[first + run] == D[first..][run];
  }

  /** One equality more: a run that ends here is the only one that can have cancelled out. */
  lemma CancelledOneMore(D: seq<Diff>, first: nat, at: nat)
    requires first <= at < |D| && D[at].op == EQUAL && (first == 0 || D[first - 1].op == EQUAL)
    requires forall k :: first <= k < at ==> D[k].op != EQUAL
    ensures Cancelled(D, at + 1) <==> Cancelled(D, first) || Cancels(D, first, at)
  {
    if Cancelled(D, first) {
      var i, j :| j < first && Cancels(D, i, j);
      assert j < at + 1;
    }
    if Cancelled(D, at + 1) && !Cancelled(D, first) {
      var i, j :| j < at + 1 && Cancels(D, i, j);
      CancelsLast(D, first, at, i, j);
    }
  }

  lemma CancelsLast(D: seq<Diff>, first: nat, at: nat, i: int, j: int)
    requires first <= at < |D| && D[at].op == EQUAL && (first == 0 || D[first - 1].op == EQUAL)
    requires forall k :: first <= k < at ==> D[k].op != EQUAL
    requires first <= j <= at && Cancels(D, i, j)
    ensures i == first && j == at
  {
    assert D[j].op == EQUAL;
    assert first > 0 ==> D[first - 1].op == EQUAL;
    assert i > 0 ==> D[i - 1].op == EQUAL;
  }

  /** The list from the equality at cur on is tail, and the entries up to it are as given. */
  lemma FollowEqual(ds: seq<Diff>, cur: nat, prev: int, run: nat, D: seq<Diff>, es: seq<Diff>, cur': nat)
    requires Followed(ds, cur, prev, run, D) && cur < |ds| && ds[cur].op == EQUAL
    requires cur' < |es| && es[cur' + 1..] == ds[cur + 1..]
    requires var first := Place(ds, cur, D) - run;
             Paired(es[..cur' + 1]) <==> Paired(ds[..cur - run]) || Cancels(D, first, first + run)
    ensures Followed(es, cur' + 1, cur', 0, D)
  {
    hide Paired, Cancelled, Cancels;
    var at := Place(ds, cur, D);
    assert |es[cur' + 1..]| == |ds[cur + 1..]|;
    SameRest(D, at - run, ds, cur - run, run);
    CancelledOneMore(D, at - run, at);
  }

  lemma SameRest(a: seq<Diff>, i: nat, b: seq<Diff>, j: nat, n: nat)
    requires i <= |a| && j <= |b| && a[i..] == b[j..] && j + n < |b|
    ensures i + n < |a| && a[i + n] == b[j + n] && a[i + n + 1..] == b[j + n + 1..]
  {
    assert |a[i..]| == |b[j..]|;
    assert a[i + n] == a[i..][n] && b[j + n] == b[j..][n];
    assert a[i + n + 1..] == a[i..][n + 1..] && b[j + n + 1..] == b[j..][n + 1..];
  }

  lemma RunInPlace(ds: seq<Diff>, cur: nat, prev: int, run: nat, D: seq<Diff>)
    requires Followed(ds, cur, prev, run, D)
    ensures var first := Place(ds, cur, D) - run;
            first >= 0 && D[first..first + run] == ds[cur - run..cur] && (first == 0 <==> cur - run == 0)
    ensures var first := Place(ds, cur, D) - run;
            cur < |ds| ==> first + run < |D| && D[first + run] == ds[cur]
  {
    var first := Place(ds, cur, D) - run;
    assert D[first..first + run] == D[first..][..run] && ds[cur - run..cur] == ds[cur - run..][..run];
    if cur < |ds| {
      assert D[first + run] == D[first..][run] && ds[cur] == ds[cur - run..][run];
    }
  }

  /** Whether the run that ends at cur cancels out. */
  lemma CancelsHere(ds: seq<Diff>, cur: nat, prev: int, dels: nat, ins: nat, td: string, ti: string, D: seq<Diff>)
    requires Scan(ds, cur, prev, dels, ins, td, ti) && Followed(ds, cur, prev, dels + ins, D)
    requires cur < |ds| && ds[cur].op == EQUAL
    ensures var first := Place(ds, cur, D) - (dels + ins);
            Cancels(D, first, first + dels + ins)
            <==> dels + ins > 1 && td == ti && (cur - (dels + ins) > 0 || td != "")
  {
    hide Paired, Cancelled, Tidy;
    RunInPlace(ds, cur, prev, dels + ins, D);
  }

  lemma ScanDelete(ds: seq<Diff>, cur: nat, prev: int, dels: nat, ins: nat, td: string, ti: string)
    requires Scan(ds, cur, prev, dels, ins, td, ti) && cur < |ds| && ds[cur].op == DELETE
    ensures Scan(ds, cur + 1, -1, dels + 1, ins, td + ds[cur].text, ti)
  {
    RunGrow(ds[cur - dels - ins..cur], dels, ins, td, ti, ds[cur]);
    assert ds[cur - dels - ins..cur + 1] == ds[cur - dels - ins..cur] + [ds[cur]];
  }

  lemma ScanInsert(ds: seq<Diff>, cur: nat, prev: int, dels: nat, ins: nat, td: string, ti: string)
    requires Scan(ds, cur, prev, dels, ins, td, ti) && cur < |ds| && ds[cur].op == INSERT
    ensures Scan(ds, cur + 1, -1, dels, ins + 1, td, ti + ds[cur].text)
  {
    RunGrow(ds[cur - dels - ins..cur], dels, ins, td, ti, ds[cur]);
    assert ds[cur - dels - ins..cur + 1] == ds[cur - dels - ins..cur] + [ds[cur]];
  }

  lemma ScanEqual(ds: seq<Diff>, cur: nat)
    requires cur < |ds| && Tidy(ds[..cur + 1]) && EndsEqual(ds[..cur + 1])
    ensures Scan(ds, cur + 1, cur, 0, 0, "", "")
  {
    assert ds[cur + 1..cur + 1] == [];
  }

  /** A single edit, or none, before an equality is left alone. */
  lemma ScanSingle(ds: seq<Diff>, cur: nat, prev: int, dels: nat, ins: nat, td: string, ti: string)
    requires Scan(ds, cur, prev, dels, ins, td, ti) && cur < |ds| && ds[cur].op == EQUAL && dels + ins <= 1
    ensures Tidy(ds[..cur + 1]) && EndsEqual(ds[..cur + 1])
  {
    var done := ds[..cur - dels - ins];
    if dels + ins == 1 {
      assert ds[..cur] == done + [ds[cur - 1]];
      assert Tidy(ds[..cur]);
    }
    TidyEqual(ds[..cur], ds[cur]);
    assert ds[..cur + 1] == ds[..cur] + [ds[cur]];
  }

  /** Two equalities that meet become one. */
  lemma JoinEqual(ds: seq<Diff>, cur: nat)
    requires 0 < cur < |ds| && ds[cur].op == EQUAL && Tidy(ds[..cur]) && EndsEqual(ds[..cur])
    ensures ds[cur..] == [ds[cur]] + ds[cur + 1..]
    ensures var e := Splice(ds, cur - 1, cur + 1, [Diff(EQUAL, ds[cur - 1].text + ds[cur].text)]);
            && Same(e, ds) && Edited(e) == Edited(ds) && |e| == |ds| - 1 && e[cur - 1..] == [e[cur - 1]] + ds[cur + 1..]
            && e[cur - 1].op == EQUAL && Tidy(e[..cur]) && EndsEqual(e[..cur])
  {
    assert ds[..cur][cur - 1] == ds[cur - 1];
    var x := Diff(EQUAL, ds[cur - 1].text + ds[cur].text);
    assert ds[cur - 1..cur + 1] == [ds[cur - 1], ds[cur]];
    TextTwo(ds[cur - 1], ds[cur]);
    TextOne(x);
    EditedAppend([ds[cur - 1]], [ds[cur]]);
    EditedOne(ds[cur - 1]);
    EditedOne(ds[cur]);
    EditedOne(x);
    assert [ds[cur - 1]] + [ds[cur]] == [ds[cur - 1], ds[cur]];
    SpliceSame(ds, cur - 1, cur + 1, [x]);
    EditedSplice(ds, cur - 1, cur + 1, [x]);
    var e := Splice(ds, cur - 1, cur + 1, [x]);
    assert e[..cur] == ds[..cur - 1] + [x];
    assert Tidy(ds[..cur - 1]) by {
      assert ds[..cur - 1] == ds[..cur][..cur - 1];
    }
    TidyEqual(ds[..cur - 1], x);
  }

  /** The last entry of the first pass is an equality, and while nothing edited has been saved it is
      the dummy or an entry has been saved instead. */
  ghost predicate Within(ds: seq<Diff>, D: seq<Diff>) {
    && Same(ds, D) && NotMore(ds, D) && |ds| > 0 && ds[|ds| - 1].op == EQUAL
    && (Edited(ds) == Edited(D) && |ds| == |D| ==> ds[|ds| - 1].text == "")
  }

  lemma WithinStep(a: seq<Diff>, i: nat, eq: Diff, b: seq<Diff>, j: nat, tail: seq<Diff>, D: seq<Diff>)
    requires Within(b, D) && Same(a, b) && NotMore(a, b) && i < |a| && j < |b|
    requires a[i..] == [eq] + tail && b[j..] == [b[j]] + tail && eq.op == EQUAL
    requires Edited(a) == Edited(b) && |a| == |b| ==> eq == b[j]
    ensures Within(a, D) && |a| - i == |b| - j
  {
    assert |a[i..]| == |b[j..]|;
    assert a[i..][|a| - i - 1] == a[|a| - 1] && b[j..][|b| - j - 1] == b[|b| - 1];
  }

  method MergeCase(d: DiffList, cur0: nat, prev: int, dels: nat, ins: nat, td: string, ti: string, ghost D: seq<Diff>)
    returns (cur: nat)
    requires cur0 < |d.items| && d.items[cur0].op == EQUAL
    requires Scan(d.items, cur0, prev, dels, ins, td, ti) && Within(d.items, D)
    requires Followed(d.items, cur0, prev, dels + ins, D)
    requires dels + ins > 1
    modifies d
    ensures cur < |d.items| && |d.items| - cur == old(|d.items|) - cur0
    ensures Scan(d.items, cur + 1, cur, 0, 0, "", "") && Within(d.items, D) && Followed(d.items, cur + 1, cur, 0, D)
  {
    hide Followed, Cancelled, Cancels, Paired, Tidy, Edited, Text1, Text2, Within;
    ghost var D0, tail, eq := d.items, d.items[cur0 + 1..], d.items[cur0];
    assert d.items[cur0..] == [eq] + tail;
    CancelsHere(d.items, cur0, prev, dels, ins, td, ti, D);
    cur, eq := MergeRun(d, cur0, dels, ins, td, ti, eq, tail);
    ScanEqual(d.items, cur);
    WithinStep(d.items, cur, eq, D0, cur0, tail, D);
    assert d.items[cur + 1..] == d.items[cur..][1..] == tail;
    FollowEqual(D0, cur0, prev, dels + ins, D, d.items, cur);
  }

  lemma JoinPaired(ds: seq<Diff>, es: seq<Diff>, cur: nat)
    requires 0 < cur < |ds| && ds[cur].op == EQUAL && ds[cur - 1].op == EQUAL
    requires es == Splice(ds, cur - 1, cur + 1, [Diff(EQUAL, ds[cur - 1].text + ds[cur].text)])
    ensures Paired(es[..cur]) == Paired(ds[..cur]) && es[cur..] == ds[cur + 1..]
  {
    var a, b := ds[..cur], es[..cur];
    assert |a| == |b| && forall k :: 0 <= k < |a| ==> a[k].op == b[k].op;
  }

  lemma JoinedTail(ds: seq<Diff>, es: seq<Diff>, cur: nat)
    requires 0 < cur < |ds| && es == Splice(ds, cur - 1, cur + 1, [Diff(EQUAL, ds[cur - 1].text + ds[cur].text)])
    ensures |es| == |ds| - 1 && es[cur - 1..] == [es[cur - 1]] + ds[cur + 1..] && ds[cur..] == [ds[cur]] + ds[cur + 1..]
  {
  }

  method JoinCase(d: DiffList, cur0: nat, prev: int, dels: nat, ins: nat, td: string, ti: string, ghost D: seq<Diff>)
    returns (cur: nat)
    requires cur0 < |d.items| && d.items[cur0].op == EQUAL
    requires Scan(d.items, cur0, prev, dels, ins, td, ti) && Within(d.items, D)
    requires Followed(d.items, cur0, prev, dels + ins, D)
    requires dels + ins <= 1 && prev != -1
    modifies d
    ensures cur < |d.items| && |d.items| - cur == old(|d.items|) - cur0
    ensures Scan(d.items, cur + 1, cur, 0, 0, "", "") && Within(d.items, D) && Followed(d.items, cur + 1, cur, 0, D)
  {
    hide Followed, Cancelled, Cancels, Paired, Tidy, Edited, Text1, Text2, Within;
    ghost var D0 := d.items;
    CancelsHere(d.items, cur0, prev, dels, ins, td, ti, D);
    JoinEqual(d.items, cur0);
    cur := cur0 - 1;
    d.items := Splice(d.items, cur0 - 1, cur0 + 1, [Diff(EQUAL, d.items[prev].text + d.items[cur0].text)]);
    ScanEqual(d.items, cur);
    JoinedTail(D0, d.items, cur0);
    WithinStep(d.items, cur, d.items[cur], D0, cur0, D0[cur0 + 1..], D);
    JoinPaired(D0, d.items, cur0);
    FollowEqual(D0, cur0, prev, 0, D, d.items, cur);
  }

  lemma SingleRun(ds: seq<Diff>, cur: nat, prev: int, dels: nat, ins: nat, td: string, ti: string, D: seq<Diff>)
    requires Scan(ds, cur, prev, dels, ins, td, ti) && Followed(ds, cur, prev, dels + ins, D)
    requires dels + ins <= 1 && prev == -1
    ensures if dels + ins == 1 then ds[cur - 1].op != EQUAL else cur == 0
    ensures EndsEqual(ds[..cur - dels - ins])
  {
    hide Paired, Cancelled, Tidy;
    if dels + ins == 1 {
      assert ds[cur - 1..cur][0] == ds[cur - 1];
    }
  }

  lemma SinglePaired(ds: seq<Diff>, cur: nat, run: nat)
    requires run <= 1 && run <= cur < |ds| && ds[cur].op == EQUAL && EndsEqual(ds[..cur - run])
    requires if run == 1 then ds[cur - 1].op != EQUAL else cur == 0
    ensures Paired(ds[..cur + 1]) == Paired(ds[..cur - run])
  {
    var a, b := ds[..cur - run], ds[cur - run..cur + 1];
    assert ds[..cur + 1] == a + b;
    PairedAppend(a, b);
  }

  /** The equality case of the first pass. */
  method ScanEquality(d: DiffList, cur0: nat, prev: int, dels: nat, ins: nat, td: string, ti: string,
                      ghost D: seq<Diff>)
    returns (cur: nat)
    requires cur0 < |d.items| && d.items[cur0].op == EQUAL
    requires Scan(d.items, cur0, prev, dels, ins, td, ti) && Within(d.items, D)
    requires Followed(d.items, cur0, prev, dels + ins, D)
    modifies d
    ensures cur < |d.items| && |d.items| - cur == old(|d.items|) - cur0
    ensures Scan(d.items, cur + 1, cur, 0, 0, "", "") && Within(d.items, D) && Followed(d.items, cur + 1, cur, 0, D)
  {
    hide Text1, Text2, Edited, Followed, Cancelled, Cancels, Paired, Within, Tidy;
    if dels + ins > 1 {
      cur := MergeCase(d, cur0, prev, dels, ins, td, ti, D);
    } else if prev != -1 {
      cur := JoinCase(d, cur0, prev, dels, ins, td, ti, D);
    } else {
      cur := cur0;
      CancelsHere(d.items, cur, prev, dels, ins, td, ti, D);
      ScanSingle(d.items, cur, prev, dels, ins, td, ti);
      ScanEqual(d.items, cur);
      SingleRun(d.items, cur, prev, dels, ins, td, ti, D);
      SinglePaired(d.items, cur, dels + ins);
      FollowEqual(d.items, cur, prev, dels + ins, D, d.items, cur);
    }
  }

  /** One entry of the first pass. */
  method ScanEntry(d: DiffList, cur0: nat, prev0: int, dels0: nat, ins0: nat, td0: string, ti0: string,
                   ghost D: seq<Diff>)
    returns (cur: nat, prev: int, dels: nat, ins: nat, td: string, ti: string)
    requires cur0 < |d.items|
    requires Scan(d.items, cur0, prev0, dels0, ins0, td0, ti0) && Within(d.items, D)
    requires Followed(d.items, cur0, prev0, dels0 + ins0, D)
    modifies d
    ensures |d.items| - cur == old(|d.items|) - cur0 - 1
    ensures Scan(d.items, cur, prev, dels, ins, td, ti)
    ensures Within(d.items, D) && Followed(d.items, cur, prev, dels + ins, D)
    ensures prev == -1 ==> cur < |d.items|
  {
    hide Text1, Text2, Edited, Followed, Scan;
    var e := d.items[cur0];
    assert cur0 == |d.items| - 1 ==> e.op == EQUAL;
    if e.op == INSERT {
      ScanInsert(d.items, cur0, prev0, dels0, ins0, td0, ti0);
      FollowEdit(d.items, cur0, prev0, dels0 + ins0, D);
      cur, prev, dels, ins, td, ti := cur0 + 1, -1, dels0, ins0 + 1, td0, ti0 + e.text;
    } else if e.op == DELETE {
      ScanDelete(d.items, cur0, prev0, dels0, ins0, td0, ti0);
      FollowEdit(d.items, cur0, prev0, dels0 + ins0, D);
      cur, prev, dels, ins, td, ti := cur0 + 1, -1, dels0 + 1, ins0, td0 + e.text, ti0;
    } else {
      var i := ScanEquality(d, cur0, prev0, dels0, ins0, td0, ti0, D);
      cur, prev, dels, ins, td, ti := i + 1, i, 0, 0, "", "";
    }
  }

  /** The first pass, on a list that ends with an empty equality: runs become tidy, and equalities that stand
      side by side one, so that two do so afterwards exactly if a run between them has cancelled out. */
  method FirstPass(d: DiffList)
    requires |d.items| > 0 && d.items[|d.items| - 1] == Diff(EQUAL, "")
    modifies d
    ensures Within(d.items, old(d.items)) && Tidy(d.items)
    ensures Paired(d.items) <==> Cancelled(old(d.items), |old(d.items)|)
  {
    hide Scan, Within, Tidy, Followed, Paired, Cancelled;
    ghost var D := d.items;
    WithinItself(D);
    FollowStart(D);
    var cur: nat, prev: int, dels: nat, ins: nat, td: string, ti: string := FirstScan(d.items);
    while cur < |d.items|
      invariant Scan(d.items, cur, prev, dels, ins, td, ti) && Within(d.items, D)
      invariant Followed(d.items, cur, prev, dels + ins, D)
      invariant prev == -1 ==> cur < |d.items|
      decreases |d.items| - cur
    {
      cur, prev, dels, ins, td, ti := ScanEntry(d, cur, prev, dels, ins, td, ti, D);
    }
    ScannedAll(d.items, cur, prev, dels, ins, td, ti);
    FollowedAll(d.items, cur, prev, dels + ins, D);
  }

  lemma FollowedAll(ds: seq<Diff>, cur: nat, prev: int, run: nat, D: seq<Diff>)
    requires Followed(ds, cur, prev, run, D) && cur >= |ds| && run == 0
    ensures Paired(ds) <==> Cancelled(D, |D|)
  {
    assert ds[..cur] == ds;
  }

  lemma WithinItself(ds: seq<Diff>)
    requires |ds| > 0 && ds[|ds| - 1] == Diff(EQUAL, "")
    ensures Within(ds, ds)
  {
  }

  lemma ScannedAll(ds: seq<Diff>, cur: nat, prev: int, dels: nat, ins: nat, td: string, ti: string)
    requires Scan(ds, cur, prev, dels, ins, td, ti) && cur >= |ds| && prev != -1
    ensures Tidy(ds) && dels + ins == 0
  {
    assert ds[..cur] == ds;
  }

  method FirstScan(ghost ds: seq<Diff>) returns (cur: nat, prev: int, dels: nat, ins: nat, td: string, ti: string)
    ensures cur == 0 && prev == -1 && Scan(ds, cur, prev, dels, ins, td, ti)
  {
    cur, prev, dels, ins, td, ti := 0, -1, 0, 0, "", "";
    assert ds[0..0] == [] && ds[..0] == [];
  }

  /** An edit that ends with the equality before it is shifted to the left over that equality. */
  lemma ShiftLeft(p: Diff, c: Diff, n: Diff)
    requires p.op == EQUAL && n.op == EQUAL && |c.text| >= |p.text| && Right(c.text, |p.text|) == p.text
    ensures var c' := c.(text := p.text + c.text[..|c.text| - |p.text|]);
            var n' := n.(text := p.text + n.text);
            Same([p, c, n], [c', n']) && Edited([p, c, n]) == Edited([c', n'])
  {
    var c0 := c.text[..|c.text| - |p.text|];
    assert c.text == c0 + p.text;
    var c', n' := c.(text := p.text + c0), n.(text := p.text + n.text);
    TextThree(p, c, n);
    TextTwo(c', n');
    EditedThree(p, c, n);
    EditedTwo(c', n');
    ShiftLeftText(p.text, n.text, c0);
    EditedOne(p);
    EditedOne(c);
    EditedOne(n);
    EditedOne(c');
    EditedOne(n');
  }

  /** An edit that begins with the equality behind it is shifted to the right over that equality. */
  lemma ShiftRight(p: Diff, c: Diff, n: Diff)
    requires p.op == EQUAL && n.op == EQUAL && |c.text| >= |n.text| && c.text[..|n.text|] == n.text
    ensures var p' := p.(text := p.text + n.text);
            var c' := c.(text := c.text[|n.text|..] + n.text);
            Same([p, c, n], [p', c']) && Edited([p, c, n]) == Edited([p', c'])
  {
    var c1 := c.text[|n.text|..];
    assert c.text == n.text + c1;
    var p', c' := p.(text := p.text + n.text), c.(text := c1 + n.text);
    TextThree(p, c, n);
    TextTwo(p', c');
    EditedThree(p, c, n);
    EditedTwo(p', c');
    ShiftRightText(p.text, n.text, c1);
    EditedOne(p);
    EditedOne(c);
    EditedOne(n);
    EditedOne(p');
    EditedOne(c');
  }

  lemma ShiftRightText(x: string, y: string, c: string)
    ensures x + (y + c) + y == (x + y) + (c + y) && x + "" + y == (x + y) + ""
  {
  }

  lemma ShiftLeftText(x: string, y: string, c: string)
    ensures x + (c + x) + y == (x + c) + (x + y) && x + "" + y == "" + (x + y)
  {
  }

  lemma EditedTwo(d: Diff, e: Diff)
    ensures Edited([d, e]) == Edited([d]) + Edited([e])
  {
    assert [d, e] == [d] + [e];
    EditedAppend([d], [e]);
  }

  lemma EditedThree(d: Diff, e: Diff, f: Diff)
    ensures Edited([d, e, f]) == Edited([d]) + Edited([e]) + Edited([f])
  {
    assert [d, e, f] == [d, e] + [f];
    EditedAppend([d, e], [f]);
    EditedTwo(d, e);
  }

  /** Replacing three entries by two. */
  lemma ShrinkThree(ds: seq<Diff>, i: nat, d: Diff, e: Diff)
    requires i + 2 < |ds| && Same([ds[i], ds[i + 1], ds[i + 2]], [d, e])
    requires Edited([ds[i], ds[i + 1], ds[i + 2]]) == Edited([d, e])
    ensures var r := Splice(ds, i, i + 3, [d, e]);
            Same(r, ds) && Edited(r) == Edited(ds) && |r| == |ds| - 1
  {
    assert ds[i..i + 3] == [ds[i], ds[i + 1], ds[i + 2]];
    SpliceSame(ds, i, i + 3, [d, e]);
    EditedSplice(ds, i, i + 3, [d, e]);
  }

  predicate EndsWith(s: string, t: string) {
    |t| <= |s| && Right(s, |t|) == t
  }

  /** The edit behind entry i stands between two equalities and could be shifted over one of them. */
  predicate Shiftable(ds: seq<Diff>, i: int) {
    && 0 <= i < |ds| - 2 && ds[i].op == EQUAL && ds[i + 2].op == EQUAL
    && (EndsWith(ds[i + 1].text, ds[i].text) || ds[i + 2].text <= ds[i + 1].text)
  }

  ghost predicate Unshiftable(ds: seq<Diff>) {
    forall i :: !Shiftable(ds, i)
  }

  /** One position of the second pass; the cursors move on by one entry, whatever was erased. */
  method ShiftEdit(d: DiffList, prev: nat) returns (changes: bool)
    requires prev + 2 < |d.items|
    modifies d
    ensures Same(d.items, old(d.items)) && Edited(d.items) == old(Edited(d.items))
    ensures if changes then |d.items| == old(|d.items|) - 1 else d.items == old(d.items)
    ensures changes <==> Shiftable(old(d.items), prev)
  {
    changes := false;
    var p, c, n := d.items[prev], d.items[prev + 1], d.items[prev + 2];
    if p.op == EQUAL && n.op == EQUAL {
      if |c.text| >= |p.text| && Right(c.text, |p.text|) == p.text {
        ShiftLeft(p, c, n);
        var c', n' := c.(text := p.text + c.text[..|c.text| - |p.text|]), n.(text := p.text + n.text);
        ShrinkThree(d.items, prev, c', n');
        d.items := Splice(d.items, prev, prev + 3, [c', n']);
        changes := true;
      } else if |c.text| >= |n.text| && c.text[..|n.text|] == n.text {
        ShiftRight(p, c, n);
        var p', c' := p.(text := p.text + n.text), c.(text := c.text[|n.text|..] + n.text);
        ShrinkThree(d.items, prev, p', c');
        d.items := Splice(d.items, prev, prev + 3, [p', c']);
        changes := true;
      }
    }
  }

  /** The second pass. */
  method SecondPass(d: DiffList) returns (changes: bool)
    modifies d
    ensures Same(d.items, old(d.items)) && Edited(d.items) == old(Edited(d.items))
    ensures if changes then |d.items| < old(|d.items|) else d.items == old(d.items)
    ensures !changes ==> Unshiftable(d.items)
  {
    hide Shiftable, Text1, Text2, Edited;
    changes := false;
    var prev := 0;
    while prev + 2 < |d.items|
      invariant prev >= 0
      invariant Same(d.items, old(d.items)) && Edited(d.items) == old(Edited(d.items))
      invariant if changes then |d.items| < old(|d.items|) else d.items == old(d.items)
      invariant !changes ==> forall i :: 0 <= i < prev ==> !Shiftable(d.items, i)
      decreases |d.items| - prev
    {
      var shifted := ShiftEdit(d, prev);
      changes := changes || shifted;
      prev := prev + 1;
    }
    NowhereElse(d.items, prev);
  }

  lemma NowhereElse(ds: seq<Diff>, n: int)
    requires n + 2 >= |ds|
    ensures forall i :: i < 0 || i >= n ==> !Shiftable(ds, i)
  {
  }

  /** The first pass between adding the empty equality and dropping it. */
  method MergeEdits(d: DiffList)
    modifies d
    ensures Same(d.items, old(d.items)) && Tidy(d.items) && NotMore(d.items, old(d.items))
    ensures Paired(d.items) ==> Cancelled(old(d.items) + [Diff(EQUAL, "")], old(|d.items|) + 1)
  {
    hide Text1, Text2, Edited, Tidy, Paired, Cancelled;
    ghost var D := d.items;
    d.items := d.items + [Diff(EQUAL, "")];
    DummyEnd(D);
    FirstPass(d);
    if d.items[|d.items| - 1].text == "" {
      DropEnd(d.items);
      d.items := d.items[..|d.items| - 1];
    }
  }

  /** diff_cleanupMerge: both texts stay, edits that meet are a deletion and an insertion with nothing in
      common, no single edit between two equalities can be shifted over one of them, and neither the edited
      characters nor else the entries become more. */
  method CleanupMerge(d: DiffList)
    modifies d
    ensures Same(d.items, old(d.items)) && Tidy(d.items) && NotMore(d.items, old(d.items))
    ensures Unshiftable(d.items)
    decreases Edited(d.items), |d.items|
  {
    hide Text1, Text2, Edited, Tidy, Unshiftable;
    MergeEdits(d);
    var changes := SecondPass(d);
    if changes {
      CleanupMerge(d);
    }
  }

  lemma DummyEnd(ds: seq<Diff>)
    ensures Same(ds + [Diff(EQUAL, "")], ds) && Edited(ds + [Diff(EQUAL, "")]) == Edited(ds)
  {
    TextAppend(ds, [Diff(EQUAL, "")]);
    TextOne(Diff(EQUAL, ""));
    EditedAppend(ds, [Diff(EQUAL, "")]);
    EditedOne(Diff(EQUAL, ""));
  }

  lemma DropEnd(ds: seq<Diff>)
    requires |ds| > 0 && ds[|ds| - 1] == Diff(EQUAL, "") && Tidy(ds)
    ensures Same(ds[..|ds| - 1], ds) && Edited(ds[..|ds| - 1]) == Edited(ds) && Tidy(ds[..|ds| - 1])
    ensures Paired(ds[..|ds| - 1]) ==> Paired(ds)
  {
    assert ds == ds[..|ds| - 1] + [Diff(EQUAL, "")];
    DummyEnd(ds[..|ds| - 1]);
  }
}
