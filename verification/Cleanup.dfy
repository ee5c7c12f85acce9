/** The clean-up passes that trade small equalities for readable or cheap diffs. */
module Cleanup {
  import opened Strings
  import opened Diffs
  import opened CleanupMerging

  function Equalities(ds: seq<Diff>): nat {
    if |ds| == 0 then 0 else (if ds[0].op == EQUAL then 1 else 0) + Equalities(ds[1..])
  }

  /** a is b with some equalities given up, as many as there are entries more, or none. */
  predicate GivenUp(a: seq<Diff>, b: seq<Diff>, some: bool) {
    |a| + Equalities(a) == |b| + Equalities(b) && if some then Equalities(a) < Equalities(b) else a == b
  }

  lemma NothingGivenUp(ds: seq<Diff>)
    ensures GivenUp(ds, ds, false)
  {
  }

  lemma NoneGivenUp(a: seq<Diff>, b: seq<Diff>)
    requires GivenUp(a, b, false)
    ensures a == b
  {
  }

  lemma OneGivenUp(a: seq<Diff>, b: seq<Diff>, c: seq<Diff>, some: bool)
    requires GivenUp(b, c, some) && |a| == |b| + 1 && Equalities(a) == Equalities(b) - 1
    ensures GivenUp(a, c, true)
  {
  }

  lemma {:induction false} EqualitiesAppend(a: seq<Diff>, b: seq<Diff>)
    ensures Equalities(a + b) == Equalities(a) + Equalities(b)
  {
    if |a| == 0 {
      assert a + b == b;
    } else {
      assert (a + b)[1..] == a[1..] + b;
      EqualitiesAppend(a[1..], b);
    }
  }

  /** The stack holds positions of equalities before cur, in order. */
  predicate Stacked(ds: seq<Diff>, stack: seq<nat>, cur: int) {
    && 0 <= cur <= |ds|
    && (forall i :: 0 <= i < |stack| ==> stack[i] < cur && ds[stack[i]].op == EQUAL)
    && (forall i, j :: 0 <= i < j < |stack| ==> stack[i] < stack[j])
  }

  /** A remembered equality that is not empty is the one on top of the stack. */
  predicate TopIs(ds: seq<Diff>, stack: seq<nat>, last: string, cur: int)
    requires Stacked(ds, stack, cur)
  {
    last != "" ==> |stack| > 0 && ds[stack[|stack| - 1]].text == last
  }

  lemma StackPush(ds: seq<Diff>, stack: seq<nat>, cur: nat)
    requires Stacked(ds, stack, cur) && cur < |ds| && ds[cur].op == EQUAL
    ensures Stacked(ds, stack + [cur], cur + 1)
  {
  }

  /** Splitting an equality into two edits keeps both texts. */
  lemma SplitEqual(ds: seq<Diff>, c: nat)
    requires c < |ds| && ds[c].op == EQUAL
    ensures var e := Splice(ds, c, c + 1, [Diff(DELETE, ds[c].text), Diff(INSERT, ds[c].text)]);
            Same(e, ds) && Equalities(e) == Equalities(ds) - 1
  {
    hide Text1, Text2, Equalities;
    var t := ds[c].text;
    assert ds[c..c + 1] == [ds[c]];
    SplitKeeps(ds[c], t);
    SpliceSame(ds, c, c + 1, [Diff(DELETE, t), Diff(INSERT, t)]);
    EqualitiesSplit(ds[..c], ds[c], t, ds[c + 1..]);
    assert ds == ds[..c] + [ds[c]] + ds[c + 1..];
  }

  lemma SplitKeeps(e: Diff, t: string)
    requires e == Diff(EQUAL, t)
    ensures Same([Diff(DELETE, t), Diff(INSERT, t)], [e])
  {
    TextOne(e);
    TextTwo(Diff(DELETE, t), Diff(INSERT, t));
  }

  lemma EqualitiesSplit(a: seq<Diff>, e: Diff, t: string, b: seq<Diff>)
    requires e.op == EQUAL
    ensures Equalities(a + [Diff(DELETE, t), Diff(INSERT, t)] + b) == Equalities(a + [e] + b) - 1
  {
    var m := [Diff(DELETE, t), Diff(INSERT, t)];
    EqualitiesAppend(a + m, b);
    EqualitiesAppend(a, m);
    EqualitiesAppend(a + [e], b);
    EqualitiesAppend(a, [e]);
    assert [e][1..] == [] && m[1..] == [Diff(INSERT, t)] && m[1..][1..] == [];
    assert Equalities(m[1..]) == 0;
  }

  /** Positions before the split keep their entries. */
  lemma StackKept(ds: seq<Diff>, stack: seq<nat>, cur: int, n: nat, mid: seq<Diff>)
    requires Stacked(ds, stack, cur) && |stack| > 0 && n < |stack| && |mid| == 2
    ensures var c := stack[|stack| - 1]; var e := Splice(ds, c, c + 1, mid);
            Stacked(e, stack[..n], c + 1) && (n > 0 ==> Stacked(e, stack[..n], stack[n - 1] + 1))
  {
    var c := stack[|stack| - 1];
    var e := Splice(ds, c, c + 1, mid);
    forall i | 0 <= i < n
      ensures e[stack[i]] == ds[stack[i]] && stack[i] < c
    {
      assert stack[i] < stack[|stack| - 1];
    }
  }

  /** The equality on top of the stack is split into two edits of its text. */
  method SplitTop(d: DiffList, stack: seq<nat>, last: string, ghost cur: int)
    requires Stacked(d.items, stack, cur) && TopIs(d.items, stack, last, cur) && last != ""
    modifies d
    ensures Same(d.items, old(d.items)) && Equalities(d.items) == old(Equalities(d.items)) - 1
    ensures |d.items| == old(|d.items|) + 1
    ensures forall n: nat :: n < |stack| ==> Stacked(d.items, stack[..n], stack[|stack| - 1] + 1)
    ensures forall n: nat :: 0 < n < |stack| ==> Stacked(d.items, stack[..n], stack[n - 1] + 1)
  {
    var c := stack[|stack| - 1];
    SplitEqual(d.items, c);
    ghost var mid := [Diff(DELETE, last), Diff(INSERT, d.items[c].text)];
    forall n: nat | n < |stack|
      ensures Stacked(Splice(d.items, c, c + 1, mid), stack[..n], c + 1)
      ensures n > 0 ==> Stacked(Splice(d.items, c, c + 1, mid), stack[..n], stack[n - 1] + 1)
    {
      StackKept(d.items, stack, cur, n, mid);
    }
    d.items := Splice(d.items, c, c + 1, [Diff(DELETE, last), Diff(INSERT, d.items[c].text)]);
  }

  /** The characters of one kind of edit in the run of edits before a position. */
  function RunLength(ds: seq<Diff>, op: Operation, c: nat): nat
    requires c <= |ds|
  {
    if c == 0 || ds[c - 1].op == EQUAL then 0
    else (if ds[c - 1].op == op then |ds[c - 1].text| else 0) + RunLength(ds, op, c - 1)
  }

  function RunSize(ds: seq<Diff>, c: nat): int
    requires c <= |ds|
  {
    Max(RunLength(ds, INSERT, c), RunLength(ds, DELETE, c))
  }

  /** The equality at e is no longer than the edits before it and those from it to c, where no other
      equality stands between. */
  predicate Swallowed(ds: seq<Diff>, e: int, c: int) {
    && 0 <= e < c <= |ds| && ds[e].op == EQUAL && ds[e].text != ""
    && (forall j :: e < j < c ==> ds[j].op != EQUAL)
    && |ds[e].text| <= RunSize(ds, e) && |ds[e].text| <= RunSize(ds, c)
  }

  ghost predicate NoneSwallowed(ds: seq<Diff>, cur: int) {
    forall e, c :: c <= cur ==> !Swallowed(ds, e, c)
  }

  /** The variables of the loop while nothing has been changed; e is the last equality, or -1. */
  ghost predicate Counted(ds: seq<Diff>, cur: int, e: int, last: string, size1: int, ins2: int, del2: int) {
    && -1 <= e < cur <= |ds| && NoneSwallowed(ds, cur)
    && ins2 == RunLength(ds, INSERT, cur) && del2 == RunLength(ds, DELETE, cur)
    && (forall j :: e < j < cur ==> ds[j].op != EQUAL)
    && if e == -1 then last == "" else ds[e].op == EQUAL && last == ds[e].text && size1 == RunSize(ds, e)
  }

  lemma CountEqual(ds: seq<Diff>, cur: int, e: int, last: string, size1: int, ins2: int, del2: int)
    requires Counted(ds, cur, e, last, size1, ins2, del2) && cur < |ds| && ds[cur].op == EQUAL
    ensures Counted(ds, cur + 1, cur, ds[cur].text, Max(ins2, del2), 0, 0)
  {
    forall e', c | c <= cur + 1 ensures !Swallowed(ds, e', c) {
      assert c == cur + 1 ==> RunSize(ds, cur + 1) == 0;
    }
  }

  lemma CountEdit(ds: seq<Diff>, cur: int, e: int, last: string, size1: int, ins2: int, del2: int)
    requires Counted(ds, cur, e, last, size1, ins2, del2) && cur < |ds| && ds[cur].op != EQUAL
    ensures var ins, del := ins2 + (if ds[cur].op == INSERT then |ds[cur].text| else 0),
                            del2 + (if ds[cur].op == DELETE then |ds[cur].text| else 0);
            if last != "" && |last| <= size1 && |last| <= Max(ins, del) then Swallowed(ds, e, cur + 1)
            else Counted(ds, cur + 1, e, last, size1, ins, del)
  {
    forall e', c | c <= cur + 1 && Swallowed(ds, e', c) && c == cur + 1 ensures e' == e {
      assert e >= 0 ==> ds[e].op == EQUAL;
    }
  }

  lemma CountedAll(ds: seq<Diff>, e: int, last: string, size1: int, ins2: int, del2: int)
    requires Counted(ds, |ds|, e, last, size1, ins2, del2)
    ensures forall e', c :: !Swallowed(ds, e', c)
  {
  }

  /** The loop of diff_cleanupSemantic: equalities no longer than the edits on both sides go. */
  method SplitSemantic(d: DiffList) returns (changes: bool)
    modifies d
    ensures Same(d.items, old(d.items)) && GivenUp(d.items, old(d.items), changes)
    ensures changes <==> exists e, c :: Swallowed(old(d.items), e, c)
  {
    hide RunLength, RunSize, Swallowed, Counted, Equalities, Text1, Text2, GivenUp;
    ghost var D := d.items;
    NothingGivenUp(D);
    changes := false;
    var stack: seq<nat> := [];
    var last := "";
    var ins1, del1, ins2, del2 := 0, 0, 0, 0;
    var cur := 0;
    ghost var e0 := -1;
    NothingCounted(D);
    while cur < |d.items|
      invariant Stacked(d.items, stack, cur) && TopIs(d.items, stack, last, cur)
      invariant Same(d.items, D) && GivenUp(d.items, D, changes) && (!changes ==> d.items == D)
      invariant if changes then exists e, c :: Swallowed(D, e, c)
                else Counted(D, cur, e0, last, Max(ins1, del1), ins2, del2)
      decreases Equalities(d.items), |d.items| - cur
    {
      var e := d.items[cur];
      if e.op == EQUAL {
        if !changes {
          CountEqual(D, cur, e0, last, Max(ins1, del1), ins2, del2);
        }
        e0 := cur;
        StackPush(d.items, stack, cur);
        stack := stack + [cur];
        ins1, del1, ins2, del2 := ins2, del2, 0, 0;
        last := e.text;
        cur := cur + 1;
      } else {
        if !changes {
          CountEdit(D, cur, e0, last, Max(ins1, del1), ins2, del2);
        }
        if e.op == INSERT {
          ins2 := ins2 + |e.text|;
        } else {
          del2 := del2 + |e.text|;
        }
        if last != "" && |last| <= Max(ins1, del1) && |last| <= Max(ins2, del2) {
          ghost var was := d.items;
          SplitTop(d, stack, last, cur);
          OneGivenUp(d.items, was, D, changes);
          stack := stack[..if |stack| > 1 then |stack| - 2 else 0];
          ins1, del1, ins2, del2 := 0, 0, 0, 0;
          last := "";
          changes := true;
          cur := if |stack| > 0 then stack[|stack| - 1] + 1 else 0;
        } else {
          cur := cur + 1;
        }
      }
    }
    if !changes {
      CountedAll(D, e0, last, Max(ins1, del1), ins2, del2);
    }
  }

  lemma NothingCounted(ds: seq<Diff>)
    ensures Counted(ds, 0, -1, "", 0, 0, 0)
  {
  }

  /** One kind of edit stands in the run of edits before a position. */
  predicate RunHas(ds: seq<Diff>, op: Operation, c: nat)
    requires c <= |ds|
  {
    c > 0 && ds[c - 1].op != EQUAL && (ds[c - 1].op == op || RunHas(ds, op, c - 1))
  }

  function Count(b: bool): int {
    if b then 1 else 0
  }

  // Both kinds of edit on both sides, or three of the four around half the length.
  predicate Surrounded(length: int, editCost: int, preIns: bool, preDel: bool, postIns: bool, postDel: bool) {
    || (preIns && preDel && postIns && postDel)
    || (length < editCost / 2 && Count(preIns) + Count(preDel) + Count(postIns) + Count(postDel) == 3)
  }

  /** The equality at e is shorter than an edit costs and edits surround it, where no other equality
      stands between it and c. */
  predicate Costly(ds: seq<Diff>, e: int, c: int, editCost: int) {
    && 0 <= e < c <= |ds| && ds[e].op == EQUAL && 0 < |ds[e].text| < editCost
    && (forall j :: e < j < c ==> ds[j].op != EQUAL)
    && Surrounded(|ds[e].text|, editCost, RunHas(ds, INSERT, e), RunHas(ds, DELETE, e),
                  RunHas(ds, INSERT, c), RunHas(ds, DELETE, c))
  }

  ghost predicate NoneCostly(ds: seq<Diff>, cur: int, editCost: int) {
    forall e, c :: c <= cur ==> !Costly(ds, e, c, editCost)
  }

  /** The variables of the loop while nothing has been changed; e is the last equality, or -1. */
  ghost predicate Weighed(ds: seq<Diff>, cur: int, editCost: int, e: int, last: string,
                          preIns: bool, preDel: bool, postIns: bool, postDel: bool) {
    && -1 <= e < cur <= |ds| && NoneCostly(ds, cur, editCost)
    && postIns == RunHas(ds, INSERT, cur) && postDel == RunHas(ds, DELETE, cur)
    && (forall j :: e < j < cur ==> ds[j].op != EQUAL)
    && (e >= 0 ==> ds[e].op == EQUAL)
    && last == (if e >= 0 && Candidate(ds, e, editCost) then ds[e].text else "")
    && (last != "" ==> preIns == RunHas(ds, INSERT, e) && preDel == RunHas(ds, DELETE, e))
  }

  // A short equality with an edit before it.
  predicate Candidate(ds: seq<Diff>, e: nat, editCost: int)
    requires e < |ds|
  {
    |ds[e].text| < editCost && (RunHas(ds, INSERT, e) || RunHas(ds, DELETE, e))
  }

  lemma WeighEqual(ds: seq<Diff>, cur: int, editCost: int, e: int, last: string,
                   preIns: bool, preDel: bool, postIns: bool, postDel: bool)
    requires Weighed(ds, cur, editCost, e, last, preIns, preDel, postIns, postDel)
    requires cur < |ds| && ds[cur].op == EQUAL
    ensures Candidate(ds, cur, editCost) == (|ds[cur].text| < editCost && (postIns || postDel))
    ensures if Candidate(ds, cur, editCost)
            then Weighed(ds, cur + 1, editCost, cur, ds[cur].text, postIns, postDel, false, false)
            else Weighed(ds, cur + 1, editCost, cur, "", preIns, preDel, false, false)
  {
    forall e', c | c <= cur + 1 ensures !Costly(ds, e', c, editCost) {
      assert c == cur + 1 ==> !RunHas(ds, INSERT, c) && !RunHas(ds, DELETE, c);
    }
  }

  lemma WeighEdit(ds: seq<Diff>, cur: int, editCost: int, e: int, last: string,
                  preIns: bool, preDel: bool, postIns: bool, postDel: bool)
    requires Weighed(ds, cur, editCost, e, last, preIns, preDel, postIns, postDel)
    requires cur < |ds| && ds[cur].op != EQUAL
    ensures var ins, del := postIns || ds[cur].op == INSERT, postDel || ds[cur].op == DELETE;
            if last != "" && Surrounded(|last|, editCost, preIns, preDel, ins, del)
            then Costly(ds, e, cur + 1, editCost)
            else Weighed(ds, cur + 1, editCost, e, last, preIns, preDel, ins, del)
  {
    forall e', c | c <= cur + 1 && Costly(ds, e', c, editCost) && c == cur + 1
      ensures e' == e && last == ds[e].text
    {
      assert e >= 0 ==> ds[e].op == EQUAL;
    }
  }

  lemma WeighedAll(ds: seq<Diff>, editCost: int, e: int, last: string,
                   preIns: bool, preDel: bool, postIns: bool, postDel: bool)
    requires Weighed(ds, |ds|, editCost, e, last, preIns, preDel, postIns, postDel)
    ensures forall e', c :: !Costly(ds, e', c, editCost)
  {
  }

  lemma NothingWeighed(ds: seq<Diff>, editCost: int)
    ensures Weighed(ds, 0, editCost, -1, "", false, false, false, false)
  {
  }

  /** diff_cleanupEfficiency: without an equality that costs more than it saves nothing changes, with
      one the texts stay, some equalities are given up, and the list ends in normal form. */
  method CleanupEfficiency(d: DiffList, editCost: int) returns (ghost split: seq<Diff>)
    modifies d
    ensures Same(d.items, old(d.items)) && Same(split, old(d.items))
    ensures GivenUp(split, old(d.items), exists e, c :: Costly(old(d.items), e, c, editCost))
    ensures if exists e, c :: Costly(old(d.items), e, c, editCost) then
              Tidy(d.items) && Unshiftable(d.items) && NotMore(d.items, split)
            else d.items == old(d.items)
  {
    hide GivenUp, Costly, Tidy, Unshiftable, NotMore, Text1, Text2;
    split := d.items;
    if |d.items| == 0 {
      NothingCostly(split, editCost);
      return;
    }
    ghost var D := d.items;
    var changes := SplitEfficiency(d, editCost);
    split := d.items;
    if changes {
      CleanupMerge(d);
    } else {
      NoneGivenUp(split, D);
    }
  }

  lemma NothingCostly(ds: seq<Diff>, editCost: int)
    requires ds == []
    ensures (forall e, c :: !Costly(ds, e, c, editCost)) && GivenUp(ds, ds, false)
  {
  }

  method SplitEfficiency(d: DiffList, editCost: int) returns (changes: bool)
    modifies d
    ensures Same(d.items, old(d.items)) && GivenUp(d.items, old(d.items), changes)
    ensures changes <==> exists e, c :: Costly(old(d.items), e, c, editCost)
  {
    hide Text1, Text2, Equalities, Costly, Weighed, RunHas, GivenUp;
    ghost var D := d.items;
    NothingGivenUp(D);
    ghost var e0 := -1;
    NothingWeighed(D, editCost);
    changes := false;
    var stack: seq<nat> := [];
    var last := "";
    var preIns, preDel, postIns, postDel := false, false, false, false;
    var cur := 0;
    while cur < |d.items|
      invariant Stacked(d.items, stack, cur) && TopIs(d.items, stack, last, cur)
      invariant Same(d.items, D) && GivenUp(d.items, D, changes) && (!changes ==> d.items == D)
      invariant if changes then exists e, c :: Costly(D, e, c, editCost)
                else Weighed(D, cur, editCost, e0, last, preIns, preDel, postIns, postDel)
      decreases Equalities(d.items), |d.items| - cur
    {
      var e := d.items[cur];
      if e.op == EQUAL {
        if !changes {
          WeighEqual(D, cur, editCost, e0, last, preIns, preDel, postIns, postDel);
        }
        e0 := cur;
        if |e.text| < editCost && (postIns || postDel) {
          StackPush(d.items, stack, cur);
          stack := stack + [cur];
          preIns, preDel := postIns, postDel;
          last := e.text;
        } else {
          stack, last := [], "";
        }
        postIns, postDel := false, false;
        cur := cur + 1;
      } else {
        if !changes {
          WeighEdit(D, cur, editCost, e0, last, preIns, preDel, postIns, postDel);
        }
        if e.op == DELETE {
          postDel := true;
        } else {
          postIns := true;
        }
        if last != "" && ((preIns && preDel && postIns && postDel)
                          || (|last| < editCost / 2
                              && Count(preIns) + Count(preDel) + Count(postIns) + Count(postDel) == 3)) {
          var c := stack[|stack| - 1];
          ghost var was := d.items;
          SplitTop(d, stack, last, cur);
          OneGivenUp(d.items, was, D, changes);
          last := "";
          changes := true;
          if preIns && preDel {
            postIns, postDel := true, true;
            stack := [];
            cur := c + 2;
          } else {
            stack := stack[..if |stack| > 1 then |stack| - 2 else 0];
            postIns, postDel := false, false;
            cur := if |stack| > 0 then stack[|stack| - 1] + 1 else 0;
          }
        } else {
          cur := cur + 1;
        }
      }
    }
    if !changes {
      WeighedAll(D, editCost, e0, last, preIns, preDel, postIns, postDel);
    }
  }
}
