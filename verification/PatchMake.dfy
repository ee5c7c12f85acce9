/** patch_make: the patches for a diff, each made against the text the previous ones leave. */
module PatchMaking {
  import opened Strings
  import opened Diffs
  import opened Patches

  // The diff at i is taken for the last one: by its position, or by its value.
  predicate IsLast(ds: seq<Diff>, i: nat, byPosition: bool)
    requires i < |ds|
  {
    if byPosition then i == |ds| - 1 else ds[i] == ds[|ds| - 1]
  }

  // An equality that is added to the patch under construction.
  predicate Joins(ds: seq<Diff>, i: nat, c: Settings)
    requires i < |ds|
  {
    ds[i].op == EQUAL && |ds[i].text| <= 2 * c.margin && !IsLast(ds, i, c.byPosition)
  }

  // An equality that ends the patch under construction.
  predicate Ends(ds: seq<Diff>, i: nat, c: Settings)
    requires i < |ds|
  {
    ds[i].op == EQUAL && |ds[i].text| >= 2 * c.margin
  }

  /** The diffs of each patch, without its context; open are those of the patch under construction. */
  function Groups(ds: seq<Diff>, i: nat, open: seq<Diff>, c: Settings): seq<seq<Diff>>
    requires i <= |ds|
    decreases |ds| - i
  {
    if i == |ds| then (if open == [] then [] else [open])
    else if ds[i].op != EQUAL then Groups(ds, i + 1, open + [ds[i]], c)
    else
      var grown := if open != [] && Joins(ds, i, c) then open + [ds[i]] else open;
      if grown != [] && Ends(ds, i, c) then [grown] + Groups(ds, i + 1, [], c) else Groups(ds, i + 1, grown, c)
  }

  /** kept is a group without some of its equalities. It still does what the whole group does: it reads
      what the text has there, and leaves what the group leaves. */
  predicate Faithful(kept: seq<Diff>, group: seq<Diff>) {
    var x, y := Text1(kept), Text1(group);
    |x| <= |y| && x == y[..|x|] && Text2(kept) + y[|x|..] == Text2(group)
  }

  /** Every patch keeps enough of its diffs. An equality is lost when the test for the last diff takes it
      for that one: it is neither added to the open patch nor ends it. */
  predicate AllFaithful(ds: seq<Diff>, i: nat, kept: seq<Diff>, group: seq<Diff>, c: Settings)
    requires i <= |ds|
    decreases |ds| - i
  {
    if i == |ds| then Faithful(kept, group)
    else if ds[i].op != EQUAL then AllFaithful(ds, i + 1, kept + [ds[i]], group + [ds[i]], c)
    else if kept == [] then AllFaithful(ds, i + 1, [], [], c)
    else if Ends(ds, i, c) then
      && (if Joins(ds, i, c) then Faithful(kept + [ds[i]], group + [ds[i]]) else Faithful(kept, group))
      && AllFaithful(ds, i + 1, [], [], c)
    else AllFaithful(ds, i + 1, if Joins(ds, i, c) then kept + [ds[i]] else kept, group + [ds[i]], c)
  }

  /** No equality that could be lost equals the last diff. */
  predicate LastIsUnique(ds: seq<Diff>, c: Settings) {
    forall i :: 0 <= i < |ds| - 1 && ds[i].op == EQUAL && 0 < |ds[i].text| < 2 * c.margin ==> ds[i] != ds[|ds| - 1]
  }

  lemma SameFaithful(kept: seq<Diff>, group: seq<Diff>, e: Diff)
    requires Same(kept, group)
    ensures Faithful(kept, group) && Same(kept + [e], group + [e]) && (e.op == EQUAL ==> Faithful(kept, group + [e]))
  {
    TextAppend(kept, [e]);
    TextAppend(group, [e]);
    TextOne(e);
    assert Text2(kept) + "" == Text2(kept);
  }

  /** With the test by position, or with a last diff that is unique, nothing is lost that matters. */
  lemma {:induction false} LosesNothing(ds: seq<Diff>, i: nat, kept: seq<Diff>, group: seq<Diff>, c: Settings)
    requires i <= |ds| && (c.byPosition || LastIsUnique(ds, c)) && Same(kept, group) && Usable(c)
    ensures AllFaithful(ds, i, kept, group, c)
    decreases |ds| - i
  {
    hide Faithful, Same;
    if i == |ds| {
      SameFaithful(kept, group, Diff(EQUAL, ""));
    } else {
      SameFaithful(kept, group, ds[i]);
      NothingSame();
      if ds[i].op != EQUAL {
        LosesNothing(ds, i + 1, kept + [ds[i]], group + [ds[i]], c);
      } else if kept == [] || Ends(ds, i, c) {
        LosesNothing(ds, i + 1, [], [], c);
        SameFaithful(kept + [ds[i]], group + [ds[i]], ds[i]);
      } else if Joins(ds, i, c) {
        LosesNothing(ds, i + 1, kept + [ds[i]], group + [ds[i]], c);
      } else if ds[i].text == "" {
        EmptySame(kept, group, ds[i]);
        LosesNothing(ds, i + 1, kept, group + [ds[i]], c);
      } else {
        assert AllFaithful(ds, i + 1, kept, group + [ds[i]], c);
      }
    }
  }

  lemma NothingSame()
    ensures Same([], [])
  {
  }

  lemma EmptySame(kept: seq<Diff>, group: seq<Diff>, e: Diff)
    requires Same(kept, group) && e.text == ""
    ensures Same(kept, group + [e])
  {
    TextAppend(group, [e]);
    TextOne(e);
    assert Text1(group) + "" == Text1(group) && Text2(group) + "" == Text2(group);
  }

  /** No end that the two texts have in common, and that is short enough to be lost, stands in both of them
      a second time. It is enough that their last characters differ, or that one of them occurs once. */
  ghost predicate LastsApart(text1: string, text2: string, margin: nat) {
    forall n: nat :: 0 < n < 2 * margin && CommonEnd(text1, text2, n) ==> !EndRepeats(text1, text2, n)
  }

  ghost predicate EndRepeats(text1: string, text2: string, n: nat)
    requires n <= |text1| && n <= |text2|
  {
    Part(Right(text1, n), text1[..|text1| - n]) && Part(Right(text1, n), text2[..|text2| - n])
  }

  /** Texts with different last characters, or an empty one, are apart at their ends. */
  lemma LastsDiffer(text1: string, text2: string, margin: nat)
    requires text1 == "" || text2 == "" || text1[|text1| - 1] != text2[|text2| - 1]
    ensures LastsApart(text1, text2, margin)
  {
    forall n: nat | 0 < n ensures !CommonEnd(text1, text2, n) {
      if CommonEnd(text1, text2, n) {
        EndCharacter(text1, text2, n, 0);
        assert false;
      }
    }
  }

  /** So are texts the first of which has its last character only once, or the second. */
  lemma LastOccursOnce(text1: string, text2: string, margin: nat)
    requires text1 != "" && text2 != ""
    requires text1[|text1| - 1] !in text1[..|text1| - 1] || text2[|text2| - 1] !in text2[..|text2| - 1]
    ensures LastsApart(text1, text2, margin)
  {
    forall n: nat | 0 < n && CommonEnd(text1, text2, n) ensures !EndRepeats(text1, text2, n) {
      if EndRepeats(text1, text2, n) {
        EndCharRepeats(text1, Right(text1, n), n);
        EndCharRepeats(text2, Right(text1, n), n);
      }
    }
  }

  lemma EndCharRepeats(t: string, e: string, n: nat)
    requires 0 < n <= |t| && e == Right(t, n) && Part(e, t[..|t| - n])
    ensures t[|t| - 1] in t[..|t| - 1]
  {
    var i :| Occurs(t[..|t| - n], e, i);
    InText(t[..|t| - n], e, i, n - 1);
    assert t[..|t| - 1][i + n - 1] == e[n - 1] == t[|t| - 1];
  }

  /** The last equality of a diff is an end the two texts have in common; an equal one before it repeats it. */
  lemma LastRepeats(ds: seq<Diff>, i: nat)
    requires i < |ds| - 1 && ds[i].op == EQUAL && ds[i] == ds[|ds| - 1] && ds[i].text != ""
    ensures var n := |ds[i].text|; CommonEnd(Text1(ds), Text2(ds), n) && EndRepeats(Text1(ds), Text2(ds), n)
  {
    hide Part, Text1, Text2, EndRepeats;
    var a, b, e := ds[..i], ds[i + 1..|ds| - 1], ds[i];
    assert ds == a + [e] + b + [e];
    TextAppend(a + [e] + b, [e]);
    TextAppend(a + [e], b);
    TextAppend(a, [e]);
    TextOne(e);
    EndsTwice(Text1(a), e.text, Text1(b), Text1(ds));
    EndsTwice(Text2(a), e.text, Text2(b), Text2(ds));
    EndsCommon(Text1(ds), Text2(ds), e.text);
  }

  lemma EndsCommon(text1: string, text2: string, e: string)
    requires |e| <= |text1| && |e| <= |text2| && Right(text1, |e|) == e == Right(text2, |e|)
    requires Part(e, text1[..|text1| - |e|]) && Part(e, text2[..|text2| - |e|])
    ensures CommonEnd(text1, text2, |e|) && EndRepeats(text1, text2, |e|)
  {
  }

  lemma EndsTwice(a: string, e: string, b: string, t: string)
    requires t == a + e + b + e
    ensures |e| <= |t| && Right(t, |e|) == e && Part(e, t[..|t| - |e|])
  {
    PartMiddle(a, e, b);
    assert t[..|t| - |e|] == a + e + b;
  }

  lemma ApartUnique(ds: seq<Diff>, c: Settings)
    requires LastsApart(Text1(ds), Text2(ds), c.margin)
    ensures LastIsUnique(ds, c)
  {
    hide EndRepeats, Text1, Text2;
    forall i | 0 <= i < |ds| - 1 && ds[i].op == EQUAL && 0 < |ds[i].text| < 2 * c.margin
      ensures ds[i] != ds[|ds| - 1]
    {
      if ds[i] == ds[|ds| - 1] {
        LastRepeats(ds, i);
        assert false;
      }
    }
  }

  /** A condition on the two texts for every diff between them. */
  lemma ApartFaithful(ds: seq<Diff>, c: Settings)
    requires Usable(c) && (c.byPosition || LastsApart(Text1(ds), Text2(ds), c.margin))
    ensures AllFaithful(ds, 0, [], [], c)
  {
    NothingSame();
    if !c.byPosition {
      ApartUnique(ds, c);
    }
    LosesNothing(ds, 0, [], [], c);
  }

  /** p holds the diffs g, with or without a context diff before and behind them; as every patch is made
      against the text the previous ones leave, its two positions are the same. */
  predicate Dressed(p: Patch, g: seq<Diff>) {
    var n := |p.diffs|;
    && p.start1 == p.start2
    && (|| p.diffs == g
        || (n > 0 && p.diffs[0].op == EQUAL && p.diffs[1..] == g)
        || (n > 0 && p.diffs[n - 1].op == EQUAL && p.diffs[..n - 1] == g)
        || (n > 1 && p.diffs[0].op == EQUAL && p.diffs[n - 1].op == EQUAL && p.diffs[1..n - 1] == g))
  }

  predicate AllDressed(ps: seq<Patch>, gs: seq<seq<Diff>>) {
    |ps| == |gs| && forall k :: 0 <= k < |ps| ==> Dressed(ps[k], gs[k])
  }

  lemma ContextDresses(p: Patch, text: string, n: nat)
    requires 0 <= p.start2 && 0 <= p.length1 && p.start2 + p.length1 <= |text| && p.start1 == p.start2
    ensures Dressed(WithContext(p, text, n), p.diffs)
  {
    var prefix, suffix := Before(p, text, n), Behind(p, text, n);
    var q := WithContext(p, text, n);
    assert q == Enclosed(p, prefix, suffix);
    DressContext(prefix, p.diffs, suffix, q);
  }

  lemma DressContext(prefix: string, ds: seq<Diff>, suffix: string, q: Patch)
    requires q.diffs == Context(prefix) + ds + Context(suffix) && q.start1 == q.start2
    ensures Dressed(q, ds)
  {
    var n := |q.diffs|;
    if prefix == "" && suffix == "" {
      assert q.diffs == ds;
    } else if prefix == "" {
      assert q.diffs[..n - 1] == ds;
    } else if suffix == "" {
      assert q.diffs[1..] == ds;
    } else {
      assert q.diffs[1..n - 1] == ds;
    }
  }

  // The local variables of patch_make.
  datatype Making = Making(patches: seq<Patch>, patch: Patch, count1: int, count2: int, pre: string, post: string)

  ghost predicate Lengths(p: Patch) {
    && p.length1 == |Text1(p.diffs)| && p.length2 == |Text2(p.diffs)|
    && (p.diffs == [] ==> p == NO_PATCH)
  }

  // The patch with one more diff, and longer by its texts.
  function Push(p: Patch, d: Diff): Patch {
    p.(diffs := p.diffs + [d],
       length1 := p.length1 + |Part1(d)|,
       length2 := p.length2 + |Part2(d)|)
  }

  lemma PushText(p: Patch, d: Diff)
    ensures Text1(Push(p, d).diffs) == Text1(p.diffs) + Part1(d)
    ensures Text2(Push(p, d).diffs) == Text2(p.diffs) + Part2(d)
  {
    TextAppend(p.diffs, [d]);
    TextOne(d);
  }

  /** What holds whatever the texts are: the positions stay within them. */
  ghost predicate Sizes(m: Making, ds: seq<Diff>, i: nat)
    requires i <= |ds|
  {
    var n := |Text1(ds[i..])|;
    && Lengths(m.patch) && m.count2 >= 0 && |m.post| == m.count2 + n
    && m.patch.start1 == m.patch.start2 && (m.patch.diffs == [] ==> m.count1 == m.count2)
    && if m.patch.diffs == [] then m.count2 + n <= |m.pre|
       else 0 <= m.patch.start2 && m.patch.start2 + m.patch.length1 + n <= |m.pre|
  }

  lemma TailTexts(ds: seq<Diff>, i: nat)
    requires i < |ds|
    ensures Text1(ds[i..]) == Part1(ds[i]) + Text1(ds[i + 1..])
    ensures Text2(ds[i..]) == Part2(ds[i]) + Text2(ds[i + 1..])
  {
    assert ds[i..][1..] == ds[i + 1..];
  }

  lemma NoTail(ds: seq<Diff>)
    ensures Text1(ds[|ds|..]) == "" && Text2(ds[|ds|..]) == ""
  {
  }

  // The state after an insertion or deletion, after an equality that joins the patch, after one that
  // is passed over, and after the end of a patch.
  function AfterEdit(m: Making, d: Diff): Making
    requires 0 <= m.count2 && m.count2 + |Part1(d)| <= |m.post|
  {
    PushEdit(Opened(m), d)
  }

  function PushEdit(m: Making, d: Diff): Making
    requires 0 <= m.count2 && m.count2 + |Part1(d)| <= |m.post|
  {
    Making(m.patches, Push(m.patch, d), m.count1 + |Part1(d)|, m.count2 + |Part2(d)|, m.pre,
           m.post[..m.count2] + Part2(d) + m.post[m.count2 + |Part1(d)|..])
  }

  // The state with a patch open, at the current position if it is new.
  function Opened(m: Making): Making {
    if m.patch.diffs == [] then m.(patch := m.patch.(start1 := m.count1, start2 := m.count2)) else m
  }

  function AfterJoin(m: Making, d: Diff): Making {
    m.(patch := Push(m.patch, d), count1 := m.count1 + |d.text|, count2 := m.count2 + |d.text|)
  }

  function AfterPass(m: Making, d: Diff): Making {
    m.(count1 := m.count1 + |d.text|, count2 := m.count2 + |d.text|)
  }

  function AfterEnd(m: Making, q: Patch): Making {
    Making(m.patches + [q], NO_PATCH, m.count2, m.count2, m.post, m.post)
  }

  lemma EditSizes(m: Making, ds: seq<Diff>, i: nat)
    requires i < |ds| && Sizes(m, ds, i) && ds[i].op != EQUAL
    ensures 0 <= m.count2 && m.count2 + |Part1(ds[i])| <= |m.post|
    ensures Sizes(AfterEdit(m, ds[i]), ds, i + 1) && AfterEdit(m, ds[i]).patch.diffs != []
  {
    TailTexts(ds, i);
    PushText(Opened(m).patch, ds[i]);
  }

  lemma JoinSizes(m: Making, ds: seq<Diff>, i: nat)
    requires i < |ds| && Sizes(m, ds, i) && ds[i].op == EQUAL && m.patch.diffs != []
    ensures Sizes(AfterJoin(m, ds[i]), ds, i + 1) && AfterJoin(m, ds[i]).patch.diffs != []
  {
    TailTexts(ds, i);
    PushText(m.patch, ds[i]);
  }

  lemma PassSizes(m: Making, ds: seq<Diff>, i: nat)
    requires i < |ds| && Sizes(m, ds, i) && ds[i].op == EQUAL
    ensures Sizes(AfterPass(m, ds[i]), ds, i + 1)
  {
    TailTexts(ds, i);
  }

  lemma EndSizes(m: Making, ds: seq<Diff>, i: nat, q: Patch)
    requires i <= |ds| && Sizes(m, ds, i)
    ensures Sizes(AfterEnd(m, q), ds, i)
  {
  }

  /** A finished patch: the texts before and behind its group, the group and what is kept of it, and the
      context the patch has been given. */
  datatype Finished = Finished(before: string, group: seq<Diff>, behind: string, kept: seq<Diff>, prefix: string, suffix: string)

  // The text before the step, and the one it is to leave.
  function Pre(s: Finished): string {
    s.before + Text1(s.group) + s.behind
  }

  function Post(s: Finished): string {
    s.before + Text2(s.group) + s.behind
  }

  // The end of the group in the text it is to leave.
  function End(s: Finished): nat {
    |s.before| + |Text2(s.group)|
  }

  /** What is lost of a group are equalities, which are as long in both texts. */
  ghost predicate Shorter(kept: seq<Diff>, group: seq<Diff>) {
    && |Text1(kept)| <= |Text1(group)|
    && |Text1(group)| - |Text1(kept)| == |Text2(group)| - |Text2(kept)|
  }

  /** The patch of a step: its context is what the text has before and behind it, as far as it knows. */
  ghost predicate PatchFor(p: Patch, s: Finished, margin: nat) {
    var e := |s.before| + |Text1(s.kept)|;
    && Shorter(s.kept, s.group)
    && |s.prefix| <= |s.before| && s.prefix == Pre(s)[|s.before| - |s.prefix|..|s.before|]
    && e + |s.suffix| <= |Pre(s)| && s.suffix == Pre(s)[e..e + |s.suffix|]
    && p.start2 == |s.before| - |s.prefix|
    && p.length1 == |s.prefix| + |Text1(s.kept)| + |s.suffix| && p.length2 == |s.prefix| + |Text2(s.kept)| + |s.suffix|
    && Text1(p.diffs) == s.prefix + Text1(s.kept) + s.suffix && Text2(p.diffs) == s.prefix + Text2(s.kept) + s.suffix
    && Anchored(p, Pre(s), margin)
  }

  // The diffs g at position a, without context.
  function Bare(g: seq<Diff>, a: nat): Patch {
    Patch(g, a, a, |Text1(g)|, |Text2(g)|)
  }

  /** The diffs g at position a of the text, with exactly the context that patch_addContext looks for. */
  ghost predicate Contextual(p: Patch, g: seq<Diff>, a: nat, t: string, c: Settings)
    requires Usable(c)
  {
    && a + |Text1(g)| <= |t|
    && if t == "" then p == Bare(g, a)
       else exists n: nat :: ExactContext(Bare(g, a), t, c, n) && p == WithContext(Bare(g, a), t, n)
  }

  ghost predicate StepContext(p: Patch, s: Finished, c: Settings)
    requires Usable(c)
  {
    Contextual(p, s.kept, |s.before|, Pre(s), c)
  }

  ghost predicate Contexts(ps: seq<Patch>, ss: seq<Finished>, gs: seq<seq<Diff>>, c: Settings)
    requires Usable(c)
  {
    |ps| == |ss| == |gs| && forall k :: 0 <= k < |ss| ==> gs[k] == ss[k].kept && StepContext(ps[k], ss[k], c)
  }

  lemma ContextsMore(ps: seq<Patch>, ss: seq<Finished>, gs: seq<seq<Diff>>, c: Settings, p: Patch, s: Finished)
    requires Usable(c) && Contexts(ps, ss, gs, c) && StepContext(p, s, c)
    ensures Contexts(ps + [p], ss + [s], gs + [s.kept], c)
  {
    hide StepContext;
  }

  /** Applied one after the other, every patch is its group in context. */
  ghost predicate InContext(ps: seq<Patch>, gs: seq<seq<Diff>>, t: string, c: Settings)
    requires Usable(c)
  {
    if |ps| == 0 || |gs| == 0 then |ps| == |gs|
    else && (exists a: nat :: Contextual(ps[0], gs[0], a, t, c))
         && Fits(ps[0], t) && InContext(ps[1..], gs[1..], Applied(ps[0], t), c)
  }

  /** How long the source text of a patch can be. */
  lemma {:induction false} InContextBounded(ps: seq<Patch>, gs: seq<seq<Diff>>, t: string, c: Settings, k: nat)
    requires Usable(c) && InContext(ps, gs, t, c) && k < |ps|
    ensures k < |gs| && ps[k].length1 <= Max(|Text1(gs[k])|, c.maxBits - 1) + 2 * c.margin
  {
    hide Text1, Text2, Applied, Contextual;
    if k > 0 {
      InContextBounded(ps[1..], gs[1..], Applied(ps[0], t), c, k - 1);
    } else {
      var a: nat :| Contextual(ps[0], gs[0], a, t, c);
      ContextualBounded(ps[0], gs[0], a, t, c);
    }
  }

  lemma ContextualBounded(p: Patch, g: seq<Diff>, a: nat, t: string, c: Settings)
    requires Usable(c) && Contextual(p, g, a, t, c)
    ensures p.length1 <= Max(|Text1(g)|, c.maxBits - 1) + 2 * c.margin
  {
    if t != "" {
      var n: nat :| ExactContext(Bare(g, a), t, c, n) && p == WithContext(Bare(g, a), t, n);
      ContextBounded(Bare(g, a), t, c, n);
    }
  }

  // What a step may replace its group by.
  function Left(s: Finished): string
    requires |Text1(s.kept)| <= |Text1(s.group)|
  {
    Text2(s.kept) + Text1(s.group)[|Text1(s.kept)|..]
  }

  /** A patch fits if its group reads what is kept at its start, and then the rest of the group stays. */
  lemma PatchFits(p: Patch, s: Finished, margin: nat)
    requires PatchFor(p, s, margin)
    ensures Fits(p, Pre(s)) <==> Text1(s.kept) == Text1(s.group)[..|Text1(s.kept)|]
    ensures Fits(p, Pre(s)) ==> Applied(p, Pre(s)) == s.before + Left(s) + s.behind
    ensures |Left(s)| == |Text2(s.group)|
  {
    hide Anchored, Text1, Text2;
    FitsWithin(s.before, s.prefix, Text1(s.kept), Text2(s.kept), s.suffix, Text1(s.group), s.behind, Pre(s));
  }

  lemma FitsWithin(before: string, prefix: string, x: string, y: string, suffix: string, g: string, behind: string,
                   pre: string)
    requires pre == before + g + behind && |x| <= |g|
    requires |prefix| <= |before| && prefix == pre[|before| - |prefix|..|before|]
    requires |before| + |x| + |suffix| <= |pre| && suffix == pre[|before| + |x|..|before| + |x| + |suffix|]
    ensures var a, b := |before| - |prefix|, |before| + |x| + |suffix|;
            && (pre[a..b] == prefix + x + suffix <==> x == g[..|x|])
            && pre[..a] + (prefix + y + suffix) + pre[b..] == before + (y + g[|x|..]) + behind
  {
    FitsThere(before, prefix, x, suffix, g, behind, pre);
    LeavesThere(before, prefix, x, y, suffix, g, behind, pre);
  }

  lemma FitsThere(before: string, prefix: string, x: string, suffix: string, g: string, behind: string, pre: string)
    requires pre == before + g + behind && |x| <= |g|
    requires |prefix| <= |before| && prefix == pre[|before| - |prefix|..|before|]
    requires |before| + |x| + |suffix| <= |pre| && suffix == pre[|before| + |x|..|before| + |x| + |suffix|]
    ensures pre[|before| - |prefix|..|before| + |x| + |suffix|] == prefix + x + suffix <==> x == g[..|x|]
  {
    var a, b, m := |before| - |prefix|, |before| + |x| + |suffix|, |before| + |x|;
    InGroup(before, g, behind, |x|);
    SubSlices(pre, a, |before|, m, b);
    SameMiddle(prefix, x, suffix, pre[a..b], pre[|before|..m]);
  }

  lemma LeavesThere(before: string, prefix: string, x: string, y: string, suffix: string, g: string, behind: string,
                    pre: string)
    requires pre == before + g + behind && |x| <= |g|
    requires |prefix| <= |before| && prefix == pre[|before| - |prefix|..|before|]
    requires |before| + |x| + |suffix| <= |pre| && suffix == pre[|before| + |x|..|before| + |x| + |suffix|]
    ensures pre[..|before| - |prefix|] + (prefix + y + suffix) + pre[|before| + |x| + |suffix|..]
            == before + (y + g[|x|..]) + behind
  {
    var a, b, m := |before| - |prefix|, |before| + |x| + |suffix|, |before| + |x|;
    InGroup(before, g, behind, |x|);
    OuterSlices(pre, a, |before|, m, b);
    FiveParts(pre[..a], prefix, y, suffix, pre[b..]);
    Append(before, y, g[|x|..], behind);
  }

  lemma InGroup(before: string, g: string, behind: string, n: nat)
    requires n <= |g|
    ensures var t, m := before + g + behind, |before| + n;
            t[..|before|] == before && t[|before|..m] == g[..n] && t[m..] == g[n..] + behind
  {
    var t, m := before + g + behind, |before| + n;
    assert t == before + (g + behind) && t[|before|..] == g + behind;
    assert t[|before|..m] == (g + behind)[..n] == g[..n];
    assert t[m..] == g[n..] + behind;
  }

  lemma SubSlices(t: string, a: nat, b: nat, c: nat, d: nat)
    requires a <= b <= c <= d <= |t|
    ensures t[a..d][..b - a] == t[a..b] && t[a..d][b - a..c - a] == t[b..c] && t[a..d][c - a..] == t[c..d]
  {
    PartOfPart(t, a, d, 0, b - a);
    PartOfPart(t, a, d, b - a, c - a);
    PartOfPart(t, a, d, c - a, d - a);
  }

  lemma OuterSlices(t: string, a: nat, b: nat, c: nat, d: nat)
    requires a <= b <= c <= d <= |t|
    ensures t[..a] + t[a..b] == t[..b] && t[c..d] + t[d..] == t[c..]
  {
  }

  lemma SameMiddle(prefix: string, x: string, suffix: string, all: string, m: string)
    requires |all| == |prefix| + |x| + |suffix| && |m| == |x|
    requires all[..|prefix|] == prefix && all[|prefix|..|prefix| + |x|] == m && all[|prefix| + |x|..] == suffix
    ensures all == prefix + x + suffix <==> x == m
  {
    assert all == prefix + m + suffix;
    assert (prefix + x + suffix)[|prefix|..|prefix| + |x|] == x;
  }

  /** The steps follow one another, from the first text to the last and from left to right. */
  ghost predicate Linked(ps: seq<Patch>, ss: seq<Finished>, t: string, u: string, margin: nat) {
    && |ps| == |ss| && Stage(ss, 0, u) == t
    && (forall k :: 0 <= k < |ss| ==> PatchFor(ps[k], ss[k], margin))
    && (forall k :: 0 <= k < |ss| ==> Post(ss[k]) == Stage(ss, k + 1, u))
    && (forall k :: 0 < k < |ss| ==> End(ss[k - 1]) <= |ss[k].before|)
  }

  // The text after k steps.
  ghost function Stage(ss: seq<Finished>, k: nat, u: string): string
    requires k <= |ss|
  {
    if k < |ss| then Pre(ss[k]) else u
  }

  lemma LinkMore(ps: seq<Patch>, ss: seq<Finished>, t: string, margin: nat, p: Patch, s: Finished)
    requires Linked(ps, ss, t, Pre(s), margin) && PatchFor(p, s, margin)
    requires ss != [] ==> End(ss[|ss| - 1]) <= |s.before|
    ensures Linked(ps + [p], ss + [s], t, Post(s), margin)
  {
    hide PatchFor, Pre, Post, End;
    var ps', ss' := ps + [p], ss + [s];
    forall k | 0 <= k < |ss'| ensures PatchFor(ps'[k], ss'[k], margin) {
      assert k < |ss| ==> ps'[k] == ps[k] && ss'[k] == ss[k];
    }
    forall k | 0 <= k < |ss'| ensures Post(ss'[k]) == Stage(ss', k + 1, Post(s)) {
      if k < |ss| {
        assert ss'[k] == ss[k] && Stage(ss', k + 1, Post(s)) == Stage(ss, k + 1, Pre(s));
      }
    }
    forall k | 0 < k < |ss'| ensures End(ss'[k - 1]) <= |ss'[k].before| {
      assert ss'[k - 1] == ss[k - 1] && (k < |ss| ==> ss'[k] == ss[k]);
    }
    assert Stage(ss', 0, Post(s)) == Stage(ss, 0, Pre(s));
  }

  /** Later steps begin behind the earlier ones. */
  lemma {:induction false} LaterBehind(ps: seq<Patch>, ss: seq<Finished>, t: string, u: string, margin: nat, k: nat,
                                       j: nat)
    requires Linked(ps, ss, t, u, margin) && k < j < |ss|
    ensures End(ss[k]) <= |ss[j].before|
    decreases j
  {
    if k < j - 1 {
      LaterBehind(ps, ss, t, u, margin, k, j - 1);
    }
  }

  // Both texts begin with the same n characters.
  predicate SameFront(t: string, u: string, n: nat) {
    n <= |t| && n <= |u| && t[..n] == u[..n]
  }

  /** Steps from k on leave what is before them as it is. */
  lemma {:induction false} FrontStays(ps: seq<Patch>, ss: seq<Finished>, t: string, u: string, margin: nat, k: nat,
                                      n: nat)
    requires Linked(ps, ss, t, u, margin) && k <= |ss| && forall j :: k <= j < |ss| ==> n <= |ss[j].before|
    requires n <= |Stage(ss, k, u)|
    ensures SameFront(Stage(ss, k, u), u, n)
    decreases |ss| - k
  {
    if k < |ss| {
      var s := ss[k];
      assert Post(s) == Stage(ss, k + 1, u);
      FrontOf(s.before, Text1(s.group), s.behind, n);
      FrontOf(s.before, Text2(s.group), s.behind, n);
      FrontStays(ps, ss, t, u, margin, k + 1, n);
    }
  }

  lemma FrontOf(a: string, x: string, b: string, n: nat)
    requires n <= |a|
    ensures n <= |a + x + b| && (a + x + b)[..n] == a[..n]
  {
  }

  /** So do their patches on any text they can be applied to. */
  lemma {:induction false} ChainKeepsFront(ps: seq<Patch>, ss: seq<Finished>, t: string, u: string, margin: nat,
                                           k: nat, n: nat, v: string, w: string)
    requires Linked(ps, ss, t, u, margin) && k <= |ss| && forall j :: k <= j < |ss| ==> n <= |ss[j].before|
    requires n <= |v| && Chain(ps[k..], v, w)
    ensures SameFront(v, w, n)
    decreases |ss| - k
  {
    if k < |ss| {
      var p := ps[k];
      assert ps[k..][0] == p && ps[k..][1..] == ps[k + 1..];
      PatchKeepsFront(p, ss[k], margin, v, n);
      ChainKeepsFront(ps, ss, t, u, margin, k + 1, n, Applied(p, v), w);
    }
  }

  lemma PatchKeepsFront(p: Patch, s: Finished, margin: nat, v: string, n: nat)
    requires PatchFor(p, s, margin) && Fits(p, v) && n <= |s.before| && n <= |v|
    ensures SameFront(v, Applied(p, v), n)
  {
    var a, x, y := p.start2, Text1(p.diffs), Text2(p.diffs);
    ContextInFront(s.prefix, Text1(s.kept), Text2(s.kept), s.suffix, x, y);
    AppliedFront(v, a, x, y, |s.prefix|, n);
  }

  lemma ContextInFront(prefix: string, x0: string, y0: string, suffix: string, x: string, y: string)
    requires x == prefix + x0 + suffix && y == prefix + y0 + suffix
    ensures SameFront(x, y, |prefix|)
  {
  }

  lemma AppliedFront(v: string, a: nat, x: string, y: string, m: nat, n: nat)
    requires a + |x| <= |v| && v[a..a + |x|] == x && SameFront(x, y, m) && n <= a + m
    ensures SameFront(v, v[..a] + y + v[a + |x|..], n)
  {
    var w := v[..a] + y + v[a + |x|..];
    assert v[..a + m] == v[..a] + x[..m];
    assert w[..a + m] == v[..a] + y[..m];
    assert v[..n] == v[..a + m][..n] && w[..n] == w[..a + m][..n];
  }

  ghost predicate StepsFaithful(ss: seq<Finished>, from: nat) {
    forall k :: from <= k < |ss| ==> Faithful(ss[k].kept, ss[k].group)
  }

  /** Only a faithful step leads on to the last text. */
  lemma ChainNeedsFaith(ps: seq<Patch>, ss: seq<Finished>, t: string, u: string, margin: nat, k: nat)
    requires Linked(ps, ss, t, u, margin) && k < |ss| && Chain(ps[k..], Pre(ss[k]), u)
    ensures Faithful(ss[k].kept, ss[k].group)
  {
    var p, s, n := ps[k], ss[k], End(ss[k]);
    PatchFits(p, s, margin);
    assert ps[k..][0] == p && ps[k..][1..] == ps[k + 1..];
    forall j | k < j < |ss| ensures n <= |ss[j].before| {
      LaterBehind(ps, ss, t, u, margin, k, j);
    }
    FrontStays(ps, ss, t, u, margin, k + 1, n);
    ChainKeepsFront(ps, ss, t, u, margin, k + 1, n, Applied(p, Pre(s)), u);
    MiddlesSame(s.before, Left(s), Text2(s.group), s.behind, u, n);
  }

  lemma MiddlesSame(a: string, x: string, y: string, b: string, u: string, n: nat)
    requires |x| == |y| && n == |a| + |y| && SameFront(a + x + b, u, n) && SameFront(a + y + b, u, n)
    ensures x == y
  {
    assert (a + x + b)[..n] == a + x && (a + y + b)[..n] == a + y;
    assert (a + x)[|a|..] == x && (a + y)[|a|..] == y;
  }

  lemma FaithfulStep(p: Patch, s: Finished, margin: nat)
    requires PatchFor(p, s, margin) && Faithful(s.kept, s.group)
    ensures Fits(p, Pre(s)) && Applied(p, Pre(s)) == Post(s)
  {
    PatchFits(p, s, margin);
  }

  /** The patches lead to the last text exactly if every step is faithful. */
  lemma {:induction false} ChainIff(ps: seq<Patch>, ss: seq<Finished>, t: string, u: string, margin: nat, k: nat)
    requires Linked(ps, ss, t, u, margin) && k <= |ss|
    ensures Chain(ps[k..], Stage(ss, k, u), u) <==> StepsFaithful(ss, k)
    decreases |ss| - k
  {
    hide Faithful, PatchFor, Fits, Applied;
    if k < |ss| {
      ChainIff(ps, ss, t, u, margin, k + 1);
      if Faithful(ss[k].kept, ss[k].group) {
        FaithfulStep(ps[k], ss[k], margin);
        assert ps[k..][0] == ps[k] && ps[k..][1..] == ps[k + 1..];
        assert Post(ss[k]) == Stage(ss, k + 1, u);
      } else if Chain(ps[k..], Pre(ss[k]), u) {
        ChainNeedsFaith(ps, ss, t, u, margin, k);
        assert false;
      }
    }
  }

  /** Faithful steps lead through the texts their patches were made for. */
  lemma {:induction false} ContextsFollow(ps: seq<Patch>, ss: seq<Finished>, gs: seq<seq<Diff>>, t: string, u: string,
                                          c: Settings, k: nat)
    requires Usable(c) && Linked(ps, ss, t, u, c.margin) && Contexts(ps, ss, gs, c) && k <= |ss| && StepsFaithful(ss, k)
    ensures InContext(ps[k..], gs[k..], Stage(ss, k, u), c)
    decreases |ss| - k
  {
    hide Faithful, PatchFor, Fits, Applied, Contextual, Pre, Post;
    if k < |ss| {
      ContextsFollow(ps, ss, gs, t, u, c, k + 1);
      FaithfulStep(ps[k], ss[k], c.margin);
      assert ps[k..][0] == ps[k] && ps[k..][1..] == ps[k + 1..];
      assert gs[k..][0] == gs[k] && gs[k..][1..] == gs[k + 1..];
      assert Post(ss[k]) == Stage(ss, k + 1, u);
      assert StepContext(ps[k], ss[k], c);
    }
  }

  /** The texts during the loop: a stands before the open group and the rest of the diffs behind it; the
      finished patches lead up to here. */
  ghost predicate Tracked(m: Making, ds: seq<Diff>, i: nat, text1: string, a: string, group: seq<Diff>,
                          ss: seq<Finished>, margin: nat)
    requires i <= |ds|
  {
    && m.pre == a + Text1(group) + Text1(ds[i..]) && m.post == a + Text2(group) + Text1(ds[i..])
    && m.count2 == |a| + |Text2(group)| && Shorter(m.patch.diffs, group)
    && (if m.patch.diffs == [] then group == [] else m.patch.start2 == |a|)
    && Text2(ds) == a + Text2(group) + Text2(ds[i..])
    && Linked(m.patches, ss, text1, m.pre, margin) && (ss != [] ==> End(ss[|ss| - 1]) <= |a|)
  }

  lemma Append(a: string, g: string, x: string, r: string)
    ensures a + g + (x + r) == a + (g + x) + r
  {
  }

  lemma GroupGrows(group: seq<Diff>, d: Diff)
    ensures Text1(group + [d]) == Text1(group) + Part1(d) && Text2(group + [d]) == Text2(group) + Part2(d)
  {
    TextAppend(group, [d]);
    TextOne(d);
  }

  lemma EditPost(a: string, y: string, d1: string, d2: string, r: string, post: string, n: int)
    requires post == a + y + (d1 + r) && n == |a| + |y|
    ensures n + |d1| <= |post| && post[..n] + d2 + post[n + |d1|..] == a + (y + d2) + r
  {
    var h := a + y;
    assert |h| == n && post == h + (d1 + r);
    assert post[..n] == h && post[n + |d1|..] == r;
    Append(a, y, d2, r);
    assert h + d2 + r == h + (d2 + r);
  }

  lemma EditTracked(m: Making, ds: seq<Diff>, i: nat, text1: string, a: string, group: seq<Diff>, ss: seq<Finished>,
                    margin: nat)
    requires i < |ds| && ds[i].op != EQUAL && Tracked(m, ds, i, text1, a, group, ss, margin)
    requires m.count2 + |Part1(ds[i])| <= |m.post|
    ensures Tracked(AfterEdit(m, ds[i]), ds, i + 1, text1, a, group + [ds[i]], ss, margin)
  {
    hide Linked, Shorter, Text1, Text2, End;
    var d, o := ds[i], Opened(m);
    TailTexts(ds, i);
    GroupGrows(group, d);
    PushText(o.patch, d);
    ShorterGrows(m.patch.diffs, group, d);
    NothingIn();
    Append(a, Text1(group), Part1(d), Text1(ds[i + 1..]));
    Append(a, Text2(group), Part2(d), Text2(ds[i + 1..]));
    EditPost(a, Text2(group), Part1(d), Part2(d), Text1(ds[i + 1..]), m.post, m.count2);
    assert AfterEdit(m, d).patch.diffs == m.patch.diffs + [d];
  }

  lemma NothingIn()
    ensures Text1([]) == "" && Text2([]) == ""
  {
  }

  lemma ShorterGrows(kept: seq<Diff>, group: seq<Diff>, d: Diff)
    requires Shorter(kept, group)
    ensures Shorter(kept + [d], group + [d]) && (d.op == EQUAL ==> Shorter(kept, group + [d]))
  {
    GroupGrows(kept, d);
    GroupGrows(group, d);
  }

  /** An equality that joins the open patch, or is passed over beside it. */
  lemma EqualTracked(m: Making, ds: seq<Diff>, i: nat, text1: string, a: string, group: seq<Diff>, ss: seq<Finished>,
                     margin: nat)
    requires i < |ds| && ds[i].op == EQUAL && m.patch.diffs != [] && Tracked(m, ds, i, text1, a, group, ss, margin)
    ensures Tracked(AfterJoin(m, ds[i]), ds, i + 1, text1, a, group + [ds[i]], ss, margin)
    ensures Tracked(AfterPass(m, ds[i]), ds, i + 1, text1, a, group + [ds[i]], ss, margin)
  {
    hide Linked, Shorter, Text1, Text2, End;
    var d := ds[i];
    TailTexts(ds, i);
    GroupGrows(group, d);
    ShorterGrows(m.patch.diffs, group, d);
    Append(a, Text1(group), d.text, Text1(ds[i + 1..]));
    Append(a, Text2(group), d.text, Text1(ds[i + 1..]));
    Append(a, Text2(group), d.text, Text2(ds[i + 1..]));
    assert AfterJoin(m, d).patch.diffs == m.patch.diffs + [d];
  }

  /** An equality with no patch open. */
  lemma PassTracked(m: Making, ds: seq<Diff>, i: nat, text1: string, a: string, ss: seq<Finished>, margin: nat)
    requires i < |ds| && ds[i].op == EQUAL && m.patch.diffs == [] && Tracked(m, ds, i, text1, a, [], ss, margin)
    ensures Tracked(AfterPass(m, ds[i]), ds, i + 1, text1, a + ds[i].text, [], ss, margin)
  {
    hide Linked, Text1, Text2, End;
    TailTexts(ds, i);
    NothingIn();
    Shift(a, ds[i].text, Text1(ds[i + 1..]));
    Shift(a, ds[i].text, Text2(ds[i + 1..]));
  }

  lemma Shift(a: string, t: string, r: string)
    ensures a + "" + (t + r) == a + t + "" + r
  {
  }

  // The step of the open patch when it ends before position i.
  ghost function StepAt(m: Making, ds: seq<Diff>, i: nat, a: string, group: seq<Diff>, prefix: string, suffix: string): Finished
    requires i <= |ds|
  {
    Finished(a, group, Text1(ds[i..]), m.patch.diffs, prefix, suffix)
  }

  lemma EndTracked(m: Making, ds: seq<Diff>, i: nat, text1: string, a: string, group: seq<Diff>, ss: seq<Finished>,
                   margin: nat,
                   q: Patch, s: Finished)
    requires i <= |ds| && m.patch.diffs != [] && Tracked(m, ds, i, text1, a, group, ss, margin)
    requires s == StepAt(m, ds, i, a, group, s.prefix, s.suffix) && PatchFor(q, s, margin)
    ensures Tracked(AfterEnd(m, q), ds, i, text1, a + Text2(group), [], ss + [s], margin)
  {
    hide Linked, PatchFor, Text1, Text2;
    LinkMore(m.patches, ss, text1, margin, q, s);
    NothingIn();
    NothingShorter();
    Closed(a + Text2(group), Text1(ds[i..]));
    Closed(a + Text2(group), Text2(ds[i..]));
  }

  lemma NothingShorter()
    ensures Shorter([], [])
  {
  }

  lemma Closed(b: string, r: string)
    ensures b + "" + r == b + r && |b + ""| == |b|
  {
  }

  /** The context that patch_addContext finds makes the patch of the step. */
  lemma ContextStep(p: Patch, q: Patch, s: Finished, n: nat, margin: nat)
    requires margin >= 1 && n >= margin && Shorter(s.kept, s.group) && p.diffs == s.kept && Lengths(p)
    requires p.start2 == |s.before|
    requires |s.before| + |Text1(s.kept)| <= |Pre(s)|
    requires s.prefix == Before(p, Pre(s), n) && s.suffix == Behind(p, Pre(s), n) && q == WithContext(p, Pre(s), n)
    ensures PatchFor(q, s, margin)
  {
    hide Text1, Text2, Anchored, Before, Behind, Pre, Shorter;
    ContextTexts(s.prefix, p.diffs, s.suffix);
    ContextAnchors(p, Pre(s), n, margin);
    ContextSlices(p, Pre(s), n);
  }

  lemma ContextSlices(p: Patch, t: string, n: nat)
    requires 0 <= p.start2 && 0 <= p.length1 && p.start2 + p.length1 <= |t|
    ensures var b := Before(p, t, n); |b| <= p.start2 && b == t[p.start2 - |b|..p.start2]
    ensures var e, r := p.start2 + p.length1, Behind(p, t, n); e + |r| <= |t| && r == t[e..e + |r|]
  {
  }

  // The empty text gives no context.
  lemma EmptyStep(p: Patch, s: Finished, margin: nat)
    requires Shorter(s.kept, s.group) && p.diffs == s.kept && Lengths(p) && p.start2 == |s.before|
    requires Pre(s) == "" && s.prefix == "" && s.suffix == ""
    ensures PatchFor(p, s, margin)
  {
    assert "" + Text1(s.kept) + "" == Text1(s.kept) && "" + Text2(s.kept) + "" == Text2(s.kept);
  }

  /** The groups of the finished patches, and of those still to come. */
  ghost predicate Grouped(m: Making, ds: seq<Diff>, i: nat, c: Settings, gs: seq<seq<Diff>>)
    requires i <= |ds|
  {
    AllDressed(m.patches, gs) && gs + Groups(ds, i, m.patch.diffs, c) == Groups(ds, 0, [], c)
  }

  /** Whether all steps are faithful depends on those taken and on the rest. */
  ghost predicate FaithLeft(m: Making, ds: seq<Diff>, i: nat, c: Settings, group: seq<Diff>, ss: seq<Finished>)
    requires i <= |ds|
  {
    AllFaithful(ds, 0, [], [], c) <==> StepsFaithful(ss, 0) && AllFaithful(ds, i, m.patch.diffs, group, c)
  }

  // What is known of the loop besides its variables: the groups and steps of the finished patches, the
  // text before the open group, and that group.
  datatype Ledger = Ledger(gs: seq<seq<Diff>>, ss: seq<Finished>, a: string, group: seq<Diff>)

  /** The loop invariant of patch_make; exact says that the diff is one of text1. */
  ghost predicate Made(m: Making, ds: seq<Diff>, i: nat, c: Settings, text1: string, exact: bool, l: Ledger)
    requires i <= |ds| && Usable(c)
  {
    && Sizes(m, ds, i) && Grouped(m, ds, i, c, l.gs)
    && (exact ==>
          && Tracked(m, ds, i, text1, l.a, l.group, l.ss, c.margin) && FaithLeft(m, ds, i, c, l.group, l.ss)
          && Contexts(m.patches, l.ss, l.gs, c))
  }

  /** An insertion or deletion. */
  lemma EditMade(m: Making, ds: seq<Diff>, i: nat, c: Settings, text1: string, exact: bool, l: Ledger)
    requires i < |ds| && Usable(c) && Made(m, ds, i, c, text1, exact, l) && ds[i].op != EQUAL
    ensures 0 <= m.count2 && m.count2 + |Part1(ds[i])| <= |m.post|
    ensures Made(AfterEdit(m, ds[i]), ds, i + 1, c, text1, exact, l.(group := l.group + [ds[i]]))
  {
    hide Tracked, Sizes, AllDressed, Contexts;
    EditSizes(m, ds, i);
    if exact {
      EditTracked(m, ds, i, text1, l.a, l.group, l.ss, c.margin);
    }
  }

  /** An equality that ends no patch. */
  lemma KeepMade(m: Making, ds: seq<Diff>, i: nat, c: Settings, text1: string, exact: bool,
                 l: Ledger) returns (l': Ledger)
    requires i < |ds| && Usable(c) && Made(m, ds, i, c, text1, exact, l) && ds[i].op == EQUAL
    requires m.patch.diffs == [] || !Ends(ds, i, c)
    ensures var e := if m.patch.diffs != [] && Joins(ds, i, c) then AfterJoin(m, ds[i]) else AfterPass(m, ds[i]);
            Made(e, ds, i + 1, c, text1, exact, l')
  {
    hide Sizes, AllDressed, Linked, Shorter, Text1, Text2, Contexts;
    if m.patch.diffs != [] {
      l' := l.(group := l.group + [ds[i]]);
      JoinSizes(m, ds, i);
      PassSizes(m, ds, i);
      if exact {
        EqualTracked(m, ds, i, text1, l.a, l.group, l.ss, c.margin);
      }
    } else {
      l' := l.(a := l.a + ds[i].text);
      PassSizes(m, ds, i);
      if exact {
        PassTracked(m, ds, i, text1, l.a, l.ss, c.margin);
      }
    }
  }

  /** The open patch gets its context and joins the finished ones. */
  method FinishPatch(m: Making, c: Settings, ghost ds: seq<Diff>, ghost i: nat, ghost text1: string, ghost exact: bool,
                     ghost l: Ledger)
    returns (e: Making, ghost s: Finished)
    requires Usable(c) && i <= |ds| && Sizes(m, ds, i) && m.patch.diffs != []
    requires exact ==> Tracked(m, ds, i, text1, l.a, l.group, l.ss, c.margin)
    ensures |e.patches| == |m.patches| + 1 && e == AfterEnd(m, e.patches[|m.patches|])
    ensures Dressed(e.patches[|m.patches|], m.patch.diffs) && Sizes(e, ds, i)
    ensures s.kept == m.patch.diffs && s.group == l.group
    ensures exact ==> Tracked(e, ds, i, text1, l.a + Text2(l.group), [], l.ss + [s], c.margin)
    ensures exact ==> StepContext(e.patches[|m.patches|], s, c)
  {
    hide Linked, Text1, Text2, Dressed;
    var q;
    ghost var n;
    q, n := AddContext(m.patch, m.pre, c);
    e := Making(m.patches + [q], NO_PATCH, m.count2, m.count2, m.post, m.post);
    EndSizes(m, ds, i, q);
    s := StepAt(m, ds, i, l.a, l.group, "", "");
    if m.pre != "" {
      ContextDresses(m.patch, m.pre, n);
      s := StepAt(m, ds, i, l.a, l.group, Before(m.patch, m.pre, n), Behind(m.patch, m.pre, n));
    } else {
      DressedAlready(m.patch);
    }
    if exact {
      assert m.pre == Pre(s);
      StepInContext(m, ds, i, q, s, n, c);
      if m.pre != "" {
        ExactContextWide(m.patch, m.pre, c, n);
        ContextStep(m.patch, q, s, n, c.margin);
      } else {
        EmptyStep(m.patch, s, c.margin);
      }
      EndTracked(m, ds, i, text1, l.a, l.group, l.ss, c.margin, q, s);
    }
  }

  lemma StepInContext(m: Making, ds: seq<Diff>, i: nat, q: Patch, s: Finished, n: nat, c: Settings)
    requires Usable(c) && i <= |ds| && Sizes(m, ds, i) && m.patch.diffs != [] && m.pre == Pre(s)
    requires m.patch.diffs == s.kept && m.patch.start2 == |s.before|
    requires m.pre == "" ==> q == m.patch
    requires m.pre != "" ==> ExactContext(m.patch, m.pre, c, n) && q == WithContext(m.patch, m.pre, n)
    ensures StepContext(q, s, c)
  {
    hide ExactContext, WithContext;
    assert m.patch == Bare(s.kept, |s.before|);
  }

  lemma ExactContextWide(p: Patch, t: string, c: Settings, n: nat)
    requires Usable(c) && 0 <= p.start2 && 0 <= p.length1 && p.start2 + p.length1 <= |t| && ExactContext(p, t, c, n)
    ensures n >= c.margin
  {
  }

  lemma DressedAlready(p: Patch)
    requires p.start1 == p.start2
    ensures Dressed(p, p.diffs)
  {
  }

  lemma DressMore(ps: seq<Patch>, gs: seq<seq<Diff>>, q: Patch, g: seq<Diff>)
    requires AllDressed(ps, gs) && Dressed(q, g)
    ensures AllDressed(ps + [q], gs + [g])
  {
  }

  lemma OneMoreFaithful(ss: seq<Finished>, s: Finished)
    ensures StepsFaithful(ss + [s], 0) <==> StepsFaithful(ss, 0) && Faithful(s.kept, s.group)
  {
    if StepsFaithful(ss + [s], 0) {
      forall k | 0 <= k < |ss| ensures Faithful(ss[k].kept, ss[k].group) {
        assert (ss + [s])[k] == ss[k];
      }
      assert (ss + [s])[|ss|] == s;
    }
  }

  /** An equality that ends the open patch as its last diff. */
  method JoinAndEnd(m: Making, c: Settings, ds: seq<Diff>, i: nat, ghost text1: string, ghost exact: bool,
                    ghost l: Ledger)
    returns (e: Making, ghost l': Ledger)
    requires Usable(c) && i < |ds| && Made(m, ds, i, c, text1, exact, l)
    requires Ends(ds, i, c) && m.patch.diffs != [] && Joins(ds, i, c)
    ensures Made(e, ds, i + 1, c, text1, exact, l')
  {
    hide Tracked, Sizes, AllDressed, StepsFaithful, Faithful, Text1, Text2, Dressed, Contexts, StepContext;
    JoinSizes(m, ds, i);
    ghost var k := l.(group := l.group + [ds[i]]);
    if exact {
      EqualTracked(m, ds, i, text1, l.a, l.group, l.ss, c.margin);
    }
    var j := AfterJoin(m, ds[i]);
    ghost var s;
    e, s := FinishPatch(j, c, ds, i + 1, text1, exact, k);
    l' := Ledger(l.gs + [j.patch.diffs], l.ss + [s], k.a + Text2(k.group), []);
    OneMoreFaithful(l.ss, s);
    GroupEnds(m, ds, i, c, l.gs, j.patch.diffs, e);
    if exact {
      ContextsMore(m.patches, l.ss, l.gs, c, e.patches[|m.patches|], s);
    }
  }

  /** An equality that ends the open patch and stays out of it. */
  method EndAndPass(m: Making, c: Settings, ds: seq<Diff>, i: nat, ghost text1: string, ghost exact: bool,
                    ghost l: Ledger)
    returns (e: Making, ghost l': Ledger)
    requires Usable(c) && i < |ds| && Made(m, ds, i, c, text1, exact, l)
    requires Ends(ds, i, c) && m.patch.diffs != [] && !Joins(ds, i, c)
    ensures Made(e, ds, i + 1, c, text1, exact, l')
  {
    hide Tracked, Sizes, AllDressed, StepsFaithful, Faithful, Text1, Text2, Dressed, Contexts, StepContext;
    var j;
    ghost var s;
    j, s := FinishPatch(m, c, ds, i, text1, exact, l);
    PassSizes(j, ds, i);
    if exact {
      PassTracked(j, ds, i, text1, l.a + Text2(l.group), l.ss + [s], c.margin);
    }
    e := AfterPass(j, ds[i]);
    l' := Ledger(l.gs + [m.patch.diffs], l.ss + [s], l.a + Text2(l.group) + ds[i].text, []);
    OneMoreFaithful(l.ss, s);
    GroupEnds(m, ds, i, c, l.gs, m.patch.diffs, e);
    if exact {
      ContextsMore(m.patches, l.ss, l.gs, c, e.patches[|m.patches|], s);
    }
  }

  lemma GroupEnds(m: Making, ds: seq<Diff>, i: nat, c: Settings, gs: seq<seq<Diff>>, open: seq<Diff>, e: Making)
    requires i < |ds| && Grouped(m, ds, i, c, gs) && Ends(ds, i, c) && m.patch.diffs != []
    requires open == if Joins(ds, i, c) then m.patch.diffs + [ds[i]] else m.patch.diffs
    requires e.patch.diffs == [] && |e.patches| == |m.patches| + 1 && e.patches == m.patches + [e.patches[|m.patches|]]
    requires Dressed(e.patches[|m.patches|], open)
    ensures Grouped(e, ds, i + 1, c, gs + [open])
  {
    var rest := Groups(ds, i + 1, [], c);
    DressMore(m.patches, gs, e.patches[|m.patches|], open);
    assert gs + ([open] + rest) == gs + [open] + rest;
  }

  /** One diff. */
  method TakeDiff(m: Making, c: Settings, ds: seq<Diff>, i: nat, ghost text1: string, ghost exact: bool,
                  ghost l: Ledger)
    returns (e: Making, ghost l': Ledger)
    requires Usable(c) && i < |ds| && Made(m, ds, i, c, text1, exact, l)
    ensures Made(e, ds, i + 1, c, text1, exact, l')
  {
    hide Made;
    var d := ds[i];
    if d.op != EQUAL {
      EditMade(m, ds, i, c, text1, exact, l);
      e := AfterEdit(m, d);
      l' := l.(group := l.group + [ds[i]]);
    } else if m.patch.diffs != [] && Ends(ds, i, c) {
      if Joins(ds, i, c) {
        e, l' := JoinAndEnd(m, c, ds, i, text1, exact, l);
      } else {
        e, l' := EndAndPass(m, c, ds, i, text1, exact, l);
      }
    } else {
      l' := KeepMade(m, ds, i, c, text1, exact, l);
      e := if m.patch.diffs != [] && Joins(ds, i, c) then AfterJoin(m, d) else AfterPass(m, d);
    }
  }

  /** patch_make from a diff of text1: applied in order, the patches turn text1 into the second text
      exactly if each of them keeps enough of its group. */
  method PatchMake(text1: string, ds: seq<Diff>, c: Settings) returns (ps: seq<Patch>)
    requires Usable(c) && |Text1(ds)| == |text1|
    ensures Text1(ds) == text1 ==> (Chain(ps, text1, Text2(ds)) <==> AllFaithful(ds, 0, [], [], c))
    ensures Text1(ds) == text1 && ps != [] ==> Anchored(ps[0], text1, c.margin)
    ensures AllDressed(ps, Groups(ds, 0, [], c))
    ensures Text1(ds) == text1 && AllFaithful(ds, 0, [], [], c) ==> InContext(ps, Groups(ds, 0, [], c), text1, c)
  {
    if |ds| == 0 {
      return [];
    }
    ps := MakeAll(text1, ds, c);
  }

  method MakeAll(text1: string, ds: seq<Diff>, c: Settings) returns (ps: seq<Patch>)
    requires Usable(c) && |ds| > 0 && |Text1(ds)| == |text1|
    ensures Text1(ds) == text1 ==> (Chain(ps, text1, Text2(ds)) <==> AllFaithful(ds, 0, [], [], c))
    ensures Text1(ds) == text1 && ps != [] ==> Anchored(ps[0], text1, c.margin)
    ensures AllDressed(ps, Groups(ds, 0, [], c))
    ensures Text1(ds) == text1 && AllFaithful(ds, 0, [], [], c) ==> InContext(ps, Groups(ds, 0, [], c), text1, c)
  {
    hide Made, AllFaithful, AllDressed, Groups, InContext;
    ghost var exact := Text1(ds) == text1;
    ghost var l := Ledger([], [], "", []);
    var m := Making([], NO_PATCH, 0, 0, text1, text1);
    StartMade(m, ds, c, text1, exact, l);
    var i := 0;
    while i < |ds|
      invariant 0 <= i <= |ds| && Made(m, ds, i, c, text1, exact, l)
    {
      m, l := TakeDiff(m, c, ds, i, text1, exact, l);
      i := i + 1;
    }
    ps := Leftover(m, ds, c, text1, exact, l);
  }

  lemma StartMade(m: Making, ds: seq<Diff>, c: Settings, text1: string, exact: bool, l: Ledger)
    requires |ds| > 0 && |Text1(ds)| == |text1| && m == Making([], NO_PATCH, 0, 0, text1, text1)
    requires Usable(c) && exact == (Text1(ds) == text1) && l == Ledger([], [], "", [])
    ensures Made(m, ds, 0, c, text1, exact, l)
  {
    assert ds[0..] == ds;
    StartGroups(m, ds, c);
    if exact {
      StartTracked(m, ds, text1, c.margin);
    }
  }

  lemma StartGroups(m: Making, ds: seq<Diff>, c: Settings)
    requires m.patches == [] && m.patch == NO_PATCH
    ensures Grouped(m, ds, 0, c, [])
  {
    assert [] + Groups(ds, 0, [], c) == Groups(ds, 0, [], c);
  }

  lemma StartTracked(m: Making, ds: seq<Diff>, text1: string, margin: nat)
    requires |ds| > 0 && Text1(ds) == text1 && m == Making([], NO_PATCH, 0, 0, text1, text1)
    ensures Tracked(m, ds, 0, text1, "", [], [], margin)
  {
    assert ds[0..] == ds;
    NothingIn();
    Leading(text1);
    Leading(Text2(ds));
  }

  lemma Leading(r: string)
    ensures "" + "" + r == r
  {
    assert "" + "" == "" && "" + r == r;
  }

  /** The patch that is still open after the last diff. */
  method Leftover(m: Making, ds: seq<Diff>, c: Settings, ghost text1: string, ghost exact: bool, ghost l: Ledger)
    returns (ps: seq<Patch>)
    requires Usable(c) && Made(m, ds, |ds|, c, text1, exact, l)
    ensures exact ==> (Chain(ps, text1, Text2(ds)) <==> AllFaithful(ds, 0, [], [], c))
    ensures exact && ps != [] ==> Anchored(ps[0], text1, c.margin)
    ensures AllDressed(ps, Groups(ds, 0, [], c))
    ensures exact && AllFaithful(ds, 0, [], [], c) ==> InContext(ps, Groups(ds, 0, [], c), text1, c)
  {
    hide Tracked, Sizes, AllDressed, StepsFaithful, Faithful, Text1, Text2, Dressed, Chain, Contexts, StepContext, InContext;
    ps := m.patches;
    if m.patch.diffs != [] {
      var e;
      ghost var s;
      e, s := FinishPatch(m, c, ds, |ds|, text1, exact, l);
      DressLast(m, ds, c, l.gs);
      DressMore(m.patches, l.gs, e.patches[|m.patches|], m.patch.diffs);
      OneMoreFaithful(l.ss, s);
      ps := e.patches;
      if exact {
        TrackedEnd(e, ds, text1, l.a + Text2(l.group), l.ss + [s], c.margin);
        ContextsMore(m.patches, l.ss, l.gs, c, e.patches[|m.patches|], s);
        ContextsEnd(e, ds, text1, l.a + Text2(l.group), l.ss + [s], l.gs + [s.kept], c);
      }
    } else {
      NoneLeft(m, ds, c, l.gs);
      if exact {
        NoneOpen(m, ds, text1, l.a, l.group, l.ss, c.margin);
        TrackedEnd(m, ds, text1, l.a, l.ss, c.margin);
        ContextsEnd(m, ds, text1, l.a, l.ss, l.gs, c);
      }
    }
  }

  lemma NoneOpen(m: Making, ds: seq<Diff>, text1: string, a: string, group: seq<Diff>, ss: seq<Finished>, margin: nat)
    requires Tracked(m, ds, |ds|, text1, a, group, ss, margin) && m.patch.diffs == []
    ensures group == [] && Faithful([], [])
  {
  }

  lemma NoneLeft(m: Making, ds: seq<Diff>, c: Settings, gs: seq<seq<Diff>>)
    requires Grouped(m, ds, |ds|, c, gs) && m.patch.diffs == []
    ensures gs == Groups(ds, 0, [], c)
  {
  }

  lemma DressLast(m: Making, ds: seq<Diff>, c: Settings, gs: seq<seq<Diff>>)
    requires Grouped(m, ds, |ds|, c, gs) && m.patch.diffs != []
    ensures gs + [m.patch.diffs] == Groups(ds, 0, [], c)
  {
  }

  lemma TrackedEnd(m: Making, ds: seq<Diff>, text1: string, a: string, ss: seq<Finished>, margin: nat)
    requires Tracked(m, ds, |ds|, text1, a, [], ss, margin)
    ensures Chain(m.patches, text1, Text2(ds)) <==> StepsFaithful(ss, 0)
    ensures m.patches != [] ==> Anchored(m.patches[0], text1, margin)
  {
    hide PatchFor;
    NoTail(ds);
    NothingIn();
    Closed(a, "");
    assert a + "" == a;
    ChainIff(m.patches, ss, text1, m.pre, margin, 0);
    assert m.patches[0..] == m.patches;
    if m.patches != [] {
      FirstAnchored(m.patches[0], ss[0], margin);
    }
  }

  lemma ContextsEnd(m: Making, ds: seq<Diff>, text1: string, a: string, ss: seq<Finished>, gs: seq<seq<Diff>>,
                    c: Settings)
    requires Usable(c) && Tracked(m, ds, |ds|, text1, a, [], ss, c.margin) && Contexts(m.patches, ss, gs, c)
    ensures StepsFaithful(ss, 0) ==> InContext(m.patches, gs, text1, c)
  {
    hide PatchFor, StepsFaithful, Contexts;
    if StepsFaithful(ss, 0) {
      ContextsFollow(m.patches, ss, gs, text1, m.pre, c, 0);
      ContextsSizes(m.patches, ss, gs, c);
      assert m.patches[0..] == m.patches && gs[0..] == gs;
    }
  }

  lemma ContextsSizes(ps: seq<Patch>, ss: seq<Finished>, gs: seq<seq<Diff>>, c: Settings)
    requires Usable(c) && Contexts(ps, ss, gs, c)
    ensures |ps| == |ss| == |gs|
  {
  }

  lemma FirstAnchored(p: Patch, s: Finished, margin: nat)
    requires PatchFor(p, s, margin)
    ensures Anchored(p, Pre(s), margin)
  {
  }

  /** The text of a dressed patch surrounds that of its diffs. */
  lemma DressedText(p: Patch, g: seq<Diff>) returns (u: string, v: string)
    requires Dressed(p, g)
    ensures Text1(p.diffs) == u + Text1(g) + v
  {
    var n := |p.diffs|;
    u, v := "", "";
    if p.diffs == g {
      assert "" + Text1(g) + "" == Text1(g);
    } else if n > 0 && p.diffs[0].op == EQUAL && p.diffs[1..] == g {
      u := Part1(p.diffs[0]);
      assert u + Text1(g) + "" == u + Text1(g);
    } else if n > 0 && p.diffs[..n - 1] == g {
      v := Part1(p.diffs[n - 1]);
      assert p.diffs == g + [p.diffs[n - 1]];
      TextAppend(g, [p.diffs[n - 1]]);
      TextOne(p.diffs[n - 1]);
      assert "" + Text1(g) + v == Text1(g) + v;
    } else {
      u, v := Part1(p.diffs[0]), Part1(p.diffs[n - 1]);
      assert p.diffs == [p.diffs[0]] + g + [p.diffs[n - 1]];
      TextAppend([p.diffs[0]] + g, [p.diffs[n - 1]]);
      TextAppend([p.diffs[0]], g);
      TextOne(p.diffs[0]);
      TextOne(p.diffs[n - 1]);
    }
  }

  lemma LostGroups(a: string, e: string, b: string, c: Settings)
    requires Usable(c) && !c.byPosition && 1 <= |e| < 2 * c.margin
    ensures var ds := [Diff(DELETE, a), Diff(EQUAL, e), Diff(DELETE, b), Diff(EQUAL, e)];
            && Groups(ds, 0, [], c) == [[ds[0], ds[2]]]
            && (AllFaithful(ds, 0, [], [], c) <==> Faithful([ds[0], ds[2]], ds))
  {
    var ds := [Diff(DELETE, a), Diff(EQUAL, e), Diff(DELETE, b), Diff(EQUAL, e)];
    var k := [ds[0], ds[2]];
    assert [] + [ds[0]] == [ds[0]] && [ds[0]] + [ds[2]] == k;
    assert Groups(ds, 4, k, c) == [k];
    assert Groups(ds, 3, k, c) == [k];
    assert Groups(ds, 2, [ds[0]], c) == [k];
    assert Groups(ds, 1, [ds[0]], c) == [k];
    var g2, g3 := [ds[0]] + [ds[1]], [ds[0], ds[1]] + [ds[2]];
    assert g2 == [ds[0], ds[1]] && g3 + [ds[3]] == ds;
    assert AllFaithful(ds, 3, k, g3, c) == AllFaithful(ds, 4, k, ds, c);
    assert AllFaithful(ds, 2, [ds[0]], g2, c) == AllFaithful(ds, 3, k, g3, c);
    assert AllFaithful(ds, 1, [ds[0]], [ds[0]], c) == AllFaithful(ds, 2, [ds[0]], g2, c);
  }

  lemma LostTexts(a: string, e: string, b: string)
    ensures var ds := [Diff(DELETE, a), Diff(EQUAL, e), Diff(DELETE, b), Diff(EQUAL, e)];
            && Text1(ds) == a + e + (b + e) && Text2(ds) == e + e
            && Text1([ds[0], ds[2]]) == a + b && Text2([ds[0], ds[2]]) == ""
  {
    var ds := [Diff(DELETE, a), Diff(EQUAL, e), Diff(DELETE, b), Diff(EQUAL, e)];
    assert ds == [ds[0], ds[1]] + [ds[2], ds[3]];
    TextAppend([ds[0], ds[1]], [ds[2], ds[3]]);
    TextTwo(ds[0], ds[1]);
    TextTwo(ds[2], ds[3]);
    TextTwo(ds[0], ds[2]);
    assert "" + e == e && "" + "" == "";
  }

  /** The equality that the test by value loses may be missed or not. */
  lemma LostFaithful(a: string, e: string, b: string, c: Settings)
    requires Usable(c) && !c.byPosition && 1 <= |e| < 2 * c.margin
    ensures var ds := [Diff(DELETE, a), Diff(EQUAL, e), Diff(DELETE, b), Diff(EQUAL, e)];
            AllFaithful(ds, 0, [], [], c) <==> a + e + b == a + b + e
  {
    LostGroups(a, e, b, c);
    LostTexts(a, e, b);
    LostStrings(a, e, b);
  }

  lemma LostStrings(a: string, e: string, b: string)
    ensures var x, y := a + b, a + e + (b + e);
            |x| <= |y| && (x == y[..|x|] && "" + y[|x|..] == e + e <==> a + e + b == a + b + e)
  {
    var x, y, m := a + b, a + e + (b + e), a + e + b;
    assert y == m + e && x + (e + e) == (a + b + e) + e;
    assert "" + y[|x|..] == y[|x|..];
    Cancel(m, a + b + e, e);
    Halves(x, y, e + e);
  }

  lemma Cancel(p: string, q: string, e: string)
    ensures p + e == q + e <==> p == q
  {
    if p + e == q + e {
      assert p == (p + e)[..|p|] && q == (q + e)[..|q|];
    }
  }

  lemma Halves(x: string, y: string, z: string)
    requires |y| == |x| + |z|
    ensures x == y[..|x|] && y[|x|..] == z <==> y == x + z
  {
    assert y == y[..|x|] + y[|x|..];
  }

  /** The test by value loses the first "ab" of this diff of "XabYab" and "abab": whatever context it is
      given, the patch made from the rest fits nowhere in the text. In "aaaaaa" nothing is missed. */
  lemma LostEquality(c: Settings, p: Patch)
    requires Usable(c) && !c.byPosition && c.margin >= 2
    requires Dressed(p, [Diff(DELETE, "X"), Diff(DELETE, "Y")])
    ensures var ds := [Diff(DELETE, "X"), Diff(EQUAL, "ab"), Diff(DELETE, "Y"), Diff(EQUAL, "ab")];
            && Text1(ds) == "XabYab" && Text2(ds) == "abab" && !AllFaithful(ds, 0, [], [], c)
            && Groups(ds, 0, [], c) == [[Diff(DELETE, "X"), Diff(DELETE, "Y")]]
    ensures !Fits(p, "XabYab")
    ensures AllFaithful([Diff(DELETE, "a"), Diff(EQUAL, "aa"), Diff(DELETE, "a"), Diff(EQUAL, "aa")], 0, [], [], c)
  {
    hide AllFaithful, Groups, Dressed, Text1, Text2;
    LostGroups("X", "ab", "Y", c);
    LostTexts("X", "ab", "Y");
    LostFaithful("X", "ab", "Y", c);
    assert ("X" + "ab" + "Y")[1] != ("X" + "Y" + "ab")[1];
    LostFaithful("a", "aa", "a", c);
    assert "a" + "aa" + "a" == "a" + "a" + "aa";
    assert "X" + "ab" + ("Y" + "ab") == "XabYab" && "ab" + "ab" == "abab";
    var u, v := DressedText(p, [Diff(DELETE, "X"), Diff(DELETE, "Y")]);
    NowhereXY(p.start2, Text1(p.diffs), |u|);
  }

  lemma NowhereXY(k: int, x: string, n: nat)
    requires n + 1 < |x| && x[n] == 'X' && x[n + 1] == 'Y'
    ensures 0 <= k && k + |x| <= 6 ==> "XabYab"[k..k + |x|] != x
  {
    if 0 <= k && k + |x| <= 6 {
      var t := "XabYab"[k..k + |x|];
      assert t[n] == "XabYab"[k + n] && t[n + 1] == "XabYab"[k + n + 1];
    }
  }
}
