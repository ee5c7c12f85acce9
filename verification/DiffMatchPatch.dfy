/** Texts to patches and back: the law the library is for. */
module DiffMatchPatch {
  import opened Strings
  import opened Diffs
  import opened CleanupMerging
  import opened Cleanup
  import opened Semantic
  import opened Lines
  import opened Patches
  import opened PatchMaking
  import opened PatchApplying
  import DiffEngine
  import DiffSizes

  /** The diff has text2, and text1 if no search for overlaps did harm in mids; where there was at most
      one such search, only then. Each list searched is a diff between parts of the texts, unless harm was
      done before. */
  ghost predicate Searched(ds: seq<Diff>, text1: string, text2: string, mids: seq<seq<Diff>>, fixed: bool) {
    && Text2(ds) == text2 && |Text1(ds)| == |text1|
    && (DiffEngine.AllHarmless(mids, fixed) ==> Text1(ds) == text1)
    && (|mids| <= 1 && Text1(ds) == text1 ==> DiffEngine.AllHarmless(mids, fixed))
    && Traced(mids, text1, text2, fixed)
  }

  ghost predicate Traced(mids: seq<seq<Diff>>, text1: string, text2: string, fixed: bool) {
    forall i :: 0 <= i < |mids| ==>
      Part(Text2(mids[i]), text2) && (DiffEngine.AllHarmless(mids[..i], fixed) ==> Part(Text1(mids[i]), text1))
  }

  lemma TracedMore(mids: seq<seq<Diff>>, mid: seq<Diff>, text1: string, text2: string, fixed: bool)
    requires DiffEngine.BetweenParts(mids, text1, text2) && Text2(mid) == text2
    requires DiffEngine.AllHarmless(mids, fixed) ==> Text1(mid) == text1
    ensures Traced(mids + [mid], text1, text2, fixed)
  {
    hide DiffEngine.AllHarmless, Part;
    PartWhole(text1);
    PartWhole(text2);
    assert (mids + [mid])[..|mids|] == mids;
  }

  /** The clean-up is one more search for overlaps. */
  lemma CleanSearched(ds: seq<Diff>, es: seq<Diff>, text1: string, text2: string, mids: seq<seq<Diff>>,
                      mid: seq<Diff>, fixed: bool)
    requires DiffEngine.Denotes(ds, text1, text2, DiffEngine.AllHarmless(mids, fixed))
    requires Folded(es, ds, Harmless(mid, fixed)) && Same(mid, ds) && DiffEngine.BetweenParts(mids, text1, text2)
    ensures Searched(es, text1, text2, mids + [mid], fixed)
  {
    hide DiffEngine.BetweenParts, Traced;
    TracedMore(mids, mid, text1, text2, fixed);
    DiffEngine.HarmlessAppend(mids, [mid], fixed);
    assert [mid][0] == mid;
    assert DiffEngine.AllHarmless([mid], fixed) <==> Harmless(mid, fixed);
  }

  /** What patch_make makes of a diff: raw is the diff of the two texts, g and folded what
      diff_cleanupSemantic goes through and leaves, and split what diff_cleanupEfficiency merges again. */
  datatype Trace = Trace(raw: seq<Diff>, g: Stages, folded: seq<Diff>, split: seq<Diff>)

  ghost predicate Cleaned(t: Trace, ds: seq<Diff>, s: DiffEngine.Settings, editCost: int) {
    if |t.raw| <= 2 then ds == t.raw
    else
      && Staged(t.raw, t.g, s.score) && Folded(t.folded, t.raw, Harmless(t.g.mid, s.fixed))
      && (Harmless(t.g.mid, s.fixed) ==> Unoverlapped(t.folded))
      && GivenUp(t.split, t.folded, exists e, c :: Costly(t.folded, e, c, editCost))
      && if exists e, c :: Costly(t.folded, e, c, editCost) then
           Same(ds, t.folded) && Tidy(ds) && Unshiftable(ds) && NotMore(ds, t.split)
         else ds == t.folded
  }

  lemma LineSearched(ds: seq<Diff>, text1: string, text2: string, mids: seq<seq<Diff>>, fixed: bool)
    requires DiffEngine.Denotes(ds, text1, text2, DiffEngine.AllHarmless(mids, fixed))
    requires DiffEngine.BetweenParts(mids, text1, text2)
    ensures Searched(ds, text1, text2, mids, fixed)
  {
    hide DiffEngine.AllHarmless, Part;
  }

  lemma SameSearched(ds: seq<Diff>, es: seq<Diff>, text1: string, text2: string, mids: seq<seq<Diff>>, fixed: bool)
    requires Searched(ds, text1, text2, mids, fixed) && Same(es, ds)
    ensures Searched(es, text1, text2, mids, fixed)
  {
    hide Traced;
  }

  /** When the slips of the library do not matter for two texts: those that are not corrected find nothing to
      harm in them. */
  ghost predicate Unharmed(text1: string, text2: string, fixed: bool, c: Settings) {
    (fixed || NoHarm(text1, text2)) && (c.byPosition || LastsApart(text1, text2, c.margin))
  }

  /** A condition that takes one look at the characters of the texts. */
  lemma CharactersApart(text1: string, text2: string, fixed: bool, c: Settings)
    requires PairsApart(text1, text2)
    requires || text1 == "" || text2 == "" || text1[|text1| - 1] != text2[|text2| - 1]
             || text1[|text1| - 1] !in text1[..|text1| - 1] || text2[|text2| - 1] !in text2[..|text2| - 1]
    ensures Unharmed(text1, text2, fixed, c)
  {
    PairsApartNoHarm(text1, text2);
    if text1 == "" || text2 == "" || text1[|text1| - 1] != text2[|text2| - 1] {
      LastsDiffer(text1, text2, c.margin);
    } else {
      LastOccursOnce(text1, text2, c.margin);
    }
  }

  /** The two clean-ups of patch_make. */
  method CleanUp(d: DiffList, s: DiffEngine.Settings, editCost: int, ghost text1: string, ghost text2: string,
                 ghost mids0: seq<seq<Diff>>)
    returns (ghost mids: seq<seq<Diff>>, ghost t: Trace)
    requires DiffEngine.Denotes(d.items, text1, text2, DiffEngine.AllHarmless(mids0, s.fixed))
    requires DiffEngine.BetweenParts(mids0, text1, text2) && (s.fixed || NoHarm(text1, text2) ==> Text1(d.items) == text1)
    modifies d
    ensures t.raw == old(d.items) && Cleaned(t, d.items, s, editCost)
    ensures Searched(d.items, text1, text2, mids, s.fixed) && |mids| <= |mids0| + 1
    ensures old(|d.items|) <= 2 ==> mids == mids0
    ensures s.fixed || NoHarm(text1, text2) ==> Text1(d.items) == text1
  {
    hide NoHarm, Searched, DiffEngine.Denotes, DiffEngine.BetweenParts, Text1, Text2, Edited, Staged;
    hide Folded, Unoverlapped, GivenUp, Costly, Tidy, Unshiftable, NotMore, Harmless;
    mids := mids0;
    ghost var D := d.items;
    t := Trace(D, Stages([], [], []), [], []);
    LineSearched(D, text1, text2, mids, s.fixed);
    TextsOf(D, text1, text2, mids, s.fixed);
    if |d.items| > 2 {
      ghost var g := CleanupSemantic(d, s.score, s.fixed);
      StagedSame(D, g, s.score);
      ghost var mid := g.mid;
      ghost var E := d.items;
      CleanSearched(D, E, text1, text2, mids, mid, s.fixed);
      mids := mids + [mid];
      ghost var split := CleanupEfficiency(d, editCost);
      t := Trace(D, g, E, split);
      SameSearched(E, d.items, text1, text2, mids, s.fixed);
    }
  }

  /** patch_make from two texts. ds is the diff it uses, after the searches for overlaps in mids: in line
      mode, for texts of more than 100 characters, and in the clean-up. When ds has text1, the patches turn
      text1 into text2 exactly if each of them keeps enough of its group. With the comparison of overlaps
      corrected, ds always has text1; with the test for the last diff by position, all patches keep enough.
      The code as it is makes patches from text1 to text2 for all texts that its slips leave unharmed. Each
      patch is its group with the least context that is unique or too long to search for; between equal texts
      there is none. The diff is the one of diff_main after both clean-ups, if it has more than two entries. */
  method MakePatches(text1: string, text2: string, s: DiffEngine.Settings, editCost: int, c: Settings)
    returns (ps: seq<Patch>, ghost ds: seq<Diff>, ghost mids: seq<seq<Diff>>, ghost t: Trace)
    requires Usable(c) && LinesFit(text1, text2)
    ensures Cleaned(t, ds, s, editCost)
    ensures DiffSizes.Sparing(t.raw, DiffSizes.Inner(text1, text2).0, DiffSizes.Inner(text1, text2).1, s.timed, true)
    ensures Searched(ds, text1, text2, mids, s.fixed) && (|text1| <= 100 || |text2| <= 100 ==> |mids| <= 1)
    ensures s.fixed || NoHarm(text1, text2) ==> Text1(ds) == text1
    ensures Text1(ds) == text1 ==> (Chain(ps, text1, text2) <==> AllFaithful(ds, 0, [], [], c))
    ensures Text1(ds) == text1 && ps != [] ==> Anchored(ps[0], text1, c.margin)
    ensures Text1(ds) == text1 && (c.byPosition || LastsApart(text1, text2, c.margin)) ==> AllFaithful(ds, 0, [], [], c)
    ensures Unharmed(text1, text2, s.fixed, c) ==> Chain(ps, text1, text2)
    ensures AllDressed(ps, Groups(ds, 0, [], c)) && (text1 == text2 ==> ps == [])
    ensures Text1(ds) == text1 && AllFaithful(ds, 0, [], [], c) ==> InContext(ps, Groups(ds, 0, [], c), text1, c)
  {
    hide NoHarm, LastsApart, AllFaithful, Searched, LinesFit, DiffEngine.Denotes, DiffEngine.BetweenParts, Text1, Text2;
    hide DiffSizes.Sparing, DiffSizes.Inner, DiffSizes.Contained, InContext, Edited, Cleaned;
    var d := new DiffList([]);
    mids := DiffEngine.DiffMain(d, text1, text2, true, s);
    ghost var D := d.items;
    mids, t := CleanUp(d, s, editCost, text1, text2, mids);
    ds := d.items;
    if |D| <= 2 {
      AsItWas(t, ds, s, editCost);
    }
    TextsOf(ds, text1, text2, mids, s.fixed);
    if Text1(ds) == text1 && (c.byPosition || LastsApart(text1, text2, c.margin)) {
      ApartFaithful(ds, c);
    }
    ps := PatchMake(text1, d.items, c);
    if text1 == text2 {
      NothingGrouped(text1, c);
    }
  }

  lemma AsItWas(t: Trace, ds: seq<Diff>, s: DiffEngine.Settings, editCost: int)
    requires Cleaned(t, ds, s, editCost) && |t.raw| <= 2
    ensures ds == t.raw
  {
  }

  lemma NothingGrouped(t: string, c: Settings)
    ensures Groups([], 0, [], c) == [] && Groups([Diff(EQUAL, t)], 0, [], c) == []
  {
    assert Groups([Diff(EQUAL, t)], 1, [], c) == [];
  }

  lemma TextsOf(ds: seq<Diff>, text1: string, text2: string, mids: seq<seq<Diff>>, fixed: bool)
    requires Searched(ds, text1, text2, mids, fixed)
    ensures Text2(ds) == text2 && |Text1(ds)| == |text1| && (DiffEngine.AllHarmless(mids, fixed) ==> Text1(ds) == text1)
  {
  }

  /** patch_apply(patch_make(text1, text2), text1) is text2, with every patch applied, if the overlaps
      searched for do no harm and the patches keep enough; so for all texts that the slips of the library
      leave unharmed, and always with both of them corrected. There is nothing to apply exactly if the texts
      are equal. */
  method MakeAndApply(text1: string, text2: string, s: DiffEngine.Settings, editCost: int, c: Settings, fuzzy: Fuzzy)
    returns (text: string, results: seq<bool>, ghost ds: seq<Diff>, ghost mids: seq<seq<Diff>>)
    requires Usable(c) && LinesFit(text1, text2) && Sane(fuzzy)
    ensures Searched(ds, text1, text2, mids, s.fixed)
    ensures DiffEngine.AllHarmless(mids, s.fixed) && AllFaithful(ds, 0, [], [], c) ==> text == text2 && AllTrue(results)
    ensures Unharmed(text1, text2, s.fixed, c) ==> text == text2 && AllTrue(results) && (results == [] <==> text1 == text2)
  {
    hide NoHarm, LastsApart, AllFaithful, Searched, LinesFit, InContext, AllDressed, Cleaned, DiffSizes.Sparing, DiffSizes.Inner;
    var ps;
    ghost var t;
    ps, ds, mids, t := MakePatches(text1, text2, s, editCost, c);
    TextsOf(ds, text1, text2, mids, s.fixed);
    ghost var run;
    text, results, run := PatchApply(ps, text1, c, fuzzy, text2);
    if Unharmed(text1, text2, s.fixed, c) && text1 != text2 && ps != [] {
      NothingPieced(run.pieces, NullPadding(c.margin), text1, text2);
    }
  }

  lemma NothingPieced(pieces: seq<Patch>, pad: string, a: string, b: string)
    requires Chain(pieces, pad + a + pad, pad + b + pad) && a != b
    ensures pieces != []
  {
    if pad + a + pad == pad + b + pad {
      StripPadding(pad, a);
      StripPadding(pad, b);
    }
  }
}
