/** Objects with their history: every version is kept as the printed patches that lead to it. */
module ObjectHistory {
  import opened Strings
  import opened Diffs
  import opened Lines
  import opened Patches
  import opened PatchMaking
  import opened PatchApplying
  import opened PercentCodec
  import opened PatchText
  import opened Tokenizing
  import DiffEngine
  import DiffMatchPatch

  predicate SevenBitInserts(ds: seq<Diff>) {
    forall i :: 0 <= i < |ds| ==> ds[i].op == INSERT ==> SevenBit(ds[i].text)
  }

  lemma SevenBitParts(a: string, b: string)
    ensures SevenBit(a + b) <==> SevenBit(a) && SevenBit(b)
  {
    assert forall i :: 0 <= i < |a| ==> (a + b)[i] == a[i];
    assert forall i :: 0 <= i < |b| ==> (a + b)[|a| + i] == b[i];
  }

  /** A diff between 7-bit texts has 7-bit pieces. */
  lemma {:induction false} SevenBitPieces(ds: seq<Diff>)
    requires SevenBit(Text1(ds)) && SevenBitInserts(ds)
    ensures SevenBitDiffs(ds) && SevenBit(Text2(ds))
  {
    if |ds| > 0 {
      SevenBitParts(Part1(ds[0]), Text1(ds[1..]));
      SevenBitPieces(ds[1..]);
      SevenBitParts(Part2(ds[0]), Text2(ds[1..]));
      forall i | 0 <= i < |ds| ensures SevenBit(ds[i].text) {
        assert i > 0 ==> ds[i] == ds[1..][i - 1];
      }
    }
  }

  lemma {:induction false} InsertsOfText(ds: seq<Diff>)
    requires SevenBit(Text2(ds))
    ensures SevenBitInserts(ds)
  {
    if |ds| > 0 {
      SevenBitParts(Part2(ds[0]), Text2(ds[1..]));
      InsertsOfText(ds[1..]);
      forall i | 0 <= i < |ds| && ds[i].op == INSERT ensures SevenBit(ds[i].text) {
        assert i > 0 ==> ds[i] == ds[1..][i - 1];
      }
    }
  }

  predicate AllInserts(gs: seq<seq<Diff>>) {
    forall k :: 0 <= k < |gs| ==> SevenBitInserts(gs[k])
  }

  lemma {:induction false} GroupInserts(ds: seq<Diff>, i: nat, open: seq<Diff>, c: Settings)
    requires i <= |ds| && SevenBitInserts(ds) && SevenBitInserts(open)
    ensures AllInserts(Groups(ds, i, open, c))
    decreases |ds| - i
  {
    if i < |ds| {
      if ds[i].op != EQUAL {
        GroupInserts(ds, i + 1, open + [ds[i]], c);
      } else {
        var grown := if open != [] && Joins(ds, i, c) then open + [ds[i]] else open;
        if grown != [] && Ends(ds, i, c) {
          GroupInserts(ds, i + 1, [], c);
        } else {
          GroupInserts(ds, i + 1, grown, c);
        }
      }
    }
  }

  lemma DressedInserts(p: Patch, g: seq<Diff>)
    requires Dressed(p, g) && SevenBitInserts(g)
    ensures SevenBitInserts(p.diffs) && p.start1 == p.start2
  {
    var n := |p.diffs|;
    forall i | 0 <= i < n && p.diffs[i].op == INSERT ensures SevenBit(p.diffs[i].text) {
      if p.diffs == g {
      } else if n > 0 && p.diffs[0].op == EQUAL && p.diffs[1..] == g {
        assert p.diffs[i] == g[i - 1];
      } else if n > 0 && p.diffs[n - 1].op == EQUAL && p.diffs[..n - 1] == g {
        assert p.diffs[i] == g[i];
      } else {
        assert p.diffs[i] == g[i - 1];
      }
    }
  }

  predicate Plain(p: Patch) {
    SevenBitInserts(p.diffs) && p.start1 == p.start2
  }

  predicate AllPlain(ps: seq<Patch>) {
    forall k :: 0 <= k < |ps| ==> Plain(ps[k])
  }

  lemma SevenBitSlice(t: string, i: nat, j: nat)
    requires SevenBit(t) && i <= j <= |t|
    ensures SevenBit(t[i..j])
  {
  }

  lemma AppliedSevenBit(p: Patch, t: string)
    requires Fits(p, t) && SevenBit(t) && Plain(p)
    ensures SevenBitDiffs(p.diffs) && SevenBit(Applied(p, t)) && Natural(p)
  {
    SevenBitSlice(t, p.start2, p.start2 + p.length1);
    SevenBitPieces(p.diffs);
    SevenBitSlice(t, 0, p.start2);
    SevenBitSlice(t, p.start2 + p.length1, |t|);
    SevenBitParts(t[..p.start2], Text2(p.diffs));
    SevenBitParts(t[..p.start2] + Text2(p.diffs), t[p.start2 + |Text1(p.diffs)|..]);
  }

  /** Patches from 7-bit text to 7-bit text can be printed. */
  lemma {:induction false} ChainPrintable(ps: seq<Patch>, t: string, u: string)
    requires Chain(ps, t, u) && SevenBit(t) && AllPlain(ps)
    ensures SevenBitPatches(ps) && AllNatural(ps)
  {
    if |ps| > 0 {
      AppliedSevenBit(ps[0], t);
      ChainPrintable(ps[1..], Applied(ps[0], t), u);
      forall k | 0 <= k < |ps| ensures SevenBitDiffs(ps[k].diffs) && Natural(ps[k]) {
        assert k > 0 ==> ps[k] == ps[1..][k - 1];
      }
    }
  }

  /** The content of a diff: printed patches that lead from a to b. */
  ghost predicate LeadsTo(content: string, a: string, b: string, c: Settings) {
    var r := ParseLines(Tokens(content, '\n', 0));
    r.Ok? && Chain(r.value, a, b) && (r.value != [] ==> Anchored(r.value[0], a, c.margin))
  }

  lemma Printable(ps: seq<Patch>, ds: seq<Diff>, a: string, b: string, c: Settings)
    requires AllDressed(ps, Groups(ds, 0, [], c)) && Text2(ds) == b && Chain(ps, a, b) && SevenBit(a) && SevenBit(b)
    ensures SevenBitPatches(ps) && AllNatural(ps)
  {
    InsertsOfText(ds);
    GroupInserts(ds, 0, [], c);
    forall k | 0 <= k < |ps| ensures Plain(ps[k]) {
      DressedInserts(ps[k], Groups(ds, 0, [], c)[k]);
    }
    ChainPrintable(ps, a, b);
  }

  /** What a version was made from: the text before it, the diff, and the lists that were searched for
      overlaps on the way. */
  datatype Diffed = Diffed(base: string, ds: seq<Diff>, mids: seq<seq<Diff>>)

  /** The diff still has its first text, and the patches keep enough of it. */
  ghost predicate Leads(d: Diffed, l: Library) {
    DiffEngine.AllHarmless(d.mids, l.diff.fixed) && AllFaithful(d.ds, 0, [], [], l.patch)
  }

  /** When the slips of the library leave an update unharmed; with both of them corrected they always do. */
  ghost predicate Unharmed(a: string, b: string, l: Library) {
    DiffMatchPatch.Unharmed(a, b, l.diff.fixed, l.patch)
  }

  /** patch_toText(patch_make(a, b)): between 7-bit texts, the content leads from a to b if the diff has
      led there, and so for all texts that the slips of the library leave unharmed. */
  method PatchContent(a: string, b: string, l: Library) returns (content: string, ghost d: Diffed)
    requires Usable(l.patch) && LinesFit(a, b)
    ensures d.base == a && DiffMatchPatch.Searched(d.ds, a, b, d.mids, l.diff.fixed)
    ensures SevenBit(a) && SevenBit(b) && (Leads(d, l) || Unharmed(a, b, l)) ==> LeadsTo(content, a, b, l.patch)
    ensures a == b ==> content == ""
  {
    hide LinesFit, LeadsTo, NoHarm, LastsApart, AllFaithful, DiffMatchPatch.Searched, DiffMatchPatch.Cleaned, SevenBit, Usable;
    var ps;
    ghost var ds, mids, t;
    ps, ds, mids, t := DiffMatchPatch.MakePatches(a, b, l.diff, l.editCost, l.patch);
    d := Diffed(a, ds, mids);
    DiffMatchPatch.TextsOf(ds, a, b, mids, l.diff.fixed);
    content := ToText(ps);
    if SevenBit(a) && SevenBit(b) && (Leads(d, l) || Unharmed(a, b, l)) {
      ChainLeads(ps, ds, a, b, l.patch);
    }
  }

  lemma ChainLeads(ps: seq<Patch>, ds: seq<Diff>, a: string, b: string, c: Settings)
    requires AllDressed(ps, Groups(ds, 0, [], c)) && Text2(ds) == b && Chain(ps, a, b) && SevenBit(a) && SevenBit(b)
    requires ps != [] ==> Anchored(ps[0], a, c.margin)
    ensures LeadsTo(PatchesText(ps), a, b, c)
  {
    Printable(ps, ds, a, b, c);
    TextRoundTrip(ps);
  }

  // From the empty text everything is unharmed.
  lemma NothingHarmed(b: string, l: Library)
    ensures Unharmed("", b, l)
  {
    NoPairs("", b);
    PairsApartNoHarm("", b);
    LastsDiffer("", b, l.patch.margin);
  }

  lemma NoPairs(a: string, b: string)
    requires a == ""
    ensures PairsApart(a, b)
  {
  }

  /** A stored diff; its id is a hash of its content. */
  datatype Revision = Revision(id: string, content: string, prev: string)

  /** What all objects share: the hash of contents, and the parameters of the patch library. */
  datatype Library = Library(hash: string -> string, diff: DiffEngine.Settings, editCost: int, patch: Settings, fuzzy: Fuzzy)

  // The text before version k.
  function Previous(versions: seq<string>, k: nat): string
    requires k <= |versions|
  {
    if k == 0 then "" else versions[k - 1]
  }

  // The id before revision k.
  function PreviousId(diffs: seq<Revision>, k: nat): string
    requires k <= |diffs|
  {
    if k == 0 then "" else diffs[k - 1].id
  }

  // Version k was made from 7-bit texts by a diff that leads, or the slips leave the two unharmed.
  ghost predicate Led(made: seq<Diffed>, versions: seq<string>, k: nat, l: Library)
    requires |made| == |versions| && k < |versions|
  {
    SevenBit(made[k].base) && SevenBit(versions[k]) && (Leads(made[k], l) || Unharmed(made[k].base, versions[k], l))
  }

  // All versions up to the given one were.
  ghost predicate AllLed(made: seq<Diffed>, versions: seq<string>, n: nat, l: Library)
    requires |made| == |versions| && n < |versions|
  {
    forall k :: 0 <= k <= n ==> Led(made, versions, k, l)
  }

  /** Revision k has the id of its content; its diff is one between the text it was made from and its
      version, and it leads from one to the other if it was made so. */
  ghost predicate Step(diffs: seq<Revision>, versions: seq<string>, made: seq<Diffed>, k: nat, l: Library)
    requires |diffs| == |versions| == |made| && k < |diffs|
  {
    && diffs[k].id == l.hash(diffs[k].content)
    && DiffMatchPatch.Searched(made[k].ds, made[k].base, versions[k], made[k].mids, l.diff.fixed)
    && (Led(made, versions, k, l) ==> LeadsTo(diffs[k].content, made[k].base, versions[k], l.patch))
  }

  /** Up to revision n each was made from the version before it and knows the id before it. */
  ghost predicate Straight(diffs: seq<Revision>, versions: seq<string>, made: seq<Diffed>, n: nat)
    requires |diffs| == |versions| == |made| && n < |diffs|
  {
    forall k :: 0 <= k <= n ==> made[k].base == Previous(versions, k) && diffs[k].prev == PreviousId(diffs, k)
  }

  /** The contents up to n lead from text to text. */
  ghost predicate Replays(diffs: seq<Revision>, texts: seq<string>, n: nat, c: Settings) {
    n < |diffs| && n < |texts| && forall k :: 0 <= k <= n ==> LeadsTo(diffs[k].content, Previous(texts, k), texts[k], c)
  }

  /** Where every version was made from the one before it and every diff leads, the versions are replayed. */
  lemma LedReplays(diffs: seq<Revision>, versions: seq<string>, made: seq<Diffed>, n: nat, l: Library)
    requires |diffs| == |versions| == |made| && n < |diffs| && AllLed(made, versions, n, l)
    requires Straight(diffs, versions, made, n)
    requires forall k :: 0 <= k < |diffs| ==> Step(diffs, versions, made, k, l)
    ensures Replays(diffs, versions, n, l.patch)
  {
    hide LeadsTo, Led, DiffMatchPatch.Searched;
    forall i | 0 <= i <= n ensures LeadsTo(diffs[i].content, Previous(versions, i), versions[i], l.patch) {
      assert Step(diffs, versions, made, i, l) && Led(made, versions, i, l);
    }
  }

  // The first revision with an id, or their number.
  function First(diffs: seq<Revision>, id: string, k: nat): (r: nat)
    requires k <= |diffs|
    ensures k <= r <= |diffs| && (r < |diffs| ==> diffs[r].id == id)
    ensures forall j :: k <= j < r ==> diffs[j].id != id
    decreases |diffs| - k
  {
    if k == |diffs| || diffs[k].id == id then k else First(diffs, id, k + 1)
  }

  lemma NothingReplayed(texts: seq<string>)
    ensures Previous(texts, 0) == ""
  {
  }

  lemma ReplaysAt(diffs: seq<Revision>, texts: seq<string>, n: nat, k: nat, c: Settings)
    requires Replays(diffs, texts, n, c) && k <= n
    ensures k < |diffs| && k < |texts| && LeadsTo(diffs[k].content, Previous(texts, k), texts[k], c)
    ensures Previous(texts, k + 1) == texts[k]
  {
    hide LeadsTo;
  }

  lemma FirstNext(diffs: seq<Revision>, id: string, k: nat)
    requires k < |diffs|
    ensures First(diffs, id, k) == if diffs[k].id == id then k else First(diffs, id, k + 1)
  {
  }

  ghost predicate DistinctIds(diffs: seq<Revision>) {
    forall i, j :: 0 <= i < j < |diffs| ==> diffs[i].id != diffs[j].id
  }

  /** With distinct ids every id leads to its own version. */
  lemma OwnRevision(diffs: seq<Revision>, k: nat)
    requires k < |diffs| && DistinctIds(diffs)
    ensures First(diffs, diffs[k].id, 0) == k
  {
    var r := First(diffs, diffs[k].id, 0);
    if r < k {
      assert false;
    }
  }

  lemma KnownRevision(diffs: seq<Revision>, k: nat)
    requires k < |diffs|
    ensures First(diffs, diffs[k].id, 0) <= k
  {
  }

  // One turn of the loop of Object::get.
  method Replay(content: string, res0: string, l: Library, ghost next: string) returns (ok: bool, res: string)
    requires Usable(l.patch) && Sane(l.fuzzy)
    ensures LeadsTo(content, res0, next, l.patch) ==> ok && res == next
  {
    var ps := FromText(content);
    if ps.Err? {
      return false, "";
    }
    ok := true;
    var results;
    ghost var run;
    res, results, run := PatchApply(ps.value, res0, l.patch, l.fuzzy, next);
  }

  class Object {
    var id: string
    var master: string
    var diffs: seq<Revision>
    var head: string
    // The text after each diff, and what it was made from.
    ghost var versions: seq<string>
    ghost var made: seq<Diffed>

    /** Every diff was made between its two texts. */
    ghost predicate Valid(l: Library)
      reads this
    {
      && |versions| == |diffs| == |made| && |diffs| > 0
      && forall k :: 0 <= k < |diffs| ==> Step(diffs, versions, made, k, l)
    }

    /** The head is the last version, the master the last id, and every version was made from the one before it. */
    ghost predicate Latest()
      reads this
    {
      && |versions| == |diffs| == |made| && |diffs| > 0
      && head == versions[|diffs| - 1] && master == diffs[|diffs| - 1].id && Straight(diffs, versions, made, |diffs| - 1)
    }

    constructor ()
      ensures diffs == [] && versions == [] && made == []
    {
      id, master, diffs, head, versions, made := "", "", [], "", [], [];
    }

    /** Object::create with a custom id; stored is what the store answers. */
    method Create(inp: string, customId: string, l: Library, stored: bool) returns (saved: bool)
      requires Usable(l.patch) && diffs == [] && versions == [] && made == []
      modifies this
      ensures Valid(l) && Latest() && versions == [inp] && id == customId && saved == stored && diffs[0].prev == ""
      ensures SevenBit(inp) ==> LeadsTo(diffs[0].content, "", inp, l.patch)
    {
      hide LeadsTo, Leads, SevenBit, Step, Unharmed, Usable;
      ShortFits("", inp);
      var initialDiff;
      ghost var d;
      initialDiff, d := PatchContent("", inp, l);
      var diff := Revision(l.hash(initialDiff), initialDiff, "");
      diffs := diffs + [diff];
      versions, made := [inp], [d];
      master := diff.id;
      id := customId;
      head := inp;
      FirstStep(diff, inp, d, l);
      NothingHarmed(inp, l);
      EmptySevenBit();
      assert diffs == [diff];
      saved := stored;
    }

    /** DBManager::update_object; the object is deleted from the store and stored again. The new diff is made
        from the head, which after a rollback is not the last version. */
    method Update(text: string, l: Library, deleted: bool, stored: bool) returns (saved: bool)
      requires Valid(l) && Usable(l.patch) && LinesFit(head, text)
      modifies this
      ensures Valid(l) && versions == old(versions) + [text] && saved == (deleted && stored)
      ensures Latest() <==> old(Latest())
      ensures made[|old(diffs)|].base == old(head) && (text == old(head) ==> diffs[|old(diffs)|].content == "")
      ensures |diffs| == |old(diffs)| + 1 && diffs[..|old(diffs)|] == old(diffs) && made[..|old(diffs)|] == old(made)
      ensures diffs[|old(diffs)|].prev == old(master) && head == text && id == old(id)
      ensures master == diffs[|old(diffs)|].id
      ensures SevenBit(old(head)) && SevenBit(text) && Unharmed(old(head), text, l) ==>
                LeadsTo(diffs[|old(diffs)|].content, old(head), text, l.patch)
    {
      hide LeadsTo, Leads, SevenBit, Step, Straight, Unharmed, LinesFit, Usable;
      var patch;
      ghost var d;
      patch, d := PatchContent(head, text, l);
      var ddiff := Revision(l.hash(patch), patch, master);
      NextStep(diffs, versions, made, ddiff, text, d, l);
      NextStraight(diffs, versions, made, ddiff, text, d);
      diffs := diffs + [ddiff];
      versions, made := versions + [text], made + [d];
      master := ddiff.id;
      head := text;
      saved := deleted && stored;
    }

    /** Object::get(revision): the diffs are replayed up to the first with the id, or to the end, which gives
        the text they lead to. */
    method Get(revision: string, l: Library, ghost texts: seq<string>) returns (r: Result<string>)
      requires Valid(l) && Usable(l.patch) && Sane(l.fuzzy)
      ensures var n := Min(First(diffs, revision, 0), |diffs| - 1); Replays(diffs, texts, n, l.patch) ==> r == Ok(texts[n])
    {
      hide Step, LeadsTo, Sane, Usable, First, Replays;
      ghost var n := Min(First(diffs, revision, 0), |diffs| - 1);
      ghost var led := Replays(diffs, texts, n, l.patch);
      var res := "";
      var i := 0;
      NothingReplayed(texts);
      while i < |diffs|
        invariant 0 <= i <= |diffs| && First(diffs, revision, 0) >= i
        invariant led ==> i <= |texts| && res == Previous(texts, i)
        invariant First(diffs, revision, i) == First(diffs, revision, 0)
      {
        if led {
          ReplaysAt(diffs, texts, n, i, l.patch);
        }
        var ok;
        ok, res := Replay(diffs[i].content, res, l, if i < |texts| then texts[i] else "");
        if !ok {
          return Err;
        }
        if diffs[i].id == revision {
          return Ok(res);
        }
        FirstNext(diffs, revision, i);
        i := i + 1;
      }
      r := Ok(res);
    }

    /** Object::has_diff */
    method HasDiff(rev: string) returns (found: bool)
      ensures found <==> exists k :: 0 <= k < |diffs| && diffs[k].id == rev
    {
      var i := 0;
      while i < |diffs|
        invariant 0 <= i <= |diffs| && forall k :: 0 <= k < i ==> diffs[k].id != rev
      {
        if diffs[i].id == rev {
          return true;
        }
        i := i + 1;
      }
      found := false;
    }

    /** DBManager::get_object_rev. The result is Err when a stored patch cannot be read. */
    method GetObjectRev(rev: string, l: Library) returns (found: bool, res: Result<string>)
      requires Valid(l) && Usable(l.patch) && Sane(l.fuzzy)
      ensures found <==> First(diffs, rev, 0) < |diffs|
      ensures var n := First(diffs, rev, 0);
              found && Straight(diffs, versions, made, n) && AllLed(made, versions, n, l) ==> res == Ok(versions[n])
    {
      hide Straight, AllLed, Replays, Step;
      res := Err;
      found := HasDiff(rev);
      if !found {
        return;
      }
      ghost var n := First(diffs, rev, 0);
      if Straight(diffs, versions, made, n) && AllLed(made, versions, n, l) {
        LedReplays(diffs, versions, made, n, l);
      }
      res := Get(rev, l, versions);
    }

    /** DBManager::rollback_object; an exception for an unreadable patch leaves the object as it is. */
    method Rollback(rev: string, l: Library, deleted: bool, stored: bool) returns (r: bool)
      requires Valid(l) && Usable(l.patch) && Sane(l.fuzzy)
      modifies this
      ensures Valid(l) && diffs == old(diffs) && versions == old(versions) && made == old(made) && id == old(id)
      ensures First(diffs, rev, 0) == |diffs| ==> !r && head == old(head) && master == old(master)
      ensures var n := First(diffs, rev, 0);
              n < |diffs| && Straight(diffs, versions, made, n) && AllLed(made, versions, n, l) ==>
                r == (deleted && stored) && head == versions[n] && master == rev
    {
      hide Straight, AllLed, Step;
      var found, res := GetObjectRev(rev, l);
      if !found || res.Err? {
        return false;
      }
      head := res.value;
      master := rev;
      r := deleted && stored;
    }
  }

  lemma EmptySevenBit()
    ensures SevenBit("")
  {
  }

  lemma FirstStep(d: Revision, inp: string, m: Diffed, l: Library)
    requires d.id == l.hash(d.content) && d.prev == "" && DiffMatchPatch.Searched(m.ds, "", inp, m.mids, l.diff.fixed)
    requires m.base == ""
    requires SevenBit("") && SevenBit(inp) && (Leads(m, l) || Unharmed("", inp, l)) ==> LeadsTo(d.content, "", inp, l.patch)
    ensures Step([d], [inp], [m], 0, l) && Straight([d], [inp], [m], 0)
  {
    hide LeadsTo, SevenBit, DiffMatchPatch.Searched, Leads, Unharmed;
  }

  /** One more version is made from the one before it exactly if its diff starts there. */
  lemma NextStraight(diffs: seq<Revision>, versions: seq<string>, made: seq<Diffed>, d: Revision, text: string,
                     m: Diffed)
    requires |diffs| == |versions| == |made| > 0
    ensures Straight(diffs + [d], versions + [text], made + [m], |diffs|) <==>
            Straight(diffs, versions, made, |diffs| - 1) && m.base == versions[|diffs| - 1] && d.prev == diffs[|diffs| - 1].id
  {
    var ds, vs, ms := diffs + [d], versions + [text], made + [m];
    forall k | 0 <= k <= |diffs|
      ensures ms[k] == if k < |diffs| then made[k] else m
      ensures ds[k] == if k < |diffs| then diffs[k] else d
      ensures Previous(vs, k) == Previous(versions, k) && PreviousId(ds, k) == PreviousId(diffs, k)
    {
    }
    if Straight(ds, vs, ms, |diffs|) {
      assert ms[|diffs|].base == Previous(vs, |diffs|);
      forall k | 0 <= k < |diffs| ensures made[k].base == Previous(versions, k) && diffs[k].prev == PreviousId(diffs, k) {
        assert ms[k].base == Previous(vs, k);
      }
    }
  }

  lemma NextStep(diffs: seq<Revision>, versions: seq<string>, made: seq<Diffed>, d: Revision, text: string,
                 m: Diffed, l: Library)
    requires |diffs| == |versions| == |made| > 0 && forall k :: 0 <= k < |diffs| ==> Step(diffs, versions, made, k, l)
    requires d.id == l.hash(d.content)
    requires DiffMatchPatch.Searched(m.ds, m.base, text, m.mids, l.diff.fixed)
    requires SevenBit(m.base) && SevenBit(text) && (Leads(m, l) || Unharmed(m.base, text, l)) ==>
               LeadsTo(d.content, m.base, text, l.patch)
    ensures forall k :: 0 <= k <= |diffs| ==> Step(diffs + [d], versions + [text], made + [m], k, l)
  {
    hide LeadsTo, Leads, SevenBit, Unharmed, DiffMatchPatch.Searched;
    forall k | 0 <= k <= |diffs| ensures Step(diffs + [d], versions + [text], made + [m], k, l) {
      if k < |diffs| {
        assert Step(diffs, versions, made, k, l);
      }
    }
  }

  predicate AllSevenBit(texts: seq<string>) {
    forall k :: 0 <= k < |texts| ==> SevenBit(texts[k])
  }

  ghost predicate AllLinesFit(texts: seq<string>) {
    forall k :: 0 <= k < |texts| ==> LinesFit(Previous(texts, k), texts[k])
  }

  // All versions up to the given one are 7-bit texts, the first of any kind and each further one unharmed.
  ghost predicate AllUnharmed(texts: seq<string>, n: nat, l: Library)
    requires n < |texts|
  {
    forall k :: 0 <= k <= n ==> SevenBit(texts[k]) && (k == 0 || Unharmed(Previous(texts, k), texts[k], l))
  }

  lemma UnharmedLed(made: seq<Diffed>, texts: seq<string>, n: nat, l: Library)
    requires |made| == |texts| && n < |texts| && AllUnharmed(texts, n, l)
    requires forall k :: 0 <= k <= n ==> made[k].base == Previous(texts, k)
    ensures AllLed(made, texts, n, l)
  {
    hide Unharmed, Leads;
    NothingHarmed(texts[0], l);
    forall k | 0 <= k <= n ensures Led(made, texts, k, l) {
      assert k > 0 ==> Previous(texts, k) == texts[k - 1] && SevenBit(texts[k - 1]);
    }
  }

  /** With both slips corrected, being 7-bit is enough. */
  lemma CorrectedUnharmed(texts: seq<string>, n: nat, l: Library)
    requires n < |texts| && AllSevenBit(texts) && l.diff.fixed && l.patch.byPosition
    ensures AllUnharmed(texts, n, l)
  {
    forall k | 0 <= k <= n ensures SevenBit(texts[k]) && (k == 0 || Unharmed(Previous(texts, k), texts[k], l)) {
    }
  }

  lemma NextFits(texts: seq<string>, i: nat)
    requires 0 < i < |texts| && AllLinesFit(texts)
    ensures LinesFit(texts[i - 1], texts[i])
  {
    assert Previous(texts, i) == texts[i - 1];
  }

  method UpdateTo(obj: Object, texts: seq<string>, i: nat, l: Library)
    requires Usable(l.patch) && 0 < i < |texts| && AllLinesFit(texts)
    requires obj.Valid(l) && obj.Latest() && obj.versions == texts[..i] && obj.head == texts[i - 1]
    modifies obj
    ensures obj.Valid(l) && obj.Latest() && obj.versions == texts[..i + 1] && obj.head == texts[i]
  {
    hide Straight, Step, LinesFit, AllLinesFit, Usable;
    NextFits(texts, i);
    assert texts[..i + 1] == texts[..i] + [texts[i]];
    var saved := obj.Update(texts[i], l, true, true);
  }

  /** One create, then updates to every further text. */
  method Build(texts: seq<string>, id: string, l: Library) returns (obj: Object)
    requires Usable(l.patch) && |texts| > 0 && AllLinesFit(texts)
    ensures fresh(obj) && obj.Valid(l) && obj.Latest() && obj.versions == texts
  {
    hide Straight, Step, AllLinesFit;
    obj := new Object();
    var saved := obj.Create(texts[0], id, l, true);
    var i := 1;
    assert texts[..1] == [texts[0]];
    while i < |texts|
      invariant 1 <= i <= |texts| && obj.Valid(l) && obj.Latest() && obj.versions == texts[..i] && fresh(obj)
      invariant obj.head == texts[i - 1]
    {
      UpdateTo(obj, texts, i, l);
      i := i + 1;
    }
    assert texts[..i] == texts;
  }

  /** Any revision of an object built so may be asked for. The answer is the text that was head when the
      first revision with that id was master, if the diffs up to it lead, or if these texts are 7-bit and the
      slips of the library leave each unharmed; with both slips corrected, if they are 7-bit. When the ids
      differ, that is the revision asked for. */
  method Recall(texts: seq<string>, id: string, l: Library, k: nat) returns (obj: Object, answer: Result<string>)
    requires Usable(l.patch) && Sane(l.fuzzy) && k < |texts| && AllLinesFit(texts)
    ensures obj.Valid(l) && obj.versions == texts && First(obj.diffs, obj.diffs[k].id, 0) <= k
    ensures var n := First(obj.diffs, obj.diffs[k].id, 0);
            AllLed(obj.made, texts, n, l) || AllUnharmed(texts, n, l) ==> answer == Ok(texts[n])
    ensures AllSevenBit(texts) && l.diff.fixed && l.patch.byPosition ==>
              answer == Ok(texts[First(obj.diffs, obj.diffs[k].id, 0)])
    ensures DistinctIds(obj.diffs) ==> First(obj.diffs, obj.diffs[k].id, 0) == k
  {
    hide Straight, Step, AllLinesFit, AllLed, AllUnharmed, Replays, AllSevenBit, DistinctIds, First;
    obj := Build(texts, id, l);
    KnownRevision(obj.diffs, k);
    AllReplayed(obj.diffs, texts, obj.made, First(obj.diffs, obj.diffs[k].id, 0), l);
    if DistinctIds(obj.diffs) {
      OwnRevision(obj.diffs, k);
    }
    answer := obj.Get(obj.diffs[k].id, l, texts);
  }

  lemma AllReplayed(diffs: seq<Revision>, texts: seq<string>, made: seq<Diffed>, n: nat, l: Library)
    requires |diffs| == |texts| == |made| && n < |diffs| && Straight(diffs, texts, made, |diffs| - 1)
    requires forall k :: 0 <= k < |diffs| ==> Step(diffs, texts, made, k, l)
    ensures AllLed(made, texts, n, l) || AllUnharmed(texts, n, l) ==> Replays(diffs, texts, n, l.patch)
    ensures AllSevenBit(texts) && l.diff.fixed && l.patch.byPosition ==> Replays(diffs, texts, n, l.patch)
  {
    hide Straight, Step, AllLed, AllUnharmed, Replays, AllSevenBit;
    StraightTo(diffs, texts, made, n);
    if AllSevenBit(texts) && l.diff.fixed && l.patch.byPosition {
      CorrectedUnharmed(texts, n, l);
    }
    if AllUnharmed(texts, n, l) {
      UnharmedLed(made, texts, n, l);
    }
    if AllLed(made, texts, n, l) {
      LedReplays(diffs, texts, made, n, l);
    }
  }

  lemma StraightTo(diffs: seq<Revision>, versions: seq<string>, made: seq<Diffed>, n: nat)
    requires |diffs| == |versions| == |made| && n < |diffs| && Straight(diffs, versions, made, |diffs| - 1)
    ensures Straight(diffs, versions, made, n) && forall k :: 0 <= k <= n ==> made[k].base == Previous(versions, k)
  {
  }

  /** What is lost when an object goes on after a rollback: a is updated to b, rolled back and saved unchanged.
      The head is a, but its revision gives b when the ids differ, as the diffs are still replayed one after the other. */
  method RollbackForgotten(a: string, b: string, id: string, l: Library) returns (obj: Object, answer: Result<string>)
    requires Usable(l.patch) && Sane(l.fuzzy) && LinesFit(a, b) && LinesFit(a, a)
    requires SevenBit(a) && SevenBit(b) && Unharmed(a, b, l)
    ensures obj.head == a && |obj.diffs| == 3 && obj.master == obj.diffs[2].id
    ensures DistinctIds(obj.diffs) ==> answer == Ok(b)
  {
    hide Step, Straight, AllLed, LeadsTo, Unharmed, LinesFit, SevenBit, Sane, Usable, DistinctIds, First;
    obj := new Object();
    var saved := obj.Create(a, id, l, true);
    ghost var first := obj.diffs[0];
    saved := obj.Update(b, l, true, true);
    ghost var second := obj.diffs[1];
    BackToFirst(obj.diffs, obj.versions, obj.made, a, l);
    saved := obj.Rollback(obj.diffs[0].id, l, true, true);
    saved := obj.Update(a, l, true, true);
    ForgottenReplays(obj.diffs, a, b, l.patch);
    if DistinctIds(obj.diffs) {
      OwnRevision(obj.diffs, 2);
    }
    answer := obj.Get(obj.master, l, [a, b, b]);
  }

  lemma {:induction false} BackToFirst(diffs: seq<Revision>, versions: seq<string>, made: seq<Diffed>, a: string,
                                       l: Library)
    requires |diffs| == |versions| == |made| > 0 && Straight(diffs, versions, made, |diffs| - 1)
    requires versions[0] == a && SevenBit(a)
    ensures First(diffs, diffs[0].id, 0) == 0 && Straight(diffs, versions, made, 0) && AllLed(made, versions, 0, l)
  {
    hide Unharmed;
    NothingHarmed(a, l);
    EmptySevenBit();
    assert made[0].base == Previous(versions, 0);
  }

  /** A revision without patches replays what the ones before it replay, whatever the head was. */
  lemma {:induction false} UnchangedReplays(diffs: seq<Revision>, texts: seq<string>, d: Revision, c: Settings)
    requires |texts| == |diffs| > 0 && Replays(diffs, texts, |diffs| - 1, c) && d.content == ""
    ensures Replays(diffs + [d], texts + [texts[|diffs| - 1]], |diffs|, c)
  {
    hide LeadsTo;
    var ds, ts, n := diffs + [d], texts + [texts[|diffs| - 1]], |diffs|;
    NothingLeads(texts[n - 1], c);
    forall k | 0 <= k <= n ensures LeadsTo(ds[k].content, Previous(ts, k), ts[k], c) {
      if k < n {
        assert LeadsTo(diffs[k].content, Previous(texts, k), texts[k], c);
        assert Previous(ts, k) == Previous(texts, k);
      }
    }
  }

  lemma ForgottenReplays(diffs: seq<Revision>, a: string, b: string, c: Settings)
    requires |diffs| == 3 && LeadsTo(diffs[0].content, "", a, c) && LeadsTo(diffs[1].content, a, b, c)
    requires diffs[2].content == ""
    ensures Replays(diffs, [a, b, b], 2, c)
  {
    hide LeadsTo;
    assert Replays(diffs[..2], [a, b], 1, c);
    UnchangedReplays(diffs[..2], [a, b], diffs[2], c);
    assert diffs[..2] + [diffs[2]] == diffs && [a, b] + [b] == [a, b, b];
  }

  lemma NothingLeads(t: string, c: Settings)
    ensures LeadsTo("", t, t, c)
  {
  }
}
