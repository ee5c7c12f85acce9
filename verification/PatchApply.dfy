/** patch_apply: patches made for a text apply to it exactly, through padding and splitting. */
module PatchApplying {
  import opened Strings
  import opened Diffs
  import opened Patches
  import opened Splitting

  // (char_t)x
  function PadChar(x: nat): char {
    (x % 0xD800) as char
  }

  // "\x01\x02..."
  function NullPadding(n: nat): (r: string)
    ensures |r| == n
  {
    if n == 0 then "" else NullPadding(n - 1) + [PadChar(n)]
  }

  // All patches are bumped forward.
  function Bumped(p: Patch, n: int): Patch {
    p.(start1 := p.start1 + n, start2 := p.start2 + n)
  }

  function AllBumped(ps: seq<Patch>, n: int): (r: seq<Patch>)
    ensures |r| == |ps| && forall i :: 0 <= i < |ps| ==> r[i] == Bumped(ps[i], n)
  {
    seq(|ps|, i requires 0 <= i < |ps| => Bumped(ps[i], n))
  }

  lemma BumpedFits(p: Patch, t: string, a: string, b: string)
    requires Fits(p, t)
    ensures Fits(Bumped(p, |a|), a + t + b) && Applied(Bumped(p, |a|), a + t + b) == a + Applied(p, t) + b
  {
    var x, y, q := Text1(p.diffs), Text2(p.diffs), Bumped(p, |a|);
    var h, r := t[..p.start2], t[p.start2 + |x|..];
    assert t == h + x + r;
    FiveParts(a, h, x, r, b);
    FiveParts(a, h, y, r, b);
    FitsBetween(q, a + h, x, y, r + b);
  }

  lemma {:induction false} BumpedChain(ps: seq<Patch>, t: string, u: string, a: string, b: string)
    requires Chain(ps, t, u)
    ensures Chain(AllBumped(ps, |a|), a + t + b, a + u + b)
  {
    if |ps| > 0 {
      BumpedFits(ps[0], t, a, b);
      BumpedChain(ps[1..], Applied(ps[0], t), u, a, b);
      assert AllBumped(ps, |a|)[1..] == AllBumped(ps[1..], |a|);
    }
  }

  // The patch with padding before it, as far as its first diff is shorter.
  function PadFront(p: Patch, pad: string): Patch {
    if |p.diffs| == 0 || p.diffs[0].op != EQUAL then
      Patch([Diff(EQUAL, pad)] + p.diffs, p.start1 - |pad|, p.start2 - |pad|, p.length1 + |pad|, p.length2 + |pad|)
    else if |pad| > |p.diffs[0].text| then
      var n := |p.diffs[0].text|;
      var extra := |pad| - n;
      Patch([Diff(EQUAL, pad[n..] + p.diffs[0].text)] + p.diffs[1..],
            p.start1 - extra, p.start2 - extra, p.length1 + extra, p.length2 + extra)
    else p
  }

  // The patch with padding behind it, as far as its last diff is shorter.
  function PadBack(p: Patch, pad: string): Patch {
    var n := |p.diffs|;
    if n == 0 || p.diffs[n - 1].op != EQUAL then
      Patch(p.diffs + [Diff(EQUAL, pad)], p.start1, p.start2, p.length1 + |pad|, p.length2 + |pad|)
    else if |pad| > |p.diffs[n - 1].text| then
      var extra := |pad| - |p.diffs[n - 1].text|;
      Patch(p.diffs[..n - 1] + [Diff(EQUAL, p.diffs[n - 1].text + pad[..extra])],
            p.start1, p.start2, p.length1 + extra, p.length2 + extra)
    else p
  }

  // What PadFront and PadBack put before and behind the patch.
  function FrontPad(p: Patch, pad: string): string {
    if |p.diffs| == 0 || p.diffs[0].op != EQUAL then pad
    else if |pad| > |p.diffs[0].text| then pad[|p.diffs[0].text|..] else ""
  }

  function BackPad(p: Patch, pad: string): string {
    var n := |p.diffs|;
    if n == 0 || p.diffs[n - 1].op != EQUAL then pad
    else if |pad| > |p.diffs[n - 1].text| then pad[..|pad| - |p.diffs[n - 1].text|] else ""
  }

  lemma PadFrontText(p: Patch, pad: string)
    ensures var q, f := PadFront(p, pad), FrontPad(p, pad);
            && Text1(q.diffs) == f + Text1(p.diffs) && Text2(q.diffs) == f + Text2(p.diffs)
            && q.start2 == p.start2 - |f| && q.length1 == p.length1 + |f| && q.length2 == p.length2 + |f|
  {
    if |p.diffs| == 0 || p.diffs[0].op != EQUAL {
      TextAppend([Diff(EQUAL, pad)], p.diffs);
      TextOne(Diff(EQUAL, pad));
    } else if |pad| > |p.diffs[0].text| {
      var e := p.diffs[0].text;
      assert ([Diff(EQUAL, pad[|e|..] + e)] + p.diffs[1..])[1..] == p.diffs[1..];
      assert pad[|e|..] + e + Text1(p.diffs[1..]) == pad[|e|..] + (e + Text1(p.diffs[1..]));
      assert pad[|e|..] + e + Text2(p.diffs[1..]) == pad[|e|..] + (e + Text2(p.diffs[1..]));
    } else {
      assert "" + Text1(p.diffs) == Text1(p.diffs) && "" + Text2(p.diffs) == Text2(p.diffs);
    }
  }

  lemma PadBackText(p: Patch, pad: string)
    ensures var q, f := PadBack(p, pad), BackPad(p, pad);
            && Text1(q.diffs) == Text1(p.diffs) + f && Text2(q.diffs) == Text2(p.diffs) + f
            && q.start2 == p.start2 && q.length1 == p.length1 + |f| && q.length2 == p.length2 + |f|
  {
    var n, f := |p.diffs|, BackPad(p, pad);
    if n == 0 || p.diffs[n - 1].op != EQUAL {
      TextAppend(p.diffs, [Diff(EQUAL, pad)]);
      TextOne(Diff(EQUAL, pad));
    } else if |pad| > |p.diffs[n - 1].text| {
      LastGrows(p.diffs, f);
    }
  }

  lemma LastGrows(ds: seq<Diff>, f: string)
    requires |ds| > 0 && ds[|ds| - 1].op == EQUAL
    ensures var es := ds[..|ds| - 1] + [Diff(EQUAL, ds[|ds| - 1].text + f)];
            Text1(es) == Text1(ds) + f && Text2(es) == Text2(ds) + f
  {
    var a, e := ds[..|ds| - 1], ds[|ds| - 1].text;
    assert ds == a + [Diff(EQUAL, e)];
    TextAppend(a, [Diff(EQUAL, e)]);
    TextAppend(a, [Diff(EQUAL, e + f)]);
    TextOne(Diff(EQUAL, e));
    TextOne(Diff(EQUAL, e + f));
  }

  /** Whatever is put before an anchored patch is there in the padded text w. */
  lemma FrontPadStands(p: Patch, t: string, pad: string, b: Patch, w: string)
    requires Fits(p, t) && Anchored(p, t, |pad|) && b == Bumped(p, |pad|) && w == pad + t + pad
    ensures var f := FrontPad(b, pad); |f| <= b.start2 <= |w| && f == w[b.start2 - |f|..b.start2]
  {
    var f := FrontPad(b, pad);
    if f != "" {
      assert p.start2 == 0;
      assert f == pad[|pad| - |f|..];
    }
  }

  lemma BackPadStands(p: Patch, t: string, pad: string, b: Patch, w: string, q: Patch)
    requires Fits(p, t) && Anchored(p, t, |pad|) && b == Bumped(p, |pad|) && w == pad + t + pad && q == PadFront(b, pad)
    ensures var g, e := BackPad(q, pad), q.start2 + q.length1; 0 <= e <= e + |g| <= |w| && g == w[e..e + |g|]
  {
    var g, n := BackPad(q, pad), |q.diffs|;
    assert q.start2 + q.length1 == b.start2 + b.length1;
    if g != "" {
      assert |p.diffs| > 0 && q.diffs[n - 1] == p.diffs[|p.diffs| - 1];
      assert p.start2 + p.length1 == |t|;
      assert g == pad[..|g|];
    }
  }

  function PadFirst(p: Patch, pad: string): Patch {
    PadBack(PadFront(Bumped(p, |pad|), pad), pad)
  }

  /** The first patch, padded at both ends, does in the padded text what it did. */
  lemma PaddedFits(p: Patch, t: string, pad: string)
    requires Fits(p, t) && Anchored(p, t, |pad|)
    ensures Fits(PadFirst(p, pad), pad + t + pad)
    ensures Applied(PadFirst(p, pad), pad + t + pad) == pad + Applied(p, t) + pad
  {
    var b, w := Bumped(p, |pad|), pad + t + pad;
    BumpedFits(p, t, pad, pad);
    FrontFits(p, t, pad, b, w);
    BackStep(p, t, pad, b, w, PadFront(b, pad));
  }

  lemma FrontFits(p: Patch, t: string, pad: string, b: Patch, w: string)
    requires Fits(p, t) && Anchored(p, t, |pad|) && b == Bumped(p, |pad|) && w == pad + t + pad && Fits(b, w)
    ensures Fits(PadFront(b, pad), w) && Applied(PadFront(b, pad), w) == Applied(b, w)
  {
    FrontPadStands(p, t, pad, b, w);
    PadFrontText(b, pad);
    BeforeFits(b, PadFront(b, pad), w, FrontPad(b, pad));
  }

  lemma BackFits(q: Patch, pad: string, w: string)
    requires Fits(q, w) && q.start2 + q.length1 + |BackPad(q, pad)| <= |w|
    requires BackPad(q, pad) == w[q.start2 + q.length1..q.start2 + q.length1 + |BackPad(q, pad)|]
    ensures Fits(PadBack(q, pad), w) && Applied(PadBack(q, pad), w) == Applied(q, w)
  {
    PadBackText(q, pad);
    BehindFits(q, PadBack(q, pad), w, BackPad(q, pad));
  }

  lemma BackStep(p: Patch, t: string, pad: string, b: Patch, w: string, q: Patch)
    requires Fits(p, t) && Anchored(p, t, |pad|) && b == Bumped(p, |pad|) && w == pad + t + pad && q == PadFront(b, pad)
    requires Fits(q, w)
    ensures Fits(PadBack(q, pad), w) && Applied(PadBack(q, pad), w) == Applied(q, w)
  {
    BackPadStands(p, t, pad, b, w, q);
    BackFits(q, pad, w);
  }

  /** Context on one side only. */
  lemma BeforeFits(p: Patch, q: Patch, w: string, f: string)
    requires Fits(p, w) && |f| <= p.start2 && f == w[p.start2 - |f|..p.start2]
    requires q.start2 == p.start2 - |f| && q.length1 == p.length1 + |f| && q.length2 == p.length2 + |f|
    requires Text1(q.diffs) == f + Text1(p.diffs) && Text2(q.diffs) == f + Text2(p.diffs)
    ensures Fits(q, w) && Applied(q, w) == Applied(p, w)
  {
    OneSided(f, Text1(p.diffs), Text2(p.diffs));
    EnclosedFits(p, q, w, f, "");
  }

  lemma BehindFits(p: Patch, q: Patch, w: string, g: string)
    requires Fits(p, w) && p.start2 + p.length1 + |g| <= |w| && g == w[p.start2 + p.length1..p.start2 + p.length1 + |g|]
    requires q.start2 == p.start2 && q.length1 == p.length1 + |g| && q.length2 == p.length2 + |g|
    requires Text1(q.diffs) == Text1(p.diffs) + g && Text2(q.diffs) == Text2(p.diffs) + g
    ensures Fits(q, w) && Applied(q, w) == Applied(p, w)
  {
    OneSided(g, Text1(p.diffs), Text2(p.diffs));
    EnclosedFits(p, q, w, "", g);
  }

  lemma OneSided(f: string, x: string, y: string)
    ensures f + x + "" == f + x && f + y + "" == f + y && "" + x + f == x + f && "" + y + f == y + f
  {
  }

  /** patch_addPadding. The end of the first patch is padded, where the last one is meant. */
  method AddPadding(ps: seq<Patch>, c: Settings) returns (qs: seq<Patch>, pad: string)
    requires ps != []
    ensures pad == NullPadding(c.margin)
    ensures qs == [PadFirst(ps[0], pad)] + AllBumped(ps, |pad|)[1..]
  {
    pad := "";
    var x := 1;
    while x <= c.margin
      invariant 1 <= x <= c.margin + 1 && pad == NullPadding(x - 1)
    {
      pad := pad + [PadChar(x)];
      x := x + 1;
    }
    qs := ps;
    var i := 0;
    while i < |qs|
      invariant 0 <= i <= |qs| == |ps|
      invariant forall j :: 0 <= j < |qs| ==> qs[j] == if j < i then Bumped(ps[j], c.margin) else ps[j]
    {
      qs := qs[i := Bumped(qs[i], c.margin)];
      i := i + 1;
    }
    assert qs == AllBumped(ps, |pad|);
    qs := qs[0 := PadFront(qs[0], pad)];
    qs := qs[0 := PadBack(qs[0], pad)];
  }

  lemma PaddedChain(ps: seq<Patch>, t: string, u: string, pad: string)
    requires ps != [] && Chain(ps, t, u) && Anchored(ps[0], t, |pad|)
    ensures Chain([PadFirst(ps[0], pad)] + AllBumped(ps, |pad|)[1..], pad + t + pad, pad + u + pad)
  {
    PaddedFits(ps[0], t, pad);
    BumpedChain(ps[1..], Applied(ps[0], t), u, pad, pad);
    var qs := [PadFirst(ps[0], pad)] + AllBumped(ps, |pad|)[1..];
    assert qs[1..] == AllBumped(ps[1..], |pad|);
  }

  /** What patch_apply leaves to the fuzzy match and to the merge of a patch that does not match
      exactly: match_bitap, and the text after an imperfect match with whether it was accepted. */
  datatype Fuzzy = Fuzzy(bitap: (string, string, int) -> int,
                         merge: (Patch, string, string, int, string) -> (bool, string))

  /** match_main */
  function MatchMain(text: string, pattern: string, loc0: int, fuzzy: Fuzzy): (r: int)
    ensures Occurs(text, pattern, loc0) ==> r == loc0
  {
    var loc := Max(0, Min(loc0, |text|));
    if text == pattern then
      WholeMatch(text, loc0);
      0
    else if text == "" then -1
    else if loc + |pattern| <= |text| && text[loc..loc + |pattern|] == pattern then loc
    else fuzzy.bitap(text, pattern, loc)
  }

  lemma WholeMatch(text: string, loc: int)
    ensures Occurs(text, text, loc) ==> loc == 0
  {
  }

  /** The fuzzy search finds nothing or a place in the text. */
  ghost predicate Sane(fuzzy: Fuzzy) {
    forall text, pattern, loc :: -1 <= fuzzy.bitap(text, pattern, loc) <= |text|
  }

  lemma MatchRange(text: string, pattern: string, loc: int, fuzzy: Fuzzy)
    requires Sane(fuzzy)
    ensures -1 <= MatchMain(text, pattern, loc, fuzzy) <= |text|
  {
  }

  /** The place of text1 in the text and, when it is too long to be searched for, that of its last characters;
      both ends have to be found, one behind the other. */
  function Found(text: string, text1: string, expected: int, c: Settings, fuzzy: Fuzzy): (int, int) {
    if |text1| <= c.maxBits then (MatchMain(text, text1, expected, fuzzy), -1)
    else
      var a := MatchMain(text, text1[..c.maxBits], expected, fuzzy);
      var b := MatchMain(text, Right(text1, c.maxBits), expected + |text1| - c.maxBits, fuzzy);
      if a == -1 || b == -1 || a >= b then (-1, -1) else (a, b)
  }

  /** Where a patch is found, and where the end of an oversized one is. */
  method Locate(text: string, text1: string, expected: int, c: Settings, fuzzy: Fuzzy) returns (start: int, end: int)
    requires Sane(fuzzy)
    ensures start == Found(text, text1, expected, c, fuzzy).0 && (start != -1 ==> end == Found(text, text1, expected, c, fuzzy).1)
    ensures -1 <= start <= |text| && -1 <= end <= |text| && (start != -1 && end != -1 ==> start < end)
    ensures Occurs(text, text1, expected) ==>
              start == expected && (end == -1 || (|text1| > c.maxBits && end == expected + |text1| - c.maxBits))
  {
    end := -1;
    if |text1| > c.maxBits {
      EndsOccur(text, text1, expected, c.maxBits);
      start := MatchMain(text, text1[..c.maxBits], expected, fuzzy);
      MatchRange(text, text1[..c.maxBits], expected, fuzzy);
      if start != -1 {
        end := MatchMain(text, Right(text1, c.maxBits), expected + |text1| - c.maxBits, fuzzy);
        MatchRange(text, Right(text1, c.maxBits), expected + |text1| - c.maxBits, fuzzy);
        if end == -1 || start >= end {
          start := -1;
        }
      }
    } else {
      start := MatchMain(text, text1, expected, fuzzy);
      MatchRange(text, text1, expected, fuzzy);
    }
  }

  lemma EndsOccur(text: string, text1: string, loc: int, n: nat)
    requires |text1| > n
    ensures Occurs(text, text1, loc) ==> Occurs(text, text1[..n], loc)
    ensures Occurs(text, text1, loc) ==> Occurs(text, Right(text1, n), loc + |text1| - n)
  {
    if Occurs(text, text1, loc) {
      assert text[loc..loc + |text1|][..n] == text[loc..loc + n];
      assert Right(text[loc..loc + |text1|], n) == text[loc + |text1| - n..loc + |text1|];
    }
  }

  /** One patch applied to a text, or not. It is looked for where the place of the patch before it suggests. A
      patch that is not found changes nothing; where it stands as it is, its second text takes its place. */
  ghost predicate Turned(p: Patch, text0: string, delta0: int, text: string, delta: int, applied: bool, c: Settings, fuzzy: Fuzzy) {
    var text1, expected := Text1(p.diffs), p.start2 + delta0;
    var (start, end) := Found(text0, text1, expected, c, fuzzy);
    if start == -1 then !applied && text == text0 && delta == delta0 - (p.length2 - p.length1)
    else
      && delta == start - expected && 0 <= start <= |text0|
      && if Stands(text0, text1, start, end, c) then applied && text == text0[..start] + Text2(p.diffs) + text0[start + |text1|..]
         else (applied, text) == fuzzy.merge(p, text0, text1, start, Stretch(text0, text1, start, end, c))
  }

  // The stretch of the text that is taken for text1.
  function Stretch(text: string, text1: string, start: nat, end: int, c: Settings): string
    requires start <= |text|
  {
    Mid(text, start, if end == -1 then |text1| else Max(0, end + c.maxBits - start))
  }

  predicate Stands(text: string, text1: string, start: nat, end: int, c: Settings)
    requires start <= |text|
  {
    Stretch(text, text1, start, end, c) == text1 && start + |text1| <= |text|
  }

  /** One patch: a patch that fits where it is expected is applied there. */
  method ApplyOne(p: Patch, text0: string, delta0: int, c: Settings, fuzzy: Fuzzy)
    returns (text: string, delta: int, applied: bool)
    requires Sane(fuzzy)
    ensures Fits(p, text0) && delta0 == 0 ==> applied && delta == 0 && text == Applied(p, text0)
    ensures Turned(p, text0, delta0, text, delta, applied, c, fuzzy)
  {
    hide Text1, Text2, Found, Stands, Stretch, Occurs, Turned;
    text, delta := text0, delta0;
    var expected := p.start2 + delta;
    var text1 := Text1(p.diffs);
    var start, end := Locate(text, text1, expected, c, fuzzy);
    if start == -1 {
      applied := false;
      delta := delta - (p.length2 - p.length1);
    } else {
      delta := start - expected;
      applied, text := Replace(p, text1, text0, start, end, c, fuzzy);
    }
    OneTurned(p, text0, delta0, text, delta, applied, start, end, c, fuzzy);
    FitsOccurs(p, text0);
  }

  lemma FitsOccurs(p: Patch, t: string)
    ensures Fits(p, t) ==> Occurs(t, Text1(p.diffs), p.start2)
    ensures Fits(p, t) ==> Applied(p, t) == t[..p.start2] + Text2(p.diffs) + t[p.start2 + |Text1(p.diffs)|..]
  {
  }

  lemma OneTurned(p: Patch, text0: string, delta0: int, text: string, delta: int, applied: bool, start: int, end: int,
                  c: Settings, fuzzy: Fuzzy)
    requires var f := Found(text0, Text1(p.diffs), p.start2 + delta0, c, fuzzy); start == f.0 && (start != -1 ==> end == f.1)
    requires -1 <= start <= |text0|
    requires if start == -1 then !applied && text == text0 && delta == delta0 - (p.length2 - p.length1)
             else delta == start - (p.start2 + delta0)
                  && if Stands(text0, Text1(p.diffs), start, end, c) then
                       applied && text == text0[..start] + Text2(p.diffs) + text0[start + |Text1(p.diffs)|..]
                     else (applied, text) == fuzzy.merge(p, text0, Text1(p.diffs), start, Stretch(text0, Text1(p.diffs), start, end, c))
    ensures Turned(p, text0, delta0, text, delta, applied, c, fuzzy)
  {
    hide Text1, Text2, Found, Stretch;
  }

  /** The offset is forgotten when it has been right: the next patch is looked for where it was made. */
  lemma OffsetForgotten(p: Patch, text0: string, delta0: int, text: string, delta: int, applied: bool, c: Settings,
                        fuzzy: Fuzzy)
    requires Turned(p, text0, delta0, text, delta, applied, c, fuzzy)
    requires |Text1(p.diffs)| <= c.maxBits && Occurs(text0, Text1(p.diffs), p.start2 + delta0)
    ensures applied && delta == 0
  {
    hide Text1, Text2;
    assert Stands(text0, Text1(p.diffs), p.start2 + delta0, -1, c);
  }

  /** A perfect match is replaced; the rest is up to the merge. */
  method Replace(p: Patch, text1: string, text0: string, start: nat, end: int, c: Settings, fuzzy: Fuzzy)
    returns (applied: bool, text: string)
    requires text1 == Text1(p.diffs) && start <= |text0| && (end == -1 || start < end)
    ensures Occurs(text0, text1, start) && (end == -1 || end == start + |text1| - c.maxBits) ==>
              applied && text == text0[..start] + Text2(p.diffs) + text0[start + |text1|..]
    ensures if Stands(text0, text1, start, end, c) then applied && text == text0[..start] + Text2(p.diffs) + text0[start + |text1|..]
            else (applied, text) == fuzzy.merge(p, text0, text1, start, Stretch(text0, text1, start, end, c))
  {
    var text2 := if end == -1 then Mid(text0, start, |text1|) else Mid(text0, start, end + c.maxBits - start);
    if text1 == text2 {
      applied, text := true, text0[..start] + Text2(p.diffs) + text0[start + |text1|..];
    } else {
      var merged := fuzzy.merge(p, text0, text1, start, text2);
      applied, text := merged.0, merged.1;
    }
  }

  predicate AllTrue(rs: seq<bool>) {
    forall i :: 0 <= i < |rs| ==> rs[i]
  }

  /** What is applied, and the text and the offset before each of them and at the end. */
  datatype Run = Run(pieces: seq<Patch>, texts: seq<string>, deltas: seq<int>)

  /** All pieces are taken in order, each where the one before it has left the text and the offset. */
  ghost predicate Runs(r: Run, text: string, results: seq<bool>, c: Settings, fuzzy: Fuzzy) {
    && |results| == |r.pieces| && |r.texts| == |r.deltas| == |results| + 1
    && r.texts[0] == text && r.deltas[0] == 0
    && forall i :: 0 <= i < |results| ==>
         Turned(r.pieces[i], r.texts[i], r.deltas[i], r.texts[i + 1], r.deltas[i + 1], results[i], c, fuzzy)
  }

  lemma RunsOn(r: Run, text: string, results: seq<bool>, c: Settings, fuzzy: Fuzzy, p: Patch, text': string,
               delta': int, applied: bool)
    requires Runs(r, text, results, c, fuzzy)
    requires Turned(p, r.texts[|results|], r.deltas[|results|], text', delta', applied, c, fuzzy)
    ensures Runs(Run(r.pieces + [p], r.texts + [text'], r.deltas + [delta']), text, results + [applied], c, fuzzy)
  {
    hide Turned;
  }

  method ApplyAll(ps: seq<Patch>, text0: string, c: Settings, fuzzy: Fuzzy, ghost fits: bool, ghost u: string)
    returns (text: string, results: seq<bool>, ghost run: Run)
    requires Sane(fuzzy) && (fits ==> Chain(ps, text0, u))
    ensures |results| == |ps| && (fits ==> text == u && AllTrue(results))
    ensures Runs(run, text0, results, c, fuzzy) && run.pieces == ps && text == run.texts[|ps|]
  {
    hide Turned;
    text, results := text0, [];
    run := Run([], [text0], [0]);
    var delta, x := 0, 0;
    assert ps[0..] == ps;
    while x < |ps|
      invariant 0 <= x <= |ps| && |results| == x
      invariant Runs(run, text0, results, c, fuzzy) && run.pieces == ps[..x] && text == run.texts[x]
      invariant delta == run.deltas[x]
      invariant fits ==> delta == 0 && AllTrue(results) && Chain(ps[x..], text, u)
    {
      assert ps[x..][0] == ps[x] && ps[x..][1..] == ps[x + 1..];
      var applied;
      text, delta, applied := ApplyOne(ps[x], text, delta, c, fuzzy);
      RunsOn(run, text0, results, c, fuzzy, ps[x], text, delta, applied);
      run := Run(run.pieces + [ps[x]], run.texts + [text], run.deltas + [delta]);
      assert ps[..x + 1] == ps[..x] + [ps[x]];
      results := results + [applied];
      x := x + 1;
    }
    assert ps[..x] == ps;
  }

  /** patch_apply: patches that lead from the text to u, with context as patch_make adds it, give u and
      are all applied. There is one result for each piece the padded patches are split into; the pieces are
      small enough to be matched and lead from the padded text to the padded u. */
  method PatchApply(ps: seq<Patch>, source: string, c: Settings, fuzzy: Fuzzy, ghost u: string)
    returns (text: string, results: seq<bool>, ghost run: Run)
    requires Usable(c) && Sane(fuzzy)
    ensures ps == [] ==> text == source && results == []
    ensures ps != [] ==>
              var pad := NullPadding(c.margin);
              && SplitInto([PadFirst(ps[0], pad)] + AllBumped(ps, |pad|)[1..], run.pieces, c) && AllMatchable(run.pieces, c)
              && Runs(run, pad + source + pad, results, c, fuzzy) && text == Stripped(run.texts[|results|], |pad|)
    ensures Chain(ps, source, u) && (ps != [] ==> Anchored(ps[0], source, c.margin)) ==> text == u && AllTrue(results)
    ensures Chain(ps, source, u) && ps != [] && Anchored(ps[0], source, c.margin) ==>
              var pad := NullPadding(c.margin); Chain(run.pieces, pad + source + pad, pad + u + pad)
  {
    if |ps| == 0 {
      return source, [], Run([], [source], [0]);
    }
    ghost var fits := Chain(ps, source, u) && Anchored(ps[0], source, c.margin);
    var padded, pad := AddPadding(ps, c);
    if fits {
      PaddedChain(ps, source, u, pad);
    }
    var split := SplitMax(padded, c, fits, pad + source + pad, pad + u + pad);
    text, results, run := ApplyAll(split, pad + source + pad, c, fuzzy, fits, pad + u + pad);
    text := Stripped(text, |pad|);
    if fits {
      StripPadding(pad, u);
    }
  }

  // The text without its padding. A merge may have cut it so short that the library throws; here it is empty then.
  function Stripped(text: string, n: nat): string {
    if 2 * n <= |text| then text[n..|text| - n] else ""
  }

  lemma StripPadding(pad: string, u: string)
    ensures Stripped(pad + u + pad, |pad|) == u
  {
  }
}
