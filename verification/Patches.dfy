/** Patches: patch_make and patch_addContext, with the law that the patches made for a diff, applied
    one after the other, turn the first text into the second. */
module Patches {
  import opened Strings
  import opened Diffs

  datatype Patch = Patch(diffs: seq<Diff>, start1: int, start2: int, length1: int, length2: int)

  const NO_PATCH := Patch([], 0, 0, 0, 0)

  /** Patch_Margin, Match_MaxBits, and whether the last diff is recognised by its position (byPosition)
      or, as patch_make does it, by its value. */
  datatype Settings = Settings(margin: nat, maxBits: nat, byPosition: bool)

  // Without these patch_addContext or patch_splitMax may loop forever.
  predicate Usable(c: Settings) {
    c.margin >= 1 && c.maxBits > 2 * c.margin
  }

  /** The source text of the patch stands in t at start2, and the lengths are right. */
  ghost predicate Fits(p: Patch, t: string) {
    && p.length1 == |Text1(p.diffs)| && p.length2 == |Text2(p.diffs)|
    && 0 <= p.start2 && p.start2 + p.length1 <= |t|
    && t[p.start2..p.start2 + p.length1] == Text1(p.diffs)
  }

  function Applied(p: Patch, t: string): string
    requires 0 <= p.start2 && p.start2 + |Text1(p.diffs)| <= |t|
  {
    t[..p.start2] + Text2(p.diffs) + t[p.start2 + |Text1(p.diffs)|..]
  }

  /** The patches, applied in order where they say, turn t into u. */
  ghost predicate Chain(ps: seq<Patch>, t: string, u: string) {
    if |ps| == 0 then t == u else Fits(ps[0], t) && Chain(ps[1..], Applied(ps[0], t), u)
  }

  lemma {:induction false} ChainAppend(ps: seq<Patch>, qs: seq<Patch>, t: string, u: string, v: string)
    requires Chain(ps, t, u) && Chain(qs, u, v)
    ensures Chain(ps + qs, t, v)
  {
    if |ps| == 0 {
      assert ps + qs == qs;
    } else {
      assert (ps + qs)[1..] == ps[1..] + qs;
      ChainAppend(ps[1..], qs, Applied(ps[0], t), u, v);
    }
  }

  lemma ChainOne(p: Patch, t: string)
    requires Fits(p, t)
    ensures Chain([p], t, Applied(p, t))
  {
    assert [p][1..] == [];
  }

  /** The context reaches a margin, or the end of the text. */
  predicate Anchored(p: Patch, t: string, margin: nat) {
    && (p.start2 == 0 || (|p.diffs| > 0 && p.diffs[0].op == EQUAL && |p.diffs[0].text| >= margin))
    && (p.start2 + p.length1 == |t|
        || (|p.diffs| > 0 && p.diffs[|p.diffs| - 1].op == EQUAL && |p.diffs[|p.diffs| - 1].text| >= margin))
  }

  // The patch's stretch of the text with padding characters on both sides, as far as there are any.
  function Around(p: Patch, text: string, padding: nat): string
    requires 0 <= p.start2 && 0 <= p.length1 && p.start2 + p.length1 <= |text|
  {
    text[Max(0, p.start2 - padding)..Min(|text|, p.start2 + p.length1 + padding)]
  }

  /** With the whole text in view there is only one match. */
  lemma WholeText(p: Patch, text: string, padding: nat)
    requires 0 <= p.start2 && 0 <= p.length1 && p.start2 + p.length1 <= |text| && padding >= |text|
    ensures Find(text, Around(p, text, padding)) == FindBack(text, Around(p, text, padding), |text|)
  {
    assert Around(p, text, padding) == text;
    assert Occurs(text, text, 0);
  }

  // The pattern matches in two places and is not too long.
  predicate Repeated(text: string, pattern: string, c: Settings) {
    Find(text, pattern) != FindBack(text, pattern, |text|) && |pattern| < c.maxBits - c.margin - c.margin
  }

  // The pattern is still ambiguous and may grow.
  predicate Ambiguous(p: Patch, text: string, c: Settings, padding: nat)
    requires c.maxBits > 2 * c.margin && 0 <= p.start2 && 0 <= p.length1 && p.start2 + p.length1 <= |text|
  {
    Repeated(text, Around(p, text, padding), c)
  }

  /** patch_addContext: the patch gets n characters of context on both sides. */
  method AddContext(p: Patch, text: string, c: Settings) returns (r: Patch, ghost n: nat)
    requires Usable(c) && 0 <= p.start2 && 0 <= p.length1 && p.start2 + p.length1 <= |text|
    ensures text == "" ==> r == p
    ensures text != "" ==> r == WithContext(p, text, n) && ExactContext(p, text, c, n)
  {
    n := 0;
    if text == "" {
      return p, n;
    }
    var padding := FindPadding(p, text, c);
    padding := padding + c.margin;
    var prefix := MidBefore(p, text, padding);
    var suffix := MidBehind(p, text, padding);
    r := Enclosed(p, prefix, suffix);
    n := padding;
  }

  function Margins(c: Settings, m: nat): nat
    requires c.margin >= 1
  {
    m * c.margin
  }

  /** With m margins on both sides the pattern is unique or too long, and with fewer it is neither. */
  ghost predicate FirstClear(p: Patch, text: string, c: Settings, m: nat)
    requires Usable(c) && 0 <= p.start2 && 0 <= p.length1 && p.start2 + p.length1 <= |text|
  {
    !Ambiguous(p, text, c, Margins(c, m)) && forall k: nat :: k < m ==> Ambiguous(p, text, c, Margins(c, k))
  }

  /** One margin more than the fewest that make the pattern unique or too long. */
  ghost predicate ExactContext(p: Patch, text: string, c: Settings, n: nat)
    requires Usable(c) && 0 <= p.start2 && 0 <= p.length1 && p.start2 + p.length1 <= |text|
  {
    exists m: nat :: n == Margins(c, m) + c.margin && FirstClear(p, text, c, m)
  }

  /** So there is no choice. */
  lemma ContextUnique(p: Patch, text: string, c: Settings, n: nat, n': nat)
    requires Usable(c) && 0 <= p.start2 && 0 <= p.length1 && p.start2 + p.length1 <= |text|
    requires ExactContext(p, text, c, n) && ExactContext(p, text, c, n')
    ensures n == n'
  {
    var m: nat :| n == Margins(c, m) + c.margin && FirstClear(p, text, c, m);
    var m': nat :| n' == Margins(c, m') + c.margin && FirstClear(p, text, c, m');
    FirstClearUnique(p, text, c, m, m');
  }

  lemma FirstClearUnique(p: Patch, text: string, c: Settings, m: nat, m': nat)
    requires Usable(c) && 0 <= p.start2 && 0 <= p.length1 && p.start2 + p.length1 <= |text|
    requires FirstClear(p, text, c, m) && FirstClear(p, text, c, m')
    ensures m == m'
  {
    hide Ambiguous;
  }

  /** The pattern that is looked for stays below Match_MaxBits by two margins until it is clear, so the source
      text of the patch exceeds Match_MaxBits by less than two margins, or its own diffs by two. */
  lemma ContextBounded(p: Patch, text: string, c: Settings, n: nat)
    requires Usable(c) && 0 <= p.start2 && 0 <= p.length1 && p.start2 + p.length1 <= |text|
    requires ExactContext(p, text, c, n)
    ensures WithContext(p, text, n).length1 <= Max(p.length1, c.maxBits - 1) + 2 * c.margin
  {
    hide Ambiguous, Around, Before, Behind, Margins;
    var m: nat :| n == Margins(c, m) + c.margin && FirstClear(p, text, c, m);
    if m > 0 {
      MarginsMore(c, m - 1);
      AmbiguousShort(p, text, c, Margins(c, m - 1));
      AroundLength(p, text, Margins(c, m - 1));
    } else {
      NoMargins(c);
    }
  }

  lemma AmbiguousShort(p: Patch, text: string, c: Settings, padding: nat)
    requires Usable(c) && 0 <= p.start2 && 0 <= p.length1 && p.start2 + p.length1 <= |text|
    requires Ambiguous(p, text, c, padding)
    ensures |Around(p, text, padding)| < c.maxBits - 2 * c.margin
  {
  }

  lemma MarginsMore(c: Settings, m: nat)
    requires c.margin >= 1
    ensures Margins(c, m + 1) == Margins(c, m) + c.margin
  {
  }

  lemma AroundLength(p: Patch, text: string, n: nat)
    requires 0 <= p.start2 && 0 <= p.length1 && p.start2 + p.length1 <= |text|
    ensures |Around(p, text, n)| == Min(p.start2, n) + p.length1 + Min(|text| - p.start2 - p.length1, n)
  {
  }

  // The patch with the given context.
  function Enclosed(p: Patch, prefix: string, suffix: string): Patch {
    Patch(Context(prefix) + p.diffs + Context(suffix), 
          p.start1 - |prefix|, p.start2 - |prefix|, p.length1 + |prefix| + |suffix|, p.length2 + |prefix| + |suffix|)
  }

  /** The padding of patch_addContext: margins are added while the pattern stands in two places and is short. */
  method FindPadding(p: Patch, text: string, c: Settings) returns (padding: nat)
    requires Usable(c) && 0 <= p.start2 && 0 <= p.length1 && p.start2 + p.length1 <= |text|
    ensures ExactContext(p, text, c, padding + c.margin)
  {
    hide Around, Margins, Repeated;
    padding := 0;
    ghost var m := 0;
    var pattern := Mid(text, p.start2, p.length1);
    FirstPattern(p, text);
    NoMargins(c);
    while Repeated(text, pattern, c)
      invariant pattern == Around(p, text, padding) && padding == Margins(c, m)
      invariant forall k: nat :: k < m ==> Ambiguous(p, text, c, Margins(c, k))
      decreases |text| - padding
    {
      MarginsMore(c, m);
      padding, pattern := GrowPattern(p, text, c, padding);
      m := m + 1;
    }
    assert FirstClear(p, text, c, m);
  }

  lemma NoMargins(c: Settings)
    requires c.margin >= 1
    ensures Margins(c, 0) == 0
  {
  }

  method GrowPattern(p: Patch, text: string, c: Settings, padding: nat) returns (next: nat, pattern: string)
    requires Usable(c) && 0 <= p.start2 && 0 <= p.length1 && p.start2 + p.length1 <= |text|
    requires Ambiguous(p, text, c, padding)
    ensures padding < |text| && next == padding + c.margin && pattern == Around(p, text, next)
  {
    StillGrowing(p, text, c, padding);
    next := padding + c.margin;
    pattern := MidAround(p, text, next);
  }

  lemma FirstPattern(p: Patch, text: string)
    requires 0 <= p.start2 && 0 <= p.length1 && p.start2 + p.length1 <= |text|
    ensures Mid(text, p.start2, p.length1) == Around(p, text, 0)
  {
  }

  lemma StillGrowing(p: Patch, text: string, c: Settings, padding: nat)
    requires Usable(c) && 0 <= p.start2 && 0 <= p.length1 && p.start2 + p.length1 <= |text|
    requires Ambiguous(p, text, c, padding)
    ensures padding < |text|
  {
    if padding >= |text| {
      WholeText(p, text, padding);
    }
  }

  // The pattern that patch_addContext looks for, cut from the text by position and length.
  function MidAround(p: Patch, text: string, padding: nat): (r: string)
    requires 0 <= p.start2 && 0 <= p.length1 && p.start2 + p.length1 <= |text|
    ensures r == Around(p, text, padding)
  {
    var from, to := Max(0, p.start2 - padding), Min(|text|, p.start2 + p.length1 + padding);
    Mid(text, from, to - from)
  }

  function MidBefore(p: Patch, text: string, padding: nat): (r: string)
    requires 0 <= p.start2 <= |text|
    ensures r == Before(p, text, padding)
  {
    var from := Max(0, p.start2 - padding);
    Mid(text, from, p.start2 - from)
  }

  function MidBehind(p: Patch, text: string, padding: nat): (r: string)
    requires 0 <= p.start2 && 0 <= p.length1 && p.start2 + p.length1 <= |text|
    ensures r == Behind(p, text, padding)
  {
    var end := p.start2 + p.length1;
    Mid(text, end, Min(|text|, end + padding) - end)
  }

  // Up to n characters of context before and behind the patch.
  function Before(p: Patch, text: string, n: nat): (r: string)
    requires 0 <= p.start2 <= |text|
    ensures |r| == Min(p.start2, n)
  {
    text[Max(0, p.start2 - n)..p.start2]
  }

  function Behind(p: Patch, text: string, n: nat): (r: string)
    requires 0 <= p.start2 && 0 <= p.length1 && p.start2 + p.length1 <= |text|
    ensures |r| == Min(|text| - p.start2 - p.length1, n)
  {
    text[p.start2 + p.length1..Min(|text|, p.start2 + p.length1 + n)]
  }

  // A patch with n characters of context on both sides.
  function WithContext(p: Patch, text: string, n: nat): Patch
    requires 0 <= p.start2 && 0 <= p.length1 && p.start2 + p.length1 <= |text|
  {
    Enclosed(p, Before(p, text, n), Behind(p, text, n))
  }

  function Context(t: string): (r: seq<Diff>)
  {
    if t == "" then [] else [Diff(EQUAL, t)]
  }

  lemma ContextText(t: string)
    ensures Text1(Context(t)) == t && Text2(Context(t)) == t
  {
    TextOne(Diff(EQUAL, t));
  }

  /** Context neither moves the patch nor changes what it does. */
  lemma ContextFits(p: Patch, t: string, n: nat)
    requires Fits(p, t)
    ensures Fits(WithContext(p, t, n), t) && Applied(WithContext(p, t, n), t) == Applied(p, t)
  {
    var prefix, suffix := Before(p, t, n), Behind(p, t, n);
    ContextTexts(prefix, p.diffs, suffix);
    EnclosedFits(p, WithContext(p, t, n), t, prefix, suffix);
  }

  lemma EnclosedFits(p: Patch, q: Patch, t: string, prefix: string, suffix: string)
    requires Fits(p, t) && |prefix| <= p.start2 && p.start2 + p.length1 + |suffix| <= |t|
    requires prefix == t[p.start2 - |prefix|..p.start2]
    requires suffix == t[p.start2 + p.length1..p.start2 + p.length1 + |suffix|]
    requires q.start2 == p.start2 - |prefix| && q.length1 == |Text1(q.diffs)| && q.length2 == |Text2(q.diffs)|
    requires Text1(q.diffs) == prefix + Text1(p.diffs) + suffix && Text2(q.diffs) == prefix + Text2(p.diffs) + suffix
    ensures Fits(q, t) && Applied(q, t) == Applied(p, t)
  {
    var a, e := p.start2 - |prefix|, p.start2 + p.length1;
    var f := e + |suffix|;
    var x, y := Text1(p.diffs), Text2(p.diffs);
    ContextParts(t, a, p.start2, e, f, prefix, x, suffix, y);
    assert f - a == |prefix + x + suffix|;
    FitsAt(q, t, a, f, prefix + x + suffix, prefix + y + suffix, t[..p.start2] + y + t[e..]);
  }

  lemma FitsAt(q: Patch, t: string, a: int, f: int, x: string, y: string, u: string)
    requires Text1(q.diffs) == x && Text2(q.diffs) == y
    requires q.start2 == a && q.length1 == |x| == f - a && q.length2 == |y|
    requires 0 <= a <= f <= |t| && t[a..f] == x && t[..a] + y + t[f..] == u
    ensures Fits(q, t) && Applied(q, t) == u
  {
  }

  lemma ContextTexts(prefix: string, ds: seq<Diff>, suffix: string)
    ensures var es := Context(prefix) + ds + Context(suffix);
            Text1(es) == prefix + Text1(ds) + suffix && Text2(es) == prefix + Text2(ds) + suffix
            && |Text1(es)| == |prefix| + |Text1(ds)| + |suffix| && |Text2(es)| == |prefix| + |Text2(ds)| + |suffix|
  {
    ContextText(prefix);
    ContextText(suffix);
    TextAppend(Context(prefix) + ds, Context(suffix));
    TextAppend(Context(prefix), ds);
  }

  lemma ContextAnchors(p: Patch, t: string, n: nat, margin: nat)
    requires 0 <= p.start2 && 0 <= p.length1 && p.start2 + p.length1 <= |t| && n >= margin >= 1
    ensures Anchored(WithContext(p, t, n), t, margin)
  {
    var q, prefix, suffix := WithContext(p, t, n), Before(p, t, n), Behind(p, t, n);
    assert q == Enclosed(p, prefix, suffix);
    if prefix != "" {
      assert q.diffs[0] == Diff(EQUAL, prefix);
    }
    if suffix != "" {
      assert q.diffs[|q.diffs| - 1] == Diff(EQUAL, suffix);
    }
  }

  lemma ContextParts(t: string, a: int, b: int, e: int, f: int, prefix: string, x: string, suffix: string, y: string)
    requires 0 <= a <= b <= e <= f <= |t| && t[a..b] == prefix && t[b..e] == x && t[e..f] == suffix
    ensures t[a..f] == prefix + x + suffix
    ensures t[..a] + (prefix + y + suffix) + t[f..] == t[..b] + y + t[e..]
  {
    assert t[..b] == t[..a] + prefix && t[e..] == suffix + t[f..];
  }
}
