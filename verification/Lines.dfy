/** Texts as strings of line numbers: diff_linesToChars and diff_charsToLines. */
module Lines {
  import opened Strings
  import opened Diffs

  // One more than the largest number of a line that survives the conversion to the character type and
  // back: 128 for (signed) char.
  type CharRange = n: nat | n == 128 || n == 0xD800 witness 128

  const LINE_LIMIT: CharRange

  /** The length of the line at a position, with its newline. */
  function LineLength(t: string, off: nat): (n: nat)
    requires off < |t|
    ensures 0 < n && off + n <= |t|
  {
    var n := TokenLength(t, '\n', off);
    if off + n == |t| then n else n + 1
  }

  /** The different lines of a text from a position on. */
  ghost function LinesFrom(t: string, off: nat): set<string>
    decreases |t| - off
  {
    if off >= |t| then {}
    else
      var n := LineLength(t, off);
      {t[off..off + n]} + LinesFrom(t, off + n)
  }

  ghost function LinesOf(t: string): set<string> {
    LinesFrom(t, 0)
  }

  function LineCount(t: string, off: nat): nat
    decreases |t| - off
  {
    if off >= |t| then 0 else 1 + LineCount(t, off + LineLength(t, off))
  }

  // There is no newline.
  predicate IsOneLine(t: string) {
    forall i :: 0 <= i < |t| ==> t[i] != '\n'
  }

  lemma OneLine(t: string)
    requires t != "" && IsOneLine(t)
    ensures LineCount(t, 0) == 1 && LinesOf(t) == {t}
  {
    assert LineLength(t, 0) == |t| && t[0..|t|] == t;
    assert LineCount(t, |t|) == 0 && LinesFrom(t, |t|) == {};
  }

  /** The lines of the two texts, and the unused entry before them, can be numbered. */
  ghost predicate TableFits(text1: string, text2: string) {
    1 + |LinesOf(text1) + LinesOf(text2)| <= LINE_LIMIT
  }

  /** Whichever parts of the texts are compared line by line, their lines can be numbered. Texts of at most
      100 characters are not. */
  ghost predicate LinesFit(text1: string, text2: string) {
    forall i, j, k, l :: 0 <= i <= j <= |text1| && 0 <= k <= l <= |text2| && j - i > 100 && l - k > 100 ==>
      TableFits(text1[i..j], text2[k..l])
  }

  lemma PartFits(text1: string, text2: string, i: nat, j: nat, k: nat, l: nat)
    requires LinesFit(text1, text2) && i <= j <= |text1| && k <= l <= |text2|
    ensures LinesFit(text1[i..j], text2[k..l])
  {
    var a, b := text1[i..j], text2[k..l];
    forall i', j', k', l' | 0 <= i' <= j' <= |a| && 0 <= k' <= l' <= |b| && j' - i' > 100 && l' - k' > 100
      ensures TableFits(a[i'..j'], b[k'..l'])
    {
      PartOfPart(text1, i, j, i', j');
      PartOfPart(text2, k, l, k', l');
    }
  }

  lemma PartsFit(a: string, b: string, c: string, d: string, e: string, f: string)
    requires LinesFit(a + b + c, d + e + f)
    ensures LinesFit(a, d) && LinesFit(b, e) && LinesFit(c, f)
  {
    hide LinesFit;
    Pieces(a, b, c);
    Pieces(d, e, f);
    var t, u := a + b + c, d + e + f;
    PartFits(t, u, 0, |a|, 0, |d|);
    PartFits(t, u, |a|, |a| + |b|, |d|, |d| + |e|);
    PartFits(t, u, |a| + |b|, |t|, |d| + |e|, |u|);
  }

  lemma Pieces(a: string, b: string, c: string)
    ensures var t := a + b + c; a == t[0..|a|] && b == t[|a|..|a| + |b|] && c == t[|a| + |b|..|t|]
  {
  }

  lemma WholeFits(text1: string, text2: string)
    requires LinesFit(text1, text2) && |text1| > 100 && |text2| > 100
    ensures TableFits(text1, text2)
  {
    assert text1[0..|text1|] == text1 && text2[0..|text2|] == text2;
  }

  // A line begins here.
  predicate IsStart(t: string, q: nat) {
    q == 0 || (q <= |t| && t[q - 1] == '\n')
  }

  lemma {:induction false} LineAtStart(t: string, off: nat, q: nat)
    requires off <= q < |t| && IsStart(t, q)
    ensures t[q..q + LineLength(t, q)] in LinesFrom(t, off)
    decreases |t| - off
  {
    if off < q {
      LineAtStart(t, off + LineLength(t, off), q);
    }
  }

  /** Behind a line's beginning a part has no lines of its own but, perhaps, one that is cut off. */
  lemma {:induction false} PartLines(t: string, i: nat, j: nat, p: nat) returns (cut: string)
    requires i + p <= j <= |t| && IsStart(t, i + p)
    ensures LinesFrom(t[i..j], p) <= LinesOf(t) + {cut}
    decreases j - i - p
  {
    hide TokenLength, LineLength;
    cut := "";
    var s := t[i..j];
    if p < |s| {
      var n := LineLength(s, p);
      SameLine(t, i, j, p);
      if s[p + n - 1] == '\n' {
        LineAtStart(t, 0, i + p);
        assert t[i + (p + n) - 1] == s[p + n - 1];
        cut := PartLines(t, i, j, p + n);
        OneLineMore(s, p, n, LinesOf(t) + {cut});
      } else {
        cut := s[p..p + n];
        OneLineMore(s, p, n, LinesOf(t) + {cut});
      }
    }
  }

  lemma OneLineMore(s: string, p: nat, n: nat, all: set<string>)
    requires p < |s| && n == LineLength(s, p) && s[p..p + n] in all && LinesFrom(s, p + n) <= all
    ensures LinesFrom(s, p) <= all
  {
  }

  // A whole line of a part is a line of the text.
  lemma SameLine(t: string, i: nat, j: nat, p: nat)
    requires i + p < j <= |t|
    ensures var s := t[i..j]; var n := LineLength(s, p);
            if s[p + n - 1] == '\n' then LineLength(t, i + p) == n && t[i + p..i + p + n] == s[p..p + n] else p + n == |s|
  {
    var s := t[i..j];
    var n := LineLength(s, p);
    if s[p + n - 1] == '\n' {
      forall q | i + p <= q < i + p + n - 1 ensures t[q] != '\n' {
        assert t[q] == s[q - i];
      }
      assert t[i + p + n - 1] == s[p + n - 1];
      FirstNewline(t, i + p, n - 1);
      PartOfPart(t, i, j, p, p + n);
    }
  }

  lemma {:induction false} FirstNewline(t: string, off: nat, n: nat)
    requires off + n < |t| && t[off + n] == '\n' && forall q :: off <= q < off + n ==> t[q] != '\n'
    ensures TokenLength(t, '\n', off) == n
    decreases n
  {
    if n > 0 {
      FirstNewline(t, off + 1, n - 1);
    }
  }

  /** A part has at most two lines that the text has not: the first and the last may be cut. */
  lemma CutLines(t: string, i: nat, j: nat) returns (first: string, last: string)
    requires i <= j <= |t|
    ensures LinesOf(t[i..j]) <= LinesOf(t) + {first, last}
  {
    first, last := "", "";
    var s := t[i..j];
    if s != "" {
      var n := LineLength(s, 0);
      first := s[0..n];
      if s[n - 1] == '\n' {
        last := PartLines(t, i, j, n);
      } else {
        SameLine(t, i, j, 0);
        assert LinesFrom(s, n) == {};
      }
    }
  }

  lemma SubsetSize<T>(a: set<T>, b: set<T>)
    requires a <= b
    ensures |a| <= |b|
  {
    assert b == a + (b - a);
  }

  /** It is enough that all lines can be numbered with room for four that are cut off. */
  lemma FewLines(text1: string, text2: string)
    requires |LinesOf(text1) + LinesOf(text2)| + 5 <= LINE_LIMIT
    ensures LinesFit(text1, text2)
  {
    forall i, j, k, l | 0 <= i <= j <= |text1| && 0 <= k <= l <= |text2| && j - i > 100 && l - k > 100
      ensures TableFits(text1[i..j], text2[k..l])
    {
      var a, b := CutLines(text1, i, j);
      var c, d := CutLines(text2, k, l);
      FourMore(LinesOf(text1) + LinesOf(text2), LinesOf(text1[i..j]) + LinesOf(text2[k..l]), a, b, c, d);
    }
  }

  lemma FourMore<T>(all: set<T>, some: set<T>, a: T, b: T, c: T, d: T)
    requires some <= all + {a, b, c, d}
    ensures |some| <= |all| + 4
  {
    SubsetSize(some, all + {a, b, c, d});
    assert all + {a, b, c, d} == all + {a} + {b} + {c} + {d};
  }

  /** Short texts always fit. */
  lemma ShortFits(text1: string, text2: string)
    requires |text1| <= 100 || |text2| <= 100
    ensures LinesFit(text1, text2)
  {
  }

  predicate Numbered(chars: string, lines: seq<string>) {
    forall i :: 0 <= i < |chars| ==> (chars[i] as int) < |lines|
  }

  /** What a string of line numbers stands for. */
  function Hydrate(chars: string, lines: seq<string>): string
    requires Numbered(chars, lines)
  {
    if |chars| == 0 then "" else lines[chars[0] as int] + Hydrate(chars[1..], lines)
  }

  lemma {:induction false} HydrateAppend(a: string, b: string, lines: seq<string>)
    requires Numbered(a, lines) && Numbered(b, lines)
    ensures Numbered(a + b, lines) && Hydrate(a + b, lines) == Hydrate(a, lines) + Hydrate(b, lines)
  {
    if |a| == 0 {
      assert a + b == b;
    } else {
      assert (a + b)[1..] == a[1..] + b;
      HydrateAppend(a[1..], b, lines);
    }
  }

  lemma {:induction false} HydrateGrow(a: string, lines: seq<string>, more: seq<string>)
    requires Numbered(a, lines)
    ensures Numbered(a, lines + more) && Hydrate(a, lines + more) == Hydrate(a, lines)
  {
    if |a| > 0 {
      HydrateGrow(a[1..], lines, more);
    }
  }

  lemma HydrateOne(c: char, lines: seq<string>)
    requires (c as int) < |lines|
    ensures Numbered([c], lines) && Hydrate([c], lines) == lines[c as int]
  {
    assert [c][1..] == "";
  }

  /** The position of a line in the table, which starts with an unused entry. */
  function IndexOf(lines: seq<string>, line: string, from: nat): (n: nat)
    requires from <= |lines|
    ensures from <= n <= |lines| && (n < |lines| ==> lines[n] == line)
    decreases |lines| - from
  {
    if from == |lines| || lines[from] == line then from else IndexOf(lines, line, from + 1)
  }

  // The lines in the table.
  ghost function Entries(lines: seq<string>): set<string> {
    set i | 1 <= i < |lines| :: lines[i]
  }

  /** No line is in the table twice. */
  ghost predicate Unique(lines: seq<string>) {
    |lines| >= 1 && forall i, j :: 1 <= i < j < |lines| ==> lines[i] != lines[j]
  }

  lemma {:induction false} TableSize(lines: seq<string>)
    requires Unique(lines)
    ensures |lines| == 1 + |Entries(lines)|
    decreases |lines|
  {
    var n := |lines| - 1;
    if n == 0 {
      assert Entries(lines) == {};
    } else {
      TableSize(lines[..n]);
      LastEntry(lines, n);
    }
  }

  lemma LastEntry(lines: seq<string>, n: nat)
    requires Unique(lines) && 0 < n == |lines| - 1
    ensures Unique(lines[..n]) && Entries(lines) == Entries(lines[..n]) + {lines[n]} && lines[n] !in Entries(lines[..n])
  {
    forall x | x in Entries(lines) ensures x in Entries(lines[..n]) + {lines[n]} {
      var i :| 1 <= i < |lines| && lines[i] == x;
      if i < n {
        assert lines[..n][i] == x;
      }
    }
    forall x | x in Entries(lines[..n]) + {lines[n]} ensures x in Entries(lines) {
      if x == lines[n] {
        assert lines[n] in Entries(lines);
      } else {
        var i :| 1 <= i < n && lines[..n][i] == x;
        assert lines[i] in Entries(lines);
      }
    }
  }

  /** The number of a line, which is added to the table if it is new. */
  method NumberOf(line: string, lines0: seq<string>) returns (n: nat, lines: seq<string>)
    requires Unique(lines0)
    ensures Unique(lines) && Entries(lines) == Entries(lines0) + {line}
    ensures lines == lines0 || lines == lines0 + [line]
    ensures 1 <= n < |lines| && lines[n] == line
  {
    n := IndexOf(lines0, line, 1);
    lines := if n < |lines0| then lines0 else lines0 + [line];
    AddEntry(lines0, line, n, lines);
  }

  lemma AddEntry(lines0: seq<string>, line: string, n: nat, lines: seq<string>)
    requires Unique(lines0) && n == IndexOf(lines0, line, 1) && lines == if n < |lines0| then lines0 else lines0 + [line]
    ensures Unique(lines) && Entries(lines) == Entries(lines0) + {line}
  {
    if n < |lines0| {
      assert lines0[n] in Entries(lines0);
    } else {
      AbsentLine(lines0, line, 1);
      forall x ensures x in Entries(lines) <==> x in Entries(lines0) + {line} {
        if x == line {
          assert lines[|lines0|] in Entries(lines);
        } else if x in Entries(lines0) {
          var i :| 1 <= i < |lines0| && lines0[i] == x;
          assert lines[i] in Entries(lines);
        }
      }
    }
  }

  lemma {:induction false} AbsentLine(lines: seq<string>, line: string, from: nat)
    requires from <= |lines| && IndexOf(lines, line, from) == |lines|
    ensures forall i :: from <= i < |lines| ==> lines[i] != line
    decreases |lines| - from
  {
    if from < |lines| && lines[from] != line {
      AbsentLine(lines, line, from + 1);
    }
  }

  /** diff_linesToCharsMunge: the text as the numbers of its lines, and the table with its new lines. */
  method Munge(text: string, lines0: seq<string>) returns (chars: string, lines: seq<string>)
    requires Unique(lines0) && 1 + |Entries(lines0) + LinesOf(text)| <= LINE_LIMIT
    ensures lines0 <= lines && Unique(lines) && Entries(lines) == Entries(lines0) + LinesOf(text)
    ensures Numbered(chars, lines) && Hydrate(chars, lines) == text && |chars| == LineCount(text, 0)
  {
    chars, lines := "", lines0;
    var start := 0;
    assert text[..0] == "";
    while start < |text|
      invariant 0 <= start <= |text| && lines0 <= lines && Unique(lines)
      invariant Entries(lines) + LinesFrom(text, start) == Entries(lines0) + LinesOf(text)
      invariant Numbered(chars, lines) && Hydrate(chars, lines) == text[..start]
      invariant |chars| + LineCount(text, start) == LineCount(text, 0)
    {
      chars, lines, start := MungeLine(text, chars, lines, start);
    }
    assert text[..start] == text;
  }

  method MungeLine(text: string, chars0: string, lines0: seq<string>, start: nat)
    returns (chars: string, lines: seq<string>, next: nat)
    requires start < |text| && Unique(lines0) && 1 + |Entries(lines0) + LinesFrom(text, start)| <= LINE_LIMIT
    requires Numbered(chars0, lines0) && Hydrate(chars0, lines0) == text[..start]
    ensures lines0 <= lines && start < next <= |text| && Unique(lines)
    ensures Entries(lines) + LinesFrom(text, next) == Entries(lines0) + LinesFrom(text, start)
    ensures Numbered(chars, lines) && Hydrate(chars, lines) == text[..next]
    ensures |chars| + LineCount(text, next) == |chars0| + LineCount(text, start)
  {
    hide TokenLength, LinesFrom, Entries, Unique, Numbered, Hydrate;
    var n := NextToken(text, '\n', start);
    if start + n == |text| {
      n := n - 1;
    }
    next := start + n + 1;
    var line := text[start..next];
    var number;
    number, lines := NumberOf(line, lines0);
    TableSize(lines);
    OneLineEntry(text, start, next - start, line, Entries(lines0), Entries(lines));
    chars := chars0 + [number as char];
    HydrateNumber(chars0, lines0, number, lines);
    assert text[..next] == text[..start] + line;
  }

  lemma OneLineEntry(text: string, start: nat, n: nat, line: string, before: set<string>, after: set<string>)
    requires start < |text| && n == LineLength(text, start) && line == text[start..start + n]
    requires after == before + {line}
    ensures after + LinesFrom(text, start + n) == before + LinesFrom(text, start)
    ensures |after| <= |before + LinesFrom(text, start)|
  {
    SubsetSize(after, before + LinesFrom(text, start));
  }

  lemma HydrateNumber(chars0: string, lines0: seq<string>, number: nat, lines: seq<string>)
    requires Numbered(chars0, lines0) && number < |lines| <= LINE_LIMIT && lines0 <= lines
    ensures var chars := chars0 + [number as char];
            Numbered(chars, lines) && Hydrate(chars, lines) == Hydrate(chars0, lines0) + lines[number]
  {
    HydrateGrow(chars0, lines0, lines[|lines0|..]);
    assert lines == lines0 + lines[|lines0|..];
    HydrateOne(number as char, lines);
    HydrateAppend(chars0, [number as char], lines);
  }

  /** diff_linesToChars: the table has each line of the two texts once, behind the unused entry. */
  method LinesToChars(text1: string, text2: string) returns (chars1: string, chars2: string, lines: seq<string>)
    requires TableFits(text1, text2)
    ensures Unique(lines) && |lines| == 1 + |LinesOf(text1) + LinesOf(text2)|
    ensures Numbered(chars1, lines) && Hydrate(chars1, lines) == text1 && |chars1| == LineCount(text1, 0)
    ensures Numbered(chars2, lines) && Hydrate(chars2, lines) == text2 && |chars2| == LineCount(text2, 0)
  {
    var lines1;
    assert Entries([""]) == {} && {} + LinesOf(text1) == LinesOf(text1);
    SubsetSize(LinesOf(text1), LinesOf(text1) + LinesOf(text2));
    chars1, lines1 := Munge(text1, [""]);
    chars2, lines := Munge(text2, lines1);
    TableSize(lines);
    HydrateGrow(chars1, lines1, lines[|lines1|..]);
    assert lines == lines1 + lines[|lines1|..];
  }

  predicate AllNumbered(ds: seq<Diff>, lines: seq<string>) {
    forall i :: 0 <= i < |ds| ==> Numbered(ds[i].text, lines)
  }

  function HydrateAll(ds: seq<Diff>, lines: seq<string>): (r: seq<Diff>)
    requires AllNumbered(ds, lines)
    ensures |r| == |ds|
  {
    if |ds| == 0 then [] else [Diff(ds[0].op, Hydrate(ds[0].text, lines))] + HydrateAll(ds[1..], lines)
  }

  lemma {:induction false} HydrateTexts(ds: seq<Diff>, lines: seq<string>)
    requires AllNumbered(ds, lines)
    ensures Numbered(Text1(ds), lines) && Text1(HydrateAll(ds, lines)) == Hydrate(Text1(ds), lines)
    ensures Numbered(Text2(ds), lines) && Text2(HydrateAll(ds, lines)) == Hydrate(Text2(ds), lines)
  {
    if |ds| > 0 {
      HydrateTexts(ds[1..], lines);
      HydrateAppend(Part1(ds[0]), Text1(ds[1..]), lines);
      HydrateAppend(Part2(ds[0]), Text2(ds[1..]), lines);
      assert HydrateAll(ds, lines)[1..] == HydrateAll(ds[1..], lines);
    }
  }

  /** Every text of a diff is part of one of the two texts. */
  lemma {:induction false} TextsNumbered(ds: seq<Diff>, lines: seq<string>)
    requires Numbered(Text1(ds), lines) && Numbered(Text2(ds), lines)
    ensures AllNumbered(ds, lines)
  {
    if |ds| > 0 {
      SuffixNumbered(Part1(ds[0]), Text1(ds[1..]), lines);
      SuffixNumbered(Part2(ds[0]), Text2(ds[1..]), lines);
      TextsNumbered(ds[1..], lines);
      forall i | 0 <= i < |ds|
        ensures Numbered(ds[i].text, lines)
      {
        if i > 0 {
          assert ds[i] == ds[1..][i - 1];
        }
      }
    }
  }

  lemma SuffixNumbered(a: string, b: string, lines: seq<string>)
    requires Numbered(a + b, lines)
    ensures Numbered(a, lines) && Numbered(b, lines)
  {
    forall i | 0 <= i < |b|
      ensures (b[i] as int) < |lines|
    {
      assert b[i] == (a + b)[|a| + i];
    }
    forall i | 0 <= i < |a|
      ensures (a[i] as int) < |lines|
    {
      assert a[i] == (a + b)[i];
    }
  }

  /** diff_charsToLines */
  method CharsToLines(d: DiffList, lines: seq<string>)
    requires AllNumbered(d.items, lines)
    modifies d
    ensures d.items == old(HydrateAll(d.items, lines))
  {
    ghost var D := d.items;
    var i := 0;
    while i < |d.items|
      invariant 0 <= i <= |d.items| == |D|
      invariant d.items[i..] == D[i..] && d.items[..i] + HydrateAll(D[i..], lines) == HydrateAll(D, lines)
    {
      assert d.items[i] == d.items[i..][0] == D[i];
      assert D[i..][1..] == D[i + 1..];
      var text := HydrateText(d.items[i].text, lines);
      ghost var before := d.items;
      d.items := d.items[i := Diff(d.items[i].op, text)];
      assert d.items[..i + 1] == before[..i] + [Diff(D[i].op, text)];
      assert d.items[i + 1..] == before[i..][1..];
      i := i + 1;
    }
    assert d.items[..i] == d.items;
  }

  method HydrateText(chars: string, lines: seq<string>) returns (text: string)
    requires Numbered(chars, lines)
    ensures text == Hydrate(chars, lines)
  {
    text := "";
    var y := 0;
    assert chars[..0] == "";
    while y < |chars|
      invariant 0 <= y <= |chars| && Numbered(chars[..y], lines) && text == Hydrate(chars[..y], lines)
    {
      HydrateOne(chars[y], lines);
      HydrateAppend(chars[..y], [chars[y]], lines);
      assert chars[..y + 1] == chars[..y] + [chars[y]];
      text := text + lines[chars[y] as int];
      y := y + 1;
    }
    assert chars[..y] == chars;
  }
}
