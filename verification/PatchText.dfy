/** The textual forms of patches and of deltas. */
module PatchText {
  import opened Strings
  import opened Diffs
  import opened Patches
  import opened PercentCodec
  import opened Tokenizing

  // The coordinates of a patch header: start,length with the length left out when it is 1.
  function Coords(start: int, length: int): string {
    if length == 0 then Decimal(start) + ",0"
    else if length == 1 then Decimal(start + 1)
    else Decimal(start + 1) + "," + Decimal(length)
  }

  function Header(p: Patch): string {
    "@@ -" + Coords(p.start1, p.length1) + " +" + Coords(p.start2, p.length2) + " @@"
  }

  function Sign(op: Operation): char {
    match op case INSERT => '+' case DELETE => '-' case EQUAL => ' '
  }

  function Line(d: Diff): string
  {
    [Sign(d.op)] + Encode(d.text)
  }

  predicate SevenBitDiffs(ds: seq<Diff>) {
    forall i :: 0 <= i < |ds| ==> SevenBit(ds[i].text)
  }

  function Body(ds: seq<Diff>): string
  {
    if |ds| == 0 then "" else Line(ds[0]) + "\n" + Body(ds[1..])
  }

  // Patch.toString
  function PatchString(p: Patch): string
  {
    Header(p) + "\n" + Body(p.diffs)
  }

  /** A patch as it is printed: the header counts from one, and each line has its sign. */
  lemma PrintedPatch()
    ensures PatchString(Patch([Diff(EQUAL, "a b"), Diff(DELETE, "%\n"), Diff(INSERT, "d")], 381, 480, 5, 4)) ==
            "@@ -382,5 +481,4 @@\n a b\n-%25%0A\n+d\n"
  {
    hide Body, Header, Line;
    var a, b, c := Diff(EQUAL, "a b"), Diff(DELETE, "%\n"), Diff(INSERT, "d");
    PrintedHeader([a, b, c]);
    PrintedLines();
    ThreeLines(a, b, c, " a b", "-%25%0A", "+d");
    assert "@@ -382,5 +481,4 @@" + "\n" + (" a b" + "\n" + ("-%25%0A" + "\n" + ("+d" + "\n"))) ==
           "@@ -382,5 +481,4 @@\n a b\n-%25%0A\n+d\n";
  }

  lemma PrintedHeader(ds: seq<Diff>)
    ensures Header(Patch(ds, 381, 480, 5, 4)) == "@@ -382,5 +481,4 @@"
  {
    hide Decimal;
    PrintedNumbers();
  }

  lemma PrintedLines()
    ensures Line(Diff(EQUAL, "a b")) == " a b" && Line(Diff(DELETE, "%\n")) == "-%25%0A"
    ensures Line(Diff(INSERT, "d")) == "+d"
  {
    hide Encode;
    SafeText("a b");
    SafeText("d");
    EscapedPercent();
  }

  lemma ThreeLines(a: Diff, b: Diff, c: Diff, s: string, t: string, u: string)
    requires Line(a) == s && Line(b) == t && Line(c) == u
    ensures Body([a, b, c]) == s + "\n" + (t + "\n" + (u + "\n"))
  {
    hide Line;
    assert [a, b, c][1..] == [b, c] && [b, c][1..] == [c] && [c][1..] == [];
    assert Body([c]) == u + "\n" + "" == u + "\n";
    assert Body([b, c]) == t + "\n" + Body([c]);
  }

  lemma PrintedNumbers()
    ensures Decimal(382) == "382" && Decimal(5) == "5" && Decimal(481) == "481" && Decimal(4) == "4"
  {
    assert Digits(38) == Digits(3) + "8" && Digits(48) == Digits(4) + "8";
    assert Digits(382) == Digits(38) + "2" && Digits(481) == Digits(48) + "1";
  }

  lemma EscapedPercent()
    ensures Encode("%\n") == "%25%0A"
  {
    LowChar('%');
    LowChar('\n');
    assert "%\n"[1..] == "\n" && "\n"[1..] == "";
    assert Encode("\n") == "%0A" + "";
  }

  predicate SevenBitPatches(ps: seq<Patch>) {
    forall i :: 0 <= i < |ps| ==> SevenBitDiffs(ps[i].diffs)
  }

  // patch_toText
  function PatchesText(ps: seq<Patch>): string
  {
    if |ps| == 0 then "" else PatchString(ps[0]) + PatchesText(ps[1..])
  }

  /** Patch.toString */
  method ToString(p: Patch) returns (text: string)
    ensures text == PatchString(p)
  {
    var coords1 := Coordinates(p.start1, p.length1);
    var coords2 := Coordinates(p.start2, p.length2);
    text := "@@ -" + coords1 + " +" + coords2 + " @@\n";
    HeaderText(p, coords1, coords2);
    ghost var header := text;
    var i := 0;
    assert p.diffs[..0] == [] && header + "" == header;
    while i < |p.diffs|
      invariant 0 <= i <= |p.diffs| && text == header + Body(p.diffs[..i])
    {
      TakeNext(p.diffs, i);
      text := AppendLine(text, p.diffs[i], header, p.diffs[..i]);
      i := i + 1;
    }
    assert p.diffs[..i] == p.diffs;
  }

  lemma HeaderText(p: Patch, c1: string, c2: string)
    requires c1 == Coords(p.start1, p.length1) && c2 == Coords(p.start2, p.length2)
    ensures "@@ -" + c1 + " +" + c2 + " @@\n" == Header(p) + "\n"
  {
    assert " @@\n" == " @@" + "\n";
  }

  method AppendLine(text0: string, d: Diff, ghost header: string, ghost ds: seq<Diff>) returns (text: string)
    requires text0 == header + Body(ds)
    ensures text == header + Body(ds + [d])
  {
    text := text0 + [Sign(d.op)];
    text := AppendPercentEncoded(text, d.text);
    text := text + "\n";
    BodyAppend(ds, d);
    LineParts(header, Body(ds), [Sign(d.op)], Encode(d.text));
  }

  lemma LineParts(h: string, b: string, s: string, e: string)
    ensures h + b + s + e + "\n" == h + (b + (s + e + "\n"))
  {
  }

  lemma {:induction false} BodyAppend(ds: seq<Diff>, d: Diff)
    ensures Body(ds + [d]) == Body(ds) + (Line(d) + "\n")
  {
    if |ds| == 0 {
      assert ds + [d] == [d] && [d][1..] == [];
      assert Line(d) + "\n" + "" == "" + (Line(d) + "\n");
    } else {
      assert (ds + [d])[1..] == ds[1..] + [d];
      BodyAppend(ds[1..], d);
      Assoc(Line(ds[0]) + "\n", Body(ds[1..]), Line(d) + "\n");
    }
  }

  method Coordinates(start: int, length: int) returns (coords: string)
    ensures coords == Coords(start, length)
  {
    if length == 0 {
      coords := PercentCodec.ToString(start);
      coords := coords + ",0";
    } else if length == 1 {
      coords := PercentCodec.ToString(start + 1);
    } else {
      coords := PercentCodec.ToString(start + 1);
      var n := PercentCodec.ToString(length);
      coords := coords + "," + n;
    }
  }

  /** patch_toText */
  method ToText(ps: seq<Patch>) returns (text: string)
    ensures text == PatchesText(ps)
  {
    text := "";
    var i := 0;
    ghost var done: seq<Patch> := [];
    while i < |ps|
      invariant 0 <= i <= |ps| && done == ps[..i] && text == PatchesText(done)
    {
      TakeNext(ps, i);
      text, done := AppendPatch(text, ps[i], done);
      i := i + 1;
    }
    assert ps[..i] == ps;
  }

  lemma TakeNext<T>(ps: seq<T>, i: nat)
    requires i < |ps|
    ensures ps[..i + 1] == ps[..i] + [ps[i]]
  {
  }

  method AppendPatch(text0: string, p: Patch, ghost ps: seq<Patch>) returns (text: string, ghost qs: seq<Patch>)
    requires text0 == PatchesText(ps)
    ensures qs == ps + [p] && text == PatchesText(qs)
  {
    qs := ps + [p];
    var one := ToString(p);
    PatchesAppend(ps, p);
    text := text0 + one;
  }

  lemma {:induction false} PatchesAppend(ps: seq<Patch>, p: Patch)
    ensures PatchesText(ps + [p]) == PatchesText(ps) + PatchString(p)
  {
    if |ps| == 0 {
      assert ps + [p] == [p] && [p][1..] == [];
      assert PatchString(p) + "" == "" + PatchString(p);
    } else {
      assert (ps + [p])[1..] == ps[1..] + [p];
      PatchesAppend(ps[1..], p);
      Assoc(PatchString(ps[0]), PatchesText(ps[1..]), PatchString(p));
    }
  }

  // The digits a string begins with.
  function DigitRun(s: string): (n: nat)
    ensures n <= |s| && forall i :: 0 <= i < n ==> IsDigit(s[i])
    ensures n < |s| ==> !IsDigit(s[n])
  {
    if |s| == 0 || !IsDigit(s[0]) then 0 else 1 + DigitRun(s[1..])
  }

  // digits ,? digits*, and what follows; the first digits may not be missing
  datatype Pair = NoPair | Pair(start: string, length: string, rest: string)

  function ParsePair(s: string): Pair {
    var n := DigitRun(s);
    if n == 0 then NoPair
    else
      var t := if n < |s| && s[n] == ',' then s[n + 1..] else s[n..];
      var m := DigitRun(t);
      Pair(s[..n], t[..m], t[m..])
  }

  // start and length from their digits
  function PairStart(p: Pair): int
    requires p.Pair?
  {
    if p.length == "0" then ToInt(p.start) else ToInt(p.start) - 1
  }

  function PairLength(p: Pair): int
    requires p.Pair?
  {
    if p.length == "" then 1 else if p.length == "0" then 0 else ToInt(p.length)
  }

  // @@ -start,length +start,length @@
  function ParseHeader(s: string): Result<Patch> {
    if |s| < 4 || s[0] != '@' || s[1] != '@' || s[2] != ' ' || s[3] != '-' then Err
    else
      var p := ParsePair(s[4..]);
      if p.NoPair? || |p.rest| < 2 || p.rest[0] != ' ' || p.rest[1] != '+' then Err
      else
        var q := ParsePair(p.rest[2..]);
        if q.NoPair? || |q.rest| != 3 || q.rest[0] != ' ' || q.rest[1] != '@' || q.rest[2] != '@' then Err
        else Ok(Patch([], PairStart(p), PairStart(q), PairLength(p), PairLength(q)))
  }

  lemma {:induction false} RunOfDigits(d: string, rest: string)
    requires forall i :: 0 <= i < |d| ==> IsDigit(d[i])
    requires |rest| == 0 || !IsDigit(rest[0])
    ensures DigitRun(d + rest) == |d|
  {
    if |d| == 0 {
      assert d + rest == rest;
    } else {
      assert (d + rest)[1..] == d[1..] + rest;
      RunOfDigits(d[1..], rest);
    }
  }

  lemma PlainPair(d: string, rest: string)
    requires |d| > 0 && forall i :: 0 <= i < |d| ==> IsDigit(d[i])
    requires |rest| > 0 && !IsDigit(rest[0]) && rest[0] != ','
    ensures ParsePair(d + rest) == Pair(d, "", rest)
  {
    RunOfDigits(d, rest);
    var s := d + rest;
    assert s[..|d|] == d && s[|d|..] == rest && s[|d|] == rest[0];
    assert rest[..0] == "" && rest[0..] == rest;
  }

  lemma CommaPair(d: string, e: string, rest: string)
    requires |d| > 0 && forall i :: 0 <= i < |d| ==> IsDigit(d[i])
    requires forall i :: 0 <= i < |e| ==> IsDigit(e[i])
    requires |rest| > 0 && !IsDigit(rest[0])
    ensures ParsePair(d + "," + e + rest) == Pair(d, e, rest)
  {
    RunOfDigits(d, "," + (e + rest));
    RunOfDigits(e, rest);
    CommaParts(d, e, rest);
  }

  lemma CommaParts(d: string, e: string, rest: string)
    ensures var s := d + "," + e + rest;
            s == d + ("," + (e + rest)) && s[..|d|] == d && s[|d|] == ',' && s[|d| + 1..] == e + rest
    ensures (e + rest)[..|e|] == e && (e + rest)[|e|..] == rest
  {
  }

  /** Coordinates read back. */
  lemma CoordsRoundTrip(start: nat, length: nat, rest: string)
    requires |rest| > 0 && !IsDigit(rest[0]) && rest[0] != ','
    ensures var p := ParsePair(Coords(start, length) + rest);
            p.Pair? && p.rest == rest && PairStart(p) == start && PairLength(p) == length
  {
    DecimalRoundTrip(start);
    DecimalRoundTrip(start + 1);
    DecimalRoundTrip(length);
    if length == 0 {
      assert Decimal(start) + ",0" + rest == Digits(start) + "," + "0" + rest;
      CommaPair(Digits(start), "0", rest);
    } else if length == 1 {
      PlainPair(Digits(start + 1), rest);
    } else {
      LongDigits(length);
      CommaPair(Digits(start + 1), Digits(length), rest);
    }
  }

  lemma LongDigits(n: nat)
    requires n > 0
    ensures Digits(n) != "0" && Digits(n) != ""
  {
    DigitsRoundTrip(n);
    ZeroDigits();
  }

  lemma ZeroDigits()
    ensures ReadDigits("0", 0) == 0
  {
    assert "0"[1..] == "";
  }

  predicate Natural(p: Patch) {
    p.start1 >= 0 && p.start2 >= 0 && p.length1 >= 0 && p.length2 >= 0
  }

  /** A header reads back. */
  lemma HeaderRoundTrip(p: Patch)
    requires Natural(p)
    ensures ParseHeader(Header(p)) == Ok(p.(diffs := []))
  {
    var c1, c2 := Coords(p.start1, p.length1), Coords(p.start2, p.length2);
    var tail := " +" + (c2 + " @@");
    CoordsRoundTrip(p.start1, p.length1, tail);
    CoordsRoundTrip(p.start2, p.length2, " @@");
    HeaderShape(c1, c2);
    HeaderParts(c1 + tail, c2 + " @@");
  }

  lemma HeaderParts(a: string, b: string)
    ensures var s := "@@ -" + a; s[0] == '@' && s[1] == '@' && s[2] == ' ' && s[3] == '-' && s[4..] == a
    ensures var t := " +" + b; t[0] == ' ' && t[1] == '+' && t[2..] == b
  {
  }

  lemma HeaderShape(c1: string, c2: string)
    ensures "@@ -" + c1 + " +" + c2 + " @@" == "@@ -" + (c1 + (" +" + (c2 + " @@")))
  {
  }

  // The diffs of one patch, and the lines from the next header on.
  datatype BodyAndRest = BodyAndRest(diffs: seq<Diff>, rest: seq<string>)

  function ConsDiffs(ds: seq<Diff>, r: Result<BodyAndRest>): Result<BodyAndRest> {
    if r.Err? then Err else Ok(BodyAndRest(ds + r.value.diffs, r.value.rest))
  }

  // The diff in a line, or that it is none.
  datatype BodyLine = Entry(diff: Diff) | NextHeader | Malformed

  function ReadLine(line: string): BodyLine
    requires line != ""
  {
    var text := Decode(line[1..]);
    if text.Err? then Malformed
    else if line[0] == '@' then NextHeader
    else if line[0] == '-' then Entry(Diff(DELETE, text.value))
    else if line[0] == '+' then Entry(Diff(INSERT, text.value))
    else if line[0] == ' ' then Entry(Diff(EQUAL, text.value))
    else Malformed
  }

  function ParseBody(lines: seq<string>): (r: Result<BodyAndRest>)
    ensures r.Ok? ==> |r.value.rest| <= |lines|
  {
    if |lines| == 0 then Ok(BodyAndRest([], []))
    else if lines[0] == "" then ParseBody(lines[1..])
    else
      match ReadLine(lines[0])
      case Entry(d) => ConsDiffs([d], ParseBody(lines[1..]))
      case NextHeader => Ok(BodyAndRest([], lines))
      case Malformed => Err
  }

  // patch_fromText on the lines of the text
  function ParseLines(lines: seq<string>): Result<seq<Patch>>
    decreases |lines|
  {
    if |lines| == 0 then Ok([])
    else if lines[0] == "" then ParseLines(lines[1..])
    else
      var header := ParseHeader(lines[0]);
      if header.Err? then Err
      else
        var body := ParseBody(lines[1..]);
        if body.Err? then Err
        else
          var more := ParseLines(body.value.rest);
          if more.Err? then Err else Ok([header.value.(diffs := body.value.diffs)] + more.value)
  }

  function BodyLines(ds: seq<Diff>): seq<string>
  {
    if |ds| == 0 then [] else [Line(ds[0])] + BodyLines(ds[1..])
  }

  function AllLines(ps: seq<Patch>): seq<string>
  {
    if |ps| == 0 then [] else [Header(ps[0])] + BodyLines(ps[0].diffs) + AllLines(ps[1..])
  }

  // What is read back of a diff and of patches: their 7-bit characters.
  function ReadBack(d: Diff): Diff {
    d.(text := Surviving(d.text))
  }

  function AllReadBack(ds: seq<Diff>): seq<Diff> {
    if |ds| == 0 then [] else [ReadBack(ds[0])] + AllReadBack(ds[1..])
  }

  function PatchesReadBack(ps: seq<Patch>): seq<Patch> {
    if |ps| == 0 then [] else [ps[0].(diffs := AllReadBack(ps[0].diffs))] + PatchesReadBack(ps[1..])
  }

  lemma {:induction false} DiffsReadBack(ds: seq<Diff>)
    ensures AllReadBack(ds) == ds <==> SevenBitDiffs(ds)
  {
    if |ds| > 0 {
      DiffsReadBack(ds[1..]);
      SurvivingSevenBit(ds[0].text);
      FirstAndRest(ds);
      assert AllReadBack(ds)[1..] == AllReadBack(ds[1..]);
      if SevenBitDiffs(ds[1..]) && SevenBit(ds[0].text) {
        assert forall i :: 0 < i < |ds| ==> ds[i] == ds[1..][i - 1];
      }
    }
  }

  lemma {:induction false} AllPatchesReadBack(ps: seq<Patch>)
    ensures PatchesReadBack(ps) == ps <==> SevenBitPatches(ps)
  {
    if |ps| > 0 {
      AllPatchesReadBack(ps[1..]);
      DiffsReadBack(ps[0].diffs);
      FirstAndRest(ps);
      assert PatchesReadBack(ps)[1..] == PatchesReadBack(ps[1..]);
      if SevenBitPatches(ps[1..]) && SevenBitDiffs(ps[0].diffs) {
        assert forall i :: 0 < i < |ps| ==> ps[i] == ps[1..][i - 1];
      }
    }
  }

  /** One line of a body reads back. */
  lemma LineRoundTrip(d: Diff, tail: seq<string>, ds: seq<Diff>, rest: seq<string>)
    requires ParseBody(tail) == Ok(BodyAndRest(ds, rest))
    ensures ParseBody([Line(d)] + tail) == Ok(BodyAndRest([ReadBack(d)] + ds, rest))
  {
    LineReads(d);
    assert ([Line(d)] + tail)[1..] == tail;
  }

  lemma LineReads(d: Diff)
    ensures Line(d) != "" && ReadLine(Line(d)) == Entry(ReadBack(d))
  {
    PercentRoundTrip(d.text);
    assert Line(d)[1..] == Encode(d.text);
  }

  lemma {:induction false} BodyRoundTrip(ds: seq<Diff>, rest: seq<string>)
    requires ParseBody(rest) == Ok(BodyAndRest([], rest))
    ensures ParseBody(BodyLines(ds) + rest) == Ok(BodyAndRest(AllReadBack(ds), rest))
  {
    if |ds| == 0 {
      NoLines(rest);
    } else {
      BodyRoundTrip(ds[1..], rest);
      BodyStep(ds[0], BodyLines(ds[1..]), AllReadBack(ds[1..]), rest);
    }
  }

  lemma NoLines(rest: seq<string>)
    ensures [] + rest == rest
  {
  }

  lemma FirstAndRest<T>(s: seq<T>)
    requires |s| > 0
    ensures s == [s[0]] + s[1..]
  {
  }

  lemma BodyStep(d: Diff, lines: seq<string>, ds: seq<Diff>, rest: seq<string>)
    requires ParseBody(lines + rest) == Ok(BodyAndRest(ds, rest))
    ensures ParseBody([Line(d)] + lines + rest) == Ok(BodyAndRest([ReadBack(d)] + ds, rest))
  {
    LineRoundTrip(d, lines + rest, ds, rest);
    assert [Line(d)] + lines + rest == [Line(d)] + (lines + rest);
  }

  lemma {:induction false} PlainDecodes(s: string)
    requires '%' !in s
    ensures Decode(s).Ok?
  {
    if |s| > 0 {
      PlainDecodes(s[1..]);
    }
  }

  /** A header ends the body before it. */
  lemma HeaderEndsBody(p: Patch, tail: seq<string>)
    requires Natural(p)
    ensures ParseBody([Header(p)] + tail) == Ok(BodyAndRest([], [Header(p)] + tail))
  {
    var h := Header(p);
    HeaderPlain(p);
    PlainDecodes(h[1..]);
    assert h[0] == '@';
  }

  lemma HeaderPlain(p: Patch)
    requires Natural(p)
    ensures '%' !in Header(p)[1..] && '\n' !in Header(p) && Header(p)[0] == '@'
  {
    hide Coords;
    CoordsPlain(p.start1, p.length1);
    CoordsPlain(p.start2, p.length2);
    HeaderShape(Coords(p.start1, p.length1), Coords(p.start2, p.length2));
    assert "@@ -"[0] == '@';
  }

  lemma CoordsPlain(start: nat, length: nat)
    ensures '%' !in Coords(start, length) && '\n' !in Coords(start, length)
  {
    assert '%' !in Digits(start) && '%' !in Digits(start + 1) && '%' !in Digits(length);
    assert '\n' !in Digits(start) && '\n' !in Digits(start + 1) && '\n' !in Digits(length);
  }

  predicate AllNatural(ps: seq<Patch>) {
    forall i :: 0 <= i < |ps| ==> Natural(ps[i])
  }

  lemma EndOfBody(ps: seq<Patch>)
    requires AllNatural(ps)
    ensures ParseBody(AllLines(ps)) == Ok(BodyAndRest([], AllLines(ps)))
  {
    if |ps| > 0 {
      HeaderEndsBody(ps[0], BodyLines(ps[0].diffs) + AllLines(ps[1..]));
      Assoc([Header(ps[0])], BodyLines(ps[0].diffs), AllLines(ps[1..]));
    }
  }

  lemma {:induction false} LinesRoundTrip(ps: seq<Patch>)
    requires AllNatural(ps)
    ensures ParseLines(AllLines(ps)) == Ok(PatchesReadBack(ps))
  {
    if |ps| > 0 {
      var p := ps[0];
      LinesRoundTrip(ps[1..]);
      EndOfBody(ps[1..]);
      PatchRoundTrip(p, AllLines(ps[1..]), PatchesReadBack(ps[1..]));
    }
  }

  lemma PatchRoundTrip(p: Patch, rest: seq<string>, ps: seq<Patch>)
    requires Natural(p)
    requires ParseBody(rest) == Ok(BodyAndRest([], rest)) && ParseLines(rest) == Ok(ps)
    ensures ParseLines([Header(p)] + BodyLines(p.diffs) + rest) == Ok([p.(diffs := AllReadBack(p.diffs))] + ps)
  {
    HeaderRoundTrip(p);
    HeaderPlain(p);
    BodyRoundTrip(p.diffs, rest);
    HeaderAndBody(Header(p), BodyLines(p.diffs), rest, p.(diffs := []), AllReadBack(p.diffs), ps);
  }

  lemma HeaderAndBody(h: string, body: seq<string>, rest: seq<string>, p: Patch, ds: seq<Diff>, ps: seq<Patch>)
    requires h != "" && ParseHeader(h) == Ok(p) && ParseBody(body + rest) == Ok(BodyAndRest(ds, rest))
    requires ParseLines(rest) == Ok(ps)
    ensures ParseLines([h] + body + rest) == Ok([p.(diffs := ds)] + ps)
  {
    AfterFirst(h, body, rest);
  }

  lemma AfterFirst(h: string, body: seq<string>, rest: seq<string>)
    ensures ([h] + body + rest)[0] == h && ([h] + body + rest)[1..] == body + rest
  {
  }

  lemma {:induction false} BodyTokens(ds: seq<Diff>, rest: string)
    ensures Tokens(Body(ds) + rest, '\n', 0) == BodyLines(ds) + Tokens(rest, '\n', 0)
  {
    if |ds| == 0 {
      assert Body(ds) + rest == rest;
      assert BodyLines(ds) + Tokens(rest, '\n', 0) == Tokens(rest, '\n', 0);
    } else {
      BodyTokens(ds[1..], rest);
      EncodeClean(ds[0].text);
      TokensFirst(Line(ds[0]), '\n', Body(ds[1..]) + rest);
      Assoc(Line(ds[0]) + "\n", Body(ds[1..]), rest);
      Assoc([Line(ds[0])], BodyLines(ds[1..]), Tokens(rest, '\n', 0));
    }
  }

  lemma {:induction false} TextTokens(ps: seq<Patch>)
    requires AllNatural(ps)
    ensures Tokens(PatchesText(ps), '\n', 0) == AllLines(ps)
  {
    if |ps| > 0 {
      TextTokens(ps[1..]);
      HeaderPlain(ps[0]);
      BodyTokens(ps[0].diffs, PatchesText(ps[1..]));
      PatchTokens(Header(ps[0]), Body(ps[0].diffs), PatchesText(ps[1..]), BodyLines(ps[0].diffs), AllLines(ps[1..]));
    }
  }

  lemma PatchTokens(h: string, body: string, rest: string, lines: seq<string>, more: seq<string>)
    requires '\n' !in h && Tokens(body + rest, '\n', 0) == lines + more
    ensures Tokens(h + "\n" + body + rest, '\n', 0) == [h] + lines + more
  {
    TokensFirst(h, '\n', body + rest);
    Assoc(h + "\n", body, rest);
    assert [h] + (lines + more) == [h] + lines + more;
  }

  /** patch_fromText undoes patch_toText exactly if all text is 7-bit; other characters are lost. */
  lemma TextRoundTrip(ps: seq<Patch>)
    requires AllNatural(ps)
    ensures ParseLines(Tokens(PatchesText(ps), '\n', 0)) == Ok(PatchesReadBack(ps))
    ensures ParseLines(Tokens(PatchesText(ps), '\n', 0)) == Ok(ps) <==> SevenBitPatches(ps)
  {
    TextTokens(ps);
    LinesRoundTrip(ps);
    AllPatchesReadBack(ps);
  }

  lemma ConsDiffsMore(ds: seq<Diff>, d: Diff, r: Result<BodyAndRest>)
    ensures ConsDiffs(ds + [d], r) == ConsDiffs(ds, ConsDiffs([d], r))
    ensures ConsDiffs([], r) == r
  {
    if r.Ok? {
      assert ds + [d] + r.value.diffs == ds + ([d] + r.value.diffs) && [] + r.value.diffs == r.value.diffs;
    }
  }

  function ConsPatches(ps: seq<Patch>, r: Result<seq<Patch>>): Result<seq<Patch>> {
    if r.Err? then Err else Ok(ps + r.value)
  }

  lemma ConsPatchesMore(ps: seq<Patch>, p: Patch, r: Result<seq<Patch>>)
    ensures ConsPatches(ps + [p], r) == ConsPatches(ps, ConsPatches([p], r))
    ensures ConsPatches([], r) == r
  {
    if r.Ok? {
      assert ps + [p] + r.value == ps + ([p] + r.value) && [] + r.value == r.value;
    }
  }

  /** The body of one patch, up to the next header. */
  method ReadBody(t: string, pos0: nat, ghost lines0: seq<string>)
    returns (ok: bool, diffs: seq<Diff>, pos: nat, ghost lines: seq<string>)
    requires At(t, '\n', pos0, lines0)
    ensures pos >= pos0 && At(t, '\n', pos, lines)
    ensures ParseBody(lines0) == if ok then Ok(BodyAndRest(diffs, lines)) else Err
  {
    ok, diffs, pos, lines := true, [], pos0, lines0;
    ConsDiffsMore([], Diff(EQUAL, ""), ParseBody(lines0));
    while pos < |t|
      invariant pos >= pos0 && ok && At(t, '\n', pos, lines)
      invariant ParseBody(lines0) == ConsDiffs(diffs, ParseBody(lines))
      decreases |t| - pos
    {
      var line, next;
      ghost var tail;
      line, next, tail := TakeToken(t, '\n', pos, lines);
      var stop;
      ok, stop, diffs := TakeLine(line, tail, diffs);
      if stop {
        return;
      }
      pos, lines := next, tail;
    }
    NoMoreTokens(t, '\n', pos, lines);
    BodyComplete(diffs, lines);
  }

  /** One line of a body: a diff is added, a header stops, and so does a malformed line. */
  method TakeLine(line: string, ghost tail: seq<string>, diffs0: seq<Diff>)
    returns (ok: bool, stop: bool, diffs: seq<Diff>)
    ensures !stop ==> ok && ConsDiffs(diffs0, ParseBody([line] + tail)) == ConsDiffs(diffs, ParseBody(tail))
    ensures stop && ok ==> ConsDiffs(diffs0, ParseBody([line] + tail)) == Ok(BodyAndRest(diffs, [line] + tail))
    ensures stop && !ok ==> ConsDiffs(diffs0, ParseBody([line] + tail)) == Err
  {
    EntryStep(diffs0, line, tail);
    if line == "" {
      return true, false, diffs0;
    }
    match ReadLine(line)
    case Entry(d) => return true, false, diffs0 + [d];
    case NextHeader => return true, true, diffs0;
    case Malformed => return false, true, diffs0;
  }

  // What the first line makes of a body with some diffs before it.
  function AfterLine(diffs: seq<Diff>, line: string, tail: seq<string>): Result<BodyAndRest> {
    if line == "" then ConsDiffs(diffs, ParseBody(tail))
    else
      match ReadLine(line)
      case Entry(d) => ConsDiffs(diffs + [d], ParseBody(tail))
      case NextHeader => Ok(BodyAndRest(diffs, [line] + tail))
      case Malformed => Err
  }

  lemma EntryStep(diffs: seq<Diff>, line: string, tail: seq<string>)
    ensures ConsDiffs(diffs, ParseBody([line] + tail)) == AfterLine(diffs, line, tail)
  {
    assert ([line] + tail)[1..] == tail;
    if line != "" {
      match ReadLine(line)
      case Entry(d) => ConsDiffsMore(diffs, d, ParseBody(tail));
      case NextHeader => BodyComplete(diffs, [line] + tail);
      case Malformed =>
    }
  }

  lemma BodyComplete(ds: seq<Diff>, rest: seq<string>)
    ensures ConsDiffs(ds, Ok(BodyAndRest([], rest))) == Ok(BodyAndRest(ds, rest))
  {
    assert ds + [] == ds;
  }

  /** patch_fromText */
  method FromText(textline: string) returns (r: Result<seq<Patch>>)
    ensures r == ParseLines(Tokens(textline, '\n', 0))
  {
    var patches: seq<Patch> := [];
    var text := 0;
    ghost var all := Tokens(textline, '\n', 0);
    ghost var lines := all;
    ConsPatchesMore([], NO_PATCH, ParseLines(all));
    while text < |textline|
      invariant text >= 0 && At(textline, '\n', text, lines)
      invariant ParseLines(all) == ConsPatches(patches, ParseLines(lines))
      decreases |textline| - text
    {
      var ok, next;
      ok, patches, next, lines := ReadPatch(textline, text, lines, patches);
      if !ok {
        return Err;
      }
      text := next;
    }
    NoMoreTokens(textline, '\n', text, lines);
    assert patches + [] == patches;
    r := Ok(patches);
  }

  function PatchParsed(header: Result<Patch>, body: Result<BodyAndRest>): Result<seq<Patch>> {
    if header.Err? || body.Err? then Err
    else ConsPatches([header.value.(diffs := body.value.diffs)], ParseLines(body.value.rest))
  }

  lemma ParsePatchLines(line: string, tail: seq<string>)
    ensures line == "" ==> ParseLines([line] + tail) == ParseLines(tail)
    ensures line != "" ==> ParseLines([line] + tail) == PatchParsed(ParseHeader(line), ParseBody(tail))
  {
    assert ([line] + tail)[1..] == tail;
  }

  /** A blank line, or a header with its body. */
  method ReadPatch(t: string, pos: nat, ghost lines: seq<string>, patches: seq<Patch>)
    returns (ok: bool, more: seq<Patch>, next: nat, ghost rest: seq<string>)
    requires pos < |t| && At(t, '\n', pos, lines)
    ensures next > pos && At(t, '\n', next, rest)
    ensures ConsPatches(patches, ParseLines(lines)) == if ok then ConsPatches(more, ParseLines(rest)) else Err
  {
    var line;
    line, next, rest := TakeToken(t, '\n', pos, lines);
    ParsePatchLines(line, rest);
    more := patches;
    if line == "" {
      return true, patches, next, rest;
    }
    var header := ParseHeader(line);
    if header.Err? {
      return false, patches, next, rest;
    }
    var diffs;
    ok, diffs, next, rest := ReadBody(t, next, rest);
    if ok {
      more := patches + [header.value.(diffs := diffs)];
      AddPatch(patches, header.value, diffs, rest);
    }
  }

  lemma AddPatch(ps: seq<Patch>, p: Patch, ds: seq<Diff>, rest: seq<string>)
    ensures ConsPatches(ps, PatchParsed(Ok(p), Ok(BodyAndRest(ds, rest))))
            == ConsPatches(ps + [p.(diffs := ds)], ParseLines(rest))
  {
    ConsPatchesMore(ps, p.(diffs := ds), ParseLines(rest));
  }

  /** patch_fromText(patch_toText(ps)) is ps exactly if all text is 7-bit. */
  method ToTextAndBack(ps: seq<Patch>) returns (r: Result<seq<Patch>>)
    requires AllNatural(ps)
    ensures r == Ok(ps) <==> SevenBitPatches(ps)
    ensures r == Ok(PatchesReadBack(ps))
  {
    var text := ToText(ps);
    TextRoundTrip(ps);
    r := FromText(text);
  }
}
