/** Deltas: a diff list written as operations on a known first text. */
module Deltas {
  import opened Strings
  import opened Diffs
  import opened PercentCodec
  import opened Tokenizing

  // What is read back of a diff: only inserted text is written out, and only its 7-bit characters survive.
  function ReadBack(d: Diff): Diff {
    if d.op == INSERT then d.(text := Surviving(d.text)) else d
  }

  function AllReadBack(ds: seq<Diff>): seq<Diff> {
    if |ds| == 0 then [] else [ReadBack(ds[0])] + AllReadBack(ds[1..])
  }

  predicate Writable(d: Diff) {
    d.op == INSERT ==> SevenBit(d.text)
  }

  predicate AllWritable(ds: seq<Diff>) {
    forall i :: 0 <= i < |ds| ==> Writable(ds[i])
  }

  lemma {:induction false} WritableReadBack(ds: seq<Diff>)
    ensures AllReadBack(ds) == ds <==> AllWritable(ds)
  {
    if |ds| > 0 {
      WritableReadBack(ds[1..]);
      SurvivingSevenBit(ds[0].text);
      assert ds == [ds[0]] + ds[1..];
      assert AllReadBack(ds)[1..] == AllReadBack(ds[1..]);
      if AllWritable(ds[1..]) && Writable(ds[0]) {
        assert forall i :: 0 < i < |ds| ==> ds[i] == ds[1..][i - 1];
      }
    }
  }

  function Token(d: Diff): string
  {
    match d.op
    case INSERT => "+" + Encode(d.text)
    case DELETE => "-" + Decimal(|d.text|)
    case EQUAL => "=" + Decimal(|d.text|)
  }

  function DeltaTokens(ds: seq<Diff>): seq<string>
  {
    if |ds| == 0 then [] else [Token(ds[0])] + DeltaTokens(ds[1..])
  }

  /** The delta of a diff list: its tokens with tabs between them. */
  function Delta(ds: seq<Diff>): string
  {
    if |ds| == 0 then ""
    else if |ds| == 1 then Token(ds[0])
    else Token(ds[0]) + "\t" + Delta(ds[1..])
  }

  /** The example that documents diff_toDelta: keep three characters, delete two and insert "ing". */
  lemma DocumentedDelta(kept: string, deleted: string)
    requires |kept| == 3 && |deleted| == 2
    ensures Delta([Diff(EQUAL, kept), Diff(DELETE, deleted), Diff(INSERT, "ing")]) == "=3\t-2\t+ing"
  {
    DocumentedTokens(kept, deleted);
    ThreeTokens(Diff(EQUAL, kept), Diff(DELETE, deleted), Diff(INSERT, "ing"), "=3", "-2", "+ing");
    assert "=3" + "\t" + ("-2" + "\t" + "+ing") == "=3\t-2\t+ing";
  }

  lemma DocumentedTokens(kept: string, deleted: string)
    requires |kept| == 3 && |deleted| == 2
    ensures Token(Diff(EQUAL, kept)) == "=3" && Token(Diff(DELETE, deleted)) == "-2"
    ensures Token(Diff(INSERT, "ing")) == "+ing"
  {
    hide Encode;
    assert Decimal(3) == "3" && Decimal(2) == "2";
    SafeText("ing");
  }

  lemma ThreeTokens(a: Diff, b: Diff, c: Diff, s: string, t: string, u: string)
    requires Token(a) == s && Token(b) == t && Token(c) == u
    ensures Delta([a, b, c]) == s + "\t" + (t + "\t" + u)
  {
    hide Token;
    assert [a, b, c][1..] == [b, c] && [b, c][1..] == [c];
    assert Delta([b, c]) == t + "\t" + Delta([c]);
  }

  // The delta with a tab behind every token, as it is while being built.
  function Tabbed(ds: seq<Diff>): string
  {
    if |ds| == 0 then "" else Token(ds[0]) + "\t" + Tabbed(ds[1..])
  }

  lemma {:induction false} TabbedDelta(ds: seq<Diff>)
    requires |ds| > 0
    ensures Tabbed(ds) == Delta(ds) + "\t"
  {
    if |ds| == 1 {
      NoneLeft(Token(ds[0]) + "\t");
      assert ds[1..] == [];
    } else {
      TabbedDelta(ds[1..]);
      Assoc(Token(ds[0]) + "\t", Delta(ds[1..]), "\t");
    }
  }

  lemma NoneLeft(a: string)
    ensures a + "" == a && "" + a == a
  {
  }

  lemma {:induction false} TabbedAppend(ds: seq<Diff>, d: Diff)
    ensures Tabbed(ds + [d]) == Tabbed(ds) + (Token(d) + "\t")
  {
    if |ds| == 0 {
      assert ds + [d] == [d] && [d][1..] == [];
      NoneLeft(Token(d) + "\t");
    } else {
      assert (ds + [d])[1..] == ds[1..] + [d];
      TabbedAppend(ds[1..], d);
      Assoc(Token(ds[0]) + "\t", Tabbed(ds[1..]), Token(d) + "\t");
    }
  }

  /** diff_toDelta */
  method ToDelta(diffs: seq<Diff>) returns (text: string)
    ensures text == Delta(diffs)
  {
    text := "";
    var i := 0;
    ghost var done: seq<Diff> := [];
    while i < |diffs|
      invariant 0 <= i <= |diffs| && done == diffs[..i] && text == Tabbed(done)
    {
      assert diffs[..i + 1] == diffs[..i] + [diffs[i]];
      text, done := AppendToken(text, diffs[i], done);
      i := i + 1;
    }
    assert diffs[..i] == diffs;
    if text != "" {
      StripTab(diffs, text);
      text := text[..|text| - 1];
    } else {
      NeverEmpty(diffs);
    }
  }

  lemma StripTab(ds: seq<Diff>, text: string)
    requires text == Tabbed(ds) && text != ""
    ensures text[..|text| - 1] == Delta(ds)
  {
    TabbedDelta(ds);
  }

  lemma NeverEmpty(ds: seq<Diff>)
    requires Tabbed(ds) == ""
    ensures ds == []
  {
    if |ds| > 0 {
      TabbedDelta(ds);
    }
  }

  method AppendToken(text0: string, d: Diff, ghost ds: seq<Diff>) returns (text: string, ghost more: seq<Diff>)
    requires text0 == Tabbed(ds)
    ensures more == ds + [d] && text == Tabbed(more)
  {
    more := ds + [d];
    TabbedAppend(ds, d);
    match d.op
    case INSERT =>
      text := text0 + "+";
      text := AppendPercentEncoded(text, d.text);
      text := text + "\t";
      TokenParts(text0, "+", Encode(d.text));
    case DELETE =>
      var n := PercentCodec.ToString(|d.text|);
      text := text0 + ("-" + n + "\t");
    case EQUAL =>
      var n := PercentCodec.ToString(|d.text|);
      text := text0 + ("=" + n + "\t");
  }

  lemma TokenParts(t: string, s: string, e: string)
    ensures t + s + e + "\t" == t + (s + e + "\t")
  {
  }

  // What a token stands for at a position in the first text, and the position behind it.
  datatype Reading = Reading(diff: Diff, pointer: nat) | Throws

  function ReadToken(token: string, text1: string, pointer: nat): Reading
    requires token != ""
  {
    var param := token[1..];
    if token[0] == '+' then
      var text := Decode(param);
      if text.Err? then Throws else Reading(Diff(INSERT, text.value), pointer)
    else if token[0] == '-' || token[0] == '=' then
      if ToInt(param) < 0 || pointer > |text1| then Throws
      else
        Reading(Diff(if token[0] == '=' then EQUAL else DELETE, Mid(text1, pointer, ToInt(param))), pointer + ToInt(param))
    else Throws
  }

  function Prepend(ds: seq<Diff>, r: Result<seq<Diff>>): Result<seq<Diff>> {
    if r.Err? then Err else Ok(ds + r.value)
  }

  lemma PrependMore(ds: seq<Diff>, d: Diff, r: Result<seq<Diff>>)
    ensures Prepend(ds + [d], r) == Prepend(ds, Prepend([d], r))
    ensures Prepend([], r) == r
  {
    if r.Ok? {
      assert ds + [d] + r.value == ds + ([d] + r.value) && [] + r.value == r.value;
    }
  }

  // diff_fromDelta on the tokens of the delta
  function Parse(tokens: seq<string>, text1: string, pointer: nat): Result<seq<Diff>> {
    if |tokens| == 0 then if pointer == |text1| then Ok([]) else Err
    else if tokens[0] == "" then Parse(tokens[1..], text1, pointer)
    else
      var r := ReadToken(tokens[0], text1, pointer);
      if r.Throws? then Err else Prepend([r.diff], Parse(tokens[1..], text1, r.pointer))
  }

  lemma ParseOne(token: string, tail: seq<string>, text1: string, pointer: nat)
    ensures token == "" ==> Parse([token] + tail, text1, pointer) == Parse(tail, text1, pointer)
    ensures token != "" ==>
              var r := ReadToken(token, text1, pointer);
              Parse([token] + tail, text1, pointer)
              == if r.Throws? then Err else Prepend([r.diff], Parse(tail, text1, r.pointer))
  {
    assert ([token] + tail)[1..] == tail;
  }

  /** diff_fromDelta */
  method FromDelta(text1: string, delta: string) returns (r: Result<seq<Diff>>)
    ensures r == Parse(Tokens(delta, '\t', 0), text1, 0)
  {
    var diffs: seq<Diff> := [];
    var pointer := 0;
    var token := 0;
    ghost var all := Tokens(delta, '\t', 0);
    ghost var tokens := all;
    PrependMore([], Diff(EQUAL, ""), Parse(all, text1, 0));
    while token < |delta|
      invariant token >= 0 && pointer >= 0 && At(delta, '\t', token, tokens)
      invariant Parse(all, text1, 0) == Prepend(diffs, Parse(tokens, text1, pointer))
      decreases |delta| - token
    {
      var piece;
      piece, token, tokens := TakeToken(delta, '\t', token, tokens);
      var ok;
      ok, diffs, pointer := ReadOne(piece, tokens, text1, pointer, diffs);
      if !ok {
        return Err;
      }
    }
    NoMoreTokens(delta, '\t', token, tokens);
    assert diffs + [] == diffs;
    r := if pointer != |text1| then Err else Ok(diffs);
  }

  method ReadOne(token: string, ghost tail: seq<string>, text1: string, pointer0: nat, diffs0: seq<Diff>)
    returns (ok: bool, diffs: seq<Diff>, pointer: nat)
    ensures Prepend(diffs0, Parse([token] + tail, text1, pointer0))
            == if ok then Prepend(diffs, Parse(tail, text1, pointer)) else Err
  {
    ParseOne(token, tail, text1, pointer0);
    ok, diffs, pointer := true, diffs0, pointer0;
    if token == "" {
      return;
    }
    var r := ReadToken(token, text1, pointer0);
    if r.Throws? {
      return false, diffs, pointer;
    }
    diffs, pointer := diffs + [r.diff], r.pointer;
    PrependMore(diffs0, r.diff, Parse(tail, text1, pointer));
  }

  /** Whatever a delta says, a list it is read as has the first text as its first text. */
  lemma {:induction false} ParseSound(tokens: seq<string>, text1: string, pointer: nat, ds: seq<Diff>)
    requires Parse(tokens, text1, pointer) == Ok(ds)
    ensures pointer <= |text1| && Text1(ds) == text1[pointer..]
  {
    if |tokens| == 0 {
      assert text1[pointer..] == "";
    } else if tokens[0] == "" {
      ParseSound(tokens[1..], text1, pointer, ds);
    } else {
      var r := ReadToken(tokens[0], text1, pointer);
      var more := Parse(tokens[1..], text1, r.pointer).value;
      ParseSound(tokens[1..], text1, r.pointer, more);
      PieceText(r.diff, more, ds);
      PieceSound(tokens[0], text1, pointer, r);
    }
  }

  lemma PieceText(d: Diff, more: seq<Diff>, ds: seq<Diff>)
    requires ds == [d] + more
    ensures Text1(ds) == Part1(d) + Text1(more)
  {
    assert ds[1..] == more;
  }

  lemma PieceSound(token: string, text1: string, pointer: nat, r: Reading)
    requires token != "" && r == ReadToken(token, text1, pointer) && r.Reading? && r.pointer <= |text1|
    ensures pointer <= r.pointer && Part1(r.diff) + text1[r.pointer..] == text1[pointer..]
  {
    if token[0] == '+' {
      NoneLeft(text1[pointer..]);
    }
  }

  /** A token reads back where the text it stands for begins. */
  lemma TokenReads(d: Diff, pre: string, post: string)
    ensures Token(d) != ""
    ensures ReadToken(Token(d), pre + Part1(d) + post, |pre|) == Reading(ReadBack(d), |pre| + |Part1(d)|)
  {
    if d.op == INSERT {
      PercentRoundTrip(d.text);
      assert Token(d)[1..] == Encode(d.text);
    } else {
      DecimalRoundTrip(|d.text|);
      assert Token(d)[1..] == Decimal(|d.text|);
      MiddleText(pre, d.text, post);
    }
  }

  lemma MiddleText(pre: string, s: string, post: string)
    ensures Mid(pre + s + post, |pre|, |s|) == s
  {
  }

  lemma {:induction false} TokensRoundTrip(ds: seq<Diff>, pre: string)
    ensures Parse(DeltaTokens(ds), pre + Text1(ds), |pre|) == Ok(AllReadBack(ds))
  {
    if |ds| > 0 {
      var d, more := ds[0], ds[1..];
      TokenReads(d, pre, Text1(more));
      TokensRoundTrip(more, pre + Part1(d));
      Assoc(pre, Part1(d), Text1(more));
      ParseOne(Token(d), DeltaTokens(more), pre + Text1(ds), |pre|);
    }
  }

  lemma TokenClean(d: Diff)
    ensures '\t' !in Token(d) && Token(d) != ""
  {
    if d.op == INSERT {
      EncodeClean(d.text);
    } else {
      assert '\t' !in Digits(|d.text|);
    }
  }

  lemma {:induction false} DeltaCuts(ds: seq<Diff>)
    ensures Tokens(Delta(ds), '\t', 0) == DeltaTokens(ds)
  {
    if |ds| > 0 {
      TokenClean(ds[0]);
      if |ds| == 1 {
        LastToken(Token(ds[0]), '\t');
        assert DeltaTokens(ds[1..]) == [];
      } else {
        DeltaCuts(ds[1..]);
        TokensFirst(Token(ds[0]), '\t', Delta(ds[1..]));
      }
    }
  }

  /** diff_fromDelta undoes diff_toDelta exactly if all inserted text is 7-bit. */
  lemma DeltaRoundTrip(ds: seq<Diff>)
    ensures Parse(Tokens(Delta(ds), '\t', 0), Text1(ds), 0) == Ok(AllReadBack(ds))
    ensures Parse(Tokens(Delta(ds), '\t', 0), Text1(ds), 0) == Ok(ds) <==> AllWritable(ds)
  {
    WritableReadBack(ds);
    DeltaCuts(ds);
    TokensRoundTrip(ds, "");
    NoneLeft(Text1(ds));
  }

  /** A list written as a delta and read back against its first text. */
  method ToDeltaAndBack(ds: seq<Diff>, text1: string) returns (r: Result<seq<Diff>>)
    ensures r == Ok(ds) <==> text1 == Text1(ds) && AllWritable(ds)
  {
    var delta := ToDelta(ds);
    r := FromDelta(text1, delta);
    DeltaRoundTrip(ds);
    if r == Ok(ds) {
      ParseSound(Tokens(delta, '\t', 0), text1, 0, ds);
      assert text1[0..] == text1;
    }
  }
}
