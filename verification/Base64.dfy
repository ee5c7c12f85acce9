/** The resumable base64 encoder and decoder. */
module Base64 {
  import opened JsNumber
  import opened ByteField
  import Strings

  const CHARS_PER_LINE: nat := 72

  /** Table 1 of RFC 4648. */
  const ALPHABET: string := "ABCDEFGHIJKLMNOPQRSTUVWXYZ" + "abcdefghijklmnopqrstuvwxyz" + "0123456789+/"

  // The letter of a value in that table.
  function Letter(v: nat): char
    requires v < 64
  {
    ALPHABET[v]
  }

  /** base64_encode_value */
  function EncodeValue(v: nat): char {
    if v < 26 then (65 + v) as char
    else if v < 52 then (71 + v) as char
    else if v < 62 then (v - 4) as char
    else if v == 62 then '+'
    else if v == 63 then '/'
    else '='
  }

  /** The code of a letter goes by the place of its range in the table. */
  lemma LettersInRanges(v: nat)
    requires v < 64
    ensures Letter(v) == EncodeValue(v)
  {
    if v < 26 {
      UpperLetters(v);
    } else if v < 52 {
      LowerLetters(v - 26);
    } else {
      OtherLetters(v - 52);
    }
  }

  lemma UpperLetters(i: nat)
    requires i < 26
    ensures ALPHABET[i] == (65 + i) as char
  {
  }

  lemma LowerLetters(i: nat)
    requires i < 26
    ensures ALPHABET[26 + i] == (97 + i) as char
  {
  }

  lemma OtherLetters(i: nat)
    requires i < 12
    ensures ALPHABET[52 + i] == if i < 10 then (48 + i) as char else if i == 10 then '+' else '/'
  {
  }

  /** base64_decode_value. The bound of the table is off by one: past is what stands behind it. */
  function DecodeValue(c: char, past: int): int {
    if 'A' <= c <= 'Z' then c as int - 65
    else if 'a' <= c <= 'z' then c as int - 71
    else if '0' <= c <= '9' then c as int + 4
    else if c == '+' then 62
    else if c == '/' then 63
    else if c == '=' then -2
    else if c == '{' then past
    else -1
  }

  /** Only an opening brace reads what stands behind the table. */
  lemma OnlyBraceReadsPast(c: char, p: int, q: int)
    requires p != q
    ensures DecodeValue(c, p) != DecodeValue(c, q) <==> c == '{'
  {
  }

  lemma ValueRoundTrip(v: nat, past: int)
    requires v < 64
    ensures DecodeValue(EncodeValue(v), past) == v
  {
  }

  datatype EncodeStep = StepA | StepB | StepC

  datatype Encoding = Encoding(step: EncodeStep, result: nat, stepcount: nat)

  datatype Encoded = Encoded(state: Encoding, text: string)

  const ENCODE_START: Encoding := Encoding(StepA, 0, 0)

  // What one more byte does to the state, and the characters it brings out.
  function EncodeByte(e: Encoding, f: Byte): Encoded {
    match e.step
    case StepA => Encoded(Encoding(StepB, f % 4 * 16, e.stepcount), [EncodeValue(f / 4)])
    case StepB => Encoded(Encoding(StepC, f % 16 * 4, e.stepcount), [EncodeValue(Or(e.result, f / 16))])
    case StepC =>
      if e.stepcount + 1 == CHARS_PER_LINE / 4 then
        Encoded(Encoding(StepA, f % 64, 0), [EncodeValue(Or(e.result, f / 64)), EncodeValue(f % 64), '\n'])
      else
        Encoded(Encoding(StepA, f % 64, e.stepcount + 1), [EncodeValue(Or(e.result, f / 64)), EncodeValue(f % 64)])
  }

  function EncodeAll(e: Encoding, bytes: seq<Byte>): (r: Encoded)
    ensures |r.text| <= 3 * |bytes|
    decreases |bytes|
  {
    if |bytes| == 0 then Encoded(e, "")
    else
      var one := EncodeByte(e, bytes[0]);
      var more := EncodeAll(one.state, bytes[1..]);
      Encoded(more.state, one.text + more.text)
  }

  function EndText(e: Encoding): string {
    match e.step
    case StepA => "\n"
    case StepB => [EncodeValue(e.result), '=', '=', '\n']
    case StepC => [EncodeValue(e.result), '=', '\n']
  }

  /** Where the input is cut makes no difference. */
  lemma {:induction false} EncodeAppend(e: Encoding, a: seq<Byte>, b: seq<Byte>)
    ensures var x := EncodeAll(e, a); var y := EncodeAll(x.state, b);
            EncodeAll(e, a + b) == Encoded(y.state, x.text + y.text)
    decreases |a|
  {
    if |a| == 0 {
      assert a + b == b;
      assert "" + EncodeAll(e, b).text == EncodeAll(e, b).text;
    } else {
      assert (a + b)[1..] == a[1..] + b;
      var one := EncodeByte(e, a[0]);
      EncodeAppend(one.state, a[1..], b);
      var more := EncodeAll(one.state, a[1..]);
      Strings.Assoc(one.text, more.text, EncodeAll(more.state, b).text);
    }
  }

  class EncodeState {
    var step: EncodeStep
    var result: nat
    var stepcount: nat

    /** base64_init_encodestate */
    constructor ()
      ensures Value() == ENCODE_START
    {
      step, result, stepcount := StepA, 0, 0;
    }

    function Value(): Encoding
      reads this
    {
      Encoding(step, result, stepcount)
    }
  }

  /** base64_encode_block; one turn of the loop is one step of the switch. */
  method EncodeBlock(plaintextIn: seq<Byte>, codeOut: array<char>, stateIn: EncodeState) returns (n: nat)
    requires codeOut.Length >= |EncodeAll(stateIn.Value(), plaintextIn).text|
    modifies codeOut, stateIn
    ensures stateIn.Value() == EncodeAll(old(stateIn.Value()), plaintextIn).state
    ensures n <= codeOut.Length && codeOut[..n] == EncodeAll(old(stateIn.Value()), plaintextIn).text
    ensures codeOut[n..] == old(codeOut[n..])
  {
    var step, result, stepcount := stateIn.step, stateIn.result, stateIn.stepcount;
    var plainchar, codechar := 0, 0;
    ghost var all := EncodeAll(stateIn.Value(), plaintextIn);
    NoneEncoded(stateIn.Value(), plaintextIn);
    while plainchar != |plaintextIn|
      invariant 0 <= plainchar <= |plaintextIn| && 0 <= codechar <= |all.text|
      invariant forall j :: codechar <= j < codeOut.Length ==> codeOut[j] == old(codeOut[j])
      invariant all == Joined(codeOut[..codechar], EncodeAll(Encoding(step, result, stepcount), plaintextIn[plainchar..]))
    {
      NextEncoded(codeOut[..codechar], Encoding(step, result, stepcount), plaintextIn, plainchar);
      step, result, stepcount, codechar :=
        EncodeOne(plaintextIn[plainchar], codeOut, codechar, step, result, stepcount);
      plainchar := plainchar + 1;
    }
    stateIn.step, stateIn.result, stateIn.stepcount := step, result, stepcount;
    n := codechar;
    assert codeOut[..n] + "" == codeOut[..n];
  }

  // One turn of the loop.
  method EncodeOne(fragment: Byte, codeOut: array<char>, codechar0: nat, step0: EncodeStep, result0: nat,
                   stepcount0: nat)
    returns (step: EncodeStep, result: nat, stepcount: nat, codechar: nat)
    requires codechar0 + |EncodeByte(Encoding(step0, result0, stepcount0), fragment).text| <= codeOut.Length
    modifies codeOut
    ensures codechar0 <= codechar <= codeOut.Length
    ensures forall j :: codechar <= j < codeOut.Length ==> codeOut[j] == old(codeOut[j])
    ensures EncodeByte(Encoding(step0, result0, stepcount0), fragment)
            == Encoded(Encoding(step, result, stepcount), codeOut[codechar0..codechar])
    ensures codeOut[..codechar] == old(codeOut[..codechar0]) + codeOut[codechar0..codechar]
  {
    step, result, stepcount, codechar := step0, result0, stepcount0, codechar0;
    match step
    case StepA =>
      result := fragment / 4;
      codeOut[codechar] := EncodeValue(result);
      codechar := codechar + 1;
      result := fragment % 4 * 16;
      step := StepB;
    case StepB =>
      result := Or(result, fragment / 16);
      codeOut[codechar] := EncodeValue(result);
      codechar := codechar + 1;
      result := fragment % 16 * 4;
      step := StepC;
    case StepC =>
      result := Or(result, fragment / 64);
      codeOut[codechar] := EncodeValue(result);
      codechar := codechar + 1;
      result := fragment % 64;
      codeOut[codechar] := EncodeValue(result);
      codechar := codechar + 1;
      stepcount := stepcount + 1;
      if stepcount == CHARS_PER_LINE / 4 {
        codeOut[codechar] := '\n';
        codechar := codechar + 1;
        stepcount := 0;
      }
      step := StepA;
  }

  /** base64_encode_blockend */
  method EncodeBlockEnd(codeOut: array<char>, stateIn: EncodeState) returns (n: nat)
    requires codeOut.Length >= |EndText(stateIn.Value())|
    modifies codeOut
    ensures n <= codeOut.Length && codeOut[..n] == EndText(stateIn.Value())
  {
    n := 0;
    match stateIn.step {
      case StepB =>
        codeOut[0], codeOut[1], codeOut[2] := EncodeValue(stateIn.result), '=', '=';
        n := 3;
      case StepC =>
        codeOut[0], codeOut[1] := EncodeValue(stateIn.result), '=';
        n := 2;
      case StepA =>
    }
    codeOut[n] := '\n';
    n := n + 1;
  }

  // Text put before what is encoded next.
  function Joined(text: string, r: Encoded): Encoded {
    Encoded(r.state, text + r.text)
  }

  lemma NoneEncoded(e: Encoding, bytes: seq<Byte>)
    ensures EncodeAll(e, bytes) == Joined("", EncodeAll(e, bytes[0..]))
  {
    assert bytes[0..] == bytes;
    assert "" + EncodeAll(e, bytes).text == EncodeAll(e, bytes).text;
  }

  lemma NextEncoded(done: string, e: Encoding, bytes: seq<Byte>, i: nat)
    requires i < |bytes|
    ensures var one := EncodeByte(e, bytes[i]);
            && Joined(done, EncodeAll(e, bytes[i..])) == Joined(done + one.text, EncodeAll(one.state, bytes[i + 1..]))
            && |done| + |one.text| <= |Joined(done, EncodeAll(e, bytes[i..])).text|
  {
    assert bytes[i..][1..] == bytes[i + 1..];
    var one := EncodeByte(e, bytes[i]);
    Strings.Assoc(done, one.text, EncodeAll(one.state, bytes[i + 1..]).text);
  }

  // The column of the next character in its line.
  function ColumnOf(e: Encoding): nat {
    4 * e.stepcount + match e.step case StepA => 0 case StepB => 1 case StepC => 2
  }

  // Line feeds, and only line feeds, stand in column 72 when the text starts in the given column.
  ghost predicate Lines(text: string, column: nat) {
    forall i :: 0 <= i < |text| ==> (text[i] == '\n' <==> (column + i) % (CHARS_PER_LINE + 1) == CHARS_PER_LINE)
  }

  lemma NoLineFeed(v: nat)
    ensures EncodeValue(v) != '\n'
  {
  }

  lemma OneByteLines(e: Encoding, f: Byte)
    requires e.stepcount < 18
    ensures var one := EncodeByte(e, f);
            && one.state.stepcount < 18 && Lines(one.text, ColumnOf(e))
            && ColumnOf(one.state) == if ColumnOf(e) + |one.text| == 73 then 0 else ColumnOf(e) + |one.text|
  {
    NoLineFeed(f / 4);
    NoLineFeed(Or(e.result, f / 16));
    NoLineFeed(Or(e.result, f / 64));
    NoLineFeed(f % 64);
  }

  lemma LinesAppend(a: string, b: string, column: nat, next: nat)
    requires Lines(a, column) && Lines(b, next) && (next == column + |a| || next + 73 == column + |a|)
    ensures Lines(a + b, column)
  {
    forall i | 0 <= i < |a + b| ensures (a + b)[i] == '\n' <==> (column + i) % 73 == 72 {
      if i >= |a| {
        assert (a + b)[i] == b[i - |a|];
        assert column + i == next + (i - |a|) || column + i == next + (i - |a|) + 73;
      }
    }
  }

  /** Every line but the last has exactly CHARS_PER_LINE characters, however the input is cut. */
  lemma {:induction false} LinesAreFull(e: Encoding, bytes: seq<Byte>)
    requires e.stepcount < 18
    ensures Lines(EncodeAll(e, bytes).text, ColumnOf(e))
    decreases |bytes|
  {
    if |bytes| > 0 {
      var one := EncodeByte(e, bytes[0]);
      OneByteLines(e, bytes[0]);
      LinesAreFull(one.state, bytes[1..]);
      LinesAppend(one.text, EncodeAll(one.state, bytes[1..]).text, ColumnOf(e), ColumnOf(one.state));
    }
  }

  // Group of three bytes as one number, cut into four values, section 4 of RFC 4648.
  function Group(a: Byte, b: Byte, c: Byte): (g: nat)
    ensures g < 0x100_0000
  {
    65536 * a + 256 * b + c
  }

  function Value(group: nat, i: nat): (v: nat)
    requires group < 0x100_0000
    ensures v < 64
  {
    match i case 0 => group / 262144 case 1 => group / 4096 % 64 case 2 => group / 64 % 64 case _ => group % 64
  }

  function GroupText(g: nat): (r: string)
    requires g < 0x100_0000
    ensures |r| == 4
  {
    [Letter(Value(g, 0)), Letter(Value(g, 1)), Letter(Value(g, 2)), Letter(Value(g, 3))]
  }

  /** The encoding of section 4 of RFC 4648, by its table of letters. */
  function Rfc4648(bytes: seq<Byte>): string {
    if |bytes| == 0 then ""
    else if |bytes| == 1 then GroupText(Group(bytes[0], 0, 0))[..2] + "=="
    else if |bytes| == 2 then GroupText(Group(bytes[0], bytes[1], 0))[..3] + "="
    else GroupText(Group(bytes[0], bytes[1], bytes[2])) + Rfc4648(bytes[3..])
  }

  function WithoutLineFeeds(s: string): string {
    if |s| == 0 then "" else (if s[0] == '\n' then "" else [s[0]]) + WithoutLineFeeds(s[1..])
  }

  lemma {:induction false} WithoutAppend(a: string, b: string)
    ensures WithoutLineFeeds(a + b) == WithoutLineFeeds(a) + WithoutLineFeeds(b)
  {
    if |a| == 0 {
      assert a + b == b;
    } else {
      assert (a + b)[1..] == a[1..] + b;
      WithoutAppend(a[1..], b);
    }
  }

  lemma {:induction false} WithoutNone(a: string)
    requires '\n' !in a
    ensures WithoutLineFeeds(a) == a
  {
    if |a| > 0 {
      WithoutNone(a[1..]);
    }
  }

  lemma OrAdds(h: nat, l: nat, k: nat)
    requires l < Pow2(k) && h % Pow2(k) == 0
    ensures Or(h, l) == h + l
  {
    var p := Pow2(k);
    assert h == h / p * p;
    OrDisjoint(h / p, l, k);
  }

  // The four values of a group, by the bytes.
  lemma GroupValues(a: Byte, b: Byte, c: Byte)
    ensures var g := Group(a, b, c);
            && Value(g, 0) == a / 4 && Value(g, 1) == a % 4 * 16 + b / 16
            && Value(g, 2) == b % 16 * 4 + c / 64 && Value(g, 3) == c % 64
  {
    GroupQuotients(a, a / 4, a % 4, b, b / 16, b % 16, c, c / 64, c % 64);
  }

  lemma GroupQuotients(a: Byte, a1: nat, a0: nat, b: Byte, b1: nat, b0: nat, c: Byte, c1: nat, c0: nat)
    requires a == 4 * a1 + a0 && a0 < 4 && b == 16 * b1 + b0 && b0 < 16 && c == 64 * c1 + c0 && c0 < 64
    ensures var g := Group(a, b, c);
            && g / 262144 == a1 && g / 4096 % 64 == a0 * 16 + b1 && g / 64 % 64 == b0 * 4 + c1 && g % 64 == c0
  {
    var g := Group(a, b, c);
    assert g / 64 == 1024 * a + 4 * b + c1;
    assert g / 4096 == 16 * a + b1;
    assert g / 262144 == a1;
  }

  lemma PartsJoin(a: Byte, b: Byte)
    ensures Or(a % 4 * 16, b / 16) == a % 4 * 16 + b / 16
    ensures Or(a % 16 * 4, b / 64) == a % 16 * 4 + b / 64
  {
    SixteensJoin(a % 4, b / 16);
    FoursJoin(a % 16, b / 64);
  }

  lemma SixteensJoin(x: nat, y: nat)
    requires y < 16
    ensures Or(x * 16, y) == x * 16 + y
  {
    SmallPowers();
    OrAdds(x * 16, y, 4);
  }

  lemma FoursJoin(x: nat, y: nat)
    requires y < 4
    ensures Or(x * 4, y) == x * 4 + y
  {
    SmallPowers();
    OrAdds(x * 4, y, 2);
  }

  lemma EncodeOneMore(e: Encoding, a: Byte, rest: seq<Byte>, one: Encoded, more: Encoded)
    requires one == EncodeByte(e, a) && more == EncodeAll(one.state, rest)
    ensures EncodeAll(e, [a] + rest) == Encoded(more.state, one.text + more.text)
  {
    assert ([a] + rest)[1..] == rest;
  }

  // The bytes of a group one by one.
  lemma EncodeThree(e: Encoding, a: Byte, b: Byte, c: Byte, rest: seq<Byte>) returns (last: Encoded, more: Encoded)
    requires e.step == StepA
    ensures last.state.step == StepA && more == EncodeAll(last.state, rest)
    ensures EncodeAll(e, [a] + ([b] + ([c] + rest))) == Encoded(more.state, last.text + more.text)
    ensures last.text == GroupText(Group(a, b, c)) || last.text == GroupText(Group(a, b, c)) + "\n"
  {
    var x := EncodeByte(e, a);
    var y := EncodeByte(x.state, b);
    var z := EncodeByte(y.state, c);
    more := EncodeAll(z.state, rest);
    last := Encoded(z.state, x.text + (y.text + z.text));
    EncodeOneMore(y.state, c, rest, z, more);
    EncodeOneMore(x.state, b, [c] + rest, y, EncodeAll(y.state, [c] + rest));
    EncodeOneMore(e, a, [b] + ([c] + rest), x, EncodeAll(x.state, [b] + ([c] + rest)));
    Strings.Assoc(y.text, z.text, more.text);
    Strings.Assoc(x.text, y.text + z.text, more.text);
    var v, w := Or(a % 4 * 16, b / 16), Or(b % 16 * 4, c / 64);
    TextOfThree(e, a, b, c, x, y, z, v, w);
    GroupIs(a, b, c, v, w);
  }

  lemma TextOfThree(e: Encoding, a: Byte, b: Byte, c: Byte, x: Encoded, y: Encoded, z: Encoded, v: nat, w: nat)
    requires e.step == StepA && x == EncodeByte(e, a) && y == EncodeByte(x.state, b) && z == EncodeByte(y.state, c)
    requires v == Or(a % 4 * 16, b / 16) && w == Or(b % 16 * 4, c / 64)
    ensures z.state.step == StepA
    ensures var text := x.text + (y.text + z.text); var group := [EncodeValue(a / 4), EncodeValue(v), EncodeValue(w), EncodeValue(c % 64)];
            text == group || text == group + "\n"
  {
    assert x.text == [EncodeValue(a / 4)] && y.text == [EncodeValue(v)];
    assert z.text == [EncodeValue(w), EncodeValue(c % 64)] || z.text == [EncodeValue(w), EncodeValue(c % 64), '\n'];
  }

  lemma GroupIs(a: Byte, b: Byte, c: Byte, v: nat, w: nat)
    requires v == Or(a % 4 * 16, b / 16) && w == Or(b % 16 * 4, c / 64)
    ensures GroupText(Group(a, b, c)) == [EncodeValue(a / 4), EncodeValue(v), EncodeValue(w), EncodeValue(c % 64)]
  {
    hide Value, Letter, EncodeValue, Group;
    GroupValues(a, b, c);
    PartsJoin(a, b);
    PartsJoin(b, c);
    GroupLetters(Group(a, b, c));
  }

  lemma GroupLetters(g: nat)
    requires g < 0x100_0000
    ensures GroupText(g) == [EncodeValue(Value(g, 0)), EncodeValue(Value(g, 1)), EncodeValue(Value(g, 2)), EncodeValue(Value(g, 3))]
  {
    hide Value, Letter, EncodeValue;
    LettersInRanges(Value(g, 0));
    LettersInRanges(Value(g, 1));
    LettersInRanges(Value(g, 2));
    LettersInRanges(Value(g, 3));
  }

  lemma ValuesAreNoLineFeeds(g: nat)
    requires g < 0x100_0000
    ensures '\n' !in GroupText(g)
  {
    hide Value, Letter, EncodeValue;
    GroupLetters(g);
    forall i | 0 <= i < 4 ensures EncodeValue(Value(g, i)) != '\n' {
      NoLineFeed(Value(g, i));
    }
  }

  lemma GroupWithout(g: nat, text: string)
    requires g < 0x100_0000 && (text == GroupText(g) || text == GroupText(g) + "\n")
    ensures WithoutLineFeeds(text) == GroupText(g)
  {
    ValuesAreNoLineFeeds(g);
    WithoutNone(GroupText(g));
    WithoutAppend(GroupText(g), "\n");
    assert WithoutLineFeeds("\n") == "" && GroupText(g) + "" == GroupText(g);
  }

  lemma TakeThree(bytes: seq<Byte>)
    requires |bytes| >= 3
    ensures bytes == [bytes[0]] + ([bytes[1]] + ([bytes[2]] + bytes[3..]))
  {
  }

  // The whole text of an encoding.
  function Whole(r: Encoded): string {
    r.text + EndText(r.state)
  }

  /** Without its line feeds, the encoder's output is the encoding of section 4 of RFC 4648. */
  lemma {:induction false} EncodedIsRfc4648(e: Encoding, bytes: seq<Byte>)
    requires e.step == StepA
    ensures WithoutLineFeeds(Whole(EncodeAll(e, bytes))) == Rfc4648(bytes)
    decreases |bytes|
  {
    if |bytes| >= 3 {
      var last, more := EncodeThree(e, bytes[0], bytes[1], bytes[2], bytes[3..]);
      TakeThree(bytes);
      EncodedIsRfc4648(last.state, bytes[3..]);
      GroupWithout(Group(bytes[0], bytes[1], bytes[2]), last.text);
      Strings.Assoc(last.text, more.text, EndText(more.state));
      WithoutAppend(last.text, Whole(more));
    } else if |bytes| == 2 {
      TwoBytes(e, bytes[0], bytes[1]);
      assert bytes == [bytes[0], bytes[1]];
    } else if |bytes| == 1 {
      OneByte(e, bytes[0]);
      assert bytes == [bytes[0]];
    } else {
      assert "" + "\n" == "\n" && WithoutLineFeeds("\n") == "";
    }
  }

  lemma OneByte(e: Encoding, a: Byte)
    requires e.step == StepA
    ensures WithoutLineFeeds(Whole(EncodeAll(e, [a]))) == Rfc4648([a])
  {
    RfcOne(a);
    var e' := EncodeByte(e, a).state;
    EncodeOneMore(e, a, [], EncodeByte(e, a), Encoded(e', ""));
    assert [a] + [] == [a];
    var x, y := EncodeValue(a / 4), EncodeValue(a % 4 * 16);
    FinalLine([x, y, '=', '=']);
    assert Whole(EncodeAll(e, [a])) == [x, y, '=', '='] + "\n";
  }

  lemma RfcOne(a: Byte)
    ensures Rfc4648([a]) == [EncodeValue(a / 4), EncodeValue(a % 4 * 16), '=', '=']
  {
    hide Value, Letter, EncodeValue, Group;
    GroupValues(a, 0, 0);
    GroupLetters(Group(a, 0, 0));
    assert GroupText(Group(a, 0, 0))[..2] == [EncodeValue(a / 4), EncodeValue(a % 4 * 16)];
  }

  lemma FinalLine(s: string)
    requires '\n' !in s
    ensures WithoutLineFeeds(s + "\n") == s
  {
    WithoutAppend(s, "\n");
    WithoutNone(s);
    assert WithoutLineFeeds("\n") == "" && s + "" == s;
  }

  lemma TwoBytes(e: Encoding, a: Byte, b: Byte)
    requires e.step == StepA
    ensures WithoutLineFeeds(Whole(EncodeAll(e, [a, b]))) == Rfc4648([a, b])
  {
    var x, y, z := EncodeValue(a / 4), EncodeValue(Or(a % 4 * 16, b / 16)), EncodeValue(b % 16 * 4);
    var r := EncodeTwo(e, a, b, x, y);
    WholeOfTwo(r, x, y, z);
    FinalLine([x, y, z, '=']);
    RfcTwo(a, b, x, y, z);
  }

  lemma RfcTwo(a: Byte, b: Byte, x: char, y: char, z: char)
    requires x == EncodeValue(a / 4) && y == EncodeValue(Or(a % 4 * 16, b / 16)) && z == EncodeValue(b % 16 * 4)
    ensures Rfc4648([a, b]) == [x, y, z, '=']
  {
    hide Value, Letter, EncodeValue, Group;
    GroupValues(a, b, 0);
    PartsJoin(a, b);
    GroupLetters(Group(a, b, 0));
    assert GroupText(Group(a, b, 0))[..3] == [x, y, z];
  }

  lemma EncodeTwo(e: Encoding, a: Byte, b: Byte, x: char, y: char) returns (r: Encoded)
    requires e.step == StepA && x == EncodeValue(a / 4) && y == EncodeValue(Or(a % 4 * 16, b / 16))
    ensures r == EncodeAll(e, [a, b]) && r == Encoded(Encoding(StepC, b % 16 * 4, e.stepcount), [x, y])
  {
    var one := EncodeByte(e, a);
    var two := EncodeByte(one.state, b);
    r := Encoded(two.state, one.text + two.text);
    EncodeOneMore(one.state, b, [], two, Encoded(two.state, ""));
    EncodeOneMore(e, a, [b], one, EncodeAll(one.state, [b] + []));
    assert [b] + [] == [b] && [a] + [b] == [a, b] && two.text + "" == two.text;
  }

  lemma WholeOfTwo(r: Encoded, x: char, y: char, z: char)
    requires r.state.step == StepC && z == EncodeValue(r.state.result) && r.text == [x, y]
    ensures Whole(r) == [x, y, z, '='] + "\n"
  {
  }

  datatype DecodeStep = StepOne | StepTwo | StepThree | StepFour

  // plain is the byte begun; there is none in the first step.
  datatype Decoding = Decoding(step: DecodeStep, plain: Byte)

  datatype Decoded = Decoded(state: Decoding, bytes: seq<Byte>)

  const DECODE_START: Decoding := Decoding(StepOne, 0)

  lemma {:induction false} OrBelow(x: nat, y: nat, k: nat)
    requires x < Pow2(k) && y < Pow2(k)
    ensures Or(x, y) < Pow2(k)
  {
    if k > 0 {
      OrBelow(x / 2, y / 2, k - 1);
    }
  }

  // The |= operator on a byte.
  function OrByte(x: Byte, y: Byte): Byte {
    Pow2Eight();
    OrBelow(x, y, 8);
    Or(x, y)
  }

  // What one more character does to the state, and the byte it completes.
  function DecodeChar(d: Decoding, c: char, past: int): Decoded {
    var v := DecodeValue(c, past);
    if v < 0 then Decoded(d, [])
    else
      match d.step
      case StepOne => Decoded(Decoding(StepTwo, v % 64 * 4), [])
      case StepTwo => Decoded(Decoding(StepThree, v % 16 * 16), [OrByte(d.plain, v / 16 % 4)])
      case StepThree => Decoded(Decoding(StepFour, v % 4 * 64), [OrByte(d.plain, v / 4 % 16)])
      case StepFour => Decoded(Decoding(StepOne, 0), [OrByte(d.plain, v % 64)])
  }

  function DecodeAll(d: Decoding, code: string, past: int): (r: Decoded)
    ensures |r.bytes| <= |code|
    decreases |code|
  {
    if |code| == 0 then Decoded(d, [])
    else
      var one := DecodeChar(d, code[0], past);
      var more := DecodeAll(one.state, code[1..], past);
      Decoded(more.state, one.bytes + more.bytes)
  }

  lemma {:induction false} DecodeAppend(d: Decoding, a: string, b: string, past: int)
    ensures var x := DecodeAll(d, a, past); var y := DecodeAll(x.state, b, past);
            DecodeAll(d, a + b, past) == Decoded(y.state, x.bytes + y.bytes)
    decreases |a|
  {
    if |a| == 0 {
      assert a + b == b;
      assert [] + DecodeAll(d, b, past).bytes == DecodeAll(d, b, past).bytes;
    } else {
      assert (a + b)[1..] == a[1..] + b;
      var one := DecodeChar(d, a[0], past);
      DecodeAppend(one.state, a[1..], b, past);
      var more := DecodeAll(one.state, a[1..], past);
      Strings.Assoc(one.bytes, more.bytes, DecodeAll(more.state, b, past).bytes);
    }
  }

  class DecodeState {
    var step: DecodeStep
    var plainchar: Byte

    /** base64_init_decodestate */
    constructor ()
      ensures Value() == DECODE_START
    {
      step, plainchar := StepOne, 0;
    }

    function Value(): Decoding
      reads this
    {
      Decoding(step, if step == StepOne then 0 else plainchar)
    }
  }

  /** base64_decode_block; one turn of the loop is one turn of the loop in its current step.
      The byte behind the last complete one is written too. */
  method DecodeBlock(codeIn: string, plaintextOut: array<Byte>, stateIn: DecodeState, past: int) returns (n: nat)
    requires plaintextOut.Length > |DecodeAll(stateIn.Value(), codeIn, past).bytes|
    modifies plaintextOut, stateIn
    ensures stateIn.Value() == DecodeAll(old(stateIn.Value()), codeIn, past).state
    ensures n < plaintextOut.Length && plaintextOut[..n] == DecodeAll(old(stateIn.Value()), codeIn, past).bytes
    ensures forall j :: n < j < plaintextOut.Length ==> plaintextOut[j] == old(plaintextOut[j])
  {
    var codechar, plainchar := 0, 0;
    ghost var all := DecodeAll(stateIn.Value(), codeIn, past);
    NoneDecoded(stateIn.Value(), codeIn, past);
    plaintextOut[0] := stateIn.plainchar;
    var step := stateIn.step;
    while codechar != |codeIn|
      invariant 0 <= codechar <= |codeIn| && 0 <= plainchar <= |all.bytes|
      invariant forall j :: plainchar < j < plaintextOut.Length ==> plaintextOut[j] == old(plaintextOut[j])
      invariant all == After(plaintextOut[..plainchar], DecodeAll(Current(step, plaintextOut[plainchar]), codeIn[codechar..], past))
    {
      NextDecoded(plaintextOut[..plainchar], Current(step, plaintextOut[plainchar]), codeIn, codechar, past);
      step, plainchar := DecodeOne(codeIn[codechar], plaintextOut, plainchar, step, past);
      codechar := codechar + 1;
    }
    stateIn.step := step;
    stateIn.plainchar := plaintextOut[plainchar];
    n := plainchar;
    assert plaintextOut[..n] + [] == plaintextOut[..n];
  }

  function Current(step: DecodeStep, plain: Byte): Decoding {
    Decoding(step, if step == StepOne then 0 else plain)
  }

  // Bytes put before what is decoded next.
  function After(bytes: seq<Byte>, r: Decoded): Decoded {
    Decoded(r.state, bytes + r.bytes)
  }

  lemma NoneDecoded(d: Decoding, code: string, past: int)
    ensures DecodeAll(d, code, past) == After([], DecodeAll(d, code[0..], past))
  {
    assert code[0..] == code;
    assert [] + DecodeAll(d, code, past).bytes == DecodeAll(d, code, past).bytes;
  }

  lemma NextDecoded(done: seq<Byte>, d: Decoding, code: string, i: nat, past: int)
    requires i < |code|
    ensures var one := DecodeChar(d, code[i], past);
            && After(done, DecodeAll(d, code[i..], past)) == After(done + one.bytes, DecodeAll(one.state, code[i + 1..], past))
            && |done| + |one.bytes| <= |After(done, DecodeAll(d, code[i..], past)).bytes|
  {
    assert code[i..][1..] == code[i + 1..];
    var one := DecodeChar(d, code[i], past);
    Strings.Assoc(done, one.bytes, DecodeAll(one.state, code[i + 1..], past).bytes);
  }

  // One character in its step.
  method DecodeOne(c: char, plaintextOut: array<Byte>, plainchar0: nat, step0: DecodeStep, past: int)
    returns (step: DecodeStep, plainchar: nat)
    requires plainchar0 < plaintextOut.Length
    requires plainchar0 + |DecodeChar(Current(step0, plaintextOut[plainchar0]), c, past).bytes| < plaintextOut.Length
    modifies plaintextOut
    ensures plainchar0 <= plainchar < plaintextOut.Length
    ensures forall j :: plainchar < j < plaintextOut.Length ==> plaintextOut[j] == old(plaintextOut[j])
    ensures DecodeChar(Current(step0, old(plaintextOut[plainchar0])), c, past)
            == Decoded(Current(step, plaintextOut[plainchar]), plaintextOut[plainchar0..plainchar])
    ensures plaintextOut[..plainchar] == old(plaintextOut[..plainchar0]) + plaintextOut[plainchar0..plainchar]
  {
    step, plainchar := step0, plainchar0;
    var fragment := DecodeValue(c, past);
    if fragment < 0 {
      return;
    }
    match step
    case StepOne =>
      plaintextOut[plainchar] := fragment % 64 * 4;
      step := StepTwo;
    case StepTwo =>
      plaintextOut[plainchar] := OrByte(plaintextOut[plainchar], fragment / 16 % 4);
      plainchar := plainchar + 1;
      plaintextOut[plainchar] := fragment % 16 * 16;
      step := StepThree;
    case StepThree =>
      plaintextOut[plainchar] := OrByte(plaintextOut[plainchar], fragment / 4 % 16);
      plainchar := plainchar + 1;
      plaintextOut[plainchar] := fragment % 4 * 64;
      step := StepFour;
    case StepFour =>
      plaintextOut[plainchar] := OrByte(plaintextOut[plainchar], fragment % 64);
      plainchar := plainchar + 1;
      step := StepOne;
  }

  // The encoder and the decoder of its output stand in the same place, with the byte in between held by both.
  predicate Related(e: Encoding, d: Decoding) {
    match e.step
    case StepA => d == DECODE_START
    case StepB => d.step == StepTwo && d.plain % 4 == 0 && e.result % 16 == 0 && e.result < 64
    case StepC => d.step == StepThree && d.plain % 16 == 0 && e.result % 4 == 0 && e.result < 64
  }

  function Pending(e: Encoding, d: Decoding): seq<Byte>
    requires Related(e, d)
  {
    match e.step
    case StepA => []
    case StepB => [d.plain + e.result / 16]
    case StepC => [d.plain + e.result / 4]
  }

  lemma FoursOr(x: Byte, h: Byte)
    requires x % 4 == 0 && h < 4
    ensures OrByte(x, h) == x + h && x + h < 256
  {
    SmallPowers();
    OrAdds(x, h, 2);
  }

  lemma SixteensOr(x: Byte, h: Byte)
    requires x % 16 == 0 && h < 16
    ensures OrByte(x, h) == x + h && x + h < 256
  {
    SmallPowers();
    OrAdds(x, h, 4);
  }

  lemma SixtyFoursOr(x: Byte, h: Byte)
    requires x % 64 == 0 && h < 64
    ensures OrByte(x, h) == x + h && x + h < 256
  {
    SmallPowers();
    OrAdds(x, h, 6);
  }

  // One byte through both: the byte before it comes out, or the pending part of it stays.
  lemma StepRelated(e: Encoding, d: Decoding, f: Byte, past: int) returns (one: Encoded, r: Decoded)
    requires Related(e, d)
    ensures one == EncodeByte(e, f) && r == DecodeAll(d, one.text, past)
    ensures Related(one.state, r.state) && r.bytes + Pending(one.state, r.state) == Pending(e, d) + [f]
  {
    one := EncodeByte(e, f);
    match e.step
    case StepA => r := FirstRelated(e, d, f, past);
    case StepB => r := SecondRelated(e, d, f, past);
    case StepC => r := ThirdRelated(e, d, f, past);
  }

  lemma FirstRelated(e: Encoding, d: Decoding, f: Byte, past: int) returns (r: Decoded)
    requires Related(e, d) && e.step == StepA
    ensures var one := EncodeByte(e, f);
            && r == DecodeAll(d, one.text, past) && Related(one.state, r.state)
            && r.bytes + Pending(one.state, r.state) == Pending(e, d) + [f]
  {
    r := DecodeAll(d, [EncodeValue(f / 4)], past);
    ValueRoundTrip(f / 4, past);
    DecodeOneChar(d, EncodeValue(f / 4), past);
  }

  lemma Quotients(h: nat, l: nat, m: nat)
    requires l < m && (m == 4 || m == 16)
    ensures (m * h + l) / m == h && (m * h + l) % m == l
  {
  }

  // The second character completes the byte begun with its upper bits h, and begins the next with l.
  lemma SecondChar(d: Decoding, h: nat, l: nat, past: int)
    requires d.step == StepTwo && d.plain % 4 == 0 && h < 4 && l < 16
    ensures d.plain + h < 256
    ensures DecodeChar(d, EncodeValue(16 * h + l), past) == Decoded(Decoding(StepThree, 16 * l), [d.plain + h])
  {
    ValueRoundTrip(16 * h + l, past);
    FoursOr(d.plain, h);
    Quotients(h, l, 16);
    SmallMod(h, 4);
    SecondValue(d, EncodeValue(16 * h + l), 16 * h + l, h, 16 * l, past);
  }

  lemma SecondValue(d: Decoding, c: char, v: nat, h: nat, p: Byte, past: int)
    requires d.step == StepTwo && DecodeValue(c, past) == v && v / 16 % 4 == h && v % 16 * 16 == p
    requires h < 256 && OrByte(d.plain, h) == d.plain + h
    ensures DecodeChar(d, c, past) == Decoded(Decoding(StepThree, p), [d.plain + h])
  {
  }

  lemma ThirdChar(d: Decoding, h: nat, l: nat, past: int)
    requires d.step == StepThree && d.plain % 16 == 0 && h < 16 && l < 4
    ensures d.plain + h < 256
    ensures DecodeChar(d, EncodeValue(4 * h + l), past) == Decoded(Decoding(StepFour, 64 * l), [d.plain + h])
  {
    ValueRoundTrip(4 * h + l, past);
    SixteensOr(d.plain, h);
    Quotients(h, l, 4);
    SmallMod(h, 16);
    ThirdValue(d, EncodeValue(4 * h + l), 4 * h + l, h, 64 * l, past);
  }

  lemma SmallMod(h: nat, m: nat)
    requires h < m
    ensures h % m == h
  {
  }

  lemma ThirdValue(d: Decoding, c: char, v: nat, h: nat, p: Byte, past: int)
    requires d.step == StepThree && DecodeValue(c, past) == v && v / 4 % 16 == h && v % 4 * 64 == p
    requires h < 256 && OrByte(d.plain, h) == d.plain + h
    ensures DecodeChar(d, c, past) == Decoded(Decoding(StepFour, p), [d.plain + h])
  {
  }

  lemma FourthValue(d: Decoding, c: char, v: nat, h: nat, past: int)
    requires d.step == StepFour && DecodeValue(c, past) == v && v % 64 == h
    requires h < 256 && OrByte(d.plain, h) == d.plain + h
    ensures DecodeChar(d, c, past) == Decoded(DECODE_START, [d.plain + h])
  {
  }

  lemma FourthChar(d: Decoding, l: nat, past: int)
    requires d.step == StepFour && d.plain % 64 == 0 && l < 64
    ensures d.plain + l < 256 && DecodeChar(d, EncodeValue(l), past) == Decoded(DECODE_START, [d.plain + l])
  {
    ValueRoundTrip(l, past);
    SixtyFoursOr(d.plain, l);
    SmallMod(l, 64);
    FourthValue(d, EncodeValue(l), l, l, past);
  }

  lemma SecondByte(e: Encoding, f: Byte, h: nat, l: nat, low: nat)
    requires e.step == StepB && e.result == 16 * h && h < 4 && f == 16 * l + low && low < 16
    ensures EncodeByte(e, f) == Encoded(Encoding(StepC, 4 * low, e.stepcount), [EncodeValue(16 * h + l)])
  {
    SmallPowers();
    assert f / 16 == l && f % 16 == low;
    OrAdds(16 * h, l, 4);
  }

  lemma ThirdByte(e: Encoding, f: Byte, h: nat, l: nat, low: nat) returns (one: Encoded)
    requires e.step == StepC && e.result == 4 * h && h < 16 && f == 64 * l + low && low < 64
    ensures one == EncodeByte(e, f) && one.state.step == StepA
    ensures one.text == [EncodeValue(4 * h + l), EncodeValue(low)] || one.text == [EncodeValue(4 * h + l), EncodeValue(low), '\n']
  {
    SmallPowers();
    assert f / 64 == l && f % 64 == low;
    OrAdds(4 * h, l, 2);
    one := EncodeByte(e, f);
  }

  lemma SecondRelated(e: Encoding, d: Decoding, f: Byte, past: int) returns (r: Decoded)
    requires Related(e, d) && e.step == StepB
    ensures var one := EncodeByte(e, f);
            && r == DecodeAll(d, one.text, past) && Related(one.state, r.state)
            && r.bytes + Pending(one.state, r.state) == Pending(e, d) + [f]
  {
    r := SecondStep(e, d, f, e.result / 16, f / 16, f % 16, past);
  }

  lemma SecondStep(e: Encoding, d: Decoding, f: Byte, h: nat, l: nat, low: nat, past: int) returns (r: Decoded)
    requires Related(e, d) && e.step == StepB && e.result == 16 * h && f == 16 * l + low && h < 4 && l < 16 && low < 16
    ensures var one := EncodeByte(e, f);
            && r == DecodeAll(d, one.text, past) && Related(one.state, r.state)
            && r.bytes + Pending(one.state, r.state) == Pending(e, d) + [f]
  {
    SecondByte(e, f, h, l, low);
    SecondChar(d, h, l, past);
    DecodeOneChar(d, EncodeValue(16 * h + l), past);
    r := Decoded(Decoding(StepThree, 16 * l), [d.plain + h]);
    HeldByte(r.state, Encoding(StepC, 4 * low, e.stepcount), l, low);
  }

  lemma HeldByte(d: Decoding, e: Encoding, l: nat, low: nat)
    requires d.step == StepThree && d.plain == 16 * l && e.step == StepC && e.result == 4 * low && low < 16
    ensures Related(e, d) && Pending(e, d) == [16 * l + low]
  {
  }

  lemma ThirdRelated(e: Encoding, d: Decoding, f: Byte, past: int) returns (r: Decoded)
    requires Related(e, d) && e.step == StepC
    ensures var one := EncodeByte(e, f);
            && r == DecodeAll(d, one.text, past) && Related(one.state, r.state)
            && r.bytes + Pending(one.state, r.state) == Pending(e, d) + [f]
  {
    r := ThirdStep(e, d, f, e.result / 4, f / 64, f % 64, past);
  }

  lemma ThirdStep(e: Encoding, d: Decoding, f: Byte, h: nat, l: nat, low: nat, past: int) returns (r: Decoded)
    requires Related(e, d) && e.step == StepC && e.result == 4 * h && f == 64 * l + low && h < 16 && l < 4 && low < 64
    ensures r == DecodeAll(d, EncodeByte(e, f).text, past) && EncodeByte(e, f).state.step == StepA
    ensures r == Decoded(DECODE_START, [d.plain + h] + [f])
  {
    hide EncodeByte, EncodeValue, DecodeChar, DecodeAll;
    var one := ThirdByte(e, f, h, l, low);
    ThirdChar(d, h, l, past);
    FourthChar(Decoding(StepFour, 64 * l), low, past);
    LastChars(d, EncodeValue(4 * h + l), EncodeValue(low), one.text, past);
    r := Decoded(DECODE_START, [d.plain + h] + [64 * l + low]);
  }

  lemma DecodeOneChar(d: Decoding, c: char, past: int)
    ensures DecodeAll(d, [c], past) == DecodeChar(d, c, past)
  {
    assert [c][1..] == "";
    assert DecodeChar(d, c, past).bytes + [] == DecodeChar(d, c, past).bytes;
  }

  lemma LastChars(d: Decoding, x: char, y: char, text: string, past: int)
    requires text == [x, y] || text == [x, y, '\n']
    ensures var one := DecodeChar(d, x, past); var two := DecodeChar(one.state, y, past);
            DecodeAll(d, text, past) == Decoded(two.state, one.bytes + two.bytes)
  {
    var one := DecodeChar(d, x, past);
    var two := DecodeChar(one.state, y, past);
    DecodeOneChar(one.state, y, past);
    DecodeOneChar(two.state, '\n', past);
    DecodeAppend(d, [x], [y], past);
    DecodeOneChar(d, x, past);
    DecodeAppend(d, [x, y], "\n", past);
    assert [x] + [y] == [x, y] && [x, y] + "\n" == [x, y, '\n'];
    assert one.bytes + two.bytes + [] == one.bytes + two.bytes;
  }

  /** The decoder follows the encoder, at most one byte behind. */
  lemma {:induction false} Follows(e: Encoding, d: Decoding, bytes: seq<Byte>, past: int) returns (x: Encoded,
                                   y: Decoded)
    requires Related(e, d)
    ensures x == EncodeAll(e, bytes) && y == DecodeAll(d, x.text, past)
    ensures Related(x.state, y.state) && y.bytes + Pending(x.state, y.state) == Pending(e, d) + bytes
    decreases |bytes|
  {
    if |bytes| == 0 {
      x, y := Encoded(e, ""), Decoded(d, []);
      assert [] + Pending(e, d) == Pending(e, d) + [];
    } else {
      var one, r := StepRelated(e, d, bytes[0], past);
      var more, rest := Follows(one.state, r.state, bytes[1..], past);
      x, y := EncodeAll(e, bytes), Decoded(rest.state, r.bytes + rest.bytes);
      DecodeAppend(d, one.text, more.text, past);
      BytesInOrder(r.bytes, Pending(one.state, r.state), rest.bytes, Pending(more.state, rest.state),
                   Pending(e, d), bytes[0], bytes[1..]);
      assert bytes == [bytes[0]] + bytes[1..];
    }
  }

  lemma BytesInOrder(out: seq<Byte>, mid: seq<Byte>, more: seq<Byte>, last: seq<Byte>, first: seq<Byte>, b: Byte,
                     rest: seq<Byte>)
    requires out + mid == first + [b] && more + last == mid + rest
    ensures out + more + last == first + ([b] + rest)
  {
    Strings.Assoc(out, more, last);
    Strings.Assoc(out, mid, rest);
    Strings.Assoc(first, [b], rest);
  }

  /** At the end the last byte comes out; padding and line feeds are skipped. */
  lemma EndRelated(e: Encoding, d: Decoding, past: int)
    requires Related(e, d)
    ensures DecodeAll(d, EndText(e), past).bytes == Pending(e, d)
  {
    match e.step
    case StepA =>
      DecodeOneChar(d, '\n', past);
    case StepB =>
      EndAfterOne(e, d, e.result / 16, past);
    case StepC =>
      EndAfterTwo(e, d, e.result / 4, past);
  }

  lemma EndAfterOne(e: Encoding, d: Decoding, h: nat, past: int)
    requires Related(e, d) && e.step == StepB && e.result == 16 * h && h < 4
    ensures DecodeAll(d, EndText(e), past).bytes == [d.plain + h]
  {
    SecondChar(d, h, 0, past);
    SkippedTail(d, EncodeValue(16 * h), "==\n", past);
  }

  lemma EndAfterTwo(e: Encoding, d: Decoding, h: nat, past: int)
    requires Related(e, d) && e.step == StepC && e.result == 4 * h && h < 16
    ensures DecodeAll(d, EndText(e), past).bytes == [d.plain + h]
  {
    ThirdChar(d, h, 0, past);
    SkippedTail(d, EncodeValue(4 * h), "=\n", past);
  }

  lemma SkippedTail(d: Decoding, c: char, tail: string, past: int)
    requires forall i :: 0 <= i < |tail| ==> tail[i] == '=' || tail[i] == '\n'
    ensures DecodeAll(d, [c] + tail, past) == DecodeChar(d, c, past)
  {
    Skipped(DecodeChar(d, c, past).state, tail, past);
    assert ([c] + tail)[1..] == tail;
    assert DecodeChar(d, c, past).bytes + [] == DecodeChar(d, c, past).bytes;
  }

  lemma {:induction false} Skipped(d: Decoding, tail: string, past: int)
    requires forall i :: 0 <= i < |tail| ==> tail[i] == '=' || tail[i] == '\n'
    ensures DecodeAll(d, tail, past) == Decoded(d, [])
    decreases |tail|
  {
    if |tail| > 0 {
      assert tail[0] == '=' || tail[0] == '\n';
      Skipped(d, tail[1..], past);
    }
  }

  /** Decoding the encoder's whole output gives the bytes back. */
  lemma RoundTrip(bytes: seq<Byte>, past: int)
    ensures DecodeAll(DECODE_START, Whole(EncodeAll(ENCODE_START, bytes)), past).bytes == bytes
  {
    var x, y := Follows(ENCODE_START, DECODE_START, bytes, past);
    EndRelated(x.state, y.state, past);
    DecodeAppend(DECODE_START, x.text, EndText(x.state), past);
    assert [] + bytes == bytes;
  }

  function Flat<T>(chunks: seq<seq<T>>): seq<T> {
    if |chunks| == 0 then [] else chunks[0] + Flat(chunks[1..])
  }

  lemma {:induction false} FlatAppend<T>(chunks: seq<seq<T>>, chunk: seq<T>)
    ensures Flat(chunks + [chunk]) == Flat(chunks) + chunk
  {
    if |chunks| == 0 {
      assert chunks + [chunk] == [chunk] && [chunk][1..] == [];
      assert chunk + [] == [] + chunk;
    } else {
      assert (chunks + [chunk])[1..] == chunks[1..] + [chunk];
      FlatAppend(chunks[1..], chunk);
      Strings.Assoc(chunks[0], Flat(chunks[1..]), chunk);
    }
  }

  /** The input handed to the encoder in chunks, then the end. */
  method EncodeChunks(chunks: seq<seq<Byte>>) returns (code: string)
    ensures code == Whole(EncodeAll(ENCODE_START, Flat(chunks)))
  {
    var state := new EncodeState();
    code := "";
    var i := 0;
    assert chunks[..0] == [];
    while i < |chunks|
      invariant 0 <= i <= |chunks|
      invariant EncodeAll(ENCODE_START, Flat(chunks[..i])) == Encoded(state.Value(), code)
    {
      var buffer := new char[3 * |chunks[i]|];
      EncodeAppend(ENCODE_START, Flat(chunks[..i]), chunks[i]);
      FlatAppend(chunks[..i], chunks[i]);
      assert chunks[..i + 1] == chunks[..i] + [chunks[i]];
      var n := EncodeBlock(chunks[i], buffer, state);
      code := code + buffer[..n];
      i := i + 1;
    }
    assert chunks[..i] == chunks;
    var buffer := new char[4];
    var n := EncodeBlockEnd(buffer, state);
    code := code + buffer[..n];
  }

  /** The code handed to the decoder in chunks. */
  method DecodeChunks(chunks: seq<string>, past: int) returns (bytes: seq<Byte>)
    ensures bytes == DecodeAll(DECODE_START, Flat(chunks), past).bytes
  {
    var state := new DecodeState();
    bytes := [];
    var i := 0;
    assert chunks[..0] == [];
    while i < |chunks|
      invariant 0 <= i <= |chunks|
      invariant DecodeAll(DECODE_START, Flat(chunks[..i]), past) == Decoded(state.Value(), bytes)
    {
      var buffer := new Byte[|chunks[i]| + 1];
      DecodeAppend(DECODE_START, Flat(chunks[..i]), chunks[i], past);
      FlatAppend(chunks[..i], chunks[i]);
      assert chunks[..i + 1] == chunks[..i] + [chunks[i]];
      var n := DecodeBlock(chunks[i], buffer, state, past);
      bytes := bytes + buffer[..n];
      i := i + 1;
    }
    assert chunks[..i] == chunks;
  }

  /** However the bytes and the code are cut, they come back. */
  method ThereAndBack(plain: seq<seq<Byte>>, cut: string -> seq<string>, past: int) returns (bytes: seq<Byte>)
    requires forall code :: Flat(cut(code)) == code
    ensures bytes == Flat(plain)
  {
    var code := EncodeChunks(plain);
    bytes := DecodeChunks(cut(code), past);
    RoundTrip(Flat(plain), past);
  }
}
