/** Decimal numbers and percent encoding, as the textual forms of patches and deltas use them. */
module PercentCodec {
  import opened Strings

  // Err stands for a thrown message.
  datatype Result<T> = Ok(value: T) | Err

  predicate IsDigit(c: char) {
    '0' <= c <= '9'
  }

  function DigitValue(c: char): nat
    requires IsDigit(c)
  {
    c as int - 48
  }

  function DigitChar(n: nat): char
    requires n < 10
  {
    (48 + n) as char
  }

  function Digits(n: nat): (s: string)
    ensures |s| > 0 && forall i :: 0 <= i < |s| ==> IsDigit(s[i])
  {
    if n < 10 then [DigitChar(n)] else Digits(n / 10) + [DigitChar(n % 10)]
  }

  // to_string
  function Decimal(n: int): string {
    if n < 0 then "-" + Digits(-n) else Digits(n)
  }

  /** to_string, from the last digit backwards */
  method ToString(n0: int) returns (s: string)
    ensures s == Decimal(n0)
  {
    var negative := n0 < 0;
    var n: nat := if negative then -n0 else n0;
    ghost var m := n;
    s := [DigitChar(n % 10)];
    n := n / 10;
    while n > 0
      invariant Digits(m) == if n > 0 then Digits(n) + s else s
    {
      s := [DigitChar(n % 10)] + s;
      n := n / 10;
    }
    if negative {
      s := "-" + s;
    }
  }

  // The value of the digits a string begins with, acc being what was read before.
  function ReadDigits(s: string, acc: nat): nat {
    if |s| == 0 || !IsDigit(s[0]) then acc else ReadDigits(s[1..], 10 * acc + DigitValue(s[0]))
  }

  function Minus(n: int): int {
    -n
  }

  // atoi, after white space
  function ToInt(s: string): int {
    if |s| > 0 && s[0] in " \t\n\r" then ToInt(s[1..])
    else if |s| > 0 && s[0] == '-' then Minus(ReadDigits(s[1..], 0))
    else if |s| > 0 && s[0] == '+' then ReadDigits(s[1..], 0)
    else ReadDigits(s, 0)
  }

  lemma {:induction false} ReadAppend(s: string, c: char, acc: nat)
    requires forall i :: 0 <= i < |s| ==> IsDigit(s[i])
    requires IsDigit(c)
    ensures ReadDigits(s + [c], acc) == 10 * ReadDigits(s, acc) + DigitValue(c)
  {
    if |s| == 0 {
      assert s + [c] == [c];
      assert [c][1..] == "";
    } else {
      assert (s + [c])[1..] == s[1..] + [c];
      ReadAppend(s[1..], c, 10 * acc + DigitValue(s[0]));
    }
  }

  lemma {:induction false} DigitsRoundTrip(n: nat)
    ensures ReadDigits(Digits(n), 0) == n
  {
    if n < 10 {
      assert Digits(n)[1..] == "";
    } else {
      DigitsRoundTrip(n / 10);
      ReadAppend(Digits(n / 10), DigitChar(n % 10), 0);
    }
  }

  /** to_int undoes to_string. */
  lemma DecimalRoundTrip(n: int)
    ensures ToInt(Decimal(n)) == n
  {
    if n < 0 {
      DigitsRoundTrip(-n);
      assert Decimal(n)[1..] == Digits(-n);
    } else {
      DigitsRoundTrip(n);
      assert IsDigit(Digits(n)[0]);
    }
  }

  // The characters that stand for themselves; the table also marks the zero that ends the literal.
  predicate Safe(c: char) {
    || IsDigit(c) || 'A' <= c <= 'Z' || 'a' <= c <= 'z' || c == '-' || c == '_' || c == '.' || c == '~' || c == ' '
    || c == '!' || c == '*' || c == '\'' || c == '(' || c == ')' || c == ';' || c == '/' || c == '?' || c == ':'
    || c == '@' || c == '&' || c == '=' || c == '+' || c == '$' || c == ',' || c == '#' || c == '\0'
  }

  predicate SevenBit(s: string) {
    forall i :: 0 <= i < |s| ==> (s[i] as int) < 128
  }

  function HexChar(n: nat): char
    requires n < 16
  {
    if n < 10 then (48 + n) as char else (55 + n) as char
  }

  // hex_digit_value; -1 stands for the exception
  function HexValue(c: char): (n: int)
    ensures -1 <= n < 16
  {
    if '0' <= c <= '9' then c as int - 48
    else if 'A' <= c <= 'F' then c as int - 55
    else if 'a' <= c <= 'f' then c as int - 87
    else -1
  }

  function Escape(n: nat): string
    requires n < 256
  {
    ['%', HexChar(n / 16), HexChar(n % 16)]
  }

  // The bytes of a character in UTF-8. Signed characters of 128 and more are sign-extended, which makes
  // them code points of 22 bits; the first byte keeps only its low eight bits.
  function Utf8(c: char): (bs: seq<nat>)
    ensures forall i :: 0 <= i < |bs| ==> bs[i] < 256
    ensures (c as int) < 128 ==> bs == [c as int]
  {
    if (c as int) < 128 then [c as int]
    else
      var low := c as int % 128;
      [255, 191, 190 + low / 64, 128 + low % 64]
  }

  function EncodeByte(n: nat): (s: string)
    requires n < 256
    ensures |s| == if Safe(n as char) then 1 else 3
  {
    if Safe(n as char) then [n as char] else Escape(n)
  }

  function EncodeBytes(bs: seq<nat>): string
    requires forall i :: 0 <= i < |bs| ==> bs[i] < 256
  {
    if |bs| == 0 then "" else EncodeByte(bs[0]) + EncodeBytes(bs[1..])
  }

  lemma {:induction false} BytesAppend(bs: seq<nat>, n: nat)
    requires n < 256 && forall i :: 0 <= i < |bs| ==> bs[i] < 256
    ensures EncodeBytes(bs + [n]) == EncodeBytes(bs) + EncodeByte(n)
  {
    if |bs| == 0 {
      assert bs + [n] == [n] && [n][1..] == [];
    } else {
      assert (bs + [n])[1..] == bs[1..] + [n];
      BytesAppend(bs[1..], n);
    }
  }

  lemma OneByte(n: nat)
    requires n < 256
    ensures EncodeBytes([n]) == EncodeByte(n)
  {
    assert [n][1..] == [];
    assert EncodeByte(n) + "" == EncodeByte(n);
  }

  function EncodeChar(c: char): string {
    EncodeBytes(Utf8(c))
  }

  // Percent encoding.
  function Encode(s: string): string {
    if |s| == 0 then "" else EncodeChar(s[0]) + Encode(s[1..])
  }

  lemma {:induction false} EncodeAppend(s: string, c: char)
    ensures Encode(s + [c]) == Encode(s) + EncodeChar(c)
  {
    if |s| == 0 {
      assert s + [c] == [c] && [c][1..] == "";
    } else {
      assert (s + [c])[1..] == s[1..] + [c];
      EncodeAppend(s[1..], c);
    }
  }

  function CharLength(c: char): nat {
    if (c as int) >= 128 then 12 else if Safe(c) then 1 else 3
  }

  function EncodedLength(s: string): nat {
    if |s| == 0 then 0 else CharLength(s[0]) + EncodedLength(s[1..])
  }

  lemma HighByte(n: nat, bs: seq<nat>)
    requires 128 <= n < 256 && forall i :: 0 <= i < |bs| ==> bs[i] < 256
    ensures EncodeBytes([n] + bs) == Escape(n) + EncodeBytes(bs)
  {
    assert ([n] + bs)[1..] == bs;
  }

  lemma FourBytes(a: nat, b: nat, c: nat, d: nat)
    requires 128 <= a < 256 && 128 <= b < 256 && 128 <= c < 256 && 128 <= d < 256
    ensures |EncodeBytes([a, b, c, d])| == 12
    ensures EncodeBytes([a, b, c, d]) == Escape(a) + (Escape(b) + (Escape(c) + Escape(d)))
  {
    HighByte(d, []);
    HighByte(c, [d]);
    HighByte(b, [c, d]);
    HighByte(a, [b, c, d]);
    assert [d] + [] == [d] && [c] + [d] == [c, d] && [b] + [c, d] == [b, c, d] && [a] + [b, c, d] == [a, b, c, d];
    assert Escape(d) + "" == Escape(d);
  }

  /** A character of 128 or more becomes four escapes. */
  lemma HighChar(c: char)
    requires (c as int) >= 128
    ensures |EncodeChar(c)| == 12
    ensures var low := c as int % 128;
            EncodeChar(c) == Escape(255) + (Escape(191) + (Escape(190 + low / 64) + Escape(128 + low % 64)))
  {
    var low := c as int % 128;
    FourBytes(255, 191, 190 + low / 64, 128 + low % 64);
  }

  lemma LowChar(c: char)
    requires (c as int) < 128
    ensures EncodeChar(c) == EncodeByte(c as int)
  {
    OneByte(c as int);
  }

  lemma CharLengths(c: char)
    ensures |EncodeChar(c)| == CharLength(c) && (CharLength(c) == 1 ==> EncodeChar(c) == [c])
  {
    if (c as int) < 128 {
      LowChar(c);
    } else {
      HighChar(c);
    }
  }

  lemma {:induction false} EncodeLength(s: string)
    ensures |Encode(s)| == EncodedLength(s) >= |s|
    ensures EncodedLength(s) == |s| ==> Encode(s) == s
  {
    if |s| > 0 {
      EncodeLength(s[1..]);
      CharLengths(s[0]);
      assert [s[0]] + s[1..] == s;
    }
  }

  // The table of append_percent_encoded as it is written: the characters that encodeURI of ECMAScript leaves
  // as they are, and the space.
  const FIGURES := "0123456789"
  const CAPITALS := "ABCDEFGHIJKLMNOPQRSTUVWXYZ"
  const SMALL := "abcdefghijklmnopqrstuvwxyz"
  const MARKS := "-_.~ !*'();/?:@&=+$,#"

  /** The characters that stand for themselves are those of the table, and the zero that ends it. */
  lemma SafeIsTable(c: char)
    ensures Safe(c) <==> c == '\0' || c in FIGURES || c in CAPITALS || c in SMALL || c in MARKS
  {
    hide Safe;
    InFigures(c);
    InCapitals(c);
    InSmall(c);
    InMarks(c);
  }

  lemma InFigures(c: char)
    ensures c in FIGURES <==> IsDigit(c)
    ensures IsDigit(c) ==> Safe(c)
  {
    if IsDigit(c) {
      assert FIGURES[c as int - 48] == c;
    }
  }

  lemma InCapitals(c: char)
    ensures c in CAPITALS <==> 'A' <= c <= 'Z'
    ensures 'A' <= c <= 'Z' ==> Safe(c)
  {
    if 'A' <= c <= 'Z' {
      assert CAPITALS[c as int - 65] == c;
    }
  }

  lemma InSmall(c: char)
    ensures c in SMALL <==> 'a' <= c <= 'z'
    ensures 'a' <= c <= 'z' ==> Safe(c)
  {
    if 'a' <= c <= 'z' {
      assert SMALL[c as int - 97] == c;
    }
  }

  lemma InMarks(c: char)
    ensures c in MARKS ==> Safe(c)
    ensures Safe(c) && !IsDigit(c) && !('A' <= c <= 'Z') && !('a' <= c <= 'z') && c != '\0' ==> c in MARKS
    ensures Safe('\0')
  {
    if Safe(c) && !IsDigit(c) && !('A' <= c <= 'Z') && !('a' <= c <= 'z') && c != '\0' {
      MarkAt(c);
    }
  }

  lemma MarkAt(c: char)
    requires Safe(c) && !IsDigit(c) && !('A' <= c <= 'Z') && !('a' <= c <= 'z') && c != '\0'
    ensures c in MARKS
  {
    assert MARKS[0] == '-' && MARKS[1] == '_' && MARKS[2] == '.' && MARKS[3] == '~' && MARKS[4] == ' ' && MARKS[5] == '!';
    assert MARKS[6] == '*' && MARKS[7] == '\'' && MARKS[8] == '(' && MARKS[9] == ')' && MARKS[10] == ';' && MARKS[11] == '/';
    assert MARKS[12] == '?' && MARKS[13] == ':' && MARKS[14] == '@' && MARKS[15] == '&' && MARKS[16] == '=' && MARKS[17] == '+';
    assert MARKS[18] == '$' && MARKS[19] == ',' && MARKS[20] == '#';
  }

  predicate AllSafe(s: string) {
    forall i :: 0 <= i < |s| ==> (s[i] as int) < 128 && Safe(s[i])
  }

  lemma {:induction false} SafeText(s: string)
    requires AllSafe(s)
    ensures Encode(s) == s
  {
    if |s| > 0 {
      SafeText(s[1..]);
      LowChar(s[0]);
      assert [s[0]] + s[1..] == s;
    }
  }

  /** append_percent_encoded: text that needs no escapes is appended as it is. */
  method AppendPercentEncoded(s1: string, s2: string) returns (r: string)
    ensures r == s1 + Encode(s2)
  {
    hide Utf8, EncodeBytes;
    var n, c := 0, 0;
    while c < |s2|
      invariant 0 <= c <= |s2| && n + EncodedLength(s2[c..]) == EncodedLength(s2)
    {
      n := n + CharLength(s2[c]);
      assert s2[c..][1..] == s2[c + 1..];
      c := c + 1;
    }
    EncodeLength(s2);
    if n == |s2| {
      return s1 + s2;
    }
    r := s1;
    c := 0;
    assert s2[..0] == "";
    while c < |s2|
      invariant 0 <= c <= |s2| && r == s1 + Encode(s2[..c])
    {
      EncodeAppend(s2[..c], s2[c]);
      assert s2[..c + 1] == s2[..c] + [s2[c]];
      r := AppendBytes(r, Utf8(s2[c]));
      c := c + 1;
    }
    assert s2[..c] == s2;
  }

  method AppendBytes(r0: string, utf8: seq<nat>) returns (r: string)
    requires forall i :: 0 <= i < |utf8| ==> utf8[i] < 256
    ensures r == r0 + EncodeBytes(utf8)
  {
    r := r0;
    var p := 0;
    assert utf8[..0] == [];
    while p < |utf8|
      invariant 0 <= p <= |utf8| && r == r0 + EncodeBytes(utf8[..p])
    {
      BytesAppend(utf8[..p], utf8[p]);
      assert utf8[..p + 1] == utf8[..p] + [utf8[p]];
      if Safe(utf8[p] as char) {
        r := r + [utf8[p] as char];
      } else {
        r := r + ['%'];
        r := r + [HexChar(utf8[p] / 16)];
        r := r + [HexChar(utf8[p] % 16)];
        assert ['%'] + [HexChar(utf8[p] / 16)] + [HexChar(utf8[p] % 16)] == Escape(utf8[p]);
      }
      p := p + 1;
    }
    assert utf8[..p] == utf8;
  }

  // A decoded byte: what is not 7-bit does not survive the UTF-8 decoding of signed characters.
  function Keep(n: nat): string {
    if n < 128 then [n as char] else ""
  }

  // Text put before what is still to be decoded.
  function Before(t: string, r: Result<string>): Result<string> {
    if r.Err? then r else Ok(t + r.value)
  }

  lemma BeforeTwice(t: string, u: string, r: Result<string>)
    ensures Before(t, Before(u, r)) == Before(t + u, r)
    ensures Before("", r) == r
  {
    if r.Ok? {
      assert t + (u + r.value) == t + u + r.value && "" + r.value == r.value;
    }
  }

  /** percent_decode; a malformed escape throws. */
  function Decode(s: string): Result<string> {
    if |s| == 0 then Ok("")
    else if s[0] != '%' then Before(Keep(s[0] as int), Decode(s[1..]))
    else if |s| < 3 || HexValue(s[1]) < 0 || HexValue(s[2]) < 0 then Err
    else Before(Keep(16 * HexValue(s[1]) + HexValue(s[2])), Decode(s[3..]))
  }

  lemma HexRoundTrip(n: nat)
    requires n < 256
    ensures HexValue(HexChar(n / 16)) == n / 16 && HexValue(HexChar(n % 16)) == n % 16
    ensures 16 * (n / 16) + n % 16 == n
  {
  }

  lemma DecodeEscape(n: nat, rest: string)
    requires n < 256
    ensures Decode(Escape(n) + rest) == Before(Keep(n), Decode(rest))
  {
    var s := Escape(n) + rest;
    HexRoundTrip(n);
    assert s[0] == '%' && s[1] == HexChar(n / 16) && s[2] == HexChar(n % 16) && s[3..] == rest;
  }

  lemma DecodeFour(a: nat, b: nat, c: nat, d: nat, rest: string)
    requires 128 <= a < 256 && 128 <= b < 256 && 128 <= c < 256 && 128 <= d < 256
    ensures Decode(Escape(a) + (Escape(b) + (Escape(c) + Escape(d))) + rest) == Decode(rest)
  {
    var r3 := Escape(d) + rest;
    var r2 := Escape(c) + r3;
    var r1 := Escape(b) + r2;
    DecodeEscape(d, rest);
    DecodeEscape(c, r3);
    DecodeEscape(b, r2);
    DecodeEscape(a, r1);
    BeforeTwice("", "", Decode(rest));
    assert Escape(a) + (Escape(b) + (Escape(c) + Escape(d))) + rest == Escape(a) + r1;
  }

  lemma DecodeFirst(c: char, rest: string)
    ensures Decode(EncodeChar(c) + rest) == Before(Keep(c as int), Decode(rest))
  {
    if (c as int) >= 128 {
      HighChar(c);
      var low := c as int % 128;
      DecodeFour(255, 191, 190 + low / 64, 128 + low % 64, rest);
      BeforeTwice("", "", Decode(rest));
    } else {
      LowChar(c);
      var s := EncodeChar(c) + rest;
      if Safe(c) {
        assert s[0] == c && s[1..] == rest;
      } else {
        DecodeEscape(c as int, rest);
      }
    }
  }

  // The characters of a text that come back.
  function Surviving(s: string): (r: string) {
    if |s| == 0 then "" else Keep(s[0] as int) + Surviving(s[1..])
  }

  lemma {:induction false} SurvivingSevenBit(s: string)
    ensures Surviving(s) == s <==> SevenBit(s)
    ensures |Surviving(s)| <= |s|
  {
    if |s| > 0 {
      SurvivingSevenBit(s[1..]);
      if SevenBit(s[1..]) && (s[0] as int) < 128 {
        assert [s[0]] + s[1..] == s;
      }
      if Surviving(s) == s {
        assert Surviving(s)[1..] == Surviving(s[1..]);
      }
      SevenBitFirst(s);
    }
  }

  lemma SevenBitFirst(s: string)
    requires |s| > 0
    ensures SevenBit(s) <==> (s[0] as int) < 128 && SevenBit(s[1..])
  {
    if (s[0] as int) < 128 && SevenBit(s[1..]) {
      assert forall i :: 0 < i < |s| ==> s[i] == s[1..][i - 1];
    }
  }

  /** percent_decode gives back the 7-bit characters of what append_percent_encoded was given, and so the
      whole of it exactly if all are. */
  lemma {:induction false} PercentRoundTrip(s: string)
    ensures Decode(Encode(s)) == Ok(Surviving(s))
    ensures Decode(Encode(s)) == Ok(s) <==> SevenBit(s)
  {
    SurvivingSevenBit(s);
    if |s| > 0 {
      PercentRoundTrip(s[1..]);
      DecodeFirst(s[0], Encode(s[1..]));
    }
  }

  /** percent_decode */
  method PercentDecode(str: string) returns (r: Result<string>)
    ensures r == Decode(str)
  {
    var s1 := 0;
    var out := "";
    assert str[0..] == str;
    BeforeTwice("", "", Decode(str));
    while s1 < |str|
      invariant 0 <= s1 <= |str|
      invariant Decode(str) == Before(out, Decode(str[s1..]))
    {
      ghost var rest := str[s1..];
      if str[s1] != '%' {
        assert rest[1..] == str[s1 + 1..];
        BeforeTwice(out, Keep(str[s1] as int), Decode(rest[1..]));
        out := out + Keep(str[s1] as int);
        s1 := s1 + 1;
      } else {
        if s1 + 2 >= |str| || HexValue(str[s1 + 1]) < 0 || HexValue(str[s1 + 2]) < 0 {
          return Err;
        }
        assert rest[1] == str[s1 + 1] && rest[2] == str[s1 + 2] && rest[3..] == str[s1 + 3..];
        BeforeTwice(out, Keep(16 * HexValue(rest[1]) + HexValue(rest[2])), Decode(rest[3..]));
        out := out + Keep(16 * HexValue(str[s1 + 1]) + HexValue(str[s1 + 2]));
        s1 := s1 + 3;
      }
    }
    assert out + "" == out;
    r := Ok(out);
  }

  /** Encoded text holds no delimiter of the textual forms. */
  lemma {:induction false} EncodeClean(s: string)
    ensures '\n' !in Encode(s) && '\t' !in Encode(s)
  {
    if |s| > 0 {
      EncodeClean(s[1..]);
      CleanChar(s[0]);
    }
  }

  lemma CleanChar(c: char)
    ensures '\n' !in EncodeChar(c) && '\t' !in EncodeChar(c)
  {
    if (c as int) < 128 {
      LowChar(c);
      if !Safe(c) {
        CleanEscape(c as int);
      }
    } else {
      var low := c as int % 128;
      HighChar(c);
      CleanEscape(255);
      CleanEscape(191);
      CleanEscape(190 + low / 64);
      CleanEscape(128 + low % 64);
    }
  }

  lemma CleanEscape(n: nat)
    requires n < 256
    ensures '\n' !in Escape(n) && '\t' !in Escape(n)
  {
    assert n / 16 < 16 && n % 16 < 16;
  }
}
