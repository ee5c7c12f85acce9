/** Texts cut at a delimiter. */
module Tokenizing {
  import opened Strings

  /** The tokens of a text from a position on, without their delimiters; none follows a delimiter at the very end. */
  function Tokens(t: string, delim: char, off: nat): seq<string>
    decreases |t| - off
  {
    if off >= |t| then []
    else
      var n := TokenLength(t, delim, off);
      [t[off..off + n]] + Tokens(t, delim, off + n + 1)
  }

  lemma {:induction false} TokenSearch(t: string, delim: char, off: nat, n: nat)
    requires off + n < |t| && t[off + n] == delim && forall i :: off <= i < off + n ==> t[i] != delim
    ensures TokenLength(t, delim, off) == n
    decreases n
  {
    if n > 0 {
      TokenSearch(t, delim, off + 1, n - 1);
    }
  }

  // From position k on, u reads t.
  ghost predicate ReadsAt(u: string, k: nat, t: string) {
    |u| == k + |t| && forall i :: 0 <= i < |t| ==> u[k + i] == t[i]
  }

  lemma {:induction false} TokenShift(u: string, k: nat, t: string, delim: char, off: nat)
    requires ReadsAt(u, k, t) && off <= |t|
    ensures TokenLength(u, delim, k + off) == TokenLength(t, delim, off)
    decreases |t| - off
  {
    if off < |t| && t[off] != delim {
      TokenShift(u, k, t, delim, off + 1);
    }
  }

  lemma OneToken(t: string, delim: char, off: nat, n: nat, a: string, tail: seq<string>)
    requires off < |t| && n == TokenLength(t, delim, off) && a == t[off..off + n]
    requires tail == Tokens(t, delim, off + n + 1)
    ensures Tokens(t, delim, off) == [a] + tail
  {
  }

  lemma {:induction false} TokensShift(u: string, k: nat, t: string, delim: char, off: nat)
    requires ReadsAt(u, k, t)
    ensures Tokens(u, delim, k + off) == Tokens(t, delim, off)
    decreases |t| - off
  {
    if off < |t| {
      var n := TokenLength(t, delim, off);
      TokensShift(u, k, t, delim, off + n + 1);
      ShiftStep(u, k, t, delim, off, n);
    }
  }

  lemma ShiftStep(u: string, k: nat, t: string, delim: char, off: nat, n: nat)
    requires ReadsAt(u, k, t) && off < |t| && n == TokenLength(t, delim, off)
    requires Tokens(u, delim, k + (off + n + 1)) == Tokens(t, delim, off + n + 1)
    ensures Tokens(u, delim, k + off) == Tokens(t, delim, off)
  {
    TokenShift(u, k, t, delim, off);
    SameSlice(u, k, t, off, n);
    SameTokens(u, k + off, t, off, delim, n, t[off..off + n], Tokens(t, delim, off + n + 1));
  }

  lemma SameTokens(u: string, i: nat, t: string, j: nat, delim: char, n: nat, a: string, tail: seq<string>)
    requires i < |u| && n == TokenLength(u, delim, i) && a == u[i..i + n] && tail == Tokens(u, delim, i + n + 1)
    requires j < |t| && n == TokenLength(t, delim, j) && a == t[j..j + n] && tail == Tokens(t, delim, j + n + 1)
    ensures Tokens(u, delim, i) == Tokens(t, delim, j)
  {
    OneToken(t, delim, j, n, a, tail);
    OneToken(u, delim, i, n, a, tail);
  }

  lemma SameSlice(u: string, k: nat, t: string, off: nat, n: nat)
    requires ReadsAt(u, k, t) && off + n <= |t|
    ensures u[k + off..k + off + n] == t[off..off + n]
  {
    var a, b := u[k + off..k + off + n], t[off..off + n];
    forall i | 0 <= i < n ensures a[i] == b[i] {
      assert u[k + (off + i)] == t[off + i];
    }
  }

  /** A token and its delimiter in front. */
  lemma TokensFirst(a: string, delim: char, rest: string)
    requires delim !in a
    ensures Tokens(a + [delim] + rest, delim, 0) == [a] + Tokens(rest, delim, 0)
  {
    TokenSearch(a + [delim] + rest, delim, 0, |a|);
    TokensShift(a + [delim] + rest, |a| + 1, rest, delim, 0);
    FirstToken(a, delim, rest);
  }

  lemma FirstToken(a: string, delim: char, rest: string)
    ensures (a + [delim] + rest)[0..|a|] == a
  {
  }

  /** A token at the end of the text. */
  lemma LastToken(a: string, delim: char)
    requires a != "" && delim !in a
    ensures Tokens(a, delim, 0) == [a]
  {
    WholeToken(a, delim, 0);
    assert a[0..|a|] == a;
  }

  lemma {:induction false} WholeToken(a: string, delim: char, off: nat)
    requires off <= |a| && delim !in a
    ensures TokenLength(a, delim, off) == |a| - off
    decreases |a| - off
  {
    if off < |a| {
      WholeToken(a, delim, off + 1);
    }
  }

  // The tokens of the text from a position on.
  ghost predicate At(t: string, delim: char, pos: nat, tokens: seq<string>) {
    tokens == Tokens(t, delim, pos)
  }

  /** The token at a position, and where the next one starts. */
  method TakeToken(t: string, delim: char, pos: nat, ghost tokens: seq<string>)
    returns (token: string, next: nat, ghost tail: seq<string>)
    requires pos < |t| && At(t, delim, pos, tokens)
    ensures next > pos && At(t, delim, next, tail) && tokens == [token] + tail
  {
    var n := NextToken(t, delim, pos);
    token, next := t[pos..pos + n], pos + n + 1;
    tail := Tokens(t, delim, next);
  }

  lemma NoMoreTokens(t: string, delim: char, pos: nat, tokens: seq<string>)
    requires pos >= |t| && At(t, delim, pos, tokens)
    ensures tokens == []
  {
  }
}
