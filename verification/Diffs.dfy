/** Diff lists and the two texts they denote. */
module Diffs {

  datatype Operation = DELETE | INSERT | EQUAL

  datatype Diff = Diff(op: Operation, text: string)

  function Part1(d: Diff): string {
    if d.op == INSERT then "" else d.text
  }

  function Part2(d: Diff): string {
    if d.op == DELETE then "" else d.text
  }

  /** diff_text1 */
  function Text1(ds: seq<Diff>): string {
    if |ds| == 0 then "" else Part1(ds[0]) + Text1(ds[1..])
  }

  /** diff_text2 */
  function Text2(ds: seq<Diff>): string {
    if |ds| == 0 then "" else Part2(ds[0]) + Text2(ds[1..])
  }

  lemma {:induction false} TextAppend(a: seq<Diff>, b: seq<Diff>)
    ensures Text1(a + b) == Text1(a) + Text1(b)
    ensures Text2(a + b) == Text2(a) + Text2(b)
  {
    if |a| == 0 {
      assert a + b == b;
    } else {
      assert (a + b)[1..] == a[1..] + b;
      TextAppend(a[1..], b);
    }
  }

  lemma TextOne(d: Diff)
    ensures Text1([d]) == Part1(d) && Text2([d]) == Part2(d)
  {
    assert [d][1..] == [];
  }

  lemma TextTwo(d: Diff, e: Diff)
    ensures Text1([d, e]) == Part1(d) + Part1(e) && Text2([d, e]) == Part2(d) + Part2(e)
  {
    assert [d, e] == [d] + [e];
    TextAppend([d], [e]);
    TextOne(d);
    TextOne(e);
  }

  lemma TextThree(d: Diff, e: Diff, f: Diff)
    ensures Text1([d, e, f]) == Part1(d) + Part1(e) + Part1(f)
    ensures Text2([d, e, f]) == Part2(d) + Part2(e) + Part2(f)
  {
    assert [d, e, f] == [d, e] + [f];
    TextAppend([d, e], [f]);
    TextTwo(d, e);
    TextOne(f);
  }

  /** Both lists turn the same text into the same text. */
  ghost predicate Same(a: seq<Diff>, b: seq<Diff>) {
    Text1(a) == Text1(b) && Text2(a) == Text2(b)
  }

  lemma SameAround(a: seq<Diff>, b: seq<Diff>, c: seq<Diff>, b': seq<Diff>)
    requires Same(b, b')
    ensures Same(a + b + c, a + b' + c)
  {
    TextAppend(a + b, c);
    TextAppend(a, b);
    TextAppend(a + b', c);
    TextAppend(a, b');
  }

  /** Replacing a stretch of the list. */
  function Splice(ds: seq<Diff>, i: int, j: int, mid: seq<Diff>): seq<Diff>
    requires 0 <= i <= j <= |ds|
  {
    ds[..i] + mid + ds[j..]
  }

  lemma SpliceSame(ds: seq<Diff>, i: int, j: int, mid: seq<Diff>)
    requires 0 <= i <= j <= |ds| && Same(ds[i..j], mid)
    ensures Same(ds, Splice(ds, i, j, mid))
  {
    assert ds == ds[..i] + ds[i..j] + ds[j..];
    SameAround(ds[..i], ds[i..j], ds[j..], mid);
  }

  /** The characters in insertions and deletions. */
  function Edited(ds: seq<Diff>): nat {
    if |ds| == 0 then 0 else (if ds[0].op == EQUAL then 0 else |ds[0].text|) + Edited(ds[1..])
  }

  lemma {:induction false} EditedAppend(a: seq<Diff>, b: seq<Diff>)
    ensures Edited(a + b) == Edited(a) + Edited(b)
  {
    if |a| == 0 {
      assert a + b == b;
    } else {
      assert (a + b)[1..] == a[1..] + b;
      EditedAppend(a[1..], b);
    }
  }

  lemma EditedOne(d: Diff)
    ensures Edited([d]) == if d.op == EQUAL then 0 else |d.text|
  {
    assert [d][1..] == [];
  }

  lemma EditedSplice(ds: seq<Diff>, i: int, j: int, mid: seq<Diff>)
    requires 0 <= i <= j <= |ds|
    ensures Edited(Splice(ds, i, j, mid)) == Edited(ds) - Edited(ds[i..j]) + Edited(mid)
  {
    assert ds == ds[..i] + ds[i..j] + ds[j..];
    EditedAppend(ds[..i] + ds[i..j], ds[j..]);
    EditedAppend(ds[..i], ds[i..j]);
    EditedAppend(ds[..i] + mid, ds[j..]);
    EditedAppend(ds[..i], mid);
  }

  /** A list that is changed in place. */
  class DiffList {
    var items: seq<Diff>

    constructor (ds: seq<Diff>)
      ensures items == ds
    {
      items := ds;
    }
  }
}
