/** A cache of a function that keeps the most recently used records. */
module LruCaching {

  datatype Record<K, V> = Record(key: K, value: V)

  function Without<K(==)>(s: seq<K>, k: K): (r: seq<K>)
    ensures k !in r && |r| <= |s|
  {
    if |s| == 0 then [] else (if s[0] == k then [] else [s[0]]) + Without(s[1..], k)
  }

  /** The distinct keys of a history of accesses, the most recent first. */
  function MostRecent<K(==)>(history: seq<K>): seq<K> {
    if |history| == 0 then []
    else
      var k := history[|history| - 1];
      [k] + Without(MostRecent(history[..|history| - 1]), k)
  }

  function Take<K>(s: seq<K>, n: nat): seq<K> {
    if |s| <= n then s else s[..n]
  }

  ghost predicate Distinct<K>(s: seq<K>) {
    forall i, j :: 0 <= i < j < |s| ==> s[i] != s[j]
  }

  lemma {:induction false} WithoutMembers<K>(s: seq<K>, k: K)
    ensures forall x :: x in Without(s, k) <==> x in s && x != k
  {
    if |s| > 0 {
      WithoutMembers(s[1..], k);
      assert s == [s[0]] + s[1..];
    }
  }

  lemma {:induction false} WithoutAbsent<K>(s: seq<K>, k: K)
    requires k !in s
    ensures Without(s, k) == s
  {
    if |s| > 0 {
      WithoutAbsent(s[1..], k);
      assert s == [s[0]] + s[1..];
    }
  }

  // Taking one key out of a list without repetitions.
  lemma {:induction false} WithoutAt<K>(s: seq<K>, i: nat)
    requires i < |s| && Distinct(s)
    ensures Without(s, s[i]) == s[..i] + s[i + 1..]
  {
    if i == 0 {
      WithoutAbsent(s[1..], s[0]);
      assert s[..0] == [];
    } else {
      assert s[1..][i - 1] == s[i] && s[0] != s[i];
      assert forall x, y :: 0 <= x < y < |s[1..]| ==> s[1..][x] == s[x + 1] && s[1..][y] == s[y + 1];
      WithoutAt(s[1..], i - 1);
      assert s[1..][..i - 1] == s[1..i] && s[1..][i..] == s[i + 1..];
      assert [s[0]] + s[1..i] == s[..i];
      assert [s[0]] + (s[1..i] + s[i + 1..]) == s[..i] + s[i + 1..];
    }
  }

  lemma {:induction false} WithoutDistinct<K>(s: seq<K>, k: K)
    requires Distinct(s)
    ensures Distinct(Without(s, k))
  {
    if k in s {
      var i :| 0 <= i < |s| && s[i] == k;
      WithoutAt(s, i);
    } else {
      WithoutAbsent(s, k);
    }
  }

  /** No key is listed twice, and every key accessed is listed. */
  lemma {:induction false} MostRecentMembers<K>(history: seq<K>)
    ensures Distinct(MostRecent(history))
    ensures forall k :: k in MostRecent(history) <==> k in history
    decreases |history|
  {
    if |history| > 0 {
      var n := |history| - 1;
      var before := MostRecent(history[..n]);
      MostRecentMembers(history[..n]);
      WithoutDistinct(before, history[n]);
      WithoutMembers(before, history[n]);
      assert history == history[..n] + [history[n]];
    }
  }

  // The number of accesses up to the last one of k.
  function LastAccess<K(==)>(history: seq<K>, k: K): nat
    decreases |history|
  {
    if |history| == 0 then 0
    else if history[|history| - 1] == k then |history|
    else LastAccess(history[..|history| - 1], k)
  }

  lemma {:induction false} LastAccessBound<K>(history: seq<K>, k: K)
    ensures LastAccess(history, k) <= |history|
    decreases |history|
  {
    if |history| > 0 {
      LastAccessBound(history[..|history| - 1], k);
    }
  }

  ghost predicate ByLastAccess<K(!new)>(s: seq<K>, history: seq<K>) {
    forall i, j :: 0 <= i < j < |s| ==> LastAccess(history, s[i]) > LastAccess(history, s[j])
  }

  lemma WithoutOrdered<K(!new)>(s: seq<K>, history: seq<K>, k: K)
    requires Distinct(s) && ByLastAccess(s, history)
    ensures ByLastAccess(Without(s, k), history)
  {
    if k in s {
      var i :| 0 <= i < |s| && s[i] == k;
      WithoutAt(s, i);
    } else {
      WithoutAbsent(s, k);
    }
  }

  /** The keys are listed by their last access, the latest first. */
  lemma {:induction false} MostRecentOrder<K(!new)>(history: seq<K>)
    ensures ByLastAccess(MostRecent(history), history)
    decreases |history|
  {
    if |history| > 0 {
      var n := |history| - 1;
      var k, h := history[n], history[..n];
      MostRecentOrder(h);
      MostRecentMembers(h);
      WithoutOrdered(MostRecent(h), h, k);
      var rest := Without(MostRecent(h), k);
      forall i, j | 0 <= i < j < |rest| + 1
        ensures LastAccess(history, ([k] + rest)[i]) > LastAccess(history, ([k] + rest)[j])
      {
        LastAccessBound(h, ([k] + rest)[j]);
      }
    }
  }

  // The keys of the records, the newest record first; the newest is the last of the list.
  function NewestFirst<K, V>(records: seq<Record<K, V>>): (r: seq<K>)
    ensures |r| == |records|
  {
    seq(|records|, i requires 0 <= i < |records| => records[|records| - 1 - i].key)
  }

  class LruCache<K(==, !new), V(!new)> {
    const fn: K -> V
    const capacity: nat
    var container: seq<Record<K, V>>
    ghost var history: seq<K>

    /** The stored keys are the last accessed ones, and their values are those of the function. */
    ghost predicate Valid()
      reads this
    {
      && capacity != 0
      && (forall i :: 0 <= i < |container| ==> container[i].value == fn(container[i].key))
      && NewestFirst(container) == Take(MostRecent(history), capacity)
    }

    constructor (f: K -> V, c: nat)
      requires c != 0
      ensures Valid() && fn == f && capacity == c && history == []
    {
      fn, capacity := f, c;
      container := [];
      history := [];
    }

    // The position of the record with key k, or the number of records.
    function Find(k: K): (i: nat)
      reads this
      ensures i <= |container|
      ensures i < |container| ==> container[i].key == k
      ensures i == |container| ==> forall j :: 0 <= j < |container| ==> container[j].key != k
    {
      FindFrom(k, 0)
    }

    function FindFrom(k: K, i: nat): (r: nat)
      requires i <= |container|
      reads this
      ensures i <= r <= |container|
      ensures r < |container| ==> container[r].key == k
      ensures forall j :: i <= j < r ==> container[j].key != k
      decreases |container| - i
    {
      if i == |container| || container[i].key == k then i else FindFrom(k, i + 1)
    }

    /** operator() */
    method Call(k: K) returns (v: V, ghost evaluated: bool)
      requires Valid()
      modifies this
      ensures Valid() && history == old(history) + [k]
      ensures v == fn(k)
      ensures evaluated <==> k !in Take(MostRecent(old(history)), capacity)
    {
      hide MostRecent, Without, Take, NewestFirst;
      var it := Find(k);
      MostRecentMembers(history);
      if it == |container| {
        evaluated := true;
        Absent(container, MostRecent(history), capacity, k);
        v := fn(k);
        Insert(k, v);
      } else {
        evaluated := false;
        var record := container[it];
        Relocated(container, MostRecent(history), capacity, it);
        container := container[..it] + container[it + 1..] + [record];
        v := record.value;
        Extended(history, k);
        history := history + [k];
      }
    }

    method Insert(k: K, v: V)
      requires Valid() && v == fn(k) && forall i :: 0 <= i < |container| ==> container[i].key != k
      requires k !in Take(MostRecent(history), capacity)
      modifies this
      ensures Valid() && history == old(history) + [k]
    {
      hide MostRecent, Without, Take, NewestFirst;
      MostRecentMembers(history);
      Inserted(container, MostRecent(history), capacity, k, v);
      if |container| == capacity {
        container := container[1..];
      }
      container := container + [Record(k, v)];
      Extended(history, k);
      history := history + [k];
    }

    /** get_keys: the most recently used key first */
    method GetKeys() returns (keys: seq<K>)
      requires Valid()
      ensures keys == Take(MostRecent(history), capacity)
    {
      keys := [];
      var src := |container|;
      while src != 0
        invariant 0 <= src <= |container|
        invariant |keys| == |container| - src && forall i :: 0 <= i < |keys| ==> keys[i] == container[|container| - 1 - i].key
      {
        src := src - 1;
        keys := keys + [container[src].key];
      }
    }
  }

  lemma Extended<K>(history: seq<K>, k: K)
    ensures MostRecent(history + [k]) == [k] + Without(MostRecent(history), k)
  {
    assert (history + [k])[..|history|] == history;
  }

  lemma Absent<K, V>(container: seq<Record<K, V>>, recent: seq<K>, capacity: nat, k: K)
    requires NewestFirst(container) == Take(recent, capacity)
    requires forall i :: 0 <= i < |container| ==> container[i].key != k
    ensures k !in Take(recent, capacity)
  {
    var keys := NewestFirst(container);
    forall i | 0 <= i < |keys| ensures keys[i] != k {
    }
  }

  /** A key that is stored moves to the front. */
  lemma Relocated<K, V>(container: seq<Record<K, V>>, recent: seq<K>, capacity: nat, it: nat)
    requires NewestFirst(container) == Take(recent, capacity) && Distinct(recent) && it < |container|
    ensures container[it].key in Take(recent, capacity)
    ensures NewestFirst(container[..it] + container[it + 1..] + [container[it]])
            == Take([container[it].key] + Without(recent, container[it].key), capacity)
  {
    var p := |container| - 1 - it;
    assert NewestFirst(container)[p] == container[it].key == recent[p];
    WithoutAt(recent, p);
    NewestMoved(container, it);
    TakeMoved(recent, capacity, p, NewestFirst(container));
  }

  lemma NewestMoved<K, V>(container: seq<Record<K, V>>, it: nat)
    requires it < |container|
    ensures var keys, p := NewestFirst(container), |container| - 1 - it;
            NewestFirst(container[..it] + container[it + 1..] + [container[it]]) == [keys[p]] + (keys[..p] + keys[p + 1..])
  {
    var n, p := |container|, |container| - 1 - it;
    var keys, moved := NewestFirst(container), container[..it] + container[it + 1..] + [container[it]];
    var next := [keys[p]] + (keys[..p] + keys[p + 1..]);
    forall i | 0 <= i < n ensures NewestFirst(moved)[i] == next[i] {
      MovedAt(container, it, i);
    }
  }

  lemma MovedAt<K, V>(container: seq<Record<K, V>>, it: nat, i: nat)
    requires it < |container| && i < |container|
    ensures var n := |container|; var moved := container[..it] + container[it + 1..] + [container[it]];
            moved[n - 1 - i] == container[if i == 0 then it else if i <= n - 1 - it then n - i else n - 1 - i]
  {
  }

  lemma TakeMoved<K>(recent: seq<K>, capacity: nat, p: nat, keys: seq<K>)
    requires keys == Take(recent, capacity) && p < |keys|
    ensures Take([recent[p]] + (recent[..p] + recent[p + 1..]), capacity) == [keys[p]] + (keys[..p] + keys[p + 1..])
  {
  }

  /** A key that is not stored comes to the front, and the oldest goes when there is no room. */
  lemma Inserted<K, V>(container: seq<Record<K, V>>, recent: seq<K>, capacity: nat, k: K, v: V)
    requires NewestFirst(container) == Take(recent, capacity) && Distinct(recent) && capacity != 0
    requires k !in Take(recent, capacity)
    ensures var kept := if |container| == capacity then container[1..] else container;
            NewestFirst(kept + [Record(k, v)]) == Take([k] + Without(recent, k), capacity)
  {
    var kept := if |container| == capacity then container[1..] else container;
    var keys := NewestFirst(container);
    FrontKept(recent, capacity, k);
    var all := NewestFirst(kept + [Record(k, v)]);
    forall i | 0 < i < |all| ensures all[i] == recent[i - 1] {
      assert all[i] == keys[i - 1];
    }
  }

  // The first keys are the same when a later one is taken out.
  lemma FrontKept<K>(recent: seq<K>, capacity: nat, k: K)
    requires Distinct(recent) && capacity != 0 && k !in Take(recent, capacity)
    ensures Take([k] + Without(recent, k), capacity) == [k] + Take(recent, capacity - 1)
  {
    if k in recent {
      var i :| 0 <= i < |recent| && recent[i] == k;
      assert i >= capacity;
      WithoutAt(recent, i);
    } else {
      WithoutAbsent(recent, k);
    }
  }

  /** A run of accesses: every call returns the function's value, and the keys left are the last ones used. */
  method Run<K(==, !new), V(!new)>(f: K -> V, c: nat, accesses: seq<K>) returns (values: seq<V>, keys: seq<K>)
    requires c != 0
    ensures |values| == |accesses| && forall i :: 0 <= i < |values| ==> values[i] == f(accesses[i])
    ensures keys == Take(MostRecent(accesses), c) && |keys| <= c
  {
    var cache := new LruCache(f, c);
    values := [];
    var i := 0;
    while i < |accesses|
      invariant 0 <= i <= |accesses| && cache.Valid() && cache.fn == f && cache.capacity == c
      invariant cache.history == accesses[..i]
      invariant |values| == i && forall j :: 0 <= j < i ==> values[j] == f(accesses[j])
    {
      var v, _ := cache.Call(accesses[i]);
      values := values + [v];
      assert accesses[..i + 1] == accesses[..i] + [accesses[i]];
      i := i + 1;
    }
    assert accesses[..i] == accesses;
    keys := cache.GetKeys();
  }
}
