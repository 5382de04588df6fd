/**
 * `sortedKeys = keys.sorted(by: { $0.id < $1.id })`: the keys ordered by id,
 * kept so that the sequencer can reach the key with id `n` as
 * `sortedKeys[n - 1]`. The sorted list holds the same key objects as
 * `keys`, so it is modelled as a list of handles into `keys`.
 */
module KeyOrder {
  import opened Layout

  predicate ValidHandles(keys: seq<Key>, hs: seq<nat>) {
    forall i :: 0 <= i < |hs| ==> hs[i] < |keys|
  }

  predicate Distinct(hs: seq<nat>) {
    forall i, j :: 0 <= i < j < |hs| ==> hs[i] != hs[j]
  }

  /** The handles are in non-decreasing order of their keys' ids. */
  predicate SortedById(keys: seq<Key>, hs: seq<nat>)
    requires ValidHandles(keys, hs)
  {
    forall i, j :: 0 <= i < j < |hs| ==> keys[hs[i]].id <= keys[hs[j]].id
  }

  /** The handles `0, 1, ..., n - 1`: `keys` in its own order. */
  function Range(n: nat): (r: seq<nat>)
    ensures |r| == n
    ensures forall i :: 0 <= i < n ==> r[i] == i
  {
    seq(n, i => i)
  }

  /** Inserts handle `h` before the first handle whose key has a larger id. */
  function Insert(keys: seq<Key>, h: nat, hs: seq<nat>): (r: seq<nat>)
    requires h < |keys| && ValidHandles(keys, hs)
    ensures |r| == |hs| + 1 && ValidHandles(keys, r)
    ensures forall x :: x in r <==> x == h || x in hs
    decreases |hs|
  {
    if hs == [] then [h]
    else if keys[h].id < keys[hs[0]].id then [h] + hs
    else
      assert forall x :: x in hs[1..] ==> x in hs;
      [hs[0]] + Insert(keys, h, hs[1..])
  }

  /** Insertion adds exactly one occurrence of `h` and keeps every other handle. */
  lemma {:induction false} InsertCounts(keys: seq<Key>, h: nat, hs: seq<nat>)
    requires h < |keys| && ValidHandles(keys, hs)
    ensures multiset(Insert(keys, h, hs)) == multiset(hs) + multiset{h}
    decreases |hs|
  {
    if hs != [] && keys[h].id >= keys[hs[0]].id {
      InsertCounts(keys, h, hs[1..]);
      assert hs == [hs[0]] + hs[1..];
    }
  }

  /** Inserting a handle that is not there yet keeps the handles distinct. */
  lemma {:induction false} InsertKeepsDistinct(keys: seq<Key>, h: nat, hs: seq<nat>)
    requires h < |keys| && ValidHandles(keys, hs)
    requires Distinct(hs) && h !in hs
    ensures Distinct(Insert(keys, h, hs))
    decreases |hs|
  {
    if hs != [] && keys[h].id >= keys[hs[0]].id {
      assert h !in hs[1..];
      InsertKeepsDistinct(keys, h, hs[1..]);
      assert hs[0] !in hs[1..];
    }
  }

  /** Prepending a handle whose id is at most every id in a sorted list keeps it sorted. */
  lemma PrependKeepsSorted(keys: seq<Key>, a: nat, rest: seq<nat>)
    requires a < |keys| && ValidHandles(keys, rest) && SortedById(keys, rest)
    requires forall k :: 0 <= k < |rest| ==> keys[a].id <= keys[rest[k]].id
    ensures ValidHandles(keys, [a] + rest) && SortedById(keys, [a] + rest)
  {
    var r := [a] + rest;
    forall i, j | 0 <= i < j < |r| ensures keys[r[i]].id <= keys[r[j]].id {
      assert r[j] == rest[j - 1];
      if i > 0 { assert r[i] == rest[i - 1]; }
    }
  }

  /** Inserting into a list sorted by id keeps it sorted by id. */
  lemma {:induction false} InsertKeepsSorted(keys: seq<Key>, h: nat, hs: seq<nat>)
    requires h < |keys| && ValidHandles(keys, hs)
    requires SortedById(keys, hs)
    ensures SortedById(keys, Insert(keys, h, hs))
    decreases |hs|
  {
    if hs != [] && keys[h].id >= keys[hs[0]].id {
      var rest := Insert(keys, h, hs[1..]);
      InsertKeepsSorted(keys, h, hs[1..]);
      forall k | 0 <= k < |rest| ensures keys[hs[0]].id <= keys[rest[k]].id {
        var x := rest[k];
        assert x in rest;
        if x != h {
          var m :| 0 <= m < |hs[1..]| && hs[1..][m] == x;
          assert hs[m + 1] == x;
        }
      }
      PrependKeepsSorted(keys, hs[0], rest);
    } else if hs != [] {
      forall k | 0 <= k < |hs| ensures keys[h].id <= keys[hs[k]].id {
        if k > 0 { assert keys[hs[0]].id <= keys[hs[k]].id; }
      }
      PrependKeepsSorted(keys, h, hs);
    }
  }

  /** Insertion sort of the handles `hs` by the ids of their keys. */
  function SortById(keys: seq<Key>, hs: seq<nat>): (r: seq<nat>)
    requires ValidHandles(keys, hs)
    ensures |r| == |hs| && ValidHandles(keys, r)
    ensures forall x :: x in r <==> x in hs
    decreases |hs|
  {
    if hs == [] then []
    else
      assert forall x :: x in hs[1..] ==> x in hs;
      Insert(keys, hs[0], SortById(keys, hs[1..]))
  }

  /** Sorting permutes the handles: each occurs as often as in the input. */
  lemma {:induction false} SortByIdPermutes(keys: seq<Key>, hs: seq<nat>)
    requires ValidHandles(keys, hs)
    ensures multiset(SortById(keys, hs)) == multiset(hs)
    decreases |hs|
  {
    if hs != [] {
      assert ValidHandles(keys, hs[1..]);
      var tail := SortById(keys, hs[1..]);
      SortByIdPermutes(keys, hs[1..]);
      InsertCounts(keys, hs[0], tail);
      calc {
        multiset(SortById(keys, hs));
        multiset(Insert(keys, hs[0], tail));
        multiset(hs[1..]) + multiset{hs[0]};
        { assert hs == [hs[0]] + hs[1..]; }
        multiset(hs);
      }
    }
  }

  /** Sorting yields a list sorted by id, and distinct handles stay distinct. */
  lemma {:induction false} SortByIdSorts(keys: seq<Key>, hs: seq<nat>)
    requires ValidHandles(keys, hs)
    ensures SortedById(keys, SortById(keys, hs))
    ensures Distinct(hs) ==> Distinct(SortById(keys, hs))
    decreases |hs|
  {
    if hs != [] {
      assert forall x :: x in hs[1..] ==> x in hs;
      SortByIdSorts(keys, hs[1..]);
      InsertKeepsSorted(keys, hs[0], SortById(keys, hs[1..]));
      if Distinct(hs) {
        assert Distinct(hs[1..]);
        assert hs[0] !in hs[1..];
        InsertKeepsDistinct(keys, hs[0], SortById(keys, hs[1..]));
      }
    }
  }

  /** `sortedKeys` as `loadView` computes it. */
  function SortedKeys(keys: seq<Key>): (r: seq<nat>)
    ensures |r| == |keys| && ValidHandles(keys, r)
  {
    SortById(keys, Range(|keys|))
  }

  /** The ids of `keys` are exactly `1..|keys|`, each carried by one key. */
  predicate IdsArePositions(keys: seq<Key>) {
    && (forall h :: 0 <= h < |keys| ==> 1 <= keys[h].id <= |keys|)
    && (forall h1, h2 :: 0 <= h1 < h2 < |keys| ==> keys[h1].id != keys[h2].id)
  }

  /** `sortedKeys[n - 1]` is the key whose id is `n`, for every id in range. */
  predicate IndexedById(keys: seq<Key>, sorted: seq<nat>) {
    && |sorted| == |keys|
    && forall k :: 0 <= k < |sorted| ==> sorted[k] < |keys| && keys[sorted[k]].id == k + 1
  }

  /**
   * A non-decreasing list of `N` distinct integers drawn from `1..N` is
   * `1, 2, ..., N`.
   */
  lemma {:induction false} PackedSortedIsIdentity(t: seq<int>)
    requires forall i, j :: 0 <= i < j < |t| ==> t[i] < t[j]
    requires forall i :: 0 <= i < |t| ==> 1 <= t[i] <= |t|
    ensures forall i :: 0 <= i < |t| ==> t[i] == i + 1
  {
    forall i | 0 <= i < |t|
      ensures t[i] == i + 1
    {
      IncreasingSpread(t, 0, i);
      IncreasingSpread(t, i, |t| - 1);
    }
  }

  /**
   * The invariant the sequencer depends on: when the ids of `keys` are
   * exactly `1..|keys|`, sorting by id puts the key with id `n` at index
   * `n - 1`.
   */
  lemma SortedKeysAreIndexedById(keys: seq<Key>)
    requires IdsArePositions(keys)
    ensures IndexedById(keys, SortedKeys(keys))
  {
    var s := SortedKeys(keys);
    var r := Range(|keys|);
    assert Distinct(r);
    SortByIdSorts(keys, r);
    var t := seq(|s|, i requires 0 <= i < |s| => keys[s[i]].id);
    assert Distinct(s);
    forall i, j | 0 <= i < j < |t|
      ensures t[i] < t[j]
    {
      assert s[i] != s[j];
      assert keys[s[i]].id <= keys[s[j]].id;
    }
    assert forall i :: 0 <= i < |t| ==> 1 <= t[i] <= |t|;
    PackedSortedIsIdentity(t);
    assert forall k :: 0 <= k < |s| ==> keys[s[k]].id == t[k];
  }

  /** The 24-key layout: `sortedKeys[n - 1]` is the key with id `n` for every `n` in 1..24. */
  lemma LayoutSortedKeys(keys: seq<Key>)
    requires OnLayout(keys)
    ensures IndexedById(keys, SortedKeys(keys))
    ensures forall n :: 1 <= n <= KeyCount ==> SortedKeys(keys)[n - 1] == HandleOf(n)
  {
    IdsAreOneToTwentyFour();
    forall h | 0 <= h < |keys|
      ensures keys[h].id == KeyAt(h).id
    {
      assert keys[h].(isActive := false) == KeyAt(h);
    }
    SortedKeysAreIndexedById(keys);
    var s := SortedKeys(keys);
    forall n | 1 <= n <= KeyCount
      ensures s[n - 1] == HandleOf(n)
    {
      HandleEntry(n);
      assert keys[s[n - 1]].id == n == keys[HandleOf(n)].id;
    }
  }
}
