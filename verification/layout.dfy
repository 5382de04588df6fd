/**
 * The fixed 24-key layout: ten `BlackKey`s and fourteen `WhiteKey`s, each
 * with an id (1-24, counting semitones from the left), a colour index into
 * its palette and an integral frame inside the piano's 368 x 100 bounds.
 *
 * A key is identified by its HANDLE: its position in the controller's
 * `keys` list, which holds the black keys (handles 0-9) before the white
 * keys (handles 10-23).
 */
module Layout {
  import opened Geometry
  import Palette

  const BlackIds: seq<int> := [2, 4, 6, 9, 11, 14, 16, 18, 21, 23]
  /** The white key (by white index) whose right half each black key covers. */
  const BlackOffsets: seq<int> := [0, 1, 2, 4, 5, 7, 8, 9, 11, 12]
  const WhiteIds: seq<int> := [1, 3, 5, 7, 8, 10, 12, 13, 15, 17, 19, 20, 22, 24]

  const BlackCount: nat := 10
  const WhiteCount: nat := 14
  const KeyCount: nat := 24

  /** The piano view's own bounds (its frame is 368 wide and 100 high); keys are laid out in it. */
  const PianoBounds := Rect(0, 0, 368, 100)

  /** Entry `n - 1` is the handle of the key whose id is `n`. */
  const HandleById: seq<nat> := [10, 0, 11, 1, 12, 2, 13, 14, 3, 15, 4, 16, 17, 5, 18, 6, 19, 7, 20, 21, 8, 22, 9, 23]

  function HandleOf(n: int): nat
    requires 1 <= n <= KeyCount
  {
    HandleById[n - 1]
  }

  datatype Key = Key(id: int, color: nat, isBlack: bool, isActive: bool, frame: Rect)

  /** `BlackKey(index:)`: id from the table, colour `index % 5`, a 18 x 55 frame over the gap after white key `BlackOffsets[index]`. */
  function BlackKey(index: nat): (k: Key)
    requires index < BlackCount
    ensures k.isBlack && !k.isActive
    ensures k.color < |Palette.Shades|
  {
    Key(BlackIds[index], index % 5, true, false, Rect(19 + BlackOffsets[index] * 26, 4, 18, 55))
  }

  /** `WhiteKey(index:)`: id from the table, colour `index % 7`, a 22 x 92 frame every 26 points. */
  function WhiteKey(index: nat): (k: Key)
    requires index < WhiteCount
    ensures !k.isBlack && !k.isActive
    ensures k.color < |Palette.Pastels|
  {
    Key(WhiteIds[index], index % 7, false, false, Rect(4 + index * 26, 4, 22, 92))
  }

  /** The key created with handle `h` in `loadView`. */
  function KeyAt(h: nat): (k: Key)
    requires h < KeyCount
    ensures k.isBlack <==> h < BlackCount
  {
    if h < BlackCount then BlackKey(h) else WhiteKey(h - BlackCount)
  }

  /** The `keys` list as `loadView` leaves it. */
  function Keyboard(): (keys: seq<Key>)
    ensures |keys| == KeyCount
    ensures forall h :: 0 <= h < KeyCount ==> keys[h] == KeyAt(h)
  {
    seq(KeyCount, h requires 0 <= h < KeyCount => KeyAt(h))
  }

  /** The two `for` loops of `loadView`: ten black keys appended, then fourteen white keys. */
  method LoadKeys() returns (keys: seq<Key>)
    ensures keys == Keyboard()
  {
    keys := [];
    for i := 0 to BlackCount
      invariant |keys| == i
      invariant forall h :: 0 <= h < i ==> keys[h] == KeyAt(h)
    {
      keys := keys + [BlackKey(i)];
    }
    for i := 0 to WhiteCount
      invariant |keys| == BlackCount + i
      invariant forall h :: 0 <= h < BlackCount + i ==> keys[h] == KeyAt(h)
    {
      keys := keys + [WhiteKey(i)];
    }
  }

  /** Keys whose fixed attributes are those of the layout; only `isActive` is free. */
  predicate OnLayout(keys: seq<Key>) {
    |keys| == KeyCount && forall h :: 0 <= h < KeyCount ==> keys[h].(isActive := false) == KeyAt(h)
  }

  // ---------------------------------------------------------------------------
  // Facts about the tables, one key at a time.

  lemma BlackEntry(i: nat)
    requires i < BlackCount
    ensures 0 <= BlackOffsets[i] && BlackOffsets[i] + 1 < WhiteCount
    ensures WhiteIds[BlackOffsets[i]] < BlackIds[i] < WhiteIds[BlackOffsets[i] + 1]
    ensures i + 1 < BlackCount ==> BlackOffsets[i] < BlackOffsets[i + 1]
    ensures 1 <= BlackIds[i] <= KeyCount && HandleOf(BlackIds[i]) == i
  {
    assert i == 0 || i == 1 || i == 2 || i == 3 || i == 4 || i == 5 || i == 6 || i == 7 || i == 8 || i == 9;
  }

  lemma WhiteEntry(i: nat)
    requires i < WhiteCount
    ensures 1 <= WhiteIds[i] <= KeyCount && HandleOf(WhiteIds[i]) == BlackCount + i
  {
    assert i == 0 || i == 1 || i == 2 || i == 3 || i == 4 || i == 5 || i == 6 || i == 7
      || i == 8 || i == 9 || i == 10 || i == 11 || i == 12 || i == 13;
  }

  lemma HandleEntry(n: int)
    requires 1 <= n <= KeyCount
    ensures HandleOf(n) < KeyCount && KeyAt(HandleOf(n)).id == n
  {
    if n <= 8 {
      assert n == 1 || n == 2 || n == 3 || n == 4 || n == 5 || n == 6 || n == 7 || n == 8;
    } else if n <= 16 {
      assert n == 9 || n == 10 || n == 11 || n == 12 || n == 13 || n == 14 || n == 15 || n == 16;
    } else {
      assert n == 17 || n == 18 || n == 19 || n == 20 || n == 21 || n == 22 || n == 23 || n == 24;
    }
  }

  // ---------------------------------------------------------------------------
  // Properties of the whole layout.

  /**
   * Ids: every key's id is in 1..24, no two keys share an id, and every id
   * in 1..24 belongs to some key. In particular the black-key ids and the
   * white-key ids are disjoint and together are exactly 1..24.
   */
  lemma IdsAreOneToTwentyFour()
    ensures forall h :: 0 <= h < KeyCount ==> 1 <= KeyAt(h).id <= KeyCount
    ensures forall h1, h2 :: 0 <= h1 < h2 < KeyCount ==> KeyAt(h1).id != KeyAt(h2).id
    ensures forall n :: 1 <= n <= KeyCount ==> HandleOf(n) < KeyCount && KeyAt(HandleOf(n)).id == n
    ensures forall i, j :: 0 <= i < BlackCount && 0 <= j < WhiteCount ==> BlackIds[i] != WhiteIds[j]
  {
    forall h | 0 <= h < KeyCount
      ensures 1 <= KeyAt(h).id <= KeyCount && HandleOf(KeyAt(h).id) == h
    {
      if h < BlackCount { BlackEntry(h); } else { WhiteEntry(h - BlackCount); }
    }
    forall n | 1 <= n <= KeyCount
      ensures HandleOf(n) < KeyCount && KeyAt(HandleOf(n)).id == n
    {
      HandleEntry(n);
    }
    forall i, j | 0 <= i < BlackCount && 0 <= j < WhiteCount
      ensures BlackIds[i] != WhiteIds[j]
    {
      assert KeyAt(i).id == BlackIds[i] && KeyAt(BlackCount + j).id == WhiteIds[j];
    }
  }

  /** A strictly increasing sequence spreads by at least one per position. */
  lemma {:induction false} IncreasingSpread(s: seq<int>, i: nat, j: nat)
    requires forall k :: 0 <= k < |s| - 1 ==> s[k] < s[k + 1]
    requires i <= j < |s|
    ensures s[j] - s[i] >= j - i
    decreases j - i
  {
    if i < j {
      IncreasingSpread(s, i, j - 1);
    }
  }

  lemma BlackOffsetsIncrease(i: nat, j: nat)
    requires i < j < BlackCount
    ensures BlackOffsets[i] < BlackOffsets[j]
  {
    forall k | 0 <= k < |BlackOffsets| - 1
      ensures BlackOffsets[k] < BlackOffsets[k + 1]
    {
      BlackEntry(k);
    }
    IncreasingSpread(BlackOffsets, i, j);
  }

  /**
   * Frames: white keys never overlap one another, black keys never overlap
   * one another, and every key lies inside the piano.
   */
  lemma FramesOfLayout()
    ensures forall h :: 0 <= h < KeyCount ==> NonEmpty(KeyAt(h).frame) && Within(KeyAt(h).frame, PianoBounds)
    ensures forall i, j :: 0 <= i < j < WhiteCount ==> Disjoint(WhiteKey(i).frame, WhiteKey(j).frame)
    ensures forall i, j :: 0 <= i < j < BlackCount ==> Disjoint(BlackKey(i).frame, BlackKey(j).frame)
  {
    forall h | 0 <= h < BlackCount
      ensures Within(KeyAt(h).frame, PianoBounds)
    {
      BlackEntry(h);
    }
    forall i, j | 0 <= i < j < BlackCount
      ensures Disjoint(BlackKey(i).frame, BlackKey(j).frame)
    {
      BlackOffsetsIncrease(i, j);
    }
  }

  /**
   * Each black key straddles two neighbouring white keys: it overlaps white
   * keys `BlackOffsets[i]` and `BlackOffsets[i] + 1` and no other, and its
   * id lies strictly between theirs.
   */
  lemma BlackKeysStraddle(i: nat)
    requires i < BlackCount
    ensures var o := BlackOffsets[i];
      && 0 <= o && o + 1 < WhiteCount
      && (forall w :: 0 <= w < WhiteCount ==> (!Disjoint(BlackKey(i).frame, WhiteKey(w).frame) <==> w == o || w == o + 1))
      && WhiteKey(o).id < BlackKey(i).id < WhiteKey(o + 1).id
  {
    BlackEntry(i);
  }
}
