/**
 * Hit-testing the piano keys in `touchesBegan`, `touchesMoved` and
 * `touchesEnded`: each scans `keys` in order and acts on the first key
 * whose frame contains the touch point (in the piano's coordinates).
 */
module Touches {
  import opened Optional
  import opened Geometry
  import opened Layout
  import opened KeyState

  /** The first handle at or after `from` whose frame contains `p`. */
  function FirstHitFrom(keys: seq<Key>, p: Point, from: nat): (r: Option<nat>)
    requires from <= |keys|
    ensures r.Some? ==> from <= r.value < |keys| && Contains(keys[r.value].frame, p)
    ensures r.Some? ==> forall j :: from <= j < r.value ==> !Contains(keys[j].frame, p)
    ensures r.None? ==> forall j :: from <= j < |keys| ==> !Contains(keys[j].frame, p)
    decreases |keys| - from
  {
    if from == |keys| then None
    else if Contains(keys[from].frame, p) then Some(from)
    else FirstHitFrom(keys, p, from + 1)
  }

  /** The key a touch at `p` acts on: the first in `keys` order whose frame contains `p`, if any. */
  function FirstHit(keys: seq<Key>, p: Point): (r: Option<nat>)
    ensures r.Some? ==> r.value < |keys| && Contains(keys[r.value].frame, p)
    ensures r.Some? ==> forall j :: 0 <= j < r.value ==> !Contains(keys[j].frame, p)
    ensures r.None? ==> forall j :: 0 <= j < |keys| ==> !Contains(keys[j].frame, p)
  {
    FirstHitFrom(keys, p, 0)
  }

  /** The `for key in keys { if key.frame.contains(touchPt) { ...; break } }` scan itself. */
  method ScanForKey(keys: seq<Key>, p: Point) returns (r: Option<nat>)
    ensures r == FirstHit(keys, p)
  {
    r := None;
    var i := 0;
    while i < |keys|
      invariant 0 <= i <= |keys|
      invariant forall j :: 0 <= j < i ==> !Contains(keys[j].frame, p)
    {
      if Contains(keys[i].frame, p) {
        r := Some(i);
        break;
      }
      i := i + 1;
    }
  }

  /** The key part of `touchesBegan`: the key under the point is activated, no other key changes. */
  function KeyDown(keys: seq<Key>, p: Point): (r: seq<Key>)
    ensures |r| == |keys|
    ensures FirstHit(keys, p).None? ==> r == keys
    ensures FirstHit(keys, p).Some? ==> var h := FirstHit(keys, p).value;
      && r[h].isActive && r[h].(isActive := keys[h].isActive) == keys[h]
      && forall j :: 0 <= j < |keys| && j != h ==> r[j] == keys[j]
    ensures OnLayout(keys) ==> OnLayout(r)
  {
    match FirstHit(keys, p)
    case None => keys
    case Some(h) => ActivateAt(keys, h)
  }

  /** The key part of `touchesEnded`: the key under the point is deactivated, no other key changes. */
  function KeyUp(keys: seq<Key>, p: Point): (r: seq<Key>)
    ensures |r| == |keys|
    ensures FirstHit(keys, p).None? ==> r == keys
    ensures FirstHit(keys, p).Some? ==> var h := FirstHit(keys, p).value;
      && !r[h].isActive && r[h].(isActive := keys[h].isActive) == keys[h]
      && forall j :: 0 <= j < |keys| && j != h ==> r[j] == keys[j]
    ensures OnLayout(keys) ==> OnLayout(r)
  {
    match FirstHit(keys, p)
    case None => keys
    case Some(h) => DeactivateAt(keys, h)
  }

  /** The first active key at or after `from` that is not `skip`. */
  function FirstActiveExcept(keys: seq<Key>, skip: Option<nat>, from: nat): (r: Option<nat>)
    requires from <= |keys|
    ensures r.Some? ==> from <= r.value < |keys| && keys[r.value].isActive && skip != Some(r.value)
    ensures r.Some? ==> forall j :: from <= j < r.value ==> !keys[j].isActive || skip == Some(j)
    ensures r.None? ==> forall j :: from <= j < |keys| ==> !keys[j].isActive || skip == Some(j)
    decreases |keys| - from
  {
    if from == |keys| then None
    else if keys[from].isActive && skip != Some(from) then Some(from)
    else FirstActiveExcept(keys, skip, from + 1)
  }

  /**
   * Key `d` is the first active key other than `hit`: the one a move
   * releases.
   */
  predicate FirstToRelease(keys: seq<Key>, hit: Option<nat>, d: nat)
    requires d < |keys|
  {
    && keys[d].isActive && hit != Some(d)
    && forall j :: 0 <= j < d && hit != Some(j) ==> !keys[j].isActive
  }

  /** The key with handle `j` went from active to inactive between `before` and `after`. */
  predicate Dropped(before: seq<Key>, after: seq<Key>, j: nat)
    requires j < |before| && j < |after|
  {
    before[j].isActive && !after[j].isActive
  }

  /** The key with handle `j` went from inactive to active between `before` and `after`. */
  predicate Raised(before: seq<Key>, after: seq<Key>, j: nat)
    requires j < |before| && j < |after|
  {
    !before[j].isActive && after[j].isActive
  }

  /**
   * `touchesMoved`: activate the first key under the point, then deactivate
   * the first active key (in `keys` order) other than the one just found.
   */
  function KeySlide(keys: seq<Key>, p: Point): (r: seq<Key>)
    ensures |r| == |keys|
    ensures forall j :: 0 <= j < |keys| ==> r[j].(isActive := keys[j].isActive) == keys[j]
    ensures FirstHit(keys, p).Some? ==> r[FirstHit(keys, p).value].isActive
    ensures forall j :: 0 <= j < |keys| && Raised(keys, r, j) ==> FirstHit(keys, p) == Some(j)
    ensures forall j :: 0 <= j < |keys| && Dropped(keys, r, j) ==> FirstHit(keys, p) != Some(j)
    ensures forall j, k :: 0 <= j < |keys| && 0 <= k < |keys| && Dropped(keys, r, j) && Dropped(keys, r, k) ==> j == k
    ensures forall d :: 0 <= d < |keys| && FirstToRelease(keys, FirstHit(keys, p), d) ==> !r[d].isActive
    ensures OnLayout(keys) ==> OnLayout(r)
  {
    var hit := FirstHit(keys, p);
    var lit := if hit.Some? then ActivateAt(keys, hit.value) else keys;
    match FirstActiveExcept(lit, hit, 0)
    case None => lit
    case Some(d) => DeactivateAt(lit, d)
  }

  // ---------------------------------------------------------------------------
  // Hit-testing over the 24-key layout.

  /** A key's frame is one of the layout frames, whatever the key's `isActive`. */
  lemma FrameOnLayout(keys: seq<Key>, h: nat)
    requires OnLayout(keys) && h < KeyCount
    ensures keys[h].frame == KeyAt(h).frame
  {
    assert keys[h].(isActive := false) == KeyAt(h);
  }

  /** No black key other than `b` contains a point that `b` contains. */
  lemma BlackKeysExclusive(keys: seq<Key>, p: Point, b: nat, c: nat)
    requires OnLayout(keys) && b < BlackCount && c < BlackCount && b != c
    requires Contains(keys[b].frame, p)
    ensures !Contains(keys[c].frame, p)
  {
    FramesOfLayout();
    FrameOnLayout(keys, b);
    FrameOnLayout(keys, c);
    if b < c {
      assert Disjoint(BlackKey(b).frame, BlackKey(c).frame);
    } else {
      assert Disjoint(BlackKey(c).frame, BlackKey(b).frame);
    }
  }

  /** No white key other than `w` contains a point that `w` contains. */
  lemma WhiteKeysExclusive(keys: seq<Key>, p: Point, w: nat, v: nat)
    requires OnLayout(keys) && BlackCount <= w < KeyCount && BlackCount <= v < KeyCount && w != v
    requires Contains(keys[w].frame, p)
    ensures !Contains(keys[v].frame, p)
  {
    FramesOfLayout();
    FrameOnLayout(keys, w);
    FrameOnLayout(keys, v);
    if w < v {
      assert Disjoint(WhiteKey(w - BlackCount).frame, WhiteKey(v - BlackCount).frame);
    } else {
      assert Disjoint(WhiteKey(v - BlackCount).frame, WhiteKey(w - BlackCount).frame);
    }
  }

  /**
   * On the layout a touch at `p` acts on key `h` exactly when `h`'s frame
   * contains `p` and, if `h` is a white key, no black key's frame does:
   * where a black key overlaps a white key, the black key wins, because the
   * black keys come first in `keys`.
   */
  lemma HitOnLayout(keys: seq<Key>, p: Point, h: nat)
    requires OnLayout(keys) && h < KeyCount
    ensures FirstHit(keys, p) == Some(h) <==>
      && Contains(keys[h].frame, p)
      && (!keys[h].isBlack ==> forall b :: 0 <= b < BlackCount ==> !Contains(keys[b].frame, p))
  {
    FrameOnLayout(keys, h);
    var r := FirstHit(keys, p);
    if Contains(keys[h].frame, p) {
      if h < BlackCount {
        forall c | 0 <= c < h
          ensures !Contains(keys[c].frame, p)
        {
          BlackKeysExclusive(keys, p, h, c);
        }
        assert r.Some? && r.value <= h;
      } else if forall b :: 0 <= b < BlackCount ==> !Contains(keys[b].frame, p) {
        forall v | BlackCount <= v < h
          ensures !Contains(keys[v].frame, p)
        {
          WhiteKeysExclusive(keys, p, h, v);
        }
        assert r.Some? && r.value <= h;
      }
    }
  }
}
