/**
 * `Key.activateKey` and `Key.deactivateKey`: guarded flips of `isActive`.
 * Activation also paints the key in its palette colour, plays its sound
 * and spawns a rising note; only the state change and the colour are
 * modelled here.
 */
module KeyState {
  import opened Layout
  import Palette

  /** The key's colour index is in range for the palette its colour class uses. */
  predicate WellColoured(k: Key) {
    if k.isBlack then k.color < |Palette.Shades| else k.color < |Palette.Pastels|
  }

  /** The key's background: its palette colour while active, plain black or white otherwise. */
  function Background(k: Key): (c: Palette.Rgba)
    requires WellColoured(k)
    ensures k.isActive && k.isBlack ==> c in Palette.Shades
    ensures k.isActive && !k.isBlack ==> c in Palette.Pastels
    ensures !k.isActive ==> c == (if k.isBlack then Palette.Black else Palette.White)
  {
    if !k.isActive then (if k.isBlack then Palette.Black else Palette.White)
    else if k.isBlack then Palette.Shades[k.color]
    else Palette.Pastels[k.color]
  }

  /** Every key of the layout is well coloured, whatever its `isActive`. */
  lemma LayoutIsWellColoured(keys: seq<Key>, h: nat)
    requires OnLayout(keys) && h < |keys|
    ensures WellColoured(keys[h])
  {
    assert keys[h].(isActive := false) == KeyAt(h);
  }

  /** `activateKey`: does nothing on an active key; otherwise sets `isActive` and nothing else. */
  function Activate(k: Key): (r: Key)
    ensures r.isActive
    ensures k.isActive ==> r == k
    ensures r.(isActive := k.isActive) == k
  {
    if k.isActive then k else k.(isActive := true)
  }

  /** `deactivateKey`: does nothing on an inactive key; otherwise clears `isActive` and nothing else. */
  function Deactivate(k: Key): (r: Key)
    ensures !r.isActive
    ensures !k.isActive ==> r == k
    ensures r.(isActive := k.isActive) == k
  {
    if !k.isActive then k else k.(isActive := false)
  }

  /** Both operations are idempotent, and each undoes the other's flip. */
  lemma ActivationRoundTrip(k: Key)
    ensures Activate(Activate(k)) == Activate(k)
    ensures Deactivate(Deactivate(k)) == Deactivate(k)
    ensures !k.isActive ==> Deactivate(Activate(k)) == k
    ensures k.isActive ==> Activate(Deactivate(k)) == k
  {
  }

  /** Activating the key with handle `h` among `keys`: that key alone may change. */
  function ActivateAt(keys: seq<Key>, h: nat): (r: seq<Key>)
    requires h < |keys|
    ensures |r| == |keys| && r[h].isActive
    ensures forall j :: 0 <= j < |keys| && j != h ==> r[j] == keys[j]
    ensures r[h].(isActive := keys[h].isActive) == keys[h]
    ensures OnLayout(keys) ==> OnLayout(r)
  {
    keys[h := Activate(keys[h])]
  }

  /** Deactivating the key with handle `h` among `keys`: that key alone may change. */
  function DeactivateAt(keys: seq<Key>, h: nat): (r: seq<Key>)
    requires h < |keys|
    ensures |r| == |keys| && !r[h].isActive
    ensures forall j :: 0 <= j < |keys| && j != h ==> r[j] == keys[j]
    ensures r[h].(isActive := keys[h].isActive) == keys[h]
    ensures OnLayout(keys) ==> OnLayout(r)
  {
    keys[h := Deactivate(keys[h])]
  }
}
