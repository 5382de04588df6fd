/**
 * The `ViewController` and `Menu` state that is pure logic: the keys, the
 * song table's selection, the menu's `isShowing`, the play button's tint,
 * the current song, and the closures waiting on the main queue. Each UI
 * callback is a step from one `State` to the next.
 */
module Controller {
  import opened Optional
  import opened Geometry
  import opened Layout
  import opened KeyState
  import opened KeyOrder
  import opened Touches
  import opened Sequencer
  import opened SongList
  import opened Menu
  import Palette

  /** The extension of song resources; `setupSong` looks a name up with it. */
  const SongExtension := ".txt"

  /** A closure waiting on the main queue. */
  datatype Timer =
    | RetractMenu         // `setupSong` succeeded: `menu.retract()` shortly after
    | FinishRetract       // the retract animation's completion: `menu.deselectSong()`
    | StartSong           // `setupSong`: `song.play()` after the title is shown
    | SongCue(cue: Cue)   // what `play()` scheduled

  predicate IsSongTimer(t: Timer) {
    t.StartSong? || t.SongCue?
  }

  datatype State = State(
    keys: seq<Key>,                         // `keys`: black keys, then white keys
    sortedKeys: seq<nat>,                   // `sortedKeys`, as handles into `keys`
    songs: seq<string>,                     // the table's song names
    bundle: map<string, Option<string>>,    // `.txt` resources by file name; `None` when unreadable
    tableSelection: Option<nat>,            // `songList.indexPathForSelectedRow`
    selectedRow: Option<nat>,
    selectedSong: Option<string>,
    currentSong: Option<Song>,
    menuShowing: bool,                      // `menu.isShowing`
    playTint: Palette.Rgba,                 // `menu.playSong.backgroundColor`
    pending: seq<Timer>)                    // closures on the main queue

  // ---------------------------------------------------------------------------
  // The invariant

  /** The number of pending closures that belong to a song. */
  function SongTimers(pending: seq<Timer>): nat {
    if pending == [] then 0 else (if IsSongTimer(pending[0]) then 1 else 0) + SongTimers(pending[1..])
  }

  /** The queue without the closure at `slot`. */
  function RemoveAt(pending: seq<Timer>, slot: nat): (r: seq<Timer>)
    requires slot < |pending|
    ensures |r| == |pending| - 1
    ensures SongTimers(r) == SongTimers(pending) - (if IsSongTimer(pending[slot]) then 1 else 0)
    ensures forall t :: t in r ==> t in pending
    ensures multiset(r) == multiset(pending) - multiset{pending[slot]}
  {
    var r := pending[..slot] + pending[slot + 1..];
    assert pending == pending[..slot] + [pending[slot]] + pending[slot + 1..];
    SongTimersAppend(pending[..slot] + [pending[slot]], pending[slot + 1..]);
    SongTimersAppend(pending[..slot], [pending[slot]]);
    SongTimersAppend(pending[..slot], pending[slot + 1..]);
    r
  }

  lemma {:induction false} SongTimersAppend(p: seq<Timer>, q: seq<Timer>)
    ensures SongTimers(p + q) == SongTimers(p) + SongTimers(q)
  {
    if p != [] {
      assert (p + q)[0] == p[0] && (p + q)[1..] == p[1..] + q;
      SongTimersAppend(p[1..], q);
    } else {
      assert p + q == q;
    }
  }

  /** Every readable song file in the bundle is one `play()` gets through. */
  predicate BundleWellFormed(bundle: map<string, Option<string>>) {
    forall file :: file in bundle && bundle[file].Some? ==> WellFormedText(bundle[file].value)
  }

  predicate TintAllowed(c: Palette.Rgba) {
    c == Palette.White || c == Palette.LightGray || c in Palette.Pastels
  }

  predicate CueValid(t: Timer) {
    t.SongCue? && t.cue.Release? ==> 1 <= t.cue.id <= KeyCount
  }

  /**
   * What holds between callbacks: the keys keep their layout and
   * `sortedKeys` reaches each key by id; the controller's selection agrees
   * with the table's and names a listed song; every listed song can be
   * found; and a song's closures are pending exactly while it is the
   * current song, one at a time.
   */
  predicate Inv(c: State) {
    && OnLayout(c.keys) && Stage(c.keys, c.sortedKeys)
    && BundleWellFormed(c.bundle)
    && (forall i :: 0 <= i < |c.songs| ==> c.songs[i] + SongExtension in c.bundle)
    && c.tableSelection == c.selectedRow
    && (c.selectedRow.Some? ==> c.selectedRow.value < |c.songs| && c.selectedSong == Some(c.songs[c.selectedRow.value]))
    && (c.currentSong.Some? ==> Playable(c.currentSong.value))
    && SongTimers(c.pending) == (if c.currentSong.Some? then 1 else 0)
    && (forall t :: t in c.pending ==> CueValid(t))
    && TintAllowed(c.playTint)
  }

  /** At most one song is under way at a time: at most one song closure is ever pending. */
  lemma OneSongAtATime(c: State)
    requires Inv(c)
    ensures SongTimers(c.pending) <= 1
    ensures c.currentSong.None? ==> forall t :: t in c.pending ==> !IsSongTimer(t)
  {
    if c.currentSong.None? {
      forall t | t in c.pending ensures !IsSongTimer(t) {
        var i :| 0 <= i < |c.pending| && c.pending[i] == t;
        var _ := RemoveAt(c.pending, i);
      }
    }
  }

  // ---------------------------------------------------------------------------
  // Loading

  /** `loadView`: the 24 keys, `sortedKeys`, and the song names of the bundle's `.txt` files. */
  method LoadView(files: seq<string>, bundle: map<string, Option<string>>) returns (c: State)
    requires forall i :: 0 <= i < |files| ==> |files[i]| >= 4 && files[i][|files[i]| - 4..] == SongExtension
    requires forall i :: 0 <= i < |files| ==> files[i] in bundle
    requires BundleWellFormed(bundle)
    ensures Inv(c)
    ensures c.keys == Keyboard() && SongList.Sorted(c.songs) && multiset(c.songs) == multiset(Names(files))
    ensures c.currentSong.None? && c.selectedRow.None? && !c.menuShowing && c.pending == []
    ensures c.bundle == bundle && c.sortedKeys == SortedKeys(c.keys)
    ensures c.tableSelection.None? && c.selectedSong.None? && c.playTint == Palette.White
  {
    var keys := LoadKeys();
    var songs := PopulateSongs(files);
    SongsAreInBundle(files, bundle, songs);
    c := State(keys, SortedKeys(keys), songs, bundle, None, None, None, None, false, Palette.White, []);
    FreshStateInv(c);
  }

  /** Every name `populateSongs` lists comes from a file in the bundle. */
  lemma SongsAreInBundle(files: seq<string>, bundle: map<string, Option<string>>, songs: seq<string>)
    requires forall i :: 0 <= i < |files| ==> |files[i]| >= 4 && files[i][|files[i]| - 4..] == SongExtension
    requires forall i :: 0 <= i < |files| ==> files[i] in bundle
    requires multiset(songs) == multiset(Names(files))
    ensures forall i :: 0 <= i < |songs| ==> songs[i] + SongExtension in bundle
  {
    forall i | 0 <= i < |songs| ensures songs[i] + SongExtension in bundle {
      assert songs[i] in multiset(Names(files));
      var j :| 0 <= j < |files| && Names(files)[j] == songs[i];
      assert songs[i] + SongExtension == files[j];
    }
  }

  /** The state `loadView` leaves satisfies the invariant. */
  lemma FreshStateInv(c: State)
    requires c.keys == Keyboard() && c.sortedKeys == SortedKeys(c.keys)
    requires BundleWellFormed(c.bundle) && forall i :: 0 <= i < |c.songs| ==> c.songs[i] + SongExtension in c.bundle
    requires c.tableSelection.None? && c.selectedRow.None? && c.currentSong.None?
    requires c.pending == [] && c.playTint == Palette.White
    ensures Inv(c)
  {
    IdsAreOneToTwentyFour();
    assert OnLayout(c.keys);
    LayoutSortedKeys(c.keys);
  }

  // ---------------------------------------------------------------------------
  // The menu

  /** `menu.retract()`: hidden now; `deselectSong()` runs when the animation completes. */
  function Retract(c: State): (r: State)
    ensures !r.menuShowing && r.pending == c.pending + [FinishRetract]
    ensures r.(menuShowing := c.menuShowing, pending := c.pending) == c
  {
    c.(menuShowing := false, pending := c.pending + [FinishRetract])
  }

  /** `menu.reveal()`. */
  function Reveal(c: State): (r: State)
    ensures r.menuShowing && r.(menuShowing := c.menuShowing) == c
  {
    c.(menuShowing := true)
  }

  /**
   * The menu part of `touchesBegan`: a touch on the chevron toggles the
   * menu; a touch elsewhere outside the content panel closes an open menu.
   */
  function MenuTap(c: State, p: Point): (r: State)
    ensures Contains(Chevron, p) ==> r.menuShowing == !c.menuShowing
    ensures !Contains(Chevron, p) ==> r.menuShowing == (c.menuShowing && Contains(Content, p))
    ensures r.menuShowing == c.menuShowing ==> r == c
    ensures r.pending == c.pending + (if c.menuShowing && !r.menuShowing then [FinishRetract] else [])
    ensures r.(menuShowing := c.menuShowing, pending := c.pending) == c
  {
    if Contains(Chevron, p) then
      if c.menuShowing then Retract(c) else Reveal(c)
    else if c.menuShowing && !Contains(Content, p) then Retract(c)
    else c
  }

  /** `menu.deselectSong()`: forgets the selected row (not the selected song name) and whitens the button. */
  function DeselectSong(c: State): (r: State)
    ensures r.selectedRow.None? && r.selectedSong == c.selectedSong
    ensures c.selectedRow.Some? ==> r.playTint == Palette.White
    ensures c.tableSelection == c.selectedRow ==> r.tableSelection.None?
    ensures c.tableSelection != c.selectedRow ==> r.tableSelection == c.tableSelection
    ensures c.selectedRow.None? ==> r == c
    ensures r.(tableSelection := c.tableSelection, selectedRow := c.selectedRow, playTint := c.playTint) == c
  {
    if c.selectedRow.Some? then
      c.(tableSelection := if c.tableSelection == c.selectedRow then None else c.tableSelection,
         selectedRow := None, playTint := Palette.White)
    else c
  }

  // ---------------------------------------------------------------------------
  // The song table

  /**
   * `tableView(_:willSelectRowAt:)`: choosing the row that is already
   * selected deselects it, clears `selectedRow` and `selectedSong`, and
   * cancels the selection (`nil`); any other row goes ahead.
   */
  function WillSelect(c: State, row: nat): (r: (State, Option<nat>))
    ensures c.tableSelection == Some(row) ==>
      r.1.None? && r.0 == c.(tableSelection := None, selectedRow := None, selectedSong := None)
    ensures c.tableSelection != Some(row) ==> r == (c, Some(row))
  {
    if c.tableSelection == Some(row) then
      (c.(tableSelection := None, selectedRow := None, selectedSong := None), None)
    else (c, Some(row))
  }

  /** `tableView(_:didSelectRowAt:)`: records the row and its song name. */
  function DidSelect(c: State, row: nat): (r: State)
    requires row < |c.songs|
    ensures r.selectedRow == Some(row) && r.selectedSong == Some(c.songs[row])
    ensures r.(selectedRow := c.selectedRow, selectedSong := c.selectedSong) == c
  {
    c.(selectedRow := Some(row), selectedSong := Some(c.songs[row]))
  }

  /**
   * A tap on table row `row`: `willSelectRowAt`, then, unless it cancelled,
   * the table selects the row and calls `didSelectRowAt`.
   */
  function SelectRow(c: State, row: nat): (r: State)
    requires row < |c.songs|
    ensures c.tableSelection == Some(row) ==> r.selectedRow.None? && r.selectedSong.None? && r.tableSelection.None?
    ensures c.tableSelection != Some(row) ==>
      r.selectedRow == Some(row) && r.selectedSong == Some(c.songs[row]) && r.tableSelection == Some(row)
    ensures r.(tableSelection := c.tableSelection, selectedRow := c.selectedRow, selectedSong := c.selectedSong) == c
  {
    var (c1, go) := WillSelect(c, row);
    if go.Some? then DidSelect(c1.(tableSelection := Some(row)), row) else c1
  }

  /** Tapping an unselected row twice leaves no row and no song selected. */
  lemma SelectTwiceDeselects(c: State, row: nat)
    requires row < |c.songs| && c.tableSelection != Some(row)
    ensures var r := SelectRow(SelectRow(c, row), row);
      r.selectedRow.None? && r.selectedSong.None? && r.tableSelection.None?
  {
    var once := SelectRow(c, row);
    assert once.tableSelection == Some(row) && |once.songs| == |c.songs|;
  }

  // ---------------------------------------------------------------------------
  // Starting a song

  /**
   * `menu.setupSong()`: looks up the selected song's file; refuses while a
   * song is current; otherwise makes the file's song current and schedules
   * its first `play()`. The result says whether a song was set up.
   */
  function SetupSong(c: State): (r: (State, bool))
    requires c.selectedSong.Some?
    ensures c.currentSong.Some? ==> r == (c, false)
    ensures !r.1 ==> r.0 == c
    ensures r.1 <==>
      && c.currentSong.None?
      && c.selectedSong.value + SongExtension in c.bundle
      && c.bundle[c.selectedSong.value + SongExtension].Some?
    ensures r.1 ==>
      && r.0.currentSong == Some(NewSong(c.bundle[c.selectedSong.value + SongExtension].value))
      && r.0.pending == c.pending + [StartSong]
      && r.0.(currentSong := c.currentSong, pending := c.pending) == c
  {
    var file := c.selectedSong.value + SongExtension;
    if file !in c.bundle then (c, false)
    else if c.currentSong.Some? then (c, false)
    else match c.bundle[file]
      case None => (c, false)
      case Some(text) => (c.(currentSong := Some(NewSong(text)), pending := c.pending + [StartSong]), true)
  }

  /**
   * The play-button part of `touchesBegan` (`p` in the content panel's
   * coordinates): with no row selected the button greys; otherwise it takes
   * the row's colour and, unless a song is playing, `setupSong` runs, and
   * on success the menu retracts shortly after.
   */
  function PlayButtonTap(c: State, p: Point): (r: State)
    requires c.selectedRow.Some? ==> c.selectedSong.Some?
    ensures !Contains(PlayButton, p) ==> r == c
    ensures Contains(PlayButton, p) && c.selectedRow.None? ==> r == c.(playTint := Palette.LightGray)
    ensures Contains(PlayButton, p) && c.selectedRow.Some? ==> r.playTint == Palette.RowColour(c.selectedRow.value)
    ensures c.currentSong.Some? ==> r.currentSong == c.currentSong && r.pending == c.pending
    ensures r.currentSong != c.currentSong ==> c.currentSong.None? && r.pending == c.pending + [StartSong, RetractMenu]
    ensures r.currentSong == c.currentSong ==> r.pending == c.pending
    ensures r.currentSong != c.currentSong ==>
      && Contains(PlayButton, p) && c.selectedRow.Some?
      && c.selectedSong.value + SongExtension in c.bundle
      && c.bundle[c.selectedSong.value + SongExtension].Some?
    ensures (&& Contains(PlayButton, p) && c.selectedRow.Some? && c.currentSong.None?
             && c.selectedSong.value + SongExtension in c.bundle
             && c.bundle[c.selectedSong.value + SongExtension].Some?) ==>
        && r.currentSong == Some(NewSong(c.bundle[c.selectedSong.value + SongExtension].value))
        && r.pending == c.pending + [StartSong, RetractMenu]
    ensures r.(playTint := c.playTint, currentSong := c.currentSong, pending := c.pending) == c
  {
    if !Contains(PlayButton, p) then c
    else match c.selectedRow
      case None => c.(playTint := Palette.LightGray)
      case Some(row) =>
        var c1 := c.(playTint := Palette.RowColour(row));
        if c1.currentSong.None? || !c1.currentSong.value.isPlaying then
          var (c2, ok) := SetupSong(c1);
          if ok then c2.(pending := c2.pending + [RetractMenu]) else c2
        else c1
  }

  // ---------------------------------------------------------------------------
  // Touches

  /** `touchesBegan`: the touch seen from the piano and from the menu. */
  function TouchBegan(c: State, pianoPt: Point, menuPt: Point): (r: State)
    requires c.selectedRow.Some? ==> c.selectedSong.Some?
    ensures r.keys == KeyDown(c.keys, pianoPt)
  {
    var c1 := c.(keys := KeyDown(c.keys, pianoPt));
    var c2 := MenuTap(c1, menuPt);
    PlayButtonTap(c2, InSubview(menuPt, Point(Content.x, Content.y)))
  }

  /** `touchesMoved`. */
  function TouchMoved(c: State, pianoPt: Point): (r: State)
    ensures r.keys == KeySlide(c.keys, pianoPt) && r.(keys := c.keys) == c
  {
    c.(keys := KeySlide(c.keys, pianoPt))
  }

  /**
   * `touchesEnded`: the key under the point is released, then the play
   * button's tint is settled by the test as the program writes it (see
   * `ReleaseTintAsWritten`).
   */
  function TouchEnded(c: State, pianoPt: Point, menuPt: Point): (r: State)
    ensures r.keys == KeyUp(c.keys, pianoPt)
    ensures r.playTint == ReleaseTintAsWritten(c.currentSong, c.playTint, menuPt)
    ensures r.(keys := c.keys, playTint := c.playTint) == c
  {
    c.(keys := KeyUp(c.keys, pianoPt), playTint := ReleaseTintAsWritten(c.currentSong, c.playTint, menuPt))
  }

  // ---------------------------------------------------------------------------
  // Closures on the main queue

  /** `currentSong.play()`, with its outcome written back to the controller. */
  function PlayCurrent(c: State): (r: State)
    requires Stage(c.keys, c.sortedKeys) && c.currentSong.Some? && Playable(c.currentSong.value)
    ensures SameKeys(c.keys, r.keys)
    ensures r.currentSong.None? <==> c.currentSong.value.index == |c.currentSong.value.notes|
    ensures r.currentSong.None? ==> r.keys == c.keys && r.pending == c.pending
    ensures r.currentSong.Some? ==> r.currentSong.value.index == c.currentSong.value.index + 1
    ensures r.currentSong.Some? ==>
      r.currentSong.value == Song(c.currentSong.value.notes, c.currentSong.value.index + 1, true)
    ensures r.currentSong.Some? ==>
      match ParseNote(c.currentSong.value.notes[c.currentSong.value.index])
      case Rest(_) => r.keys == c.keys && r.pending == c.pending + [SongCue(Resume)]
      case Press(id, _) =>
        (&& r.pending == c.pending + [SongCue(Release(id))]
         && forall h :: 0 <= h < |c.keys| ==> r.keys[h].isActive == (c.keys[h].isActive || c.keys[h].id == id))
    ensures r.(keys := c.keys, currentSong := c.currentSong, pending := c.pending) == c
  {
    var b := Play(c.keys, c.sortedKeys, c.currentSong.value);
    c.(keys := b.keys, currentSong := b.song, pending := c.pending + (if b.cue.Some? then [SongCue(b.cue.value)] else []))
  }

  /** Runs the closure at `slot`, removing it from the queue. */
  function Fire(c: State, slot: nat): (r: State)
    requires Inv(c) && slot < |c.pending|
    ensures c.pending[slot] == RetractMenu ==>
      !r.menuShowing && r.pending == RemoveAt(c.pending, slot) + [FinishRetract]
      && r.(menuShowing := c.menuShowing, pending := c.pending) == c
    ensures c.pending[slot] == FinishRetract ==>
      r.selectedRow.None? && r.tableSelection.None? && r.pending == RemoveAt(c.pending, slot)
      && (c.selectedRow.Some? ==> r.playTint == Palette.White)
      && (c.selectedRow.None? ==> r.playTint == c.playTint)
      && r.(tableSelection := c.tableSelection, selectedRow := c.selectedRow, playTint := c.playTint, pending := c.pending) == c
    ensures c.pending[slot].StartSong? || c.pending[slot] == SongCue(Resume) ==>
      && c.currentSong.Some?
      && (r.currentSong.None? <==> c.currentSong.value.index == |c.currentSong.value.notes|)
      && (r.currentSong.Some? ==> r.currentSong.value.index == c.currentSong.value.index + 1)
      && r == PlayCurrent(c.(pending := RemoveAt(c.pending, slot)))
    ensures c.pending[slot].SongCue? && c.pending[slot].cue.Release? ==>
      && |r.keys| == |c.keys|
      && (forall h :: 0 <= h < |c.keys| ==> r.keys[h].isActive == (c.keys[h].isActive && c.keys[h].id != c.pending[slot].cue.id))
      && r.pending == RemoveAt(c.pending, slot) + [SongCue(Resume)]
      && r.(keys := c.keys, pending := c.pending) == c
  {
    var rest := c.(pending := RemoveAt(c.pending, slot));
    assert CueValid(c.pending[slot]) by { assert c.pending[slot] in c.pending; }
    match c.pending[slot]
    case RetractMenu => Retract(rest)
    case FinishRetract => DeselectSong(rest)
    case StartSong => PlayCurrent(rest)
    case SongCue(Resume) => PlayCurrent(rest)
    case SongCue(Release(id)) =>
      rest.(keys := ReleaseKey(rest.keys, rest.sortedKeys, id), pending := rest.pending + [SongCue(Resume)])
  }

  // ---------------------------------------------------------------------------
  // Events

  datatype Event =
    | Began(pianoPt: Point, menuPt: Point)
    | Moved(pianoPt: Point)
    | Ended(pianoPt: Point, menuPt: Point)
    | Select(row: nat)
    | Timeout(slot: nat)

  /** One callback. A row or closure that does not exist is never delivered; such an event changes nothing. */
  function Step(c: State, e: Event): State
    requires Inv(c)
  {
    match e
    case Began(pianoPt, menuPt) => TouchBegan(c, pianoPt, menuPt)
    case Moved(pianoPt) => TouchMoved(c, pianoPt)
    case Ended(pianoPt, menuPt) => TouchEnded(c, pianoPt, menuPt)
    case Select(row) => if row < |c.songs| then SelectRow(c, row) else c
    case Timeout(slot) => if slot < |c.pending| then Fire(c, slot) else c
  }

  /** Runs the callbacks `events` in order from `c`. */
  function Run(c: State, events: seq<Event>): (r: State)
    requires Inv(c)
    ensures Inv(r)
    decreases |events|
  {
    if events == [] then c
    else
      StepPreservesInv(c, events[0]);
      Run(Step(c, events[0]), events[1..])
  }

  /**
   * Whatever the user does and in whatever order the queued closures fire,
   * a loaded playground never has more than one song under way.
   */
  lemma NeverTwoSongs(c: State, events: seq<Event>)
    requires Inv(c)
    ensures SongTimers(Run(c, events).pending) <= 1
    ensures Run(c, events).currentSong.None? ==> forall t :: t in Run(c, events).pending ==> !IsSongTimer(t)
  {
    OneSongAtATime(Run(c, events));
  }

  // ---------------------------------------------------------------------------
  // The invariant is preserved

  lemma LayoutSameKeys(a: seq<Key>, b: seq<Key>)
    requires OnLayout(a) && OnLayout(b)
    ensures SameKeys(a, b)
  {
    forall h | 0 <= h < |a| ensures b[h].(isActive := a[h].isActive) == a[h] {
      assert a[h].(isActive := false) == KeyAt(h) == b[h].(isActive := false);
    }
  }

  lemma SameKeysLayout(a: seq<Key>, b: seq<Key>)
    requires OnLayout(a) && SameKeys(a, b)
    ensures OnLayout(b)
  {
    forall h | 0 <= h < KeyCount ensures b[h].(isActive := false) == KeyAt(h) {
      assert b[h].(isActive := a[h].isActive) == a[h];
      assert a[h].(isActive := false) == KeyAt(h);
    }
  }

  /** New keys that keep the layout keep `sortedKeys` valid. */
  lemma KeysStayStaged(c: State, keys: seq<Key>)
    requires Inv(c) && OnLayout(keys)
    ensures Inv(c.(keys := keys))
  {
    LayoutSameKeys(c.keys, keys);
    StageKeepsIds(c.keys, keys, c.sortedKeys);
  }

  lemma AppendKeepsCues(pending: seq<Timer>, extra: seq<Timer>)
    requires forall t :: t in pending ==> CueValid(t)
    requires forall t :: t in extra ==> CueValid(t)
    ensures forall t :: t in pending + extra ==> CueValid(t)
  {
  }

  lemma MenuTapPreservesInv(c: State, p: Point)
    requires Inv(c)
    ensures Inv(MenuTap(c, p))
  {
    SongTimersAppend(c.pending, [FinishRetract]);
    AppendKeepsCues(c.pending, [FinishRetract]);
  }

  lemma PlayButtonTapPreservesInv(c: State, p: Point)
    requires Inv(c)
    ensures Inv(PlayButtonTap(c, p))
  {
    var r := PlayButtonTap(c, p);
    if r.currentSong != c.currentSong {
      SongTimersAppend(c.pending, [StartSong, RetractMenu]);
      AppendKeepsCues(c.pending, [StartSong, RetractMenu]);
      var file := c.selectedSong.value + SongExtension;
      assert file in c.bundle && c.bundle[file].Some?;
      assert r.currentSong == Some(NewSong(c.bundle[file].value));
    }
  }

  lemma TouchBeganPreservesInv(c: State, pianoPt: Point, menuPt: Point)
    requires Inv(c)
    ensures Inv(TouchBegan(c, pianoPt, menuPt))
  {
    var c1 := c.(keys := KeyDown(c.keys, pianoPt));
    KeysStayStaged(c, c1.keys);
    MenuTapPreservesInv(c1, menuPt);
    PlayButtonTapPreservesInv(MenuTap(c1, menuPt), InSubview(menuPt, Point(Content.x, Content.y)));
  }

  lemma SelectRowPreservesInv(c: State, row: nat)
    requires Inv(c) && row < |c.songs|
    ensures Inv(SelectRow(c, row))
  {
  }

  /** A pending song closure means a current song. */
  lemma SongTimerMeansSong(c: State, slot: nat)
    requires Inv(c) && slot < |c.pending| && IsSongTimer(c.pending[slot])
    ensures c.currentSong.Some?
    ensures SongTimers(RemoveAt(c.pending, slot)) == 0
  {
    var rest := RemoveAt(c.pending, slot);
    assert SongTimers(c.pending) == SongTimers(rest) + 1;
  }

  lemma PlayCurrentPreservesInv(c: State)
    requires c.currentSong.Some? && Playable(c.currentSong.value)
    requires Inv(c.(currentSong := None))
    ensures Inv(PlayCurrent(c))
  {
    var b := Play(c.keys, c.sortedKeys, c.currentSong.value);
    SameKeysLayout(c.keys, b.keys);
    var extra := if b.cue.Some? then [SongCue(b.cue.value)] else [];
    SongTimersAppend(c.pending, extra);
    var song := c.currentSong.value;
    if song.index < |song.notes| {
      assert b.cue.Some? && b.song.Some?;
      assert CueValid(SongCue(b.cue.value));
    }
    AppendKeepsCues(c.pending, extra);
  }

  lemma FirePreservesInv(c: State, slot: nat)
    requires Inv(c) && slot < |c.pending|
    ensures Inv(Fire(c, slot))
  {
    var rest := c.(pending := RemoveAt(c.pending, slot));
    assert CueValid(c.pending[slot]) by { assert c.pending[slot] in c.pending; }
    match c.pending[slot]
    case RetractMenu =>
      SongTimersAppend(rest.pending, [FinishRetract]);
    case FinishRetract =>
    case StartSong =>
      SongTimerMeansSong(c, slot);
      PlayCurrentPreservesInv(rest);
    case SongCue(Resume) =>
      SongTimerMeansSong(c, slot);
      PlayCurrentPreservesInv(rest);
    case SongCue(Release(id)) =>
      SongTimerMeansSong(c, slot);
      var keys := ReleaseKey(rest.keys, rest.sortedKeys, id);
      SameKeysLayout(rest.keys, keys);
      SongTimersAppend(rest.pending, [SongCue(Resume)]);
      AppendKeepsCues(rest.pending, [SongCue(Resume)]);
  }

  /** Every callback keeps the invariant. */
  lemma StepPreservesInv(c: State, e: Event)
    requires Inv(c)
    ensures Inv(Step(c, e))
  {
    match e
    case Began(pianoPt, menuPt) => TouchBeganPreservesInv(c, pianoPt, menuPt);
    case Moved(pianoPt) => KeysStayStaged(c, KeySlide(c.keys, pianoPt));
    case Ended(pianoPt, menuPt) =>
      KeysStayStaged(c, KeyUp(c.keys, pianoPt));
    case Select(row) =>
      if row < |c.songs| { SelectRowPreservesInv(c, row); }
    case Timeout(slot) =>
      if slot < |c.pending| { FirePreservesInv(c, slot); }
  }
}
