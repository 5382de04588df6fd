/**
 * `Song`: a song file's lines and a cursor, and `play()`, which consumes
 * one `id:length` line per call. Id 0 is a rest; any other id presses the
 * key with that id, found as `sortedKeys[id - 1]`. The delays between
 * calls are dropped: what `play()` leaves on the main queue is returned as
 * a `Cue`.
 */
module Sequencer {
  import opened Optional
  import opened Text
  import opened Layout
  import opened KeyState
  import opened KeyOrder

  datatype Song = Song(notes: seq<string>, index: nat, isPlaying: bool)

  /** `Song(song:)`: the newline-separated lines of the trimmed file text. */
  function NewSong(text: string): (s: Song)
    ensures s.index == 0 && !s.isPlaying
    ensures |s.notes| == Count(Trim(text), IsNewline) + 1
    ensures forall i :: 0 <= i < |s.notes| ==> Free(s.notes[i], IsNewline)
    ensures Join(s.notes, '\n') == Normalize(Trim(text), IsNewline, '\n')
  {
    JoinSplit(Trim(text), IsNewline, '\n');
    Song(Split(Trim(text), IsNewline), 0, false)
  }

  predicate IsColon(c: char) {
    c == ':'
  }

  /** One parsed line: a rest, or a press of the key with id `id`. The length token stays text. */
  datatype Note = Rest(length: string) | Press(id: int, length: string)

  /**
   * A line `play()` gets through without trapping: at least two
   * `:`-separated tokens, the first an `Int` that is 0 or a key id.
   */
  predicate WellFormedLine(line: string) {
    var tokens := Split(line, IsColon);
    |tokens| >= 2 && ParseInt(tokens[0]).Some? && 0 <= ParseInt(tokens[0]).value <= KeyCount
  }

  predicate WellFormedSong(notes: seq<string>) {
    forall i :: 0 <= i < |notes| ==> WellFormedLine(notes[i])
  }

  /** A song file `play()` runs to the end without trapping. */
  predicate WellFormedText(text: string) {
    WellFormedSong(NewSong(text).notes)
  }

  /** `tokens = line.components(separatedBy: ":")`, `Int(tokens[0])!`, `tokens[1]`. */
  function ParseNote(line: string): (n: Note)
    requires WellFormedLine(line)
    ensures n.Press? ==> 1 <= n.id <= KeyCount
    ensures ParseInt(Split(line, IsColon)[0]) == Some(if n.Rest? then 0 else n.id)
    ensures n.length == Split(line, IsColon)[1]
  {
    var tokens := Split(line, IsColon);
    var id := ParseInt(tokens[0]).value;
    if id == 0 then Rest(tokens[1]) else Press(id, tokens[1])
  }

  /** How a note is written in a song file. */
  function FormatNote(n: Note): string {
    match n
    case Rest(length) => "0:" + length
    case Press(id, length) => ShowInt(id) + ":" + length
  }

  lemma {:induction false} SplitFreePrefix(a: string, s: string, sep: char -> bool)
    requires Free(a, sep)
    ensures Split(a + s, sep) == [a + Split(s, sep)[0]] + Split(s, sep)[1..]
  {
    if |a| > 0 {
      assert Free(a[1..], sep) by {
        forall k | 0 <= k < |a| - 1 ensures !sep(a[1..][k]) { assert a[1..][k] == a[k + 1]; }
      }
      SplitFreePrefix(a[1..], s, sep);
      assert (a + s)[1..] == a[1..] + s;
      assert !sep(a[0]);
      assert [a[0]] + (a[1..] + Split(s, sep)[0]) == a + Split(s, sep)[0];
    } else {
      var parts := Split(s, sep);
      assert a + s == s && a + parts[0] == parts[0];
      assert [parts[0]] + parts[1..] == parts;
    }
  }

  lemma SplitAtLeadingColon(b: string)
    requires Free(b, IsColon)
    ensures Split(":" + b, IsColon) == [[], b]
  {
    var tail := ":" + b;
    assert tail[0] == ':' && tail[1..] == b;
    SplitWithoutSeparator(b, IsColon);
  }

  /** A colon between two colon-free tokens splits into exactly those tokens. */
  lemma SplitAtColon(a: string, b: string)
    requires Free(a, IsColon) && Free(b, IsColon)
    ensures Split(a + ":" + b, IsColon) == [a, b]
  {
    var tail := ":" + b;
    SplitAtLeadingColon(b);
    SplitFreePrefix(a, tail, IsColon);
    assert a + ":" + b == a + tail;
    assert a + [] == a;
  }

  /** Writing a note and parsing the line back gives the note. */
  lemma ParseFormatRoundTrip(n: Note)
    requires n.Press? ==> 1 <= n.id <= KeyCount
    requires Free(n.length, IsColon)
    ensures WellFormedLine(FormatNote(n)) && ParseNote(FormatNote(n)) == n
  {
    var head := if n.Rest? then "0" else ShowInt(n.id);
    assert head == ShowInt(if n.Rest? then 0 else n.id);
    assert Free(head, IsColon);
    SplitAtColon(head, n.length);
    assert FormatNote(n) == head + ":" + n.length;
    ParseShowRoundTrip(if n.Rest? then 0 else n.id);
  }

  // ---------------------------------------------------------------------------
  // Playback

  /** What `play()` leaves on the main queue: the next `play()`, or the release of a key and then the next `play()`. */
  datatype Cue = Resume | Release(id: int)

  /** The outcome of one `play()`: the keys, the controller's `currentSong`, and what was scheduled. */
  datatype Beat = Beat(keys: seq<Key>, song: Option<Song>, cue: Option<Cue>)

  /** Keys that differ at most in `isActive`. */
  predicate SameKeys(a: seq<Key>, b: seq<Key>) {
    |a| == |b| && forall h :: 0 <= h < |a| ==> b[h].(isActive := a[h].isActive) == a[h]
  }

  /** What `play()` needs of the controller: 24 keys with ids 1..24, `sortedKeys` indexed by id. */
  predicate Stage(keys: seq<Key>, sorted: seq<nat>) {
    |keys| == KeyCount && IdsArePositions(keys) && IndexedById(keys, sorted)
  }

  lemma SameKeysIds(a: seq<Key>, b: seq<Key>)
    requires SameKeys(a, b)
    ensures forall h :: 0 <= h < |a| ==> b[h].id == a[h].id
  {
    forall h | 0 <= h < |a| ensures b[h].id == a[h].id {
      assert b[h].(isActive := a[h].isActive) == a[h];
    }
  }

  /** A song `play()` may be called on: well-formed lines, cursor within them. */
  predicate Playable(s: Song) {
    s.index <= |s.notes| && WellFormedSong(s.notes)
  }

  lemma StageKeepsIds(keys: seq<Key>, keys': seq<Key>, sorted: seq<nat>)
    requires Stage(keys, sorted) && SameKeys(keys, keys')
    ensures Stage(keys', sorted)
  {
    SameKeysIds(keys, keys');
  }

  /**
   * `play()`: past the last line, the song ends and `currentSong` is
   * cleared. Otherwise the cursor advances by one; a rest leaves every key
   * alone and schedules the next `play()`, a press activates the key with
   * that id and schedules its release.
   */
  function Play(keys: seq<Key>, sorted: seq<nat>, song: Song): (b: Beat)
    requires Stage(keys, sorted) && Playable(song)
    ensures SameKeys(keys, b.keys) && Stage(b.keys, sorted)
    ensures b.song.Some? ==> Playable(b.song.value) && b.song.value.notes == song.notes
    ensures song.index == |song.notes| ==> b == Beat(keys, None, None)
    ensures song.index < |song.notes| ==>
      && b.song == Some(Song(song.notes, song.index + 1, true))
      && match ParseNote(song.notes[song.index])
         case Rest(_) => b.keys == keys && b.cue == Some(Resume)
         case Press(id, _) =>
           && b.cue == Some(Release(id))
           && (forall h :: 0 <= h < |keys| && keys[h].id == id ==> b.keys[h].isActive)
           && (forall h :: 0 <= h < |keys| && keys[h].id != id ==> b.keys[h] == keys[h])
  {
    if song.index < |song.notes| then
      var next := Song(song.notes, song.index + 1, true);
      match ParseNote(song.notes[song.index])
      case Rest(_) => Beat(keys, Some(next), Some(Resume))
      case Press(id, _) => Beat(ActivateAt(keys, sorted[id - 1]), Some(next), Some(Release(id)))
    else
      Beat(keys, None, None)
  }

  /** The `Release` cue: the key with id `id` is deactivated, no other key changes. */
  function ReleaseKey(keys: seq<Key>, sorted: seq<nat>, id: int): (r: seq<Key>)
    requires Stage(keys, sorted) && 1 <= id <= KeyCount
    ensures SameKeys(keys, r) && Stage(r, sorted)
    ensures forall h :: 0 <= h < |keys| && keys[h].id == id ==> !r[h].isActive
    ensures forall h :: 0 <= h < |keys| && keys[h].id != id ==> r[h] == keys[h]
  {
    var r := DeactivateAt(keys, sorted[id - 1]);
    StageKeepsIds(keys, r, sorted);
    r
  }

  /** The ids a song presses from line `i` on, in file order; rests press nothing. */
  function PressedIds(notes: seq<string>, i: nat): seq<int>
    requires WellFormedSong(notes) && i <= |notes|
    decreases |notes| - i
  {
    if i == |notes| then []
    else match ParseNote(notes[i])
      case Rest(_) => PressedIds(notes, i + 1)
      case Press(id, _) => [id] + PressedIds(notes, i + 1)
  }

  /**
   * Running the song to its end with every cue fired as soon as it is
   * scheduled and no touch in between: the ids of the keys activated, in
   * order, and the keys as they are left.
   */
  function Replay(keys: seq<Key>, sorted: seq<nat>, song: Song): (r: (seq<int>, seq<Key>))
    requires Stage(keys, sorted) && Playable(song)
    ensures SameKeys(keys, r.1)
    decreases |song.notes| - song.index
  {
    var b := Play(keys, sorted, song);
    match b.cue
    case None => ([], keys)
    case Some(Resume) => Replay(b.keys, sorted, b.song.value)
    case Some(Release(id)) =>
      var released := ReleaseKey(b.keys, sorted, id);
      var rest := Replay(released, sorted, b.song.value);
      ([id] + rest.0, rest.1)
  }

  /** Replay order is file order: the keys pressed are the file's non-rest ids, in sequence. */
  lemma {:induction false} ReplayFollowsFile(keys: seq<Key>, sorted: seq<nat>, song: Song)
    requires Stage(keys, sorted) && Playable(song)
    ensures Replay(keys, sorted, song).0 == PressedIds(song.notes, song.index)
    decreases |song.notes| - song.index
  {
    var b := Play(keys, sorted, song);
    if song.index < |song.notes| {
      match ParseNote(song.notes[song.index])
      case Rest(_) =>
        ReplayFollowsFile(b.keys, sorted, b.song.value);
      case Press(id, _) =>
        ReplayFollowsFile(ReleaseKey(b.keys, sorted, id), sorted, b.song.value);
    }
  }

  /** Every key a song presses is released again: after a replay, the keys it pressed are inactive. */
  lemma {:induction false} ReplayReleasesPressedKeys(keys: seq<Key>, sorted: seq<nat>, song: Song)
    requires Stage(keys, sorted) && Playable(song)
    ensures var r := Replay(keys, sorted, song);
      forall h :: 0 <= h < |keys| && keys[h].id in r.0 ==> !r.1[h].isActive
    decreases |song.notes| - song.index
  {
    var b := Play(keys, sorted, song);
    if song.index < |song.notes| {
      match ParseNote(song.notes[song.index])
      case Rest(_) =>
        ReplayReleasesPressedKeys(b.keys, sorted, b.song.value);
        SameKeysIds(keys, b.keys);
      case Press(id, _) =>
        var released := ReleaseKey(b.keys, sorted, id);
        ReplayReleasesPressedKeys(released, sorted, b.song.value);
        SameKeysIds(keys, b.keys);
        SameKeysIds(b.keys, released);
        ReplayKeepsInactive(released, sorted, b.song.value, id);
    }
  }

  /** A replay leaves a released key released: each press it makes is followed by its release. */
  lemma {:induction false} ReplayKeepsInactive(keys: seq<Key>, sorted: seq<nat>, song: Song, id: int)
    requires Stage(keys, sorted) && Playable(song)
    requires forall h :: 0 <= h < |keys| && keys[h].id == id ==> !keys[h].isActive
    ensures var r := Replay(keys, sorted, song);
      forall h :: 0 <= h < |keys| && keys[h].id == id ==> !r.1[h].isActive
    decreases |song.notes| - song.index
  {
    var b := Play(keys, sorted, song);
    if song.index < |song.notes| {
      SameKeysIds(keys, b.keys);
      match ParseNote(song.notes[song.index])
      case Rest(_) =>
        ReplayKeepsInactive(b.keys, sorted, b.song.value, id);
      case Press(p, _) =>
        var released := ReleaseKey(b.keys, sorted, p);
        SameKeysIds(b.keys, released);
        ReplayKeepsInactive(released, sorted, b.song.value, id);
    }
  }
}
