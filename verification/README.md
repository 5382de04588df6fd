# Pianist: the logic under the playground

Pianist is a Swift playground. It draws a two-octave piano with 24 keys. Touching a key lights it, a white key in a pastel colour and a black key in a dark shade, and plays its sound. A side menu lists the bundled songs. Choosing a song and tapping "Play Song" makes the playground play that song on the keys, one `id:length` line at a time.

This project models the part of that program that is logic rather than drawing:

- the key layout tables, the colour tables, and `sortedKeys` (the keys ordered by id);
- the hit-testing loops of `touchesBegan`, `touchesMoved` and `touchesEnded`;
- `Key.activateKey` and `Key.deactivateKey`, as state changes only;
- `Song.init` (trim the text, split it into lines) and `Song.play` (the cursor and what each line does);
- the song table's will/did-select pair, the menu chevron, `setupSong`'s "one song at a time" gate, and the play button's tint;
- `populateSongs`, which strips the extension and keeps the names sorted.

Each UI callback is a pure function from one controller `State` to the next (module `Controller`). Keys are values. The view objects that `keys` and `sortedKeys` share become one `seq<Key>` in layout order, with `sortedKeys` a sequence of positions into it. Every closure handed to `DispatchQueue.main.asyncAfter` that changes state the model tracks becomes a pending `Timer` in the state. These are the menu's retraction and the song's steps and key releases. The completion of the retract animation, which calls `deselectSong`, is a pending `Timer` too. The note-growth closures of the rising notes only animate and are left out with the drawing. `Controller.Fire` runs any pending timer, in any order. The delays are gone, so every real interleaving is one of the modelled ones.

Modules, one per file:

- `Optional`
- `Geometry`: integer points and half-open rectangles, as `CGRect.contains` treats them.
- `Palette`: the colour literals.
- `Layout`: the key tables.
- `KeyState`: activate and deactivate.
- `KeyOrder`: sorting by id.
- `Touches`: hit-testing.
- `Text`: the parts of `String` the program uses — trimming, splitting, `Int(_:)`.
- `Sequencer`: `Song`.
- `SongList`: `populateSongs`.
- `Menu`: the menu's fixed frames and the play button's tint on release.
- `Controller`: the view controller and the menu's state.

## Model

All source paths are in `Pianist.playground/Contents.swift`.

| member | source | states |
|---|---|---|
| Palette.RowColour | Pianist.playground/Contents.swift:142-143 | A table row's colour `row % 7` always lies in the 7-entry pastel table, so the lookup never traps. Rows 0-6 get their own entry. |
| Layout.BlackKey | Pianist.playground/Contents.swift:313-321 | Black key `index` is black and inactive. Its colour index `index % 5` lies within the 5 dark shades used at line 280. |
| Layout.WhiteKey | Pianist.playground/Contents.swift:335-342 | White key `index` is white and inactive. Its colour index `index % 7` lies within the 7 pastels used at line 280. |
| Layout.KeyAt | Pianist.playground/Contents.swift:42-53 | Position `h` of `keys` holds a black key exactly when `h < 10`. |
| Layout.Keyboard | Pianist.playground/Contents.swift:42-53 | The keyboard has 24 keys, each the layout key for its position. |
| Layout.LoadKeys | Pianist.playground/Contents.swift:42-53 | The two loops build exactly the layout: black keys 0-9 first, then white keys 0-13. |
| Layout.BlackEntry | Pianist.playground/Contents.swift:313-314 | Each black key's offset names two adjacent white keys, and its id lies strictly between theirs. Offsets increase. The id maps back to the key's position. |
| Layout.WhiteEntry | Pianist.playground/Contents.swift:335 | Each white id is in 1..24 and maps back to the key's position. |
| Layout.HandleEntry | Pianist.playground/Contents.swift:313-335 | Every id 1..24 belongs to some key of the layout. |
| Layout.IdsAreOneToTwentyFour | Pianist.playground/Contents.swift:313-335 | The 24 ids are in 1..24 and pairwise distinct, every id in 1..24 is taken, and black and white ids are disjoint. |
| Layout.IncreasingSpread | Pianist.playground/Contents.swift:314 | In a strictly increasing integer table, entries `j - i` apart differ by at least `j - i`. |
| Layout.BlackOffsetsIncrease | Pianist.playground/Contents.swift:314 | Black-key offsets are strictly increasing, hence distinct. |
| Layout.FramesOfLayout | Pianist.playground/Contents.swift:320-341 | Every key frame is non-empty and lies inside the 368x100 piano. White frames are pairwise disjoint, and so are black frames. |
| Layout.BlackKeysStraddle | Pianist.playground/Contents.swift:313-341 | Black key `i` overlaps white keys `offset` and `offset+1` and no other white key. Its id lies strictly between theirs. |
| KeyState.Background | Pianist.playground/Contents.swift:277-303 | An active key shows a shade (black) or a pastel (white). An inactive key shows plain black or white. |
| KeyState.LayoutIsWellColoured | Pianist.playground/Contents.swift:318-339 | Every key of the layout has a colour index its palette can serve. |
| KeyState.Activate | Pianist.playground/Contents.swift:277-281 | The key ends active. An already-active key is unchanged. Nothing but `isActive` changes. |
| KeyState.Deactivate | Pianist.playground/Contents.swift:298-303 | The key ends inactive. An inactive key is unchanged. Nothing but `isActive` changes. |
| KeyState.ActivationRoundTrip | Pianist.playground/Contents.swift:277-303 | Activating or deactivating twice equals doing it once. Each undoes the other on a key in the opposite state. |
| KeyState.ActivateAt | Pianist.playground/Contents.swift:459 | Activating one key leaves every other key unchanged and keeps the layout. |
| KeyState.DeactivateAt | Pianist.playground/Contents.swift:461 | Deactivating one key leaves every other key unchanged and keeps the layout. |
| KeyOrder.Insert | Pianist.playground/Contents.swift:66 | Inserting a position gives a list one longer whose positions are the old ones plus the new one. |
| KeyOrder.InsertCounts | Pianist.playground/Contents.swift:66 | Insertion adds exactly one occurrence of the new position and keeps every other occurrence: the multiset grows by that position. |
| KeyOrder.InsertKeepsDistinct | Pianist.playground/Contents.swift:66 | Inserting a position that is not yet present keeps the positions distinct. |
| KeyOrder.InsertKeepsSorted | Pianist.playground/Contents.swift:66 | Inserting into a list sorted by id keeps it sorted by id. |
| KeyOrder.SortById | Pianist.playground/Contents.swift:66 | The result has the input's length and holds the same positions as the input. |
| KeyOrder.SortByIdPermutes | Pianist.playground/Contents.swift:66 | Sorting is a permutation: the result has the same multiset of positions as the input. |
| KeyOrder.SortByIdSorts | Pianist.playground/Contents.swift:66 | The result is sorted by id, and distinct positions stay distinct. |
| KeyOrder.SortedKeys | Pianist.playground/Contents.swift:66 | `keys.sorted(by: id)` gives one valid position per key. |
| KeyOrder.PackedSortedIsIdentity | Pianist.playground/Contents.swift:66 | A strictly increasing list of `n` values drawn from 1..n is exactly 1, 2, ..., n. |
| KeyOrder.SortedKeysAreIndexedById | Pianist.playground/Contents.swift:66 | If the ids are a permutation of 1..n, then after sorting, `sortedKeys[n-1]` is the key with id `n`. |
| KeyOrder.LayoutSortedKeys | Pianist.playground/Contents.swift:459 | For the 24-key layout, `sortedKeys[n-1]` has id `n` for every n in 1..24. So the index at line 459 is in range and picks the right key. |
| Touches.FirstHit | Pianist.playground/Contents.swift:114-118 | The result is the first key in `keys` order whose frame contains the point. It is None exactly when no frame contains the point. |
| Touches.ScanForKey | Pianist.playground/Contents.swift:114-118 | The loop with `break` finds the same key as `FirstHit`. |
| Touches.KeyDown | Pianist.playground/Contents.swift:113-119 | The first key under the point becomes active and no other key changes. A point outside every frame changes nothing. |
| Touches.KeyUp | Pianist.playground/Contents.swift:182-190 | The first key under the point becomes inactive and no other key changes. A point outside every frame changes nothing. |
| Touches.FirstActiveExcept | Pianist.playground/Contents.swift:171-176 | The result is the first active key that is not the key just touched, or None if there is none. |
| Touches.KeySlide | Pianist.playground/Contents.swift:158-177 | Only `isActive` changes. The key under the point ends active and is the only key that can become active. At most one key is turned off, and never the key under the point. The first active key other than the one under the point is turned off. |
| Touches.FrameOnLayout | Pianist.playground/Contents.swift:320-341 | A key that kept its layout has its layout frame. |
| Touches.BlackKeysExclusive | Pianist.playground/Contents.swift:313-320 | No point lies on two black keys. |
| Touches.WhiteKeysExclusive | Pianist.playground/Contents.swift:335-341 | No point lies on two white keys. |
| Touches.HitOnLayout | Pianist.playground/Contents.swift:114-118 | On the layout, a touch hits key `h` exactly when h's frame contains the point and, if `h` is white, no black key's frame does. A black key wins where they overlap. |
| Text.LeadingBlanks | Pianist.playground/Contents.swift:432 | The result is the length of the longest blank prefix. |
| Text.TrailingBlanks | Pianist.playground/Contents.swift:432 | The result is the length of the longest blank suffix. |
| Text.Trim | Pianist.playground/Contents.swift:432 | `trimmingCharacters(in: .whitespacesAndNewlines)`: the result is the input less blank padding on both sides, and it starts and ends with a non-blank character. |
| Text.TrimKeepsCore | Pianist.playground/Contents.swift:432 | Trimming `a + m + b`, where `a` and `b` are blank and `m` is unpadded, gives exactly `m`. |
| Text.TrimIdempotent | Pianist.playground/Contents.swift:432 | Trimming twice equals trimming once. |
| Text.Split | Pianist.playground/Contents.swift:433 | `components(separatedBy:)`: one more part than separators, and no part contains a separator. |
| Text.JoinSplit | Pianist.playground/Contents.swift:433 | Joining the parts with one separator character gives back the text with each separator replaced by that character. |
| Text.SplitWithoutSeparator | Pianist.playground/Contents.swift:448 | A text with no separator splits into itself alone. |
| Text.ParseInt | Pianist.playground/Contents.swift:449 | `Int(_:)`: a parsed value fits in 64 bits, and only a text starting with a digit or a sign parses at all (so the empty token gives nil). |
| Text.OnlyNumeralsParse | Pianist.playground/Contents.swift:449 | Only a whole numeral parses: after an optional sign, the text is one or more digits and nothing else. |
| Text.ShowNat | Pianist.playground/Contents.swift:444 | A key id written in decimal is a non-empty string of digits. |
| Text.DigitsOfShowNat | Pianist.playground/Contents.swift:449 | The digits of a written natural number read back as that number. |
| Text.ParseUnsigned | Pianist.playground/Contents.swift:449 | A digit string within range parses to its decimal value. |
| Text.ParseNegative | Pianist.playground/Contents.swift:449 | `-` followed by a digit string within range parses to the negated value. |
| Text.ParsePositive | Pianist.playground/Contents.swift:449 | `+` followed by a digit string within range parses to its value. |
| Text.ParseOutOfRange | Pianist.playground/Contents.swift:449 | A numeral too large for 64 bits gives nil, unsigned or with `+`, and with `-` when its negation is below the 64-bit minimum. |
| Text.ParseShowRoundTrip | Pianist.playground/Contents.swift:449 | Every 64-bit integer written in decimal parses back to itself. |
| Sequencer.NewSong | Pianist.playground/Contents.swift:431-434 | A new song starts at index 0, not playing. Its lines are the newline-separated pieces of the trimmed text: one more than the newlines, none containing a newline, and joined they give back the trimmed text. |
| Sequencer.ParseNote | Pianist.playground/Contents.swift:448-453 | The first `:` token of a well-formed line is 0 (a rest) or a key id in 1..24. The note is what `Int` reads from that token, 0 giving a rest, so `00:1` rests and `05:1` presses key 5. Its length is the second token. |
| Sequencer.SplitAtColon | Pianist.playground/Contents.swift:448 | `a:b`, with neither side containing a colon, splits into exactly `[a, b]`. |
| Sequencer.ParseFormatRoundTrip | Pianist.playground/Contents.swift:444-453 | Writing a note as `id:length` and parsing the line back gives the note. |
| Sequencer.Play | Pianist.playground/Contents.swift:436-472 | Past the last line, the song ends: `currentSong` becomes nil and nothing is scheduled. Otherwise the index advances by exactly one and `isPlaying` is set. A rest touches no key and schedules the next step. Id `n` activates the key with id `n`, leaves the others unchanged, and schedules its release. The index never passes the line count. |
| Sequencer.ReleaseKey | Pianist.playground/Contents.swift:460-461 | The release closure deactivates the key with that id and leaves the others unchanged. |
| Sequencer.Replay | Pianist.playground/Contents.swift:436-472 | Running a song to its end only ever changes `isActive`. |
| Sequencer.ReplayFollowsFile | Pianist.playground/Contents.swift:447-467 | The keys a song presses are its file's non-zero ids, in file order. |
| Sequencer.ReplayReleasesPressedKeys | Pianist.playground/Contents.swift:459-461 | After the song, every key it pressed is inactive again. |
| Sequencer.ReplayKeepsInactive | Pianist.playground/Contents.swift:459-461 | A song leaves an inactive key inactive: each press is followed by its release. |
| SongList.LexLeTotal | Pianist.playground/Contents.swift:83 | The string order used by `sort()` is total. |
| SongList.LexLeTransitive | Pianist.playground/Contents.swift:83 | The string order is transitive. |
| SongList.LexLeAntisymmetric | Pianist.playground/Contents.swift:83 | The string order is antisymmetric. |
| SongList.StripExtension | Pianist.playground/Contents.swift:80-81 | Dropping the last four characters leaves a prefix four characters shorter. |
| SongList.StripExtensionRoundTrip | Pianist.playground/Contents.swift:80-81 | Stripping `name + ".txt"` (any four-character extension) gives back `name`. |
| SongList.Insert | Pianist.playground/Contents.swift:82-83 | Appending a name and sorting keeps the list sorted and adds exactly that name. |
| SongList.PopulateSongs | Pianist.playground/Contents.swift:75-85 | The song list is sorted and holds exactly the resource file names without their extension, with multiplicity. |
| Geometry.InSubview | Pianist.playground/Contents.swift:137 | The converted point plus the subview's origin is the original point. |
| Geometry.InSubviewContains | Pianist.playground/Contents.swift:137-138 | A rectangle of the subview holds the converted point exactly when the same rectangle, moved by the subview's origin, holds the original point. |
| Geometry.DisjointIffNoCommonPoint | Pianist.playground/Contents.swift:115 | Two non-empty frames are disjoint exactly when no point lies in both. |
| Controller.RemoveAt | Pianist.playground/Contents.swift:455-466 | Running a queued closure removes exactly one occurrence of it from the queue: the multiset of closures loses that closure and nothing else. The song-closure count drops by one exactly when it was a song closure. |
| Controller.SongTimersAppend | Pianist.playground/Contents.swift:673-675 | Song closures in two queues add up. |
| Controller.OneSongAtATime | Pianist.playground/Contents.swift:659-663 | Under the invariant there is at most one pending song closure, and none while no song is current. |
| Controller.SongsAreInBundle | Pianist.playground/Contents.swift:76-82 | Every listed song name, with `.txt` put back, is a file of the bundle. |
| Controller.FreshStateInv | Pianist.playground/Contents.swift:35-73 | The state `loadView` leaves satisfies the invariant. |
| Controller.LoadView | Pianist.playground/Contents.swift:35-73 | Loading builds the layout keys, sorted keys, and the sorted song list from the bundle's `.txt` names. The given bundle is kept as is and `sortedKeys` is the keys sorted by id. No song, no row or song selected, menu hidden, the button white, nothing queued, and the invariant holds. |
| Controller.Retract | Pianist.playground/Contents.swift:640-649 | The menu hides and `deselectSong` is queued for when the animation completes. Nothing else changes. |
| Controller.Reveal | Pianist.playground/Contents.swift:622-623 | The menu shows. Nothing else changes. |
| Controller.MenuTap | Pianist.playground/Contents.swift:121-134 | A touch on the chevron toggles the menu. A touch elsewhere hides an open menu exactly when it lies outside the content panel. When the menu's state does not change, nothing changes. `deselectSong` is queued exactly when the menu goes from shown to hidden. |
| Controller.DeselectSong | Pianist.playground/Contents.swift:651-657 | The selected row is cleared, and so is the table's selection of it, and the button whitens. `selectedSong` is kept, and nothing but the selection and the tint changes. A table selection of some other row is left alone. Without a selected row, nothing changes. |
| Controller.WillSelect | Pianist.playground/Contents.swift:208-217 | Choosing the already-selected row deselects it, clears `selectedRow` and `selectedSong`, and returns nil. Any other row is returned unchanged with the state untouched. |
| Controller.DidSelect | Pianist.playground/Contents.swift:219-222 | The row and `songs[row]` are recorded, and nothing else changes. |
| Controller.SelectRow | Pianist.playground/Contents.swift:208-222 | A tap on the selected row leaves nothing selected. A tap on any other row selects it and its song. Nothing else changes. |
| Controller.SelectTwiceDeselects | Pianist.playground/Contents.swift:208-222 | Tapping an unselected row twice leaves no row and no song selected. |
| Controller.SetupSong | Pianist.playground/Contents.swift:659-686 | It succeeds exactly when no song is current and the selected song's file is present and readable. Then that file's song becomes current and its first `play()` is queued. On failure, including whenever a song is current, the state is unchanged. |
| Controller.PlayButtonTap | Pianist.playground/Contents.swift:136-154 | Off the button, nothing changes. With no row selected, the button greys and nothing else changes. With a row selected, it takes the row's colour. A current song is never replaced. With a row selected, no current song, and the song's file present and readable, that file's song becomes current with its start and a menu retraction queued. When no song starts, the queue is unchanged. A song becomes current only on the button, with a row selected and the file present and readable, so a missing or unreadable file starts nothing. |
| Controller.TouchBegan | Pianist.playground/Contents.swift:109-156 | The piano part of a touch is `KeyDown` at the piano point. |
| Controller.TouchMoved | Pianist.playground/Contents.swift:158-178 | A move changes the keys by `KeySlide` and nothing else. |
| Menu.ReleaseTintAsWritten | Pianist.playground/Contents.swift:193-196 | As written, the button keeps a non-white tint exactly when a song is loading and the menu point, taken in the menu's coordinates, lies in the button's frame. Otherwise it whitens. |
| Menu.ReleaseTint | Pianist.playground/Contents.swift:193-196 | With the point converted as `touchesBegan` converts it, the button keeps its tint or whitens, and it whitens whenever no song is loading. |
| Menu.ReleaseAgreesWithPress | Pianist.playground/Contents.swift:136-138 | With the conversion, the tint survives a release exactly when a song is loading and the finger is on the button as `touchesBegan` sees it. |
| Menu.ReleaseOnButtonWhitens | Pianist.playground/Contents.swift:193-196 | As written, a loading song's tinted button whitens when the finger lifts at menu point (114,210), although that point is on the button. |
| Menu.ReleaseOffButtonKeepsTint | Pianist.playground/Contents.swift:193-196 | As written, the button keeps its tint when the finger lifts at menu point (30,210), although that point is off the button. |
| Controller.TouchEnded | Pianist.playground/Contents.swift:180-198 | A release deactivates the key under the piano point and settles the tint by line 194's test as written, in the menu's coordinates. Nothing else changes. |
| Controller.PlayCurrent | Pianist.playground/Contents.swift:436-472 | A step of the current song changes only keys' `isActive`, `currentSong` and the queue. `currentSong` becomes nil exactly when the cursor was past the last line, and then keys and queue are untouched. Otherwise the song keeps its notes, its cursor advances by one and it is marked as playing. A rest queues the next step and touches no key. A press activates exactly the key with that id and queues its release. |
| Controller.Fire | Pianist.playground/Contents.swift:148-150 | Firing a queued closure removes it from the queue. The menu retraction hides the menu and queues `deselectSong`. `deselectSong` clears the selected row and the table selection, and whitens the button if a row was selected; with no row selected it leaves the tint alone. A song start or resume is exactly one `play()` step of the current song on the queue without that closure. A key release deactivates exactly the key with that id and queues the next step. |
| Controller.Run | Pianist.playground/Contents.swift:109-222 | Every sequence of touches, table taps and closure firings from a state satisfying the invariant keeps the invariant. |
| Controller.NeverTwoSongs | Pianist.playground/Contents.swift:145-146 | Whatever happens, at most one song's closures are ever pending, and none once `currentSong` is nil. |
| Controller.LayoutSameKeys | Pianist.playground/Contents.swift:42-53 | Two key lists on the layout differ at most in `isActive`. |
| Controller.SameKeysLayout | Pianist.playground/Contents.swift:42-53 | Changing only `isActive` keeps the layout. |
| Controller.MenuTapPreservesInv | Pianist.playground/Contents.swift:121-134 | The menu part of a touch keeps the invariant. |
| Controller.PlayButtonTapPreservesInv | Pianist.playground/Contents.swift:136-154 | The play-button part of a touch keeps the invariant, and in particular the one-song gate. |
| Controller.TouchBeganPreservesInv | Pianist.playground/Contents.swift:109-156 | `touchesBegan` keeps the invariant. |
| Controller.SelectRowPreservesInv | Pianist.playground/Contents.swift:208-222 | Table taps keep the invariant. |
| Controller.PlayCurrentPreservesInv | Pianist.playground/Contents.swift:436-472 | A step of the current song keeps the invariant. When the song ends, its last closure goes with it. |
| Controller.FirePreservesInv | Pianist.playground/Contents.swift:455-466 | Any queued closure, fired in any order, keeps the invariant. |
| Controller.StepPreservesInv | Pianist.playground/Contents.swift:109-222 | Every callback keeps the invariant. |

## Left out

- Drawing and animation are not modelled. This covers view construction, layers, springs, the notes that rise and grow while a key is held, the welcome and arrow images, and the song title. None of it decides state the model tracks. `Reveal` leaves out its completion, which only removes the arrow image.
- Sound playback is not modelled. The `Bundle` lookup and reading of files are parameters: the resource file names are given to `PopulateSongs`, and the `.txt` texts are a map in which `None` stands for a file that exists but cannot be read.
- The times passed to `asyncAfter` and the `Double` arithmetic on a note's length are not modelled. Pending closures fire in any order. A note's length token is kept as text and never parsed, so a bad length token is not excluded.
- The force-unwraps at Contents.swift:449-450 and at `sortedKeys[id-1]` are not modelled as crashes. Every readable song file is required to be well formed (`Sequencer.WellFormedText`): each line has a colon and an id token that parses to 0..24. So the id unwrap at line 449 and the `sortedKeys[id-1]` lookup never trap in the model. A line whose id is outside 0..24 is excluded by that requirement rather than modelled as a crash. The length token is not checked, so a file such as `3:x`, on which line 450's unwrap would trap, is admitted and plays as if its length were valid.
- Touch coordinates are integers rather than `CGFloat`. All frames are integral constants. `touch.location(in:)` is given as separate piano and menu points. The menu's own position, which moves by 130 points as it shows and hides, is folded into the menu point.
- `SongList.LexLe` orders strings by comparing characters as code points. Swift's `String` comparison uses Unicode canonical ordering, which agrees on the ASCII names of song files.
- Controller.SetupSong: requires a selected song, as Contents.swift:660 always has one when it is reached from line 146. The nil lookup is not modelled.
- The table's own bookkeeping in `UITableView` is reduced to `tableSelection`, the row that `indexPathForSelectedRow` reports.
- `numberOfRowsInSection` and `cellForRowAt` are not modelled. They only display `songs` and the row colour, and `Palette.RowColour` covers the colour index.
- Touch points are converted once per callback, before the menu moves. `touchesBegan` reads the point in the content panel after `reveal()` or `retract()` at Contents.swift:125-132 has already shifted the menu's frame by 130 points. The model converts the menu point from before the shift. No touch inside the 368-point live view tells the two apart. A chevron tap (menu y 0-60) can never be on the button (y 202-227). A tap outside the showing panel lands on the shifted button only at menu x 179-258, which is window x 393 or more while the menu sits at window x 214.
- Controller.TouchBegan: its contract states only the key part. The menu and button parts are stated by `Controller.MenuTap` and `Controller.PlayButtonTap`, which it composes.

## Findings

| source | as written | input that shows it | evidently intended | confidence | as-written member | corrected member |
|---|---|---|---|---|---|---|
| Pianist.playground/Contents.swift:193-196 | `touchesEnded` tests `menu.playSong.frame` against the point in the menu's coordinates. The button's frame is in the content panel's coordinates, which start 24 points right of the menu's. | A release at menu point (114,210) is on the button by the test `touchesBegan` uses, yet whitens it. A release at (30,210) is off the button, yet keeps the tint. | Test the point in the content panel's coordinates, as `touchesBegan` does at line 137. `Controller.TouchEnded` keeps the test as written; the corrected test is stated next to it. | not executed | Menu.ReleaseTintAsWritten, Menu.ReleaseOnButtonWhitens, Menu.ReleaseOffButtonKeepsTint | Menu.ReleaseTint, Menu.ReleaseAgreesWithPress |
