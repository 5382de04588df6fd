/**
 * The menu's fixed geometry and the play button's tint when a finger is
 * lifted. `touchesBegan` tests the button against the touch in the content
 * panel's coordinates; `touchesEnded` tests it against the touch in the
 * menu's coordinates. Both versions of the release are here, with the
 * points that tell them apart.
 */
module Menu {
  import opened Optional
  import opened Geometry
  import opened Sequencer
  import Palette

  /** The chevron and the content panel, in the menu's coordinates. */
  const Chevron := Rect(0, 0, 30, 60)
  const Content := Rect(24, 0, 150, 238)
  /** The "Play Song" button, in the content panel's coordinates. */
  const PlayButton := Rect(25, 202, 80, 25)

  /** A song is loaded but its first `play()` has not run yet. */
  predicate Loading(song: Option<Song>) {
    song.Some? && !song.value.isPlaying
  }

  /**
   * The play-button part of `touchesEnded` as written: the button whitens
   * unless a song is loading and the point is on the button, but the point
   * tested is in the MENU's coordinates while the button's frame is in the
   * content panel's.
   */
  function ReleaseTintAsWritten(song: Option<Song>, tint: Palette.Rgba, menuPt: Point): (r: Palette.Rgba)
    ensures r == tint || r == Palette.White
    ensures !Loading(song) ==> r == Palette.White
    ensures tint != Palette.White ==> (r == tint <==> Loading(song) && Contains(PlayButton, menuPt))
  {
    if song.None? || song.value.isPlaying || !Contains(PlayButton, menuPt) then Palette.White else tint
  }

  /** The same test with the point converted to the content panel's coordinates, as `touchesBegan` does. */
  function ReleaseTint(song: Option<Song>, tint: Palette.Rgba, menuPt: Point): (r: Palette.Rgba)
    ensures r == tint || r == Palette.White
    ensures !Loading(song) ==> r == Palette.White
  {
    if song.None? || song.value.isPlaying || !Contains(PlayButton, InSubview(menuPt, Point(Content.x, Content.y))) then Palette.White
    else tint
  }

  /** The play button is under `menuPt`, by the test `touchesBegan` uses. */
  predicate OnPlayButton(menuPt: Point) {
    Contains(PlayButton, InSubview(menuPt, Point(Content.x, Content.y)))
  }

  /**
   * With the test fixed, lifting a finger keeps the button's tint exactly
   * when a song is loading and the finger is on the button as
   * `touchesBegan` sees it.
   */
  lemma ReleaseAgreesWithPress(song: Option<Song>, tint: Palette.Rgba, menuPt: Point)
    requires tint != Palette.White
    ensures ReleaseTint(song, tint, menuPt) == tint <==> Loading(song) && OnPlayButton(menuPt)
  {
  }

  /** As written, a finger lifted on the right part of the button whitens it. */
  lemma ReleaseOnButtonWhitens()
    ensures OnPlayButton(Point(114, 210))
    ensures ReleaseTintAsWritten(Some(Song([], 0, false)), Palette.LightGray, Point(114, 210)) == Palette.White
  {
  }

  /** As written, a finger lifted just left of the button keeps its tint. */
  lemma ReleaseOffButtonKeepsTint()
    ensures !OnPlayButton(Point(30, 210))
    ensures ReleaseTintAsWritten(Some(Song([], 0, false)), Palette.LightGray, Point(30, 210)) == Palette.LightGray
  {
  }
}
