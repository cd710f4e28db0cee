/** The player's observable state and one pure transition per operation of
    script.js: `playMusic`, `loadSongsInLibrary`, startup in `main`, and the
    event handlers `main` registers. The `Player` class in module
    MusicPlayer is proved to perform exactly these transitions. */
module Transitions {
  import opened Wrappers
  import opened Tracks
  import opened Cards
  import opened TimeFormat
  import opened Text

  /** The image shown by the `#play` button. */
  datatype Icon = PlayIcon | PauseIcon

  /** The asset path behind each icon (the repository's own spelling). */
  function IconPath(i: Icon): string {
    match i
    case PlayIcon => "assests/play.svg"
    case PauseIcon => "assests/pause.svg"
  }

  /** The artist whose songs are loaded at startup. */
  const DefaultArtist: string := "Fossils"

  /** The `.songtime` text written whenever a track is loaded. */
  const ResetTime: string := "00:00 / 00:00"

  /** How `main` ends: stopped on an empty catalog, stopped by the TypeError
      of loading `defaultSongs[0]` when there are no default-artist songs, or
      set up with every listener registered. */
  datatype Startup = NoSongs | NoDefaultSongs | Started

  /** Everything the core reads or writes: the audio element (`src`,
      `paused`), the `#play` icon, the `.songinfo` and `.songtime` texts,
      `currentSongs` and its rendered rows, the card names, their display
      flags and the search input's value, the catalog `main` fetched, and
      whether `main` got as far as registering its listeners. */
  datatype State = State(
    src: Option<string>,
    paused: bool,
    icon: Icon,
    songInfo: string,
    songTime: string,
    currentSongs: seq<Track>,
    rows: seq<Row>,
    cards: seq<string>,
    shown: seq<bool>,
    searchValue: string,
    allSongs: seq<Track>,
    listening: bool)

  /** The state before `main` runs: a fresh `Audio` with no source, which is
      paused, an empty playlist, and every card displayed. */
  function Initial(cards: seq<string>): State {
    State(None, true, PlayIcon, "", "", [], [], cards, AllShown(|cards|), "", [], false)
  }

  /** `n` display flags, all set. */
  function AllShown(n: nat): seq<bool> {
    seq(n, _ => true)
  }

  /** What rendering maintains: the rows mirror `currentSongs`, and every
      card has one display flag. */
  ghost predicate Inv(s: State) {
    s.rows == RowsOf(s.currentSongs) && |s.shown| == |s.cards|
  }

  /** The `#play` icon matches the transport: play.svg exactly when paused. */
  predicate IconInSync(s: State) {
    s.icon == if s.paused then PlayIcon else PauseIcon
  }

  /** The three playback phases of the audio element. */
  datatype Phase = Idle | LoadedPaused | LoadedPlaying

  function PhaseOf(s: State): Phase {
    if s.src.None? then Idle else if s.paused then LoadedPaused else LoadedPlaying
  }

  /** The active playlist is the catalog filtered by one artist, in
      catalog order. */
  ghost predicate ArtistPlaylist(s: State) {
    exists a :: s.currentSongs == ByArtist(s.allSongs, a)
  }

  /** Every song of the active playlist comes from the catalog. */
  ghost predicate DrawnFromCatalog(s: State) {
    forall t :: t in s.currentSongs ==> t in s.allSongs
  }

  // ---- Operations ----

  /** `playMusic(track, pause)`. Assigning `src` runs the media element's load
      algorithm, which leaves it paused; `play()` then unpauses it unless
      `pause` is set. */
  function PlayMusic(s: State, track: Track, pause: bool): State {
    s.(src := Some(track.audioUrl), paused := pause,
       icon := if pause then PlayIcon else PauseIcon,
       songInfo := Label(track), songTime := ResetTime)
  }

  /** `loadSongsInLibrary(songs)`: the playlist becomes `songs` and the rows
      are rebuilt from it alone. */
  function LoadSongs(s: State, songs: seq<Track>): State {
    s.(currentSongs := songs, rows := RowsOf(songs))
  }

  /** A click on library row `i`: its listener plays song `i` of the list it
      was rendered from, which is `currentSongs`. */
  function ClickRow(s: State, i: nat): State
    requires i < |s.rows|
  {
    if i < |s.currentSongs| then PlayMusic(s, s.currentSongs[i], false) else s
  }

  /** How `main` ends for a given catalog. */
  function StartOutcome(catalog: seq<Track>): Startup {
    if |catalog| == 0 then NoSongs
    else if ByArtist(catalog, DefaultArtist) == [] then NoDefaultSongs
    else Started
  }

  /** `main` after the fetch: load the first default-artist song without
      playing it, list the default artist's songs, and register the
      listeners. When it stops early nothing observable has changed. */
  function Start(s: State, catalog: seq<Track>): State {
    if StartOutcome(catalog) != Started then s
    else
      var defaults := ByArtist(catalog, DefaultArtist);
      LoadSongs(PlayMusic(s, defaults[0], true), defaults).(allSongs := catalog, listening := true)
  }

  /** A click on card `c`: play the first of that artist's songs and list
      them, or do nothing when the artist has none. */
  function SelectCard(s: State, c: nat): State
    requires c < |s.cards|
  {
    var songs := ByArtist(s.allSongs, s.cards[c]);
    if |songs| > 0 then LoadSongs(PlayMusic(s, songs[0], false), songs) else s
  }

  /** An `input` event on the search box whose value is now `value`. */
  function SearchInput(s: State, value: string): State {
    s.(searchValue := value, shown := Visibility(s.cards, value))
  }

  /** A `keydown` on the search box: Escape empties it and displays every
      card; any other key does nothing here. */
  function SearchKeyDown(s: State, key: string): State {
    if key == "Escape" then s.(searchValue := "", shown := AllShown(|s.cards|)) else s
  }

  /** A click on the play button. */
  function TogglePlay(s: State): State {
    if s.paused then s.(paused := false, icon := PauseIcon)
    else s.(paused := true, icon := PlayIcon)
  }

  /** A click on the seek bar, apart from the new position. When the
      element's duration is not a finite number (no metadata yet, or a
      stream) the new position is not finite either, assigning it to
      `currentTime` throws a TypeError, and the rest of the handler does not
      run. Otherwise a paused element starts playing and the icon is set to
      play.svg. */
  function SeekClick(s: State, durationFinite: bool): State {
    if durationFinite && s.paused then s.(paused := false, icon := PlayIcon) else s
  }

  /** The index the navigation buttons take as current: the first song whose
      title is the text before `" - "` of the label as `innerHTML` reads it
      back, that is with `&`, `<`, `>` and U+00A0 escaped. */
  function CurrentIndex(s: State): int {
    FirstIndexOfTitle(s.currentSongs, LabelTitle(EscapeHtml(s.songInfo)))
  }

  /** A click on previous: pause, then play the song before the current one
      if there is one. */
  function Prev(s: State): State {
    var paused := s.(paused := true);
    var k := CurrentIndex(s);
    if k - 1 >= 0 then PlayMusic(paused, s.currentSongs[k - 1], false) else paused
  }

  /** A click on next: pause, then play the song after the current one if
      there is one. */
  function Next(s: State): State {
    var paused := s.(paused := true);
    var k := CurrentIndex(s);
    if k + 1 < |s.currentSongs| then PlayMusic(paused, s.currentSongs[k + 1], false) else paused
  }

  /** A `timeupdate` event at whole-second position `current` of a track of
      `duration` seconds. */
  function TimeUpdate(s: State, current: nat, duration: nat): State {
    s.(songTime := FormatTime(current) + " / " + FormatTime(duration))
  }

  /** The audio element reaching the end of its track: it pauses itself.
      No listener reacts, so the icon keeps showing pause.svg. */
  function TrackEnded(s: State): State {
    if PhaseOf(s) == LoadedPlaying then s.(paused := true) else s
  }

  // ---- The event loop ----

  /** The events that reach the core once `main` has run. */
  datatype Event =
    | RowClicked(row: nat)
    | CardClicked(card: nat)
    | SearchTyped(value: string)
    | SearchKey(key: string)
    | PlayClicked
    | SeekClicked(durationFinite: bool)
    | PrevClicked
    | NextClicked
    | TimeAdvanced(current: nat, duration: nat)
    | PlaybackEnded

  /** An event reaches the core: rows and cards must exist, every listener
      except the row listeners is registered by a completed startup, and the
      end of a track needs no listener. */
  predicate Enabled(s: State, e: Event) {
    match e
    case RowClicked(i) => i < |s.rows|
    case CardClicked(c) => s.listening && c < |s.cards|
    case PlaybackEnded => true
    case _ => s.listening
  }

  /** Dispatch of one event to its handler. */
  function Step(s: State, e: Event): State
    requires Enabled(s, e)
  {
    match e
    case RowClicked(i) => ClickRow(s, i)
    case CardClicked(c) => SelectCard(s, c)
    case SearchTyped(v) => SearchInput(s, v)
    case SearchKey(k) => SearchKeyDown(s, k)
    case PlayClicked => TogglePlay(s)
    case SeekClicked(f) => SeekClick(s, f)
    case PrevClicked => Prev(s)
    case NextClicked => Next(s)
    case TimeAdvanced(c, d) => TimeUpdate(s, c, d)
    case PlaybackEnded => TrackEnded(s)
  }
}
