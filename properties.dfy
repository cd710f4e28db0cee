/** What the player's transitions guarantee: the effect of loading a track,
    of rendering a playlist, of each button, the round trips of the
    navigation buttons and of the play toggle, and the invariants every
    event keeps. */
module PlayerProperties {
  import opened Wrappers
  import opened Text
  import opened TimeFormat
  import opened Tracks
  import opened Cards
  import opened Transitions

  /** Loading a track points the element at its URL, shows
      "title - artist" and a reset time, plays exactly when `pause` is
      unset with the matching icon, makes the label lead back to the title
      exactly when the title splits cleanly, and changes nothing else. */
  lemma PlayMusicLoads(s: State, t: Track, pause: bool)
    ensures var r := PlayMusic(s, t, pause);
      r.src == Some(t.audioUrl) &&
      r.songInfo == t.title + " - " + t.artist &&
      r.songTime == "00:00 / 00:00" &&
      PhaseOf(r) == (if pause then LoadedPaused else LoadedPlaying) &&
      IconInSync(r) &&
      IconPath(r.icon) == (if pause then "assests/play.svg" else "assests/pause.svg") &&
      (LabelTitle(r.songInfo) == t.title <==> SplitsCleanly(t.title)) &&
      r.(src := s.src, paused := s.paused, icon := s.icon, songInfo := s.songInfo, songTime := s.songTime) == s
  {
    LabelTitleOfLabel(t);
  }

  /** Rendering a playlist makes it current, discards the earlier rows in
      favour of one row per song in order, binds row `i` to song `i`, and
      rendering the same list again changes nothing. */
  lemma LoadSongsRenders(s: State, songs: seq<Track>)
    ensures var r := LoadSongs(s, songs);
      r.currentSongs == songs &&
      |r.rows| == |songs| &&
      (forall i :: 0 <= i < |songs| ==> r.rows[i].title == songs[i].title && r.rows[i].artist == songs[i].artist) &&
      (forall i :: 0 <= i < |songs| ==> ClickRow(r, i) == PlayMusic(r, songs[i], false)) &&
      LoadSongs(r, songs) == r &&
      (|s.shown| == |s.cards| ==> Inv(r))
  {
  }

  /** The play button flips the transport and brings the icon in line with
      it; nothing else changes. */
  lemma TogglePlayFlips(s: State)
    ensures var r := TogglePlay(s);
      r.paused == !s.paused && IconInSync(r) && r.(paused := s.paused, icon := s.icon) == s
  {
  }

  /** Two clicks on the play button restore the state, when the icon was in
      line with the transport to begin with. */
  lemma TogglePlayTwice(s: State)
    requires IconInSync(s)
    ensures TogglePlay(TogglePlay(s)) == s
  {
  }

  /** A click on the seek bar of a track with a finite duration starts a
      paused element but shows play.svg while it plays; a playing element is
      left alone. Without a finite duration the handler throws before it
      reaches the transport, and nothing changes. */
  lemma SeekClickPlays(s: State, durationFinite: bool)
    ensures var r := SeekClick(s, durationFinite);
      (durationFinite ==> !r.paused) &&
      (durationFinite && s.paused ==> r.icon == PlayIcon && !IconInSync(r) && r.(paused := true, icon := s.icon) == s) &&
      (!s.paused ==> r == s) &&
      (!durationFinite ==> r == s)
  {
  }

  /** When a playing track ends the element pauses itself but the icon
      still shows pause.svg, so the icon falls out of line with the
      transport; the next click on the play button resumes, restoring the
      state. In any other phase the end of a track changes nothing. */
  lemma TrackEndedLeavesPauseIcon(s: State)
    ensures PhaseOf(s) == LoadedPlaying && IconInSync(s) ==>
      var r := TrackEnded(s);
      PhaseOf(r) == LoadedPaused && r.icon == PauseIcon && !IconInSync(r) && TogglePlay(r) == s
    ensures PhaseOf(s) != LoadedPlaying ==> TrackEnded(s) == s
  {
  }

  /** Previous at the first song, or with a label no song title matches,
      only pauses: track, label and icon stay as they were. */
  lemma PrevAtStartOnlyPauses(s: State)
    requires CurrentIndex(s) <= 0
    ensures Prev(s) == s.(paused := true)
    ensures !s.paused && IconInSync(s) ==> Prev(s).paused && Prev(s).icon == PauseIcon
  {
  }

  /** Previous after the first song plays the song before the current one. */
  lemma PrevStepsBack(s: State)
    requires CurrentIndex(s) >= 1
    ensures Prev(s) == PlayMusic(s, s.currentSongs[CurrentIndex(s) - 1], false)
  {
  }

  /** Next at the last song only pauses. */
  lemma NextAtEndOnlyPauses(s: State)
    requires CurrentIndex(s) + 1 >= |s.currentSongs|
    ensures Next(s) == s.(paused := true)
  {
  }

  /** Next before the last song plays the song after the current one; when
      the label matches no title, that is the first song of the list. */
  lemma NextStepsForward(s: State)
    requires CurrentIndex(s) + 1 < |s.currentSongs|
    ensures Next(s) == PlayMusic(s, s.currentSongs[CurrentIndex(s) + 1], false)
    ensures CurrentIndex(s) == -1 ==> Next(s) == PlayMusic(s, s.currentSongs[0], false)
  {
  }

  /** The playlists on which the label lookup identifies every song: titles
      are distinct, split cleanly, and hold no character that `innerHTML`
      escapes. */
  predicate Identifiable(songs: seq<Track>) {
    DistinctTitles(songs) &&
    (forall i :: 0 <= i < |songs| ==> SplitsCleanly(songs[i].title)) &&
    (forall i, j :: 0 <= i < |songs| && 0 <= j < |songs[i].title| ==> HtmlInert(songs[i].title[j]))
  }

  /** After loading song `k` of an identifiable playlist, the navigation
      buttons take `k` as the current index. */
  lemma CurrentIndexAfterLoad(s: State, k: nat, pause: bool)
    requires Identifiable(s.currentSongs) && k < |s.currentSongs|
    ensures CurrentIndex(PlayMusic(s, s.currentSongs[k], pause)) == k
  {
    ReadBackTitle(s.currentSongs[k]);
    FirstIndexOfDistinct(s.currentSongs, k);
  }

  /** A title with an ampersand is not found again: `innerHTML` reads the
      label of "Rock & Roll" back as "Rock &amp; Roll - Fossils", whose
      title part matches no song. So next plays the first song of the list
      instead of the second, and previous only pauses. */
  lemma AmpersandTitleIsMissed(s: State)
    requires s.currentSongs == [Track("Rock & Roll", "Fossils", "rock.mp3"), Track("Amber", "Fossils", "amber.mp3")]
    requires s.songInfo == Label(s.currentSongs[0])
    ensures CurrentIndex(s) == -1
    ensures Next(s) == PlayMusic(s, s.currentSongs[0], false)
    ensures Prev(s) == s.(paused := true)
  {
    var t := s.currentSongs[0];
    assert t.title[5] == '&' && t.title[6] == ' ';
    forall i | 0 <= i < 5 ensures HtmlInert(t.title[i]) {
    }
    AmpersandReadBack(t, 5);
    var e := EscapeHtml(s.songInfo);
    var r := LabelTitle(e);
    assert r != t.title by {
      if |r| == 11 {
        assert r[6] == e[6] == "&amp;"[1];
      }
    }
    assert r != s.currentSongs[1].title by {
      if |r| == 5 {
        assert r[0] == e[0] == t.title[0];
      }
    }
  }

  /** An ampersand in a title comes back from `innerHTML` as `&amp;`, after
      the part of the title before it. */
  lemma AmpersandReadBack(t: Track, k: nat)
    requires k < |t.title| && t.title[k] == '&'
    requires forall i :: 0 <= i < k ==> HtmlInert(t.title[i])
    ensures var e := EscapeHtml(Label(t));
      |e| >= k + 5 && e[..k] == t.title[..k] && e[k..k + 5] == "&amp;"
  {
    var l := Label(t);
    var p, q := l[..k], l[k + 1..];
    assert p == t.title[..k] && l[k] == '&';
    assert l == p + [l[k]] + q;
    EscapeAfterInert(p, '&', q);
  }

  /** A load overrides whatever an earlier load or pause set: only the
      fields it leaves alone survive, and those a load never touches. */
  lemma PlayMusicOverrides(s: State, t: Track, u: Track, p: bool, q: bool)
    ensures PlayMusic(PlayMusic(s, t, p).(paused := true), u, q) == PlayMusic(s, u, q)
    ensures PlayMusic(s.(paused := true), u, q) == PlayMusic(s, u, q)
  {
  }

  /** Next right after loading song `k` of an identifiable playlist plays
      song `k + 1`, whatever the state before the load. */
  lemma NextAfterLoad(s: State, k: nat, pause: bool)
    requires Identifiable(s.currentSongs) && k + 1 < |s.currentSongs|
    ensures Next(PlayMusic(s, s.currentSongs[k], pause)) == PlayMusic(s, s.currentSongs[k + 1], false)
  {
    var l := PlayMusic(s, s.currentSongs[k], pause);
    CurrentIndexAfterLoad(s, k, pause);
    assert Next(l) == PlayMusic(l.(paused := true), s.currentSongs[k + 1], false);
    PlayMusicOverrides(s, s.currentSongs[k], s.currentSongs[k + 1], pause, false);
  }

  /** Previous right after loading song `k` of an identifiable playlist
      plays song `k - 1`, whatever the state before the load. */
  lemma PrevAfterLoad(s: State, k: nat, pause: bool)
    requires Identifiable(s.currentSongs) && 1 <= k < |s.currentSongs|
    ensures Prev(PlayMusic(s, s.currentSongs[k], pause)) == PlayMusic(s, s.currentSongs[k - 1], false)
  {
    var l := PlayMusic(s, s.currentSongs[k], pause);
    CurrentIndexAfterLoad(s, k, pause);
    assert Prev(l) == PlayMusic(l.(paused := true), s.currentSongs[k - 1], false);
    PlayMusicOverrides(s, s.currentSongs[k], s.currentSongs[k - 1], pause, false);
  }

  /** Next then previous from a song that has a successor comes back to it,
      playing. */
  lemma NextThenPrev(s: State)
    requires Identifiable(s.currentSongs)
    requires 0 <= CurrentIndex(s) && CurrentIndex(s) + 1 < |s.currentSongs|
    ensures Prev(Next(s)) == PlayMusic(s, s.currentSongs[CurrentIndex(s)], false)
  {
    var k := CurrentIndex(s);
    NextStepsForward(s);
    PrevAfterLoad(s, k + 1, false);
  }

  /** Previous then next from a song that has a predecessor comes back to
      it, playing. */
  lemma PrevThenNext(s: State)
    requires Identifiable(s.currentSongs)
    requires 1 <= CurrentIndex(s)
    ensures Next(Prev(s)) == PlayMusic(s, s.currentSongs[CurrentIndex(s)], false)
  {
    var k := CurrentIndex(s);
    PrevStepsBack(s);
    NextAfterLoad(s, k - 1, false);
  }

  /** Clicking a card with songs plays the first of them and lists exactly
      the catalog's songs by that artist, in catalog order; a card with none
      changes nothing. */
  lemma SelectCardLoads(s: State, c: nat)
    requires c < |s.cards|
    ensures var songs := ByArtist(s.allSongs, s.cards[c]);
      var r := SelectCard(s, c);
      IsSubsequence(songs, s.allSongs) &&
      (forall t :: t in songs <==> t in s.allSongs && t.artist == s.cards[c]) &&
      (songs == [] ==> r == s) &&
      (songs != [] ==>
        r.currentSongs == songs && r.rows == RowsOf(songs) &&
        r.src == Some(songs[0].audioUrl) && r.songInfo == Label(songs[0]) &&
        PhaseOf(r) == LoadedPlaying && r.icon == PauseIcon)
  {
    ByArtistSubsequence(s.allSongs, s.cards[c]);
    forall t ensures t in ByArtist(s.allSongs, s.cards[c]) <==> t in s.allSongs && t.artist == s.cards[c] {
      ByArtistMembers(s.allSongs, s.cards[c], t);
    }
  }

  /** Startup stops on an empty catalog, and gets through exactly when the
      catalog has a song by the default artist. */
  lemma StartOutcomeIff(catalog: seq<Track>)
    ensures catalog == [] ==> StartOutcome(catalog) == NoSongs
    ensures StartOutcome(catalog) == Started <==> exists t :: t in catalog && t.artist == DefaultArtist
  {
    var defaults := ByArtist(catalog, DefaultArtist);
    if exists t :: t in catalog && t.artist == DefaultArtist {
      var t :| t in catalog && t.artist == DefaultArtist;
      ByArtistMembers(catalog, DefaultArtist, t);
    }
    if defaults != [] {
      ByArtistMembers(catalog, DefaultArtist, defaults[0]);
    }
  }

  /** Startup that stops early changes nothing; otherwise the first
      default-artist song is loaded paused, exactly the catalog's songs by
      that artist are listed, and the listeners are registered. */
  lemma StartLoadsDefault(s: State, catalog: seq<Track>)
    ensures StartOutcome(catalog) != Started ==> Start(s, catalog) == s
    ensures StartOutcome(catalog) == Started ==>
      var r := Start(s, catalog);
      var defaults := ByArtist(catalog, DefaultArtist);
      r.listening && r.allSongs == catalog &&
      r.currentSongs == defaults && r.rows == RowsOf(defaults) &&
      (forall t :: t in r.currentSongs <==> t in catalog && t.artist == "Fossils") &&
      r.src == Some(defaults[0].audioUrl) && PhaseOf(r) == LoadedPaused && r.icon == PlayIcon
  {
    forall t ensures t in ByArtist(catalog, DefaultArtist) <==> t in catalog && t.artist == DefaultArtist {
      ByArtistMembers(catalog, DefaultArtist, t);
    }
  }

  /** Typing into the search box displays a card exactly when the lower-cased,
      trimmed input occurs in its lower-cased name. */
  lemma SearchInputShows(s: State, value: string, j: nat)
    requires |s.shown| == |s.cards| && j < |s.cards|
    ensures var r := SearchInput(s, value);
      |r.shown| == |s.cards| && r.searchValue == value &&
      (r.shown[j] <==> exists i :: OccursAt(Lower(s.cards[j]), Trim(Lower(value)), i))
  {
    CardVisibleIff(Normalize(value), s.cards[j]);
  }

  /** Escape empties the search box and displays every card, undoing any
      earlier search; other keys change nothing. */
  lemma EscapeShowsAll(s: State, key: string, value: string)
    ensures key == "Escape" ==>
      var r := SearchKeyDown(s, key);
      r.searchValue == "" && |r.shown| == |s.cards| && (forall j :: 0 <= j < |r.shown| ==> r.shown[j]) &&
      SearchKeyDown(SearchInput(s, value), key) == r
    ensures key != "Escape" ==> SearchKeyDown(s, key) == s
  {
  }

  /** The time text after a `timeupdate` reads back as the position and the
      duration, separated by `" / "`. */
  lemma TimeUpdateReadsBack(s: State, current: nat, duration: nat)
    ensures var r := TimeUpdate(s, current, duration).songTime;
      var n := |FormatTime(current)|;
      n + 3 <= |r| && ParseTime(r[..n]) == Some(current) && r[n..n + 3] == " / " &&
      ParseTime(r[n + 3..]) == Some(duration)
  {
    var r := TimeUpdate(s, current, duration).songTime;
    var n := |FormatTime(current)|;
    assert r[..n] == FormatTime(current);
    assert r[n + 3..] == FormatTime(duration);
    FormatTimeRoundTrip(current);
    FormatTimeRoundTrip(duration);
  }

  /** The consistency the event loop maintains: rendering invariants, the
      active playlist drawn from the catalog as one artist's songs in
      catalog order, and a loaded source that is some catalog song's URL. */
  ghost predicate Consistent(s: State) {
    Inv(s) && DrawnFromCatalog(s) && ArtistPlaylist(s) &&
    (s.src.Some? ==> exists t :: t in s.allSongs && t.audioUrl == s.src.value)
  }

  /** The initial state is consistent. */
  lemma InitialConsistent(cards: seq<string>)
    ensures Consistent(Initial(cards))
    ensures PhaseOf(Initial(cards)) == Idle
  {
    assert Initial(cards).currentSongs == ByArtist([], DefaultArtist);
  }

  /** `songs` holds exactly the catalog songs by `artist`. */
  ghost predicate SongsOfArtist(songs: seq<Track>, catalog: seq<Track>, artist: string) {
    forall t :: t in songs <==> t in catalog && t.artist == artist
  }

  /** In a consistent state the playlist is an order-preserving
      subsequence of the catalog holding exactly the catalog songs of one
      artist. */
  lemma ConsistentPlaylistOrder(s: State)
    requires Consistent(s)
    ensures IsSubsequence(s.currentSongs, s.allSongs)
    ensures exists a :: SongsOfArtist(s.currentSongs, s.allSongs, a)
  {
    var a :| s.currentSongs == ByArtist(s.allSongs, a);
    ByArtistSubsequence(s.allSongs, a);
    forall t ensures t in s.currentSongs <==> t in s.allSongs && t.artist == a {
      ByArtistMembers(s.allSongs, a, t);
    }
    assert SongsOfArtist(s.currentSongs, s.allSongs, a);
  }

  /** Every event keeps the catalog, and keeps the playlist one artist's
      songs of it: a card click switches to that card's artist, and every
      other event leaves the playlist alone. */
  lemma StepKeepsArtistPlaylist(s: State, e: Event)
    requires ArtistPlaylist(s) && Enabled(s, e)
    ensures Step(s, e).allSongs == s.allSongs
    ensures ArtistPlaylist(Step(s, e))
    ensures !e.CardClicked? ==> Step(s, e).currentSongs == s.currentSongs
  {
    var r := Step(s, e);
    if e.CardClicked? {
      var songs := ByArtist(s.allSongs, s.cards[e.card]);
      assert r.currentSongs == songs || r == s;
    } else {
      var a :| s.currentSongs == ByArtist(s.allSongs, a);
      assert r.currentSongs == ByArtist(r.allSongs, a);
    }
  }

  /** Startup keeps the state consistent. */
  lemma StartKeepsConsistent(s: State, catalog: seq<Track>)
    requires Consistent(s)
    ensures Consistent(Start(s, catalog))
  {
    if StartOutcome(catalog) == Started {
      var defaults := ByArtist(catalog, DefaultArtist);
      assert Start(s, catalog).currentSongs == ByArtist(Start(s, catalog).allSongs, DefaultArtist);
      forall t | t in defaults ensures t in catalog {
        ByArtistMembers(catalog, DefaultArtist, t);
      }
      assert defaults[0] in defaults;
    }
  }

  /** Every event keeps the state consistent. */
  lemma StepKeepsConsistent(s: State, e: Event)
    requires Consistent(s) && Enabled(s, e)
    ensures Consistent(Step(s, e))
  {
    StepKeepsArtistPlaylist(s, e);
    match e
    case CardClicked(c) =>
      var songs := ByArtist(s.allSongs, s.cards[c]);
      forall t | t in songs ensures t in s.allSongs {
        ByArtistMembers(s.allSongs, s.cards[c], t);
      }
      if songs != [] {
        assert songs[0] in songs;
      }
    case RowClicked(i) =>
      if i < |s.currentSongs| {
        assert s.currentSongs[i] in s.currentSongs;
      }
    case PrevClicked =>
      var k := CurrentIndex(s);
      if k - 1 >= 0 {
        assert s.currentSongs[k - 1] in s.currentSongs;
      }
    case NextClicked =>
      var k := CurrentIndex(s);
      if k + 1 < |s.currentSongs| {
        assert s.currentSongs[k + 1] in s.currentSongs;
      }
    case _ =>
  }
}
