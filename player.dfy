/** The global state of script.js and the functions and listeners that
    change it, as one object: the `Audio` element, the DOM regions the code
    writes, `currentSongs`, and the catalog `main` holds. Every method is
    proved to perform the transition of module Transitions that its
    `ensures` names; the constructor, `Start`, and the event handlers also
    keep the state consistent. */
module MusicPlayer {
  import opened Wrappers
  import opened Text
  import opened Tracks
  import opened Cards
  import opened TimeFormat
  import T = Transitions
  import P = PlayerProperties

  class Player {
    /** `currentSong.src`; None until the first load. */
    var src: Option<string>
    /** `currentSong.paused`. */
    var paused: bool
    /** `#play`'s image. */
    var icon: T.Icon
    /** `.songinfo`'s text. */
    var songInfo: string
    /** `.songtime`'s text. */
    var songTime: string
    /** The global `currentSongs`. */
    var currentSongs: seq<Track>
    /** The `.songRow` items of the library list. */
    var rows: seq<Row>
    /** The `h2` text of each `.card`, in document order. */
    const cards: seq<string>
    /** Whether each card is displayed (`style.display` "flex" or "none"). */
    const shown: array<bool>
    /** The search input's value. */
    var searchValue: string
    /** `allSongs` as fetched by `main`. */
    var allSongs: seq<Track>
    /** Whether `main` completed and registered its listeners. */
    var listening: bool

    /** The abstract state of the object. */
    function Snapshot(): T.State
      reads this, shown
    {
      T.State(src, paused, icon, songInfo, songTime, currentSongs, rows,
              cards, shown[..], searchValue, allSongs, listening)
    }

    ghost predicate Valid()
      reads this, shown
    {
      P.Consistent(Snapshot())
    }

    /** Page load: a fresh `Audio`, an empty playlist, every card shown. */
    constructor (cardNames: seq<string>)
      ensures Valid() && fresh(shown)
      ensures Snapshot() == T.Initial(cardNames)
    {
      src, paused, icon := None, true, T.PlayIcon;
      songInfo, songTime := "", "";
      currentSongs, rows := [], [];
      cards := cardNames;
      shown := new bool[|cardNames|](_ => true);
      searchValue, allSongs, listening := "", [], false;
      new;
      assert shown[..] == T.AllShown(|cardNames|);
      P.InitialConsistent(cardNames);
    }

    /** `playMusic(track, pause)`. */
    method PlayMusic(track: Track, pause: bool)
      modifies this
      ensures Snapshot() == T.PlayMusic(old(Snapshot()), track, pause)
    {
      src := Some(track.audioUrl);
      paused := true;
      if !pause {
        paused := false;
        icon := T.PauseIcon;
      } else {
        icon := T.PlayIcon;
      }
      songInfo := track.title + " - " + track.artist;
      songTime := "00:00 / 00:00";
    }

    /** `loadSongsInLibrary(songs)`: the list is cleared and one row appended
        per song. Row listeners are modelled by `ClickRow`, which reads the
        same list through `currentSongs`. */
    method LoadSongsInLibrary(songs: seq<Track>)
      modifies this
      ensures Snapshot() == T.LoadSongs(old(Snapshot()), songs)
    {
      currentSongs := songs;
      rows := [];
      for i := 0 to |songs|
        invariant rows == RowsOf(songs[..i])
        invariant Snapshot() == old(Snapshot()).(currentSongs := songs, rows := rows)
      {
        assert songs[..i + 1][..i] == songs[..i];
        rows := rows + [Row(songs[i].title, songs[i].artist)];
      }
      assert songs[..|songs|] == songs;
    }

    /** A click on library row `i`. */
    method ClickRow(i: nat)
      requires Valid() && i < |rows|
      modifies this
      ensures Valid()
      ensures Snapshot() == T.ClickRow(old(Snapshot()), i)
    {
      if i < |currentSongs| {
        PlayMusic(currentSongs[i], false);
      }
      P.StepKeepsConsistent(old(Snapshot()), T.RowClicked(i));
    }

    /** `main` from the point where the catalog has been fetched. */
    method Start(catalog: seq<Track>) returns (outcome: T.Startup)
      requires Valid()
      modifies this
      ensures Valid()
      ensures outcome == T.StartOutcome(catalog)
      ensures Snapshot() == T.Start(old(Snapshot()), catalog)
    {
      P.StartKeepsConsistent(Snapshot(), catalog);
      if |catalog| == 0 {
        return T.NoSongs;
      }
      var defaults := ByArtist(catalog, T.DefaultArtist);
      if |defaults| == 0 {
        return T.NoDefaultSongs;
      }
      allSongs := catalog;
      PlayMusic(defaults[0], true);
      LoadSongsInLibrary(defaults);
      listening := true;
      outcome := T.Started;
    }

    /** A click on card `c`. */
    method SelectCard(c: nat)
      requires Valid() && listening && c < |cards|
      modifies this
      ensures Valid()
      ensures Snapshot() == T.SelectCard(old(Snapshot()), c)
    {
      P.StepKeepsConsistent(Snapshot(), T.CardClicked(c));
      var artistName := cards[c];
      var artistSongs := ByArtist(allSongs, artistName);
      if |artistSongs| > 0 {
        PlayMusic(artistSongs[0], false);
        LoadSongsInLibrary(artistSongs);
      }
    }

    /** An `input` event on the search box carrying `value`. */
    method OnSearchInput(value: string)
      requires Valid() && listening
      modifies this, shown
      ensures Valid()
      ensures Snapshot() == T.SearchInput(old(Snapshot()), value)
    {
      P.StepKeepsConsistent(Snapshot(), T.SearchTyped(value));
      searchValue := value;
      var searchTerm := Trim(Lower(value));
      ShowMatchingCards(searchTerm);
      assert shown[..] == Visibility(cards, value);
    }

    /** The `forEach` over the cards in the `input` listener: each card is
        displayed or hidden by the normalised term. */
    method ShowMatchingCards(searchTerm: string)
      requires shown.Length == |cards|
      modifies shown
      ensures forall k :: 0 <= k < |cards| ==> shown[k] == CardVisible(searchTerm, cards[k])
    {
      for j := 0 to shown.Length
        invariant forall k :: 0 <= k < j ==> shown[k] == CardVisible(searchTerm, cards[k])
      {
        var artistName := Lower(cards[j]);
        if searchTerm == "" {
          shown[j] := true;
        } else if Contains(artistName, searchTerm) {
          shown[j] := true;
        } else {
          shown[j] := false;
        }
      }
    }

    /** A `keydown` event on the search box for `key`. */
    method OnSearchKeyDown(key: string)
      requires Valid() && listening
      modifies this, shown
      ensures Valid()
      ensures Snapshot() == T.SearchKeyDown(old(Snapshot()), key)
    {
      P.StepKeepsConsistent(Snapshot(), T.SearchKey(key));
      if key == "Escape" {
        searchValue := "";
        for j := 0 to shown.Length
          modifies shown
          invariant forall k :: 0 <= k < j ==> shown[k]
        {
          shown[j] := true;
        }
        assert shown[..] == T.AllShown(|cards|);
      }
    }

    /** A click on the play button. */
    method TogglePlay()
      requires Valid() && listening
      modifies this
      ensures Valid()
      ensures Snapshot() == T.TogglePlay(old(Snapshot()))
    {
      P.StepKeepsConsistent(Snapshot(), T.PlayClicked);
      if paused {
        paused := false;
        icon := T.PauseIcon;
      } else {
        paused := true;
        icon := T.PlayIcon;
      }
    }

    /** A click on the seek bar; the new position is not modelled, only
        whether the element's duration is finite, without which assigning
        the position throws before the transport is reached. */
    method OnSeekClick(durationFinite: bool)
      requires Valid() && listening
      modifies this
      ensures Valid()
      ensures Snapshot() == T.SeekClick(old(Snapshot()), durationFinite)
    {
      P.StepKeepsConsistent(Snapshot(), T.SeekClicked(durationFinite));
      if !durationFinite {
        return;
      }
      if paused {
        paused := false;
        icon := T.PlayIcon;
      }
    }

    /** A click on the previous button. The label is read back through
        `innerHTML`, which escapes it. */
    method Prev()
      requires Valid() && listening
      modifies this
      ensures Valid()
      ensures Snapshot() == T.Prev(old(Snapshot()))
    {
      ghost var before := Snapshot();
      P.StepKeepsConsistent(before, T.PrevClicked);
      paused := true;
      var currentSongTitle := LabelTitle(EscapeHtml(songInfo));
      var index := FirstIndexOfTitle(currentSongs, currentSongTitle);
      assert index == T.CurrentIndex(before);
      if index - 1 >= 0 {
        PlayMusic(currentSongs[index - 1], false);
      }
      assert Snapshot() == T.Prev(before);
    }

    /** A click on the next button, reading the label back as previous
        does. */
    method Next()
      requires Valid() && listening
      modifies this
      ensures Valid()
      ensures Snapshot() == T.Next(old(Snapshot()))
    {
      ghost var before := Snapshot();
      P.StepKeepsConsistent(before, T.NextClicked);
      paused := true;
      var currentSongTitle := LabelTitle(EscapeHtml(songInfo));
      var index := FirstIndexOfTitle(currentSongs, currentSongTitle);
      assert index == T.CurrentIndex(before);
      if index + 1 < |currentSongs| {
        PlayMusic(currentSongs[index + 1], false);
      }
      assert Snapshot() == T.Next(before);
    }

    /** A `timeupdate` event at whole-second position `current` of a track of
        `duration` seconds. */
    method OnTimeUpdate(current: nat, duration: nat)
      requires Valid() && listening
      modifies this
      ensures Valid()
      ensures Snapshot() == T.TimeUpdate(old(Snapshot()), current, duration)
    {
      P.StepKeepsConsistent(Snapshot(), T.TimeAdvanced(current, duration));
      songTime := FormatTime(current) + " / " + FormatTime(duration);
    }

    /** The audio element reaching the end of a playing track: it pauses
        itself, and no listener updates the icon. */
    method OnTrackEnded()
      requires Valid()
      modifies this
      ensures Valid()
      ensures Snapshot() == T.TrackEnded(old(Snapshot()))
    {
      P.StepKeepsConsistent(Snapshot(), T.PlaybackEnded);
      if src.Some? && !paused {
        paused := true;
      }
    }
  }
}
