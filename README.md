# Fossil-Tune player core in Dafny

Fossil-Tune is a browser music player made of one script, `script.js`. It
fetches a catalog of songs and lists the songs of one artist. It drives a
single `Audio` element with play/pause, seek, previous and next, and keeps a
few page regions in step with that element: the now-playing label
(`.songinfo`), the time text (`.songtime`), the `#play` icon and the library
rows. Artist cards switch the listed artist, and a search box filters the
cards.

This project models that core with the page and the audio element
abstracted away:

- `wrappers.dfy` (module `Wrappers`) holds `Option`.
- `text.dfy` (module `Text`) holds the string primitives the script relies on:
  - ECMAScript `trim`, with its exact whitespace set;
  - `toLowerCase` for ASCII letters;
  - `includes`;
  - the escaping `innerHTML` applies when it serialises text;
  - the decimal rendering of a natural number.
- `time_format.dfy` (module `TimeFormat`) holds `formatTime` and a parser
  that reads its output back.
- `tracks.dfy` (module `Tracks`) holds:
  - the song record;
  - the `"title - artist"` label and its `split(" - ")[0]`;
  - `findIndex` by title;
  - the artist `filter`;
  - the rendered rows.
- `cards.dfy` (module `Cards`) holds the card-visibility rule of the search
  box.
- `transitions.dfy` (module `Transitions`) holds the observable state as a
  datatype, with one pure transition per operation: `playMusic`,
  `loadSongsInLibrary`, startup, and each listener of the core. It also
  holds an `Event` type and a `Step` dispatcher for the event loop.
- `properties.dfy` (module `PlayerProperties`) holds what those transitions
  guarantee:
  - the navigation round trips;
  - toggle-twice;
  - the boundary behaviour of previous and next;
  - the artist filter's order and contents;
  - the search and Escape rules;
  - an invariant every event keeps: rows mirror the playlist, the playlist
    is the catalog filtered by one artist in catalog order, and a loaded
    source is a catalog URL.
- `player.dfy` (module `MusicPlayer`) holds the class `Player`:
  - its fields are the script's globals and the page regions it writes;
  - its methods are the script's functions and listeners, with the row
    rebuild and the card `forEach` as loops;
  - every method except the helper `ShowMatchingCards` is proved to
    perform the transition its `ensures` names.
    Most share the transition's name. The exceptions are
    `LoadSongsInLibrary` (`LoadSongs`), `OnSearchInput` (`SearchInput`),
    `OnSearchKeyDown` (`SearchKeyDown`), `OnSeekClick` (`SeekClick`),
    `OnTimeUpdate` (`TimeUpdate`) and `OnTrackEnded` (`TrackEnded`);
  - the constructor, `Start` and the event handlers also keep the
    invariant. `PlayMusic` and `LoadSongsInLibrary` are called in the
    middle of a handler and promise only their transition. The helper
    `ShowMatchingCards` promises that each card's display flag follows the
    search rule.

Playback has three phases: Idle (no source yet), Loaded-Paused and
Loaded-Playing. Assigning `src` runs the media element's load algorithm,
which leaves the element paused. `play()` then sets `paused` to false at
once, before its promise settles. Previous and next find the current song
only through the label text. They read it back through `innerHTML`, which
escapes `&`, `<`, `>` and U+00A0. They take its part before the first
`" - "`, then the first song with that title.

Behaviours of `script.js` a reader may not expect:

- After a load, the time text is `"00:00 / 00:00"`, not `"0:00 / 0:00"`.
- Previous at the first song, and next at the last, are not pure no-ops:
  both pause playback first and leave the icon as it was.
- A click on the seek bar that starts playback shows play.svg while playing.
- A title containing `&`, `<`, `>` or U+00A0 is never found again by
  previous and next, because the read-back label is escaped.
- When a track ends the element pauses itself, but nothing resets the icon,
  which keeps showing pause.svg.

## Model

| member | source | states |
|---|---|---|
| Text.TrimStart | script.js:239 | the result is a suffix of the input, everything dropped is ECMAScript whitespace, and the result does not start with whitespace |
| Text.TrimEnd | script.js:239 | the result is a prefix of the input, everything dropped is whitespace, and the result does not end with whitespace |
| Text.TrimIsCore | script.js:239 | `trim` keeps one contiguous slice of the input and drops only whitespace before and after it |
| Text.TrimEdges | script.js:239 | a non-empty trimmed string neither starts nor ends with whitespace |
| Text.TrimIdempotent | script.js:239 | trimming twice equals trimming once |
| Text.TrimAllWhitespace | script.js:239 | an all-whitespace input trims to the empty string |
| Text.Trim | script.js:239 | `trim` is `TrimEnd` after `TrimStart`; what it keeps is stated by `TrimIsCore` and `TrimEdges` |
| Text.Lower | script.js:239 | lower-casing keeps the length, leaves no upper-case ASCII letter, maps each of `A`–`Z` to the letter 32 code points above it, and keeps every other character |
| Text.LowerIdempotent | script.js:243 | lower-casing twice equals lower-casing once |
| Text.LowerKeepsWhitespace | script.js:239 | lower-casing neither creates nor removes whitespace, position by position |
| Text.ContainsIff | script.js:248 | `includes` holds exactly when the term occurs at some index (both directions) |
| Text.Contains | script.js:248 | `includes`: the term starts at the first position or is included in the rest; its meaning is stated by `ContainsIff` |
| Text.ContainsEmpty | script.js:248 | every string includes the empty string |
| Text.EscapeHtml | script.js:324 | the `innerHTML` of an element holding a text: each `&`, `<`, `>` and U+00A0 becomes its entity; properties in the next three rows |
| Text.EscapeHtmlInert | script.js:324 | text without those four characters reads back unchanged |
| Text.EscapeHtmlAppend | script.js:324 | escaping distributes over concatenation |
| Text.EscapeAfterInert | script.js:324 | when the text before a character needs no escaping, that part is kept, the character is escaped alone, and the rest follows |
| Text.NatToString | script.js:24 | the decimal rendering is all digits, starts with `'0'` exactly for zero, and is one digit exactly below ten |
| Text.NatToStringRoundTrip | script.js:24 | reading the rendered digits gives back the number |
| TimeFormat.FormatTime | script.js:21-25 | `formatTime` on whole seconds; its properties are stated by the next five rows |
| TimeFormat.SecondsFieldDigits | script.js:23-24 | the seconds field is two digits, starts with `'0'` exactly when below ten, and reads back as its value |
| TimeFormat.FormatTimeFields | script.js:21-25 | the minutes field is the full `seconds / 60` (no hour rollover), then `':'`, then the two-digit `seconds % 60` |
| TimeFormat.FormatTimeRoundTrip | script.js:21-25 | parsing `formatTime(s)` gives back `s` |
| TimeFormat.FormatTimeInjective | script.js:21-25 | distinct second counts render to distinct strings |
| TimeFormat.FormatTimeExamples | script.js:21-25 | 125 gives "2:05", 59 gives "0:59", 3600 gives "60:00", 0 gives "0:00" |
| Tracks.Label | script.js:86 | the `.songinfo` text `title - artist`; what splitting it gives back is stated by `LabelTitleOfLabel` |
| Tracks.LabelTitle | script.js:324 | `split(" - ")[0]` is the prefix before the first `" - "`, or the whole text when there is none |
| Tracks.SplitsCleanlyIff | script.js:86 | a title survives the label round trip exactly when it has no `" - "` and does not end in `" -"` |
| Tracks.LabelTitleOfLabel | script.js:86 | splitting the label `playMusic` writes gives back the title exactly when the title splits cleanly (both directions) |
| Tracks.ReadBackTitle | script.js:324 | for a cleanly splitting title without `&`, `<`, `>` or U+00A0, splitting the escaped read-back of its label gives back the title, whatever the artist |
| Tracks.LabelTitleCutsTrailingDash | script.js:336-337 | the label of "Intro -" splits to "Intro", and the lookup in a list of that one track finds nothing |
| Tracks.FirstIndexOfTitle | script.js:325 | `findIndex` returns the first index with the title, or -1 exactly when no song has it |
| Tracks.FirstIndexOfDistinct | script.js:337 | with distinct titles the lookup finds each song at its own index |
| Tracks.ByArtist | script.js:185 | `filter` by artist; its contents and order are stated by the next four rows |
| Tracks.ByArtistMembers | script.js:199 | a song is in the filtered list exactly when it is in the catalog and has the artist |
| Tracks.ByArtistAppend | script.js:185 | filtering a concatenation is the concatenation of the filtered parts, so catalog order is kept |
| Tracks.ByArtistCount | script.js:199 | each matching song keeps its multiplicity, and each non-matching song has none |
| Tracks.ByArtistSubsequence | script.js:199 | the filtered list is an order-preserving subsequence of the catalog |
| Tracks.RowsOf | script.js:138-150 | one row per song, in order, showing that song's title and artist |
| Cards.Normalize | script.js:239 | the search term: the input lower-cased, then trimmed; `SearchIgnoresCase` and `BlankSearchShowsAll` state its effect |
| Cards.CardVisible | script.js:245-254 | the display rule for one card; stated as an iff by `CardVisibleIff` |
| Cards.Visibility | script.js:242-255 | one display flag per card, in card order; `SearchInputShows` states each flag |
| Cards.CardVisibleIff | script.js:245-254 | a card is displayed exactly when the normalised term occurs in its lower-cased name; the empty-term branch agrees with this |
| Cards.BlankSearchShowsAll | script.js:239-247 | an empty or all-whitespace input displays every card |
| Cards.SearchIgnoresCase | script.js:239-243 | upper-case letters in the input make no difference |
| PlayerProperties.PlayMusicLoads | script.js:73-88 | `src` becomes the track URL and the label `title - artist`; the time text becomes "00:00 / 00:00"; the element plays exactly when not `pause`, with pause.svg, and otherwise stays paused with play.svg; nothing else changes |
| PlayerProperties.LoadSongsRenders | script.js:127-160 | the list becomes current and earlier rows are discarded; there is one row per song in order; row `i` plays song `i` with autoplay; re-rendering is idempotent |
| PlayerProperties.TogglePlayFlips | script.js:282-291 | the play button flips paused/playing, sets the matching icon, and changes nothing else |
| PlayerProperties.TogglePlayTwice | script.js:282-291 | two clicks restore the state when the icon matched the transport |
| PlayerProperties.SeekClickPlays | script.js:308-318 | with a finite duration a paused element starts playing but shows play.svg; a playing element is untouched; without a finite duration the `currentTime` assignment throws and nothing changes |
| PlayerProperties.TrackEndedLeavesPauseIcon | script.js:282-291 | when a playing track ends the element is paused while the icon still shows pause.svg, and the next play click resumes it; in any other phase nothing changes |
| PlayerProperties.PrevAtStartOnlyPauses | script.js:322-330 | at index 0 or -1, previous only pauses: track, label and icon are unchanged |
| PlayerProperties.PrevStepsBack | script.js:322-330 | at index `k >= 1`, previous plays song `k-1` with autoplay |
| PlayerProperties.NextAtEndOnlyPauses | script.js:334-342 | at the last index, next only pauses |
| PlayerProperties.NextStepsForward | script.js:334-342 | before the last index, next plays song `k+1` with autoplay; a label matching no title makes it play song 0 |
| PlayerProperties.CurrentIndexAfterLoad | script.js:324-325 | after song `k` is loaded from a list whose titles are distinct, split cleanly and contain no `&`, `<`, `>` or U+00A0, the lookup finds `k` |
| PlayerProperties.AmpersandTitleIsMissed | script.js:322-342 | with "Rock & Roll" playing before "Amber", the lookup finds nothing, so next replays "Rock & Roll" and previous only pauses |
| PlayerProperties.AmpersandReadBack | script.js:324 | an ampersand in a title reads back as `&amp;` after the part of the title before it |
| PlayerProperties.PlayMusicOverrides | script.js:73-88 | a load overrides an earlier load and an earlier pause |
| PlayerProperties.NextAfterLoad | script.js:334-342 | next right after loading song `k` of such a list plays song `k+1` |
| PlayerProperties.PrevAfterLoad | script.js:322-330 | previous right after loading song `k` of such a list plays song `k-1` |
| PlayerProperties.NextThenPrev | script.js:322-342 | from a song with a successor, next then previous plays the original song again |
| PlayerProperties.PrevThenNext | script.js:322-342 | from a song with a predecessor, previous then next plays the original song again |
| PlayerProperties.SelectCardLoads | script.js:197-216 | a card click lists exactly that artist's catalog songs in catalog order and plays the first one; an artist with no songs changes nothing |
| PlayerProperties.StartOutcomeIff | script.js:179-187 | an empty catalog stops startup; startup succeeds exactly when the catalog has a "Fossils" song |
| PlayerProperties.StartLoadsDefault | script.js:179-187 | a stopped startup changes nothing; otherwise the first Fossils song is loaded paused with play.svg and exactly the Fossils songs are listed |
| PlayerProperties.SearchInputShows | script.js:238-256 | after typing, card `j` is displayed exactly when the trimmed, lower-cased input occurs in its lower-cased name |
| PlayerProperties.EscapeShowsAll | script.js:268-277 | Escape empties the input and displays every card, undoing any search; other keys do nothing |
| PlayerProperties.TimeUpdateReadsBack | script.js:299 | the time text reads back as the position, `" / "`, and the duration |
| PlayerProperties.InitialConsistent | script.js:6-9 | the page-load state is consistent and Idle |
| PlayerProperties.StartKeepsConsistent | script.js:176-187 | startup keeps the rows in step with the playlist, the playlist the catalog filtered by one artist (here "Fossils"), and the source a catalog URL |
| PlayerProperties.StepKeepsConsistent | script.js:153-342 | every listener keeps that consistency |
| PlayerProperties.StepKeepsArtistPlaylist | script.js:153-342 | every event leaves the catalog alone and keeps the playlist one artist's filtered songs: a card click switches to the card's artist, and every other event leaves the playlist unchanged |
| PlayerProperties.ConsistentPlaylistOrder | script.js:185 | in a consistent state the playlist is an order-preserving subsequence of the catalog holding exactly the catalog songs of one artist |
| Transitions.PlayMusic | script.js:73-88 | the `playMusic` transition; stated by `PlayMusicLoads` |
| Transitions.LoadSongs | script.js:127-150 | the `loadSongsInLibrary` transition; stated by `LoadSongsRenders` |
| Transitions.ClickRow | script.js:153-159 | a row click plays that song of `currentSongs`; stated by `LoadSongsRenders` |
| Transitions.StartOutcome | script.js:179-187 | how startup ends; stated by `StartOutcomeIff` |
| Transitions.Start | script.js:176-187 | the startup transition; stated by `StartLoadsDefault` |
| Transitions.SelectCard | script.js:197-216 | the card-click transition; stated by `SelectCardLoads` |
| Transitions.SearchInput | script.js:238-256 | the search-input transition; stated by `SearchInputShows` |
| Transitions.SearchKeyDown | script.js:268-277 | the search-keydown transition; stated by `EscapeShowsAll` |
| Transitions.TogglePlay | script.js:282-291 | the play-button transition; stated by `TogglePlayFlips` and `TogglePlayTwice` |
| Transitions.SeekClick | script.js:308-318 | the seek-click transition; stated by `SeekClickPlays` |
| Transitions.CurrentIndex | script.js:324-325 | the index previous and next take as current; stated by `CurrentIndexAfterLoad` and `AmpersandTitleIsMissed` |
| Transitions.Prev | script.js:322-330 | the previous-button transition; stated by `PrevAtStartOnlyPauses` and `PrevStepsBack` |
| Transitions.Next | script.js:334-342 | the next-button transition; stated by `NextAtEndOnlyPauses` and `NextStepsForward` |
| Transitions.TimeUpdate | script.js:295-300 | the `timeupdate` transition; stated by `TimeUpdateReadsBack` |
| Transitions.TrackEnded | script.js:6 | the element of `new Audio()` pausing itself at the end of a track; stated by `TrackEndedLeavesPauseIcon` |
| Transitions.Step | script.js:153-342 | dispatch of each event to its listener; `StepKeepsConsistent` states the invariant it keeps |
| MusicPlayer.Player.constructor | script.js:6-9 | a fresh `Audio` with no source, paused; an empty playlist; every card shown |
| MusicPlayer.Player.PlayMusic | script.js:73-88 | performs the `playMusic` transition |
| MusicPlayer.Player.LoadSongsInLibrary | script.js:127-150 | rebuilds the rows with a loop, one row per song, and makes the list current |
| MusicPlayer.Player.ClickRow | script.js:153-159 | row `i` plays song `i` of the rendered list with autoplay, and keeps consistency |
| MusicPlayer.Player.Start | script.js:176-187 | returns how startup ends and performs the startup transition |
| MusicPlayer.Player.SelectCard | script.js:197-216 | performs the card transition and keeps consistency |
| MusicPlayer.Player.OnSearchInput | script.js:238-256 | sets each card's display flag by the search rule |
| MusicPlayer.Player.ShowMatchingCards | script.js:242-255 | the `forEach` over the cards leaves each flag equal to the visibility rule for that card |
| MusicPlayer.Player.OnSearchKeyDown | script.js:268-277 | on Escape, clears the input and shows every card with a loop; other keys change nothing |
| MusicPlayer.Player.TogglePlay | script.js:282-291 | performs the play-button transition |
| MusicPlayer.Player.OnSeekClick | script.js:308-318 | performs the seek-click transport transition, returning early when the duration is not finite |
| MusicPlayer.Player.Prev | script.js:322-330 | pauses, looks up the title of the escaped label, and steps back when the index allows |
| MusicPlayer.Player.Next | script.js:334-342 | pauses, looks up the title of the escaped label, and steps forward when the index allows |
| MusicPlayer.Player.OnTimeUpdate | script.js:299 | writes the formatted position and duration |
| MusicPlayer.Player.OnTrackEnded | script.js:6 | the element pauses itself at the end of a playing track; the icon is left alone |

## Left out

- `fetchSongs` (network fetch, JSON parsing, console logging) is not modelled. The catalog is the argument of `Start`, and a failed fetch is the empty catalog.
- Console logging throughout is not modelled.
- The seek-bar arithmetic (`offsetX`, element width, the position assigned to `currentTime`) and the progress circle's position are not modelled, because they are floating point. A seek click keeps its paused-to-playing effect and whether the duration is finite; a zero-width bar, which would also make the position NaN, is not modelled.
- `OnTimeUpdate` takes whole seconds; the `timeupdate` percentage, fractional positions and a NaN or infinite duration are not modelled.
- `TimeFormat.FormatTime`: works on whole seconds with exact integer division and exact decimal digits. `script.js` divides in floating point and prints the minutes with JavaScript's number-to-string rules. Near 2^53 minutes and above, the quotient rounds and the printed digits are rounded, with exponent notation from 10^21. A fractional position just below a whole minute can also round up to that minute. None of this is modelled; the two agree for whole numbers of seconds below 2^40.
- Volume (`value / 100`, initial 1) and the hover show/hide with its `setTimeout` are UI timing with no logic, so they are not modelled.
- The hamburger menu, the sidebar closing on a card click, and the search box's `active` class (opened by its button, closed by an outside click or Escape) are view wiring with no data dependency, so they are not modelled.
- Audio decoding, the promise `play()` returns and its possible rejection, and the row markup built with `innerHTML` are not modelled; rows are (title, artist) pairs.
- Writing the label with `innerHTML` parses it as HTML. The model takes the written text as the element's text and escapes it on read-back. That is exact for text that contains no `<` starting a tag, no `&` starting a character reference, no CR and no NUL; tags, character references, CR normalisation and NUL removal in titles are not modelled.
- The audio element can pause itself in other ways than reaching the end of a track (for instance when its source is removed); only the end of a track is modelled, as `TrackEnded`. The `ended` and `pause` events it fires reach no listener in the script.
- The initial markup of the page is not part of this model. The constructor assumes the play icon, an empty label and time text, and every card displayed.
- Events that arrive before `main` has registered its listeners, or after startup stopped early, reach no listener. The listener methods require `listening`, and such events are not modelled as calls.
- `Text.Lower`: only ASCII `A`–`Z` are lower-cased. Full Unicode case mapping, including mappings that change length, is not modelled.
- `MusicPlayer.Player.ClickRow`: the listener's own guard `index < songsToLoad.length` is modelled as a check against `currentSongs`. That is the same array, and the guard always holds because the rows are built one per song.
