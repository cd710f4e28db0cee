/** Song records, the now-playing label, the library rows, and the two
    list operations the player runs on the catalog: `filter` by artist and
    `findIndex` by title. */
module Tracks {
  import opened Text

  /** One entry of the song catalog. */
  datatype Track = Track(title: string, artist: string, audioUrl: string)

  /** One rendered `.songRow` of the library list: the `.name` and `.artist`
      texts it shows. */
  datatype Row = Row(title: string, artist: string)

  /** The separator between title and artist in the `.songinfo` label. */
  const Separator: string := " - "

  /** The `.songinfo` text `playMusic` writes for `t`. */
  function Label(t: Track): string {
    t.title + Separator + t.artist
  }

  /** `info.split(" - ")[0]` for the `.songinfo` text `info`: the text
      before the first occurrence of the separator, or all of `info` when it
      has none. */
  function LabelTitle(info: string): (r: string)
    ensures |r| <= |info| && r == info[..|r|]
    ensures forall i :: 0 <= i < |r| ==> !OccursAt(info, Separator, i)
    ensures |r| == |info| || OccursAt(info, Separator, |r|)
  {
    if |info| < |Separator| then info
    else if info[..|Separator|] == Separator then ""
    else
      var rest := LabelTitle(info[1..]);
      OccursShift(info, Separator);
      [info[0]] + rest
  }

  /** A title the info lookup recovers: no separator starts inside it, not
      even one that runs on into the separator the info appends. */
  predicate SplitsCleanly(title: string) {
    forall i :: 0 <= i < |title| ==> !OccursAt(title + Separator, Separator, i)
  }

  /** The separator occurs at `i` exactly when its three characters do. */
  lemma SeparatorAt(s: string, i: int)
    ensures OccursAt(s, Separator, i) <==>
      0 <= i && i + 3 <= |s| && s[i] == ' ' && s[i + 1] == '-' && s[i + 2] == ' '
  {
    if 0 <= i && i + 3 <= |s| && s[i] == ' ' && s[i + 1] == '-' && s[i + 2] == ' ' {
      assert s[i..i + 3] == Separator;
    }
    if OccursAt(s, Separator, i) {
      assert s[i..i + 3][0] == ' ' && s[i..i + 3][1] == '-' && s[i..i + 3][2] == ' ';
    }
  }

  /** A title splits cleanly exactly when it does not include `" - "` and
      does not end in `" -"`. */
  lemma SplitsCleanlyIff(title: string)
    ensures SplitsCleanly(title) <==>
      !Contains(title, Separator) && !(|title| >= 2 && title[|title| - 2..] == " -")
  {
    ContainsIff(title, Separator);
    if exists i :: OccursAt(title, Separator, i) {
      var i :| OccursAt(title, Separator, i);
      InnerSeparatorSplits(title, i);
    }
    var n := |title|;
    if n >= 2 && title[n - 2..] == " -" {
      TrailingDashSplits(title);
    }
    if !SplitsCleanly(title) {
      var i :| 0 <= i < n && OccursAt(title + Separator, Separator, i);
      UncleanSplitCause(title, i);
    }
  }

  /** A separator inside the title is one inside its label. */
  lemma InnerSeparatorSplits(title: string, i: int)
    requires OccursAt(title, Separator, i)
    ensures 0 <= i < |title| && OccursAt(title + Separator, Separator, i)
  {
    SeparatorAt(title, i);
    SeparatorAt(title + Separator, i);
  }

  /** A title ending in `" -"` runs on into the appended separator. */
  lemma TrailingDashSplits(title: string)
    requires |title| >= 2 && title[|title| - 2..] == " -"
    ensures OccursAt(title + Separator, Separator, |title| - 2)
  {
    var n := |title|;
    assert title[n - 2] == title[n - 2..][0] && title[n - 1] == title[n - 2..][1];
    SeparatorAt(title + Separator, n - 2);
  }

  /** A separator that starts inside the title lies wholly in it or is
      formed by a trailing `" -"`. */
  lemma UncleanSplitCause(title: string, i: int)
    requires 0 <= i < |title| && OccursAt(title + Separator, Separator, i)
    ensures OccursAt(title, Separator, i) || (|title| >= 2 && title[|title| - 2..] == " -")
  {
    var l := title + Separator;
    var n := |title|;
    SeparatorAt(l, i);
    if i + 3 <= n {
      SeparatorAt(title, i);
    } else {
      assert l[n] == ' ';
      assert title[n - 2..] == [l[n - 2], l[n - 1]];
    }
  }

  /** The title part of a track's own label is its title exactly when the
      title splits cleanly. */
  lemma LabelTitleOfLabel(t: Track)
    ensures LabelTitle(Label(t)) == t.title <==> SplitsCleanly(t.title)
  {
    var l := Label(t);
    var r := LabelTitle(l);
    forall j | 0 <= j < |t.title|
      ensures OccursAt(l, Separator, j) <==> OccursAt(t.title + Separator, Separator, j)
    {
      LabelStartsWithTitlePart(t, j);
    }
    if SplitsCleanly(t.title) {
      SeparatorAt(l, |t.title|);
      assert |r| == |t.title|;
      assert r == l[..|t.title|];
    }
  }

  /** Up to the end of its separator, a label is the title followed by the
      separator, so the separators starting inside the title are the same. */
  lemma LabelStartsWithTitlePart(t: Track, j: int)
    requires 0 <= j < |t.title|
    ensures OccursAt(Label(t), Separator, j) <==> OccursAt(t.title + Separator, Separator, j)
  {
    var l := Label(t);
    var m := t.title + Separator;
    assert l == m + t.artist;
    assert j + 3 <= |m|;
    assert l[j] == m[j] && l[j + 1] == m[j + 1] && l[j + 2] == m[j + 2];
    SeparatorAt(l, j);
    SeparatorAt(m, j);
  }

  /** The lookup reads the label back through `innerHTML`. A cleanly
      splitting title without characters the serialisation escapes is
      recovered from that read-back, whatever the artist. */
  lemma ReadBackTitle(t: Track)
    requires SplitsCleanly(t.title)
    requires forall i :: 0 <= i < |t.title| ==> HtmlInert(t.title[i])
    ensures LabelTitle(EscapeHtml(Label(t))) == t.title
  {
    EscapeHtmlAppend(t.title + Separator, t.artist);
    EscapeHtmlAppend(t.title, Separator);
    EscapeHtmlInert(t.title);
    EscapeHtmlInert(Separator);
    var shown := Track(t.title, EscapeHtml(t.artist), t.audioUrl);
    assert EscapeHtml(Label(t)) == Label(shown);
    LabelTitleOfLabel(shown);
  }

  /** A title ending in `" -"` is cut short by the lookup: the label of
      "Intro -" by Fossils splits to "Intro", which no song of a list holding
      only that track is titled. */
  lemma LabelTitleCutsTrailingDash()
    ensures LabelTitle(Label(Track("Intro -", "Fossils", "intro.mp3"))) == "Intro"
    ensures FirstIndexOfTitle([Track("Intro -", "Fossils", "intro.mp3")],
                              LabelTitle(Label(Track("Intro -", "Fossils", "intro.mp3")))) == -1
  {
    var t := Track("Intro -", "Fossils", "intro.mp3");
    var l := Label(t);
    TrailingDashSplits(t.title);
    LabelStartsWithTitlePart(t, 5);
    var r := LabelTitle(l);
    assert |r| <= 5;
    forall i | 0 <= i < 5 ensures !OccursAt(l, Separator, i) {
      SeparatorAt(l, i);
      assert l[i] == t.title[i];
    }
    assert r == l[..5] == t.title[..5];
    assert r != t.title;
  }

  /** `songs.findIndex(song => song.title === title)`: the first index whose
      title matches, or -1 when none does. */
  function FirstIndexOfTitle(songs: seq<Track>, title: string): (k: int)
    ensures -1 <= k < |songs|
    ensures 0 <= k ==> songs[k].title == title
    ensures forall j :: 0 <= j < |songs| && (k == -1 || j < k) ==> songs[j].title != title
  {
    if songs == [] then -1
    else if songs[0].title == title then 0
    else
      var k := FirstIndexOfTitle(songs[1..], title);
      if k == -1 then -1 else k + 1
  }

  /** No two songs of the list share a title. */
  predicate DistinctTitles(songs: seq<Track>) {
    forall i, j :: 0 <= i < j < |songs| ==> songs[i].title != songs[j].title
  }

  /** With distinct titles the lookup finds each song at its own index. */
  lemma FirstIndexOfDistinct(songs: seq<Track>, i: nat)
    requires DistinctTitles(songs) && i < |songs|
    ensures FirstIndexOfTitle(songs, songs[i].title) == i
  {
  }

  /** `catalog.filter(song => song.artist === artist)`. */
  function ByArtist(catalog: seq<Track>, artist: string): seq<Track> {
    if catalog == [] then []
    else (if catalog[0].artist == artist then [catalog[0]] else []) + ByArtist(catalog[1..], artist)
  }

  /** A song is in the filtered list exactly when it is in the catalog and
      has the artist. */
  lemma {:induction false} ByArtistMembers(catalog: seq<Track>, artist: string, t: Track)
    ensures t in ByArtist(catalog, artist) <==> t in catalog && t.artist == artist
  {
    if catalog != [] {
      ByArtistMembers(catalog[1..], artist, t);
      assert catalog == [catalog[0]] + catalog[1..];
    }
  }

  /** Filtering a concatenation filters each part and keeps them in order. */
  lemma {:induction false} ByArtistAppend(x: seq<Track>, y: seq<Track>, artist: string)
    ensures ByArtist(x + y, artist) == ByArtist(x, artist) + ByArtist(y, artist)
  {
    if x == [] {
      assert x + y == y;
    } else {
      var head := if x[0].artist == artist then [x[0]] else [];
      assert (x + y)[0] == x[0] && (x + y)[1..] == x[1..] + y;
      ByArtistAppend(x[1..], y, artist);
      calc {
        ByArtist(x + y, artist);
        head + ByArtist(x[1..] + y, artist);
        head + (ByArtist(x[1..], artist) + ByArtist(y, artist));
        (head + ByArtist(x[1..], artist)) + ByArtist(y, artist);
        ByArtist(x, artist) + ByArtist(y, artist);
      }
    }
  }

  /** Each song keeps its multiplicity when it has the artist and is dropped
      otherwise. */
  lemma {:induction false} ByArtistCount(catalog: seq<Track>, artist: string, t: Track)
    ensures multiset(ByArtist(catalog, artist))[t] ==
      if t.artist == artist then multiset(catalog)[t] else 0
  {
    if catalog != [] {
      ByArtistCount(catalog[1..], artist, t);
      assert catalog == [catalog[0]] + catalog[1..];
    }
  }

  /** `xs` can be obtained from `ys` by deleting elements. */
  predicate IsSubsequence(xs: seq<Track>, ys: seq<Track>)
    decreases |ys|
  {
    xs == [] ||
    (ys != [] && if xs[0] == ys[0] then IsSubsequence(xs[1..], ys[1..]) else IsSubsequence(xs, ys[1..]))
  }

  /** The filtered list is an order-preserving subsequence of the catalog. */
  lemma {:induction false} ByArtistSubsequence(catalog: seq<Track>, artist: string)
    ensures IsSubsequence(ByArtist(catalog, artist), catalog)
  {
    if catalog != [] {
      var r := ByArtist(catalog, artist);
      ByArtistSubsequence(catalog[1..], artist);
      if catalog[0].artist == artist {
        assert r == [catalog[0]] + ByArtist(catalog[1..], artist);
        assert r[0] == catalog[0] && r[1..] == ByArtist(catalog[1..], artist);
      } else {
        assert r == ByArtist(catalog[1..], artist);
        if r != [] {
          ByArtistMembers(catalog[1..], artist, r[0]);
          assert r[0] != catalog[0];
        }
      }
    }
  }

  /** The rendered row for one song. */
  function RowOf(t: Track): Row {
    Row(t.title, t.artist)
  }

  /** The rows `loadSongsInLibrary` renders: one per song, in order. */
  function RowsOf(songs: seq<Track>): (rows: seq<Row>)
    ensures |rows| == |songs|
    ensures forall i :: 0 <= i < |songs| ==> rows[i] == Row(songs[i].title, songs[i].artist)
  {
    if songs == [] then [] else RowsOf(songs[..|songs| - 1]) + [RowOf(songs[|songs| - 1])]
  }
}
