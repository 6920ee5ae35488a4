/**
 * Matching the tracks of a streaming playlist against the collection:
 * a strict pass on exact titles and a fuzzy pass on titles and artists.
 */
module CollectionSearch {
  import opened Wrappers
  import opened Sequences
  import opened PyStrings
  import opened CollectionImport

  /** One item of the playlist: the track's `name` and the `name` of each of its artists. */
  datatype PlaylistTrack = PlaylistTrack(name: string, artists: seq<string>)

  /** `fuzz.ratio`: a similarity score of two strings; its internals are not part of this model. */
  type Ratio = (string, string) -> int

  /** The artist compared against when an entry has no `@ARTIST`. */
  const UnknownArtist: string := "Unknown"

  /** The playlist track's artists as one string, `", ".join(...)`. */
  function JoinedArtists(track: PlaylistTrack): string {
    Join(track.artists, ", ")
  }

  /** The two-part test of the fuzzy pass: the score beats the threshold, or either string contains the other. */
  predicate Resembles(a: string, b: string, ratio: Ratio, fuzzyRatio: int) {
    ratio(a, b) > fuzzyRatio || Contains(b, a) || Contains(a, b)
  }

  /** The title test, on the lowercased names. */
  predicate TitleMatches(track: PlaylistTrack, title: string, ratio: Ratio, fuzzyRatio: int) {
    Resembles(Lower(track.name), Lower(title), ratio, fuzzyRatio)
  }

  /** The entry's artist as compared: lowercased `@ARTIST`, or `"Unknown"` as it stands. */
  function EntryArtist(entry: Entry): string {
    match entry.artist
    case Some(a) => Lower(a)
    case None => UnknownArtist
  }

  /** The artist test, on the lowercased joined artists. */
  predicate ArtistMatches(track: PlaylistTrack, entry: Entry, ratio: Ratio, fuzzyRatio: int) {
    Resembles(Lower(JoinedArtists(track)), EntryArtist(entry), ratio, fuzzyRatio)
  }

  /** A titled entry is appended for a track exactly when both tests hold. */
  predicate Accepts(track: PlaylistTrack, entry: Entry, ratio: Ratio, fuzzyRatio: int) {
    && entry.title.Some?
    && TitleMatches(track, entry.title.value, ratio, fuzzyRatio)
    && ArtistMatches(track, entry, ratio, fuzzyRatio)
  }

  /** The entries the inner loop appends for one track: every accepted entry, in collection order. */
  function TrackMatches(track: PlaylistTrack, collection: seq<Entry>, ratio: Ratio, fuzzyRatio: int): seq<Entry> {
    if collection == [] then []
    else
      var prev := TrackMatches(track, collection[..|collection| - 1], ratio, fuzzyRatio);
      var e := collection[|collection| - 1];
      if Accepts(track, e, ratio, fuzzyRatio) then prev + [e] else prev
  }

  /** `traktor_playlist`: the matches of all tracks, playlist-major. */
  function FuzzyMatches(playlist: seq<PlaylistTrack>, collection: seq<Entry>, ratio: Ratio, fuzzyRatio: int): seq<Entry> {
    if playlist == [] then []
    else
      FuzzyMatches(playlist[..|playlist| - 1], collection, ratio, fuzzyRatio)
      + TrackMatches(playlist[|playlist| - 1], collection, ratio, fuzzyRatio)
  }

  /** The fuzzy pass's list of matched entries and its `fuzzy_track_count`. */
  datatype FuzzyResult = FuzzyResult(traktorPlaylist: seq<Entry>, fuzzyTrackCount: nat)

  /** The `KeyError` raised by `entry['@TITLE']` for the entry at `index`. */
  datatype SearchError = EntryWithoutTitle(index: nat)

  /**
   * `fuzzy_search`: for every playlist track and every entry, in that
   * order, append the entry when both tests hold; there is no early exit.
   * It fails exactly when the playlist is non-empty and some entry has no
   * `@TITLE` (the first such entry is named); otherwise the list is
   * `FuzzyMatches` and its length is the count.
   */
  method FuzzySearch(playlist: seq<PlaylistTrack>, collection: seq<Entry>, ratio: Ratio, fuzzyRatio: int)
    returns (r: Result<FuzzyResult, SearchError>)
    ensures r.Failure? <==> |playlist| > 0 && FirstUntitled(collection).Some?
    ensures r.Failure? ==> r.error == EntryWithoutTitle(FirstUntitled(collection).value)
    ensures r.Success? ==>
      && r.value.traktorPlaylist == FuzzyMatches(playlist, collection, ratio, fuzzyRatio)
      && |r.value.traktorPlaylist| == r.value.fuzzyTrackCount
  {
    var traktorPlaylist: seq<Entry> := [];
    var fuzzyTrackCount: nat := 0;
    var i := 0;
    while i < |playlist|
      invariant 0 <= i <= |playlist|
      invariant i > 0 ==> FirstUntitled(collection).None?
      invariant traktorPlaylist == FuzzyMatches(playlist[..i], collection, ratio, fuzzyRatio)
      invariant |traktorPlaylist| == fuzzyTrackCount
    {
      FuzzyMatchesStep(playlist, i, collection, ratio, fuzzyRatio);
      var scanned := ScanCollection(playlist[i], collection, ratio, fuzzyRatio, traktorPlaylist, fuzzyTrackCount);
      if scanned.Failure? {
        return Failure(scanned.error);
      }
      traktorPlaylist, fuzzyTrackCount := scanned.value.traktorPlaylist, scanned.value.fuzzyTrackCount;
      i := i + 1;
    }
    assert playlist[..i] == playlist;
    return Success(FuzzyResult(traktorPlaylist, fuzzyTrackCount));
  }

  /**
   * The inner loop of `fuzzy_search` for one playlist track: every entry
   * that passes the title test and then the artist test is appended to the
   * list and counted. It fails at the first entry without `@TITLE`.
   */
  method ScanCollection(track: PlaylistTrack, collection: seq<Entry>, ratio: Ratio, fuzzyRatio: int,
                        traktorPlaylist: seq<Entry>, fuzzyTrackCount: nat)
    returns (r: Result<FuzzyResult, SearchError>)
    ensures r.Failure? <==> FirstUntitled(collection).Some?
    ensures r.Failure? ==> r.error == EntryWithoutTitle(FirstUntitled(collection).value)
    ensures r.Success? ==>
      && r.value.traktorPlaylist == traktorPlaylist + TrackMatches(track, collection, ratio, fuzzyRatio)
      && r.value.fuzzyTrackCount == fuzzyTrackCount + |TrackMatches(track, collection, ratio, fuzzyRatio)|
  {
    var found, count := traktorPlaylist, fuzzyTrackCount;
    var j := 0;
    while j < |collection|
      invariant 0 <= j <= |collection|
      invariant forall k :: 0 <= k < j ==> collection[k].title.Some?
      invariant found == traktorPlaylist + TrackMatches(track, collection[..j], ratio, fuzzyRatio)
      invariant count == fuzzyTrackCount + |TrackMatches(track, collection[..j], ratio, fuzzyRatio)|
    {
      var entry := collection[j];
      TrackMatchesStep(track, collection, j, ratio, fuzzyRatio);
      if entry.title.None? {
        assert FirstUntitled(collection) == Some(j);
        return Failure(EntryWithoutTitle(j));
      }
      // the title test, then the artist test
      if Accepts(track, entry, ratio, fuzzyRatio) {
        found := found + [entry];
        count := count + 1;
      }
      j := j + 1;
    }
    assert collection[..j] == collection;
    return Success(FuzzyResult(found, count));
  }

  lemma TrackMatchesStep(track: PlaylistTrack, collection: seq<Entry>, j: nat, ratio: Ratio, fuzzyRatio: int)
    requires j < |collection|
    ensures TrackMatches(track, collection[..j + 1], ratio, fuzzyRatio) ==
      TrackMatches(track, collection[..j], ratio, fuzzyRatio)
      + (if Accepts(track, collection[j], ratio, fuzzyRatio) then [collection[j]] else [])
  {
    assert collection[..j + 1][..j] == collection[..j];
  }

  lemma FuzzyMatchesStep(playlist: seq<PlaylistTrack>, i: nat, collection: seq<Entry>, ratio: Ratio, fuzzyRatio: int)
    requires i < |playlist|
    ensures FuzzyMatches(playlist[..i + 1], collection, ratio, fuzzyRatio) ==
      FuzzyMatches(playlist[..i], collection, ratio, fuzzyRatio) + TrackMatches(playlist[i], collection, ratio, fuzzyRatio)
  {
    assert playlist[..i + 1][..i] == playlist[..i];
  }

  /** The inner loop keeps exactly the accepted entries, in collection order. */
  lemma {:induction false} TrackMatchesIsFilter(track: PlaylistTrack, collection: seq<Entry>, ratio: Ratio, fuzzyRatio: int)
    ensures IsSubsequence(TrackMatches(track, collection, ratio, fuzzyRatio), collection)
    ensures forall e :: e in TrackMatches(track, collection, ratio, fuzzyRatio) <==> e in collection && Accepts(track, e, ratio, fuzzyRatio)
  {
    if collection != [] {
      var n := |collection| - 1;
      TrackMatchesIsFilter(track, collection[..n], ratio, fuzzyRatio);
      SubsequenceExtend(TrackMatches(track, collection[..n], ratio, fuzzyRatio), collection[..n], collection[n]);
      assert collection == collection[..n] + [collection[n]];
    }
  }

  /** The title and artist tests for `track`, as a predicate on entries. */
  function AcceptedBy(track: PlaylistTrack, ratio: Ratio, fuzzyRatio: int): Entry -> bool {
    e => Accepts(track, e, ratio, fuzzyRatio)
  }

  /** The positions of the entries accepted for `track`, in increasing order; one per match. */
  function TrackMatchIndices(track: PlaylistTrack, collection: seq<Entry>, ratio: Ratio, fuzzyRatio: int): (r: seq<nat>)
    ensures |r| == |TrackMatches(track, collection, ratio, fuzzyRatio)|
  {
    MatchCount(track, collection, ratio, fuzzyRatio);
    Positions(collection, AcceptedBy(track, ratio, fuzzyRatio))
  }

  /** There are as many accepted positions as matches. */
  lemma {:induction false} MatchCount(track: PlaylistTrack, collection: seq<Entry>, ratio: Ratio, fuzzyRatio: int)
    ensures |Positions(collection, AcceptedBy(track, ratio, fuzzyRatio))| == |TrackMatches(track, collection, ratio, fuzzyRatio)|
  {
    if collection != [] {
      var n := |collection| - 1;
      TrackMatchesStep(track, collection, n, ratio, fuzzyRatio);
      PositionsStep(collection, n, AcceptedBy(track, ratio, fuzzyRatio));
      assert collection[..n + 1] == collection;
      MatchCount(track, collection[..n], ratio, fuzzyRatio);
    }
  }

  /**
   * Position by position, the inner loop keeps every accepted entry:
   * match `k` is the entry at `TrackMatchIndices[k]`, the positions
   * increase, and every accepted position is among them, so an entry
   * that occurs twice in the collection and is accepted is kept twice.
   */
  lemma TrackMatchesIsSelection(track: PlaylistTrack, collection: seq<Entry>, ratio: Ratio, fuzzyRatio: int)
    ensures forall k :: 0 <= k < |TrackMatchIndices(track, collection, ratio, fuzzyRatio)| ==>
      TrackMatchIndices(track, collection, ratio, fuzzyRatio)[k] < |collection|
      && TrackMatches(track, collection, ratio, fuzzyRatio)[k] == collection[TrackMatchIndices(track, collection, ratio, fuzzyRatio)[k]]
    ensures forall k, m :: 0 <= k < m < |TrackMatchIndices(track, collection, ratio, fuzzyRatio)| ==>
      TrackMatchIndices(track, collection, ratio, fuzzyRatio)[k] < TrackMatchIndices(track, collection, ratio, fuzzyRatio)[m]
    ensures forall i :: 0 <= i < |collection| ==>
      (Accepts(track, collection[i], ratio, fuzzyRatio) <==> i in TrackMatchIndices(track, collection, ratio, fuzzyRatio))
  {
    PositionsFacts(collection, AcceptedBy(track, ratio, fuzzyRatio));
    MatchesAtPositions(track, collection, ratio, fuzzyRatio);
  }

  /** Match `k` is the entry at the `k`-th accepted position. */
  lemma {:induction false} MatchesAtPositions(track: PlaylistTrack, collection: seq<Entry>, ratio: Ratio, fuzzyRatio: int)
    ensures forall k :: 0 <= k < |TrackMatches(track, collection, ratio, fuzzyRatio)| ==>
      && TrackMatchIndices(track, collection, ratio, fuzzyRatio)[k] < |collection|
      && TrackMatches(track, collection, ratio, fuzzyRatio)[k] == collection[TrackMatchIndices(track, collection, ratio, fuzzyRatio)[k]]
  {
    if collection != [] {
      var n := |collection| - 1;
      var init := collection[..n];
      var p := AcceptedBy(track, ratio, fuzzyRatio);
      TrackMatchesStep(track, collection, n, ratio, fuzzyRatio);
      PositionsStep(collection, n, p);
      assert collection[..n + 1] == collection;
      MatchesAtPositions(track, init, ratio, fuzzyRatio);
      PositionsFacts(init, p);
      assert forall i :: 0 <= i < n ==> collection[i] == init[i];
    }
  }

  /**
   * Every entry in the fuzzy result is an entry of the collection that
   * passes both tests for some playlist track, and every such pair puts the
   * entry in the result: entries are only read and referenced, never built.
   */
  lemma {:induction false} FuzzyMatchesMembers(playlist: seq<PlaylistTrack>, collection: seq<Entry>, ratio: Ratio, fuzzyRatio: int)
    ensures forall e :: e in FuzzyMatches(playlist, collection, ratio, fuzzyRatio) <==>
      e in collection && exists t :: t in playlist && Accepts(t, e, ratio, fuzzyRatio)
  {
    if playlist != [] {
      var n := |playlist| - 1;
      FuzzyMatchesMembers(playlist[..n], collection, ratio, fuzzyRatio);
      TrackMatchesIsFilter(playlist[n], collection, ratio, fuzzyRatio);
      assert playlist == playlist[..n] + [playlist[n]];
    }
  }

  /** The result is playlist-major: the matches of `a + b` are those of `a` followed by those of `b`. */
  lemma {:induction false} FuzzyMatchesAppend(a: seq<PlaylistTrack>, b: seq<PlaylistTrack>, collection: seq<Entry>, ratio: Ratio, fuzzyRatio: int)
    ensures FuzzyMatches(a + b, collection, ratio, fuzzyRatio) ==
      FuzzyMatches(a, collection, ratio, fuzzyRatio) + FuzzyMatches(b, collection, ratio, fuzzyRatio)
    decreases |b|
  {
    if b == [] {
      assert a + b == a;
    } else {
      var n := |b| - 1;
      FuzzyMatchesAppend(a, b[..n], collection, ratio, fuzzyRatio);
      assert (a + b)[..|a + b| - 1] == a + b[..n];
    }
  }

  /**
   * The title and artist tests do not depend on the order of their two
   * strings when the score does not: containment is checked both ways.
   */
  lemma ResemblesSymmetric(a: string, b: string, ratio: Ratio, fuzzyRatio: int)
    requires ratio(a, b) == ratio(b, a)
    ensures Resembles(a, b, ratio, fuzzyRatio) <==> Resembles(b, a, ratio, fuzzyRatio)
  {
  }

  /**
   * A playlist track whose name and artists equal an entry's title and
   * artist up to ASCII case is always accepted, whatever the score and the
   * threshold.
   */
  lemma ExactMatchAccepted(track: PlaylistTrack, entry: Entry, ratio: Ratio, fuzzyRatio: int)
    requires entry.title.Some? && Lower(track.name) == Lower(entry.title.value)
    requires entry.artist.Some? && Lower(JoinedArtists(track)) == Lower(entry.artist.value)
    ensures Accepts(track, entry, ratio, fuzzyRatio)
  {
    var t, a := Lower(track.name), Lower(JoinedArtists(track));
    assert OccursAt(t, t, 0);
    assert OccursAt(a, a, 0);
  }

  /** Either title containing the other makes the title test hold, whatever the score. */
  lemma TitleContainmentSuffices(track: PlaylistTrack, title: string, ratio: Ratio, fuzzyRatio: int)
    requires Contains(Lower(title), Lower(track.name)) || Contains(Lower(track.name), Lower(title))
    ensures TitleMatches(track, title, ratio, fuzzyRatio)
  {
  }

  /** Lowercasing leaves no upper-case `U`. */
  lemma {:induction false} LowerHasNoCapitalU(s: string)
    ensures 'U' !in Lower(s)
  {
    forall k | 0 <= k < |s|
      ensures Lower(s)[k] != 'U'
    {
    }
  }

  /**
   * The artist an entry is compared with is its lowercased `@ARTIST` when
   * present; it is `"Unknown"` exactly when `@ARTIST` is missing, since no
   * lowercased artist can equal that capitalised literal.
   */
  lemma EntryArtistCases(entry: Entry)
    ensures entry.artist.Some? ==> EntryArtist(entry) == Lower(entry.artist.value)
    ensures EntryArtist(entry) == UnknownArtist <==> entry.artist.None?
  {
    if entry.artist.Some? {
      LowerHasNoCapitalU(entry.artist.value);
      assert UnknownArtist[0] == 'U';
    }
  }

  /**
   * For an entry without `@ARTIST` the literal `"Unknown"` is never
   * lowercased, and a lowercased artist string can never contain it; so
   * such an entry passes the artist test exactly when the score beats the
   * threshold or the lowercased joined artists lie inside `"Unknown"`.
   */
  lemma ArtistlessEntryTest(track: PlaylistTrack, entry: Entry, ratio: Ratio, fuzzyRatio: int)
    requires entry.artist.None?
    ensures ArtistMatches(track, entry, ratio, fuzzyRatio) <==>
      ratio(Lower(JoinedArtists(track)), UnknownArtist) > fuzzyRatio || Contains(UnknownArtist, Lower(JoinedArtists(track)))
  {
    var artists := Lower(JoinedArtists(track));
    LowerHasNoCapitalU(artists);
    if Contains(artists, UnknownArtist) {
      var k := IndexOf(artists, UnknownArtist).value;
      OccursAtChar(artists, UnknownArtist, k, k);
    }
  }

  /**
   * A playlist track without artists joins to `""`, which `"Unknown"`
   * contains, so it passes the artist test against every entry without `@ARTIST`.
   */
  lemma NoArtistsMatchArtistless(track: PlaylistTrack, entry: Entry, ratio: Ratio, fuzzyRatio: int)
    requires track.artists == [] && entry.artist.None?
    ensures ArtistMatches(track, entry, ratio, fuzzyRatio)
  {
    assert Lower(JoinedArtists(track)) == "";
    assert OccursAt(UnknownArtist, "", 0);
  }

  /**
   * There is no early exit: one playlist track collects every entry that
   * passes, and an entry matched by two tracks appears twice.
   */
  lemma NoEarlyExit(ratio: Ratio, fuzzyRatio: int)
    ensures var track := PlaylistTrack("levels", ["avicii"]);
      var first := Entry(Some("Levels"), Some("Avicii"), None);
      var second := Entry(Some("Levels (Radio Edit)"), Some("Avicii"), None);
      && FuzzyMatches([track], [first, second], ratio, fuzzyRatio) == [first, second]
      && FuzzyMatches([track, track], [first], ratio, fuzzyRatio) == [first, first]
  {
    var track := PlaylistTrack("levels", ["avicii"]);
    var first := Entry(Some("Levels"), Some("Avicii"), None);
    var second := Entry(Some("Levels (Radio Edit)"), Some("Avicii"), None);
    assert Lower("levels") == "levels";
    assert Lower("Levels") == "levels";
    assert Lower("avicii") == "avicii";
    assert Lower("Avicii") == "avicii";
    assert JoinedArtists(track) == "avicii";
    assert OccursAt("levels", "levels", 0);
    assert OccursAt("avicii", "avicii", 0);
    assert Accepts(track, first, ratio, fuzzyRatio);
    var secondTitle := Lower("Levels (Radio Edit)");
    assert secondTitle[..6] == "levels";
    assert OccursAt(secondTitle, "levels", 0);
    assert Accepts(track, second, ratio, fuzzyRatio);
    assert [first, second][..1] == [first];
    assert [first][..0] == [];
    assert TrackMatches(track, [first], ratio, fuzzyRatio) == [first];
    assert TrackMatches(track, [first, second], ratio, fuzzyRatio) == [first, second];
    assert [track][..0] == [];
    assert [track, track][..1] == [track];
    assert FuzzyMatches([track], [first], ratio, fuzzyRatio) == [first];
  }

  /** The first position in the collection whose `title` equals `name`, compared exactly. */
  function FirstTitleMatch(name: string, collection: seq<Track>): (r: Option<nat>)
    ensures r.Some? ==>
      && r.value < |collection| && collection[r.value].title == name
      && forall k :: 0 <= k < r.value ==> collection[k].title != name
    ensures r.None? <==> forall k :: 0 <= k < |collection| ==> collection[k].title != name
  {
    if collection == [] then None
    else if collection[0].title == name then Some(0)
    else
      match FirstTitleMatch(name, collection[1..])
      case None => None
      case Some(k) => Some(k + 1)
  }

  /** The line written to the strict file for a matched track. */
  function LocationLine(location: string): string {
    "Location: " + location + "\n"
  }

  /** The location line gives back the location: distinct locations give distinct lines. */
  lemma LocationLineInjective(a: string, b: string)
    ensures LocationLine(a) == LocationLine(b) <==> a == b
  {
    if LocationLine(a) == LocationLine(b) {
      assert LocationLine(a)[10..|LocationLine(a)| - 1] == a;
      assert LocationLine(b)[10..|LocationLine(b)| - 1] == b;
    }
  }

  /** The lines the strict pass writes: the location of each track's first title match, playlist order. */
  /** The lines one track contributes: its location line, or none. */
  function TrackLines(track: PlaylistTrack, collection: seq<Track>): seq<string> {
    match FirstTitleMatch(track.name, collection)
    case Some(k) => [LocationLine(collection[k].location)]
    case None => []
  }

  function StrictLines(playlist: seq<PlaylistTrack>, collection: seq<Track>): seq<string> {
    if playlist == [] then []
    else StrictLines(playlist[..|playlist| - 1], collection) + TrackLines(playlist[|playlist| - 1], collection)
  }

  /** Some entry of the collection has exactly the title `name`. */
  predicate InCollection(name: string, collection: seq<Track>) {
    exists k :: 0 <= k < |collection| && collection[k].title == name
  }

  /** The number of playlist tracks whose name is the title of some entry. */
  function CountFound(playlist: seq<PlaylistTrack>, collection: seq<Track>): nat {
    if playlist == [] then 0
    else CountFound(playlist[..|playlist| - 1], collection) + (if InCollection(playlist[|playlist| - 1].name, collection) then 1 else 0)
  }

  /**
   * `strict_search`: for each playlist track, scan the collection and stop
   * at the first entry whose title equals the track name, writing its
   * location. The lines are `StrictLines`, and `track_count` is their number,
   * which is the number of playlist tracks found in the collection.
   */
  method StrictSearch(playlist: seq<PlaylistTrack>, collection: seq<Track>) returns (lines: seq<string>, trackCount: nat)
    ensures lines == StrictLines(playlist, collection)
    ensures trackCount == |lines| == CountFound(playlist, collection)
  {
    lines := [];
    trackCount := 0;
    var i := 0;
    while i < |playlist|
      invariant 0 <= i <= |playlist|
      invariant lines == StrictLines(playlist[..i], collection)
      invariant trackCount == |lines| == CountFound(playlist[..i], collection)
    {
      var track := playlist[i];
      assert playlist[..i + 1][..i] == playlist[..i];
      var j := 0;
      while j < |collection|
        invariant 0 <= j <= |collection|
        invariant forall k :: 0 <= k < j ==> collection[k].title != track.name
        invariant lines == StrictLines(playlist[..i], collection)
        invariant trackCount == |lines|
      {
        if track.name == collection[j].title {
          lines := lines + [LocationLine(collection[j].location)];
          trackCount := trackCount + 1;
          break;
        }
        j := j + 1;
      }
      i := i + 1;
    }
    assert playlist[..i] == playlist;
  }

  /** The lines are in playlist order: those for `a + b` are those for `a` followed by those for `b`. */
  lemma {:induction false} StrictLinesAppend(a: seq<PlaylistTrack>, b: seq<PlaylistTrack>, collection: seq<Track>)
    ensures StrictLines(a + b, collection) == StrictLines(a, collection) + StrictLines(b, collection)
    decreases |b|
  {
    if b == [] {
      assert a + b == a;
    } else {
      var init, t := b[..|b| - 1], b[|b| - 1];
      assert a + b == (a + init) + [t];
      assert b == init + [t];
      StrictLinesSnoc(a + init, t, collection);
      StrictLinesSnoc(init, t, collection);
      StrictLinesAppend(a, init, collection);
      AppendAssoc(StrictLines(a, collection), StrictLines(init, collection), TrackLines(t, collection));
    }
  }

  lemma StrictLinesSnoc(playlist: seq<PlaylistTrack>, track: PlaylistTrack, collection: seq<Track>)
    ensures StrictLines(playlist + [track], collection) == StrictLines(playlist, collection) + TrackLines(track, collection)
  {
    assert (playlist + [track])[..|playlist|] == playlist;
  }

  /** The strict pass writes at most one line per playlist track. */
  lemma {:induction false} StrictAtMostOnePerTrack(playlist: seq<PlaylistTrack>, collection: seq<Track>)
    ensures |StrictLines(playlist, collection)| == CountFound(playlist, collection) <= |playlist|
  {
    if playlist != [] {
      StrictAtMostOnePerTrack(playlist[..|playlist| - 1], collection);
    }
  }

  /**
   * A line is written exactly when some playlist track's first exact title
   * match in the collection is an entry with that location.
   */
  lemma {:induction false} StrictLinesMembers(playlist: seq<PlaylistTrack>, collection: seq<Track>)
    ensures forall line :: line in StrictLines(playlist, collection) <==>
      exists t, k :: t in playlist && FirstTitleMatch(t.name, collection) == Some(k) && line == LocationLine(collection[k].location)
  {
    if playlist != [] {
      var n := |playlist| - 1;
      StrictLinesMembers(playlist[..n], collection);
      assert playlist == playlist[..n] + [playlist[n]];
    }
  }

  /**
   * The strict comparison is exact and case-sensitive: a playlist track
   * `Levels` is found in a collection holding `Levels`, and `levels` is not.
   */
  lemma StrictIsCaseSensitive()
    ensures var collection := [Track("Levels", Some("Avicii"), "C/Music/levels.mp3")];
      && StrictLines([PlaylistTrack("Levels", ["Avicii"])], collection) == ["Location: C/Music/levels.mp3\n"]
      && StrictLines([PlaylistTrack("levels", ["Avicii"])], collection) == []
  {
    var collection := [Track("Levels", Some("Avicii"), "C/Music/levels.mp3")];
    assert [PlaylistTrack("Levels", ["Avicii"])][..0] == [];
    assert FirstTitleMatch("Levels", collection) == Some(0);
    assert LocationLine("C/Music/levels.mp3") == "Location: C/Music/levels.mp3\n";
    assert [PlaylistTrack("levels", ["Avicii"])][..0] == [];
    assert FirstTitleMatch("levels", collection) == None by {
      assert collection[0].title != "levels" by {
        assert collection[0].title[0] != ("levels")[0];
      }
    }
  }
}
