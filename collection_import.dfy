/**
 * Loading a DJ collection: the parsed `ENTRY` records of the collection
 * document become track records, with the file location normalised; and
 * writing those track records back out as XML text.
 */
module CollectionImport {
  import opened Wrappers
  import opened Sequences
  import opened PyStrings

  /** The `LOCATION` element of an entry; an attribute missing from the document is `None`. */
  datatype Location = Location(volume: Option<string>, dir: Option<string>, file: Option<string>)

  /** One parsed `ENTRY` element: its `@TITLE` and `@ARTIST` attributes and its `LOCATION` child. */
  datatype Entry = Entry(title: Option<string>, artist: Option<string>, location: Option<Location>)

  /** A loaded track: the `title`, optional `artist` and `location` keys of the track dictionary. */
  datatype Track = Track(title: string, artist: Option<string>, location: string)

  /** The whole load: the tracks, the number of entries that failed, and the lines appended to the error file. */
  datatype Loaded = Loaded(collection: seq<Track>, totalErrors: nat, errorLog: seq<string>)

  /** The `KeyError` that escapes the error handler when entry `index` has no `@TITLE`. */
  datatype LoadError = MissingTitle(index: nat)

  /**
   * `clean_loc`: strip the surrounding whitespace, then delete every colon.
   * The result holds no colon, is no longer than the input, and is the
   * stripped input with exactly its colons removed, in order.
   */
  function CleanLoc(location: string): (r: string)
    ensures ':' !in r
    ensures |r| <= |location|
    ensures forall c :: c != ':' ==> multiset(r)[c] == multiset(Strip(location))[c]
    ensures IsSubsequence(r, Strip(location))
  {
    RemoveChar(Strip(location), ':')
  }

  /**
   * Stripping comes before colon removal, so whitespace behind a leading
   * colon survives, and cleaning twice is not the same as cleaning once.
   */
  lemma CleanLocKeepsSpaceAfterColon()
    ensures CleanLoc(": a") == " a"
    ensures CleanLoc(CleanLoc(": a")) == "a" != CleanLoc(": a")
  {
    assert LeadingSpaces(": a") == 0;
    assert TrailingSpaces(": a") == 0;
    assert Strip(": a") == ": a";
    assert RemoveChar(": a", ':') == " a" by {
      assert (": a")[1..] == " a";
      assert (" a")[1..] == "a";
      assert ("a")[1..] == "";
    }
    assert LeadingSpaces(" a") == 1 by {
      assert (" a")[1..] == "a";
    }
    assert Strip(" a") == "a" by {
      assert (" a")[1..] == "a";
    }
    assert RemoveChar("a", ':') == "a" by {
      assert ("a")[1..] == "";
    }
  }

  /** Every key the `try` block reads is present: `@TITLE`, `LOCATION` and its `@DIR`, `@FILE` and `@VOLUME`. */
  predicate Readable(e: Entry) {
    && e.title.Some? && e.location.Some?
    && e.location.value.volume.Some? && e.location.value.dir.Some? && e.location.value.file.Some?
  }

  /**
   * The body of the `try` block for an entry whose keys are all present:
   * the title, the artist when present, and the location.
   */
  function BuildTrack(e: Entry): Track
    requires Readable(e)
  {
    var loc := e.location.value;
    Track(e.title.value, e.artist, loc.volume.value + CleanLoc(loc.dir.value + loc.file.value))
  }

  /**
   * The location of a built track starts with `@VOLUME` exactly as it
   * stands, colons included, and the rest is free of colons: only the
   * `@DIR + @FILE` part is cleaned.
   */
  lemma BuildTrackLocation(e: Entry)
    requires Readable(e)
    ensures var volume := e.location.value.volume.value;
      && |volume| <= |BuildTrack(e).location|
      && BuildTrack(e).location[..|volume|] == volume
      && ':' !in BuildTrack(e).location[|volume|..]
  {
    var volume := e.location.value.volume.value;
    var rest := CleanLoc(e.location.value.dir.value + e.location.value.file.value);
    assert BuildTrack(e).location == volume + rest;
    assert (volume + rest)[|volume|..] == rest;
  }

  /** The collection the loop builds from `entries`: the track of every readable entry, in order. */
  function LoadedTracks(entries: seq<Entry>): (r: seq<Track>)
    ensures |r| <= |entries|
  {
    if entries == [] then []
    else
      var prev := LoadedTracks(entries[..|entries| - 1]);
      var e := entries[|entries| - 1];
      if Readable(e) then prev + [BuildTrack(e)] else prev
  }

  /** The positions of the readable entries, in increasing order; one per loaded track. */
  function LoadedIndices(entries: seq<Entry>): (r: seq<nat>)
    ensures |r| == |LoadedTracks(entries)|
  {
    LoadedCount(entries);
    Positions(entries, Readable)
  }

  /** There are as many readable positions as loaded tracks. */
  lemma {:induction false} LoadedCount(entries: seq<Entry>)
    ensures |Positions(entries, Readable)| == |LoadedTracks(entries)|
  {
    if entries != [] {
      var n := |entries| - 1;
      TracksStep(entries, n);
      PositionsStep(entries, n, Readable);
      assert entries[..n + 1] == entries;
      LoadedCount(entries[..n]);
    }
  }

  /** The position of the first entry without `@TITLE`, if there is one. */
  function FirstUntitled(entries: seq<Entry>): (r: Option<nat>)
    ensures r.Some? ==>
      && r.value < |entries| && entries[r.value].title.None?
      && forall k :: 0 <= k < r.value ==> entries[k].title.Some?
    ensures r.None? <==> forall k :: 0 <= k < |entries| ==> entries[k].title.Some?
  {
    if entries == [] then None
    else if entries[0].title.None? then Some(0)
    else
      match FirstUntitled(entries[1..])
      case None => None
      case Some(k) => Some(k + 1)
  }

  /** The line written to the error file for a failing entry that has a title. */
  function ErrorLine(title: string): string {
    "Error writing track to file: " + title + "\n"
  }

  /** The error line gives back the title it was written for: distinct titles give distinct lines. */
  lemma ErrorLineInjective(a: string, b: string)
    ensures ErrorLine(a) == ErrorLine(b) <==> a == b
  {
    if ErrorLine(a) == ErrorLine(b) {
      assert ErrorLine(a)[29..|ErrorLine(a)| - 1] == a;
      assert ErrorLine(b)[29..|ErrorLine(b)| - 1] == b;
    }
  }

  /**
   * The lines appended to the error file while loading `entries`: one for
   * each entry that is not readable but has a title (for an untitled entry
   * the handler raises before it writes).
   */
  function ErrorLog(entries: seq<Entry>): seq<string> {
    if entries == [] then []
    else
      var prev := ErrorLog(entries[..|entries| - 1]);
      var e := entries[|entries| - 1];
      if Readable(e) || e.title.None? then prev else prev + [ErrorLine(e.title.value)]
  }

  /** Some key the `try` block reads is missing. */
  predicate Unreadable(e: Entry) {
    !Readable(e)
  }

  /** The positions of the entries that are not readable, in increasing order. */
  function FailedIndices(entries: seq<Entry>): seq<nat> {
    Positions(entries, Unreadable)
  }

  /** One more entry adds its track exactly when it is readable. */
  lemma TracksStep(entries: seq<Entry>, i: nat)
    requires i < |entries|
    ensures Readable(entries[i]) ==> LoadedTracks(entries[..i + 1]) == LoadedTracks(entries[..i]) + [BuildTrack(entries[i])]
    ensures !Readable(entries[i]) ==> LoadedTracks(entries[..i + 1]) == LoadedTracks(entries[..i])
  {
    assert entries[..i + 1][..i] == entries[..i];
  }

  /** One more titled entry extends the error lines by one exactly when it is not readable. */
  lemma ErrorLogStep(entries: seq<Entry>, i: nat)
    requires i < |entries| && entries[i].title.Some?
    ensures Readable(entries[i]) ==> ErrorLog(entries[..i + 1]) == ErrorLog(entries[..i])
    ensures !Readable(entries[i]) ==> ErrorLog(entries[..i + 1]) == ErrorLog(entries[..i]) + [ErrorLine(entries[i].title.value)]
  {
    assert entries[..i + 1][..i] == entries[..i];
  }

  /** With every entry titled, error line `k` names the title of the entry at failed position `k`. */
  lemma {:induction false} ErrorLogFollowsFailed(entries: seq<Entry>)
    requires forall k :: 0 <= k < |entries| ==> entries[k].title.Some?
    ensures |ErrorLog(entries)| == |FailedIndices(entries)|
    ensures |ErrorLog(entries)| + |LoadedTracks(entries)| == |entries|
    ensures forall k :: 0 <= k < |FailedIndices(entries)| ==>
      FailedIndices(entries)[k] < |entries| &&
      ErrorLog(entries)[k] == ErrorLine(entries[FailedIndices(entries)[k]].title.value)
  {
    if entries != [] {
      var n := |entries| - 1;
      var init := entries[..n];
      TracksStep(entries, n);
      PositionsStep(entries, n, Unreadable);
      ErrorLogStep(entries, n);
      assert entries[..n + 1] == entries;
      ErrorLogFollowsFailed(init);
      assert forall i :: 0 <= i < n ==> entries[i] == init[i];
    }
  }

  /**
   * With every entry titled, the error file gets one line per entry that
   * is not readable, in entry order: line `k` names the title of entry
   * `FailedIndices(entries)[k]`, and the error lines and the tracks
   * together account for every entry.
   */
  lemma ErrorLogIsSelection(entries: seq<Entry>)
    requires forall k :: 0 <= k < |entries| ==> entries[k].title.Some?
    ensures |ErrorLog(entries)| == |FailedIndices(entries)|
    ensures |ErrorLog(entries)| + |LoadedTracks(entries)| == |entries|
    ensures forall k :: 0 <= k < |FailedIndices(entries)| ==>
      && FailedIndices(entries)[k] < |entries|
      && !Readable(entries[FailedIndices(entries)[k]])
      && ErrorLog(entries)[k] == ErrorLine(entries[FailedIndices(entries)[k]].title.value)
    ensures forall k, m :: 0 <= k < m < |FailedIndices(entries)| ==> FailedIndices(entries)[k] < FailedIndices(entries)[m]
    ensures forall i :: 0 <= i < |entries| ==> (!Readable(entries[i]) <==> i in FailedIndices(entries))
  {
    PositionsFacts(entries, Unreadable);
    ErrorLogFollowsFailed(entries);
  }

  /** The prefix of titled entries extends by one when entry `i` has a title too. */
  lemma TitledStep(entries: seq<Entry>, i: nat)
    requires i < |entries| && entries[i].title.Some?
    requires forall k :: 0 <= k < i ==> entries[k].title.Some?
    ensures forall k :: 0 <= k < i + 1 ==> entries[k].title.Some?
  {
  }

  /**
   * `load_collection`'s loop over the parsed entries. The load aborts, naming
   * the first entry without `@TITLE`, exactly when some entry lacks one.
   * Otherwise every entry either adds its track or counts as one error, so
   * the tracks and the errors add up to the number of entries.
   */
  method LoadCollection(entries: seq<Entry>) returns (r: Result<Loaded, LoadError>)
    ensures r.Failure? <==> FirstUntitled(entries).Some?
    ensures r.Failure? ==> r.error == MissingTitle(FirstUntitled(entries).value)
    ensures r.Success? ==>
      && r.value.collection == LoadedTracks(entries)
      && |r.value.collection| + r.value.totalErrors == |entries|
      && r.value.errorLog == ErrorLog(entries)
      && |r.value.errorLog| == r.value.totalErrors
  {
    var collection: seq<Track> := [];
    var totalErrors: nat := 0;
    var errorLog: seq<string> := [];
    var i := 0;
    while i < |entries|
      invariant 0 <= i <= |entries|
      invariant forall k :: 0 <= k < i ==> entries[k].title.Some?
      invariant collection == LoadedTracks(entries[..i])
      invariant |collection| + totalErrors == i
      invariant errorLog == ErrorLog(entries[..i])
      invariant |errorLog| == totalErrors
    {
      var entry := entries[i];
      TracksStep(entries, i);
      // the `try` block reads every key; the first missing one raises
      if Readable(entry) {
        ErrorLogStep(entries, i);
        TitledStep(entries, i);
        collection := collection + [BuildTrack(entry)];
      } else if entry.title.None? {
        // the handler reads `@TITLE` again, and that raises out of the loop
        assert FirstUntitled(entries) == Some(i);
        return Failure(MissingTitle(i));
      } else {
        ErrorLogStep(entries, i);
        TitledStep(entries, i);
        totalErrors := totalErrors + 1;
        errorLog := errorLog + [ErrorLine(entry.title.value)];
      }
      i := i + 1;
    }
    assert entries[..i] == entries;
    return Success(Loaded(collection, totalErrors, errorLog));
  }

  /**
   * The loaded collection is an order-preserving selection of the entries:
   * track `k` is built from entry `LoadedIndices(entries)[k]`, the positions
   * increase, and every readable entry is among them.
   */
  lemma LoadedIsSelection(entries: seq<Entry>)
    ensures forall k :: 0 <= k < |LoadedIndices(entries)| ==>
      && LoadedIndices(entries)[k] < |entries|
      && Readable(entries[LoadedIndices(entries)[k]])
      && BuildTrack(entries[LoadedIndices(entries)[k]]) == LoadedTracks(entries)[k]
    ensures forall k, m :: 0 <= k < m < |LoadedIndices(entries)| ==> LoadedIndices(entries)[k] < LoadedIndices(entries)[m]
    ensures forall i :: 0 <= i < |entries| ==> (Readable(entries[i]) <==> i in LoadedIndices(entries))
  {
    PositionsFacts(entries, Readable);
    LoadedTracksAtPositions(entries);
  }

  /** Track `k` is built from the entry at the `k`-th readable position. */
  lemma {:induction false} LoadedTracksAtPositions(entries: seq<Entry>)
    ensures forall k :: 0 <= k < |LoadedTracks(entries)| ==>
      && LoadedIndices(entries)[k] < |entries|
      && Readable(entries[LoadedIndices(entries)[k]])
      && BuildTrack(entries[LoadedIndices(entries)[k]]) == LoadedTracks(entries)[k]
  {
    if entries != [] {
      var n := |entries| - 1;
      var init := entries[..n];
      TracksStep(entries, n);
      PositionsStep(entries, n, Readable);
      assert entries[..n + 1] == entries;
      LoadedTracksAtPositions(init);
      PositionsFacts(init, Readable);
      assert forall i :: 0 <= i < n ==> entries[i] == init[i];
    }
  }

  /**
   * Every loaded track carries its entry's `@TITLE`, exactly its entry's
   * `@ARTIST` (present or not), and `@VOLUME + clean_loc(@DIR + @FILE)` as location.
   */
  lemma LoadedTrackFields(entries: seq<Entry>, k: nat)
    requires k < |LoadedTracks(entries)|
    ensures LoadedIndices(entries)[k] < |entries|
    ensures var e := entries[LoadedIndices(entries)[k]];
      var t := LoadedTracks(entries)[k];
      && e.title == Some(t.title)
      && e.artist == t.artist
      && e.location.Some? && e.location.value.volume.Some? && e.location.value.dir.Some? && e.location.value.file.Some?
      && t.location == e.location.value.volume.value + CleanLoc(e.location.value.dir.value + e.location.value.file.value)
  {
    LoadedIsSelection(entries);
  }

  /** The first line of the XML file. */
  const XmlHeader: string := "<?xml version=\"1.0\" encoding=\"UTF-8\"?>\n"

  /** The element written for one track; attribute values are written as they are, without escaping. */
  function TrackElement(title: string, artist: string, location: string): string {
    "<TRACK TITLE=\"" + title + "\" ARTIST=\"" + artist + "\" LOCATION=\"" + location + "\">" + "</TRACK>\n"
  }

  predicate AllHaveArtist(tracks: seq<Track>) {
    forall k :: 0 <= k < |tracks| ==> tracks[k].artist.Some?
  }

  /** The elements of all tracks, in list order. */
  function TrackElements(tracks: seq<Track>): string
    requires AllHaveArtist(tracks)
  {
    if tracks == [] then ""
    else
      var t := tracks[|tracks| - 1];
      TrackElements(tracks[..|tracks| - 1]) + TrackElement(t.title, t.artist.value, t.location)
  }

  /** The elements written for a one-track list are that track's element. */
  lemma TrackElementsOfOne(t: Track)
    requires t.artist.Some?
    ensures AllHaveArtist([t])
    ensures TrackElements([t]) == TrackElement(t.title, t.artist.value, t.location)
  {
    assert [t][..0] == [];
  }

  /**
   * The complete XML text for a collection whose tracks all have an artist:
   * the header and `<COLLECTION>`, the elements, then `</COLLECTION>`.
   */
  function XmlDocument(tracks: seq<Track>): (r: string)
    requires AllHaveArtist(tracks)
    ensures |r| == |XmlHeader| + |"<COLLECTION>"| + |TrackElements(tracks)| + |"</COLLECTION>\n"|
    ensures r[..|XmlHeader| + |"<COLLECTION>"|] == XmlHeader + "<COLLECTION>"
    ensures r[|XmlHeader| + |"<COLLECTION>"|..|r| - |"</COLLECTION>\n"|] == TrackElements(tracks)
    ensures r[|r| - |"</COLLECTION>\n"|..] == "</COLLECTION>\n"
  {
    XmlHeader + "<COLLECTION>" + TrackElements(tracks) + "</COLLECTION>\n"
  }

  /**
   * `write_xml`: the text written to the file, and whether the write
   * completed. It completes exactly when every track has an artist; then the
   * text is the header, `<COLLECTION>`, one element per track in order and
   * `</COLLECTION>`. Otherwise the `KeyError` for the first track without an
   * artist leaves the header, `<COLLECTION>` and the elements of the tracks
   * before it in the file.
   */
  method WriteXml(collection: seq<Track>) returns (text: string, ok: bool)
    ensures ok <==> AllHaveArtist(collection)
    ensures ok ==> text == XmlDocument(collection)
    ensures !ok ==> exists m ::
      && 0 <= m < |collection| && collection[m].artist.None?
      && AllHaveArtist(collection[..m])
      && text == XmlHeader + "<COLLECTION>" + TrackElements(collection[..m])
  {
    text := XmlHeader;
    text := text + "<COLLECTION>";
    var i := 0;
    while i < |collection|
      invariant 0 <= i <= |collection|
      invariant AllHaveArtist(collection[..i])
      invariant text == XmlHeader + "<COLLECTION>" + TrackElements(collection[..i])
    {
      var track := collection[i];
      assert collection[..i + 1][..i] == collection[..i];
      if track.artist.None? {
        return text, false;
      }
      AppendAssoc(XmlHeader + "<COLLECTION>", TrackElements(collection[..i]), TrackElement(track.title, track.artist.value, track.location));
      text := text + TrackElement(track.title, track.artist.value, track.location);
      i := i + 1;
    }
    assert collection[..i] == collection;
    text := text + "</COLLECTION>\n";
    ok := true;
  }

  /** Writing is compositional: the elements of `a + b` are those of `a` followed by those of `b`. */
  lemma {:induction false} TrackElementsAppend(a: seq<Track>, b: seq<Track>)
    requires AllHaveArtist(a) && AllHaveArtist(b)
    ensures AllHaveArtist(a + b)
    ensures TrackElements(a + b) == TrackElements(a) + TrackElements(b)
    decreases |b|
  {
    if b == [] {
      assert a + b == a;
    } else {
      var n := |b| - 1;
      var t := b[n];
      assert (a + b)[..|a + b| - 1] == a + b[..n];
      assert (a + b)[|a + b| - 1] == t;
      TrackElementsAppend(a, b[..n]);
      var z := TrackElement(t.title, t.artist.value, t.location);
      assert TrackElements(a + b) == TrackElements(a + b[..n]) + z;
      assert TrackElements(b) == TrackElements(b[..n]) + z;
      AppendAssoc(TrackElements(a), TrackElements(b[..n]), z);
    }
  }

  /**
   * One element per track, in list order: the document is the fixed
   * opening, the elements of the tracks before `k`, the element of track
   * `k`, the elements of the tracks after it, and the fixed closing.
   */
  lemma ElementInPlace(tracks: seq<Track>, k: nat)
    requires AllHaveArtist(tracks) && k < |tracks|
    ensures AllHaveArtist(tracks[..k]) && AllHaveArtist(tracks[k + 1..])
    ensures XmlDocument(tracks) ==
      XmlHeader + "<COLLECTION>"
      + TrackElements(tracks[..k])
      + TrackElement(tracks[k].title, tracks[k].artist.value, tracks[k].location)
      + TrackElements(tracks[k + 1..])
      + "</COLLECTION>\n"
  {
    var t := tracks[k];
    assert tracks == tracks[..k] + [t] + tracks[k + 1..];
    TrackElementsOfOne(t);
    TrackElementsAppend(tracks[..k], [t]);
    TrackElementsAppend(tracks[..k] + [t], tracks[k + 1..]);
    var opening, before, z := XmlHeader + "<COLLECTION>", TrackElements(tracks[..k]), TrackElement(t.title, t.artist.value, t.location);
    AppendAssoc(opening, before + z, TrackElements(tracks[k + 1..]));
    AppendAssoc(opening, before, z);
  }

  /**
   * Without escaping, the text does not determine the tracks: a quote in a
   * title can stand for the boundary between title and artist.
   */
  lemma UnescapedQuotesAmbiguous()
    ensures var a := Track("x\" ARTIST=\"y", Some("z"), "w");
      var b := Track("x", Some("y\" ARTIST=\"z"), "w");
      a != b && XmlDocument([a]) == XmlDocument([b])
  {
    var a := Track("x\" ARTIST=\"y", Some("z"), "w");
    var b := Track("x", Some("y\" ARTIST=\"z"), "w");
    assert [a][..0] == [] && [b][..0] == [];
    assert TrackElement(a.title, a.artist.value, a.location) == TrackElement(b.title, b.artist.value, b.location);
  }
}
