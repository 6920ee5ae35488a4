# CrateHacker matching core, modelled in Dafny

CrateHacker reconciles a Traktor DJ collection with a Spotify playlist. This
project models and proves the three pieces of it that hold real logic:

- **Loading the collection** (`CollectionImport`). The parsed `ENTRY` records of
  the collection document become track records. Each track has a title, an
  optional artist, and a location normalised by `clean_loc`. An entry that cannot
  be built is counted as an error and logged, and the loop goes on. The module
  also covers writing the tracks out as XML text.
- **Matching playlist tracks against the collection** (`CollectionSearch`).
  - The strict pass compares titles exactly and takes the first hit per track.
  - The fuzzy pass runs a two-part test, first on titles and then on artists. It
    lowercases both sides, checks containment either way, and compares a
    similarity score against a threshold. It keeps every entry that passes, with
    no early exit.
- **Extracting a playlist id from a link** (`CrateUtils`), with Python's `split`
  semantics.

`PyStrings` gives the Python string operations these rely on: `strip`,
`replace`, `lower`, `in`, `split` and `join`. `Wrappers` holds `Option` and
`Result`, which stand for missing dictionary keys and raised exceptions.
`Sequences` defines order-preserving subsequences and the increasing list of
positions at which a predicate holds, which the selection lemmas use.

The model follows the code as written, including these behaviours that are easy
to misread:

- The fuzzy pass has no `break`. One playlist track can therefore yield several
  entries, and one entry can be yielded by several tracks (`NoEarlyExit`).
- An entry without `@TITLE` does not count as a per-entry error. The error
  handler reads `entry['@TITLE']` again, so the whole load fails
  (`LoadCollection`, failure case).
- Attribute values are written to the XML without escaping. The text then does
  not determine the tracks (`UnescapedQuotesAmbiguous`).
- `clean_loc` strips before it removes colons. Whitespace behind a colon
  survives, and applying it twice can change the result
  (`CleanLocKeepsSpaceAfterColon`).
- An entry that has a title but lacks a location key gets one error line. An
  entry without a title gets none, because the handler raises before it writes
  (`ErrorLog`, `ErrorLogIsSelection`).
- The fuzzy pass works on raw entries (`@TITLE`, `@ARTIST`). The strict pass
  works on loaded tracks (`title`, `location`).

External collaborators become parameters:

- The similarity score `fuzz.ratio` is a function parameter of type
  `(string, string) -> int`, and nothing is assumed about it.
- The playlist is a sequence of `PlaylistTrack(name, artists)` values.
- The collection document is given already parsed, as a sequence of `Entry`
  values.
- Each file that is written becomes a returned value. The error file is a
  sequence of lines, the strict file is a sequence of location lines, and the
  XML file is a string.

## Model

| member | source | states |
|---|---|---|
| `PyStrings.Strip` | CrateHacker/collection_import.py:72 | the result is the infix of the input left after removing the whitespace (Python's `isspace` set) at both ends; it neither starts nor ends with whitespace and everything removed was whitespace |
| `PyStrings.RemoveChar` | CrateHacker/collection_import.py:76 | `replace(":", "")` leaves no colon, keeps the count of every other character, and keeps their order (a subsequence of the input) |
| `PyStrings.SplitFacts` | CrateHacker/crate_utils.py:16 | `split(sep)` gives two or more pieces exactly when `sep in s`; the first piece is the text before the leftmost occurrence; no piece contains `sep`; joining the pieces with `sep` gives `s` back |
| `PyStrings.Split` | CrateHacker/crate_utils.py:16 | `split` always gives at least one piece |
| `PyStrings.IndexOf` | CrateHacker/collection_search.py:14-15 | the position found is an occurrence of the pattern with none before it, and there is no position exactly when the pattern occurs nowhere |
| `PyStrings.LowerFacts` | CrateHacker/collection_search.py:11-12 | `Lower` (`lower()`) leaves no ASCII capital, keeps every other character, and is idempotent |
| `PyStrings.JoinAppend` | CrateHacker/collection_search.py:8 | `", ".join` of one name is that name, and one more name adds the separator and the name at the end |
| `PyStrings.ContainsIff` | CrateHacker/crate_utils.py:15 | Python's `pat in s` holds exactly when `pat` occurs at some position of `s` |
| `CollectionImport.CleanLoc` | CrateHacker/collection_import.py:70-77 | the cleaned location holds no `:`, is never longer than its input, and is the stripped input with exactly its colons removed, in order |
| `CollectionImport.CleanLocKeepsSpaceAfterColon` | CrateHacker/collection_import.py:72-76 | because stripping precedes colon removal, `": a"` cleans to `" a"`, and cleaning again gives `"a"`: the result may have surrounding whitespace and cleaning is not idempotent |
| `CollectionImport.BuildTrackLocation` | CrateHacker/collection_import.py:26-27 | the location `BuildTrack` gives a readable entry starts with `@VOLUME` unchanged, and the rest, the cleaned `@DIR + @FILE`, holds no colon |
| `CollectionImport.ErrorLineInjective` | CrateHacker/collection_import.py:39 | two error lines `ErrorLine(a)` and `ErrorLine(b)` are equal exactly when the titles are, so each line determines its title |
| `CollectionImport.ErrorLogIsSelection` | CrateHacker/collection_import.py:29-39 | when every entry has a title, error line `k` is `ErrorLine` of the title of the `k`-th unreadable entry; the positions strictly increase, an entry is among them exactly when it is not readable, and error lines plus tracks equal the number of entries |
| `CollectionImport.FirstUntitled` | CrateHacker/collection_import.py:21 | gives the first entry without `@TITLE`, and `None` exactly when every entry has one |
| `CollectionImport.LoadCollection` | CrateHacker/collection_import.py:16-41 | the load fails, naming the first entry without `@TITLE`, exactly when some entry lacks one (the handler re-reads the title at line 39); otherwise the collection is `LoadedTracks(entries)`, tracks plus errors equal the number of entries, and one error line is logged per failing entry |
| `CollectionImport.LoadedIsSelection` | CrateHacker/collection_import.py:16-28 | the collection is an order-preserving selection of the entries: track `k` is `BuildTrack` of entry `LoadedIndices[k]`, which is readable; the indices strictly increase, and an entry is selected exactly when it is readable (`@TITLE` and `LOCATION` with `@VOLUME`, `@DIR` and `@FILE` present) |
| `CollectionImport.LoadedTracksAtPositions` | CrateHacker/collection_import.py:18-28 | track `k` of the collection is built from the entry at the `k`-th readable position |
| `CollectionImport.LoadedTrackFields` | CrateHacker/collection_import.py:20-27 | every loaded track has its entry's `@TITLE` as title, the entry's `@ARTIST` exactly when present, and `@VOLUME + clean_loc(@DIR + @FILE)` as location |
| `CollectionImport.WriteXml` | CrateHacker/collection_import.py:99-105 | the write completes exactly when every track has an artist, and the text is then the header, `<COLLECTION>`, one element per track in order and `</COLLECTION>`; otherwise the text is what was written before the first track without an artist |
| `CollectionImport.TrackElementsOfOne` | CrateHacker/collection_import.py:103-104 | the text written for one track is its `TrackElement`: title, artist and location in quoted attributes, then `</TRACK>` and a newline |
| `CollectionImport.TrackElementsAppend` | CrateHacker/collection_import.py:102-104 | the elements written for `a + b` are those for `a` followed by those for `b` |
| `CollectionImport.ElementInPlace` | CrateHacker/collection_import.py:100-105 | in the complete document `XmlDocument`, the `TrackElement` of track `k` stands between the elements of the tracks before it and those after it, inside the fixed header, `<COLLECTION>` opening and `</COLLECTION>` closing |
| `CollectionImport.UnescapedQuotesAmbiguous` | CrateHacker/collection_import.py:103 | two different tracks produce the same XML text, because a quote inside a title is written unescaped |
| `CollectionSearch.FuzzySearch` | CrateHacker/collection_search.py:3-35 | fails exactly when the playlist is non-empty and some entry lacks `@TITLE` (line 12 is outside the `try`); otherwise returns `FuzzyMatches(playlist, collection)` and its length is `fuzzy_track_count` |
| `CollectionSearch.ScanCollection` | CrateHacker/collection_search.py:10-28 | the inner loop appends exactly `TrackMatches(track, collection)` to the list, and adds its length to the count, or fails at the first untitled entry |
| `CollectionSearch.TrackMatchesIsFilter` | CrateHacker/collection_search.py:10-28 | one track's matches are a subsequence of the collection, and an entry is among them exactly when it is in the collection and passes both the title test and the artist test |
| `CollectionSearch.TrackMatchesIsSelection` | CrateHacker/collection_search.py:10-28 | position-exact form: match `k` is the entry at `TrackMatchIndices[k]`, the indices strictly increase, and position `i` is among them exactly when its entry is accepted, so an entry that occurs twice and is accepted is kept twice |
| `CollectionSearch.FuzzyMatchesMembers` | CrateHacker/collection_search.py:7-28 | an entry is in the result exactly when it is in the collection and passes both tests for some playlist track; the result only refers to collection entries |
| `CollectionSearch.FuzzyMatchesAppend` | CrateHacker/collection_search.py:7-28 | the result is ordered playlist-major: the matches for `a + b` are those for `a` followed by those for `b` |
| `CollectionSearch.ResemblesSymmetric` | CrateHacker/collection_search.py:13-15 | for a symmetric score the two-part test `Resembles` does not depend on the order of its strings, since containment is checked both ways |
| `CollectionSearch.ExactMatchAccepted` | CrateHacker/collection_search.py:11-24 | a track whose name and joined artists equal an entry's `@TITLE` and `@ARTIST` up to case is accepted (`Accepts`: `TitleMatches` and `ArtistMatches`) whatever the score and threshold |
| `CollectionSearch.EntryArtistCases` | CrateHacker/collection_search.py:17-20 | `EntryArtist` is the lowercased `@ARTIST` when present, and is `"Unknown"` exactly when `@ARTIST` is missing |
| `CollectionSearch.TitleContainmentSuffices` | CrateHacker/collection_search.py:11-15 | whenever one lowercased title contains the other, the title test holds whatever the score |
| `CollectionSearch.ArtistlessEntryTest` | CrateHacker/collection_search.py:16-24 | against an entry without `@ARTIST` the literal `"Unknown"` is not lowercased, so the artist test holds exactly when the score beats the threshold or the lowercased joined artists lie inside `"Unknown"` |
| `CollectionSearch.NoArtistsMatchArtistless` | CrateHacker/collection_search.py:8-24 | a playlist track with an empty artist list joins to `""`, which `"Unknown"` contains, so it passes the artist test against any entry without `@ARTIST` |
| `CollectionSearch.NoEarlyExit` | CrateHacker/collection_search.py:10-28 | one playlist track collects two entries, and one entry matched by two tracks appears twice, whatever the score function |
| `CollectionSearch.FirstTitleMatch` | CrateHacker/collection_search.py:49-57 | gives the first collection position whose `title` equals the name exactly, and `None` exactly when there is none |
| `CollectionSearch.LocationLineInjective` | CrateHacker/collection_search.py:55 | two lines `LocationLine(a)` and `LocationLine(b)` are equal exactly when the locations are |
| `CollectionSearch.StrictLinesAppend` | CrateHacker/collection_search.py:41-57 | the lines are in playlist order: those for `a + b` are those for `a` followed by those for `b` |
| `CollectionSearch.StrictSearch` | CrateHacker/collection_search.py:37-60 | the lines written are `StrictLines(playlist, collection)`, and `track_count` is their number, which equals the number of playlist tracks whose name is the title of some entry |
| `CollectionSearch.StrictAtMostOnePerTrack` | CrateHacker/collection_search.py:41-57 | the strict pass writes at most one line per playlist track, and exactly one per track that is in the collection |
| `CollectionSearch.StrictLinesMembers` | CrateHacker/collection_search.py:49-57 | a line is written exactly when it is the location line of some playlist track's first exact title match |
| `CollectionSearch.StrictIsCaseSensitive` | CrateHacker/collection_search.py:50 | a playlist track `Levels` finds an entry titled `Levels`, and `levels` does not |
| `CrateUtils.GetPlaylistId` | CrateHacker/crate_utils.py:13-18 | fails exactly when `"playlist/"` does not occur in the link; a returned id holds no `?` and no `"playlist/"` |
| `CrateUtils.MarkerFirstAfter` | CrateHacker/crate_utils.py:16 | when `p` holds no `"playlist/"`, the leftmost marker in `p + "playlist/" + tail` is the one right after `p` |
| `CrateUtils.IdOfCanonicalLink` | CrateHacker/crate_utils.py:16 | for `p + "playlist/" + id + "?" + query`, with no marker in `p` and neither `?` nor the marker in `id`, the result is `id` |
| `CrateUtils.IdIsPrefixUpToStop` | CrateHacker/crate_utils.py:16 | in general the id is the longest prefix of the text after the first marker that holds no `?` and in which no further marker starts; it ends at the end of the link, at a `?`, or where the next marker begins |

## Left out

- XML parsing and file reading (`open`, `f.read`, `xmltodict.parse`, the `['NML']['COLLECTION']['ENTRY']` lookup): the loader receives the parsed entries. The quirk where a single `ENTRY` parses to a dictionary instead of a list is not modelled.
- File side effects are not modelled: deleting `error.txt`, `crate_collection.xml` or `crate_collection.json`, and opening the strict results file `"strict_" + playlist_name + ".txt"`. The written contents are returned as values.
- `LoadCollection`: when the load fails, the lines already written to the error file are not part of the result. The Python function raises, and only the file keeps them.
- All `print` output, including the "Loaded M out of N" report and the match counts.
- `write_json`: a call into `json.dump`.
- The `write_json` / `write_xml` branches inside `load_collection`: the boolean parameters shadow the functions of the same names, so these branches would call a bool.
- `load_fresh_collection`: unfinished, it returns nothing.
- The internals of `fuzz.ratio`: the score is an arbitrary function parameter.
- `PyStrings.Lower`: lowercases ASCII letters only, because Unicode case mapping is not modelled.
- The Spotify client, `get_playlist_name` and `get_playlist_info`: network calls through spotipy.
- `CrateHacker/crate.py`: a top-level script doing environment loading, API calls and JSON dumps. It passes the playlist name as the fuzzy threshold, which is a script error and not logic of the core.
- The artist list built in `strict_search` (line 42) is only printed, so it is not modelled.
