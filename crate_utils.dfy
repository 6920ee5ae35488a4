/** Extracting the playlist identifier from a streaming-service playlist link. */
module CrateUtils {
  import opened Wrappers
  import opened PyStrings

  /** The marker that precedes the identifier in a playlist link. */
  const Marker: string := "playlist/"

  /** The `ValueError("Invalid Spotify playlist link.")` raised for a link without the marker. */
  datatype LinkError = InvalidLink

  /**
   * `playlist_link.split("playlist/")[1].split("?")[0]` when the marker
   * occurs in the link, an `InvalidLink` error otherwise. The identifier
   * never holds a `?` and never holds the marker.
   */
  function GetPlaylistId(link: string): (r: Result<string, LinkError>)
    ensures r.Failure? <==> !Contains(link, Marker)
    ensures r.Success? ==> '?' !in r.value && !Contains(r.value, Marker)
  {
    if Contains(link, Marker) then
      var pieces := Split(link, Marker);
      SplitFacts(link, Marker);
      var id := Split(pieces[1], "?")[0];
      SplitFacts(pieces[1], "?");
      ContainsChar(id, '?');
      NotInPrefix(pieces[1], Marker, |id|);
      assert id == pieces[1][..|id|];
      Success(id)
    else
      Failure(InvalidLink)
  }

  /** No occurrence of the marker can start inside `p` and run into a marker placed right after it. */
  lemma MarkerFirstAfter(p: string, tail: string)
    requires !Contains(p, Marker)
    ensures IndexOf(p + Marker + tail, Marker) == Some(|p|)
  {
    var s := p + Marker + tail;
    assert OccursAt(s, Marker, |p|) by {
      assert s[|p|..|p| + |Marker|] == Marker;
    }
    forall k | 0 <= k < |p|
      ensures !OccursAt(s, Marker, k)
    {
      if k + |Marker| <= |p| {
        assert s[k..k + |Marker|] == p[k..k + |Marker|];
        assert !OccursAt(p, Marker, k);
      } else {
        // the '/' that would end such an occurrence lies among the first eight characters of the placed marker
        assert s[k + 8] == Marker[k + 8 - |p|] != '/';
        MismatchAt(s, Marker, k, k + 8);
      }
    }
  }

  /** The leftmost `?` of `s` is at `n` when `s[n]` is one and no earlier character is. */
  lemma FirstQuestionMark(s: string, n: nat)
    requires n < |s| && s[n] == '?'
    requires forall k :: 0 <= k < n ==> s[k] != '?'
    ensures IndexOf(s, "?") == Some(n)
  {
    assert OccursAt(s, "?", n) by {
      assert s[n..n + 1] == "?";
    }
    forall k | 0 <= k < n
      ensures !OccursAt(s, "?", k)
    {
      assert s[k..k + 1][0] == s[k];
    }
  }

  /** In `id + "?" + query`, with no marker in `id`, a marker can only start after the `?`. */
  lemma MarkerAfterQuestionMark(id: string, query: string, j: nat)
    requires !Contains(id, Marker)
    requires OccursAt(id + "?" + query, Marker, j)
    ensures j > |id|
  {
    var tail := id + "?" + query;
    if j + |Marker| <= |id| {
      assert OccursAt(id, Marker, j) by {
        assert tail[j..j + |Marker|] == id[j..j + |Marker|];
      }
    } else if j <= |id| {
      OccursAtChar(tail, Marker, j, |id|);
    }
  }

  /** When `id` holds no marker, the first piece of `id + "?" + query` split on the marker still starts with `id + "?"`. */
  lemma FirstPieceKeepsId(id: string, query: string)
    requires !Contains(id, Marker)
    ensures var piece := Split(id + "?" + query, Marker)[0];
      |piece| > |id| && piece[..|id| + 1] == id + "?"
  {
    var tail := id + "?" + query;
    var piece := Split(tail, Marker)[0];
    assert tail[..|id| + 1] == id + "?";
    SplitFacts(tail, Marker);
    if Contains(tail, Marker) {
      var j := IndexOf(tail, Marker).value;
      MarkerAfterQuestionMark(id, query, j);
      assert piece == tail[..j];
      assert piece[..|id| + 1] == tail[..|id| + 1];
    } else {
      assert piece == tail;
    }
  }

  /**
   * For a link `p + "playlist/" + id + "?" + query`, with no marker in `p`
   * and neither a `?` nor the marker in `id`, the identifier is `id`.
   */
  lemma {:induction false} IdOfCanonicalLink(p: string, id: string, query: string)
    requires !Contains(p, Marker)
    requires !Contains(id, Marker) && '?' !in id
    ensures GetPlaylistId(p + Marker + id + "?" + query) == Success(id)
  {
    var tail := id + "?" + query;
    var link := p + Marker + tail;
    assert link == p + Marker + id + "?" + query;
    MarkerFirstAfter(p, tail);
    assert link[..|p|] == p;
    assert link[|p| + |Marker|..] == tail;
    assert Split(link, Marker)[1] == Split(tail, Marker)[0];
    var piece := Split(tail, Marker)[0];
    FirstPieceKeepsId(id, query);
    assert forall k :: 0 <= k < |id| ==> piece[k] == id[k];
    FirstQuestionMark(piece, |id|);
    assert Split(piece, "?")[0] == piece[..|id|] == id;
  }

  /**
   * The identifier in full: with `rest` the text after the leftmost marker,
   * the result is the longest prefix of `rest` that holds no `?` and in
   * which no further marker starts; it stops at the end of `rest`, at a
   * `?`, or where the next marker begins.
   */
  lemma {:induction false} IdIsPrefixUpToStop(link: string)
    requires Contains(link, Marker)
    ensures var rest := link[IndexOf(link, Marker).value + |Marker|..];
      var id := GetPlaylistId(link).value;
      && |id| <= |rest| && rest[..|id|] == id
      && (forall k :: 0 <= k < |id| ==> rest[k] != '?' && !OccursAt(rest, Marker, k))
      && (|id| == |rest| || rest[|id|] == '?' || OccursAt(rest, Marker, |id|))
  {
    var i := IndexOf(link, Marker).value;
    var rest := link[i + |Marker|..];
    SplitFacts(link, Marker);
    assert Split(link, Marker) == [link[..i]] + Split(rest, Marker);
    var piece := Split(link, Marker)[1];
    assert piece == Split(rest, Marker)[0];
    FirstPiece(rest, Marker);
    FirstPiece(piece, "?");
    var id := Split(piece, "?")[0];
    assert id == GetPlaylistId(link).value;
    forall k | 0 <= k < |id|
      ensures rest[k] != '?'
    {
      CharOccursAt(piece, '?', k);
    }
    if |id| < |piece| {
      CharOccursAt(piece, '?', |id|);
    }
  }
}
