/**
 * The parts of Python's `str` type that the collection tools rely on:
 * `strip()`, `replace(c, "")`, `lower()`, the `in` operator, `split(sep)`
 * and `sep.join(...)`. Strings are sequences of Unicode scalar values: Python strings
 * without lone surrogates.
 */
module PyStrings {
  import opened Wrappers
  import opened Sequences

  /** The characters for which Python's `str.isspace()` holds; `strip()` with no argument removes them. */
  predicate IsSpace(c: char) {
    || c == ' ' || c == '\t' || c == '\n' || c == '\r' || c == '\U{B}' || c == '\U{C}'
    || ('\U{1C}' <= c <= '\U{1F}')
    || c == '\U{85}' || c == '\U{A0}' || c == '\U{1680}'
    || ('\U{2000}' <= c <= '\U{200A}')
    || c == '\U{2028}' || c == '\U{2029}' || c == '\U{202F}' || c == '\U{205F}' || c == '\U{3000}'
  }

  /** Number of whitespace characters at the start of `s`. */
  function LeadingSpaces(s: string): (n: nat)
    ensures n <= |s|
    ensures forall k :: 0 <= k < n ==> IsSpace(s[k])
    ensures n < |s| ==> !IsSpace(s[n])
  {
    if |s| > 0 && IsSpace(s[0]) then 1 + LeadingSpaces(s[1..]) else 0
  }

  /** Number of whitespace characters at the end of `s`. */
  function TrailingSpaces(s: string): (n: nat)
    ensures n <= |s|
    ensures forall k :: |s| - n <= k < |s| ==> IsSpace(s[k])
    ensures n < |s| ==> !IsSpace(s[|s| - 1 - n])
  {
    if |s| > 0 && IsSpace(s[|s| - 1]) then 1 + TrailingSpaces(s[..|s| - 1]) else 0
  }

  /**
   * Python's `s.strip()`: the infix of `s` left after removing the whitespace
   * on both ends. The result neither starts nor ends with whitespace, and
   * everything removed was whitespace.
   */
  function Strip(s: string): (r: string)
    ensures |r| <= |s|
    ensures LeadingSpaces(s) + |r| <= |s| && s[LeadingSpaces(s)..LeadingSpaces(s) + |r|] == r
    ensures forall k :: 0 <= k < LeadingSpaces(s) ==> IsSpace(s[k])
    ensures forall k :: LeadingSpaces(s) + |r| <= k < |s| ==> IsSpace(s[k])
    ensures r != [] ==> !IsSpace(r[0]) && !IsSpace(r[|r| - 1])
  {
    var t := s[LeadingSpaces(s)..];
    t[..|t| - TrailingSpaces(t)]
  }

  /**
   * Python's `s.replace(c, "")` for a one-character `c`: every `c` is gone,
   * every other character keeps its number of occurrences, and their order is kept.
   */
  function RemoveChar(s: string, c: char): (r: string)
    ensures c !in r
    ensures |r| <= |s|
    ensures forall d :: d != c ==> multiset(r)[d] == multiset(s)[d]
    ensures IsSubsequence(r, s)
  {
    if s == [] then []
    else
      var rest := RemoveChar(s[1..], c);
      assert s == [s[0]] + s[1..];
      if s[0] == c then rest
      else
        assert ([s[0]] + rest)[1..] == rest;
        [s[0]] + rest
  }

  /** `str.lower()` on one character, restricted to ASCII letters. */
  function LowerChar(c: char): char {
    if 'A' <= c <= 'Z' then (c as int + 32) as char else c
  }

  /** `str.lower()`, restricted to ASCII letters. */
  function Lower(s: string): (r: string)
    ensures |r| == |s|
    ensures forall k :: 0 <= k < |s| ==> r[k] == LowerChar(s[k])
  {
    seq(|s|, k requires 0 <= k < |s| => LowerChar(s[k]))
  }

  /**
   * Lowercasing leaves no ASCII capital, keeps every other character, and
   * lowercasing again changes nothing.
   */
  lemma LowerFacts(s: string)
    ensures forall k :: 0 <= k < |s| ==> !('A' <= Lower(s)[k] <= 'Z')
    ensures forall k :: 0 <= k < |s| && !('A' <= s[k] <= 'Z') ==> Lower(s)[k] == s[k]
    ensures Lower(Lower(s)) == Lower(s)
  {
  }

  /** `pat` occurs in `s` starting at index `k`. */
  predicate OccursAt(s: string, pat: string, k: int) {
    0 <= k && k + |pat| <= |s| && s[k..k + |pat|] == pat
  }

  /** Where `pat` occurs at `k`, the character at `m` is the matching character of `pat`. */
  lemma OccursAtChar(s: string, pat: string, k: int, m: int)
    requires OccursAt(s, pat, k) && k <= m < k + |pat|
    ensures s[m] == pat[m - k]
  {
    assert s[k..k + |pat|][m - k] == s[m];
  }

  /** A character that differs from the one `pat` needs there rules out an occurrence at `k`. */
  lemma MismatchAt(s: string, pat: string, k: int, m: int)
    requires 0 <= k <= m < k + |pat| && m < |s| && s[m] != pat[m - k]
    ensures !OccursAt(s, pat, k)
  {
    if OccursAt(s, pat, k) {
      OccursAtChar(s, pat, k, m);
    }
  }

  /** A one-character pattern occurs at `k` exactly when that character stands at `k`. */
  lemma CharOccursAt(s: string, c: char, k: int)
    requires 0 <= k < |s|
    ensures OccursAt(s, [c], k) <==> s[k] == c
  {
    assert s[k..k + 1] == [s[k]];
  }

  /** The leftmost occurrence of `pat` in `s` at or after `from`. */
  function IndexFrom(s: string, pat: string, from: nat): (r: Option<nat>)
    decreases |s| - from
    ensures r.Some? ==> from <= r.value && OccursAt(s, pat, r.value)
    ensures r.Some? ==> forall k :: from <= k < r.value ==> !OccursAt(s, pat, k)
    ensures r.None? ==> forall k :: from <= k ==> !OccursAt(s, pat, k)
  {
    if from + |pat| > |s| then None
    else if s[from..from + |pat|] == pat then Some(from)
    else IndexFrom(s, pat, from + 1)
  }

  /** Python's `s.find(pat)`, as an option: the leftmost occurrence of `pat` in `s`. */
  function IndexOf(s: string, pat: string): (r: Option<nat>)
    ensures r.Some? ==> OccursAt(s, pat, r.value) && forall k :: 0 <= k < r.value ==> !OccursAt(s, pat, k)
    ensures r.None? <==> forall k :: !OccursAt(s, pat, k)
  {
    IndexFrom(s, pat, 0)
  }

  /** Python's `pat in s`. */
  predicate Contains(s: string, pat: string) {
    IndexOf(s, pat).Some?
  }

  /** `pat in s` holds exactly when `pat` occurs somewhere in `s`. */
  lemma ContainsIff(s: string, pat: string)
    ensures Contains(s, pat) <==> exists k :: OccursAt(s, pat, k)
  {
    if Contains(s, pat) {
      assert OccursAt(s, pat, IndexOf(s, pat).value);
    }
  }

  /** A one-character pattern occurs exactly where that character stands. */
  lemma {:induction false} ContainsChar(s: string, c: char)
    ensures Contains(s, [c]) <==> c in s
  {
    if c in s {
      var k :| 0 <= k < |s| && s[k] == c;
      assert s[k..k + 1] == [c];
      assert OccursAt(s, [c], k);
    }
    if Contains(s, [c]) {
      var k := IndexOf(s, [c]).value;
      assert s[k..k + 1][0] == s[k];
    }
  }

  /** A pattern that does not occur in `s` occurs in no prefix of `s`. */
  lemma NotInPrefix(s: string, pat: string, n: nat)
    requires n <= |s|
    requires !Contains(s, pat)
    ensures !Contains(s[..n], pat)
  {
    if Contains(s[..n], pat) {
      var k := IndexOf(s[..n], pat).value;
      assert s[..n][k..k + |pat|] == s[k..k + |pat|];
      assert OccursAt(s, pat, k);
    }
  }

  /** Python's `sep.join(xs)`. */
  function Join(xs: seq<string>, sep: string): string {
    if |xs| == 0 then ""
    else if |xs| == 1 then xs[0]
    else xs[0] + sep + Join(xs[1..], sep)
  }

  /**
   * Joining one more string puts the separator between the joined prefix
   * and it: `sep.join(xs + [x]) == sep.join(xs) + sep + x` for non-empty `xs`.
   */
  lemma {:induction false} JoinAppend(xs: seq<string>, x: string, sep: string)
    ensures Join([x], sep) == x
    ensures xs != [] ==> Join(xs + [x], sep) == Join(xs, sep) + sep + x
    decreases |xs|
  {
    if |xs| > 1 {
      JoinAppend(xs[1..], x, sep);
      assert (xs + [x])[1..] == xs[1..] + [x];
    } else if |xs| == 1 {
      assert (xs + [x])[1..] == [x];
    }
  }

  /** Python's `s.split(sep)` for a non-empty separator: cut at every occurrence, scanning from the left. */
  function Split(s: string, sep: string): (r: seq<string>)
    requires sep != ""
    decreases |s|
    ensures |r| >= 1
  {
    match IndexOf(s, sep)
    case None => [s]
    case Some(i) => [s[..i]] + Split(s[i + |sep|..], sep)
  }

  /**
   * The first piece of a split is `s` up to the leftmost occurrence of
   * `sep`, or all of `s` when there is none.
   */
  lemma FirstPiece(s: string, sep: string)
    requires sep != ""
    ensures var j := if Contains(s, sep) then IndexOf(s, sep).value else |s|;
      && j <= |s| && Split(s, sep)[0] == s[..j]
      && (forall k :: 0 <= k < j ==> !OccursAt(s, sep, k))
      && (j < |s| ==> OccursAt(s, sep, j))
  {
    SplitFacts(s, sep);
  }

  /**
   * What `split` promises: there is always a piece, there are two or more
   * exactly when `sep in s`, the first piece is the text before the leftmost
   * occurrence, no piece contains `sep`, and joining the pieces with `sep`
   * gives `s` back.
   */
  lemma {:induction false} SplitFacts(s: string, sep: string)
    requires sep != ""
    decreases |s|
    ensures |Split(s, sep)| == 1 <==> !Contains(s, sep)
    ensures Contains(s, sep) ==> Split(s, sep)[0] == s[..IndexOf(s, sep).value]
    ensures !Contains(s, sep) ==> Split(s, sep)[0] == s
    ensures forall k :: 0 <= k < |Split(s, sep)| ==> !Contains(Split(s, sep)[k], sep)
    ensures Join(Split(s, sep), sep) == s
  {
    match IndexOf(s, sep)
    case None =>
    case Some(i) =>
      var head := s[..i];
      var tail := s[i + |sep|..];
      var rest := Split(tail, sep);
      SplitFacts(tail, sep);
      forall k | 0 <= k && k + |sep| <= |head|
        ensures !OccursAt(head, sep, k)
      {
        assert k < i && !OccursAt(s, sep, k);
        assert head[k..k + |sep|] == s[k..k + |sep|];
      }
      assert !Contains(head, sep);
      assert s == head + sep + tail by {
        assert s[i..i + |sep|] == sep;
      }
      var r := Split(s, sep);
      assert r == [head] + rest;
      assert r[1..] == rest;
      assert Join(r, sep) == head + sep + Join(rest, sep);
      forall k | 0 <= k < |r|
        ensures !Contains(r[k], sep)
      {
        if k > 0 { assert r[k] == rest[k - 1]; }
      }
  }
}
