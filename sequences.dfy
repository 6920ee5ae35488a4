/** Order-preserving subsequences of sequences, and the positions at which a predicate holds. */
module Sequences {

  /** `a` can be obtained from `b` by deleting elements, without reordering the rest. */
  ghost predicate IsSubsequence<T>(a: seq<T>, b: seq<T>)
    decreases |b|
  {
    a == [] || (b != [] && ((a[0] == b[0] && IsSubsequence(a[1..], b[1..])) || IsSubsequence(a, b[1..])))
  }

  /** Appending the same element to both sides, or only to the longer one, keeps a subsequence. */
  lemma {:induction false} SubsequenceExtend<T>(a: seq<T>, b: seq<T>, x: T)
    requires IsSubsequence(a, b)
    ensures IsSubsequence(a + [x], b + [x])
    ensures IsSubsequence(a, b + [x])
    decreases |b|
  {
    if a == [] {
      assert a + [x] == [x];
      SubsequenceOfSingleton(b, x);
    } else {
      assert b != [];
      assert (b + [x])[1..] == b[1..] + [x];
      assert (a + [x])[1..] == a[1..] + [x];
      if a[0] == b[0] && IsSubsequence(a[1..], b[1..]) {
        SubsequenceExtend(a[1..], b[1..], x);
      } else {
        SubsequenceExtend(a, b[1..], x);
      }
    }
  }

  /** A single element is a subsequence of any sequence that ends with it. */
  lemma {:induction false} SubsequenceOfSingleton<T>(b: seq<T>, x: T)
    ensures IsSubsequence([x], b + [x])
    decreases |b|
  {
    if b != [] {
      assert (b + [x])[1..] == b[1..] + [x];
      SubsequenceOfSingleton(b[1..], x);
    } else {
      assert ([x] + [])[1..] == [];
    }
  }

  /** Concatenation is associative. */
  lemma AppendAssoc<T>(x: seq<T>, y: seq<T>, z: seq<T>)
    ensures (x + y) + z == x + (y + z)
  {
  }

  /** The positions of `s` whose element satisfies `p`, in increasing order. */
  function Positions<T>(s: seq<T>, p: T -> bool): seq<nat> {
    if s == [] then []
    else
      var prev := Positions(s[..|s| - 1], p);
      if p(s[|s| - 1]) then prev + [|s| - 1] else prev
  }

  /** One more element adds its position exactly when it satisfies `p`. */
  lemma PositionsStep<T>(s: seq<T>, i: nat, p: T -> bool)
    requires i < |s|
    ensures p(s[i]) ==> Positions(s[..i + 1], p) == Positions(s[..i], p) + [i]
    ensures !p(s[i]) ==> Positions(s[..i + 1], p) == Positions(s[..i], p)
  {
    assert s[..i + 1][..i] == s[..i];
  }

  /**
   * `Positions(s, p)` lists exactly the positions whose element satisfies
   * `p`, each once, in increasing order.
   */
  lemma {:induction false} PositionsFacts<T>(s: seq<T>, p: T -> bool)
    ensures forall k :: 0 <= k < |Positions(s, p)| ==> Positions(s, p)[k] < |s| && p(s[Positions(s, p)[k]])
    ensures forall k, m :: 0 <= k < m < |Positions(s, p)| ==> Positions(s, p)[k] < Positions(s, p)[m]
    ensures forall i :: 0 <= i < |s| ==> (p(s[i]) <==> i in Positions(s, p))
  {
    if s != [] {
      var n := |s| - 1;
      var init := s[..n];
      PositionsFacts(init, p);
      var prev := Positions(init, p);
      assert forall i :: 0 <= i < n ==> s[i] == init[i];
      assert forall k :: 0 <= k < |prev| ==> prev[k] < n;
      forall i | 0 <= i < |s|
        ensures p(s[i]) <==> i in Positions(s, p)
      {
        if i < n {
          assert s[i] == init[i];
          assert i in Positions(s, p) <==> i in prev;
        } else if !p(s[n]) {
          assert n !in prev;
        } else {
          assert Positions(s, p)[|prev|] == n;
        }
      }
    }
  }
}
