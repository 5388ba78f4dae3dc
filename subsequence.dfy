/**
 * Order-preserving selection from a sequence: `r` is a subsequence of `s`
 * when the elements of `r` can be found in `s` at strictly increasing
 * positions.
 */
module Subsequence {

  /** `idx` lists, in increasing order, positions of `s` that spell out `r`. */
  ghost predicate Embeds<T>(idx: seq<nat>, r: seq<T>, s: seq<T>)
  {
    && |idx| == |r|
    && (forall k :: 0 <= k < |idx| ==> idx[k] < |s| && s[idx[k]] == r[k])
    && (forall k, l :: 0 <= k < l < |idx| ==> idx[k] < idx[l])
  }

  ghost predicate IsSubsequence<T>(r: seq<T>, s: seq<T>)
  {
    exists idx :: Embeds(idx, r, s)
  }

  /** Every position shifted by one: an embedding into `s` is one into `[x] + s`. */
  function Shift(idx: seq<nat>): seq<nat>
  {
    seq(|idx|, k requires 0 <= k < |idx| => idx[k] + 1)
  }

  /** Skipping a leading element of `s` keeps `r` a subsequence. */
  lemma SkipHead<T>(x: T, r: seq<T>, s: seq<T>)
    requires IsSubsequence(r, s)
    ensures IsSubsequence(r, [x] + s)
  {
    var idx :| Embeds(idx, r, s);
    assert Embeds(Shift(idx), r, [x] + s);
  }

  /** Keeping a leading element of `s` on both sides keeps `r` a subsequence. */
  lemma KeepHead<T>(x: T, r: seq<T>, s: seq<T>)
    requires IsSubsequence(r, s)
    ensures IsSubsequence([x] + r, [x] + s)
  {
    var idx :| Embeds(idx, r, s);
    var idx' := [0] + Shift(idx);
    assert Embeds(idx', [x] + r, [x] + s);
  }

  /** The empty sequence is a subsequence of every sequence. */
  lemma EmptyIsSubsequence<T>(s: seq<T>)
    ensures IsSubsequence([], s)
  {
    assert Embeds([], [], s);
  }
}
