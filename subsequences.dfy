/**
 Keeping the elements of a sequence that pass a test, in their original order,
 and where in the sequence those elements sat. The copy plan is the walk of the
 source tree filtered this way.
 */
module Subsequences {

  /** The elements of `s` that satisfy `keep`, in their order in `s`. */
  function FilterBy<T>(s: seq<T>, keep: T -> bool): (r: seq<T>)
    ensures |r| <= |s|
    ensures forall x :: x in r ==> x in s && keep(x)
  {
    if s == [] then []
    else FilterBy(s[..|s| - 1], keep) + (if keep(s[|s| - 1]) then [s[|s| - 1]] else [])
  }

  /** The positions in `s` of the elements that satisfy `keep`, in increasing order. */
  function PositionsBy<T>(s: seq<T>, keep: T -> bool): (r: seq<nat>)
    ensures forall k :: 0 <= k < |r| ==> r[k] < |s| && keep(s[r[k]])
    ensures forall k, l :: 0 <= k < l < |r| ==> r[k] < r[l]
    ensures forall j :: 0 <= j < |s| && keep(s[j]) ==> j in r
  {
    if s == [] then []
    else
      var n := |s| - 1;
      var rest := PositionsBy(s[..n], keep);
      assert forall j :: 0 <= j < n ==> s[j] == s[..n][j];
      if keep(s[n]) then rest + [n] else rest
  }

  /** The k-th kept element is the element at the k-th kept position. */
  lemma {:induction false} FilterByAt<T>(s: seq<T>, keep: T -> bool)
    ensures |FilterBy(s, keep)| == |PositionsBy(s, keep)|
    ensures forall k :: 0 <= k < |FilterBy(s, keep)| ==> FilterBy(s, keep)[k] == s[PositionsBy(s, keep)[k]]
  {
    if s != [] {
      var n := |s| - 1;
      var prefix := s[..n];
      FilterByAt(prefix, keep);
      var kept, pos := FilterBy(prefix, keep), PositionsBy(prefix, keep);
      var tail := if keep(s[n]) then [s[n]] else [];
      assert FilterBy(s, keep) == kept + tail;
      assert PositionsBy(s, keep) == if keep(s[n]) then pos + [n] else pos;
      forall k | 0 <= k < |kept| ensures (kept + tail)[k] == s[pos[k]] {
        assert pos[k] < n && s[pos[k]] == prefix[pos[k]];
      }
    }
  }
}
