/** The two JavaScript array builtins the page relies on, `Array.prototype.filter`
    and `Array.prototype.slice`, as functions on sequences. */
module ArrayOps {

  /** `s.filter(keep)`: the elements of `s` that satisfy `keep`, in their order. */
  function Filter<T>(s: seq<T>, keep: T -> bool): (r: seq<T>)
    ensures |r| <= |s|
    ensures forall i :: 0 <= i < |r| ==> r[i] in s && keep(r[i])
    ensures forall i :: 0 <= i < |s| && keep(s[i]) ==> s[i] in r
    decreases |s|
  {
    if s == [] then []
    else
      var init := Filter(s[..|s| - 1], keep);
      assert s == s[..|s| - 1] + [s[|s| - 1]];
      if keep(s[|s| - 1]) then init + [s[|s| - 1]] else init
  }

  /** The positions of `s` whose element satisfies `keep`, in increasing order. */
  ghost function KeptIndices<T>(s: seq<T>, keep: T -> bool): seq<int>
    decreases |s|
  {
    if s == [] then []
    else
      var init := KeptIndices(s[..|s| - 1], keep);
      if keep(s[|s| - 1]) then init + [|s| - 1] else init
  }

  /** `r` lists `s` at the strictly increasing positions `idx`. */
  ghost predicate SelectsAt<T>(r: seq<T>, s: seq<T>, idx: seq<int>)
  {
    && |idx| == |r|
    && (forall i :: 0 <= i < |idx| ==> 0 <= idx[i] < |s| && r[i] == s[idx[i]])
    && (forall i, j :: 0 <= i < j < |idx| ==> idx[i] < idx[j])
  }

  /** The kept positions are positions of `s`, and a position is among them
      exactly when its element passes the test. */
  lemma {:induction false} KeptIndicesExact<T>(s: seq<T>, keep: T -> bool)
    ensures forall i :: 0 <= i < |KeptIndices(s, keep)| ==> 0 <= KeptIndices(s, keep)[i] < |s|
    ensures forall k :: 0 <= k < |s| ==> (keep(s[k]) <==> k in KeptIndices(s, keep))
    decreases |s|
  {
    if s != [] {
      var n := |s| - 1;
      KeptIndicesExact(s[..n], keep);
      forall k | 0 <= k < n
        ensures s[k] == s[..n][k]
      {
      }
    }
  }

  /** Extending the input by one element keeps a selection valid, whether or
      not the new last position is selected. */
  lemma SelectsAtExtend<T>(r0: seq<T>, s: seq<T>, idx0: seq<int>, n: int, add: bool)
    requires 0 <= n == |s| - 1 && SelectsAt(r0, s[..n], idx0)
    ensures add ==> SelectsAt(r0 + [s[n]], s, idx0 + [n])
    ensures !add ==> SelectsAt(r0, s, idx0)
  {
  }

  /** The filter result is exactly the subsequence of `s` at the positions whose
      element is kept: order is preserved and nothing kept is dropped. */
  lemma {:induction false} FilterSelectsKept<T>(s: seq<T>, keep: T -> bool)
    ensures SelectsAt(Filter(s, keep), s, KeptIndices(s, keep))
    ensures forall k :: 0 <= k < |s| ==> (keep(s[k]) <==> k in KeptIndices(s, keep))
    decreases |s|
  {
    KeptIndicesExact(s, keep);
    if s != [] {
      var n := |s| - 1;
      var init := s[..n];
      FilterSelectsKept(init, keep);
      KeptIndicesExact(init, keep);
      SelectsAtExtend(Filter(init, keep), s, KeptIndices(init, keep), n, keep(s[n]));
    }
  }

  /** A filter that keeps every element is the identity. */
  lemma {:induction false} FilterKeepsAll<T>(s: seq<T>, keep: T -> bool)
    requires forall x :: x in s ==> keep(x)
    ensures Filter(s, keep) == s
    decreases |s|
  {
    if s != [] {
      assert s == s[..|s| - 1] + [s[|s| - 1]];
      FilterKeepsAll(s[..|s| - 1], keep);
    }
  }

  /** Filtering twice with the same test is filtering once. */
  lemma {:induction false} FilterIdempotent<T>(s: seq<T>, keep: T -> bool)
    ensures Filter(Filter(s, keep), keep) == Filter(s, keep)
  {
    FilterKeepsAll(Filter(s, keep), keep);
  }

  /** Two tests that agree on every element of `s` filter it alike. */
  lemma {:induction false} FilterAgrees<T>(s: seq<T>, keep: T -> bool, keep': T -> bool)
    requires forall x :: x in s ==> keep(x) == keep'(x)
    ensures Filter(s, keep) == Filter(s, keep')
    decreases |s|
  {
    if s != [] {
      assert s == s[..|s| - 1] + [s[|s| - 1]];
      FilterAgrees(s[..|s| - 1], keep, keep');
    }
  }

  /** How `slice` turns a relative index into a position: a negative index
      counts back from the end, and the result is clamped into `0..len`. */
  function RelativeIndex(i: int, len: nat): (k: nat)
    ensures k <= len
  {
    if i < 0 then (if len + i < 0 then 0 else len + i)
    else if i < len then i
    else len
  }

  /** Moving a bound up moves its position up by no more than the bound moved
      (a negative bound may land further right, since it counts from the end). */
  lemma RelativeIndexSpread(i: int, j: int, len: nat)
    ensures i <= j ==> RelativeIndex(j, len) - RelativeIndex(i, len) <= j - i
  {
  }

  /** `s.slice(start, end)`. */
  function Slice<T>(s: seq<T>, start: int, end: int): (r: seq<T>)
    ensures |r| <= |s|
    ensures start <= end ==> |r| <= end - start
    ensures forall i :: 0 <= i < |r| ==> r[i] in s
  {
    var from, to := RelativeIndex(start, |s|), RelativeIndex(end, |s|);
    RelativeIndexSpread(start, end, |s|);
    if from < to then s[from..to] else []
  }

  /** With non-negative bounds, `slice` is the subsequence between the bounds
      capped at the length, empty once `start` reaches `end` or the length. */
  lemma SliceNonNegative<T>(s: seq<T>, start: int, end: int)
    requires 0 <= start <= end
    ensures Slice(s, start, end) ==
      s[(if start < |s| then start else |s|)..(if end < |s| then end else |s|)]
    ensures |Slice(s, start, end)| <= end - start
    ensures Slice(s, start, end) == [] <==> start >= |s| || start == end
  {
  }
}
