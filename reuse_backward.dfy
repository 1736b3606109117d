/** The older, backward reuse-distance analyser of src/reuse.rs.  It runs
    the same per-access step as src/locality/reuse.rs over the trace from its
    end to its start, then reverses the vector of distances in place. */
module Reuse {
  import opened LocalityReuse

  /** The elements of `s` in the opposite order. */
  function Reverse<T>(s: seq<T>): (r: seq<T>)
    ensures |r| == |s|
    ensures forall i :: 0 <= i < |s| ==> r[i] == s[|s| - 1 - i]
  {
    seq(|s|, i requires 0 <= i < |s| => s[|s| - 1 - i])
  }

  /** The position of the first access to `v` at or after position `k`, or
      `|trace|` when there is none. */
  function NextFrom<T(==)>(trace: seq<T>, k: nat, v: T): (r: nat)
    requires k <= |trace|
    ensures k <= r <= |trace|
    ensures r < |trace| ==> trace[r] == v
    ensures forall j :: k <= j < r ==> trace[j] != v
    decreases |trace| - k
  {
    if k == |trace| then |trace|
    else if trace[k] == v then k
    else NextFrom(trace, k + 1, v)
  }

  /** The backward distance at position `i`: -1 on the last access to its
      value, and otherwise the number of distinct values accessed from
      position `i` up to, not including, the next access to the same value. */
  function BackwardDistance<T(==)>(trace: seq<T>, i: nat): int
    requires i < |trace|
  {
    var next := NextFrom(trace, i + 1, trace[i]);
    if next == |trace| then -1 else |Touched(trace, i, next)|
  }

  /** `calculate_reuse_distance` of src/reuse.rs: the forward step run over
      the reversed trace, the distances then reversed. */
  method CalculateReuseDistance<T(==)>(trace: seq<T>) returns (distances: seq<int>)
    ensures distances == Reverse(ReuseDistances(Reverse(trace)))
  {
    ghost var backwards := Reverse(trace);
    var sets: map<T, set<T>> := map[];
    var collected: seq<int> := [];
    var n := |trace|;
    for i := 0 to n
      invariant Tracks(backwards, i, sets)
      invariant |collected| == i
      invariant forall j :: 0 <= j < i ==> collected[j] == Distance(backwards, j)
    {
      var access := trace[n - 1 - i];
      assert access == backwards[i];
      var next, d := Access(sets, access);
      AccessTracks(backwards, i, sets, next, d);
      sets := next;
      collected := collected + [d];
    }
    assert collected == ReuseDistances(backwards);
    distances := Reverse(collected);
  }

  lemma {:induction false} LastBeforeReversed<T>(trace: seq<T>, p: nat, v: T)
    requires p <= |trace|
    ensures LastBefore(Reverse(trace), p, v) == |trace| - 1 - NextFrom(trace, |trace| - p, v)
  {
    if p > 0 {
      LastBeforeReversed(trace, p - 1, v);
    }
  }

  lemma TouchedReversed<T>(trace: seq<T>, lo: int, hi: int)
    requires 0 <= lo <= hi <= |trace|
    ensures Touched(Reverse(trace), lo, hi) == Touched(trace, |trace| - hi, |trace| - lo)
  {
    var r, n := Reverse(trace), |trace|;
    forall x | x in Touched(trace, n - hi, n - lo)
      ensures x in Touched(r, lo, hi)
    {
      var k :| n - hi <= k < n - lo && trace[k] == x;
      assert r[n - 1 - k] == x;
    }
  }

  /** The forward distance at the mirrored position of the reversed trace
      is the backward distance. */
  lemma DistanceReversed<T>(trace: seq<T>, i: nat)
    requires i < |trace|
    ensures Distance(Reverse(trace), |trace| - 1 - i) == BackwardDistance(trace, i)
  {
    var n := |trace|;
    var r, p := Reverse(trace), n - 1 - i;
    assert r[p] == trace[i];
    LastBeforeReversed(trace, p, trace[i]);
    var next := NextFrom(trace, i + 1, trace[i]);
    if next < n {
      TouchedReversed(trace, n - next, p + 1);
    }
  }

  /** The result has one entry per access; the last access to a value gets
      -1 and every other access at `i` the number of distinct values in
      `[i, next)`, `next` being the next access to the same value. */
  lemma BackwardDistances<T>(trace: seq<T>)
    ensures |Reverse(ReuseDistances(Reverse(trace)))| == |trace|
    ensures forall i :: 0 <= i < |trace| ==>
      Reverse(ReuseDistances(Reverse(trace)))[i] == BackwardDistance(trace, i)
  {
    forall i | 0 <= i < |trace|
      ensures Reverse(ReuseDistances(Reverse(trace)))[i] == BackwardDistance(trace, i)
    {
      DistanceReversed(trace, i);
    }
  }
}
