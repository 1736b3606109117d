/** `Cycle::inversions` of src/group_theory/cycle.rs: the number of pairs
    of positions `i < j < n` whose retraversal entries are out of order,
    `h[i] > h[j]`.  The order is the parameter `gt` (the `PartialOrd` of the
    element type). */
module CycleInversions {
  import opened Outcomes
  import opened Permutations
  import opened GroupTheoryCycle

  /** The positions `j` in `[lo, hi)` with `h[i] > h[j]`, counted. */
  function Row<T>(h: seq<T>, gt: (T, T) -> bool, i: nat, lo: nat, hi: nat): nat
    requires i < |h| && lo <= hi <= |h|
    decreases hi - lo
  {
    if lo == hi then 0
    else Row(h, gt, i, lo, hi - 1) + (if gt(h[i], h[hi - 1]) then 1 else 0)
  }

  /** The inverted pairs `i < j < n` with `k <= i`, counted row by row. */
  function InvFrom<T>(h: seq<T>, gt: (T, T) -> bool, k: nat, n: nat): nat
    requires k <= n <= |h|
    decreases n - k
  {
    if k == n then 0 else Row(h, gt, k, k + 1, n) + InvFrom(h, gt, k + 1, n)
  }

  /** What `inversions` returns: the index panic exactly when the inner
      loop reaches past `h`, otherwise the number of inverted pairs among
      the first `k` retraversal entries, `k` the smaller of `n` and `|h|`,
      at most `k(k-1)/2`. */
  function InversionsSpec<T>(c: Cycle<T>, gt: (T, T) -> bool): (r: Result<nat>)
    ensures r.Err? <==> c.n >= 2 && c.n > |c.h|
    ensures r.Ok? ==> r.value == |InvertedPairs(c.h, gt, 0, Min(c.n, |c.h|))|
    ensures r.Ok? ==> 2 * r.value <= Min(c.n, |c.h|) * (Min(c.n, |c.h|) - 1)
  {
    if c.n >= 2 && c.n > |c.h| then Err(OutOfBounds)
    else
      var k := Min(c.n, |c.h|);
      InversionsCount(c.h, gt, 0, k);
      AllInversions(c.h, gt, 0, k);
      PairsClosedForm(k);
      Ok(InvFrom(c.h, gt, 0, k))
  }

  /** `inversions` (src/group_theory/cycle.rs:163-176): `i` runs down from
      `n - 1`, and for each `i` the inner loop runs `j` up from `i + 1`. */
  method Inversions<T>(c: Cycle<T>, gt: (T, T) -> bool) returns (r: Result<nat>)
    ensures r == InversionsSpec(c, gt)
  {
    var n := c.n;
    var inv: nat := 0;
    var i: nat := n;
    while i > 0
      invariant i <= n
      invariant n <= |c.h| ==> inv == InvFrom(c.h, gt, i, n)
      invariant n > |c.h| ==> i + 1 >= n && inv == 0
    {
      i := i - 1;
      var j := i + 1;
      while j < n
        invariant i + 1 <= j <= n
        invariant n <= |c.h| ==> inv == InvFrom(c.h, gt, i + 1, n) + Row(c.h, gt, i, i + 1, j)
        invariant n > |c.h| ==> j == i + 1 && i + 2 >= n && inv == 0
      {
        if j >= |c.h| {
          return Err(OutOfBounds);
        }
        if gt(c.h[i], c.h[j]) {
          inv := inv + 1;
        }
        j := j + 1;
      }
    }
    return Ok(inv);
  }

  // ---------------------------------------------------------------------
  // What the count means
  // ---------------------------------------------------------------------

  /** The inverted pairs `(i, j)` with `k <= i < j < n`. */
  function InvertedPairs<T>(h: seq<T>, gt: (T, T) -> bool, k: nat, n: nat): set<(nat, nat)>
    requires n <= |h|
  {
    set i: nat, j: nat | k <= i < j < n && gt(h[i], h[j]) :: (i, j)
  }

  /** The pairs `(i, j)` with `lo <= j < hi` and `h[i] > h[j]`, for one `i`. */
  function RowPairs<T>(h: seq<T>, gt: (T, T) -> bool, i: nat, lo: nat, hi: nat): set<(nat, nat)>
    requires i < |h| && hi <= |h|
  {
    set j: nat | lo <= j < hi && gt(h[i], h[j]) :: (i, j)
  }

  lemma {:induction false} RowCounts<T>(h: seq<T>, gt: (T, T) -> bool, i: nat, lo: nat, hi: nat)
    requires i < |h| && lo <= hi <= |h|
    ensures |RowPairs(h, gt, i, lo, hi)| == Row(h, gt, i, lo, hi)
    decreases hi - lo
  {
    if lo == hi {
      assert RowPairs(h, gt, i, lo, hi) == {};
    } else {
      RowCounts(h, gt, i, lo, hi - 1);
      var a := RowPairs(h, gt, i, lo, hi - 1);
      if gt(h[i], h[hi - 1]) {
        assert RowPairs(h, gt, i, lo, hi) == a + {(i, hi - 1)};
        assert (i, hi - 1) !in a;
      } else {
        assert RowPairs(h, gt, i, lo, hi) == a;
      }
    }
  }

  /** The count is the number of inverted pairs. */
  lemma {:induction false} InversionsCount<T>(h: seq<T>, gt: (T, T) -> bool, k: nat, n: nat)
    requires k <= n <= |h|
    ensures |InvertedPairs(h, gt, k, n)| == InvFrom(h, gt, k, n)
    decreases n - k
  {
    if k == n {
      NoPairsLeft(h, gt, n);
    } else {
      var row, rest := RowPairs(h, gt, k, k + 1, n), InvertedPairs(h, gt, k + 1, n);
      assert |rest| == InvFrom(h, gt, k + 1, n) by {
        InversionsCount(h, gt, k + 1, n);
      }
      assert |row| == Row(h, gt, k, k + 1, n) by {
        RowCounts(h, gt, k, k + 1, n);
      }
      assert |InvertedPairs(h, gt, k, n)| == |row| + |rest| by {
        InvertedSplit(h, gt, k, n);
        DisjointCard(row, rest);
      }
    }
  }

  lemma NoPairsLeft<T>(h: seq<T>, gt: (T, T) -> bool, n: nat)
    requires n <= |h|
    ensures InvertedPairs(h, gt, n, n) == {}
  {
  }

  lemma DisjointCard<T>(a: set<T>, b: set<T>)
    requires a * b == {}
    ensures |a + b| == |a| + |b|
  {
  }

  /** The inverted pairs from row `k` on are those of row `k` and, apart
      from them, those from row `k + 1` on. */
  lemma InvertedSplit<T>(h: seq<T>, gt: (T, T) -> bool, k: nat, n: nat)
    requires k < n <= |h|
    ensures InvertedPairs(h, gt, k, n) == RowPairs(h, gt, k, k + 1, n) + InvertedPairs(h, gt, k + 1, n)
    ensures RowPairs(h, gt, k, k + 1, n) * InvertedPairs(h, gt, k + 1, n) == {}
  {
    var row, rest := RowPairs(h, gt, k, k + 1, n), InvertedPairs(h, gt, k + 1, n);
    forall p | p in InvertedPairs(h, gt, k, n)
      ensures p in row + rest
    {
      var i: nat, j: nat :| k <= i < j < n && gt(h[i], h[j]) && p == (i, j);
      if i == k {
        assert p in row;
      } else {
        assert p in rest;
      }
    }
    forall p | p in row
      ensures p.0 == k
    {
    }
    forall p | p in rest
      ensures p.0 > k
    {
    }
  }

  /** The number of pairs `i < j` among `m` positions. */
  function Pairs(m: nat): nat
  {
    if m == 0 then 0 else (m - 1) + Pairs(m - 1)
  }

  lemma {:induction false} PairsClosedForm(m: nat)
    ensures 2 * Pairs(m) == m * (m - 1)
  {
    if m > 0 {
      PairsClosedForm(m - 1);
    }
  }

  /** A row has no more entries than positions, and exactly as many when
      every position qualifies; none when no position does. */
  lemma {:induction false} RowExtremes<T>(h: seq<T>, gt: (T, T) -> bool, i: nat, lo: nat, hi: nat)
    requires i < |h| && lo <= hi <= |h|
    ensures Row(h, gt, i, lo, hi) <= hi - lo
    ensures Row(h, gt, i, lo, hi) == hi - lo <==> forall j :: lo <= j < hi ==> gt(h[i], h[j])
    ensures Row(h, gt, i, lo, hi) == 0 <==> forall j :: lo <= j < hi ==> !gt(h[i], h[j])
    decreases hi - lo
  {
    if lo < hi {
      RowExtremes(h, gt, i, lo, hi - 1);
    }
  }

  /** The count is zero exactly when the first `n` entries are in order. */
  lemma {:induction false} NoInversions<T>(h: seq<T>, gt: (T, T) -> bool, k: nat, n: nat)
    requires k <= n <= |h|
    ensures InvFrom(h, gt, k, n) == 0 <==> forall i, j :: k <= i < j < n ==> !gt(h[i], h[j])
    decreases n - k
  {
    if k < n {
      NoInversions(h, gt, k + 1, n);
      RowExtremes(h, gt, k, k + 1, n);
    }
  }

  /** At most every pair is inverted, and every pair is exactly when the
      first `n` entries are in reverse order. */
  lemma {:induction false} AllInversions<T>(h: seq<T>, gt: (T, T) -> bool, k: nat, n: nat)
    requires k <= n <= |h|
    ensures InvFrom(h, gt, k, n) <= Pairs(n - k)
    ensures InvFrom(h, gt, k, n) == Pairs(n - k) <==> forall i, j :: k <= i < j < n ==> gt(h[i], h[j])
    decreases n - k
  {
    if k < n {
      AllInversions(h, gt, k + 1, n);
      RowExtremes(h, gt, k, k + 1, n);
      assert Pairs(n - k) == (n - k - 1) + Pairs(n - (k + 1));
    }
  }

  /** On a valid permutation no index panics and the result is the number
      of inverted pairs of the retraversal, between zero and `n(n-1)/2`. */
  lemma InversionsOfValid<T>(c: Cycle<T>, gt: (T, T) -> bool)
    requires Valid(c)
    ensures InversionsSpec(c, gt).Ok?
    ensures InversionsSpec(c, gt).value == |InvertedPairs(c.h, gt, 0, c.n)|
    ensures 2 * InversionsSpec(c, gt).value <= c.n * (c.n - 1)
  {
    InversionsCount(c.h, gt, 0, c.n);
    AllInversions(c.h, gt, 0, c.n);
    PairsClosedForm(c.n);
  }

  /** The integer order the tests use. */
  function Greater(a: int, b: int): bool
  {
    a > b
  }

  /** The identity of S4 has no inversion. */
  lemma IdentityInversions()
    ensures InversionsSpec(Identity([1, 2, 3, 4]), Greater) == Ok(0)
  {
    NoInversions([1, 2, 3, 4], Greater, 0, 4);
  }

  /** A reversed four-element retraversal has all six inversions. */
  lemma ReversedFour(c: Cycle<int>)
    requires c.n == 4 && |c.h| == 4 && c.h[0] == 4 && c.h[1] == 3 && c.h[2] == 2 && c.h[3] == 1
    ensures InversionsSpec(c, Greater) == Ok(6)
  {
    assert c.h == [4, 3, 2, 1];
    AllInversions(c.h, Greater, 0, 4);
  }

  /** (1,4)(2,3) is a well-formed vector of cycles naming 1,2,3,4. */
  lemma ReversalWellFormed(vec: seq<seq<int>>)
    requires |vec| == 2 && vec[0] == [1, 4] && vec[1] == [2, 3]
    ensures WellFormedCycles(vec) && Mentioned(vec) == {1, 2, 3, 4}
  {
    var first: seq<seq<int>> := [[1, 4]];
    assert vec[..1] == first && first[..0] == [];
  }

  /** The map `from` builds for (1,4)(2,3). */
  lemma ReversalMap(vec: seq<seq<int>>, ground: seq<int>)
    requires |vec| == 2 && vec[0] == [1, 4] && vec[1] == [2, 3]
    ensures WellFormedCycles(vec)
    ensures var m := FromMap(vec, ground);
      Apply(m, 1) == 4 && Apply(m, 2) == 3 && Apply(m, 3) == 2 && Apply(m, 4) == 1
  {
    ReversalWellFormed(vec);
    FromImage(vec, ground, 0, 0);
    FromImage(vec, ground, 0, 1);
    FromImage(vec, ground, 1, 0);
    FromImage(vec, ground, 1, 1);
  }

  /** The retraversal of (1,4)(2,3) over 1,2,3,4 is 4,3,2,1. */
  lemma ReversalCycle(vec: seq<seq<int>>, ground: seq<int>)
    requires |vec| == 2 && vec[0] == [1, 4] && vec[1] == [2, 3] && ground == [1, 2, 3, 4]
    ensures WellFormedCycles(vec) && FromSpec(vec, ground).Ok?
    ensures var c := FromSpec(vec, ground).value;
      c.n == 4 && |c.h| == 4 && c.h[0] == 4 && c.h[1] == 3 && c.h[2] == 2 && c.h[3] == 1
  {
    ReversalWellFormed(vec);
    FromCyclesValid(vec, ground);
    ReversalMap(vec, ground);
    var c := FromSpec(vec, ground).value;
    assert c.h[0] == c.perm[ground[0]] && c.h[1] == c.perm[ground[1]];
    assert c.h[2] == c.perm[ground[2]] && c.h[3] == c.perm[ground[3]];
  }

  /** (1,4)(2,3) reverses 1,2,3,4 and has all six inversions. */
  lemma ReversalInversions(vec: seq<seq<int>>, ground: seq<int>)
    requires |vec| == 2 && vec[0] == [1, 4] && vec[1] == [2, 3] && ground == [1, 2, 3, 4]
    ensures WellFormedCycles(vec) && FromSpec(vec, ground).Ok?
    ensures InversionsSpec(FromSpec(vec, ground).value, Greater) == Ok(6)
  {
    ReversalCycle(vec, ground);
    ReversedFour(FromSpec(vec, ground).value);
  }
}
