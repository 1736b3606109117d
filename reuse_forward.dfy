/** The forward reuse-distance analyser of src/locality/reuse.rs.

    `calculate_reuse_distance` keeps, for every value seen so far, the set of
    values accessed since that value's last access.  Every access is first
    added to all of these sets; then, if the accessed value already has a
    set, its distance is that set's size (the access itself included) and the
    set is emptied, and otherwise a fresh empty set is made and the distance
    is -1.  The distances are `i32` in Rust; they are unbounded here. */
module LocalityReuse {
  import opened MathCombinations

  // ---------------------------------------------------------------------
  // Specification
  // ---------------------------------------------------------------------

  /** The position of the last access to `v` before position `i`, or -1. */
  function LastBefore<T(==)>(trace: seq<T>, i: nat, v: T): (r: int)
    requires i <= |trace|
    ensures -1 <= r < i
    ensures r >= 0 ==> trace[r] == v
    ensures forall k :: r < k < i ==> trace[k] != v
  {
    if i == 0 then -1
    else if trace[i - 1] == v then i - 1
    else LastBefore(trace, i - 1, v)
  }

  /** The distinct values accessed at positions `lo .. hi-1`. */
  function Touched<T>(trace: seq<T>, lo: int, hi: int): set<T>
    requires 0 <= lo <= hi <= |trace|
  {
    set k | lo <= k < hi :: trace[k]
  }

  /** The reuse distance of the access at position `i`: -1 on the first
      access to its value, and otherwise the number of distinct values
      accessed after the previous access to the same value, up to and
      including position `i`. */
  function Distance<T(==)>(trace: seq<T>, i: nat): int
    requires i < |trace|
  {
    var p := LastBefore(trace, i, trace[i]);
    if p < 0 then -1 else |Touched(trace, p + 1, i + 1)|
  }

  /** One distance per access, in trace order. */
  function ReuseDistances<T(==)>(trace: seq<T>): (r: seq<int>)
    ensures |r| == |trace|
  {
    seq(|trace|, i requires 0 <= i < |trace| => Distance(trace, i))
  }

  /** The number of entries of `d` that are not -1 and at most `cacheSize`
      (the `filter(..).count()` of `calculate_lru_hits`). */
  function Hits(d: seq<int>, cacheSize: int): (r: nat)
    ensures r <= |d|
  {
    if d == [] then 0
    else (if d[0] != -1 && d[0] <= cacheSize then 1 else 0) + Hits(d[1..], cacheSize)
  }

  /** The number of -1 entries of `d`. */
  function FirstTouches(d: seq<int>): (r: nat)
    ensures r <= |d|
  {
    if d == [] then 0
    else (if d[0] == -1 then 1 else 0) + FirstTouches(d[1..])
  }

  // ---------------------------------------------------------------------
  // The scan
  // ---------------------------------------------------------------------

  /** `sets` is the scan's map after the first `i` accesses: one entry per
      value seen, holding the values accessed since its last access. */
  ghost predicate Tracks<T>(trace: seq<T>, i: nat, sets: map<T, set<T>>)
    requires i <= |trace|
  {
    && sets.Keys == Touched(trace, 0, i)
    && forall v :: v in sets ==> sets[v] == Touched(trace, LastBefore(trace, i, v) + 1, i)
  }

  /** What one access does to the map of sets, and the distance it reports. */
  ghost predicate AccessSpec<T>(sets: map<T, set<T>>, access: T, next: map<T, set<T>>, distance: int)
  {
    && next.Keys == sets.Keys + {access}
    && next[access] == {}
    && (forall v :: v in sets && v != access ==> next[v] == sets[v] + {access})
    && distance == (if access in sets then |sets[access] + {access}| else -1)
  }

  /** The body of the `for access in trace` loop: add the access to every
      set, then read and clear the accessed value's set, or create it. */
  method Access<T(==)>(sets: map<T, set<T>>, access: T) returns (next: map<T, set<T>>, distance: int)
    ensures AccessSpec(sets, access, next, distance)
  {
    next := sets;
    var pending := sets.Keys;
    while pending != {}
      invariant pending <= sets.Keys && next.Keys == sets.Keys
      invariant forall v :: v in sets ==> next[v] == if v in pending then sets[v] else sets[v] + {access}
      decreases pending
    {
      var v :| v in pending;
      next := next[v := next[v] + {access}];
      pending := pending - {v};
    }
    if access in next {
      distance := |next[access]|;
      next := next[access := {}];
    } else {
      next := next[access := {}];
      distance := -1;
    }
  }

  lemma TouchedExtend<T>(trace: seq<T>, lo: int, hi: int)
    requires 0 <= lo <= hi < |trace|
    ensures Touched(trace, lo, hi + 1) == Touched(trace, lo, hi) + {trace[hi]}
  {
    assert trace[hi] in Touched(trace, lo, hi + 1);
  }

  /** One access keeps `Tracks` and reports the specified distance. */
  lemma AccessTracks<T>(trace: seq<T>, i: nat, sets: map<T, set<T>>, next: map<T, set<T>>, distance: int)
    requires i < |trace| && Tracks(trace, i, sets)
    requires AccessSpec(sets, trace[i], next, distance)
    ensures Tracks(trace, i + 1, next)
    ensures distance == Distance(trace, i)
  {
    TouchedExtend(trace, 0, i);
    forall v | v in next
      ensures next[v] == Touched(trace, LastBefore(trace, i + 1, v) + 1, i + 1)
    {
      AccessKeepsSet(trace, i, sets, next, distance, v);
    }
    AccessDistance(trace, i, sets, next, distance);
  }

  lemma AccessKeepsSet<T>(trace: seq<T>, i: nat, sets: map<T, set<T>>, next: map<T, set<T>>, distance: int, v: T)
    requires i < |trace| && Tracks(trace, i, sets)
    requires AccessSpec(sets, trace[i], next, distance)
    requires v in next
    ensures next[v] == Touched(trace, LastBefore(trace, i + 1, v) + 1, i + 1)
  {
    if v == trace[i] {
      assert LastBefore(trace, i + 1, v) == i;
      assert Touched(trace, i + 1, i + 1) == {};
    } else {
      assert v in sets;
      var last := LastBefore(trace, i, v);
      assert LastBefore(trace, i + 1, v) == last;
      assert sets[v] == Touched(trace, last + 1, i);
      assert next[v] == sets[v] + {trace[i]};
      TouchedExtend(trace, last + 1, i);
    }
  }

  lemma AccessDistance<T>(trace: seq<T>, i: nat, sets: map<T, set<T>>, next: map<T, set<T>>, distance: int)
    requires i < |trace| && Tracks(trace, i, sets)
    requires AccessSpec(sets, trace[i], next, distance)
    ensures distance == Distance(trace, i)
  {
    var a := trace[i];
    var p := LastBefore(trace, i, a);
    if a in sets {
      TouchedExtend(trace, p + 1, i);
    }
  }

  /** `calculate_reuse_distance`: one scan over the trace. */
  method CalculateReuseDistance<T(==)>(trace: seq<T>) returns (distances: seq<int>)
    ensures distances == ReuseDistances(trace)
  {
    var sets: map<T, set<T>> := map[];
    distances := [];
    for i := 0 to |trace|
      invariant Tracks(trace, i, sets)
      invariant |distances| == i
      invariant forall j :: 0 <= j < i ==> distances[j] == Distance(trace, j)
    {
      var next, d := Access(sets, trace[i]);
      AccessTracks(trace, i, sets, next, d);
      sets := next;
      distances := distances + [d];
    }
  }

  /** `calculate_lru_hits`: the accesses whose distance is not -1 and at most
      `cacheSize`. */
  method CalculateLruHits<T(==)>(trace: seq<T>, cacheSize: nat) returns (hits: nat)
    ensures hits == Hits(ReuseDistances(trace), cacheSize)
  {
    var distances := CalculateReuseDistance(trace);
    hits := Hits(distances, cacheSize);
  }

  // ---------------------------------------------------------------------
  // Properties of the distances
  // ---------------------------------------------------------------------

  /** A distance is -1 exactly on the first access to a value. */
  lemma FirstTouchIsMinusOne<T>(trace: seq<T>, i: nat)
    requires i < |trace|
    ensures Distance(trace, i) == -1 <==> trace[i] !in trace[..i]
  {
    var p := LastBefore(trace, i, trace[i]);
    if p >= 0 {
      assert trace[..i][p] == trace[i];
    }
  }

  /** A repeat counts the distinct values after the previous access, the
      access itself included: at least 1, exactly 1 on an immediate repeat. */
  lemma RepeatDistance<T>(trace: seq<T>, i: nat)
    requires i < |trace| && Distance(trace, i) != -1
    ensures 1 <= Distance(trace, i) <= i
    ensures i > 0 && trace[i - 1] == trace[i] ==> Distance(trace, i) == 1
  {
    var p := LastBefore(trace, i, trace[i]);
    assert trace[i] in Touched(trace, p + 1, i + 1);
    TouchedBound(trace, p + 1, i + 1);
    if i > 0 && trace[i - 1] == trace[i] {
      assert Touched(trace, p + 1, i + 1) == {trace[i]};
    }
  }

  lemma {:induction false} TouchedBound<T>(trace: seq<T>, lo: int, hi: int)
    requires 0 <= lo <= hi <= |trace|
    ensures |Touched(trace, lo, hi)| <= hi - lo
    decreases hi - lo
  {
    if lo < hi {
      TouchedExtend(trace, lo, hi - 1);
      TouchedBound(trace, lo, hi - 1);
    } else {
      assert Touched(trace, lo, hi) == {};
    }
  }

  /** The number of -1 entries is the number of distinct values. */
  lemma {:induction false} FirstTouchesAreDistinctValues<T>(trace: seq<T>)
    ensures FirstTouches(ReuseDistances(trace)) == |set v | v in trace|
  {
    var i := |trace|;
    if i > 0 {
      var init := trace[..i - 1];
      FirstTouchesAreDistinctValues(init);
      PrefixDistances(trace);
      FirstTouchesSnoc(ReuseDistances(init), Distance(trace, i - 1));
      FirstTouchIsMinusOne(trace, i - 1);
      assert trace == init + [trace[i - 1]];
      var seen := set v | v in init;
      assert (set v | v in trace) == seen + {trace[i - 1]};
      if trace[i - 1] in init {
        assert seen + {trace[i - 1]} == seen;
      } else {
        assert trace[i - 1] !in seen;
        assert |seen + {trace[i - 1]}| == |seen| + 1;
      }
    }
  }

  /** The distances of a prefix are a prefix of the distances. */
  lemma PrefixDistances<T>(trace: seq<T>)
    requires |trace| > 0
    ensures ReuseDistances(trace) == ReuseDistances(trace[..|trace| - 1]) + [Distance(trace, |trace| - 1)]
  {
    var init := trace[..|trace| - 1];
    forall j | 0 <= j < |init|
      ensures Distance(init, j) == Distance(trace, j)
    {
      PrefixLastBefore(trace, init, j, trace[j]);
      var p := LastBefore(trace, j, trace[j]);
      if p >= 0 {
        assert Touched(init, p + 1, j + 1) == Touched(trace, p + 1, j + 1);
      }
    }
  }

  lemma {:induction false} PrefixLastBefore<T>(trace: seq<T>, init: seq<T>, i: nat, v: T)
    requires init <= trace && i <= |init|
    ensures LastBefore(init, i, v) == LastBefore(trace, i, v)
  {
    if i > 0 {
      PrefixLastBefore(trace, init, i - 1, v);
    }
  }

  lemma {:induction false} FirstTouchesSnoc(d: seq<int>, x: int)
    ensures FirstTouches(d + [x]) == FirstTouches(d) + (if x == -1 then 1 else 0)
  {
    if d != [] {
      assert (d + [x])[1..] == d[1..] + [x];
      FirstTouchesSnoc(d[1..], x);
    }
  }

  /** Hits never decrease as the cache grows. */
  lemma {:induction false} HitsMonotone(d: seq<int>, small: int, large: int)
    requires small <= large
    ensures Hits(d, small) <= Hits(d, large)
  {
    if d != [] {
      HitsMonotone(d[1..], small, large);
    }
  }

  /** Entries that are not -1 and all at least 1 give no hit at cache size 0,
      and at most as many hits as there are non -1 entries. */
  lemma {:induction false} HitsOfPositive(d: seq<int>, cacheSize: int)
    requires forall k :: 0 <= k < |d| ==> d[k] == -1 || d[k] >= 1
    ensures cacheSize <= 0 ==> Hits(d, cacheSize) == 0
    ensures Hits(d, cacheSize) <= |d| - FirstTouches(d)
  {
    if d != [] {
      HitsOfPositive(d[1..], cacheSize);
    }
  }

  /** `calculate_lru_hits` is 0 at cache size 0 and never exceeds the number
      of accesses minus the number of distinct values. */
  lemma LruHitsBounds<T>(trace: seq<T>, cacheSize: nat)
    ensures Hits(ReuseDistances(trace), 0) == 0
    ensures Hits(ReuseDistances(trace), cacheSize) <= |trace| - |set v | v in trace|
  {
    var d := ReuseDistances(trace);
    forall k | 0 <= k < |d|
      ensures d[k] == -1 || d[k] >= 1
    {
      if d[k] != -1 {
        RepeatDistance(trace, k);
      }
    }
    HitsOfPositive(d, 0);
    HitsOfPositive(d, cacheSize);
    FirstTouchesAreDistinctValues(trace);
  }

  // ---------------------------------------------------------------------
  // calculate_lru_hits_formula
  // ---------------------------------------------------------------------

  /** `calculate_lru_hits_formula(m, c, h)`: 0 when `2c > m + h`, otherwise
      `c! * C(c,h) * C(m-c, c-h) * (m-c)!`. */
  function LruHitsFormula(dataItems: int, cacheSize: int, hits: int): (r: int)
    ensures r >= 0
    ensures 2 * cacheSize > dataItems + hits ==> r == 0
  {
    if 2 * cacheSize <= dataItems + hits then
      var m, c, h := dataItems, cacheSize, hits;
      NonNegativeProduct(Factorial(c), Combinations(c, h), Combinations(m - c, c - h), Factorial(m - c));
      Factorial(c) * Combinations(c, h) * Combinations(m - c, c - h) * Factorial(m - c)
    else 0
  }

  lemma NonNegativeProduct(a: int, b: int, c: int, d: int)
    requires a >= 0 && b >= 0 && c >= 0 && d >= 0
    ensures a * b * c * d >= 0
  {
  }

  /** The sum of the formula over `h = 0 .. i-1`. */
  function FormulaSum(dataItems: int, cacheSize: int, i: nat): int
  {
    if i == 0 then 0 else FormulaSum(dataItems, cacheSize, i - 1) + LruHitsFormula(dataItems, cacheSize, i - 1)
  }

  /** Each term is `c! (m-c)! C(c,h) C(m-c,c-h)`, the guard included. */
  lemma FormulaTerm(m: nat, c: nat, h: nat)
    requires h <= c <= m
    ensures LruHitsFormula(m, c, h) == Factorial(c) * Factorial(m - c) * (Binomial(c, h) * Binomial(m - c, c - h))
  {
    CombinationsIsBinomial(c, h);
    if 2 * c <= m + h {
      CombinationsIsBinomial(m - c, c - h);
      Rearrange4(Factorial(c), Binomial(c, h), Binomial(m - c, c - h), Factorial(m - c));
    } else {
      BinomialOutside(m - c, c - h);
    }
  }

  lemma Rearrange4(a: int, b: int, c: int, d: int)
    ensures a * b * c * d == a * d * (b * c)
  {
  }

  lemma {:induction false} FormulaSumConvolution(m: nat, c: nat, i: nat)
    requires c <= m && i <= c + 1
    ensures FormulaSum(m, c, i) == Factorial(c) * Factorial(m - c) * Convolution(c, m - c, c, i)
  {
    if i > 0 {
      FormulaSumConvolution(m, c, i - 1);
      FormulaTerm(m, c, i - 1);
      var f := Factorial(c) * Factorial(m - c);
      DistributeSum(f, Convolution(c, m - c, c, i - 1), Binomial(c, i - 1) * Binomial(m - c, c - (i - 1)));
    }
  }

  lemma DistributeSum(f: int, x: int, y: int)
    ensures f * x + f * y == f * (x + y)
  {
  }

  /** Summed over `h = 0 .. c`, the formula counts all `m!` orderings. */
  lemma FormulaSumIsFactorial(m: nat, c: nat)
    requires c <= m
    ensures FormulaSum(m, c, c + 1) == Factorial(m)
  {
    FormulaSumConvolution(m, c, c + 1);
    Vandermonde(c, m - c, c);
    BinomialTimesFactorials(m, c);
    var b := Binomial(m, c);
    Rearrange3(Factorial(c), Factorial(m - c), b);
  }

  lemma Rearrange3(a: int, b: int, c: int)
    ensures a * b * c == c * a * b
  {
  }
}
