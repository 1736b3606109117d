/** The unit tests of src/locality/reuse.rs and src/reuse.rs, restated as
    lemmas about the specification functions that the two
    `CalculateReuseDistance` methods and `CalculateLruHits` are proved to
    compute.  A trace of one-letter strings is written as a string. */
module ReuseExamples {
  import opened LocalityReuse
  import opened Reuse

  /** The distinct values at positions `lo .. hi-1`, unfolded one position
      at a time. */
  function Window<T>(t: seq<T>, lo: nat, hi: nat): set<T>
    requires lo <= hi <= |t|
    decreases hi - lo
  {
    if lo == hi then {} else {t[lo]} + Window(t, lo + 1, hi)
  }

  lemma {:induction false} WindowIsTouched<T>(t: seq<T>, lo: nat, hi: nat)
    requires lo <= hi <= |t|
    ensures Window(t, lo, hi) == Touched(t, lo, hi)
    decreases hi - lo
  {
    if lo < hi {
      WindowIsTouched(t, lo + 1, hi);
    }
  }

  /** The distance of a repeated access whose previous access is at `p`. */
  lemma RepeatAt<T>(t: seq<T>, i: nat, p: nat)
    requires p < i < |t| && t[p] == t[i]
    requires forall k :: p < k < i ==> t[k] != t[i]
    ensures Distance(t, i) == |Window(t, p + 1, i + 1)|
  {
    assert LastBefore(t, i, t[i]) == p;
    WindowIsTouched(t, p + 1, i + 1);
  }

  /** The distance of a first access. */
  lemma FirstAt<T>(t: seq<T>, i: nat)
    requires i < |t|
    requires forall k :: 0 <= k < i ==> t[k] != t[i]
    ensures Distance(t, i) == -1
  {
    FirstTouchIsMinusOne(t, i);
  }

  lemma DistancesAre<T>(t: seq<T>, d: seq<int>)
    requires |d| == |t| && forall i :: 0 <= i < |t| ==> Distance(t, i) == d[i]
    ensures ReuseDistances(t) == d
  {
  }

  lemma SimpleTraceFirsts()
    ensures Distance("abcbdca", 0) == -1 && Distance("abcbdca", 1) == -1 && Distance("abcbdca", 2) == -1 && Distance("abcbdca", 4) == -1
  {
    var t := "abcbdca";
    FirstAt(t, 0); FirstAt(t, 1); FirstAt(t, 2); FirstAt(t, 4);
  }

  lemma SimpleTraceAt3()
    ensures Distance("abcbdca", 3) == 2
  {
    var t := "abcbdca";
    RepeatAt(t, 3, 1);
    WindowIsTouched(t, 2, 4);
    assert Window(t, 2, 4) == {'b', 'c'};
  }

  lemma SimpleTraceAt5()
    ensures Distance("abcbdca", 5) == 3
  {
    var t := "abcbdca";
    RepeatAt(t, 5, 2);
    WindowIsTouched(t, 3, 6);
    assert Window(t, 3, 6) == {'b', 'c', 'd'};
  }

  lemma SimpleTraceAt6()
    ensures Distance("abcbdca", 6) == 4
  {
    var t := "abcbdca";
    RepeatAt(t, 6, 0);
    WindowIsTouched(t, 1, 7);
    assert Window(t, 1, 7) == {'a', 'b', 'c', 'd'};
  }

  /** `simple_trace` of src/locality/reuse.rs. */
  lemma SimpleTrace()
    ensures ReuseDistances("abcbdca") == [-1, -1, -1, 2, -1, 3, 4]
  {
    SimpleTraceFirsts(); SimpleTraceAt3(); SimpleTraceAt5(); SimpleTraceAt6();
    DistancesAre("abcbdca", [-1, -1, -1, 2, -1, 3, 4]);
  }

  /** `simple_trace_hits` of src/locality/reuse.rs: two hits with a cache of 3. */
  lemma SimpleTraceHits()
    ensures Hits(ReuseDistances("abcbdca"), 3) == 2
  {
    SimpleTrace();
  }

  lemma CyclicFirsts()
    ensures Distance("abcdabcd", 0) == -1 && Distance("abcdabcd", 1) == -1 && Distance("abcdabcd", 2) == -1 && Distance("abcdabcd", 3) == -1
  {
    var t := "abcdabcd";
    FirstAt(t, 0); FirstAt(t, 1); FirstAt(t, 2); FirstAt(t, 3);
  }

  lemma CyclicAt4()
    ensures Distance("abcdabcd", 4) == 4
  {
    var t := "abcdabcd";
    RepeatAt(t, 4, 0);
    WindowIsTouched(t, 1, 5);
    assert Window(t, 1, 5) == {'a', 'b', 'c', 'd'};
  }

  lemma CyclicAt5()
    ensures Distance("abcdabcd", 5) == 4
  {
    var t := "abcdabcd";
    RepeatAt(t, 5, 1);
    WindowIsTouched(t, 2, 6);
    assert Window(t, 2, 6) == {'a', 'b', 'c', 'd'};
  }

  lemma CyclicAt6()
    ensures Distance("abcdabcd", 6) == 4
  {
    var t := "abcdabcd";
    RepeatAt(t, 6, 2);
    WindowIsTouched(t, 3, 7);
    assert Window(t, 3, 7) == {'a', 'b', 'c', 'd'};
  }

  lemma CyclicAt7()
    ensures Distance("abcdabcd", 7) == 4
  {
    var t := "abcdabcd";
    RepeatAt(t, 7, 3);
    WindowIsTouched(t, 4, 8);
    assert Window(t, 4, 8) == {'a', 'b', 'c', 'd'};
  }

  /** `cyclic` of src/locality/reuse.rs. */
  lemma Cyclic()
    ensures ReuseDistances("abcdabcd") == [-1, -1, -1, -1, 4, 4, 4, 4]
  {
    CyclicFirsts(); CyclicAt4(); CyclicAt5(); CyclicAt6(); CyclicAt7();
    DistancesAre("abcdabcd", [-1, -1, -1, -1, 4, 4, 4, 4]);
  }

  lemma SawtoothFirsts()
    ensures Distance("abcddcba", 0) == -1 && Distance("abcddcba", 1) == -1 && Distance("abcddcba", 2) == -1 && Distance("abcddcba", 3) == -1
  {
    var t := "abcddcba";
    FirstAt(t, 0); FirstAt(t, 1); FirstAt(t, 2); FirstAt(t, 3);
  }

  lemma SawtoothAt4()
    ensures Distance("abcddcba", 4) == 1
  {
    var t := "abcddcba";
    RepeatAt(t, 4, 3);
    WindowIsTouched(t, 4, 5);
    assert Window(t, 4, 5) == {'d'};
  }

  lemma SawtoothAt5()
    ensures Distance("abcddcba", 5) == 2
  {
    var t := "abcddcba";
    RepeatAt(t, 5, 2);
    WindowIsTouched(t, 3, 6);
    assert Window(t, 3, 6) == {'c', 'd'};
  }

  lemma SawtoothAt6()
    ensures Distance("abcddcba", 6) == 3
  {
    var t := "abcddcba";
    RepeatAt(t, 6, 1);
    WindowIsTouched(t, 2, 7);
    assert Window(t, 2, 7) == {'b', 'c', 'd'};
  }

  lemma SawtoothAt7()
    ensures Distance("abcddcba", 7) == 4
  {
    var t := "abcddcba";
    RepeatAt(t, 7, 0);
    WindowIsTouched(t, 1, 8);
    assert Window(t, 4, 8) == {'a', 'b', 'c', 'd'};
    assert Window(t, 1, 8) == {'a', 'b', 'c', 'd'};
  }

  /** `sawtooth` of src/locality/reuse.rs. */
  lemma Sawtooth()
    ensures ReuseDistances("abcddcba") == [-1, -1, -1, -1, 1, 2, 3, 4]
  {
    SawtoothFirsts(); SawtoothAt4(); SawtoothAt5(); SawtoothAt6(); SawtoothAt7();
    DistancesAre("abcddcba", [-1, -1, -1, -1, 1, 2, 3, 4]);
  }

  lemma ReversedSimpleTraceFirsts()
    ensures Distance("acdbcba", 0) == -1 && Distance("acdbcba", 1) == -1 && Distance("acdbcba", 2) == -1 && Distance("acdbcba", 3) == -1
  {
    var t := "acdbcba";
    FirstAt(t, 0); FirstAt(t, 1); FirstAt(t, 2); FirstAt(t, 3);
  }

  lemma ReversedSimpleTraceAt4()
    ensures Distance("acdbcba", 4) == 3
  {
    var t := "acdbcba";
    RepeatAt(t, 4, 1);
    WindowIsTouched(t, 2, 5);
    assert Window(t, 2, 5) == {'b', 'c', 'd'};
  }

  lemma ReversedSimpleTraceAt5()
    ensures Distance("acdbcba", 5) == 2
  {
    var t := "acdbcba";
    RepeatAt(t, 5, 3);
    WindowIsTouched(t, 4, 6);
    assert Window(t, 4, 6) == {'b', 'c'};
  }

  lemma ReversedSimpleTraceAt6()
    ensures Distance("acdbcba", 6) == 4
  {
    var t := "acdbcba";
    RepeatAt(t, 6, 0);
    WindowIsTouched(t, 1, 7);
    assert Window(t, 1, 7) == {'a', 'b', 'c', 'd'};
  }

  /** The reversed `simple_trace`, which src/reuse.rs scans. */
  lemma ReversedSimpleTrace()
    ensures ReuseDistances("acdbcba") == [-1, -1, -1, -1, 3, 2, 4]
  {
    ReversedSimpleTraceFirsts(); ReversedSimpleTraceAt4(); ReversedSimpleTraceAt5(); ReversedSimpleTraceAt6();
    DistancesAre("acdbcba", [-1, -1, -1, -1, 3, 2, 4]);
  }

  lemma ReversedCyclicFirsts()
    ensures Distance("dcbadcba", 0) == -1 && Distance("dcbadcba", 1) == -1 && Distance("dcbadcba", 2) == -1 && Distance("dcbadcba", 3) == -1
  {
    var t := "dcbadcba";
    FirstAt(t, 0); FirstAt(t, 1); FirstAt(t, 2); FirstAt(t, 3);
  }

  lemma ReversedCyclicAt4()
    ensures Distance("dcbadcba", 4) == 4
  {
    var t := "dcbadcba";
    RepeatAt(t, 4, 0);
    WindowIsTouched(t, 1, 5);
    assert Window(t, 1, 5) == {'a', 'b', 'c', 'd'};
  }

  lemma ReversedCyclicAt5()
    ensures Distance("dcbadcba", 5) == 4
  {
    var t := "dcbadcba";
    RepeatAt(t, 5, 1);
    WindowIsTouched(t, 2, 6);
    assert Window(t, 2, 6) == {'a', 'b', 'c', 'd'};
  }

  lemma ReversedCyclicAt6()
    ensures Distance("dcbadcba", 6) == 4
  {
    var t := "dcbadcba";
    RepeatAt(t, 6, 2);
    WindowIsTouched(t, 3, 7);
    assert Window(t, 3, 7) == {'a', 'b', 'c', 'd'};
  }

  lemma ReversedCyclicAt7()
    ensures Distance("dcbadcba", 7) == 4
  {
    var t := "dcbadcba";
    RepeatAt(t, 7, 3);
    WindowIsTouched(t, 4, 8);
    assert Window(t, 4, 8) == {'a', 'b', 'c', 'd'};
  }

  /** The reversed `cyclic` trace. */
  lemma ReversedCyclic()
    ensures ReuseDistances("dcbadcba") == [-1, -1, -1, -1, 4, 4, 4, 4]
  {
    ReversedCyclicFirsts(); ReversedCyclicAt4(); ReversedCyclicAt5(); ReversedCyclicAt6(); ReversedCyclicAt7();
    DistancesAre("dcbadcba", [-1, -1, -1, -1, 4, 4, 4, 4]);
  }

  /** `simple_trace` of src/reuse.rs: the backward distances. */
  lemma BackwardSimpleTrace()
    ensures Reverse(ReuseDistances(Reverse("abcbdca"))) == [4, 2, 3, -1, -1, -1, -1]
  {
    assert Reverse("abcbdca") == "acdbcba";
    ReversedSimpleTrace();
  }

  /** `cyclic` of src/reuse.rs. */
  lemma BackwardCyclic()
    ensures Reverse(ReuseDistances(Reverse("abcdabcd"))) == [4, 4, 4, 4, -1, -1, -1, -1]
  {
    assert Reverse("abcdabcd") == "dcbadcba";
    ReversedCyclic();
  }

  /** `sawtooth` of src/reuse.rs: the trace is its own reverse. */
  lemma BackwardSawtooth()
    ensures Reverse(ReuseDistances(Reverse("abcddcba"))) == [4, 3, 2, 1, -1, -1, -1, -1]
  {
    var t := "abcddcba";
    assert Reverse(t) == t;
    Sawtooth();
    var d: seq<int> := [-1, -1, -1, -1, 1, 2, 3, 4];
    assert Reverse(d) == [4, 3, 2, 1, -1, -1, -1, -1];
  }

  lemma HitsTrace1Firsts()
    ensures Distance([1, 2, 3, 4, 1, 2, 3, 4], 0) == -1 && Distance([1, 2, 3, 4, 1, 2, 3, 4], 1) == -1 && Distance([1, 2, 3, 4, 1, 2, 3, 4], 2) == -1 && Distance([1, 2, 3, 4, 1, 2, 3, 4], 3) == -1
  {
    var t := [1, 2, 3, 4, 1, 2, 3, 4];
    FirstAt(t, 0); FirstAt(t, 1); FirstAt(t, 2); FirstAt(t, 3);
  }

  lemma HitsTrace1At4()
    ensures Distance([1, 2, 3, 4, 1, 2, 3, 4], 4) == 4
  {
    var t := [1, 2, 3, 4, 1, 2, 3, 4];
    RepeatAt(t, 4, 0);
    WindowIsTouched(t, 1, 5);
    assert Window(t, 1, 5) == {1, 2, 3, 4};
  }

  lemma HitsTrace1At5()
    ensures Distance([1, 2, 3, 4, 1, 2, 3, 4], 5) == 4
  {
    var t := [1, 2, 3, 4, 1, 2, 3, 4];
    RepeatAt(t, 5, 1);
    WindowIsTouched(t, 2, 6);
    assert Window(t, 2, 6) == {1, 2, 3, 4};
  }

  lemma HitsTrace1At6()
    ensures Distance([1, 2, 3, 4, 1, 2, 3, 4], 6) == 4
  {
    var t := [1, 2, 3, 4, 1, 2, 3, 4];
    RepeatAt(t, 6, 2);
    WindowIsTouched(t, 3, 7);
    assert Window(t, 3, 7) == {1, 2, 3, 4};
  }

  lemma HitsTrace1At7()
    ensures Distance([1, 2, 3, 4, 1, 2, 3, 4], 7) == 4
  {
    var t := [1, 2, 3, 4, 1, 2, 3, 4];
    RepeatAt(t, 7, 3);
    WindowIsTouched(t, 4, 8);
    assert Window(t, 4, 8) == {1, 2, 3, 4};
  }

  /** A trace of `simple_trace_hits_1` in src/locality/reuse.rs. */
  lemma HitsTrace1()
    ensures ReuseDistances([1, 2, 3, 4, 1, 2, 3, 4]) == [-1, -1, -1, -1, 4, 4, 4, 4]
  {
    HitsTrace1Firsts(); HitsTrace1At4(); HitsTrace1At5(); HitsTrace1At6(); HitsTrace1At7();
    DistancesAre([1, 2, 3, 4, 1, 2, 3, 4], [-1, -1, -1, -1, 4, 4, 4, 4]);
  }

  lemma HitsTrace2Firsts()
    ensures Distance([1, 2, 3, 4, 2, 1, 3, 4], 0) == -1 && Distance([1, 2, 3, 4, 2, 1, 3, 4], 1) == -1 && Distance([1, 2, 3, 4, 2, 1, 3, 4], 2) == -1 && Distance([1, 2, 3, 4, 2, 1, 3, 4], 3) == -1
  {
    var t := [1, 2, 3, 4, 2, 1, 3, 4];
    FirstAt(t, 0); FirstAt(t, 1); FirstAt(t, 2); FirstAt(t, 3);
  }

  lemma HitsTrace2At4()
    ensures Distance([1, 2, 3, 4, 2, 1, 3, 4], 4) == 3
  {
    var t := [1, 2, 3, 4, 2, 1, 3, 4];
    RepeatAt(t, 4, 1);
    WindowIsTouched(t, 2, 5);
    assert Window(t, 2, 5) == {2, 3, 4};
  }

  lemma HitsTrace2At5()
    ensures Distance([1, 2, 3, 4, 2, 1, 3, 4], 5) == 4
  {
    var t := [1, 2, 3, 4, 2, 1, 3, 4];
    RepeatAt(t, 5, 0);
    WindowIsTouched(t, 1, 6);
    assert Window(t, 1, 6) == {1, 2, 3, 4};
  }

  lemma HitsTrace2At6()
    ensures Distance([1, 2, 3, 4, 2, 1, 3, 4], 6) == 4
  {
    var t := [1, 2, 3, 4, 2, 1, 3, 4];
    RepeatAt(t, 6, 2);
    WindowIsTouched(t, 3, 7);
    assert Window(t, 3, 7) == {1, 2, 3, 4};
  }

  lemma HitsTrace2At7()
    ensures Distance([1, 2, 3, 4, 2, 1, 3, 4], 7) == 4
  {
    var t := [1, 2, 3, 4, 2, 1, 3, 4];
    RepeatAt(t, 7, 3);
    WindowIsTouched(t, 4, 8);
    assert Window(t, 4, 8) == {1, 2, 3, 4};
  }

  /** A trace of `simple_trace_hits_1` in src/locality/reuse.rs. */
  lemma HitsTrace2()
    ensures ReuseDistances([1, 2, 3, 4, 2, 1, 3, 4]) == [-1, -1, -1, -1, 3, 4, 4, 4]
  {
    HitsTrace2Firsts(); HitsTrace2At4(); HitsTrace2At5(); HitsTrace2At6(); HitsTrace2At7();
    DistancesAre([1, 2, 3, 4, 2, 1, 3, 4], [-1, -1, -1, -1, 3, 4, 4, 4]);
  }

  lemma HitsTrace3Firsts()
    ensures Distance([1, 2, 3, 4, 1, 3, 2, 4], 0) == -1 && Distance([1, 2, 3, 4, 1, 3, 2, 4], 1) == -1 && Distance([1, 2, 3, 4, 1, 3, 2, 4], 2) == -1 && Distance([1, 2, 3, 4, 1, 3, 2, 4], 3) == -1
  {
    var t := [1, 2, 3, 4, 1, 3, 2, 4];
    FirstAt(t, 0); FirstAt(t, 1); FirstAt(t, 2); FirstAt(t, 3);
  }

  lemma HitsTrace3At4()
    ensures Distance([1, 2, 3, 4, 1, 3, 2, 4], 4) == 4
  {
    var t := [1, 2, 3, 4, 1, 3, 2, 4];
    RepeatAt(t, 4, 0);
    WindowIsTouched(t, 1, 5);
    assert Window(t, 1, 5) == {1, 2, 3, 4};
  }

  lemma HitsTrace3At5()
    ensures Distance([1, 2, 3, 4, 1, 3, 2, 4], 5) == 3
  {
    var t := [1, 2, 3, 4, 1, 3, 2, 4];
    RepeatAt(t, 5, 2);
    WindowIsTouched(t, 3, 6);
    assert Window(t, 3, 6) == {1, 3, 4};
  }

  lemma HitsTrace3At6()
    ensures Distance([1, 2, 3, 4, 1, 3, 2, 4], 6) == 4
  {
    var t := [1, 2, 3, 4, 1, 3, 2, 4];
    RepeatAt(t, 6, 1);
    WindowIsTouched(t, 2, 7);
    assert Window(t, 2, 7) == {1, 2, 3, 4};
  }

  lemma HitsTrace3At7()
    ensures Distance([1, 2, 3, 4, 1, 3, 2, 4], 7) == 4
  {
    var t := [1, 2, 3, 4, 1, 3, 2, 4];
    RepeatAt(t, 7, 3);
    WindowIsTouched(t, 4, 8);
    assert Window(t, 4, 8) == {1, 2, 3, 4};
  }

  /** A trace of `simple_trace_hits_1` in src/locality/reuse.rs. */
  lemma HitsTrace3()
    ensures ReuseDistances([1, 2, 3, 4, 1, 3, 2, 4]) == [-1, -1, -1, -1, 4, 3, 4, 4]
  {
    HitsTrace3Firsts(); HitsTrace3At4(); HitsTrace3At5(); HitsTrace3At6(); HitsTrace3At7();
    DistancesAre([1, 2, 3, 4, 1, 3, 2, 4], [-1, -1, -1, -1, 4, 3, 4, 4]);
  }

  lemma HitsTrace4Firsts()
    ensures Distance([1, 2, 3, 4, 1, 2, 4, 3], 0) == -1 && Distance([1, 2, 3, 4, 1, 2, 4, 3], 1) == -1 && Distance([1, 2, 3, 4, 1, 2, 4, 3], 2) == -1 && Distance([1, 2, 3, 4, 1, 2, 4, 3], 3) == -1
  {
    var t := [1, 2, 3, 4, 1, 2, 4, 3];
    FirstAt(t, 0); FirstAt(t, 1); FirstAt(t, 2); FirstAt(t, 3);
  }

  lemma HitsTrace4At4()
    ensures Distance([1, 2, 3, 4, 1, 2, 4, 3], 4) == 4
  {
    var t := [1, 2, 3, 4, 1, 2, 4, 3];
    RepeatAt(t, 4, 0);
    WindowIsTouched(t, 1, 5);
    assert Window(t, 1, 5) == {1, 2, 3, 4};
  }

  lemma HitsTrace4At5()
    ensures Distance([1, 2, 3, 4, 1, 2, 4, 3], 5) == 4
  {
    var t := [1, 2, 3, 4, 1, 2, 4, 3];
    RepeatAt(t, 5, 1);
    WindowIsTouched(t, 2, 6);
    assert Window(t, 2, 6) == {1, 2, 3, 4};
  }

  lemma HitsTrace4At6()
    ensures Distance([1, 2, 3, 4, 1, 2, 4, 3], 6) == 3
  {
    var t := [1, 2, 3, 4, 1, 2, 4, 3];
    RepeatAt(t, 6, 3);
    WindowIsTouched(t, 4, 7);
    assert Window(t, 4, 7) == {1, 2, 4};
  }

  lemma HitsTrace4At7()
    ensures Distance([1, 2, 3, 4, 1, 2, 4, 3], 7) == 4
  {
    var t := [1, 2, 3, 4, 1, 2, 4, 3];
    RepeatAt(t, 7, 2);
    WindowIsTouched(t, 3, 8);
    assert Window(t, 3, 8) == {1, 2, 3, 4};
  }

  /** A trace of `simple_trace_hits_1` in src/locality/reuse.rs. */
  lemma HitsTrace4()
    ensures ReuseDistances([1, 2, 3, 4, 1, 2, 4, 3]) == [-1, -1, -1, -1, 4, 4, 3, 4]
  {
    HitsTrace4Firsts(); HitsTrace4At4(); HitsTrace4At5(); HitsTrace4At6(); HitsTrace4At7();
    DistancesAre([1, 2, 3, 4, 1, 2, 4, 3], [-1, -1, -1, -1, 4, 4, 3, 4]);
  }

  /** `simple_trace_hits_1` of src/locality/reuse.rs: none of its four
      traces hits with a cache of 2. */
  lemma NoHitsWithCacheOfTwo()
    ensures Hits(ReuseDistances([1, 2, 3, 4, 1, 2, 3, 4]), 2) == 0
    ensures Hits(ReuseDistances([1, 2, 3, 4, 2, 1, 3, 4]), 2) == 0
    ensures Hits(ReuseDistances([1, 2, 3, 4, 1, 3, 2, 4]), 2) == 0
    ensures Hits(ReuseDistances([1, 2, 3, 4, 1, 2, 4, 3]), 2) == 0
  {
    HitsTrace1(); HitsTrace2(); HitsTrace3(); HitsTrace4();
  }
}
