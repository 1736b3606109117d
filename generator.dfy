/** The default `simulate` of the `Generator` interface,
    src/generator/generator.rs: draw `m + 1` chunks from the generator's
    iterator and concatenate those it yields.  The iterator is abstract:
    `stream(k)` is what its `k`-th `next` call returns. */
module Generator {
  import opened Outcomes

  /** An iterator whose `k`-th `next` call returns `stream(k)`.  A `None`
      does not end it: a later call may yield again. */
  class ChunkIter<T> {
    const stream: nat -> Option<seq<T>>
    /** The number of `next` calls so far. */
    var calls: nat

    constructor (stream: nat -> Option<seq<T>>)
      ensures this.stream == stream && calls == 0
    {
      this.stream := stream;
      calls := 0;
    }

    method Next() returns (r: Option<seq<T>>)
      modifies this
      ensures calls == old(calls) + 1
      ensures r == stream(old(calls))
    {
      r := stream(calls);
      calls := calls + 1;
    }
  }

  /** The concatenation of a sequence of chunks. */
  function Flatten<T>(ss: seq<seq<T>>): seq<T>
  {
    if ss == [] then [] else Flatten(ss[..|ss| - 1]) + ss[|ss| - 1]
  }

  /** The chunks among the outcomes that are `Some`, in order. */
  function Somes<T>(os: seq<Option<seq<T>>>): seq<seq<T>>
  {
    if os == [] then []
    else Somes(os[..|os| - 1]) + (if os[|os| - 1].Some? then [os[|os| - 1].value] else [])
  }

  /** The outcomes of the first `k` calls. */
  function Calls<T>(stream: nat -> Option<seq<T>>, k: nat): (r: seq<Option<seq<T>>>)
    ensures |r| == k && forall i :: 0 <= i < k ==> r[i] == stream(i)
  {
    seq(k, i requires 0 <= i => stream(i))
  }

  /** What `k` calls yield, concatenated. */
  function Collected<T>(stream: nat -> Option<seq<T>>, k: nat): seq<T>
  {
    Flatten(Somes(Calls(stream, k)))
  }

  lemma FlattenAppend<T>(ss: seq<seq<T>>, c: seq<T>)
    ensures Flatten(ss + [c]) == Flatten(ss) + c
  {
    assert (ss + [c])[..|ss|] == ss;
  }

  lemma FlattenEmpty<T>(ss: seq<seq<T>>)
    ensures Flatten(ss + []) == Flatten(ss)
  {
    assert ss + [] == ss;
  }

  /** One more call appends its chunk when it yields one, and nothing when
      it yields `None`. */
  lemma CollectedStep<T>(stream: nat -> Option<seq<T>>, k: nat)
    ensures stream(k).Some? ==> Collected(stream, k + 1) == Collected(stream, k) + stream(k).value
    ensures stream(k).None? ==> Collected(stream, k + 1) == Collected(stream, k)
  {
    var os := Calls(stream, k + 1);
    assert os[..k] == Calls(stream, k);
    if stream(k).Some? {
      FlattenAppend(Somes(Calls(stream, k)), stream(k).value);
    } else {
      FlattenEmpty(Somes(Calls(stream, k)));
    }
  }

  /** `simulate` (src/generator/generator.rs:19-27): a fresh iterator,
      exactly `m + 1` calls of `next`, the yielded chunks appended in
      order. */
  method Simulate<T>(stream: nat -> Option<seq<T>>, m: nat) returns (out: seq<T>, ghost calls: nat)
    ensures calls == m + 1
    ensures out == Collected(stream, m + 1)
  {
    var iter := new ChunkIter(stream);
    out := [];
    for i := 0 to m + 1
      invariant iter.stream == stream && iter.calls == i
      invariant out == Collected(stream, i)
    {
      var next := iter.Next();
      CollectedStep(stream, i);
      if next.Some? {
        out := out + next.value;
      }
    }
    calls := iter.calls;
  }

  /** `simulate(0)` is the first chunk, or empty when the first call yields
      nothing. */
  lemma SimulateZero<T>(stream: nat -> Option<seq<T>>)
    ensures Collected(stream, 1) == if stream(0).Some? then stream(0).value else []
  {
    CollectedStep(stream, 0);
  }

  /** More calls only extend the output: what `j` calls collect is a prefix
      of what `k >= j` calls collect. */
  lemma {:induction false} CollectedPrefix<T>(stream: nat -> Option<seq<T>>, j: nat, k: nat)
    requires j <= k
    ensures Collected(stream, j) <= Collected(stream, k)
    decreases k - j
  {
    if j < k {
      CollectedPrefix(stream, j, k - 1);
      CollectedStep(stream, k - 1);
    }
  }

  /** The sum of the lengths of the chunks the first `k` calls yield. */
  function YieldedLength<T>(stream: nat -> Option<seq<T>>, k: nat): nat
  {
    if k == 0 then 0
    else YieldedLength(stream, k - 1) + (if stream(k - 1).Some? then |stream(k - 1).value| else 0)
  }

  /** The output is as long as all yielded chunks together. */
  lemma {:induction false} CollectedLength<T>(stream: nat -> Option<seq<T>>, k: nat)
    ensures |Collected(stream, k)| == YieldedLength(stream, k)
  {
    if k > 0 {
      CollectedLength(stream, k - 1);
      CollectedStep(stream, k - 1);
    }
  }

  /** Only the first `k` calls matter: two iterators that agree on them
      collect the same output. */
  lemma {:induction false} CollectedDependsOnCalls<T>(s: nat -> Option<seq<T>>, t: nat -> Option<seq<T>>, k: nat)
    requires forall i :: 0 <= i < k ==> s(i) == t(i)
    ensures Collected(s, k) == Collected(t, k)
  {
    if k > 0 {
      CollectedDependsOnCalls(s, t, k - 1);
      CollectedStep(s, k - 1);
      CollectedStep(t, k - 1);
    }
  }

  /** An iterator that yields nothing on its first `k` calls collects
      nothing. */
  lemma {:induction false} CollectedNothing<T>(stream: nat -> Option<seq<T>>, k: nat)
    requires forall i :: 0 <= i < k ==> stream(i).None?
    ensures Collected(stream, k) == []
  {
    if k > 0 {
      CollectedNothing(stream, k - 1);
      CollectedStep(stream, k - 1);
    }
  }
}
