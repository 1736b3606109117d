/** The `Group` interface of src/group_theory/group.rs: the default
    worklist search `get_set` and the iterator `GroupIter`.  The group is
    given by its operation, identity and generators. */
module GroupTheoryGroup {
  import opened Outcomes
  import opened Permutations

  // ---------------------------------------------------------------------
  // Words over the generators
  // ---------------------------------------------------------------------

  /** Left multiplication by any generator keeps `s`. */
  ghost predicate LeftClosed<T>(op: (T, T) -> T, gens: seq<T>, s: set<T>)
  {
    forall j, x :: 0 <= j < |gens| && x in s ==> op(gens[j], x) in s
  }

  /** Every letter of `w` names one of `k` generators. */
  ghost predicate IsWord(w: seq<nat>, k: nat)
  {
    forall i :: 0 <= i < |w| ==> w[i] < k
  }

  /** The element `w` spells: the identity left-multiplied by the
      generators `w` names, its first letter outermost. */
  ghost function Spell<T>(op: (T, T) -> T, e: T, gens: seq<T>, w: seq<nat>): T
    requires IsWord(w, |gens|)
    decreases |w|
  {
    if w == [] then e else op(gens[w[0]], Spell(op, e, gens, w[1..]))
  }

  /** A spelt element lies in every left-closed set holding the
      identity. */
  lemma {:induction false} SpellWithin<T>(op: (T, T) -> T, e: T, gens: seq<T>, s: set<T>, w: seq<nat>)
    requires e in s && LeftClosed(op, gens, s) && IsWord(w, |gens|)
    ensures Spell(op, e, gens, w) in s
    decreases |w|
  {
    if w != [] {
      SpellWithin(op, e, gens, s, w[1..]);
    }
  }

  /** Every element is spelt by the word recorded for it. */
  ghost predicate Spelt<T>(op: (T, T) -> T, e: T, gens: seq<T>, elements: set<T>, words: map<T, seq<nat>>)
  {
    forall x :: x in elements ==> x in words && IsWord(words[x], |gens|) && Spell(op, e, gens, words[x]) == x
  }

  // ---------------------------------------------------------------------
  // `get_set`
  // ---------------------------------------------------------------------

  /** The queue entries are in `universe`, each spelt by its word. */
  ghost predicate QueueSpelt<T>(op: (T, T) -> T, e: T, gens: seq<T>, universe: set<T>, q: seq<T>, qw: seq<seq<nat>>)
  {
    && |qw| == |q|
    && forall i :: 0 <= i < |q| ==> q[i] in universe && IsWord(qw[i], |gens|) && Spell(op, e, gens, qw[i]) == q[i]
  }

  /** Every left product of a kept element is kept or still queued. */
  ghost predicate Pending<T>(op: (T, T) -> T, gens: seq<T>, elements: set<T>, q: seq<T>)
  {
    forall j, x :: 0 <= j < |gens| && x in elements ==> op(gens[j], x) in elements || op(gens[j], x) in q
  }

  /** The entries `for gen in generators { q.push_front(op(gen, x)) }`
      puts in front of the queue, the last generator's first. */
  function Fronted<T>(op: (T, T) -> T, gens: seq<T>, x: T): (r: seq<T>)
    ensures |r| == |gens|
    ensures forall j :: 0 <= j < |gens| ==> r[|gens| - 1 - j] == op(gens[j], x)
  {
    seq(|gens|, i requires 0 <= i < |gens| => op(gens[|gens| - 1 - i], x))
  }

  /** The words of the products `Fronted` queues, given the word of `x`. */
  ghost function FrontedWords(k: nat, w: seq<nat>): (r: seq<seq<nat>>)
    ensures |r| == k
    ensures forall i :: 0 <= i < k ==> r[i] == [k - 1 - i] + w
  {
    seq(k, i requires 0 <= i < k => [k - 1 - i] + w)
  }

  /** The inner loop of `get_set` (src/group_theory/group.rs:29-32): push
      `op(gen, x)` to the front, generator by generator. */
  method PushProducts<T>(op: (T, T) -> T, gens: seq<T>, x: T, q: seq<T>) returns (q': seq<T>)
    ensures q' == Fronted(op, gens, x) + q
  {
    q' := q;
    for k := 0 to |gens|
      invariant q' == Fronted(op, gens[..k], x) + q
    {
      assert Fronted(op, gens[..k + 1], x) == [op(gens[k], x)] + Fronted(op, gens[..k], x);
      q' := [op(gens[k], x)] + q';
    }
    assert gens[..|gens|] == gens;
  }

  /** Popping an entry already kept loses nothing pending. */
  lemma PopSeen<T>(op: (T, T) -> T, gens: seq<T>, elements: set<T>, x: T, rest: seq<T>)
    requires Pending(op, gens, elements, [x] + rest) && x in elements
    ensures Pending(op, gens, elements, rest)
  {
  }

  /** Keeping a popped entry and queueing its products loses nothing
      pending. */
  lemma PopNew<T>(op: (T, T) -> T, gens: seq<T>, elements: set<T>, x: T, rest: seq<T>)
    requires Pending(op, gens, elements, [x] + rest)
    ensures Pending(op, gens, elements + {x}, Fronted(op, gens, x) + rest)
  {
    var f := Fronted(op, gens, x);
    forall j, y | 0 <= j < |gens| && y in elements + {x}
      ensures op(gens[j], y) in elements + {x} || op(gens[j], y) in f + rest
    {
      if y == x {
        assert (f + rest)[|gens| - 1 - j] == op(gens[j], x);
      } else if op(gens[j], y) !in elements + {x} {
        assert op(gens[j], y) in rest;
      }
    }
  }

  /** The products of a spelt entry inside a closed universe are spelt by
      its word with one more letter. */
  lemma PushSpelt<T>(op: (T, T) -> T, e: T, gens: seq<T>, universe: set<T>, x: T, w: seq<nat>, rest: seq<T>, rw: seq<seq<nat>>)
    requires LeftClosed(op, gens, universe) && x in universe
    requires IsWord(w, |gens|) && Spell(op, e, gens, w) == x
    requires QueueSpelt(op, e, gens, universe, rest, rw)
    ensures QueueSpelt(op, e, gens, universe, Fronted(op, gens, x) + rest, FrontedWords(|gens|, w) + rw)
  {
    FrontedSpelt(op, e, gens, universe, x, w);
    QueueSpeltAppend(op, e, gens, universe, Fronted(op, gens, x), FrontedWords(|gens|, w), rest, rw);
  }

  lemma FrontedSpelt<T>(op: (T, T) -> T, e: T, gens: seq<T>, universe: set<T>, x: T, w: seq<nat>)
    requires LeftClosed(op, gens, universe) && x in universe
    requires IsWord(w, |gens|) && Spell(op, e, gens, w) == x
    ensures QueueSpelt(op, e, gens, universe, Fronted(op, gens, x), FrontedWords(|gens|, w))
  {
    var f, fw := Fronted(op, gens, x), FrontedWords(|gens|, w);
    forall i | 0 <= i < |gens|
      ensures f[i] in universe && IsWord(fw[i], |gens|) && Spell(op, e, gens, fw[i]) == f[i]
    {
      var j := |gens| - 1 - i;
      assert f[i] == op(gens[j], x);
      assert fw[i] == [j] + w;
      assert fw[i][1..] == w;
    }
  }

  lemma QueueSpeltAppend<T>(op: (T, T) -> T, e: T, gens: seq<T>, universe: set<T>, q1: seq<T>, w1: seq<seq<nat>>, q2: seq<T>, w2: seq<seq<nat>>)
    requires QueueSpelt(op, e, gens, universe, q1, w1) && QueueSpelt(op, e, gens, universe, q2, w2)
    ensures QueueSpelt(op, e, gens, universe, q1 + q2, w1 + w2)
  {
    var q, qw := q1 + q2, w1 + w2;
    forall i | 0 <= i < |q|
      ensures q[i] in universe && IsWord(qw[i], |gens|) && Spell(op, e, gens, qw[i]) == q[i]
    {
      if i >= |q1| {
        assert q[i] == q2[i - |q1|] && qw[i] == w2[i - |q1|];
      } else {
        assert q[i] == q1[i] && qw[i] == w1[i];
      }
    }
  }

  /** The front entry of a spelt queue is spelt, and so is the rest. */
  lemma QueuePop<T>(op: (T, T) -> T, e: T, gens: seq<T>, universe: set<T>, q: seq<T>, qw: seq<seq<nat>>)
    requires QueueSpelt(op, e, gens, universe, q, qw) && q != []
    ensures q[0] in universe && IsWord(qw[0], |gens|) && Spell(op, e, gens, qw[0]) == q[0]
    ensures QueueSpelt(op, e, gens, universe, q[1..], qw[1..])
    ensures q == [q[0]] + q[1..]
  {
    var r, rw := q[1..], qw[1..];
    forall i | 0 <= i < |r|
      ensures r[i] in universe && IsWord(rw[i], |gens|) && Spell(op, e, gens, rw[i]) == r[i]
    {
      assert r[i] == q[i + 1] && rw[i] == qw[i + 1];
    }
  }

  /** Recording a spelt element with its word keeps every element
      spelt. */
  lemma SpeltAdd<T>(op: (T, T) -> T, e: T, gens: seq<T>, elements: set<T>, words: map<T, seq<nat>>, x: T, w: seq<nat>)
    requires Spelt(op, e, gens, elements, words)
    requires IsWord(w, |gens|) && Spell(op, e, gens, w) == x
    ensures Spelt(op, e, gens, elements + {x}, words[x := w])
  {
  }

  /** The least left-closed set holding the identity contains every set
      of spelt elements. */
  lemma SpeltLeast<T>(op: (T, T) -> T, e: T, gens: seq<T>, elements: set<T>, words: map<T, seq<nat>>)
    requires Spelt(op, e, gens, elements, words)
    ensures forall s :: e in s && LeftClosed(op, gens, s) ==> elements <= s
  {
    forall s | e in s && LeftClosed(op, gens, s)
      ensures elements <= s
    {
      forall x | x in elements
        ensures x in s
      {
        SpellWithin(op, e, gens, s, words[x]);
      }
    }
  }

  /** `get_set` (src/group_theory/group.rs:15-36): starting from the
      identity, pop the front of the queue, skip it when already seen, and
      otherwise keep it and push `op(gen, element)` for every generator to
      the front.  The search ends only on a finite group: `universe` is a
      finite set closed under the generators that holds the identity.  The
      result is the least left-closed set holding the identity, each of its
      elements spelt by a word and expanded exactly once. */
  method GetSet<T(==)>(op: (T, T) -> T, e: T, gens: seq<T>, ghost universe: set<T>)
    returns (elements: set<T>, ghost expanded: seq<T>, ghost words: map<T, seq<nat>>)
    requires e in universe && LeftClosed(op, gens, universe)
    ensures e in elements && elements <= universe
    ensures LeftClosed(op, gens, elements)
    ensures forall s :: e in s && LeftClosed(op, gens, s) ==> elements <= s
    ensures Spelt(op, e, gens, elements, words)
    ensures Distinct(expanded) && Elems(expanded) == elements
  {
    elements, expanded, words := {}, [], map[];
    var q := [e];
    ghost var qw: seq<seq<nat>> := [[]];
    while q != []
      invariant QueueSpelt(op, e, gens, universe, q, qw)
      invariant elements <= universe
      invariant e in elements || e in q
      invariant Spelt(op, e, gens, elements, words)
      invariant Distinct(expanded) && Elems(expanded) == elements
      invariant Pending(op, gens, elements, q)
      decreases |universe - elements|, |q|
    {
      var element := q[0];
      ghost var ew := qw[0];
      QueuePop(op, e, gens, universe, q, qw);
      q, qw := q[1..], qw[1..];
      if element in elements {
        PopSeen(op, gens, elements, element, q);
        continue;
      }
      ghost var before := elements;
      PopNew(op, gens, elements, element, q);
      PushSpelt(op, e, gens, universe, element, ew, q, qw);
      DistinctAppend(expanded, element);
      SpeltAdd(op, e, gens, elements, words, element, ew);
      elements, expanded, words := elements + {element}, expanded + [element], words[element := ew];
      q := PushProducts(op, gens, element, q);
      qw := FrontedWords(|gens|, ew) + qw;
      ProperSubsetCard(universe - elements, universe - before);
    }
    SpeltLeast(op, e, gens, elements, words);
  }

  // ---------------------------------------------------------------------
  // `GroupIter`
  // ---------------------------------------------------------------------

  /** `start` multiplied on the right by `start`, `k` times: `start` to the
      power `k + 1`.  From an idempotent `start` (in a group, the identity)
      every power is `start`. */
  function Power<T>(op: (T, T) -> T, start: T, k: nat): (r: T)
    ensures op(start, start) == start ==> r == start
  {
    if k == 0 then start else op(Power(op, start, k - 1), start)
  }

  ghost predicate Associative<T(!new)>(op: (T, T) -> T)
  {
    forall x, y, z :: op(op(x, y), z) == op(x, op(y, z))
  }

  /** Powers add, shifted by the one factor `start` is: `s^(a+1) s^(b+1) =
      s^(a+b+2)`. */
  lemma {:induction false} PowerAdd<T(!new)>(op: (T, T) -> T, start: T, a: nat, b: nat)
    requires Associative(op)
    ensures op(Power(op, start, a), Power(op, start, b)) == Power(op, start, a + b + 1)
    decreases b
  {
    if b > 0 {
      PowerAdd(op, start, a, b - 1);
      assert op(Power(op, start, a), op(Power(op, start, b - 1), start))
          == op(op(Power(op, start, a), Power(op, start, b - 1)), start);
    }
  }

  /** With a left identity `e` for `start` and right cancellation by
      `start`, the iterator is back at `start` exactly when it has just
      produced the identity. */
  lemma BackAtStart<T>(op: (T, T) -> T, e: T, start: T, k: nat)
    requires op(e, start) == start
    requires forall x, y :: op(x, start) == op(y, start) ==> x == y
    ensures Power(op, start, k + 1) == start <==> Power(op, start, k) == e
  {
    assert Power(op, start, k + 1) == op(Power(op, start, k), start);
  }

  /** `GroupIter` (src/group_theory/group.rs:55-87) over the operation
      `op`: `start` and the current value. */
  class GroupIter<T(==)> {
    const op: (T, T) -> T
    const start: T
    var curr: T
    /** The number of `next` calls so far. */
    ghost var steps: nat

    ghost predicate Valid()
      reads this
    {
      curr == Power(op, start, steps)
    }

    /** `GroupIter::new` (src/group_theory/group.rs:65-71). */
    constructor (curr0: T, op: (T, T) -> T)
      ensures this.op == op && start == curr0 && curr == curr0 && steps == 0
      ensures Valid()
    {
      this.op := op;
      start := curr0;
      curr := curr0;
      steps := 0;
    }

    /** `next` (src/group_theory/group.rs:79-86): multiply on the right by
        `start`, and yield the new value unless it is `start` again. */
    method Next() returns (r: Option<T>)
      requires Valid()
      modifies this
      ensures Valid() && steps == old(steps) + 1
      ensures curr == op(old(curr), start)
      ensures r == if curr != start then Some(curr) else None
    {
      curr := op(curr, start);
      steps := steps + 1;
      if curr != start {
        r := Some(curr);
      } else {
        r := None;
      }
    }
  }

  /** Addition modulo 5, a cyclic group of order 5. */
  function AddMod5(a: int, b: int): int
  {
    (a + b) % 5
  }

  /** The iterator over integers modulo 5 from 2 holds 4, 1, 3 and 0
      after its first four calls, each yielded, and 2 again after the fifth,
      which yields nothing. */
  lemma AddMod5Orbit(start: int)
    requires start == 2
    ensures Power(AddMod5, start, 1) == 4 && Power(AddMod5, start, 2) == 1
    ensures Power(AddMod5, start, 3) == 3 && Power(AddMod5, start, 4) == 0
    ensures Power(AddMod5, start, 5) == start
  {
    assert Power(AddMod5, start, 1) == 4;
    assert Power(AddMod5, start, 2) == 1;
    assert Power(AddMod5, start, 3) == 3;
    assert Power(AddMod5, start, 4) == 0;
  }
}
