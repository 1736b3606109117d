/** `chain_find` of src/locality/chainfind.rs: a greedy walk through the
    permutations of one ground, each step to a neighbour (the tail
    multiplied by a generator on either side) of strictly greater locality,
    the one of least locality among those.  The locality measure is the
    parameter `locality`, the generators, the ground size of the group and
    the element order `gt` are inputs. */
module LocalityChainFind {
  import opened Outcomes
  import opened GroupTheoryCycle
  import opened CycleInversions

  /** `node * gen` (left) or `gen * node` for every generator in order; the
      first panicking product is the result. */
  function Products<V(==)>(node: Cycle<V>, gens: seq<Cycle<V>>, left: bool): Result<seq<Cycle<V>>>
  {
    if gens == [] then Ok([])
    else
      var prev := Products(node, gens[..|gens| - 1], left);
      var g := gens[|gens| - 1];
      var p := if left then MulSpec(node, g) else MulSpec(g, node);
      if prev.Err? then prev
      else if p.Err? then Err(p.fault)
      else Ok(prev.value + [p.value])
  }

  /** The products that succeed are the generators' products, one each,
      in order. */
  lemma {:induction false} ProductsShape<V>(node: Cycle<V>, gens: seq<Cycle<V>>, left: bool)
    requires Products(node, gens, left).Ok?
    ensures |Products(node, gens, left).value| == |gens|
    ensures forall j :: 0 <= j < |gens| ==>
      (if left then MulSpec(node, gens[j]) else MulSpec(gens[j], node)) == Ok(Products(node, gens, left).value[j])
  {
    if gens != [] {
      var p := gens[..|gens| - 1];
      ProductsShape(node, p, left);
      forall j | 0 <= j < |gens| - 1
        ensures gens[j] == p[j]
      {
      }
    }
  }

  /** `total` (src/locality/chainfind.rs:32-40): the left products, then
      the right ones. */
  function Neighbours<V(==)>(node: Cycle<V>, gens: seq<Cycle<V>>): Result<seq<Cycle<V>>>
  {
    var l := Products(node, gens, true);
    var r := Products(node, gens, false);
    if l.Err? then l else if r.Err? then r else Ok(l.value + r.value)
  }

  /** The filter of src/locality/chainfind.rs:41-44: the entries of locality
      strictly above `base`, in order. */
  function Better<V>(total: seq<Cycle<V>>, locality: Cycle<V> -> int, base: int): (r: seq<Cycle<V>>)
    ensures forall i :: 0 <= i < |r| ==> r[i] in total && locality(r[i]) > base
    ensures forall i :: 0 <= i < |total| && locality(total[i]) > base ==> total[i] in r
  {
    if total == [] then []
    else
      var last := total[|total| - 1];
      var prev := Better(total[..|total| - 1], locality, base);
      assert forall i :: 0 <= i < |total| - 1 ==> total[i] == total[..|total| - 1][i];
      prev + (if locality(last) > base then [last] else [])
  }

  /** A step of the walk from `prev` to `next`: every product succeeds,
      `next` is one of those of greater locality, and none of them has a
      smaller locality than `next`. */
  ghost predicate GreedyStep<V>(gens: seq<Cycle<V>>, locality: Cycle<V> -> int, prev: Cycle<V>, next: Cycle<V>)
  {
    && Neighbours(prev, gens).Ok?
    && next in Better(Neighbours(prev, gens).value, locality, locality(prev))
    && forall y :: y in Better(Neighbours(prev, gens).value, locality, locality(prev)) ==> locality(next) <= locality(y)
  }

  /** The walk cannot go on from `node`: its products succeed but none has
      greater locality. */
  ghost predicate Stuck<V>(gens: seq<Cycle<V>>, locality: Cycle<V> -> int, node: Cycle<V>)
  {
    Neighbours(node, gens).Ok? && Better(Neighbours(node, gens).value, locality, locality(node)) == []
  }

  /** A step goes to a product of `prev` with a generator on one side, and
      locality strictly increases. */
  lemma GreedyStepMeans<V>(gens: seq<Cycle<V>>, locality: Cycle<V> -> int, prev: Cycle<V>, next: Cycle<V>)
    requires GreedyStep(gens, locality, prev, next)
    ensures locality(prev) < locality(next)
    ensures exists j :: 0 <= j < |gens| && (MulSpec(prev, gens[j]) == Ok(next) || MulSpec(gens[j], prev) == Ok(next))
  {
    var l, r := Products(prev, gens, true), Products(prev, gens, false);
    ProductsShape(prev, gens, true);
    ProductsShape(prev, gens, false);
    var total := l.value + r.value;
    assert next in total;
    var i :| 0 <= i < |total| && total[i] == next;
    if i < |gens| {
      assert MulSpec(prev, gens[i]) == Ok(next);
    } else {
      assert r.value[i - |gens|] == next;
      assert MulSpec(gens[i - |gens|], prev) == Ok(next);
    }
  }

  /** Among the entries of a non-empty sequence one has the least
      locality. */
  lemma {:induction false} LeastExists<V>(s: seq<Cycle<V>>, locality: Cycle<V> -> int)
    requires s != []
    ensures exists x :: x in s && forall y :: y in s ==> locality(x) <= locality(y)
  {
    if |s| > 1 {
      var p := s[..|s| - 1];
      LeastExists(p, locality);
      var m :| m in p && forall y :: y in p ==> locality(m) <= locality(y);
      var last := s[|s| - 1];
      assert forall y :: y in s ==> y in p || y == last;
      if locality(last) < locality(m) {
        assert last in s;
      } else {
        assert m in s;
      }
    } else {
      assert forall y :: y in s ==> y == s[0];
      assert s[0] in s;
    }
  }

  /** `max_length` (src/locality/chainfind.rs:26-29). */
  function MaxLength(groundSize: nat, maxlen: nat): nat
  {
    Min(groundSize * (groundSize + 1) / 2, maxlen)
  }

  /** Each entry after the first is a greedy step from the one before. */
  ghost predicate Greedy<V>(gens: seq<Cycle<V>>, locality: Cycle<V> -> int, chain: seq<Cycle<V>>)
  {
    forall i :: 0 < i < |chain| ==> GreedyStep(gens, locality, chain[i - 1], chain[i])
  }

  /** A greedy chain extended by a greedy step from its last entry is
      greedy. */
  lemma GreedyExtend<V>(gens: seq<Cycle<V>>, locality: Cycle<V> -> int, chain: seq<Cycle<V>>, next: Cycle<V>)
    requires chain != [] && Greedy(gens, locality, chain)
    requires GreedyStep(gens, locality, chain[|chain| - 1], next)
    ensures Greedy(gens, locality, chain + [next])
  {
    var c := chain + [next];
    forall i | 0 < i < |c|
      ensures GreedyStep(gens, locality, c[i - 1], c[i])
    {
      if i < |chain| {
        assert c[i - 1] == chain[i - 1] && c[i] == chain[i];
      } else {
        assert c[i - 1] == chain[|chain| - 1] && c[i] == next;
      }
    }
  }

  /** Along a greedy chain locality strictly increases. */
  lemma {:induction false} GreedyIncreases<V>(gens: seq<Cycle<V>>, locality: Cycle<V> -> int, chain: seq<Cycle<V>>, i: nat, j: nat)
    requires Greedy(gens, locality, chain) && i < j < |chain|
    ensures locality(chain[i]) < locality(chain[j])
    decreases j - i
  {
    GreedyStepMeans(gens, locality, chain[j - 1], chain[j]);
    if i < j - 1 {
      GreedyIncreases(gens, locality, chain, i, j - 1);
    }
  }

  /** `chain_find` (src/locality/chainfind.rs:11-67).  The chain starts at
      `start` and walks greedily; with `inv` the inversions of `start`, it
      holds `start` alone when `inv >= max_length`, otherwise at most
      `max_length - inv` steps, and fewer only when the walk is stuck.  It
      fails when `inversions` or a product panics, and then `walk` is the
      chain so far, its last entry the one whose products failed. */
  method ChainFind<V(==)>(gens: seq<Cycle<V>>, groundSize: nat, start: Cycle<V>, locality: Cycle<V> -> int,
                          gt: (V, V) -> bool, maxlen: nat)
    returns (r: Result<seq<Cycle<V>>>, ghost walk: seq<Cycle<V>>)
    ensures |walk| >= 1 && walk[0] == start && Greedy(gens, locality, walk)
    ensures r.Ok? ==> r.value == walk && InversionsSpec(start, gt).Ok?
    ensures r.Ok? ==> var chain, inv := r.value, InversionsSpec(start, gt).value;
      && |chain| >= 1 && chain[0] == start && Greedy(gens, locality, chain)
      && (inv >= MaxLength(groundSize, maxlen) ==> chain == [start])
      && (inv < MaxLength(groundSize, maxlen) ==> inv + |chain| - 1 <= MaxLength(groundSize, maxlen))
      && (inv + |chain| - 1 < MaxLength(groundSize, maxlen) ==> Stuck(gens, locality, chain[|chain| - 1]))
    ensures r.Err? ==> InversionsSpec(start, gt).Err? || Neighbours(walk[|walk| - 1], gens).Err?
  {
    var res := [start];
    walk := res;
    var inv := InversionsSpec(start, gt);
    if inv.Err? {
      return Err(inv.fault), walk;
    }
    var currLength := inv.value;
    var maxLength := Min(groundSize * (groundSize + 1) / 2, maxlen);
    while currLength < maxLength
      invariant |res| >= 1 && res[0] == start && Greedy(gens, locality, res)
      invariant currLength == inv.value + |res| - 1
      invariant inv.value >= maxLength ==> res == [start]
      invariant inv.value < maxLength ==> currLength <= maxLength
      decreases maxLength as int - currLength as int
    {
      var node := res[|res| - 1];
      var total := Neighbours(node, gens);
      if total.Err? {
        return Err(total.fault), res;
      }
      var better := Better(total.value, locality, locality(node));
      if better == [] {
        break;
      }
      LeastExists(better, locality);
      var first :| first in better && forall y :: y in better ==> locality(first) <= locality(y);
      assert GreedyStep(gens, locality, node, first);
      GreedyExtend(gens, locality, res, first);
      res := res + [first];
      currLength := currLength + 1;
    }
    walk := res;
    r := Ok(res);
  }
}
