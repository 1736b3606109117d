/** `CayleyGraph::new` of src/graph/cayley_graph.rs: one node per group
    element, then the worklist search of `get_set` with products on both
    sides, recording an edge labelled by the generator for every product.
    The graph is its node list (node `i` holds the `i`-th element) and its
    edge list.  The element set is an input, in the order the set is
    iterated; the group operation may fail as `Mul` does, and so may every
    node lookup. */
module CayleyGraph {
  import opened Outcomes
  import opened Permutations

  /** An edge between node indexes, labelled by a generator's display. */
  datatype Edge = Edge(source: nat, target: nat, display: string)

  datatype Graph<T> = Graph(nodes: seq<T>, edges: seq<Edge>)

  /** What expanding one element adds: the entries pushed to the front of
      the queue, the latest first, and the edges, in order. */
  datatype Expansion<T> = Expansion(pushed: seq<T>, edges: seq<Edge>)

  /** Each element to the index of its node. */
  function NodeIndex<T>(nodes: seq<T>): (m: map<T, nat>)
    requires Distinct(nodes)
    ensures m.Keys == Elems(nodes)
    ensures forall i :: 0 <= i < |nodes| ==> m[nodes[i]] == i
  {
    map i | 0 <= i < |nodes| :: nodes[i] := i
  }

  /** The first loop of `new` (src/graph/cayley_graph.rs:29-32): every
      element gets the next node index. */
  method AddNodes<T>(nodes: seq<T>) returns (nodemap: map<T, nat>)
    requires Distinct(nodes)
    ensures nodemap == NodeIndex(nodes)
  {
    nodemap := map[];
    for i := 0 to |nodes|
      invariant nodemap.Keys == Elems(nodes[..i])
      invariant forall j :: 0 <= j < i ==> nodemap[nodes[j]] == j
    {
      assert nodes[..i + 1] == nodes[..i] + [nodes[i]];
      nodemap := nodemap[nodes[i] := i];
    }
    assert nodes[..|nodes|] == nodes;
  }

  /** `nodemap.get(&p).unwrap()` of a product `p` that may itself have
      failed. */
  function Lookup<T>(nodemap: map<T, nat>, p: Result<T>): (r: Result<nat>)
    ensures r.Ok? <==> p.Ok? && p.value in nodemap
    ensures r.Ok? ==> r.value == nodemap[p.value]
  {
    if p.Err? then Err(p.fault)
    else if p.value in nodemap then Ok(nodemap[p.value])
    else Err(MissingNode)
  }

  /** One generator's work on element `x` with node `a`: push `op(gen,
      x)`, look it up and add its edge, then the same for `op(x, gen)`; the
      first failure is the result. */
  function Step<T>(op: (T, T) -> Result<T>, display: T -> string, nodemap: map<T, nat>,
                   x: T, a: nat, g: T, prev: Expansion<T>): Result<Expansion<T>>
  {
    var l, r := op(g, x), op(x, g);
    var lb := Lookup(nodemap, l);
    if lb.Err? then Err(lb.fault)
    else
      var rb := Lookup(nodemap, r);
      if rb.Err? then Err(rb.fault)
      else Ok(Expansion([r.value, l.value] + prev.pushed,
                        prev.edges + [Edge(a, lb.value, display(g)), Edge(a, rb.value, display(g))]))
  }

  /** A successful step looked up both products and added their edges. */
  lemma StepShape<T>(op: (T, T) -> Result<T>, display: T -> string, nodemap: map<T, nat>,
                     x: T, a: nat, g: T, prev: Expansion<T>)
    requires Step(op, display, nodemap, x, a, g, prev).Ok?
    ensures op(g, x).Ok? && op(g, x).value in nodemap && op(x, g).Ok? && op(x, g).value in nodemap
    ensures Step(op, display, nodemap, x, a, g, prev).value.pushed == [op(x, g).value, op(g, x).value] + prev.pushed
    ensures Step(op, display, nodemap, x, a, g, prev).value.edges
         == prev.edges + [Edge(a, nodemap[op(g, x).value], display(g)), Edge(a, nodemap[op(x, g).value], display(g))]
  {
  }

  /** The first `k` generators' steps on element `x` with node `a`. */
  function ExpandSpec<T>(op: (T, T) -> Result<T>, gens: seq<T>, display: T -> string, nodemap: map<T, nat>,
                         x: T, a: nat, k: nat): Result<Expansion<T>>
    requires k <= |gens|
  {
    if k == 0 then Ok(Expansion([], []))
    else
      var prev := ExpandSpec(op, gens, display, nodemap, x, a, k - 1);
      if prev.Err? then prev else Step(op, display, nodemap, x, a, gens[k - 1], prev.value)
  }

  /** A failure stays a failure with more generators. */
  lemma {:induction false} ExpandErrSticks<T>(op: (T, T) -> Result<T>, gens: seq<T>, display: T -> string, nodemap: map<T, nat>,
                                              x: T, a: nat, k: nat, k': nat)
    requires k <= k' <= |gens| && ExpandSpec(op, gens, display, nodemap, x, a, k).Err?
    ensures ExpandSpec(op, gens, display, nodemap, x, a, k') == ExpandSpec(op, gens, display, nodemap, x, a, k)
    decreases k' - k
  {
    if k < k' {
      ExpandErrSticks(op, gens, display, nodemap, x, a, k, k' - 1);
    }
  }

  /** A successful expansion pushes exactly both products of every
      generator and adds exactly two edges per generator: from `a` to the
      node of `op(gen, x)` and to the node of `op(x, gen)`, each labelled
      with the generator. */
  lemma {:induction false} ExpandShape<T>(op: (T, T) -> Result<T>, gens: seq<T>, display: T -> string, nodemap: map<T, nat>,
                                          x: T, a: nat, k: nat)
    requires k <= |gens| && ExpandSpec(op, gens, display, nodemap, x, a, k).Ok?
    ensures |ExpandSpec(op, gens, display, nodemap, x, a, k).value.pushed| == 2 * k
    ensures |ExpandSpec(op, gens, display, nodemap, x, a, k).value.edges| == 2 * k
    ensures forall j :: 0 <= j < k ==>
      && op(gens[j], x).Ok? && op(gens[j], x).value in nodemap
      && op(x, gens[j]).Ok? && op(x, gens[j]).value in nodemap
      && ExpandSpec(op, gens, display, nodemap, x, a, k).value.pushed[2 * (k - 1 - j) + 1] == op(gens[j], x).value
      && ExpandSpec(op, gens, display, nodemap, x, a, k).value.pushed[2 * (k - 1 - j)] == op(x, gens[j]).value
      && ExpandSpec(op, gens, display, nodemap, x, a, k).value.edges[2 * j] == Edge(a, nodemap[op(gens[j], x).value], display(gens[j]))
      && ExpandSpec(op, gens, display, nodemap, x, a, k).value.edges[2 * j + 1] == Edge(a, nodemap[op(x, gens[j]).value], display(gens[j]))
  {
    if k > 0 {
      ExpandShape(op, gens, display, nodemap, x, a, k - 1);
      var pv := ExpandSpec(op, gens, display, nodemap, x, a, k - 1).value;
      var ex := ExpandSpec(op, gens, display, nodemap, x, a, k).value;
      StepShape(op, display, nodemap, x, a, gens[k - 1], pv);
      forall j | 0 <= j < k
        ensures && op(gens[j], x).Ok? && op(gens[j], x).value in nodemap
                && op(x, gens[j]).Ok? && op(x, gens[j]).value in nodemap
                && ex.pushed[2 * (k - 1 - j) + 1] == op(gens[j], x).value
                && ex.pushed[2 * (k - 1 - j)] == op(x, gens[j]).value
                && ex.edges[2 * j] == Edge(a, nodemap[op(gens[j], x).value], display(gens[j]))
                && ex.edges[2 * j + 1] == Edge(a, nodemap[op(x, gens[j]).value], display(gens[j]))
      {
        if j < k - 1 {
          assert ex.pushed[2 * (k - 1 - j) + 1] == pv.pushed[2 * (k - 2 - j) + 1];
          assert ex.pushed[2 * (k - 1 - j)] == pv.pushed[2 * (k - 2 - j)];
          assert ex.edges[2 * j] == pv.edges[2 * j] && ex.edges[2 * j + 1] == pv.edges[2 * j + 1];
        }
      }
    }
  }

  /** Every edge of a successful expansion leaves `a`, and every pushed
      entry has a node. */
  lemma {:induction false} ExpandFrom<T>(op: (T, T) -> Result<T>, gens: seq<T>, display: T -> string, nodemap: map<T, nat>,
                                         x: T, a: nat, k: nat)
    requires k <= |gens| && ExpandSpec(op, gens, display, nodemap, x, a, k).Ok?
    ensures forall i :: 0 <= i < |ExpandSpec(op, gens, display, nodemap, x, a, k).value.edges| ==>
      ExpandSpec(op, gens, display, nodemap, x, a, k).value.edges[i].source == a
    ensures forall i :: 0 <= i < |ExpandSpec(op, gens, display, nodemap, x, a, k).value.pushed| ==>
      ExpandSpec(op, gens, display, nodemap, x, a, k).value.pushed[i] in nodemap
  {
    if k > 0 {
      ExpandFrom(op, gens, display, nodemap, x, a, k - 1);
      var ex := ExpandSpec(op, gens, display, nodemap, x, a, k).value;
      var pv := ExpandSpec(op, gens, display, nodemap, x, a, k - 1).value;
      StepShape(op, display, nodemap, x, a, gens[k - 1], pv);
      forall i | 0 <= i < |ex.pushed|
        ensures ex.pushed[i] in nodemap
      {
        if i >= 2 {
          assert ex.pushed[i] == pv.pushed[i - 2];
        }
      }
      forall i | 0 <= i < |ex.edges|
        ensures ex.edges[i].source == a
      {
        if i < |pv.edges| {
          assert ex.edges[i] == pv.edges[i];
        }
      }
    }
  }

  /** Every product on either side of an element of `s` succeeds and lies
      in `s`. */
  ghost predicate BothClosed<T>(op: (T, T) -> Result<T>, gens: seq<T>, s: set<T>)
  {
    && (forall j, x {:trigger op(gens[j], x)} :: 0 <= j < |gens| && x in s ==> op(gens[j], x).Ok? && op(gens[j], x).value in s)
    && (forall j, x {:trigger op(x, gens[j])} :: 0 <= j < |gens| && x in s ==> op(x, gens[j]).Ok? && op(x, gens[j]).value in s)
  }

  /** Over a node map closed under both products nothing fails. */
  lemma {:induction false} ExpandOk<T>(op: (T, T) -> Result<T>, gens: seq<T>, display: T -> string, nodemap: map<T, nat>,
                                       x: T, a: nat, k: nat)
    requires k <= |gens|
    ensures x in nodemap && BothClosed(op, gens, nodemap.Keys) ==> ExpandSpec(op, gens, display, nodemap, x, a, k).Ok?
  {
    if k > 0 {
      ExpandOk(op, gens, display, nodemap, x, a, k - 1);
      if x in nodemap && BothClosed(op, gens, nodemap.Keys) {
        var g := gens[k - 1];
        assert op(g, x).Ok? && op(g, x).value in nodemap.Keys;
        assert op(x, g).Ok? && op(x, g).value in nodemap.Keys;
        var prev := ExpandSpec(op, gens, display, nodemap, x, a, k - 1);
        assert Step(op, display, nodemap, x, a, g, prev.value).Ok?;
      }
    }
  }

  /** The loop over the generators (src/graph/cayley_graph.rs:46-59) for
      one element. */
  method ExpandElement<T>(op: (T, T) -> Result<T>, gens: seq<T>, display: T -> string, nodemap: map<T, nat>,
                          x: T, a: nat) returns (r: Result<Expansion<T>>)
    ensures r == ExpandSpec(op, gens, display, nodemap, x, a, |gens|)
  {
    var pushed: seq<T>, edges: seq<Edge> := [], [];
    for k := 0 to |gens|
      invariant ExpandSpec(op, gens, display, nodemap, x, a, k) == Ok(Expansion(pushed, edges))
    {
      var g := gens[k];
      ghost var before, beforeEdges := pushed, edges;
      var l := op(g, x);
      if l.Err? {
        ExpandErrSticks(op, gens, display, nodemap, x, a, k + 1, |gens|);
        return Err(l.fault);
      }
      pushed := [l.value] + pushed;
      if l.value !in nodemap {
        ExpandErrSticks(op, gens, display, nodemap, x, a, k + 1, |gens|);
        return Err(MissingNode);
      }
      edges := edges + [Edge(a, nodemap[l.value], display(g))];
      var rr := op(x, g);
      if rr.Err? {
        ExpandErrSticks(op, gens, display, nodemap, x, a, k + 1, |gens|);
        return Err(rr.fault);
      }
      pushed := [rr.value] + pushed;
      if rr.value !in nodemap {
        ExpandErrSticks(op, gens, display, nodemap, x, a, k + 1, |gens|);
        return Err(MissingNode);
      }
      edges := edges + [Edge(a, nodemap[rr.value], display(g))];
      assert pushed == [rr.value, l.value] + before;
      assert edges == beforeEdges + [Edge(a, nodemap[l.value], display(g)), Edge(a, nodemap[rr.value], display(g))];
      assert Step(op, display, nodemap, x, a, g, Expansion(before, beforeEdges)) == Ok(Expansion(pushed, edges));
    }
    r := Ok(Expansion(pushed, edges));
  }

  /** The edges of expanding `xs` in order, or the first failure. */
  function AllEdges<T>(op: (T, T) -> Result<T>, gens: seq<T>, display: T -> string, nodemap: map<T, nat>,
                       xs: seq<T>): Result<seq<Edge>>
  {
    if xs == [] then Ok([])
    else
      var prev := AllEdges(op, gens, display, nodemap, xs[..|xs| - 1]);
      var x := xs[|xs| - 1];
      if prev.Err? then prev
      else if x !in nodemap then Err(MissingNode)
      else
        var ex := ExpandSpec(op, gens, display, nodemap, x, nodemap[x], |gens|);
        if ex.Err? then Err(ex.fault) else Ok(prev.value + ex.value.edges)
  }

  /** There are exactly two edges per generator for every expanded
      element. */
  lemma {:induction false} AllEdgesCount<T>(op: (T, T) -> Result<T>, gens: seq<T>, display: T -> string, nodemap: map<T, nat>,
                                            xs: seq<T>)
    requires AllEdges(op, gens, display, nodemap, xs).Ok?
    ensures |AllEdges(op, gens, display, nodemap, xs).value| == 2 * |gens| * |xs|
  {
    if xs != [] {
      var x := xs[|xs| - 1];
      AllEdgesCount(op, gens, display, nodemap, xs[..|xs| - 1]);
      ExpandShape(op, gens, display, nodemap, x, nodemap[x], |gens|);
      assert 2 * |gens| * |xs| == 2 * |gens| * (|xs| - 1) + 2 * |gens|;
    }
  }

  /** Every edge leaves the node of an expanded element. */
  lemma {:induction false} AllEdgesFrom<T>(op: (T, T) -> Result<T>, gens: seq<T>, display: T -> string, nodemap: map<T, nat>,
                                           xs: seq<T>)
    requires AllEdges(op, gens, display, nodemap, xs).Ok?
    ensures forall i :: 0 <= i < |AllEdges(op, gens, display, nodemap, xs).value| ==>
      exists k :: 0 <= k < |xs| && xs[k] in nodemap && AllEdges(op, gens, display, nodemap, xs).value[i].source == nodemap[xs[k]]
  {
    if xs != [] {
      var p, x := xs[..|xs| - 1], xs[|xs| - 1];
      AllEdgesFrom(op, gens, display, nodemap, p);
      ExpandFrom(op, gens, display, nodemap, x, nodemap[x], |gens|);
      var es := AllEdges(op, gens, display, nodemap, xs).value;
      var pe := AllEdges(op, gens, display, nodemap, p).value;
      var ex := ExpandSpec(op, gens, display, nodemap, x, nodemap[x], |gens|).value;
      assert es == pe + ex.edges;
      forall i | 0 <= i < |es|
        ensures exists k :: 0 <= k < |xs| && xs[k] in nodemap && es[i].source == nodemap[xs[k]]
      {
        if i < |pe| {
          var k :| 0 <= k < |p| && p[k] in nodemap && pe[i].source == nodemap[p[k]];
          assert xs[k] == p[k];
        } else {
          assert es[i] == ex.edges[i - |pe|];
          assert xs[|xs| - 1] == x;
        }
      }
    }
  }

  // ---------------------------------------------------------------------
  // The search
  // ---------------------------------------------------------------------

  /** Every queue entry has a node, except perhaps the identity the search
      starts from. */
  ghost predicate Known<T>(nodemap: map<T, nat>, e: T, q: seq<T>)
  {
    forall i :: 0 <= i < |q| ==> q[i] in nodemap || q[i] == e
  }

  /** Both products of every expanded element succeeded and are expanded
      or still queued. */
  ghost predicate Pending<T>(op: (T, T) -> Result<T>, gens: seq<T>, elements: set<T>, q: seq<T>)
  {
    && (forall j, x {:trigger op(gens[j], x)} :: 0 <= j < |gens| && x in elements ==>
          op(gens[j], x).Ok? && (op(gens[j], x).value in elements || op(gens[j], x).value in q))
    && (forall j, x {:trigger op(x, gens[j])} :: 0 <= j < |gens| && x in elements ==>
          op(x, gens[j]).Ok? && (op(x, gens[j]).value in elements || op(x, gens[j]).value in q))
  }

  /** The front of a known queue has a node or is the identity, and the
      rest is known. */
  lemma KnownPop<T>(nodemap: map<T, nat>, e: T, q: seq<T>)
    requires Known(nodemap, e, q) && q != []
    ensures q == [q[0]] + q[1..]
    ensures q[0] in nodemap || q[0] == e
    ensures Known(nodemap, e, q[1..])
  {
    assert forall i :: 0 <= i < |q[1..]| ==> q[1..][i] == q[i + 1];
  }

  lemma PopSeen<T>(op: (T, T) -> Result<T>, gens: seq<T>, elements: set<T>, x: T, rest: seq<T>)
    requires Pending(op, gens, elements, [x] + rest) && x in elements
    ensures Pending(op, gens, elements, rest)
  {
  }

  /** Expanding a popped element with its pushed products keeps every
      pending product. */
  lemma PopNew<T>(op: (T, T) -> Result<T>, gens: seq<T>, display: T -> string, nodemap: map<T, nat>,
                  elements: set<T>, x: T, a: nat, rest: seq<T>)
    requires Pending(op, gens, elements, [x] + rest)
    requires ExpandSpec(op, gens, display, nodemap, x, a, |gens|).Ok?
    ensures Pending(op, gens, elements + {x}, ExpandSpec(op, gens, display, nodemap, x, a, |gens|).value.pushed + rest)
  {
    var ex := ExpandSpec(op, gens, display, nodemap, x, a, |gens|).value;
    ExpandShape(op, gens, display, nodemap, x, a, |gens|);
    var q := ex.pushed + rest;
    forall j, y | 0 <= j < |gens| && y in elements + {x}
      ensures op(gens[j], y).Ok? && (op(gens[j], y).value in elements + {x} || op(gens[j], y).value in q)
      ensures op(y, gens[j]).Ok? && (op(y, gens[j]).value in elements + {x} || op(y, gens[j]).value in q)
    {
      if y == x {
        assert q[2 * (|gens| - 1 - j) + 1] == op(gens[j], x).value;
        assert q[2 * (|gens| - 1 - j)] == op(x, gens[j]).value;
      } else {
        assert forall z :: z in rest ==> z in q;
      }
    }
  }

  /** The pushed products all have nodes. */
  lemma PushKnown<T>(op: (T, T) -> Result<T>, gens: seq<T>, display: T -> string, nodemap: map<T, nat>,
                     e: T, x: T, a: nat, rest: seq<T>)
    requires Known(nodemap, e, rest)
    requires ExpandSpec(op, gens, display, nodemap, x, a, |gens|).Ok?
    ensures Known(nodemap, e, ExpandSpec(op, gens, display, nodemap, x, a, |gens|).value.pushed + rest)
  {
    var ex := ExpandSpec(op, gens, display, nodemap, x, a, |gens|).value;
    ExpandFrom(op, gens, display, nodemap, x, a, |gens|);
    var q := ex.pushed + rest;
    forall i | 0 <= i < |q|
      ensures q[i] in nodemap || q[i] == e
    {
      if i < |ex.pushed| {
        assert q[i] == ex.pushed[i];
      } else {
        assert q[i] == rest[i - |ex.pushed|];
      }
    }
  }

  /** Everything expanded or queued lies in every set that holds the
      identity and is closed under both products: the search reaches only
      what the generators reach from `e`. */
  ghost predicate Reached<T(!new)>(op: (T, T) -> Result<T>, gens: seq<T>, e: T, elements: set<T>, q: seq<T>)
  {
    forall s :: e in s && BothClosed(op, gens, s) ==> elements <= s && forall i :: 0 <= i < |q| ==> q[i] in s
  }

  /** Popping keeps the reach. */
  lemma ReachedPop<T(!new)>(op: (T, T) -> Result<T>, gens: seq<T>, e: T, elements: set<T>, q: seq<T>)
    requires q != [] && Reached(op, gens, e, elements, q)
    ensures Reached(op, gens, e, elements, q[1..])
  {
    forall s | e in s && BothClosed(op, gens, s)
      ensures elements <= s && forall i :: 0 <= i < |q[1..]| ==> q[1..][i] in s
    {
      assert forall i :: 0 <= i < |q[1..]| ==> q[1..][i] == q[i + 1];
    }
  }

  /** Expanding the front of a reached queue pushes only reached
      products. */
  lemma ReachedPush<T(!new)>(op: (T, T) -> Result<T>, gens: seq<T>, display: T -> string, nodemap: map<T, nat>,
                       e: T, elements: set<T>, q0: seq<T>, a: nat)
    requires q0 != [] && Reached(op, gens, e, elements, q0)
    requires ExpandSpec(op, gens, display, nodemap, q0[0], a, |gens|).Ok?
    ensures Reached(op, gens, e, elements + {q0[0]}, ExpandSpec(op, gens, display, nodemap, q0[0], a, |gens|).value.pushed + q0[1..])
  {
    var x := q0[0];
    var ex := ExpandSpec(op, gens, display, nodemap, x, a, |gens|).value;
    ExpandShape(op, gens, display, nodemap, x, a, |gens|);
    var q := ex.pushed + q0[1..];
    forall s | e in s && BothClosed(op, gens, s)
      ensures elements + {x} <= s && forall i :: 0 <= i < |q| ==> q[i] in s
    {
      forall i | 0 <= i < |q|
        ensures q[i] in s
      {
        if i < |ex.pushed| {
          var j := |gens| - 1 - i / 2;
          if i % 2 == 0 {
            assert i == 2 * (|gens| - 1 - j);
            assert q[i] == op(x, gens[j]).value;
          } else {
            assert i == 2 * (|gens| - 1 - j) + 1;
            assert q[i] == op(gens[j], x).value;
          }
        } else {
          assert q[i] == q0[i - |ex.pushed| + 1];
        }
      }
    }
  }

  /** The search's state after some iterations: the expanded elements,
      each once, with nodes; the identity expanded or queued; every queue
      entry known; the edges those of the expansions; and every product of
      an expanded element expanded or queued. */
  ghost predicate Searching<T>(op: (T, T) -> Result<T>, gens: seq<T>, display: T -> string, nodes: seq<T>,
                               nodemap: map<T, nat>, e: T, elements: set<T>, expanded: seq<T>, q: seq<T>, edges: seq<Edge>)
  {
    && Distinct(expanded) && Elems(expanded) == elements
    && elements <= Elems(nodes)
    && (e in elements || e in q)
    && Known(nodemap, e, q)
    && AllEdges(op, gens, display, nodemap, expanded) == Ok(edges)
    && Pending(op, gens, elements, q)
  }

  /** Expanding the front `q0[0]` of the queue, an element not yet
      expanded and with a node, keeps the search's state and its reach,
      and leaves fewer nodes to expand. */
  lemma ExpandKeeps<T(!new)>(op: (T, T) -> Result<T>, gens: seq<T>, display: T -> string, nodes: seq<T>,
                       nodemap: map<T, nat>, e: T, elements: set<T>, expanded: seq<T>, q0: seq<T>, edges: seq<Edge>,
                       ex: Expansion<T>)
    requires Searching(op, gens, display, nodes, nodemap, e, elements, expanded, q0, edges)
    requires Reached(op, gens, e, elements, q0)
    requires q0 != [] && q0[0] !in elements && q0[0] in nodemap && nodemap.Keys == Elems(nodes)
    requires ExpandSpec(op, gens, display, nodemap, q0[0], nodemap[q0[0]], |gens|) == Ok(ex)
    ensures Searching(op, gens, display, nodes, nodemap, e, elements + {q0[0]}, expanded + [q0[0]], ex.pushed + q0[1..], edges + ex.edges)
    ensures Reached(op, gens, e, elements + {q0[0]}, ex.pushed + q0[1..])
    ensures |Elems(nodes) - (elements + {q0[0]})| < |Elems(nodes) - elements|
  {
    var x, q := q0[0], q0[1..];
    var a := nodemap[x];
    KnownPop(nodemap, e, q0);
    PopNew(op, gens, display, nodemap, elements, x, a, q);
    PushKnown(op, gens, display, nodemap, e, x, a, q);
    ReachedPush(op, gens, display, nodemap, e, elements, q0, a);
    DistinctAppend(expanded, x);
    assert (expanded + [x])[..|expanded|] == expanded;
    assert e in elements + {x} || e in ex.pushed + q;
    ProperSubsetCard(Elems(nodes) - (elements + {x}), Elems(nodes) - elements);
  }

  /** `CayleyGraph::new` (src/graph/cayley_graph.rs:26-66) over the
      elements `nodes`, the identity `e` and the generators `gens`.  When it
      succeeds: node `i` holds `nodes[i]`; the identity is expanded and every
      expanded element once; the edges are exactly those of the expansions
      in order; and the expanded elements are closed under both products
      and lie in every such set holding the identity, so they are exactly
      the elements the generators reach from `e`.  When the node list holds the identity and is closed under both
      products it succeeds. */
  method New<T(==, !new)>(op: (T, T) -> Result<T>, e: T, gens: seq<T>, display: T -> string, nodes: seq<T>)
    returns (r: Result<Graph<T>>, ghost expanded: seq<T>)
    requires Distinct(nodes)
    ensures r.Ok? ==> r.value.nodes == nodes
    ensures r.Ok? ==> e in expanded && Distinct(expanded) && Elems(expanded) <= Elems(nodes)
    ensures r.Ok? ==> AllEdges(op, gens, display, NodeIndex(nodes), expanded) == Ok(r.value.edges)
    ensures r.Ok? ==> BothClosed(op, gens, Elems(expanded))
    ensures r.Ok? ==> forall s :: e in s && BothClosed(op, gens, s) ==> Elems(expanded) <= s
    ensures e in nodes && BothClosed(op, gens, Elems(nodes)) ==> r.Ok?
  {
    var nodemap := AddNodes(nodes);
    var edges: seq<Edge> := [];
    var elements: set<T> := {};
    expanded := [];
    var q := [e];
    while q != []
      invariant Searching(op, gens, display, nodes, nodemap, e, elements, expanded, q, edges)
      invariant Reached(op, gens, e, elements, q)
      decreases |Elems(nodes) - elements|, |q|
    {
      var element := q[0];
      KnownPop(nodemap, e, q);
      ghost var q0 := q;
      if element in elements {
        ReachedPop(op, gens, e, elements, q);
        PopSeen(op, gens, elements, element, q[1..]);
        q := q[1..];
        continue;
      }
      if element !in nodemap {
        return Err(MissingNode), expanded + [element];
      }
      var a := nodemap[element];
      ExpandOk(op, gens, display, nodemap, element, a, |gens|);
      var ex := ExpandElement(op, gens, display, nodemap, element, a);
      if ex.Err? {
        return Err(ex.fault), expanded + [element];
      }
      ExpandKeeps(op, gens, display, nodes, nodemap, e, elements, expanded, q0, edges, ex.value);
      elements, expanded := elements + {element}, expanded + [element];
      q, edges := ex.value.pushed + q[1..], edges + ex.value.edges;
    }
    r := Ok(Graph(nodes, edges));
  }
}
