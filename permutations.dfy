/** Map-level building blocks shared by the two generations of `Cycle`
    (src/group_theory/cycle.rs and src/group/cycle.rs), whose constructor
    `from`, product `mul` and `inverse` run the same loops over a `BiMap`.

    A `BiMap<T, T>` is modelled as a Dafny `map<T, T>` that is injective.
    `BiMap::insert(l, r)` also evicts any pair whose left side is `l` or
    whose right side is `r`.  In `from` an insert may evict only a
    temporary fixed point of an element of the cycle being processed, and
    that same cycle then gives the element its final pair, so the final
    `BiMap` equals the map built here.  The other callers are used where
    no insert evicts anything (their preconditions), and there an insert
    is a plain map update. */
module Permutations {
  import opened Outcomes

  // ---------------------------------------------------------------------
  // Vocabulary
  // ---------------------------------------------------------------------

  /** No two keys share an image: the invariant of a `BiMap`. */
  ghost predicate Injective<T>(m: map<T, T>)
  {
    forall x, y :: x in m && y in m && x != y ==> m[x] != m[y]
  }

  /** No element occurs twice. */
  ghost predicate Distinct<T>(s: seq<T>)
  {
    forall i, j :: 0 <= i < j < |s| ==> s[i] != s[j]
  }

  /** The elements of a vector, as a set (`HashSet::from_iter`). */
  function Elems<T>(s: seq<T>): set<T>
  {
    set x | x in s
  }

  /** Appending a new element keeps a sequence repetition-free. */
  lemma DistinctAppend<T>(s: seq<T>, x: T)
    requires Distinct(s) && x !in s
    ensures Distinct(s + [x]) && Elems(s + [x]) == Elems(s) + {x}
  {
  }

  /** The elements of a prefix one longer. */
  lemma ElemsPrefix<T>(s: seq<T>, i: nat)
    requires i < |s|
    ensures Elems(s[..i + 1]) == Elems(s[..i]) + {s[i]}
  {
    assert s[..i + 1] == s[..i] + [s[i]];
  }

  /** Every element of `s` fixed. */
  function Fixing<T>(s: set<T>): (r: map<T, T>)
    ensures r.Keys == s
    ensures forall x :: x in s ==> r[x] == x
  {
    map x | x in s :: x
  }

  // ---------------------------------------------------------------------
  // `from`: cycle notation to a map
  // ---------------------------------------------------------------------

  /** The position of the first occurrence of `x` in `s`. */
  function IndexOf<T(==)>(s: seq<T>, x: T): (r: nat)
    requires x in s
    ensures r < |s| && s[r] == x
    ensures forall j :: 0 <= j < r ==> s[j] != x
  {
    if s[0] == x then 0 else 1 + IndexOf(s[1..], x)
  }

  lemma IndexOfDistinct<T>(s: seq<T>, i: nat)
    requires Distinct(s) && i < |s|
    ensures IndexOf(s, s[i]) == i
  {
  }

  /** The arrows of one cycle `c`: each `c[i]` to its successor, the last
      element to the first (the `windows(2)` inserts and the closing
      `last => first` insert). */
  function Arrows<T>(c: seq<T>): (r: map<T, T>)
    requires Distinct(c)
    ensures r.Keys == Elems(c)
    ensures forall i {:trigger r[c[i]]} :: 0 <= i < |c| ==> r[c[i]] == Successor(c, i)
  {
    var r := map x | x in c :: Successor(c, IndexOf(c, x));
    assert forall i :: 0 <= i < |c| ==> IndexOf(c, c[i]) == i;
    r
  }

  /** The element after position `i` of a cycle, wrapping from the last
      position to the first. */
  function Successor<T>(c: seq<T>, i: nat): T
    requires i < |c|
  {
    if i + 1 < |c| then c[i + 1] else c[0]
  }


  /** The cycles of a cycle-notation vector are each repetition-free and
      pairwise disjoint: the condition under which an insert of `from`
      evicts only the temporary fixed points of the current cycle's
      elements, which the same cycle then overwrites, so that the final
      `BiMap` equals the `map`. */
  ghost predicate WellFormedCycles<T>(vec: seq<seq<T>>)
  {
    && (forall k :: 0 <= k < |vec| ==> Distinct(vec[k]))
    && (forall k, l, i, j :: 0 <= k < l < |vec| && 0 <= i < |vec[k]| && 0 <= j < |vec[l]| ==>
          vec[k][i] != vec[l][j])
  }

  /** All elements named in a cycle-notation vector. */
  ghost function Mentioned<T>(vec: seq<seq<T>>): set<T>
  {
    if vec == [] then {} else Mentioned(vec[..|vec| - 1]) + Elems(vec[|vec| - 1])
  }

  /** One cycle of `from`'s outer loop: the state after `c`. */
  ghost function Step<T>(m: map<T, T>, rest: set<T>, c: seq<T>): (map<T, T>, set<T>)
    requires Distinct(c)
  {
    var rest' := rest - Elems(c);
    (m + Arrows(c) + Fixing(rest'), rest')
  }

  /** The state of `from` after the cycles `vec`, processed in order: the map
      built so far and the set of ground elements not yet mentioned.  Each
      cycle adds its arrows and then re-fixes every element of the set. */
  ghost function FromState<T>(vec: seq<seq<T>>, ground: seq<T>): (map<T, T>, set<T>)
    requires WellFormedCycles(vec)
  {
    if vec == [] then (map[], Elems(ground))
    else
      var (m, rest) := FromState(vec[..|vec| - 1], ground);
      Step(m, rest, vec[|vec| - 1])
  }

  /** The map `from(vec, ground)` builds. */
  ghost function FromMap<T>(vec: seq<seq<T>>, ground: seq<T>): map<T, T>
    requires WellFormedCycles(vec)
  {
    FromState(vec, ground).0
  }

  lemma {:induction false} MentionedContains<T>(vec: seq<seq<T>>)
    ensures forall k, i :: 0 <= k < |vec| && 0 <= i < |vec[k]| ==> vec[k][i] in Mentioned(vec)
    ensures forall x :: x in Mentioned(vec) ==> exists k, i :: 0 <= k < |vec| && 0 <= i < |vec[k]| && vec[k][i] == x
  {
    if vec != [] {
      var init := vec[..|vec| - 1];
      MentionedContains(init);
      forall x | x in Mentioned(vec)
        ensures exists k, i :: 0 <= k < |vec| && 0 <= i < |vec[k]| && vec[k][i] == x
      {
        if x in Mentioned(init) {
          var k, i :| 0 <= k < |init| && 0 <= i < |init[k]| && init[k][i] == x;
          assert vec[k][i] == x;
        } else {
          var i :| 0 <= i < |vec[|vec| - 1]| && vec[|vec| - 1][i] == x;
        }
      }
      forall k, i | 0 <= k < |vec| && 0 <= i < |vec[k]|
        ensures vec[k][i] in Mentioned(vec)
      {
        if k < |vec| - 1 {
          assert init[k][i] == vec[k][i];
        }
      }
    }
  }

  lemma WellFormedPrefix<T>(vec: seq<seq<T>>)
    requires WellFormedCycles(vec) && vec != []
    ensures WellFormedCycles(vec[..|vec| - 1])
  {
    var init := vec[..|vec| - 1];
    forall k, l, i, j | 0 <= k < l < |init| && 0 <= i < |init[k]| && 0 <= j < |init[l]|
      ensures init[k][i] != init[l][j]
    {
      assert init[k] == vec[k] && init[l] == vec[l];
    }
  }

  /** After the cycles `vec`, the set `from` still has to fix is the ground
      minus every element named so far. */
  lemma {:induction false} FromRest<T>(vec: seq<seq<T>>, ground: seq<T>)
    requires WellFormedCycles(vec)
    ensures FromState(vec, ground).1 == Elems(ground) - Mentioned(vec)
  {
    if vec != [] {
      WellFormedPrefix(vec);
      FromRest(vec[..|vec| - 1], ground);
    }
  }

  /** The keys of `from`'s map: the empty vector gives the empty map, any
      other vector covers the ground and every named element. */
  lemma {:induction false} FromKeys<T>(vec: seq<seq<T>>, ground: seq<T>)
    requires WellFormedCycles(vec)
    ensures vec == [] ==> FromMap(vec, ground) == map[]
    ensures vec != [] ==> FromMap(vec, ground).Keys == Mentioned(vec) + Elems(ground)
  {
    if vec != [] {
      var init := vec[..|vec| - 1];
      WellFormedPrefix(vec);
      FromKeys(init, ground);
      FromRest(init, ground);
    }
  }

  /** An element named in a non-empty vector that is not in its last cycle
      is named in the earlier cycles. */
  lemma NotInLast<T>(vec: seq<seq<T>>, k: nat, i: nat)
    requires WellFormedCycles(vec) && k < |vec| - 1 && i < |vec[k]|
    ensures vec[k][i] !in Elems(vec[|vec| - 1])
    ensures vec[k][i] in Mentioned(vec[..|vec| - 1])
  {
    var init, c := vec[..|vec| - 1], vec[|vec| - 1];
    MentionedContains(init);
    assert init[k][i] == vec[k][i];
    forall j | 0 <= j < |c|
      ensures c[j] != vec[k][i]
    {
      assert vec[|vec| - 1][j] == c[j];
    }
  }

  /** Every named element goes to its successor in its own cycle. */
  lemma {:induction false} FromImage<T>(vec: seq<seq<T>>, ground: seq<T>, k: nat, i: nat)
    requires WellFormedCycles(vec) && k < |vec| && i < |vec[k]|
    ensures vec[k][i] in FromMap(vec, ground)
    ensures FromMap(vec, ground)[vec[k][i]] == Successor(vec[k], i)
  {
    var init, c := vec[..|vec| - 1], vec[|vec| - 1];
    WellFormedPrefix(vec);
    FromRest(init, ground);
    var (m, rest) := FromState(init, ground);
    var rest' := rest - Elems(c);
    assert FromMap(vec, ground) == m + Arrows(c) + Fixing(rest');
    if k < |vec| - 1 {
      NotInLast(vec, k, i);
      assert init[k] == vec[k];
      FromImage(init, ground, k, i);
    }
  }

  /** Every ground element no cycle names is fixed by a non-empty vector. */
  lemma FromFixed<T>(vec: seq<seq<T>>, ground: seq<T>, x: T)
    requires WellFormedCycles(vec) && vec != []
    requires x in Elems(ground) - Mentioned(vec)
    ensures x in FromMap(vec, ground) && FromMap(vec, ground)[x] == x
  {
    WellFormedPrefix(vec);
    FromRest(vec[..|vec| - 1], ground);
  }

  /** A witness position for an element named in a cycle-notation vector. */
  lemma {:induction false} MentionedWitness<T>(vec: seq<seq<T>>, x: T) returns (k: nat, i: nat)
    requires x in Mentioned(vec)
    ensures k < |vec| && i < |vec[k]| && vec[k][i] == x
  {
    var init := vec[..|vec| - 1];
    if x in Mentioned(init) {
      k, i := MentionedWitness(init, x);
      assert init[k] == vec[k];
    } else {
      k := |vec| - 1;
      i :| 0 <= i < |vec[k]| && vec[k][i] == x;
    }
  }

  /** Every element at a position of the vector is named in it. */
  lemma {:induction false} MentionedMember<T>(vec: seq<seq<T>>, k: nat, i: nat)
    requires k < |vec| && i < |vec[k]|
    ensures vec[k][i] in Mentioned(vec)
  {
    if k < |vec| - 1 {
      var init := vec[..|vec| - 1];
      assert init[k] == vec[k];
      MentionedMember(init, k, i);
    }
  }

  /** The successor of a named element is named. */
  lemma SuccessorMentioned<T>(vec: seq<seq<T>>, k: nat, i: nat)
    requires k < |vec| && i < |vec[k]|
    ensures Successor(vec[k], i) in Mentioned(vec)
  {
    if i + 1 < |vec[k]| {
      MentionedMember(vec, k, i + 1);
    } else {
      MentionedMember(vec, k, 0);
    }
  }

  /** Distinct positions of well-formed cycles have distinct successors. */
  lemma SuccessorsDiffer<T>(vec: seq<seq<T>>, k: nat, i: nat, l: nat, j: nat)
    requires WellFormedCycles(vec)
    requires k < |vec| && i < |vec[k]| && l < |vec| && j < |vec[l]|
    requires vec[k][i] != vec[l][j]
    ensures Successor(vec[k], i) != Successor(vec[l], j)
  {
    var si := if i + 1 < |vec[k]| then i + 1 else 0;
    var sj := if j + 1 < |vec[l]| then j + 1 else 0;
    assert Successor(vec[k], i) == vec[k][si] && Successor(vec[l], j) == vec[l][sj];
    if k == l {
      assert i != j;
      assert si != sj;
    } else if k < l {
      assert vec[k][si] != vec[l][sj];
    } else {
      assert vec[l][sj] != vec[k][si];
    }
  }

  /** The map `from` builds for a non-empty vector of well-formed cycles
      inside the ground has the ground as keys and sends them onto
      themselves. */
  lemma FromMapOnto<T>(vec: seq<seq<T>>, ground: seq<T>)
    requires WellFormedCycles(vec) && vec != [] && Mentioned(vec) <= Elems(ground)
    ensures FromMap(vec, ground).Keys == Elems(ground)
    ensures FromMap(vec, ground).Values <= FromMap(vec, ground).Keys
  {
    var m := FromMap(vec, ground);
    FromKeys(vec, ground);
    forall y | y in m.Values
      ensures y in m
    {
      var x :| x in m && m[x] == y;
      if x in Mentioned(vec) {
        var k, i := MentionedWitness(vec, x);
        FromImage(vec, ground, k, i);
        SuccessorMentioned(vec, k, i);
      } else {
        FromFixed(vec, ground, x);
      }
    }
  }

  /** The image of a key of `from`'s map, with a flag saying whether the key
      is named in the vector. */
  lemma FromMapAt<T>(vec: seq<seq<T>>, ground: seq<T>, x: T)
    requires WellFormedCycles(vec) && vec != [] && Mentioned(vec) <= Elems(ground)
    requires x in FromMap(vec, ground)
    ensures x in Mentioned(vec) ==> FromMap(vec, ground)[x] in Mentioned(vec)
    ensures x !in Mentioned(vec) ==> FromMap(vec, ground)[x] == x
  {
    FromKeys(vec, ground);
    if x in Mentioned(vec) {
      var k, i := MentionedWitness(vec, x);
      FromImage(vec, ground, k, i);
      SuccessorMentioned(vec, k, i);
    } else {
      FromFixed(vec, ground, x);
    }
  }

  /** The map `from` builds for well-formed cycles is injective. */
  lemma FromMapInjective<T>(vec: seq<seq<T>>, ground: seq<T>)
    requires WellFormedCycles(vec) && vec != [] && Mentioned(vec) <= Elems(ground)
    ensures Injective(FromMap(vec, ground))
  {
    var m := FromMap(vec, ground);
    forall x, y | x in m && y in m && x != y
      ensures m[x] != m[y]
    {
      FromMapAt(vec, ground, x);
      FromMapAt(vec, ground, y);
      if x in Mentioned(vec) && y in Mentioned(vec) {
        var k, i := MentionedWitness(vec, x);
        var l, j := MentionedWitness(vec, y);
        FromImage(vec, ground, k, i);
        FromImage(vec, ground, l, j);
        SuccessorsDiffer(vec, k, i, l, j);
      }
    }
  }

  /** The loops of `from` (src/group_theory/cycle.rs:54-73, and the same
      loops at src/group/cycle.rs:34-54). */
  method BuildFromCycles<T(==)>(vec: seq<seq<T>>, ground: seq<T>) returns (m: map<T, T>)
    requires WellFormedCycles(vec)
    ensures m == FromMap(vec, ground)
  {
    var rest := Elems(ground);
    m := map[];
    for k := 0 to |vec|
      invariant (m, rest) == FromState(vec[..k], ground)
    {
      assert vec[..k + 1][..k] == vec[..k];
      assert vec[..k + 1][k] == vec[k];
      m, rest := AddCycle(m, rest, vec[k]);
    }
    assert vec[..|vec|] == vec;
  }

  /** The body of the outer loop of `from` for one cycle `c`. */
  method AddCycle<T(==)>(m0: map<T, T>, rest0: set<T>, c: seq<T>) returns (m: map<T, T>, rest: set<T>)
    requires Distinct(c)
    ensures (m, rest) == Step(m0, rest0, c)
  {
    m, rest := InsertArrows(m0, rest0, c);
    m := FixAll(m, rest);
  }

  /** The `windows(2)` loop and the closing insert: each element of `c` is
      removed from `rest` and mapped to its successor. */
  method InsertArrows<T(==)>(m0: map<T, T>, rest0: set<T>, c: seq<T>) returns (m: map<T, T>, rest: set<T>)
    requires Distinct(c)
    ensures m == m0 + Arrows(c) && rest == rest0 - Elems(c)
  {
    m, rest := m0, rest0;
    if |c| >= 1 {
      for j := 0 to |c| - 1
        invariant rest == rest0 - Elems(c[..j])
        invariant m.Keys == m0.Keys + Elems(c[..j])
        invariant forall i :: 0 <= i < j ==> m[c[i]] == c[i + 1]
        invariant forall x :: x in m0 && x !in Elems(c[..j]) ==> m[x] == m0[x]
      {
        ElemsPrefix(c, j);
        rest := rest - {c[j]};
        m := m[c[j] := c[j + 1]];
      }
      ClosingArrow(m0, rest0, c, m, rest);
      rest := rest - {c[|c| - 1]};
      m := m[c[|c| - 1] := c[0]];
    }
  }

  lemma ClosingArrow<T>(m0: map<T, T>, rest0: set<T>, c: seq<T>, m: map<T, T>, rest: set<T>)
    requires Distinct(c) && |c| >= 1
    requires rest == rest0 - Elems(c[..|c| - 1])
    requires m.Keys == m0.Keys + Elems(c[..|c| - 1])
    requires forall i :: 0 <= i < |c| - 1 ==> m[c[i]] == c[i + 1]
    requires forall x :: x in m0 && x !in Elems(c[..|c| - 1]) ==> m[x] == m0[x]
    ensures m[c[|c| - 1] := c[0]] == m0 + Arrows(c)
    ensures rest - {c[|c| - 1]} == rest0 - Elems(c)
  {
    var last := |c| - 1;
    ElemsPrefix(c, last);
    assert c[..last + 1] == c;
    var m' := m[c[last] := c[0]];
    assert m'.Keys == (m0 + Arrows(c)).Keys;
    forall x | x in m'
      ensures m'[x] == (m0 + Arrows(c))[x]
    {
      ClosingValue(m0, c, m, x);
    }
  }

  lemma ClosingValue<T>(m0: map<T, T>, c: seq<T>, m: map<T, T>, x: T)
    requires Distinct(c) && |c| >= 1
    requires m.Keys == m0.Keys + Elems(c[..|c| - 1])
    requires forall i :: 0 <= i < |c| - 1 ==> m[c[i]] == c[i + 1]
    requires forall x :: x in m0 && x !in Elems(c[..|c| - 1]) ==> m[x] == m0[x]
    requires x in m0 || x in c
    ensures m[c[|c| - 1] := c[0]][x] == (m0 + Arrows(c))[x]
  {
    var last := |c| - 1;
    if x in c {
      var i := IndexOf(c, x);
      assert Arrows(c)[c[i]] == Successor(c, i);
      if i < last {
        assert c[..last][i] == x;
      }
    } else {
      assert x !in Elems(c[..last]);
    }
  }

  /** The loop "handle unchanged elements": every element of `rest` is
      mapped to itself. */
  method FixAll<T(==)>(m0: map<T, T>, rest: set<T>) returns (m: map<T, T>)
    ensures m == m0 + Fixing(rest)
  {
    m := m0;
    var todo := rest;
    while todo != {}
      invariant todo <= rest
      invariant m == m0 + Fixing(rest - todo)
      decreases |todo|
    {
      var e :| e in todo;
      m := m[e := e];
      todo := todo - {e};
    }
  }

  // ---------------------------------------------------------------------
  // Counting
  // ---------------------------------------------------------------------

  /** A repetition-free vector has as many elements as its set. */
  lemma {:induction false} DistinctCard<T>(s: seq<T>)
    requires Distinct(s)
    ensures |Elems(s)| == |s|
  {
    if s != [] {
      var init, last := s[..|s| - 1], s[|s| - 1];
      assert s == init + [last];
      assert Distinct(init);
      DistinctCard(init);
      ElemsPrefix(s, |s| - 1);
      assert s[..|s|] == s;
      assert last !in Elems(init);
    }
  }

  /** A subset as large as its superset is the whole superset. */
  lemma SubsetCard<T>(a: set<T>, b: set<T>)
    requires a <= b && |a| == |b|
    ensures a == b
  {
    assert |b - a| + |a| == |b| by {
      assert b == (b - a) + a;
    }
  }

  /** A proper subset is smaller. */
  lemma ProperSubsetCard<T>(a: set<T>, b: set<T>)
    requires a < b
    ensures |a| < |b|
  {
    assert b == a + (b - a);
  }

  /** Visiting one more element of a finite set leaves fewer unvisited. */
  lemma Shrinks<T>(universe: set<T>, visited: set<T>, x: T)
    requires x in universe && x !in visited
    ensures |universe - (visited + {x})| < |universe - visited|
  {
    assert universe - visited == (universe - (visited + {x})) + {x};
  }

  // ---------------------------------------------------------------------
  // The lookup loops of `mul` and `inverse`
  // ---------------------------------------------------------------------

  /** Every element of `ground` is a key of `m` (none of the `unwrap`s on
      `m` over `ground` panics). */
  predicate Covers<T(==)>(m: map<T, T>, ground: seq<T>)
  {
    forall x :: x in ground ==> x in m
  }

  /** Every lookup `bm[g]` and then `am[bm[g]]` of `mul` for `g` in
      `ground` succeeds. */
  predicate Composable<T(==)>(am: map<T, T>, bm: map<T, T>, ground: seq<T>)
  {
    forall x :: x in ground ==> x in bm && bm[x] in am
  }

  /** The map `g |-> am[bm[g]]` over `ground`: `am` after `bm`. */
  function ComposeMap<T(==)>(am: map<T, T>, bm: map<T, T>, ground: seq<T>): (r: map<T, T>)
    requires Composable(am, bm, ground)
    ensures r.Keys == Elems(ground)
    ensures forall x :: x in r ==> r[x] == am[bm[x]]
  {
    map x | x in ground :: am[bm[x]]
  }

  /** `m` cut down to `ground`. */
  function Restrict<T(==)>(m: map<T, T>, ground: seq<T>): (r: map<T, T>)
    requires Covers(m, ground)
    ensures r.Keys == Elems(ground)
    ensures forall x :: x in r ==> r[x] == m[x]
  {
    map x | x in ground :: m[x]
  }

  /** The image of `x` under `m`, or `x` itself when `m` has no entry. */
  function Apply<T(==)>(m: map<T, T>, x: T): T
  {
    if x in m then m[x] else x
  }

  /** Two bijections of the elements of `ground` compose to a bijection of
      the same elements that applies `bm` first. */
  lemma ComposeBijection<T>(am: map<T, T>, bm: map<T, T>, ground: seq<T>)
    requires am.Keys == Elems(ground) && am.Values <= am.Keys && Injective(am)
    requires bm.Keys == Elems(ground) && bm.Values <= bm.Keys && Injective(bm)
    ensures Composable(am, bm, ground)
    ensures Injective(ComposeMap(am, bm, ground))
    ensures ComposeMap(am, bm, ground).Values <= Elems(ground)
    ensures forall x :: Apply(ComposeMap(am, bm, ground), x) == Apply(am, Apply(bm, x))
  {
    BijectionsComposable(am, bm, ground);
    ComposeInjective(am, bm, ground);
    ComposeClosed(am, bm, ground);
    ComposeApply(am, bm, ground);
  }

  lemma BijectionsComposable<T>(am: map<T, T>, bm: map<T, T>, ground: seq<T>)
    requires am.Keys == Elems(ground) && bm.Keys == Elems(ground) && bm.Values <= bm.Keys
    ensures Composable(am, bm, ground)
  {
    forall x | x in ground
      ensures x in bm && bm[x] in am
    {
      assert bm[x] in bm.Values;
    }
  }

  /** Composing injective maps gives an injective map. */
  lemma ComposeInjective<T>(am: map<T, T>, bm: map<T, T>, ground: seq<T>)
    requires Injective(am) && Injective(bm) && Composable(am, bm, ground)
    ensures Injective(ComposeMap(am, bm, ground))
  {
  }

  lemma ComposeClosed<T>(am: map<T, T>, bm: map<T, T>, ground: seq<T>)
    requires Composable(am, bm, ground) && am.Values <= Elems(ground)
    ensures ComposeMap(am, bm, ground).Values <= Elems(ground)
  {
    var m := ComposeMap(am, bm, ground);
    forall y | y in m.Values
      ensures y in Elems(ground)
    {
      var x :| x in m && m[x] == y;
      assert am[bm[x]] in am.Values;
    }
  }

  lemma ComposeApply<T>(am: map<T, T>, bm: map<T, T>, ground: seq<T>)
    requires Composable(am, bm, ground) && am.Keys <= Elems(ground) && bm.Keys <= Elems(ground)
    ensures forall x :: Apply(ComposeMap(am, bm, ground), x) == Apply(am, Apply(bm, x))
  {
    var m := ComposeMap(am, bm, ground);
    forall x
      ensures Apply(m, x) == Apply(am, Apply(bm, x))
    {
      if x !in m {
        assert x !in bm && x !in am;
      }
    }
  }

  /** The loop of `mul` (src/group_theory/cycle.rs:233-246 and
      src/group/cycle.rs:92-98): for each ground element the composite
      image, or `None` at the first lookup that misses (the `panic!`). */
  method ComposeOver<T(==)>(am: map<T, T>, bm: map<T, T>, ground: seq<T>) returns (r: Option<map<T, T>>)
    ensures r.Some? <==> Composable(am, bm, ground)
    ensures r.Some? ==> r.value == ComposeMap(am, bm, ground)
  {
    var acc: map<T, T> := map[];
    for i := 0 to |ground|
      invariant Composable(am, bm, ground[..i])
      invariant acc.Keys == Elems(ground[..i])
      invariant forall x :: x in acc ==> acc[x] == am[bm[x]]
    {
      var g := ground[i];
      assert ground[..i + 1] == ground[..i] + [g];
      if g !in bm || bm[g] !in am {
        return None;
      }
      acc := acc[g := am[bm[g]]];
    }
    assert ground[..|ground|] == ground;
    return Some(acc);
  }

  /** The loop of `inverse` (src/group_theory/cycle.rs:109-112 and
      src/group/cycle.rs:65-68): re-inserts `g |-> m[g]` for each ground
      element, or `None` at the first `unwrap` that panics. */
  method RestrictOver<T(==)>(m: map<T, T>, ground: seq<T>) returns (r: Option<map<T, T>>)
    ensures r.Some? <==> Covers(m, ground)
    ensures r.Some? ==> r.value == Restrict(m, ground)
  {
    var co: map<T, T> := map[];
    for i := 0 to |ground|
      invariant Covers(m, ground[..i])
      invariant co.Keys == Elems(ground[..i])
      invariant forall x :: x in co ==> co[x] == m[x]
    {
      var g := ground[i];
      assert ground[..i + 1] == ground[..i] + [g];
      if g !in m {
        return None;
      }
      co := co[g := m[g]];
    }
    assert ground[..|ground|] == ground;
    return Some(co);
  }

  /** `m` read backwards over `ground`: `m[g] |-> g` inserted for each
      ground `g` in order. */
  function Invert<T(==)>(m: map<T, T>, ground: seq<T>): map<T, T>
    requires Covers(m, ground)
  {
    if ground == [] then map[]
    else
      var g := ground[|ground| - 1];
      assert Covers(m, ground[..|ground| - 1]);
      Invert(m, ground[..|ground| - 1])[m[g] := g]
  }

  /** `w` sends the image of every ground element back to it, and every key
      of `w` is such an image. */
  ghost predicate InverseMap<T>(m: map<T, T>, w: map<T, T>, ground: seq<T>)
  {
    && (forall g {:trigger m[g]} :: g in ground ==> g in m && m[g] in w && w[m[g]] == g)
    && (forall x {:trigger w[x]} :: x in w ==> w[x] in ground && w[x] in m && m[w[x]] == x)
  }

  /** The loop of the corrected `inverse`: inserts `m[g] |-> g` for each
      ground element, or `None` at the first `unwrap` that panics. */
  method InvertOver<T(==)>(m: map<T, T>, ground: seq<T>) returns (r: Option<map<T, T>>)
    ensures r.Some? <==> Covers(m, ground)
    ensures r.Some? ==> r.value == Invert(m, ground)
  {
    var co: map<T, T> := map[];
    for i := 0 to |ground|
      invariant Covers(m, ground[..i])
      invariant co == Invert(m, ground[..i])
    {
      var g := ground[i];
      assert ground[..i + 1] == ground[..i] + [g];
      assert ground[..i + 1][..i] == ground[..i];
      if g !in m {
        return None;
      }
      co := co[m[g] := g];
    }
    assert ground[..|ground|] == ground;
    return Some(co);
  }

  /** Read backwards, an injective map is undone by the result: later
      insertions never overwrite an earlier image. */
  lemma {:induction false} InvertIsInverse<T>(m: map<T, T>, ground: seq<T>)
    requires Covers(m, ground) && Injective(m)
    ensures InverseMap(m, Invert(m, ground), ground)
  {
    if ground != [] {
      var g := ground[|ground| - 1];
      var p := ground[..|ground| - 1];
      assert forall x :: x in p ==> x in ground;
      InvertIsInverse(m, p);
      var w, w' := Invert(m, p), Invert(m, ground);
      assert w' == w[m[g] := g];
      forall h | h in ground
        ensures h in m && m[h] in w' && w'[m[h]] == h
      {
        if h != g {
          assert h in p by { assert ground == p + [g]; }
        }
      }
    }
  }

  /** Such a map is injective. */
  lemma InverseMapInjective<T>(m: map<T, T>, w: map<T, T>, ground: seq<T>)
    requires InverseMap(m, w, ground)
    ensures Injective(w)
  {
    forall x, y | x in w && y in w && x != y
      ensures w[x] != w[y]
    {
      assert m[w[x]] == x && m[w[y]] == y;
    }
  }

  /** A map whose images are keys sends each key to a key. */
  lemma ValuesWithin<T>(m: map<T, T>)
    requires m.Values <= m.Keys
    ensures forall x {:trigger m[x]} :: x in m ==> m[x] in m
  {
    forall x | x in m
      ensures m[x] in m
    {
      assert m[x] in m.Values;
    }
  }

  /** When `m` maps the ground into itself, such a map has only ground
      elements as keys... */
  lemma InverseMapInto<T>(m: map<T, T>, w: map<T, T>, ground: seq<T>)
    requires m.Keys == Elems(ground) && (forall x {:trigger m[x]} :: x in m ==> m[x] in m)
    requires InverseMap(m, w, ground) && Elems(ground) <= w.Keys
    ensures w.Keys == Elems(ground)
  {
  }

  /** ... and its images are among its keys. */
  lemma InverseMapCloses<T>(m: map<T, T>, w: map<T, T>, ground: seq<T>)
    requires InverseMap(m, w, ground) && w.Keys == Elems(ground)
    ensures w.Values <= w.Keys
  {
  }

  /** With every ground element among its keys, it permutes the ground. */
  lemma InverseMapKeys<T>(m: map<T, T>, w: map<T, T>, ground: seq<T>)
    requires m.Keys == Elems(ground) && m.Values <= m.Keys && InverseMap(m, w, ground)
    requires Elems(ground) <= w.Keys
    ensures w.Keys == Elems(ground) && w.Values <= w.Keys && Injective(w)
  {
    ValuesWithin(m);
    InverseMapInto(m, w, ground);
    InverseMapCloses(m, w, ground);
    InverseMapInjective(m, w, ground);
  }

  /** There is only one such map. */
  lemma InverseMapUnique<T>(m: map<T, T>, w1: map<T, T>, w2: map<T, T>, ground: seq<T>)
    requires InverseMap(m, w1, ground) && InverseMap(m, w2, ground)
    ensures w1 == w2
  {
    forall x | x in w1
      ensures x in w2 && w2[x] == w1[x]
    {
      assert m[w1[x]] == x;
    }
    forall x | x in w2
      ensures x in w1
    {
      assert m[w2[x]] == x;
    }
  }

  /** Over a bijection of the ground, such a map with the ground as keys
      undoes it on both sides. */
  lemma InverseMapUndoes<T>(m: map<T, T>, w: map<T, T>, ground: seq<T>)
    requires m.Keys == Elems(ground) && w.Keys == Elems(ground) && InverseMap(m, w, ground)
    ensures forall x :: Apply(w, Apply(m, x)) == x
    ensures forall x :: Apply(m, Apply(w, x)) == x
  {
    forall x
      ensures Apply(w, Apply(m, x)) == x
    {
      if x in m {
        assert x in ground;
      }
    }
  }
}
