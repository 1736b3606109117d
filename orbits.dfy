/** Orbits of a permutation map: the vocabulary in which the cycle
    decomposition of src/group_theory/cycle.rs:140-161 is specified, and the
    facts about one walk along a map that its loops rely on. */
module Orbits {
  import opened Permutations

  /** `m` permutes the elements of the repetition-free vector `ground`. */
  ghost predicate Bijection<T>(m: map<T, T>, ground: seq<T>)
  {
    Distinct(ground) && m.Keys == Elems(ground) && m.Values <= m.Keys && Injective(m)
  }

  /** `c` is one orbit of `m`, listed from `c[0]` along `m` and closing back
      at `c[0]`. */
  ghost predicate IsOrbit<T>(m: map<T, T>, c: seq<T>)
  {
    && |c| >= 1
    && Distinct(c)
    && (forall i :: 0 <= i < |c| ==> c[i] in m)
    && (forall i {:trigger m[c[i]]} :: 0 <= i < |c| ==> m[c[i]] == Successor(c, i))
  }

  /** Each element of `c` after the first is the image of the one before. */
  ghost predicate Follows<T>(m: map<T, T>, c: seq<T>)
  {
    && (forall i :: 0 <= i < |c| ==> c[i] in m)
    && (forall i {:trigger m[c[i]]} :: 0 <= i < |c| - 1 ==> m[c[i]] == c[i + 1])
  }

  /** `s` contains the image of each of its elements. */
  ghost predicate Closed<T>(m: map<T, T>, s: set<T>)
  {
    forall x {:trigger m[x]} :: x in s && x in m ==> m[x] in s
  }

  /** `s` contains every element whose image it contains. */
  ghost predicate BackClosed<T>(m: map<T, T>, s: set<T>)
  {
    forall x {:trigger m[x]} :: x in m && m[x] in s ==> x in s
  }

  /** Each cycle starts at its element earliest in `ground`, and the cycles
      come in the ground order of their starts. */
  ghost predicate Canonical<T>(ground: seq<T>, cycles: seq<seq<T>>)
  {
    && (forall k, j :: 0 <= k < |cycles| && 0 <= j < |cycles[k]| ==> cycles[k][j] in ground)
    && (forall k :: 0 <= k < |cycles| ==> cycles[k] != [])
    && (forall k, j :: 0 <= k < |cycles| && 0 <= j < |cycles[k]| ==>
          IndexOf(ground, cycles[k][0]) <= IndexOf(ground, cycles[k][j]))
    && (forall k, l :: 0 <= k < l < |cycles| ==>
          IndexOf(ground, cycles[k][0]) < IndexOf(ground, cycles[l][0]))
  }

  /** `cycles` lists disjoint orbits of `m` that name only elements of
      `covered`, in canonical order; every element of `covered` left
      unnamed is a fixed point, and that only when 1-cycles are hidden
      (`showOne` false), in which case every listed orbit has two or more
      elements. */
  ghost predicate Decomposes<T>(m: map<T, T>, ground: seq<T>, cycles: seq<seq<T>>, covered: set<T>, showOne: bool)
  {
    && WellFormedCycles(cycles)
    && (forall k :: 0 <= k < |cycles| ==> IsOrbit(m, cycles[k]))
    && (forall k :: 0 <= k < |cycles| ==> showOne || |cycles[k]| >= 2)
    && Mentioned(cycles) <= covered
    && (forall x :: x in covered && x !in Mentioned(cycles) ==> !showOne && x in m && m[x] == x)
    && Canonical(ground, cycles)
  }

  /** The cycle decomposition of `m` over all of `ground`. */
  ghost predicate Decomposition<T>(m: map<T, T>, ground: seq<T>, cycles: seq<seq<T>>, showOne: bool)
  {
    Decomposes(m, ground, cycles, Elems(ground), showOne)
  }

  // ---------------------------------------------------------------------
  // The outer loop: orbits of the first `i` ground elements
  // ---------------------------------------------------------------------

  /** The state after the outer loop has handled `ground[..i]`: `visited`
      is a union of whole orbits containing those elements, and `cycles`
      decomposes it, every start lying before position `i`. */
  ghost predicate Visited<T>(m: map<T, T>, ground: seq<T>, i: nat, visited: set<T>, cycles: seq<seq<T>>, showOne: bool)
  {
    && i <= |ground|
    && Elems(ground[..i]) <= visited <= Elems(ground)
    && Closed(m, visited) && BackClosed(m, visited)
    && Decomposes(m, ground, cycles, visited, showOne)
    && (forall k :: 0 <= k < |cycles| && cycles[k] != [] && cycles[k][0] in ground ==>
          IndexOf(ground, cycles[k][0]) < i)
  }

  lemma VisitedNone<T>(m: map<T, T>, ground: seq<T>, showOne: bool)
    ensures Visited(m, ground, 0, {}, [], showOne)
  {
    assert Elems(ground[..0]) == {};
  }

  lemma VisitedAll<T>(m: map<T, T>, ground: seq<T>, visited: set<T>, cycles: seq<seq<T>>, showOne: bool)
    requires Visited(m, ground, |ground|, visited, cycles, showOne)
    ensures Decomposition(m, ground, cycles, showOne)
  {
    assert ground[..|ground|] == ground;
    assert visited == Elems(ground);
  }

  /** Naming the elements of one more cycle. */
  lemma MentionedAppend<T>(cycles: seq<seq<T>>, c: seq<T>)
    ensures Mentioned(cycles + [c]) == Mentioned(cycles) + Elems(c)
  {
    assert (cycles + [c])[..|cycles|] == cycles;
  }

  /** A ground element already visited adds nothing. */
  lemma VisitedSkip<T>(m: map<T, T>, ground: seq<T>, i: nat, visited: set<T>, cycles: seq<seq<T>>, showOne: bool)
    requires Visited(m, ground, i, visited, cycles, showOne)
    requires i < |ground| && ground[i] in visited
    ensures Visited(m, ground, i + 1, visited, cycles, showOne)
  {
    ElemsPrefix(ground, i);
  }

  /** An element missing from a prefix first occurs after it. */
  lemma {:induction false} IndexOfAfter<T>(s: seq<T>, i: nat, x: T)
    requires i <= |s| && x in s && x !in s[..i]
    ensures i <= IndexOf(s, x)
  {
    if i > 0 {
      assert s[..i][0] == s[0];
      assert s[1..][..i - 1] == s[1..i];
      assert s[..i] == [s[0]] + s[1..i];
      IndexOfAfter(s[1..], i - 1, x);
    }
  }

  /** The orbit of an element is closed in both directions. */
  lemma OrbitClosed<T>(m: map<T, T>, c: seq<T>)
    requires IsOrbit(m, c) && Injective(m)
    ensures Closed(m, Elems(c)) && BackClosed(m, Elems(c))
  {
    forall x | x in Elems(c) && x in m
      ensures m[x] in Elems(c)
    {
      var i :| 0 <= i < |c| && c[i] == x;
      assert m[c[i]] == Successor(c, i);
    }
    forall x | x in m && m[x] in Elems(c)
      ensures x in Elems(c)
    {
      var j :| 0 <= j < |c| && c[j] == m[x];
      var p := if j == 0 then |c| - 1 else j - 1;
      assert m[c[p]] == Successor(c, p) == c[j];
    }
  }

  /** A new orbit, disjoint from the visited orbits, starting at the first
      unvisited ground element: the union is closed, and the orbit is
      either listed or, as a hidden 1-cycle, a fixed point. */
  lemma VisitedOrbit<T>(m: map<T, T>, ground: seq<T>, i: nat, visited: set<T>, cycles: seq<seq<T>>, showOne: bool, c: seq<T>)
    requires Bijection(m, ground)
    requires Visited(m, ground, i, visited, cycles, showOne)
    requires i < |ground| && IsOrbit(m, c) && c[0] == ground[i]
    requires Elems(c) <= Elems(ground) && Elems(c) !! visited
    ensures var cycles' := if |c| != 1 || showOne then cycles + [c] else cycles;
      Visited(m, ground, i + 1, visited + Elems(c), cycles', showOne)
  {
    var v' := visited + Elems(c);
    OrbitClosed(m, c);
    assert Closed(m, v') by {
      forall x {:trigger m[x]} | x in v' && x in m
        ensures m[x] in v'
      {
        if x in visited {
          assert m[x] in visited;
        } else {
          assert m[x] in Elems(c);
        }
      }
    }
    assert BackClosed(m, v') by {
      forall x {:trigger m[x]} | x in m && m[x] in v'
        ensures x in v'
      {
        if m[x] in visited {
          assert x in visited;
        } else {
          assert x in Elems(c);
        }
      }
    }
    ElemsPrefix(ground, i);
    IndexOfDistinct(ground, i);
    assert c[0] in Elems(c);
    forall j | 0 <= j < |c|
      ensures i <= IndexOf(ground, c[j])
    {
      assert c[j] in Elems(ground) && c[j] !in Elems(ground[..i]);
      IndexOfAfter(ground, i, c[j]);
    }
    if |c| != 1 || showOne {
      VisitedAppend(m, ground, i, visited, cycles, showOne, c);
    } else {
      VisitedFixed(m, ground, i, visited, cycles, showOne, c);
    }
  }

  lemma VisitedAppend<T>(m: map<T, T>, ground: seq<T>, i: nat, visited: set<T>, cycles: seq<seq<T>>, showOne: bool, c: seq<T>)
    requires Visited(m, ground, i, visited, cycles, showOne)
    requires i < |ground| && IsOrbit(m, c) && (|c| != 1 || showOne)
    requires Elems(c) <= Elems(ground) && Elems(c) !! visited
    requires forall j :: 0 <= j < |c| ==> c[j] in ground && i <= IndexOf(ground, c[j])
    requires IndexOf(ground, c[0]) == i
    ensures Decomposes(m, ground, cycles + [c], visited + Elems(c), showOne)
    ensures forall k :: 0 <= k < |cycles + [c]| && (cycles + [c])[k] != [] && (cycles + [c])[k][0] in ground ==>
      IndexOf(ground, (cycles + [c])[k][0]) < i + 1
  {
    DecomposesAppend(m, ground, cycles, visited, showOne, c);
    StartsAppend(ground, cycles, c, i);
  }

  /** Listing one more orbit outside the covered set. */
  lemma DecomposesAppend<T>(m: map<T, T>, ground: seq<T>, cycles: seq<seq<T>>, covered: set<T>, showOne: bool, c: seq<T>)
    requires Decomposes(m, ground, cycles, covered, showOne)
    requires IsOrbit(m, c) && (|c| != 1 || showOne) && Elems(c) !! covered && c[0] in ground
    requires forall j :: 0 <= j < |c| ==> c[j] in ground && IndexOf(ground, c[0]) <= IndexOf(ground, c[j])
    requires forall k :: 0 <= k < |cycles| && cycles[k] != [] && cycles[k][0] in ground ==>
      IndexOf(ground, cycles[k][0]) < IndexOf(ground, c[0])
    ensures Decomposes(m, ground, cycles + [c], covered + Elems(c), showOne)
  {
    var cs := cycles + [c];
    MentionedAppend(cycles, c);
    WellFormedAppend(cycles, c);
    OrbitsAppend(m, cycles, c, showOne);
    CanonicalAppend(ground, cycles, c);
    FixedAppend(m, cycles, covered, showOne, c);
  }

  lemma FixedAppend<T>(m: map<T, T>, cycles: seq<seq<T>>, covered: set<T>, showOne: bool, c: seq<T>)
    requires forall x :: x in covered && x !in Mentioned(cycles) ==> !showOne && x in m && m[x] == x
    ensures forall x :: x in covered + Elems(c) && x !in Mentioned(cycles + [c]) ==> !showOne && x in m && m[x] == x
  {
    MentionedAppend(cycles, c);
    forall x | x in covered + Elems(c) && x !in Mentioned(cycles + [c])
      ensures !showOne && x in m && m[x] == x
    {
      assert x in covered && x !in Mentioned(cycles);
    }
  }

  lemma WellFormedAppend<T>(cycles: seq<seq<T>>, c: seq<T>)
    requires WellFormedCycles(cycles) && Distinct(c) && Elems(c) !! Mentioned(cycles)
    ensures WellFormedCycles(cycles + [c])
  {
    var cs := cycles + [c];
    forall k, l, a, b | 0 <= k < l < |cs| && 0 <= a < |cs[k]| && 0 <= b < |cs[l]|
      ensures cs[k][a] != cs[l][b]
    {
      if l == |cycles| {
        MentionedMember(cycles, k, a);
        assert cs[l][b] in Elems(c);
      } else {
        assert cs[k] == cycles[k] && cs[l] == cycles[l];
      }
    }
  }

  lemma OrbitsAppend<T>(m: map<T, T>, cycles: seq<seq<T>>, c: seq<T>, showOne: bool)
    requires forall k :: 0 <= k < |cycles| ==> IsOrbit(m, cycles[k])
    requires forall k :: 0 <= k < |cycles| ==> showOne || |cycles[k]| >= 2
    requires IsOrbit(m, c) && (showOne || |c| >= 2)
    ensures forall k :: 0 <= k < |cycles + [c]| ==> IsOrbit(m, (cycles + [c])[k])
    ensures forall k :: 0 <= k < |cycles + [c]| ==> showOne || |(cycles + [c])[k]| >= 2
  {
    var cs := cycles + [c];
    forall k | 0 <= k < |cs|
      ensures IsOrbit(m, cs[k]) && (showOne || |cs[k]| >= 2)
    {
      if k < |cycles| {
        assert cs[k] == cycles[k];
      }
    }
  }

  lemma CanonicalAppend<T>(ground: seq<T>, cycles: seq<seq<T>>, c: seq<T>)
    requires Canonical(ground, cycles) && c != [] && c[0] in ground
    requires forall j :: 0 <= j < |c| ==> c[j] in ground && IndexOf(ground, c[0]) <= IndexOf(ground, c[j])
    requires forall k :: 0 <= k < |cycles| && cycles[k] != [] && cycles[k][0] in ground ==>
      IndexOf(ground, cycles[k][0]) < IndexOf(ground, c[0])
    ensures Canonical(ground, cycles + [c])
  {
    var cs := cycles + [c];
    forall k | 0 <= k < |cs|
      ensures cs[k] == if k < |cycles| then cycles[k] else c
    {
    }
  }

  lemma StartsAppend<T>(ground: seq<T>, cycles: seq<seq<T>>, c: seq<T>, i: nat)
    requires forall k :: 0 <= k < |cycles| && cycles[k] != [] && cycles[k][0] in ground ==>
      IndexOf(ground, cycles[k][0]) < i
    requires c != [] && c[0] in ground && IndexOf(ground, c[0]) == i
    ensures forall k :: 0 <= k < |cycles + [c]| && (cycles + [c])[k] != [] && (cycles + [c])[k][0] in ground ==>
      IndexOf(ground, (cycles + [c])[k][0]) < i + 1
  {
    var cs := cycles + [c];
    forall k | 0 <= k < |cs|
      ensures cs[k] == if k < |cycles| then cycles[k] else c
    {
    }
  }

  lemma VisitedFixed<T>(m: map<T, T>, ground: seq<T>, i: nat, visited: set<T>, cycles: seq<seq<T>>, showOne: bool, c: seq<T>)
    requires Visited(m, ground, i, visited, cycles, showOne)
    requires i < |ground| && IsOrbit(m, c) && |c| == 1 && !showOne
    requires Elems(c) <= Elems(ground) && Elems(c) !! visited
    requires c[0] == ground[i]
    ensures Decomposes(m, ground, cycles, visited + Elems(c), showOne)
  {
    assert m[c[0]] == Successor(c, 0) == c[0];
    assert Elems(c) == {c[0]};
    assert c[0] !in Mentioned(cycles);
  }

  // ---------------------------------------------------------------------
  // The inner loop: walking from one ground element
  // ---------------------------------------------------------------------

  /** The state of the inner loop walking from `g`: `cycle` is the walk so
      far, all of it unvisited before the walk and inside `ground`, `curr`
      the next element, and `visited` grew by exactly the walk. */
  ghost predicate Walking<T>(m: map<T, T>, ground: seq<T>, before: set<T>, g: T, cycle: seq<T>, curr: T, visited: set<T>)
  {
    && visited == before + Elems(cycle)
    && Elems(cycle) <= Elems(ground) && curr in Elems(ground)
    && Distinct(cycle) && Elems(cycle) !! before
    && (cycle == [] ==> curr == g)
    && (cycle != [] ==> cycle[0] == g && cycle[|cycle| - 1] in m && curr == m[cycle[|cycle| - 1]])
    && Follows(m, cycle)
  }

  lemma WalkStart<T>(m: map<T, T>, ground: seq<T>, i: nat, visited: set<T>)
    requires i < |ground|
    ensures Walking(m, ground, visited, ground[i], [], ground[i], visited)
  {
  }

  /** One step of the walk from an unvisited element. */
  lemma WalkStep<T>(m: map<T, T>, ground: seq<T>, before: set<T>, g: T, cycle: seq<T>, curr: T, visited: set<T>)
    requires Bijection(m, ground)
    requires Walking(m, ground, before, g, cycle, curr, visited) && curr !in visited
    ensures curr in m
    ensures Walking(m, ground, before, g, cycle + [curr], m[curr], visited + {curr})
  {
    var c' := cycle + [curr];
    assert m[curr] in m.Values;
    assert Elems(c') == Elems(cycle) + {curr} by {
      assert c'[..|cycle|] == cycle;
      ElemsPrefix(c', |cycle|);
      assert c'[..|cycle| + 1] == c';
    }
    assert Follows(m, c') by {
      forall j {:trigger m[c'[j]]} | 0 <= j < |c'| - 1
        ensures c'[j] in m && m[c'[j]] == c'[j + 1]
      {
        if j < |cycle| - 1 {
          assert m[cycle[j]] == cycle[j + 1];
        }
      }
    }
  }

  /** The walk stops only back at its start, having traced an orbit. */
  lemma WalkCloses<T>(m: map<T, T>, ground: seq<T>, before: set<T>, g: T, cycle: seq<T>, curr: T, visited: set<T>)
    requires Bijection(m, ground) && BackClosed(m, before)
    requires Walking(m, ground, before, g, cycle, curr, visited) && curr in visited && cycle != []
    ensures IsOrbit(m, cycle)
  {
    var n := |cycle|;
    var last := cycle[n - 1];
    assert last in Elems(cycle) && last !in before;
    assert curr !in before;
    forall j | 0 < j < n
      ensures cycle[j] != curr
    {
      assert m[cycle[j - 1]] == cycle[j];
    }
    var j :| 0 <= j < n && cycle[j] == curr;
    forall i {:trigger m[cycle[i]]} | 0 <= i < n
      ensures cycle[i] in m && m[cycle[i]] == Successor(cycle, i)
    {
      if i < n - 1 {
        assert m[cycle[i]] == cycle[i + 1];
      }
    }
  }

  // ---------------------------------------------------------------------
  // Back to cycle notation
  // ---------------------------------------------------------------------

  /** A non-empty decomposition of a bijection, read as cycle notation,
      builds that bijection again. */
  lemma DecompositionRebuilds<T>(m: map<T, T>, ground: seq<T>, cycles: seq<seq<T>>, showOne: bool)
    requires Bijection(m, ground) && Decomposition(m, ground, cycles, showOne) && cycles != []
    ensures FromMap(cycles, ground) == m
  {
    var f := FromMap(cycles, ground);
    FromKeys(cycles, ground);
    assert f.Keys == m.Keys;
    forall x | x in m
      ensures f[x] == m[x]
    {
      if x in Mentioned(cycles) {
        var k, i := MentionedWitness(cycles, x);
        assert IsOrbit(m, cycles[k]);
        assert m[cycles[k][i]] == Successor(cycles[k], i);
        FromImage(cycles, ground, k, i);
      } else {
        FromFixed(cycles, ground, x);
      }
    }
  }
}
