/** The permutation type `Cycle<T>` of src/group_theory/cycle.rs: a
    bijection over an ordered ground vector, stored as a `BiMap` together
    with the ground vector, a size `n` and the cached retraversal `h`, where
    `h[i]` is the image of `ground[i]`. */
module GroupTheoryCycle {
  import opened Outcomes
  import opened Permutations
  import opened Orbits

  /** The fields of the Rust struct; `perm` is the `BiMap`. */
  datatype Cycle<T> = Cycle(ground: seq<T>, n: nat, perm: map<T, T>, h: seq<T>)

  /** A well-formed permutation: a repetition-free ground vector, a bijection
      of its elements onto themselves, `n` the ground size and `h` the
      retraversal. */
  ghost predicate Valid<T>(c: Cycle<T>)
  {
    && Distinct(c.ground)
    && c.perm.Keys == Elems(c.ground)
    && c.perm.Values <= c.perm.Keys
    && Injective(c.perm)
    && c.n == |c.ground|
    && |c.h| == |c.ground|
    && (forall i :: 0 <= i < |c.ground| ==> c.h[i] == c.perm[c.ground[i]])
  }

  /** The identity over `ground`: every element fixed. */
  function Identity<T(==)>(ground: seq<T>): Cycle<T>
  {
    Cycle(ground, |ground|, Fixing(Elems(ground)), ground)
  }

  lemma IdentityValid<T>(ground: seq<T>)
    requires Distinct(ground)
    ensures Valid(Identity(ground))
    ensures forall x :: Eval(Identity(ground), x) == x
  {
  }

  /** A constructor given a bijection of a repetition-free ground returns a
      valid permutation holding that bijection. */
  lemma MakeValid<T>(m: map<T, T>, ground: seq<T>)
    requires Distinct(ground) && m.Keys == Elems(ground) && m.Values <= m.Keys && Injective(m)
    ensures Make(m, ground, |ground|).Ok?
    ensures Valid(Make(m, ground, |ground|).value)
    ensures Make(m, ground, |ground|).value.perm == m
  {
  }

  /** A valid permutation is what its own fields rebuild. */
  lemma MakeIsSelf<T>(c: Cycle<T>)
    requires Valid(c)
    ensures Make(c.perm, c.ground, c.n) == Ok(c)
  {
    assert RetraversalOf(c.perm, c.ground) == c.h;
  }

  // ---------------------------------------------------------------------
  // Constructors
  // ---------------------------------------------------------------------

  /** The retraversal of `ground` under `m`. */
  function RetraversalOf<T(==)>(m: map<T, T>, ground: seq<T>): (h: seq<T>)
    requires Covers(m, ground)
    ensures |h| == |ground|
    ensures forall i :: 0 <= i < |ground| ==> h[i] == m[ground[i]]
  {
    seq(|ground|, i requires 0 <= i < |ground| => m[ground[i]])
  }

  /** The struct a constructor returns once its map `m` is built, or the
      panic of the `unwrap` in the retraversal when a ground element has no
      image. */
  function Make<T(==)>(m: map<T, T>, ground: seq<T>, n: nat): Result<Cycle<T>>
  {
    if Covers(m, ground) then Ok(Cycle(ground, n, m, RetraversalOf(m, ground)))
    else Err(MissingImage)
  }

  /** The retraversal loop shared by the constructors: `None` where the
      `unwrap` panics. */
  method Retraversal<T(==)>(m: map<T, T>, ground: seq<T>) returns (r: Option<seq<T>>)
    ensures r.Some? <==> Covers(m, ground)
    ensures r.Some? ==> r.value == RetraversalOf(m, ground)
  {
    var h: seq<T> := [];
    for i := 0 to |ground|
      invariant Covers(m, ground[..i])
      invariant |h| == i
      invariant forall j :: 0 <= j < i ==> h[j] == m[ground[j]]
    {
      assert ground[..i + 1] == ground[..i] + [ground[i]];
      if ground[i] !in m {
        return None;
      }
      h := h + [m[ground[i]]];
    }
    assert ground[..|ground|] == ground;
    return Some(h);
  }

  /** The map `new` stores: when the map's size differs from the ground's,
      every ground element without an image becomes a fixed point. */
  function Completed<T(==)>(m: map<T, T>, ground: seq<T>): map<T, T>
  {
    if |m| != |ground| then m + Fixing(Elems(ground) - m.Keys) else m
  }

  /** No ground element that `new` fixes is already an image; otherwise the
      `BiMap` insert would evict that pair, which the model does not. */
  predicate NoFixedPointClash<T(==)>(m: map<T, T>, ground: seq<T>)
  {
    |m| != |ground| ==> forall x :: x in ground && x !in m ==> x !in m.Values
  }

  /** What `new(m, ground)` returns. */
  function NewSpec<T(==)>(m: map<T, T>, ground: seq<T>): Result<Cycle<T>>
  {
    Make(Completed(m, ground), ground, |ground|)
  }

  /** One more ground element considered by the completion loop. */
  lemma FixingStep<T>(m: map<T, T>, a: set<T>, g: T)
    ensures g in m ==> m + Fixing((a + {g}) - m.Keys) == m + Fixing(a - m.Keys)
    ensures g !in m ==> m + Fixing((a + {g}) - m.Keys) == (m + Fixing(a - m.Keys))[g := g]
  {
    if g in m {
      assert (a + {g}) - m.Keys == a - m.Keys;
    } else {
      assert (a + {g}) - m.Keys == (a - m.Keys) + {g};
      var l, r := m + Fixing((a + {g}) - m.Keys), (m + Fixing(a - m.Keys))[g := g];
      assert l.Keys == r.Keys;
      forall x | x in l
        ensures l[x] == r[x]
      {
      }
    }
  }

  /** The completion loop of `new`: each ground element without an image is
      inserted as a fixed point, when the sizes differ. */
  method Complete<T(==)>(m: map<T, T>, ground: seq<T>) returns (completed: map<T, T>)
    ensures completed == Completed(m, ground)
  {
    completed := m;
    if |m| != |ground| {
      for i := 0 to |ground|
        invariant completed == m + Fixing(Elems(ground[..i]) - m.Keys)
      {
        ElemsPrefix(ground, i);
        FixingStep(m, Elems(ground[..i]), ground[i]);
        if ground[i] !in m {
          completed := completed[ground[i] := ground[i]];
        }
      }
      assert ground[..|ground|] == ground;
    }
  }

  /** `Cycle::new` (src/group_theory/cycle.rs:30-51). */
  method New<T(==)>(m: map<T, T>, ground: seq<T>) returns (r: Result<Cycle<T>>)
    requires Injective(m) && NoFixedPointClash(m, ground)
    ensures r == NewSpec(m, ground)
  {
    var completed := Complete(m, ground);
    var h := Retraversal(completed, ground);
    if h.None? {
      return Err(MissingImage);
    }
    return Ok(Cycle(ground, |ground|, completed, h.value));
  }

  /** With `m` permuting its keys within a repetition-free ground, the
      completion fixes exactly the ground elements without an image (when
      the sizes agree there are none). */
  lemma CompletedFixesRest<T>(m: map<T, T>, ground: seq<T>)
    requires Distinct(ground) && m.Keys <= Elems(ground)
    ensures Completed(m, ground) == m + Fixing(Elems(ground) - m.Keys)
  {
    if |m| == |ground| {
      DistinctCard(ground);
      assert |m.Keys| == |m|;
      SubsetCard(m.Keys, Elems(ground));
      assert Elems(ground) - m.Keys == {};
      assert m + Fixing({}) == m;
    }
  }

  /** A map already covering a repetition-free ground is stored unchanged. */
  lemma NewOfTotal<T>(m: map<T, T>, ground: seq<T>)
    requires Distinct(ground) && m.Keys == Elems(ground)
    ensures NoFixedPointClash(m, ground)
    ensures NewSpec(m, ground) == Make(m, ground, |ground|)
  {
    DistinctCard(ground);
    assert |m.Keys| == |m|;
  }

  /** Adding fixed points outside the keys keeps a bijection of the keys. */
  lemma FixingKeepsBijection<T>(m: map<T, T>, rest: set<T>)
    requires Injective(m) && m.Values <= m.Keys && rest !! m.Keys
    ensures Injective(m + Fixing(rest))
    ensures (m + Fixing(rest)).Values <= (m + Fixing(rest)).Keys
  {
    var f := m + Fixing(rest);
    forall x, y | x in f && y in f && x != y
      ensures f[x] != f[y]
    {
      if x in m && y !in m {
        assert f[x] == m[x] && m[x] in m.Values && f[y] == y;
      } else if x !in m && y in m {
        assert f[y] == m[y] && m[y] in m.Values && f[x] == x;
      }
    }
    forall y | y in f.Values
      ensures y in f
    {
      var x :| x in f && f[x] == y;
      if x in m {
        assert m[x] in m.Values;
      }
    }
  }

  /** When `m` permutes its own keys within a repetition-free ground, `new`
      succeeds with a valid permutation that agrees with `m` and fixes every
      other ground element. */
  lemma NewCompletes<T>(m: map<T, T>, ground: seq<T>)
    requires Distinct(ground) && Injective(m)
    requires m.Keys <= Elems(ground) && m.Values <= m.Keys
    ensures NoFixedPointClash(m, ground)
    ensures NewSpec(m, ground).Ok?
    ensures Valid(NewSpec(m, ground).value)
    ensures NewSpec(m, ground).value.perm == m + Fixing(Elems(ground) - m.Keys)
  {
    ClosedNoClash(m, ground);
    var f := m + Fixing(Elems(ground) - m.Keys);
    FixingKeepsBijection(m, Elems(ground) - m.Keys);
    MakeValid(f, ground);
    NewFixesRest(m, ground);
    var r := Make(f, ground, |ground|);
    assert NewSpec(m, ground) == r;
  }

  /** `new` completes a partial map by fixing the ground elements it lacks. */
  lemma NewFixesRest<T>(m: map<T, T>, ground: seq<T>)
    requires Distinct(ground) && m.Keys <= Elems(ground)
    ensures NewSpec(m, ground) == Make(m + Fixing(Elems(ground) - m.Keys), ground, |ground|)
  {
    CompletedFixesRest(m, ground);
  }

  /** A map whose images are among its keys never sends a key to a point
      that the completion will fix. */
  lemma ClosedNoClash<T>(m: map<T, T>, ground: seq<T>)
    requires m.Values <= m.Keys
    ensures NoFixedPointClash(m, ground)
  {
  }

  /** What `from(vec, ground)` returns; `n` is the size of the built map. */
  ghost function FromSpec<T>(vec: seq<seq<T>>, ground: seq<T>): Result<Cycle<T>>
    requires WellFormedCycles(vec)
  {
    Make(FromMap(vec, ground), ground, |FromMap(vec, ground)|)
  }

  /** `Cycle::from` (src/group_theory/cycle.rs:53-85). */
  method From<T(==)>(vec: seq<seq<T>>, ground: seq<T>) returns (r: Result<Cycle<T>>)
    requires WellFormedCycles(vec)
    ensures r == FromSpec(vec, ground)
  {
    var m := BuildFromCycles(vec, ground);
    var h := Retraversal(m, ground);
    if h.None? {
      return Err(MissingImage);
    }
    return Ok(Cycle(ground, |m|, m, h.value));
  }

  /** `from` on a non-empty vector of disjoint cycles inside a
      repetition-free ground is a valid permutation. */
  lemma FromCyclesValid<T>(vec: seq<seq<T>>, ground: seq<T>)
    requires WellFormedCycles(vec) && vec != [] && Mentioned(vec) <= Elems(ground)
    requires Distinct(ground)
    ensures FromSpec(vec, ground).Ok?
    ensures Valid(FromSpec(vec, ground).value)
    ensures FromSpec(vec, ground).value.perm == FromMap(vec, ground)
  {
    var m := FromMap(vec, ground);
    FromMapOnto(vec, ground);
    FromMapInjective(vec, ground);
    DistinctCard(ground);
    assert |m.Keys| == |m|;
    MakeValid(m, ground);
  }

  /** ... and it sends each `a_k` to `a_{k+1}` and the last element of each
      cycle to its first, fixing every other ground element. */
  lemma FromCycles<T>(vec: seq<seq<T>>, ground: seq<T>)
    requires WellFormedCycles(vec) && vec != [] && Mentioned(vec) <= Elems(ground)
    requires Distinct(ground)
    ensures FromSpec(vec, ground).Ok? && Valid(FromSpec(vec, ground).value)
    ensures forall k, i {:trigger FromSpec(vec, ground).value.perm[vec[k][i]]} :: 0 <= k < |vec| && 0 <= i < |vec[k]| ==>
      Eval(FromSpec(vec, ground).value, vec[k][i]) == Successor(vec[k], i)
    ensures forall x :: x in ground && x !in Mentioned(vec) ==> Eval(FromSpec(vec, ground).value, x) == x
  {
    FromCyclesValid(vec, ground);
    var c := FromSpec(vec, ground).value;
    forall k, i | 0 <= k < |vec| && 0 <= i < |vec[k]|
      ensures Eval(c, vec[k][i]) == Successor(vec[k], i)
    {
      FromImage(vec, ground, k, i);
    }
    forall x | x in ground && x !in Mentioned(vec)
      ensures Eval(c, x) == x
    {
      FromFixed(vec, ground, x);
    }
  }

  /** `from(vec![vec![]], ground)` is the identity (a cycle with no
      elements adds no arrows and every ground element is then fixed). */
  lemma FromEmptyCycle<T>(ground: seq<T>)
    requires Distinct(ground)
    ensures WellFormedCycles<T>([[]]) && FromSpec([[]], ground) == Ok(Identity(ground))
  {
    var vec: seq<seq<T>> := [[]];
    assert vec[..0] == [];
    assert Mentioned(vec) == {};
    FromKeys(vec, ground);
    var m := FromMap(vec, ground);
    assert m.Keys == Elems(ground);
    forall x | x in m
      ensures m[x] == x
    {
      FromFixed(vec, ground, x);
    }
    assert m == Fixing(Elems(ground));
    DistinctCard(ground);
    assert RetraversalOf(m, ground) == ground;
  }

  /** `from(vec![], ground)` builds the empty map, so its retraversal
      `unwrap` panics on any non-empty ground. */
  lemma FromNoCycles<T>(ground: seq<T>)
    requires ground != []
    ensures WellFormedCycles<T>([]) && FromSpec([], ground) == Err(MissingImage)
  {
    FromKeys([], ground);
    assert ground[0] in ground;
  }

  /** The smaller of two lengths. */
  function Min(a: nat, b: nat): nat
  {
    if a <= b then a else b
  }

  /** The map of the `zip`/`fold` in `from_retraversal`: `ground[i] |-> v[i]`
      for every position both vectors have. */
  function ZipMap<T(==)>(v: seq<T>, ground: seq<T>): (r: map<T, T>)
    ensures r.Keys == Elems(ground[..Min(|v|, |ground|)])
  {
    var g := ground[..Min(|v|, |ground|)];
    map x | x in g :: v[IndexOf(g, x)]
  }

  /** No `BiMap` insert of the fold evicts an earlier pair: the zipped
      prefixes of both vectors are repetition-free. */
  ghost predicate ZipFree<T>(v: seq<T>, ground: seq<T>)
  {
    Distinct(v[..Min(|v|, |ground|)]) && Distinct(ground[..Min(|v|, |ground|)])
  }

  lemma ZipMapPairs<T>(v: seq<T>, ground: seq<T>)
    requires ZipFree(v, ground)
    ensures forall i :: 0 <= i < Min(|v|, |ground|) ==> ZipMap(v, ground)[ground[i]] == v[i]
    ensures Injective(ZipMap(v, ground))
  {
    var k := Min(|v|, |ground|);
    var g := ground[..k];
    var z := ZipMap(v, ground);
    forall i | 0 <= i < k
      ensures z[ground[i]] == v[i]
    {
      assert g[i] == ground[i];
      IndexOfDistinct(g, i);
    }
    forall x, y | x in z && y in z && x != y
      ensures z[x] != z[y]
    {
      var i, j := IndexOf(g, x), IndexOf(g, y);
      assert v[..k][i] == v[i] && v[..k][j] == v[j];
    }
  }

  /** `Cycle::from_retraversal` (src/group_theory/cycle.rs:87-102). */
  method FromRetraversal<T(==)>(v: seq<T>, ground: seq<T>) returns (r: Result<Cycle<T>>)
    requires ZipFree(v, ground) && NoFixedPointClash(ZipMap(v, ground), ground)
    ensures r == NewSpec(ZipMap(v, ground), ground)
  {
    ZipMapPairs(v, ground);
    r := New(ZipMap(v, ground), ground);
  }

  /** For a rearrangement `v` of a repetition-free ground, the zipped map is
      a bijection of the ground whose retraversal is `v`. */
  lemma ZipMapBijective<T>(v: seq<T>, ground: seq<T>)
    requires Distinct(ground) && Distinct(v) && |v| == |ground| && Elems(v) == Elems(ground)
    ensures ZipFree(v, ground)
    ensures ZipMap(v, ground).Keys == Elems(ground)
    ensures ZipMap(v, ground).Values <= ZipMap(v, ground).Keys
    ensures Injective(ZipMap(v, ground))
    ensures Covers(ZipMap(v, ground), ground) && RetraversalOf(ZipMap(v, ground), ground) == v
  {
    assert v[..|v|] == v && ground[..|ground|] == ground;
    var z := ZipMap(v, ground);
    ZipMapPairs(v, ground);
    forall y | y in z.Values
      ensures y in z
    {
      var x :| x in z && z[x] == y;
      var i := IndexOf(ground, x);
      assert y == v[i] && v[i] in Elems(v);
    }
  }

  /** When `v` is a rearrangement of a repetition-free ground (the checks
      the Rust code leaves commented out), `from_retraversal` yields a valid
      permutation whose retraversal is `v`. */
  lemma FromRetraversalPermutation<T>(v: seq<T>, ground: seq<T>)
    requires Distinct(ground) && Distinct(v) && |v| == |ground| && Elems(v) == Elems(ground)
    ensures ZipFree(v, ground) && NoFixedPointClash(ZipMap(v, ground), ground)
    ensures NewSpec(ZipMap(v, ground), ground).Ok?
    ensures Valid(NewSpec(ZipMap(v, ground), ground).value)
    ensures NewSpec(ZipMap(v, ground), ground).value.h == v
  {
    var z := ZipMap(v, ground);
    ZipMapBijective(v, ground);
    NewOfTotal(z, ground);
    MakeValid(z, ground);
  }

  // ---------------------------------------------------------------------
  // Evaluation, inverse and product
  // ---------------------------------------------------------------------

  /** `eval`: the image of `x`, or `x` itself when it has none. */
  function Eval<T(==)>(c: Cycle<T>, x: T): (r: T)
    ensures x !in c.perm ==> r == x
    ensures Valid(c) ==> (r in c.ground <==> x in c.ground)
  {
    assert x in c.perm ==> c.perm[x] in c.perm.Values;
    Apply(c.perm, x)
  }

  /** On a valid permutation `eval` reads the retraversal on the ground and
      is the identity off it. */
  lemma EvalRetraversal<T>(c: Cycle<T>)
    requires Valid(c)
    ensures forall i :: 0 <= i < |c.ground| ==> Eval(c, c.ground[i]) == c.h[i]
    ensures forall x :: x !in c.ground ==> Eval(c, x) == x
  {
  }

  /** What `inverse` returns. */
  function InverseSpec<T(==)>(c: Cycle<T>): Result<Cycle<T>>
  {
    if Covers(c.perm, c.ground) then NewSpec(Restrict(c.perm, c.ground), c.ground)
    else Err(MissingImage)
  }

  /** `inverse` (src/group_theory/cycle.rs:108-114), as written: the loop
      re-inserts `g |-> map(g)`. */
  method Inverse<T(==)>(c: Cycle<T>) returns (r: Result<Cycle<T>>)
    requires Injective(c.perm)
    ensures r == InverseSpec(c)
  {
    var co := RestrictOver(c.perm, c.ground);
    if co.None? {
      return Err(MissingImage);
    }
    r := New(co.value, c.ground);
  }

  /** `inverse` as written returns a copy of its argument. */
  lemma InverseIsCopy<T>(c: Cycle<T>)
    requires Valid(c)
    ensures InverseSpec(c) == Ok(c)
  {
    var m := Restrict(c.perm, c.ground);
    assert m == c.perm;
    NewOfTotal(m, c.ground);
    MakeIsSelf(c);
  }

  /** The inverse `inverse` is meant to compute: `map(g) |-> g` for each
      ground element, then `new`. */
  function TrueInverseSpec<T(==)>(c: Cycle<T>): Result<Cycle<T>>
    requires Injective(c.perm)
  {
    if Covers(c.perm, c.ground) then NewSpec(Invert(c.perm, c.ground), c.ground)
    else Err(MissingImage)
  }

  /** `inverse` with the inserted pair turned round. */
  method TrueInverse<T(==)>(c: Cycle<T>) returns (r: Result<Cycle<T>>)
    requires Injective(c.perm)
    requires Covers(c.perm, c.ground) ==> NoFixedPointClash(Invert(c.perm, c.ground), c.ground)
    ensures r == TrueInverseSpec(c)
  {
    var co := InvertOver(c.perm, c.ground);
    if co.None? {
      return Err(MissingImage);
    }
    InvertIsInverse(c.perm, c.ground);
    InverseMapInjective(c.perm, co.value, c.ground);
    r := New(co.value, c.ground);
  }

  /** The retraversal of a valid permutation repeats no element... */
  lemma RetraversalDistinct<T>(c: Cycle<T>)
    requires Valid(c)
    ensures Distinct(c.h)
  {
    forall i, j | 0 <= i < j < |c.h|
      ensures c.h[i] != c.h[j]
    {
      assert c.ground[i] != c.ground[j];
    }
  }

  /** ... and holds only ground elements. */
  lemma RetraversalInGround<T>(c: Cycle<T>)
    requires Valid(c)
    ensures Elems(c.h) <= Elems(c.ground)
  {
    forall y | y in Elems(c.h)
      ensures y in Elems(c.ground)
    {
      var i :| 0 <= i < |c.h| && c.h[i] == y;
      assert c.perm[c.ground[i]] in c.perm.Values;
    }
  }

  /** Every element of a valid permutation's ground is the image of a
      ground element. */
  lemma Preimage<T>(c: Cycle<T>, y: T) returns (g: T)
    requires Valid(c) && y in c.ground
    ensures g in c.ground && c.perm[g] == y
  {
    RetraversalFills(c);
    assert y in Elems(c.h);
    var i :| 0 <= i < |c.h| && c.h[i] == y;
    g := c.ground[i];
  }

  /** The retraversal of a valid permutation holds every ground element. */
  lemma RetraversalFills<T>(c: Cycle<T>)
    requires Valid(c)
    ensures Elems(c.h) == Elems(c.ground)
  {
    RetraversalDistinct(c);
    RetraversalInGround(c);
    DistinctCard(c.h);
    DistinctCard(c.ground);
    SubsetCard(Elems(c.h), Elems(c.ground));
  }

  /** Every ground element is a key of a map undoing a valid permutation. */
  lemma InverseMapOnto<T>(c: Cycle<T>, w: map<T, T>)
    requires Valid(c) && InverseMap(c.perm, w, c.ground)
    ensures Elems(c.ground) <= w.Keys
  {
    forall y | y in Elems(c.ground)
      ensures y in w
    {
      var g := Preimage(c, y);
    }
  }

  /** `new` of such a map is a valid permutation of the same ground that
      undoes `c` pointwise. */
  lemma InverseMapValid<T>(c: Cycle<T>, w: map<T, T>)
    requires Valid(c) && InverseMap(c.perm, w, c.ground)
    ensures NewSpec(w, c.ground).Ok?
    ensures Valid(NewSpec(w, c.ground).value) && NewSpec(w, c.ground).value.ground == c.ground
    ensures forall x :: Eval(NewSpec(w, c.ground).value, Eval(c, x)) == x
    ensures forall x :: Eval(c, Eval(NewSpec(w, c.ground).value, x)) == x
  {
    InverseMapOnto(c, w);
    InverseMapKeys(c.perm, w, c.ground);
    InverseMapUndoes(c.perm, w, c.ground);
    NewOfTotal(w, c.ground);
    MakeValid(w, c.ground);
  }

  /** The corrected inverse of a valid permutation is a valid permutation of
      the same ground that undoes it pointwise. */
  lemma TrueInverseValid<T>(c: Cycle<T>)
    requires Valid(c)
    ensures TrueInverseSpec(c).Ok?
    ensures Valid(TrueInverseSpec(c).value) && TrueInverseSpec(c).value.ground == c.ground
    ensures forall x :: Eval(TrueInverseSpec(c).value, Eval(c, x)) == x
    ensures forall x :: Eval(c, Eval(TrueInverseSpec(c).value, x)) == x
  {
    InvertIsInverse(c.perm, c.ground);
    InverseMapValid(c, Invert(c.perm, c.ground));
  }

  /** The corrected inverse cancels on both sides. */
  lemma TrueInverseCancels<T>(c: Cycle<T>)
    requires Valid(c)
    ensures TrueInverseSpec(c).Ok?
    ensures MulSpec(c, TrueInverseSpec(c).value) == Ok(Identity(c.ground))
    ensures MulSpec(TrueInverseSpec(c).value, c) == Ok(Identity(c.ground))
  {
    TrueInverseValid(c);
    var inv := TrueInverseSpec(c).value;
    var e := Identity(c.ground);
    IdentityValid(c.ground);
    MulValid(c, inv);
    MulValid(inv, c);
    Extensional(MulSpec(c, inv).value, e);
    Extensional(MulSpec(inv, c).value, e);
  }

  /** As written, `inverse` of the 3-cycle (1,2,3) is (1,2,3) itself, and the
      product with it sends 1 to 3, not back to 1. */
  lemma InverseNotInverse(vec: seq<seq<int>>, ground: seq<int>)
    requires |vec| == 1 && vec[0] == [1, 2, 3] && ground == [1, 2, 3]
    ensures WellFormedCycles(vec) && FromSpec(vec, ground).Ok?
    ensures var c := FromSpec(vec, ground).value;
      InverseSpec(c) == Ok(c) && MulSpec(c, c).Ok? && MulSpec(c, c) != Ok(Identity(ground))
  {
    ThreeCycle(vec, ground);
    var c := FromSpec(vec, ground).value;
    InverseIsCopy(c);
    SquareMoves(c);
  }

  /** A valid permutation sending 1 to 2 and 2 to 3 does not square to the
      identity. */
  lemma SquareMoves(c: Cycle<int>)
    requires Valid(c) && Eval(c, 1) == 2 && Eval(c, 2) == 3
    ensures MulSpec(c, c).Ok? && MulSpec(c, c) != Ok(Identity(c.ground))
  {
    MulValid(c, c);
    assert Eval(MulSpec(c, c).value, 1) == 3;
    assert Eval(Identity(c.ground), 1) == 1;
  }

  /** The images of (1,2,3) over 1,2,3. */
  lemma ThreeCycle(vec: seq<seq<int>>, ground: seq<int>)
    requires |vec| == 1 && vec[0] == [1, 2, 3] && ground == [1, 2, 3]
    ensures WellFormedCycles(vec) && FromSpec(vec, ground).Ok?
    ensures var c := FromSpec(vec, ground).value;
      Valid(c) && c.ground == ground && Eval(c, 1) == 2 && Eval(c, 2) == 3
  {
    assert vec[..0] == [];
    assert Mentioned(vec) == {1, 2, 3};
    FromCyclesValid(vec, ground);
    FromImage(vec, ground, 0, 0);
    FromImage(vec, ground, 0, 1);
  }

  /** What `a * b` returns: the size check, then `g |-> a(b(g))` over `a`'s
      ground, then `new`. */
  function MulSpec<T(==)>(a: Cycle<T>, b: Cycle<T>): Result<Cycle<T>>
  {
    if |a.ground| != |b.ground| then Err(DomainMismatch)
    else if !Composable(a.perm, b.perm, a.ground) then Err(MissingImage)
    else NewSpec(ComposeMap(a.perm, b.perm, a.ground), a.ground)
  }

  /** `Mul::mul` (src/group_theory/cycle.rs:221-249). */
  method Mul<T(==)>(a: Cycle<T>, b: Cycle<T>) returns (r: Result<Cycle<T>>)
    requires Injective(a.perm) && Injective(b.perm)
    ensures r == MulSpec(a, b)
  {
    if |a.ground| != |b.ground| {
      return Err(DomainMismatch);
    }
    var composed := ComposeOver(a.perm, b.perm, a.ground);
    if composed.None? {
      return Err(MissingImage);
    }
    ComposeInjective(a.perm, b.perm, a.ground);
    r := New(composed.value, a.ground);
  }

  /** On valid permutations of one element set the product is the
      composite map, stored unchanged by `new`. */
  lemma MulIsComposite<T>(a: Cycle<T>, b: Cycle<T>)
    requires Valid(a) && Valid(b) && Elems(a.ground) == Elems(b.ground)
    ensures |a.ground| == |b.ground| && Composable(a.perm, b.perm, a.ground)
    ensures MulSpec(a, b) == Make(ComposeMap(a.perm, b.perm, a.ground), a.ground, |a.ground|)
  {
    DistinctCard(a.ground);
    DistinctCard(b.ground);
    ComposeBijection(a.perm, b.perm, a.ground);
    NewOfTotal(ComposeMap(a.perm, b.perm, a.ground), a.ground);
  }

  /** The product of two valid permutations of the same elements is a valid
      permutation over the left operand's ground that applies the right
      operand first. */
  lemma MulValid<T>(a: Cycle<T>, b: Cycle<T>)
    requires Valid(a) && Valid(b) && Elems(a.ground) == Elems(b.ground)
    ensures MulSpec(a, b).Ok?
    ensures Valid(MulSpec(a, b).value) && MulSpec(a, b).value.ground == a.ground
    ensures forall x :: Eval(MulSpec(a, b).value, x) == Eval(a, Eval(b, x))
  {
    MulIsComposite(a, b);
    var m := ComposeMap(a.perm, b.perm, a.ground);
    ComposeBijection(a.perm, b.perm, a.ground);
    MakeValid(m, a.ground);
  }

  /** Two valid permutations over the same ground that agree everywhere are
      the same struct. */
  lemma Extensional<T>(p: Cycle<T>, q: Cycle<T>)
    requires Valid(p) && Valid(q) && p.ground == q.ground
    requires forall x :: Eval(p, x) == Eval(q, x)
    ensures p == q
  {
    assert p.perm == q.perm by {
      forall x | x in p.perm
        ensures p.perm[x] == q.perm[x]
      {
        assert Eval(p, x) == Eval(q, x);
      }
    }
    assert p.h == q.h;
  }

  /** Two valid permutations over the same ground with the same
      retraversal are the same struct. */
  lemma RetraversalDetermines<T>(p: Cycle<T>, q: Cycle<T>)
    requires Valid(p) && Valid(q) && p.ground == q.ground && p.h == q.h
    ensures p == q
  {
    assert p.perm == q.perm by {
      forall x | x in p.perm
        ensures p.perm[x] == q.perm[x]
      {
        var i := IndexOf(p.ground, x);
        assert p.perm[x] == p.h[i] && q.perm[x] == q.h[i];
      }
    }
  }

  /** The identity is neutral on both sides. */
  lemma MulIdentity<T>(a: Cycle<T>)
    requires Valid(a)
    ensures MulSpec(Identity(a.ground), a) == Ok(a)
    ensures MulSpec(a, Identity(a.ground)) == Ok(a)
  {
    MulIdentityLeft(a);
    MulIdentityRight(a);
  }

  lemma MulIdentityLeft<T>(a: Cycle<T>)
    requires Valid(a)
    ensures MulSpec(Identity(a.ground), a) == Ok(a)
  {
    var e := Identity(a.ground);
    IdentityValid(a.ground);
    MulValid(e, a);
    var p := MulSpec(e, a).value;
    forall x
      ensures Eval(p, x) == Eval(a, x)
    {
      assert Eval(p, x) == Eval(e, Eval(a, x));
    }
    Extensional(p, a);
  }

  lemma MulIdentityRight<T>(a: Cycle<T>)
    requires Valid(a)
    ensures MulSpec(a, Identity(a.ground)) == Ok(a)
  {
    var e := Identity(a.ground);
    IdentityValid(a.ground);
    MulValid(a, e);
    var p := MulSpec(a, e).value;
    forall x
      ensures Eval(p, x) == Eval(a, x)
    {
      assert Eval(p, x) == Eval(a, Eval(e, x));
    }
    Extensional(p, a);
  }

  /** The product is associative on valid permutations of one element set. */
  lemma MulAssociative<T>(a: Cycle<T>, b: Cycle<T>, c: Cycle<T>)
    requires Valid(a) && Valid(b) && Valid(c)
    requires Elems(a.ground) == Elems(b.ground) == Elems(c.ground)
    ensures MulSpec(a, b).Ok? && MulSpec(b, c).Ok?
    ensures MulSpec(MulSpec(a, b).value, c) == MulSpec(a, MulSpec(b, c).value)
  {
    MulValid(a, b);
    MulValid(b, c);
    var ab, bc := MulSpec(a, b).value, MulSpec(b, c).value;
    MulValid(ab, c);
    MulValid(a, bc);
    Extensional(MulSpec(ab, c).value, MulSpec(a, bc).value);
  }

  // ---------------------------------------------------------------------
  // Cycle decomposition
  // ---------------------------------------------------------------------

  lemma ValidBijection<T>(c: Cycle<T>)
    requires Valid(c)
    ensures Bijection(c.perm, c.ground)
  {
  }

  /** `get_cycle_representation` (src/group_theory/cycle.rs:140-161): from
      each ground element in turn, walk along the map collecting elements
      until one was already visited; keep the walk unless it is empty, or a
      1-cycle while `showOne` is false.  A lookup off the map (the
      `unwrap`) is an error.  On a valid permutation no lookup fails and the
      result is the cycle decomposition. */
  method CycleRepresentation<T(==)>(c: Cycle<T>, showOne: bool) returns (r: Result<seq<seq<T>>>)
    ensures Valid(c) ==> r.Ok? && Decomposition(c.perm, c.ground, r.value, showOne)
  {
    ghost var valid := Valid(c);
    if valid {
      ValidBijection(c);
    }
    ghost var universe := Elems(c.ground) + c.perm.Keys + c.perm.Values;
    var visited: set<T> := {};
    var cycles: seq<seq<T>> := [];
    VisitedNone(c.perm, c.ground, showOne);
    for i := 0 to |c.ground|
      invariant visited <= universe
      invariant valid ==> Visited(c.perm, c.ground, i, visited, cycles, showOne)
    {
      var g := c.ground[i];
      var cycle: seq<T> := [];
      var curr := g;
      ghost var before := visited;
      WalkStart(c.perm, c.ground, i, visited);
      while curr !in visited
        invariant visited <= universe && curr in universe
        invariant valid ==> Walking(c.perm, c.ground, before, g, cycle, curr, visited)
        decreases |universe - visited|
      {
        if valid {
          WalkStep(c.perm, c.ground, before, g, cycle, curr, visited);
        }
        Shrinks(universe, visited, curr);
        visited := visited + {curr};
        cycle := cycle + [curr];
        if curr !in c.perm {
          return Err(MissingImage);
        }
        assert c.perm[curr] in c.perm.Values;
        curr := c.perm[curr];
      }
      if valid {
        if cycle == [] {
          VisitedSkip(c.perm, c.ground, i, visited, cycles, showOne);
        } else {
          WalkCloses(c.perm, c.ground, before, g, cycle, curr, visited);
          VisitedOrbit(c.perm, c.ground, i, before, cycles, showOne, cycle);
        }
      }
      if |cycle| != 0 && (|cycle| != 1 || showOne) {
        cycles := cycles + [cycle];
      }
    }
    if valid {
      VisitedAll(c.perm, c.ground, visited, cycles, showOne);
    }
    return Ok(cycles);
  }


  /** The doc comment's promise (src/group_theory/cycle.rs:137-139): passing
      a non-empty decomposition back to `from` rebuilds the same value. */
  lemma DecompositionRoundTrip<T>(c: Cycle<T>, cycles: seq<seq<T>>, showOne: bool)
    requires Valid(c) && Decomposition(c.perm, c.ground, cycles, showOne) && cycles != []
    ensures FromSpec(cycles, c.ground) == Ok(c)
  {
    ValidBijection(c);
    DecompositionRebuilds(c.perm, c.ground, cycles, showOne);
    DistinctCard(c.ground);
    assert |c.perm.Keys| == |c.perm|;
    MakeIsSelf(c);
  }

  /** The orbits of the identity are 1-cycles. */
  lemma IdentityOrbits<T>(ground: seq<T>, c: seq<T>)
    requires IsOrbit(Identity(ground).perm, c)
    ensures |c| == 1
  {
    var m := Identity(ground).perm;
    assert m[c[0]] == c[0];
    assert Successor(c, 0) == c[0];
  }

  /** As written, the promise fails for the identity on a non-empty ground:
      its decomposition without 1-cycles is empty, and `from` of no cycles
      leaves every image missing. */
  lemma IdentityRoundTripFails<T>(ground: seq<T>, cycles: seq<seq<T>>)
    requires Distinct(ground) && ground != []
    requires Decomposition(Identity(ground).perm, ground, cycles, false)
    ensures cycles == [] && FromSpec(cycles, ground) == Err(MissingImage)
  {
    forall k | 0 <= k < |cycles|
      ensures |cycles[k]| == 1
    {
      IdentityOrbits(ground, cycles[k]);
    }
    FromNoCycles(ground);
  }

  /** `from` with its fixing of unmentioned ground elements moved out of
      the loop over cycles, so that it also runs when there is no cycle. */
  ghost function FixedFromMap<T>(vec: seq<seq<T>>, ground: seq<T>): map<T, T>
    requires WellFormedCycles(vec)
  {
    FromState(vec, ground).0 + Fixing(FromState(vec, ground).1)
  }

  ghost function CorrectedFromSpec<T>(vec: seq<seq<T>>, ground: seq<T>): Result<Cycle<T>>
    requires WellFormedCycles(vec)
  {
    Make(FixedFromMap(vec, ground), ground, |FixedFromMap(vec, ground)|)
  }

  /** On a non-empty vector the corrected `from` builds what `from` builds. */
  lemma CorrectedFromAgrees<T>(vec: seq<seq<T>>, ground: seq<T>)
    requires WellFormedCycles(vec) && vec != []
    ensures CorrectedFromSpec(vec, ground) == FromSpec(vec, ground)
  {
    WellFormedPrefix(vec);
    var (m, rest) := FromState(vec[..|vec| - 1], ground);
    var c := vec[|vec| - 1];
    var rest' := rest - Elems(c);
    var built := m + Arrows(c) + Fixing(rest');
    assert FromState(vec, ground) == (built, rest');
    assert built + Fixing(rest') == built;
  }

  /** With the fix, every decomposition, the empty one included, rebuilds the
      permutation it came from. */
  lemma CorrectedRoundTrip<T>(c: Cycle<T>, cycles: seq<seq<T>>, showOne: bool)
    requires Valid(c) && Decomposition(c.perm, c.ground, cycles, showOne)
    ensures CorrectedFromSpec(cycles, c.ground) == Ok(c)
  {
    if cycles != [] {
      CorrectedFromAgrees(cycles, c.ground);
      DecompositionRoundTrip(c, cycles, showOne);
    } else {
      assert Mentioned(cycles) == {};
      assert FixedFromMap(cycles, c.ground) == c.perm;
      DistinctCard(c.ground);
      assert |c.perm.Keys| == |c.perm|;
      MakeIsSelf(c);
    }
  }

  // ---------------------------------------------------------------------
  // Equality and hashing
  // ---------------------------------------------------------------------

  /** `eq` (src/group_theory/cycle.rs:252-259): the stored maps agree, that
      is both store the same elements and `eval` agrees on them. */
  function Equal<T(==)>(a: Cycle<T>, b: Cycle<T>): (r: bool)
    ensures r <==> a.perm.Keys == b.perm.Keys && forall x :: x in a.perm ==> Eval(a, x) == Eval(b, x)
  {
    a.perm == b.perm
  }

  /** What `hash` feeds the hasher (src/group_theory/cycle.rs:261-269): the
      size and the retraversal, not the ground.  On a valid permutation
      that is the ground size and the image of each ground element in
      ground order. */
  function HashKey<T(==)>(c: Cycle<T>): (r: (nat, seq<T>))
    ensures Valid(c) ==> r.0 == |c.ground| && |r.1| == |c.ground|
    ensures Valid(c) ==> forall i :: 0 <= i < |c.ground| ==> r.1[i] == Eval(c, c.ground[i])
  {
    (c.n, c.h)
  }

  /** On permutations of one set of elements, `eq` is agreement of `eval`
      everywhere. */
  lemma EqualIsExtensional<T>(a: Cycle<T>, b: Cycle<T>)
    requires Valid(a) && Valid(b) && Elems(a.ground) == Elems(b.ground)
    ensures Equal(a, b) <==> forall x :: Eval(a, x) == Eval(b, x)
  {
    if forall x :: Eval(a, x) == Eval(b, x) {
      forall x | x in a.perm
        ensures a.perm[x] == b.perm[x]
      {
        assert Eval(a, x) == Eval(b, x);
      }
    }
  }

  /** On one ground vector, equal permutations hash alike. */
  lemma EqualHashOneGround<T>(a: Cycle<T>, b: Cycle<T>)
    requires Valid(a) && Valid(b) && a.ground == b.ground && Equal(a, b)
    ensures HashKey(a) == HashKey(b)
  {
    assert a.h == b.h;
  }

  /** Across ground vectors listing the same elements in another order the
      `Hash`/`Eq` agreement breaks: the identities over 1,2 and over 2,1 are
      equal and hash differently. */
  lemma EqualHashClash(p: seq<int>, q: seq<int>)
    requires p == [1, 2] && q == [2, 1]
    ensures Valid(Identity(p)) && Valid(Identity(q))
    ensures Equal(Identity(p), Identity(q)) && HashKey(Identity(p)) != HashKey(Identity(q))
  {
    IdentityValid(p);
    IdentityValid(q);
    assert Elems(p) == Elems(q);
  }

  /** Equality with the ground compared as well. */
  function CorrectedEqual<T>(a: Cycle<T>, b: Cycle<T>): bool
  {
    a.ground == b.ground && a.perm == b.perm
  }

  /** On valid permutations the corrected equality is equality of values,
      hence consistent with the hash; and equal hash keys on one ground mean
      equal permutations. */
  lemma CorrectedEqualHash<T>(a: Cycle<T>, b: Cycle<T>)
    requires Valid(a) && Valid(b)
    ensures CorrectedEqual(a, b) <==> a == b
    ensures CorrectedEqual(a, b) ==> HashKey(a) == HashKey(b)
    ensures a.ground == b.ground && HashKey(a) == HashKey(b) ==> CorrectedEqual(a, b)
  {
    if CorrectedEqual(a, b) {
      EqualHashOneGround(a, b);
      RetraversalDetermines(a, b);
    }
    if a.ground == b.ground && HashKey(a) == HashKey(b) {
      RetraversalDetermines(a, b);
    }
  }
}
