/** The older permutation type `Cycle<T>` of src/group/cycle.rs: the ground
    vector, a size `n` and the `BiMap`, with no cached retraversal.  `new`
    stores its map as it is (no fixed points are added), and `mul` has no
    size check. */
module GroupCycle {
  import opened Outcomes
  import opened Permutations
  import GT = GroupTheoryCycle

  /** The fields of the Rust struct; `perm` is the `BiMap`. */
  datatype Cycle<T> = Cycle(ground: seq<T>, n: nat, perm: map<T, T>)

  /** A well-formed permutation: a repetition-free ground, a bijection of
      its elements onto themselves and `n` the ground size. */
  ghost predicate Valid<T>(c: Cycle<T>)
  {
    && Distinct(c.ground)
    && c.perm.Keys == Elems(c.ground)
    && c.perm.Values <= c.perm.Keys
    && Injective(c.perm)
    && c.n == |c.ground|
  }

  /** `Cycle::new` (src/group/cycle.rs:25-31): the ground and the map are
      stored as given, with no fixed point added, and `n` counts the stored
      pairs rather than the ground. */
  function New<T>(m: map<T, T>, ground: seq<T>): (r: Cycle<T>)
    ensures r.ground == ground && r.perm == m
    ensures r.n == |m.Keys|
  {
    Cycle(ground, |m|, m)
  }

  /** Over a repetition-free ground `new` is valid exactly when its map
      already permutes the whole ground: nothing is completed. */
  lemma NewValid<T>(m: map<T, T>, ground: seq<T>)
    requires Distinct(ground)
    ensures Valid(New(m, ground)) <==> m.Keys == Elems(ground) && m.Values <= m.Keys && Injective(m)
  {
    DistinctCard(ground);
    assert |m.Keys| == |m|;
  }

  /** A map missing some ground element keeps its smaller size. */
  lemma NewPartial<T>(m: map<T, T>, ground: seq<T>)
    requires Distinct(ground) && m.Keys < Elems(ground)
    ensures New(m, ground).n < |ground| && !Valid(New(m, ground))
  {
    DistinctCard(ground);
    ProperSubsetCard(m.Keys, Elems(ground));
    assert |m.Keys| == |m|;
  }

  /** The identity over `ground` with every element stored as a fixed
      point. */
  function Fixed<T>(ground: seq<T>): Cycle<T>
  {
    New(Fixing(Elems(ground)), ground)
  }

  lemma FixedValid<T>(ground: seq<T>)
    requires Distinct(ground)
    ensures Valid(Fixed(ground))
    ensures forall x :: Eval(Fixed(ground), x) == x
  {
    NewValid(Fixing(Elems(ground)), ground);
  }

  // ---------------------------------------------------------------------
  // `from`
  // ---------------------------------------------------------------------

  /** `Cycle::from` (src/group/cycle.rs:33-61): the loops shared with the
      current version; no retraversal is read, so nothing can fail. */
  method From<T(==)>(vec: seq<seq<T>>, ground: seq<T>) returns (c: Cycle<T>)
    requires WellFormedCycles(vec)
    ensures c == New(FromMap(vec, ground), ground)
  {
    var m := BuildFromCycles(vec, ground);
    c := Cycle(ground, |m|, m);
  }

  /** `from` on a non-empty vector of disjoint cycles inside a
      repetition-free ground is valid, sends each `a_k` to `a_{k+1}` and the
      last element of each cycle to its first, and fixes every other ground
      element. */
  lemma FromCycles<T>(vec: seq<seq<T>>, ground: seq<T>)
    requires WellFormedCycles(vec) && vec != [] && Mentioned(vec) <= Elems(ground)
    requires Distinct(ground)
    ensures Valid(New(FromMap(vec, ground), ground))
    ensures forall k, i {:trigger FromMap(vec, ground)[vec[k][i]]} :: 0 <= k < |vec| && 0 <= i < |vec[k]| ==>
      Eval(New(FromMap(vec, ground), ground), vec[k][i]) == Successor(vec[k], i)
    ensures forall x :: x in ground && x !in Mentioned(vec) ==> Eval(New(FromMap(vec, ground), ground), x) == x
  {
    FromMapOnto(vec, ground);
    FromMapInjective(vec, ground);
    NewValid(FromMap(vec, ground), ground);
    forall k, i | 0 <= k < |vec| && 0 <= i < |vec[k]|
      ensures Eval(New(FromMap(vec, ground), ground), vec[k][i]) == Successor(vec[k], i)
    {
      FromImage(vec, ground, k, i);
    }
    forall x | x in ground && x !in Mentioned(vec)
      ensures Eval(New(FromMap(vec, ground), ground), x) == x
    {
      FromFixed(vec, ground, x);
    }
  }

  /** `from(vec![], ground)` stores the empty map with `n = 0`; it is not
      valid on a non-empty ground, though `eval` still fixes everything. */
  lemma FromNoCycles<T>(ground: seq<T>)
    requires Distinct(ground) && ground != []
    ensures WellFormedCycles<T>([])
    ensures New(FromMap([], ground), ground) == Cycle(ground, 0, map[])
    ensures !Valid(New(FromMap([], ground), ground))
    ensures forall x :: Eval(New(FromMap([], ground), ground), x) == x
  {
    FromKeys([], ground);
    assert ground[0] in Elems(ground);
  }

  // ---------------------------------------------------------------------
  // `eval`, `inverse` and `mul`
  // ---------------------------------------------------------------------

  /** `eval` (src/group/cycle.rs:72-77): the image of `x`, or `x` itself. */
  function Eval<T(==)>(c: Cycle<T>, x: T): (r: T)
    ensures x !in c.perm ==> r == x
    ensures Valid(c) ==> (r in c.ground <==> x in c.ground)
  {
    assert x in c.perm ==> c.perm[x] in c.perm.Values;
    Apply(c.perm, x)
  }

  /** On a valid permutation `eval` is the stored bijection on the ground
      and the identity off it. */
  lemma EvalValid<T>(c: Cycle<T>)
    requires Valid(c)
    ensures forall x :: x in c.ground ==> Eval(c, x) == c.perm[x] && Eval(c, x) in c.ground
    ensures forall x :: x !in c.ground ==> Eval(c, x) == x
  {
    forall x | x in c.ground
      ensures c.perm[x] in c.ground
    {
      assert c.perm[x] in c.perm.Values;
    }
  }

  /** What `inverse` returns. */
  function InverseSpec<T(==)>(c: Cycle<T>): Result<Cycle<T>>
  {
    if Covers(c.perm, c.ground) then Ok(New(Restrict(c.perm, c.ground), c.ground))
    else Err(MissingImage)
  }

  /** `inverse` (src/group/cycle.rs:64-70), as written: the loop re-inserts
      `g |-> map(g)`. */
  method Inverse<T(==)>(c: Cycle<T>) returns (r: Result<Cycle<T>>)
    requires Injective(c.perm)
    ensures r == InverseSpec(c)
  {
    var co := RestrictOver(c.perm, c.ground);
    if co.None? {
      return Err(MissingImage);
    }
    r := Ok(New(co.value, c.ground));
  }

  /** `inverse` as written returns a copy of its argument. */
  lemma InverseIsCopy<T>(c: Cycle<T>)
    requires Valid(c)
    ensures InverseSpec(c) == Ok(c)
  {
    assert Restrict(c.perm, c.ground) == c.perm;
    NewValid(c.perm, c.ground);
  }

  /** What `a * b` returns: `g |-> a(b(g))` over `a`'s ground, with no size
      check; a lookup that misses is the `panic!`. */
  function MulSpec<T(==)>(a: Cycle<T>, b: Cycle<T>): Result<Cycle<T>>
  {
    if Composable(a.perm, b.perm, a.ground) then Ok(New(ComposeMap(a.perm, b.perm, a.ground), a.ground))
    else Err(MissingImage)
  }

  /** The product succeeds exactly when every lookup does, whatever the
      grounds' lengths, and then holds `a(b(g))` for each `g` of `a`'s
      ground, `n` being the number of distinct ground elements. */
  lemma MulShape<T>(a: Cycle<T>, b: Cycle<T>)
    ensures MulSpec(a, b).Ok? <==> Composable(a.perm, b.perm, a.ground)
    ensures MulSpec(a, b).Ok? ==> MulSpec(a, b).value.ground == a.ground
    ensures MulSpec(a, b).Ok? ==> MulSpec(a, b).value.perm.Keys == Elems(a.ground)
    ensures MulSpec(a, b).Ok? ==> MulSpec(a, b).value.n == |Elems(a.ground)|
    ensures MulSpec(a, b).Ok? ==> forall g :: g in a.ground ==> MulSpec(a, b).value.perm[g] == a.perm[b.perm[g]]
  {
  }

  /** `mul` (src/group/cycle.rs:86-101). */
  method Mul<T(==)>(a: Cycle<T>, b: Cycle<T>) returns (r: Result<Cycle<T>>)
    requires Injective(a.perm) && Injective(b.perm)
    ensures r == MulSpec(a, b)
  {
    var m := ComposeOver(a.perm, b.perm, a.ground);
    if m.None? {
      return Err(MissingImage);
    }
    r := Ok(New(m.value, a.ground));
  }

  /** The product of two valid permutations of the same elements is a valid
      permutation that applies `b` first. */
  lemma MulValid<T>(a: Cycle<T>, b: Cycle<T>)
    requires Valid(a) && Valid(b) && Elems(a.ground) == Elems(b.ground)
    ensures MulSpec(a, b).Ok?
    ensures Valid(MulSpec(a, b).value)
    ensures forall x :: Eval(MulSpec(a, b).value, x) == Eval(a, Eval(b, x))
  {
    var m := ComposeMap(a.perm, b.perm, a.ground);
    ComposeBijection(a.perm, b.perm, a.ground);
    MulIsNew(a, b);
    NewValid(m, a.ground);
  }

  /** The product, when it succeeds, is `new` of the composed map. */
  lemma MulIsNew<T>(a: Cycle<T>, b: Cycle<T>)
    requires Composable(a.perm, b.perm, a.ground)
    ensures MulSpec(a, b) == Ok(New(ComposeMap(a.perm, b.perm, a.ground), a.ground))
  {
  }

  /** Without the size check, grounds of different lengths multiply: the
      fixed 1 over `[1]` times the fixed 1, 2 over `[1, 2]` succeeds. */
  lemma MulNoSizeCheck(p: seq<int>, q: seq<int>)
    requires p == [1] && q == [1, 2]
    ensures |Fixed(p).ground| != |Fixed(q).ground| && MulSpec(Fixed(p), Fixed(q)).Ok?
  {
    assert 1 in Elems(p) && 1 in Elems(q);
  }

  /** As written, `a * inverse(a)` moves every point that `a` applied twice
      moves: the product is no identity unless `a` is an involution. */
  lemma InverseNotInverse<T>(c: Cycle<T>, x: T)
    requires Valid(c) && Eval(c, Eval(c, x)) != x
    ensures InverseSpec(c).Ok? && MulSpec(c, InverseSpec(c).value).Ok?
    ensures Eval(MulSpec(c, InverseSpec(c).value).value, x) != x
  {
    InverseIsCopy(c);
    MulValid(c, c);
  }

  /** The inverse `inverse` is meant to compute: `map(g) |-> g` for each
      ground element. */
  function TrueInverseSpec<T(==)>(c: Cycle<T>): Result<Cycle<T>>
    requires Injective(c.perm)
  {
    if Covers(c.perm, c.ground) then Ok(New(Invert(c.perm, c.ground), c.ground))
    else Err(MissingImage)
  }

  /** `inverse` with the inserted pair turned round. */
  method TrueInverse<T(==)>(c: Cycle<T>) returns (r: Result<Cycle<T>>)
    requires Injective(c.perm)
    ensures r == TrueInverseSpec(c)
  {
    var co := InvertOver(c.perm, c.ground);
    if co.None? {
      return Err(MissingImage);
    }
    r := Ok(New(co.value, c.ground));
  }

  /** The corrected inverse of a valid permutation exists ... */
  lemma TrueInverseOk<T>(c: Cycle<T>)
    requires Valid(c)
    ensures TrueInverseSpec(c) == Ok(New(Invert(c.perm, c.ground), c.ground))
  {
  }

  /** ... and is a valid permutation cancelling it on both sides, leaving
      the fully stored identity. */
  lemma TrueInverseCancels<T>(c: Cycle<T>, inv: Cycle<T>)
    requires Valid(c) && TrueInverseSpec(c) == Ok(inv)
    ensures Valid(inv)
    ensures MulSpec(c, inv) == Ok(Fixed(c.ground))
    ensures MulSpec(inv, c) == Ok(Fixed(c.ground))
  {
    InvertIsInverse(c.perm, c.ground);
    CancelsWith(c, inv.perm);
  }

  /** `new` of a map undoing a valid permutation is valid and cancels it on
      both sides. */
  lemma CancelsWith<T>(c: Cycle<T>, w: map<T, T>)
    requires Valid(c) && InverseMap(c.perm, w, c.ground)
    ensures Valid(New(w, c.ground))
    ensures MulSpec(c, New(w, c.ground)) == Ok(Fixed(c.ground))
    ensures MulSpec(New(w, c.ground), c) == Ok(Fixed(c.ground))
  {
    InverseKeys(c, w);
    InverseCancels(c.perm, w, c.ground);
    NewValid(w, c.ground);
    MulIsNew(c, New(w, c.ground));
    MulIsNew(New(w, c.ground), c);
  }

  /** A map undoing a valid permutation has the whole ground as keys and
      permutes it. */
  lemma InverseKeys<T>(c: Cycle<T>, w: map<T, T>)
    requires Valid(c) && InverseMap(c.perm, w, c.ground)
    ensures w.Keys == Elems(c.ground) && w.Values <= w.Keys && Injective(w)
  {
    GT.MakeValid(c.perm, c.ground);
    var g := GT.Make(c.perm, c.ground, |c.ground|).value;
    GT.InverseMapOnto(g, w);
    InverseMapKeys(c.perm, w, c.ground);
  }

  /** Both composites of a bijection of the ground with its inverse map are
      the stored identity. */
  lemma InverseCancels<T>(m: map<T, T>, w: map<T, T>, ground: seq<T>)
    requires m.Keys == Elems(ground) && w.Keys == Elems(ground) && InverseMap(m, w, ground)
    ensures Composable(m, w, ground) && ComposeMap(m, w, ground) == Fixing(Elems(ground))
    ensures Composable(w, m, ground) && ComposeMap(w, m, ground) == Fixing(Elems(ground))
  {
    CancelsAfter(m, w, ground);
    CancelsBefore(m, w, ground);
  }

  /** `m` after `w` is the identity on the ground. */
  lemma CancelsAfter<T>(m: map<T, T>, w: map<T, T>, ground: seq<T>)
    requires m.Keys == Elems(ground) && w.Keys == Elems(ground) && InverseMap(m, w, ground)
    ensures Composable(m, w, ground) && ComposeMap(m, w, ground) == Fixing(Elems(ground))
  {
    assert Composable(m, w, ground) by {
      forall x | x in ground
        ensures x in w && w[x] in m
      {
        assert x in Elems(ground);
      }
    }
    var f := ComposeMap(m, w, ground);
    forall x | x in f
      ensures f[x] == x
    {
      assert m[w[x]] == x;
    }
  }

  /** `w` after `m` is the identity on the ground. */
  lemma CancelsBefore<T>(m: map<T, T>, w: map<T, T>, ground: seq<T>)
    requires m.Keys == Elems(ground) && InverseMap(m, w, ground)
    ensures Composable(w, m, ground) && ComposeMap(w, m, ground) == Fixing(Elems(ground))
  {
    var f := ComposeMap(w, m, ground);
    forall x | x in f
      ensures f[x] == x
    {
      assert w[m[x]] == x;
    }
  }

  // ---------------------------------------------------------------------
  // Equality
  // ---------------------------------------------------------------------

  /** `eq` (src/group/cycle.rs:105-112): the stored maps agree, that is
      both store the same elements and `eval` agrees on them. */
  function Equal<T(==)>(a: Cycle<T>, b: Cycle<T>): (r: bool)
    ensures r <==> a.perm.Keys == b.perm.Keys && forall x :: x in a.perm ==> Eval(a, x) == Eval(b, x)
  {
    a.perm == b.perm
  }

  /** On valid permutations of one set of elements, `eq` is agreement of
      `eval` everywhere. */
  lemma EqualIsExtensional<T>(a: Cycle<T>, b: Cycle<T>)
    requires Valid(a) && Valid(b) && Elems(a.ground) == Elems(b.ground)
    ensures Equal(a, b) <==> forall x :: Eval(a, x) == Eval(b, x)
  {
    if forall x :: Eval(a, x) == Eval(b, x) {
      forall x | x in a.perm
        ensures a.perm[x] == b.perm[x]
      {
        assert Eval(a, x) == Eval(b, x);
      }
    }
  }
}
