/** `SymmetricGroup` of src/group/symmetric.rs over the older `Cycle`: the
    group operations, the order and the adjacent generators.  `get_set` is
    a `todo!()` there and is not part of this model. */
module GroupSymmetric {
  import opened Outcomes
  import opened Permutations
  import opened MathCombinations
  import opened GroupCycle

  /** The fields of the Rust struct: the stated size `n` (an `i32`) and the
      ground vector; nothing ties one to the other. */
  datatype SymmetricGroup<V> = SymmetricGroup(n: int, ground: seq<V>)

  /** `op` (src/group/symmetric.rs:37-40): `a * b`, right to left.  It
      succeeds exactly when every lookup of `mul` does, and then applies `b`
      first on each element of `a`'s ground. */
  function Op<V(==)>(s: SymmetricGroup<V>, a: Cycle<V>, b: Cycle<V>): (r: Result<Cycle<V>>)
    ensures r.Ok? <==> Composable(a.perm, b.perm, a.ground)
    ensures r.Ok? ==> r.value.ground == a.ground
    ensures r.Ok? ==> forall x :: x in a.ground ==> Eval(r.value, x) == Eval(a, Eval(b, x))
  {
    MulShape(a, b);
    MulSpec(a, b)
  }

  /** `identity` (src/group/symmetric.rs:42-44): `new` of the empty map,
      which fixes every element under `eval` but stores none of them. */
  function Unit<V(==)>(s: SymmetricGroup<V>): (r: Cycle<V>)
    ensures r.ground == s.ground && r.n == 0 && r.perm.Keys == {}
    ensures forall x :: x in s.ground ==> Eval(r, x) == x
  {
    New(map[], s.ground)
  }

  /** `inverse` (src/group/symmetric.rs:46-48): the element's own
      `inverse`, which succeeds exactly when every ground element has an
      image and then agrees with `e` on the ground: a copy, not an
      inverse. */
  function Inv<V(==)>(s: SymmetricGroup<V>, e: Cycle<V>): (r: Result<Cycle<V>>)
    ensures r.Ok? <==> Covers(e.perm, e.ground)
    ensures r.Ok? ==> r.value.ground == e.ground
    ensures r.Ok? ==> forall x :: x in e.ground ==> Eval(r.value, x) == Eval(e, x)
  {
    InverseSpec(e)
  }

  /** `order` (src/group/symmetric.rs:50-52): `(1..=n).product()` over the
      stored `n`, at least 1, and the empty product 1 when `n <= 0`. */
  function Order<V>(s: SymmetricGroup<V>): (r: int)
    ensures r >= 1
    ensures s.n <= 0 ==> r == 1
  {
    RangeProduct(1, s.n)
  }

  /** The order is `n!`, 1 for every `n <= 0`, whatever the ground. */
  lemma OrderIsFactorial<V>(s: SymmetricGroup<V>)
    ensures Order(s) == Factorial(s.n) && Order(s) >= 1
    ensures s.n <= 0 ==> Order(s) == 1
    ensures s.n >= 1 ==> Order(s) == s.n * Order(SymmetricGroup(s.n - 1, s.ground))
    ensures forall other: seq<V> :: Order(SymmetricGroup(s.n, other)) == Order(s)
  {
    FactorialRecurrence(s.n);
  }

  /** The single-pair map of the `i`-th generator. */
  function Pair<V>(ground: seq<V>, i: nat): map<V, V>
    requires i + 1 < |ground|
  {
    map[ground[i] := ground[i + 1]]
  }

  /** `get_generator` (src/group/symmetric.rs:55-67): one generator per
      window of two neighbours, its map the single pair
      `ground[i] |-> ground[i+1]`. */
  method GetGenerator<V(==)>(s: SymmetricGroup<V>) returns (gens: seq<Cycle<V>>)
    ensures |gens| == if |s.ground| == 0 then 0 else |s.ground| - 1
    ensures forall i :: 0 <= i < |gens| ==> gens[i] == New(Pair(s.ground, i), s.ground)
  {
    gens := [];
    if |s.ground| == 0 {
      return;
    }
    for i := 0 to |s.ground| - 1
      invariant |gens| == i
      invariant forall j :: 0 <= j < i ==> gens[j] == New(Pair(s.ground, j), s.ground)
    {
      var m := map[s.ground[i] := s.ground[i + 1]];
      gens := gens + [New(m, s.ground)];
    }
  }

  // ---------------------------------------------------------------------
  // The partial identity and generators
  // ---------------------------------------------------------------------

  /** On a non-empty ground the identity is not a valid permutation, and
      every product with it on either side panics. */
  lemma UnitProductsFail<V>(s: SymmetricGroup<V>, x: Cycle<V>)
    requires s.ground != [] && x.ground != []
    ensures !Valid(Unit(s))
    ensures Op(s, Unit(s), x) == Err(MissingImage)
    ensures Op(s, x, Unit(s)) == Err(MissingImage)
  {
    assert s.ground[0] in s.ground && x.ground[0] in x.ground;
  }

  /** On a repetition-free ground of two or more elements no generator is
      valid, and the product of any two generators panics. */
  lemma GeneratorProductsFail<V>(s: SymmetricGroup<V>, i: nat, j: nat)
    requires Distinct(s.ground) && i + 1 < |s.ground| && j + 1 < |s.ground|
    ensures !Valid(New(Pair(s.ground, i), s.ground))
    ensures Op(s, New(Pair(s.ground, i), s.ground), New(Pair(s.ground, j), s.ground)) == Err(MissingImage)
  {
    assert Pair(s.ground, i).Keys == {s.ground[i]};
    assert s.ground[i + 1] in Elems(s.ground) && s.ground[i + 1] != s.ground[i];
    NewPartial(Pair(s.ground, i), s.ground);
    assert s.ground[j + 1] != s.ground[j] && s.ground[j + 1] in s.ground;
  }

  /** The identity the group evidently intends: every ground element stored
      as a fixed point. */
  function CorrectedUnit<V>(s: SymmetricGroup<V>): Cycle<V>
  {
    Fixed(s.ground)
  }

  /** The corrected identity is a two-sided unit for every valid
      permutation of the same ground. */
  lemma CorrectedUnitNeutral<V>(s: SymmetricGroup<V>, x: Cycle<V>)
    requires Distinct(s.ground) && Valid(x) && x.ground == s.ground
    ensures Valid(CorrectedUnit(s))
    ensures Op(s, CorrectedUnit(s), x) == Ok(x)
    ensures Op(s, x, CorrectedUnit(s)) == Ok(x)
  {
    FixedValid(s.ground);
    UnitLeft(x);
    UnitRight(x);
  }

  lemma UnitLeft<V>(x: Cycle<V>)
    requires Valid(x)
    ensures MulSpec(Fixed(x.ground), x) == Ok(x)
  {
    FixingAfter(x.perm, x.ground);
    MulIsNew(Fixed(x.ground), x);
    NewValid(x.perm, x.ground);
  }

  /** The fixing map of the ground after a map of the ground into itself
      is that map. */
  lemma FixingAfter<V>(m: map<V, V>, ground: seq<V>)
    requires m.Keys == Elems(ground) && m.Values <= m.Keys
    ensures Composable(Fixing(Elems(ground)), m, ground)
    ensures ComposeMap(Fixing(Elems(ground)), m, ground) == m
  {
    var f := Fixing(Elems(ground));
    ValuesWithin(m);
    assert Composable(f, m, ground);
    var c := ComposeMap(f, m, ground);
    forall g | g in c
      ensures c[g] == m[g]
    {
      assert m[g] in f;
    }
    SameMap(c, m);
  }

  lemma UnitRight<V>(x: Cycle<V>)
    requires Valid(x)
    ensures MulSpec(x, Fixed(x.ground)) == Ok(x)
  {
    var f := Fixing(Elems(x.ground));
    assert Composable(x.perm, f, x.ground);
    var m := ComposeMap(x.perm, f, x.ground);
    assert m.Keys == x.perm.Keys;
    forall g | g in m
      ensures m[g] == x.perm[g]
    {
      assert f[g] == g;
    }
    SameMap(m, x.perm);
    MulIsNew(x, Fixed(x.ground));
    NewValid(x.perm, x.ground);
  }

  /** Maps with the same keys and the same value at each key are equal. */
  lemma SameMap<V>(m: map<V, V>, w: map<V, V>)
    requires m.Keys == w.Keys && forall g :: g in m ==> m[g] == w[g]
    ensures m == w
  {
  }

  /** The map exchanging `a` and `b` and fixing the rest of the ground. */
  function Swap<V>(ground: seq<V>, a: V, b: V): map<V, V>
  {
    Fixing(Elems(ground))[a := b][b := a]
  }

  /** The adjacent transposition `(ground[i], ground[i+1])` the doc comment
      of `get_generator` describes. */
  function CorrectedGenerator<V>(s: SymmetricGroup<V>, i: nat): Cycle<V>
    requires i + 1 < |s.ground|
  {
    New(Swap(s.ground, s.ground[i], s.ground[i + 1]), s.ground)
  }

  /** `get_generator` as intended: the transpositions of neighbours. */
  method CorrectedGetGenerator<V(==)>(s: SymmetricGroup<V>) returns (gens: seq<Cycle<V>>)
    ensures |gens| == if |s.ground| == 0 then 0 else |s.ground| - 1
    ensures forall i :: 0 <= i < |gens| ==> gens[i] == CorrectedGenerator(s, i)
  {
    gens := [];
    if |s.ground| == 0 {
      return;
    }
    for i := 0 to |s.ground| - 1
      invariant |gens| == i
      invariant forall j :: 0 <= j < i ==> gens[j] == CorrectedGenerator(s, j)
    {
      var m := Fixing(Elems(s.ground))[s.ground[i] := s.ground[i + 1]][s.ground[i + 1] := s.ground[i]];
      gens := gens + [New(m, s.ground)];
    }
  }

  /** A swap of two distinct ground elements is a valid permutation that
      exchanges them and fixes everything else. */
  lemma SwapValid<V>(ground: seq<V>, a: V, b: V)
    requires Distinct(ground) && a in ground && b in ground && a != b
    ensures Valid(New(Swap(ground, a, b), ground))
    ensures Eval(New(Swap(ground, a, b), ground), a) == b
    ensures Eval(New(Swap(ground, a, b), ground), b) == a
    ensures forall x :: x != a && x != b ==> Eval(New(Swap(ground, a, b), ground), x) == x
  {
    var m := Swap(ground, a, b);
    assert m.Keys == Elems(ground);
    assert m.Values <= m.Keys by {
      forall v | v in m.Values
        ensures v in m.Keys
      {
        var k :| k in m && m[k] == v;
      }
    }
    assert Injective(m);
    NewValid(m, ground);
  }

  /** Each corrected generator is a valid permutation swapping its two
      neighbours, and it squares to the corrected identity. */
  lemma CorrectedGeneratorSwaps<V>(s: SymmetricGroup<V>, i: nat)
    requires Distinct(s.ground) && i + 1 < |s.ground|
    ensures Valid(CorrectedGenerator(s, i))
    ensures Eval(CorrectedGenerator(s, i), s.ground[i]) == s.ground[i + 1]
    ensures Eval(CorrectedGenerator(s, i), s.ground[i + 1]) == s.ground[i]
    ensures forall x :: x != s.ground[i] && x != s.ground[i + 1] ==> Eval(CorrectedGenerator(s, i), x) == x
    ensures Op(s, CorrectedGenerator(s, i), CorrectedGenerator(s, i)) == Ok(CorrectedUnit(s))
  {
    var a, b := s.ground[i], s.ground[i + 1];
    SwapValid(s.ground, a, b);
    SwapSquares(CorrectedGenerator(s, i), a, b);
  }

  /** A valid permutation swapping two elements and fixing the rest squares
      to the fully stored identity. */
  lemma SwapSquares<V>(t: Cycle<V>, a: V, b: V)
    requires Valid(t)
    requires Eval(t, a) == b && Eval(t, b) == a
    requires forall x :: x != a && x != b ==> Eval(t, x) == x
    ensures MulSpec(t, t) == Ok(Fixed(t.ground))
  {
    forall x
      ensures Eval(t, Eval(t, x)) == x
    {
      if x != a && x != b {
        assert Eval(t, x) == x;
      }
    }
    InvolutionSquares(t);
  }

  /** A valid involution squares to the fully stored identity. */
  lemma InvolutionSquares<V>(t: Cycle<V>)
    requires Valid(t) && forall x :: Eval(t, Eval(t, x)) == x
    ensures MulSpec(t, t) == Ok(Fixed(t.ground))
  {
    MulValid(t, t);
    MulShape(t, t);
    FixesAll(MulSpec(t, t).value);
  }

  /** A valid permutation fixing every element is the fully stored
      identity of its ground. */
  lemma FixesAll<V>(c: Cycle<V>)
    requires Valid(c) && forall x :: Eval(c, x) == x
    ensures c == Fixed(c.ground)
  {
    FixedValid(c.ground);
    EqualIsExtensional(c, Fixed(c.ground));
  }
}
