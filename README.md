# reperm_gen in Dafny

A model of the core of `reperm_gen`, a Rust library that searches
permutations of a memory trace for good locality:

- **Permutations.** Two generations of the `Cycle` type:
  - the current one, `group_theory::cycle`: `new` completes a partial map with fixed points, and the struct keeps a retraversal vector `h`;
  - the older one, `group::cycle`: `new` stores its map as given.

  The model covers construction from cycle notation and from a retraversal, `eval`, `inverse`, the product, the cycle representation and its rendering, inversion counting, and `Eq`/`Hash`.
- **Groups.** The worklist closure search `Group::get_set` and the two group iterators. The older `SymmetricGroup` contributes its order, identity, inverse and adjacent generators.
- **The Cayley graph** built by the same search with products on both sides.
- **The greedy chain search** `chain_find`.
- **Reuse distances.** The forward analyser of `locality::reuse` (with the LRU hit count and the closed-form hit formula) and the backward analyser of `reuse`.
- **Small helpers.** `factorial`, `combinations`, and `Generator::simulate`.

How the Rust code is translated:
- **Panics.** Every `panic!`, `unwrap` on a missing entry and out-of-range index becomes an error value: `Result<T>` with a `Fault` of `DomainMismatch`, `MissingImage`, `MissingNode` or `OutOfBounds`, declared in `wrappers.dfy`.
- **`BiMap`.** It becomes a Dafny `map` together with an `Injective` predicate. `BiMap::insert(l, r)` evicts any pair with left side `l` or right side `r`.
  - In `from`, for well-formed cycle vectors (`WellFormedCycles`), inserts may evict only the temporary fixed points that the same cycle then overwrites, so the final `BiMap` equals the `map`.
  - Elsewhere a precondition (`Injective`, `NoFixedPointClash`, `ZipFree`) rules out every eviction, and the `BiMap` and the `map` agree.
- **Loops and pure code.** Loops become methods with invariants. Most are proved equal to a specification function, and the properties are lemmas about those functions. `GetSet`, `ChainFind` and `CayleyGraph.New` are proved instead to have the properties the source promises: closure, leastness and greediness.

Layout, one module per source file:

| file | module | source |
|---|---|---|
| wrappers.dfy | Outcomes | `Option`, `Result`, `Fault` |
| permutations.dfy | Permutations | the map loops shared by both `Cycle` versions |
| cycle.dfy | GroupTheoryCycle | src/group_theory/cycle.rs |
| orbits.dfy | Orbits | the cycle decomposition of src/group_theory/cycle.rs |
| cycle_inversions.dfy | CycleInversions | `inversions` of src/group_theory/cycle.rs |
| cycle_strings.dfy | CycleStrings | `get_retraversal_str` and `display` of src/group_theory/cycle.rs |
| group_cycle.dfy | GroupCycle | src/group/cycle.rs |
| group_symmetric.dfy | GroupSymmetric | src/group/symmetric.rs |
| group.dfy | GroupTheoryGroup | src/group_theory/group.rs |
| group_group.dfy | GroupGroup | src/group/group.rs |
| cayley.dfy | CayleyGraph | src/graph/cayley_graph.rs |
| chainfind.dfy | LocalityChainFind | src/locality/chainfind.rs |
| generator.dfy | Generator | src/generator/generator.rs |
| combinations.dfy | MathCombinations | src/math/combinations.rs |
| reuse_forward.dfy | LocalityReuse | src/locality/reuse.rs |
| reuse_backward.dfy | Reuse | src/reuse.rs |
| reuse_examples.dfy | ReuseExamples | the unit tests of both reuse files |

Traits are replaced by parameters:
- the group operation `op`;
- the identity `e`;
- the generators `gens`;
- the element order `gt` (`PartialOrd`);
- the renderings `show` and `display` (`ToString`, `Cycle::display`);
- the locality measure `locality`;
- the chunk stream of a generator's iterator.

All of these are inputs, and the I/O they stand for is outside the model.

## Model

| member | source | states |
|---|---|---|
| MathCombinations.Factorial | src/math/combinations.rs:2-4 | the empty product below 1, so always at least 1 |
| MathCombinations.RangeProduct | src/math/combinations.rs:2-4 | the product `lo * ... * hi` is at least 1 when `lo >= 1`, the empty product being 1 |
| MathCombinations.FactorialRecurrence | src/math/combinations.rs:2-4 | `factorial(n)` is 1 for every `n <= 0` and `n * factorial(n-1)` above |
| MathCombinations.Combinations | src/math/combinations.rs:6-8 | the truncating quotient `(n!/k!)/(n-k)!` is never negative |
| MathCombinations.BinomialTimesFactorials | src/math/combinations.rs:6-8 | `C(n,k) k! (n-k)! = n!` for the Pascal-triangle reference `Binomial` |
| MathCombinations.CombinationsIsBinomial | src/math/combinations.rs:6-8 | on `0 <= k <= n` both divisions are exact and `combinations` is the binomial coefficient |
| MathCombinations.CombinationsAbove | src/math/combinations.rs:6-8 | for `0 <= n < k` with `k >= 2` the result truncates to 0 |
| MathCombinations.CombinationsEdges | src/math/combinations.rs:6-8 | `combinations(n,0) = combinations(n,n) = 1` |
| MathCombinations.Vandermonde | src/math/combinations.rs:6-8 | the sum of `C(a,h) C(b,k-h)` over `h <= k` is `C(a+b,k)` |
| LocalityReuse.LastBefore | src/locality/reuse.rs:22-27 | the position of the previous access to a value: below `i`, holding the value, with no access to it in between |
| LocalityReuse.Access | src/locality/reuse.rs:18-33 | one access adds itself to every set, then reads and clears its own set or creates it, reporting the size or -1 |
| LocalityReuse.AccessTracks | src/locality/reuse.rs:18-33 | one access keeps the map holding, per value seen, the values since its last access, and reports that access's distance |
| LocalityReuse.CalculateReuseDistance | src/locality/reuse.rs:10-36 | the output is one distance per access: -1 on a first access, otherwise the number of distinct values since the previous access to that value, the access itself included |
| LocalityReuse.CalculateLruHits | src/locality/reuse.rs:38-49 | the number of distances that are not -1 and at most the cache size |
| LocalityReuse.FirstTouchIsMinusOne | src/locality/reuse.rs:28-31 | a distance is -1 exactly when the value did not occur earlier |
| LocalityReuse.RepeatDistance | src/locality/reuse.rs:23-26 | a repeat's distance lies in `1..i`, and is 1 on an immediate repeat |
| LocalityReuse.FirstTouchesAreDistinctValues | src/locality/reuse.rs:10-36 | the number of -1 entries is the number of distinct values in the trace |
| LocalityReuse.PrefixDistances | src/locality/reuse.rs:18-33 | the distances of a prefix are a prefix of the distances |
| LocalityReuse.HitsMonotone | src/locality/reuse.rs:44-47 | hits never decrease as the cache grows |
| LocalityReuse.LruHitsBounds | src/locality/reuse.rs:38-49 | no hits with cache size 0, and at most accesses minus distinct values |
| LocalityReuse.FormulaTerm | src/locality/reuse.rs:52-62 | with `h <= c <= m` the guarded formula is `c! (m-c)! C(c,h) C(m-c,c-h)` |
| LocalityReuse.LruHitsFormula | src/locality/reuse.rs:52-62 | the formula is never negative, and it is 0 whenever `2c > m + h` |
| LocalityReuse.FormulaSumIsFactorial | src/locality/reuse.rs:121-158 | summing `calculate_lru_hits_formula(m, c, h)` over `h = 0..c` gives `m!` for every `c <= m`, the claim of the `equivalent_comb_formula` tests |
| Reuse.Reverse | src/reuse.rs:14 | the reversal: same length, element `i` taken from the mirrored position |
| Reuse.NextFrom | src/reuse.rs:14-29 | the next access to a value at or after `k`, with none in between |
| Reuse.CalculateReuseDistance | src/reuse.rs:8-32 | the output is the forward distances of the reversed trace, reversed |
| Reuse.DistanceReversed | src/reuse.rs:14-30 | the forward distance at a mirrored position is the backward distance at the original one |
| Reuse.LastBeforeReversed | src/reuse.rs:14-29 | the previous access before a mirrored position is the mirror of the next access from the original one |
| Reuse.BackwardDistances | src/reuse.rs:8-32 | entry `i` of the result is -1 on the last access to a value, otherwise the number of distinct values from `i` up to the next access to it |
| ReuseExamples.SimpleTrace | src/locality/reuse.rs:85-90 | `a b c b d c a` gives `-1 -1 -1 2 -1 3 4` |
| ReuseExamples.SimpleTraceHits | src/locality/reuse.rs:92-98 | that trace has 2 hits with a cache of 3 |
| ReuseExamples.NoHitsWithCacheOfTwo | src/locality/reuse.rs:100-119 | the four traces of `simple_trace_hits_1` have no hit with a cache of 2 |
| ReuseExamples.HitsTrace1 | src/locality/reuse.rs:100-119 | `1 2 3 4 1 2 3 4` gives `-1 -1 -1 -1 4 4 4 4` |
| ReuseExamples.HitsTrace2 | src/locality/reuse.rs:100-119 | `1 2 3 4 2 1 3 4` gives `-1 -1 -1 -1 3 4 4 4` |
| ReuseExamples.HitsTrace3 | src/locality/reuse.rs:100-119 | `1 2 3 4 1 3 2 4` gives `-1 -1 -1 -1 4 3 4 4` |
| ReuseExamples.HitsTrace4 | src/locality/reuse.rs:100-119 | `1 2 3 4 1 2 4 3` gives `-1 -1 -1 -1 4 4 3 4` |
| ReuseExamples.Cyclic | src/locality/reuse.rs:160-165 | `a b c d a b c d` gives `-1 -1 -1 -1 4 4 4 4` |
| ReuseExamples.Sawtooth | src/locality/reuse.rs:167-172 | `a b c d d c b a` gives `-1 -1 -1 -1 1 2 3 4` |
| ReuseExamples.BackwardSimpleTrace | src/reuse.rs:48-53 | the backward analyser gives `4 2 3 -1 -1 -1 -1` |
| ReuseExamples.BackwardCyclic | src/reuse.rs:55-60 | the backward analyser gives `4 4 4 4 -1 -1 -1 -1` |
| ReuseExamples.BackwardSawtooth | src/reuse.rs:62-67 | the backward analyser gives `4 3 2 1 -1 -1 -1 -1` |
| Permutations.Fixing | src/group_theory/cycle.rs:69-72 | the map fixing exactly the given set |
| Permutations.Arrows | src/group_theory/cycle.rs:57-67 | one cycle's arrows: each element to its successor, the last to the first |
| Permutations.BuildFromCycles | src/group_theory/cycle.rs:54-73 | the loops of `from` build the specified map `FromMap` (the same loops are at src/group/cycle.rs:34-54) |
| Permutations.AddCycle | src/group_theory/cycle.rs:56-72 | one outer iteration: the cycle's arrows, then every unmentioned ground element re-fixed |
| Permutations.InsertArrows | src/group_theory/cycle.rs:57-67 | the `windows(2)` loop and the closing insert add the arrows and remove the cycle from the pending set |
| Permutations.FixAll | src/group_theory/cycle.rs:69-72 | the "unchanged elements" loop maps every pending element to itself |
| Permutations.FromRest | src/group_theory/cycle.rs:54-73 | after any prefix of cycles, the pending set is the ground minus every element named so far |
| Permutations.FromKeys | src/group_theory/cycle.rs:53-73 | no cycles give the empty map; otherwise the keys are the ground plus every named element |
| Permutations.FromImage | src/group_theory/cycle.rs:57-67 | every named element goes to its successor in its own cycle |
| Permutations.FromFixed | src/group_theory/cycle.rs:69-72 | for a non-empty vector, every unnamed ground element is fixed |
| Permutations.FromMapOnto | src/group_theory/cycle.rs:53-73 | cycles inside the ground give a map of the ground onto itself |
| Permutations.FromMapInjective | src/group_theory/cycle.rs:53-73 | for well-formed cycles that map is injective; inserts evict only the temporary fixed points the same cycle then overwrites, so the final `BiMap` equals the `map` |
| Permutations.ComposeOver | src/group_theory/cycle.rs:233-246 | the product loop succeeds exactly when every lookup does and yields `g -> a(b(g))`, the loop of src/group/cycle.rs:92-98 too |
| Permutations.ComposeBijection | src/group_theory/cycle.rs:221-249 | two bijections of a ground compose to a bijection applying the right one first |
| Permutations.RestrictOver | src/group_theory/cycle.rs:109-112 | the `inverse` loop succeeds exactly when every ground element has an image and copies `g -> m(g)` (also src/group/cycle.rs:65-68) |
| Permutations.InvertOver | src/group_theory/cycle.rs:109-112 | the corrected loop inserts `m(g) -> g`, failing exactly where the original does |
| Permutations.InvertIsInverse | src/group_theory/cycle.rs:109-112 | for an injective map the inserted pairs undo it |
| Permutations.InverseMapUnique | src/group_theory/cycle.rs:108-114 | a map undoing another is unique |
| Permutations.InverseMapUndoes | src/group_theory/cycle.rs:108-114 | when both maps have the ground as keys, the inverse undoes the map on both sides |
| GroupTheoryCycle.Retraversal | src/group_theory/cycle.rs:45-49 | the `h` loop succeeds exactly when every ground element has an image and lists those images in ground order |
| GroupTheoryCycle.Complete | src/group_theory/cycle.rs:33-40 | when the sizes differ, every ground element without an image is inserted as a fixed point |
| GroupTheoryCycle.New | src/group_theory/cycle.rs:30-51 | `new` returns the completed map, `n` the ground size and the retraversal, or the `unwrap` panic |
| GroupTheoryCycle.CompletedFixesRest | src/group_theory/cycle.rs:33-40 | the completion is the given map plus the missing ground elements fixed |
| GroupTheoryCycle.NewCompletes | src/group_theory/cycle.rs:30-51 | a partial permutation of its keys inside the ground becomes a valid permutation fixing the rest |
| GroupTheoryCycle.NewOfTotal | src/group_theory/cycle.rs:33 | a map already covering the ground is stored unchanged |
| GroupTheoryCycle.MakeIsSelf | src/group_theory/cycle.rs:41-50 | a valid permutation is what its fields rebuild |
| GroupTheoryCycle.IdentityValid | src/group_theory/cycle.rs:30-51 | the all-fixed map over a repetition-free ground is a valid permutation fixing every point |
| GroupTheoryCycle.NewFixesRest | src/group_theory/cycle.rs:30-51 | for keys inside the ground, `new` stores the map plus every missing ground element fixed |
| GroupTheoryCycle.From | src/group_theory/cycle.rs:53-85 | `from` returns the built map with `n` its size and the retraversal, or the `unwrap` panic |
| GroupTheoryCycle.FromCycles | src/group_theory/cycle.rs:53-85 | disjoint cycles inside a repetition-free ground give a valid permutation, each named element to its successor, the rest fixed |
| GroupTheoryCycle.FromCyclesValid | src/group_theory/cycle.rs:53-85 | for such cycles `from` succeeds with a valid permutation whose map is the specified one |
| GroupTheoryCycle.FromEmptyCycle | src/group_theory/cycle.rs:348-353 | `from(vec![vec![]], ground)` is the identity |
| GroupTheoryCycle.FromNoCycles | src/group_theory/cycle.rs:53-85 | `from(vec![], ground)` panics on a non-empty ground |
| GroupTheoryCycle.FromRetraversal | src/group_theory/cycle.rs:87-102 | `from_retraversal` is `new` of the zipped map `ground[i] -> v[i]` |
| GroupTheoryCycle.ZipMapPairs | src/group_theory/cycle.rs:95-99 | the fold maps each ground element to the entry at its position and is injective |
| GroupTheoryCycle.FromRetraversalPermutation | src/group_theory/cycle.rs:87-102 | for a rearrangement of the ground (the commented-out checks) the result is valid and its retraversal is `v` |
| GroupTheoryCycle.Eval | src/group_theory/cycle.rs:116-121 | an element without a stored image is returned unchanged; on a valid permutation the image lies in the ground exactly when the element does |
| GroupTheoryCycle.EvalRetraversal | src/group_theory/cycle.rs:116-121 | on a valid permutation `eval` reads `h` on the ground and fixes everything else |
| GroupTheoryCycle.Inverse | src/group_theory/cycle.rs:108-114 | the method computes `inverse` as written |
| GroupTheoryCycle.InverseIsCopy | src/group_theory/cycle.rs:108-114 | `inverse` of a valid permutation returns the permutation itself |
| GroupTheoryCycle.InverseNotInverse | src/group_theory/cycle.rs:108-114 | for the 3-cycle (1,2,3), `c * inverse(c)` is not the identity |
| GroupTheoryCycle.TrueInverse | src/group_theory/cycle.rs:108-114 | the corrected loop inserting `map(g) -> g`, then `new` |
| GroupTheoryCycle.TrueInverseValid | src/group_theory/cycle.rs:108-114 | the corrected inverse is a valid permutation of the same ground undoing `c` on both sides |
| GroupTheoryCycle.TrueInverseCancels | src/group_theory/cycle.rs:108-114 | `c * c^-1` and `c^-1 * c` are the identity |
| GroupTheoryCycle.Mul | src/group_theory/cycle.rs:221-249 | the size check panics, a missing lookup panics, otherwise the result is `new` of `g -> a(b(g))` |
| GroupTheoryCycle.MulIsComposite | src/group_theory/cycle.rs:221-249 | on valid permutations of one element set the composite map is stored unchanged |
| GroupTheoryCycle.MulValid | src/group_theory/cycle.rs:221-249 | the product of valid permutations is valid over the left ground and applies the right operand first |
| GroupTheoryCycle.MulIdentity | src/group_theory/cycle.rs:221-249 | the identity is neutral on both sides |
| GroupTheoryCycle.MulAssociative | src/group_theory/cycle.rs:221-249 | the product is associative on valid permutations of one element set |
| GroupTheoryCycle.Extensional | src/group_theory/cycle.rs:116-121 | valid permutations of one ground that agree under `eval` are the same struct |
| GroupTheoryCycle.RetraversalDetermines | src/group_theory/cycle.rs:45-49 | valid permutations of one ground with the same `h` are the same struct |
| GroupTheoryCycle.CycleRepresentation | src/group_theory/cycle.rs:144-161 | on a valid permutation no lookup fails and the result is the canonical cycle decomposition, 1-cycles kept only with `show_one` |
| GroupTheoryCycle.DecompositionRoundTrip | src/group_theory/cycle.rs:140-143 | a non-empty decomposition passed to `from` rebuilds the permutation |
| GroupTheoryCycle.IdentityRoundTripFails | src/group_theory/cycle.rs:140-143 | the identity's decomposition without 1-cycles is empty, and `from` of it panics |
| GroupTheoryCycle.CorrectedFromAgrees | src/group_theory/cycle.rs:53-85 | on a non-empty vector the corrected `from` builds what `from` builds |
| GroupTheoryCycle.CorrectedRoundTrip | src/group_theory/cycle.rs:140-143 | with the fixing loop after the cycle loop, every decomposition rebuilds its permutation |
| GroupTheoryCycle.Equal | src/group_theory/cycle.rs:252-259 | `eq` holds exactly when both store the same elements and `eval` agrees on each of them |
| GroupTheoryCycle.EqualIsExtensional | src/group_theory/cycle.rs:252-259 | on permutations of one element set, `eq` holds exactly when `eval` agrees everywhere |
| GroupTheoryCycle.HashKey | src/group_theory/cycle.rs:261-269 | on a valid permutation the hashed data is the ground size and the image of each ground element in ground order; the ground itself is not hashed |
| GroupTheoryCycle.EqualHashOneGround | src/group_theory/cycle.rs:252-269 | over one ground vector, equal permutations hash alike |
| GroupTheoryCycle.EqualHashClash | src/group_theory/cycle.rs:252-269 | the identities over `[1,2]` and `[2,1]` are `eq` but hash differently |
| GroupTheoryCycle.CorrectedEqualHash | src/group_theory/cycle.rs:252-269 | equality that also compares grounds is value equality, is consistent with the hash, and equal hashes on one ground imply it |
| Orbits.OrbitClosed | src/group_theory/cycle.rs:150-154 | an orbit of an injective map is closed forwards and backwards |
| Orbits.WalkStep | src/group_theory/cycle.rs:150-154 | one step of the inner walk from an unvisited element has an image to go to |
| Orbits.WalkCloses | src/group_theory/cycle.rs:150-154 | the walk stops only back at its start, having traced one orbit |
| Orbits.VisitedOrbit | src/group_theory/cycle.rs:147-159 | recording a new orbit, or skipping a hidden 1-cycle, keeps the decomposition invariant |
| Orbits.VisitedAll | src/group_theory/cycle.rs:144-161 | after the whole ground the cycles are the decomposition |
| Orbits.DecompositionRebuilds | src/group_theory/cycle.rs:140-143 | a non-empty decomposition, read as cycle notation, builds the bijection again |
| CycleInversions.InversionsSpec | src/group_theory/cycle.rs:163-176 | the index panic exactly when `n >= 2` and `n > |h|`; otherwise the number of pairs `i < j < k` with `h[i] > h[j]`, for `k` the smaller of `n` and `|h|`, at most `k(k-1)/2` |
| CycleInversions.Inversions | src/group_theory/cycle.rs:163-176 | the double loop computes the specified count, or the index panic when `n` exceeds `h` |
| CycleInversions.InversionsCount | src/group_theory/cycle.rs:163-176 | the count is the number of pairs `i < j < n` with `h[i] > h[j]` |
| CycleInversions.NoInversions | src/group_theory/cycle.rs:163-176 | zero exactly when the first `n` entries are in order |
| CycleInversions.AllInversions | src/group_theory/cycle.rs:163-176 | at most `n(n-1)/2`, with equality exactly when the entries are in reverse order |
| CycleInversions.PairsClosedForm | src/group_theory/cycle.rs:163-176 | the number of pairs `i < j` below `m` is `m(m-1)/2` |
| CycleInversions.RowExtremes | src/group_theory/cycle.rs:163-176 | one row of the inner loop counts at most its width, all of it exactly when every later entry is smaller, none exactly when none is |
| CycleInversions.InversionsOfValid | src/group_theory/cycle.rs:163-176 | on a valid permutation nothing panics and the count is between 0 and `n(n-1)/2` |
| CycleInversions.IdentityInversions | src/group_theory/cycle.rs:434-438 | the identity of S4 has no inversion |
| CycleInversions.ReversalInversions | src/group_theory/cycle.rs:470 | (1,4)(2,3) over 1..4 has 6 inversions |
| CycleStrings.SplitJoin | src/group_theory/cycle.rs:136-137 | splitting a join of separator-free parts gives them back |
| CycleStrings.JoinInjective | src/group_theory/cycle.rs:136-137 | two lists of separator-free parts with the same join are equal |
| CycleStrings.RetraversalStr | src/group_theory/cycle.rs:128-138 | over a non-empty ground whose renderings hold no ",", splitting the string at "," gives back the rendered image of each ground element, in ground order |
| CycleStrings.RetraversalStrOfValid | src/group_theory/cycle.rs:128-138 | on a valid permutation the string is the rendered `h` joined by "," |
| CycleStrings.RetraversalStrDetermines | src/group_theory/cycle.rs:128-138 | with an injective rendering free of ",", the string determines the permutation |
| CycleStrings.IdentityRetraversalStr | src/group_theory/cycle.rs:348-353 | `from(vec![vec![]], 1..=5)` renders as "1,2,3,4,5" |
| CycleStrings.Display | src/group_theory/cycle.rs:178-196 | on a valid permutation the result is the decomposition without 1-cycles, each cycle parenthesised |
| GroupCycle.New | src/group/cycle.rs:25-31 | the ground and the map are kept exactly as given, with no fixed point added, and `n` counts the stored pairs |
| GroupCycle.NewValid | src/group/cycle.rs:25-31 | `new` is valid exactly when its map already permutes the whole ground |
| GroupCycle.NewPartial | src/group/cycle.rs:25-31 | a map missing ground elements keeps the smaller size and is not valid |
| GroupCycle.FixedValid | src/group/cycle.rs:25-31 | the fully stored identity is valid and fixes everything |
| GroupCycle.From | src/group/cycle.rs:33-61 | `from` stores the map of the shared loops with `n` its size |
| GroupCycle.FromCycles | src/group/cycle.rs:33-61 | disjoint cycles inside the ground give a valid permutation to successors, fixing the rest |
| GroupCycle.FromNoCycles | src/group/cycle.rs:33-61 | `from(vec![], ground)` stores the empty map with `n = 0`, not valid though `eval` fixes everything |
| GroupCycle.Eval | src/group/cycle.rs:72-77 | an element without a stored image is returned unchanged; on a valid permutation the image lies in the ground exactly when the element does |
| GroupCycle.EvalValid | src/group/cycle.rs:72-77 | on a valid permutation `eval` is the stored bijection on the ground and the identity off it |
| GroupCycle.Inverse | src/group/cycle.rs:64-70 | the method computes `inverse` as written |
| GroupCycle.InverseIsCopy | src/group/cycle.rs:64-70 | `inverse` returns a copy of a valid permutation |
| GroupCycle.InverseNotInverse | src/group/cycle.rs:64-70 | `a * inverse(a)` moves every point that `a` applied twice moves |
| GroupCycle.TrueInverse | src/group/cycle.rs:64-70 | the corrected loop inserting `map(g) -> g` |
| GroupCycle.TrueInverseOk | src/group/cycle.rs:64-70 | on a valid permutation the corrected inverse is `new` of the inverted map |
| GroupCycle.TrueInverseCancels | src/group/cycle.rs:64-70 | the corrected inverse is valid and cancels on both sides to the stored identity |
| GroupCycle.Mul | src/group/cycle.rs:86-101 | the product loop then `new`, a missing lookup being the panic |
| GroupCycle.MulShape | src/group/cycle.rs:86-101 | the product succeeds exactly when every lookup does, whatever the grounds' lengths, holding `a(b(g))` |
| GroupCycle.MulValid | src/group/cycle.rs:86-101 | valid permutations of one element set multiply to a valid one applying the right operand first |
| GroupCycle.MulIsNew | src/group/cycle.rs:86-101 | a successful product is `new` of the composite map |
| GroupCycle.MulNoSizeCheck | src/group/cycle.rs:86-101 | grounds of different lengths multiply without error |
| GroupCycle.Equal | src/group/cycle.rs:105-112 | `eq` holds exactly when both store the same elements and `eval` agrees on each of them |
| GroupCycle.EqualIsExtensional | src/group/cycle.rs:105-112 | on valid permutations of one element set, `eq` is agreement under `eval` |
| GroupSymmetric.Op | src/group/symmetric.rs:37-40 | `op` succeeds exactly when every lookup of `mul` does, keeps `a`'s ground and applies `b` first on each of its elements |
| GroupSymmetric.Unit | src/group/symmetric.rs:42-44 | the identity keeps the group's ground, stores no pair, has `n = 0` and fixes every ground element under `eval` |
| GroupSymmetric.Inv | src/group/symmetric.rs:46-48 | `inverse` succeeds exactly when every ground element has an image, and then agrees with the element itself on the ground: a copy, not an inverse |
| GroupSymmetric.Order | src/group/symmetric.rs:50-52 | the order is at least 1, and 1 when `n <= 0` |
| GroupSymmetric.OrderIsFactorial | src/group/symmetric.rs:50-52 | the order is `n!` of the stored `n`, 1 for `n <= 0`, whatever the ground |
| GroupSymmetric.GetGenerator | src/group/symmetric.rs:54-67 | `max(|ground|-1, 0)` generators, the `i`-th storing the single pair `ground[i] -> ground[i+1]` |
| GroupSymmetric.UnitProductsFail | src/group/symmetric.rs:42-44 | on a non-empty ground the identity is not valid and every product with it panics |
| GroupSymmetric.GeneratorProductsFail | src/group/symmetric.rs:54-67 | on a repetition-free ground no generator is valid and every product of two generators panics |
| GroupSymmetric.CorrectedUnitNeutral | src/group/symmetric.rs:42-44 | the fully stored identity is valid and a two-sided unit under `op` |
| GroupSymmetric.CorrectedGetGenerator | src/group/symmetric.rs:54-67 | one adjacent transposition per window of two neighbours |
| GroupSymmetric.CorrectedGeneratorSwaps | src/group/symmetric.rs:54 | each transposition is valid, swaps its neighbours, fixes the rest and squares to the identity |
| GroupTheoryGroup.Fronted | src/group_theory/group.rs:29-32 | the entries pushed for an element: one product per generator, the last generator's in front |
| GroupTheoryGroup.PushProducts | src/group_theory/group.rs:29-32 | the inner loop puts those products in front of the queue |
| GroupTheoryGroup.SpellWithin | src/group_theory/group.rs:22-32 | a word's element lies in every left-closed set holding the identity |
| GroupTheoryGroup.GetSet | src/group_theory/group.rs:15-36 | the result holds the identity, is closed under left multiplication by generators, is the least such set, each element is spelt by a word of generators, each expanded once |
| GroupTheoryGroup.Power | src/group_theory/group.rs:79-86 | from an idempotent `start`, the group's identity, every value the iterator produces is `start` |
| GroupTheoryGroup.PowerAdd | src/group_theory/group.rs:79-86 | with an associative `op` the iterator's values multiply as powers |
| GroupTheoryGroup.BackAtStart | src/group_theory/group.rs:79-86 | with a left identity and right cancellation, `next` yields `None` exactly right after producing the identity |
| GroupTheoryGroup.GroupIter.constructor | src/group_theory/group.rs:65-71 | `start` and `curr` are the argument |
| GroupTheoryGroup.GroupIter.Next | src/group_theory/group.rs:79-86 | `curr := op(curr, start)`, `Some(curr)` exactly when it differs from `start`, `start` unchanged |
| GroupTheoryGroup.AddMod5Orbit | src/group_theory/group.rs:79-86 | from 2 modulo 5 the iterator holds 4, 1, 3, 0 and then 2 |
| GroupGroup.Squares | src/group/group.rs:46-53 | from an idempotent `start`, the group's identity, every value the squaring iterator produces is `start` |
| GroupGroup.SquaresArePowers | src/group/group.rs:46-53 | with an associative `op`, after `k` calls `curr` is `start` to the power `2^k` |
| GroupGroup.GroupIter.constructor | src/group/group.rs:32-38 | `start` and `curr` are the argument |
| GroupGroup.GroupIter.Next | src/group/group.rs:46-53 | `curr := op(curr, curr)`, `Some(curr)` exactly when it differs from `start` |
| GroupGroup.AddMod5Squares | src/group/group.rs:46-53 | from 2 modulo 5 the squaring iterator holds 4, 3, 1 and then 2, never reaching 0 |
| CayleyGraph.NodeIndex | src/graph/cayley_graph.rs:29-32 | each element is mapped to its position in the node list |
| CayleyGraph.AddNodes | src/graph/cayley_graph.rs:29-32 | the node loop builds that map |
| CayleyGraph.Lookup | src/graph/cayley_graph.rs:45-56 | a lookup succeeds exactly when the product did and has a node |
| CayleyGraph.StepShape | src/graph/cayley_graph.rs:47-58 | one generator pushes both products and adds their two labelled edges |
| CayleyGraph.ExpandElement | src/graph/cayley_graph.rs:46-59 | the generator loop computes the specified expansion or the first failure |
| CayleyGraph.ExpandErrSticks | src/graph/cayley_graph.rs:46-59 | a failure stays a failure as more generators are processed |
| CayleyGraph.ExpandShape | src/graph/cayley_graph.rs:46-59 | two pushes and two edges per generator, to the nodes of `op(gen, x)` and `op(x, gen)`, labelled with the generator |
| CayleyGraph.ExpandFrom | src/graph/cayley_graph.rs:45-57 | every edge leaves the expanded element's node and every pushed entry has a node |
| CayleyGraph.ExpandOk | src/graph/cayley_graph.rs:45-57 | over a node set closed under both products nothing fails |
| CayleyGraph.AllEdgesCount | src/graph/cayley_graph.rs:40-61 | the edge count is `2 * |gens| *` the number of expanded elements |
| CayleyGraph.AllEdgesFrom | src/graph/cayley_graph.rs:40-61 | every edge leaves the node of an expanded element |
| CayleyGraph.ReachedPush | src/graph/cayley_graph.rs:45-58 | expanding an element keeps every expanded and queued element inside each set that holds the identity and is closed under both products |
| CayleyGraph.New | src/graph/cayley_graph.rs:26-66 | node `i` holds `nodes[i]`; the identity and each element are expanded once and the edges are theirs in order; the expanded set is closed under both products and lies in every set that holds the identity and is closed under both, so only elements reachable from the identity are expanded; with a closed node list holding the identity nothing fails |
| LocalityChainFind.ProductsShape | src/locality/chainfind.rs:31-39 | the product lists hold one product per generator, in order |
| LocalityChainFind.Better | src/locality/chainfind.rs:41-44 | exactly the candidates of strictly greater locality |
| LocalityChainFind.GreedyStepMeans | src/locality/chainfind.rs:31-58 | each appended element is `node * gen` or `gen * node` and has strictly greater locality |
| LocalityChainFind.LeastExists | src/locality/chainfind.rs:45-48 | a non-empty candidate list has an entry of least key, the head after the ascending sort |
| LocalityChainFind.GreedyExtend | src/locality/chainfind.rs:58 | appending a greedy step keeps the chain greedy |
| LocalityChainFind.GreedyIncreases | src/locality/chainfind.rs:41-58 | locality strictly increases along the chain |
| LocalityChainFind.ChainFind | src/locality/chainfind.rs:11-67 | the chain starts at `start`, every step is a least-key improving neighbour, it is `[start]` when its inversions reach `min(n(n+1)/2, maxlen)`, otherwise it takes at most that many minus the inversions steps, and stops earlier only when no neighbour improves |
| Generator.ChunkIter.Next | src/generator/generator.rs:21 | one call of the iterator returns the next outcome of its stream |
| Generator.Simulate | src/generator/generator.rs:19-27 | exactly `m + 1` calls, the output being the chunks yielded as `Some` concatenated in order |
| Generator.CollectedStep | src/generator/generator.rs:21-25 | a `Some` chunk is appended and a `None` adds nothing without ending the loop |
| Generator.SimulateZero | src/generator/generator.rs:19-27 | `simulate(0)` is the first chunk, or empty |
| Generator.CollectedPrefix | src/generator/generator.rs:19-27 | more calls only extend the output |
| Generator.CollectedLength | src/generator/generator.rs:22-24 | the output length is the sum of the yielded chunk lengths |
| Generator.CollectedDependsOnCalls | src/generator/generator.rs:19-27 | only the first `m + 1` outcomes matter |

## Left out

- Machine integers. `i128` factorials overflow beyond 33!, `SymmetricGroup::order` is an `i32` product that overflows beyond 12!, the distances are `i32`, `cache_size as i32` wraps, and `ground_size * (ground_size + 1)` in `chain_find` is `usize`. The model uses unbounded integers throughout.
- `calculate_dmc` in both reuse files: an `f64` square-root sum.
- `Cycle`'s `Serialize` impl (JSON through serde) and `get_function` (a boxed closure): `eval` and the retraversal string cover their content.
- `println!` of the tie messages in `chain_find`: I/O, so the model has no-ops there. Ties are resolved by taking any candidate of least key, which is all `sort_unstable_by_key` promises.
- The `BiMap` crate's evict-on-collision `insert` is not modelled step by step. In `from` the only evictions are of temporary fixed points that the same cycle overwrites, so the final map is the same. Elsewhere preconditions rule out every eviction.
- `SymmetricGroup::get_set` of src/group/symmetric.rs is `todo!()`, so the node list of `CayleyGraph::new` is an input, in the `HashSet`'s iteration order. `CayleyGraph::get_values`, `ActionGraph` and petgraph are not part of this model: the graph is a node list plus an edge list.
- `chain_find` takes its generators from `group_theory::symmetric`, which is not part of this model; they are an input sequence.
- `GroupTheoryGroup.GetSet`: its termination needs the group to be finite, so a ghost `universe` precondition supplies a finite set holding the identity and closed under the generators. On an infinite group the Rust loop never ends.
- `Generator::start`, `set_start`, `add`, `clear` and `iter` are trait methods with no default body. `src/generator/periodic.rs` does not compile. The iterator is modelled as an abstract stream of outcomes.
- `Group::iter` and the generic `Group` trait itself become parameters (`op`, `e`, `gens`) rather than a Dafny trait.
- Termination of the iterators is not claimed: a `GroupIter` is a state machine and never stops by itself.

## Findings

| source | as written | input that shows it | evidently intended | confidence | as-written member | corrected member |
|---|---|---|---|---|---|---|
| src/group_theory/cycle.rs:108-114 | `inverse` re-inserts `g -> map(g)`, so it returns a copy | the 3-cycle (1,2,3) over 1,2,3: `c * inverse(c)` sends 1 to 3 | insert `map(g) -> g`, giving the inverse permutation | high, not executed | GroupTheoryCycle.InverseNotInverse | GroupTheoryCycle.TrueInverseCancels |
| src/group/cycle.rs:64-70 | the older `inverse` has the same swapped insert | any valid `a` with `a(a(x)) != x` | the inverse permutation | high, not executed | GroupCycle.InverseNotInverse | GroupCycle.TrueInverseCancels |
| src/group_theory/cycle.rs:140-143 | the promise that `from` rebuilds what `get_cycle_representation` returns fails for the identity with `show_one == false`: the decomposition is empty, and no fixed points are inserted without a cycle | the identity over `[1]` | every decomposition rebuilds its permutation, e.g. by fixing unmentioned elements after the cycle loop | medium, not executed | GroupTheoryCycle.IdentityRoundTripFails | GroupTheoryCycle.CorrectedRoundTrip |
| src/group_theory/cycle.rs:252-269 | `eq` compares maps but `hash` hashes `n` and `h`, which depend on the ground's order | identities over `[1,2]` and `[2,1]` | values that are `eq` hash alike | medium, not executed | GroupTheoryCycle.EqualHashClash | GroupTheoryCycle.CorrectedEqualHash |
| src/group/symmetric.rs:42-44, 54-67 | `identity` stores the empty map and each generator a single pair, so neither is a permutation and every product with them panics | ground `[1,2]`: `op(identity, x)` panics | the fully stored identity and the adjacent transpositions the doc comment names | high, not executed | GroupSymmetric.GeneratorProductsFail | GroupSymmetric.CorrectedGeneratorSwaps |
| src/group/group.rs:46-53 | the older `GroupIter::next` squares `curr`, visiting only the powers `start^(2^k)` | 2 modulo 5 gives 4, 3, 1, 2 and never 0, the identity | multiply by `start`, as src/group_theory/group.rs:80 does, to walk the cyclic subgroup | medium, not executed | GroupGroup.AddMod5Squares | GroupTheoryGroup.BackAtStart |
