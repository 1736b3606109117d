/** The iterator of the older `Group` interface, src/group/group.rs, which
    squares its current value on every call. */
module GroupGroup {
  import opened Outcomes
  import opened GroupTheoryGroup

  /** `start` squared `k` times.  From an idempotent `start` (in a group,
      the identity) every square is `start`. */
  function Squares<T>(op: (T, T) -> T, start: T, k: nat): (r: T)
    ensures op(start, start) == start ==> r == start
  {
    if k == 0 then start else var p := Squares(op, start, k - 1); op(p, p)
  }

  /** Two to the power `k`. */
  function Pow2(k: nat): (r: nat)
    ensures r >= 1
  {
    if k == 0 then 1 else 2 * Pow2(k - 1)
  }

  /** With an associative operation, squaring `k` times gives `start` to
      the power `2^k`, so the iterator visits only the powers
      `start^(2^k)` and not the whole cyclic subgroup. */
  lemma {:induction false} SquaresArePowers<T(!new)>(op: (T, T) -> T, start: T, k: nat)
    requires Associative(op)
    ensures Squares(op, start, k) == Power(op, start, Pow2(k) - 1)
  {
    if k > 0 {
      SquaresArePowers(op, start, k - 1);
      PowerAdd(op, start, Pow2(k - 1) - 1, Pow2(k - 1) - 1);
    }
  }

  /** `GroupIter` (src/group/group.rs:22-54) over the operation `op`. */
  class GroupIter<T(==)> {
    const op: (T, T) -> T
    const start: T
    var curr: T
    /** The number of `next` calls so far. */
    ghost var steps: nat

    ghost predicate Valid()
      reads this
    {
      curr == Squares(op, start, steps)
    }

    /** `GroupIter::new` (src/group/group.rs:32-38). */
    constructor (curr0: T, op: (T, T) -> T)
      ensures this.op == op && start == curr0 && curr == curr0 && steps == 0
      ensures Valid()
    {
      this.op := op;
      start := curr0;
      curr := curr0;
      steps := 0;
    }

    /** `next` (src/group/group.rs:46-53): square the current value, and
        yield it unless it is `start` again. */
    method Next() returns (r: Option<T>)
      requires Valid()
      modifies this
      ensures Valid() && steps == old(steps) + 1
      ensures curr == op(old(curr), old(curr))
      ensures r == if curr != start then Some(curr) else None
    {
      curr := op(curr, curr);
      steps := steps + 1;
      if curr != start {
        r := Some(curr);
      } else {
        r := None;
      }
    }
  }

  /** Over integers modulo 5 from 2 the squaring iterator holds 4, 3, 1
      and then 2 again: it never reaches 0, the identity, which the
      multiplying iterator of the newer interface yields. */
  lemma AddMod5Squares(start: int)
    requires start == 2
    ensures Squares(AddMod5, start, 1) == 4 && Squares(AddMod5, start, 2) == 3
    ensures Squares(AddMod5, start, 3) == 1 && Squares(AddMod5, start, 4) == start
    ensures forall k :: 0 <= k <= 4 ==> Squares(AddMod5, start, k) != 0
  {
    assert Squares(AddMod5, start, 1) == 4;
    assert Squares(AddMod5, start, 2) == 3;
    assert Squares(AddMod5, start, 3) == 1;
  }
}
