/** The string forms of `Cycle` in src/group_theory/cycle.rs: the
    comma-separated retraversal and the cycle notation of `display`.  The
    element type's `ToString` is the parameter `show`. */
module CycleStrings {
  import opened Outcomes
  import opened Permutations
  import opened Orbits
  import opened GroupTheoryCycle

  /** `parts.join(sep)`: the parts with `sep` between neighbours. */
  function Join(parts: seq<string>, sep: string): string
  {
    if parts == [] then ""
    else if |parts| == 1 then parts[0]
    else parts[0] + sep + Join(parts[1..], sep)
  }

  /** `s.split(sep)`: the pieces between occurrences of `sep`; a string
      without `sep` is one piece, the empty string included. */
  function Split(s: string, sep: char): (parts: seq<string>)
    ensures |parts| >= 1
    decreases |s|
  {
    if sep !in s then [s]
    else
      var i := IndexOf(s, sep);
      [s[..i]] + Split(s[i + 1..], sep)
  }

  /** No part contains the separator. */
  ghost predicate Free(parts: seq<string>, sep: char)
  {
    forall k :: 0 <= k < |parts| ==> sep !in parts[k]
  }

  /** Splitting a join of separator-free parts gives the parts back. */
  lemma {:induction false} SplitJoin(parts: seq<string>, sep: char)
    requires parts != [] && Free(parts, sep)
    ensures Split(Join(parts, [sep]), sep) == parts
    decreases |parts|
  {
    var p := parts[0];
    assert sep !in p;
    if |parts| > 1 {
      var rest := parts[1..];
      assert Free(rest, sep) by {
        forall k | 0 <= k < |rest|
          ensures sep !in rest[k]
        {
          assert rest[k] == parts[k + 1];
        }
      }
      SplitJoin(rest, sep);
      var s := Join(parts, [sep]);
      assert s == p + [sep] + Join(rest, [sep]);
      assert s[|p|] == sep;
      assert IndexOf(s, sep) == |p| by {
        IndexOfFirst(s, sep, |p|);
      }
      assert s[..|p|] == p;
      assert s[|p| + 1..] == Join(rest, [sep]);
    }
  }

  /** The first occurrence of `x` is at `i` when `s[i] == x` and no earlier
      position holds `x`. */
  lemma {:induction false} IndexOfFirst<T>(s: seq<T>, x: T, i: nat)
    requires i < |s| && s[i] == x && x !in s[..i]
    ensures IndexOf(s, x) == i
  {
    if i > 0 {
      assert s[0] in s[..i];
      assert s[1..][..i - 1] == s[..i][1..];
      IndexOfFirst(s[1..], x, i - 1);
    }
  }

  /** Joins of non-empty separator-free vectors are equal only when the
      vectors are. */
  lemma JoinInjective(a: seq<string>, b: seq<string>, sep: char)
    requires a != [] && b != [] && Free(a, sep) && Free(b, sep)
    requires Join(a, [sep]) == Join(b, [sep])
    ensures a == b
  {
    SplitJoin(a, sep);
    SplitJoin(b, sep);
  }

  /** The rendered elements of `s`. */
  function Shown<T>(s: seq<T>, show: T -> string): (r: seq<string>)
    ensures |r| == |s|
    ensures forall i :: 0 <= i < |s| ==> r[i] == show(s[i])
  {
    seq(|s|, i requires 0 <= i < |s| => show(s[i]))
  }

  /** The rendered image of each ground element, in ground order. */
  function Images<T(==)>(c: Cycle<T>, show: T -> string): (r: seq<string>)
    ensures |r| == |c.ground|
    ensures forall i :: 0 <= i < |c.ground| ==> r[i] == show(Eval(c, c.ground[i]))
  {
    seq(|c.ground|, i requires 0 <= i < |c.ground| => show(Eval(c, c.ground[i])))
  }

  /** `SplitJoin` for callers that cannot test its premise. */
  lemma SplitJoinWhenFree(parts: seq<string>, sep: char)
    ensures parts != [] && Free(parts, sep) ==> Split(Join(parts, [sep]), sep) == parts
  {
    if parts != [] && Free(parts, sep) {
      SplitJoin(parts, sep);
    }
  }

  /** `get_retraversal_str` (src/group_theory/cycle.rs:128-138): the image
      of each ground element in ground order, rendered and joined by ",".
      When no rendering holds ",", splitting the string at "," gives those
      renderings back. */
  function RetraversalStr<T(==)>(c: Cycle<T>, show: T -> string): (r: string)
    ensures c.ground != [] && Free(Images(c, show), ',') ==> Split(r, ',') == Images(c, show)
  {
    SplitJoinWhenFree(Images(c, show), ',');
    Join(Images(c, show), ",")
  }

  /** On a valid permutation the string is the rendered `h`. */
  lemma RetraversalStrOfValid<T>(c: Cycle<T>, show: T -> string)
    requires Valid(c)
    ensures RetraversalStr(c, show) == Join(Shown(c.h, show), ",")
  {
    EvalRetraversal(c);
    assert Images(c, show) == Shown(c.h, show);
  }

  /** With an injective rendering that never produces ",", the string
      determines the permutation among those of one ground. */
  lemma RetraversalStrDetermines<T>(p: Cycle<T>, q: Cycle<T>, show: T -> string)
    requires Valid(p) && Valid(q) && p.ground == q.ground
    requires forall x, y :: show(x) == show(y) ==> x == y
    requires forall x :: ',' !in show(x)
    requires RetraversalStr(p, show) == RetraversalStr(q, show)
    ensures p == q
  {
    RetraversalStrOfValid(p, show);
    RetraversalStrOfValid(q, show);
    if p.h != [] {
      var a, b := Shown(p.h, show), Shown(q.h, show);
      JoinInjective(a, b, ',');
      forall i | 0 <= i < |p.h|
        ensures p.h[i] == q.h[i]
      {
        assert show(p.h[i]) == show(q.h[i]);
      }
    }
    RetraversalDetermines(p, q);
  }

  /** The decimal digits of a natural number. */
  function Decimal(n: nat): string
    decreases n
  {
    (if n < 10 then "" else Decimal(n / 10)) + [['0', '1', '2', '3', '4', '5', '6', '7', '8', '9'][n % 10]]
  }

  /** "1" to "5" joined by ",". */
  lemma JoinFive(parts: seq<string>)
    requires parts == ["1", "2", "3", "4", "5"]
    ensures Join(parts, ",") == "1,2,3,4,5"
  {
    var p4: seq<string> := ["5"];
    var p3: seq<string> := ["4"] + p4;
    var p2: seq<string> := ["3"] + p3;
    var p1: seq<string> := ["2"] + p2;
    assert p3[1..] == p4 && p2[1..] == p3 && p1[1..] == p2 && parts[1..] == p1;
    assert Join(p4, ",") == "5";
    assert Join(p3, ",") == "4,5";
    assert Join(p2, ",") == "3,4,5";
    assert Join(p1, ",") == "2,3,4,5";
  }

  /** The rendering of 1,2,3,4,5. */
  lemma FiveDecimals(h: seq<nat>)
    requires h == [1, 2, 3, 4, 5]
    ensures Join(Shown(h, Decimal), ",") == "1,2,3,4,5"
  {
    var parts := Shown(h, Decimal);
    assert parts[0] == "1" && parts[1] == "2" && parts[2] == "3" && parts[3] == "4" && parts[4] == "5";
    JoinFive(parts);
  }

  /** `from(vec![vec![]], 1..=5)` renders as "1,2,3,4,5". */
  lemma IdentityRetraversalStr(ground: seq<nat>)
    requires ground == [1, 2, 3, 4, 5]
    ensures WellFormedCycles<nat>([[]]) && FromSpec([[]], ground).Ok?
    ensures RetraversalStr(FromSpec([[]], ground).value, Decimal) == "1,2,3,4,5"
  {
    FromEmptyCycle(ground);
    RetraversalStrOfValid(Identity(ground), Decimal);
    FiveDecimals(ground);
  }

  // ---------------------------------------------------------------------
  // `display`
  // ---------------------------------------------------------------------

  /** One cycle in parentheses, its elements joined by ",". */
  function Parenthesised<T>(cycle: seq<T>, show: T -> string): string
  {
    "(" + Join(Shown(cycle, show), ",") + ")"
  }

  /** The rendered cycles, concatenated. */
  function Render<T>(cycles: seq<seq<T>>, show: T -> string): string
  {
    Join(seq(|cycles|, k requires 0 <= k < |cycles| => Parenthesised(cycles[k], show)), "")
  }

  /** `display` (src/group_theory/cycle.rs:178-196): the decomposition
      without 1-cycles, each cycle in parentheses.  A failing lookup of the
      decomposition is an error. */
  method Display<T(==)>(c: Cycle<T>, show: T -> string) returns (r: Result<string>, ghost cycles: seq<seq<T>>)
    ensures Valid(c) ==> r.Ok? && Decomposition(c.perm, c.ground, cycles, false)
    ensures r.Ok? ==> r.value == Render(cycles, show)
  {
    var rep := CycleRepresentation(c, false);
    if rep.Err? {
      return Err(rep.fault), [];
    }
    cycles := rep.value;
    r := Ok(Render(rep.value, show));
  }
}
