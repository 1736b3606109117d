/** Exact integer combinatorics of src/math/combinations.rs.  The Rust code
    works on `i128`; here the integers are unbounded.  Rust's `/` truncates
    toward zero and Dafny's is Euclidean, but every division below has a
    non-negative dividend and a positive divisor, where the two agree. */
module MathCombinations {

  /** The product `lo * (lo+1) * ... * hi`, and 1 for the empty range. */
  function RangeProduct(lo: int, hi: int): (r: int)
    ensures lo >= 1 ==> r >= 1
    decreases hi - lo + 1
  {
    if lo > hi then 1 else lo * RangeProduct(lo + 1, hi)
  }

  /** `factorial(num)` is `(1..=num).product()`. */
  function Factorial(num: int): (r: int)
    ensures r >= 1
  {
    RangeProduct(1, num)
  }

  /** `combinations(n, k)` is `(n! / k!) / (n-k)!` with truncating division. */
  function Combinations(n: int, k: int): (r: int)
    ensures r >= 0
  {
    (Factorial(n) / Factorial(k)) / Factorial(n - k)
  }

  lemma {:induction false} RangeProductTop(lo: int, hi: int)
    requires lo <= hi
    ensures RangeProduct(lo, hi) == RangeProduct(lo, hi - 1) * hi
    decreases hi - lo
  {
    if lo < hi {
      RangeProductTop(lo + 1, hi);
      var p := RangeProduct(lo + 1, hi - 1);
      assert RangeProduct(lo, hi) == lo * (p * hi);
      assert RangeProduct(lo, hi - 1) == lo * p;
      MulAssoc(lo, p, hi);
    }
  }

  lemma MulAssoc(a: int, b: int, c: int)
    ensures a * (b * c) == (a * b) * c
  {
  }

  /** The recurrence of the factorial: 1 for every `n <= 0`, `n * (n-1)!` above. */
  lemma FactorialRecurrence(n: int)
    ensures n <= 0 ==> Factorial(n) == 1
    ensures n >= 1 ==> Factorial(n) == n * Factorial(n - 1)
  {
    if n >= 1 {
      RangeProductTop(1, n);
    }
  }

  /** Pascal's triangle: the reference definition of the binomial coefficient,
      zero outside `0 <= k <= n`. */
  function Binomial(n: nat, k: int): nat
  {
    if n == 0 then (if k == 0 then 1 else 0)
    else Binomial(n - 1, k - 1) + Binomial(n - 1, k)
  }

  lemma {:induction false} BinomialOutside(n: nat, k: int)
    requires k < 0 || k > n
    ensures Binomial(n, k) == 0
  {
    if n > 0 {
      BinomialOutside(n - 1, k - 1);
      BinomialOutside(n - 1, k);
    }
  }

  /** `C(n,k) * k! * (n-k)! == n!` for `0 <= k <= n`. */
  lemma {:induction false} BinomialTimesFactorials(n: nat, k: int)
    requires 0 <= k <= n
    ensures Binomial(n, k) * Factorial(k) * Factorial(n - k) == Factorial(n)
    decreases n, 1
  {
    if n == 0 {
      FactorialRecurrence(0);
    } else {
      FactorialRecurrence(n);
      var f := Factorial(n - 1);
      var fk, fnk := Factorial(k), Factorial(n - k);
      var b1, b2 := Binomial(n - 1, k - 1), Binomial(n - 1, k);
      assert Binomial(n, k) == b1 + b2;
      PascalTerm(n, k, b1, fk, fnk, f);
      PascalTermRight(n, k, b2, fk, fnk, f);
      Distribute(b1, b2, fk, fnk, k, n, f);
    }
  }

  /** The term `C(n-1, k-1) * k! * (n-k)!` of Pascal's rule is `k * (n-1)!`. */
  lemma PascalTerm(n: nat, k: int, b1: nat, fk: int, fnk: int, f: int)
    requires 0 <= k <= n && n >= 1
    requires b1 == Binomial(n - 1, k - 1) && fk == Factorial(k) && fnk == Factorial(n - k)
    requires f == Factorial(n - 1)
    ensures b1 * fk * fnk == k * f
    decreases n, 0
  {
    if k >= 1 {
      BinomialTimesFactorials(n - 1, k - 1);
      FactorialRecurrence(k);
      var g := Factorial(k - 1);
      assert fk == k * g;
      assert b1 * g * fnk == f;
      MulRearrange(b1, k, g, fnk);
    } else {
      BinomialOutside(n - 1, k - 1);
    }
  }

  /** The term `C(n-1, k) * k! * (n-k)!` of Pascal's rule is `(n-k) * (n-1)!`. */
  lemma PascalTermRight(n: nat, k: int, b2: nat, fk: int, fnk: int, f: int)
    requires 0 <= k <= n && n >= 1
    requires b2 == Binomial(n - 1, k) && fk == Factorial(k) && fnk == Factorial(n - k)
    requires f == Factorial(n - 1)
    ensures b2 * fk * fnk == (n - k) * f
    decreases n, 0
  {
    if k <= n - 1 {
      BinomialTimesFactorials(n - 1, k);
      FactorialRecurrence(n - k);
      var g := Factorial(n - k - 1);
      assert fnk == (n - k) * g;
      assert b2 * fk * g == f;
      MulRearrangeRight(b2, fk, n - k, g);
    } else {
      BinomialOutside(n - 1, k);
    }
  }

  lemma MulRearrange(b: int, k: int, g: int, h: int)
    ensures b * (k * g) * h == k * (b * g * h)
  {
  }

  lemma MulRearrangeRight(b: int, fk: int, m: int, g: int)
    ensures b * fk * (m * g) == m * (b * fk * g)
  {
  }

  lemma Distribute(b1: int, b2: int, fk: int, fnk: int, k: int, n: int, f: int)
    requires b1 * fk * fnk == k * f && b2 * fk * fnk == (n - k) * f
    ensures (b1 + b2) * fk * fnk == n * f
  {
    calc {
      (b1 + b2) * fk * fnk;
      b1 * fk * fnk + b2 * fk * fnk;
      k * f + (n - k) * f;
      n * f;
    }
  }

  lemma DivideExact(a: int, b: int, c: int)
    requires c > 0 && a == b * c
    ensures a / c == b
  {
    var q, r := a / c, a % c;
    assert a == q * c + r && 0 <= r < c;
    assert (b - q) * c == r by { Distrib(b, q, c); }
    if b - q >= 1 {
      MulAtLeast(b - q, c);
    } else if q - b >= 1 {
      MulAtLeast(q - b, c);
      Distrib(q, b, c);
    }
  }

  lemma AddDistrib(x: int, y: int, c: int)
    ensures (x + y) * c == x * c + y * c
  {
  }

  lemma Distrib(x: int, y: int, c: int)
    ensures (x - y) * c == x * c - y * c
  {
  }

  lemma {:induction false} MulAtLeast(d: int, c: int)
    requires d >= 1 && c > 0
    ensures d * c >= c
    decreases d
  {
    if d > 1 {
      MulAtLeast(d - 1, c);
      Distrib(d, 1, c);
    }
  }

  /** The truncating divisions of `combinations` are exact on `0 <= k <= n`
      and give the binomial coefficient. */
  lemma CombinationsIsBinomial(n: int, k: int)
    requires 0 <= k <= n
    ensures Combinations(n, k) == Binomial(n, k)
  {
    BinomialTimesFactorials(n, k);
    var b, fk, fnk := Binomial(n, k), Factorial(k), Factorial(n - k);
    MulSwap(b, fk, fnk);
    var bf := b * fnk;
    DivideExact(Factorial(n), bf, fk);
    DivideExact(bf, b, fnk);
  }

  lemma MulSwap(a: int, b: int, c: int)
    ensures a * b * c == (a * c) * b
  {
  }

  /** Above the diagonal (`k > n >= 0`, except `combinations(0, 1)`, which is
      `(1/1)/1 == 1`) `combinations` truncates to 0. */
  lemma CombinationsAbove(n: int, k: int)
    requires 0 <= n < k && k >= 2
    ensures Combinations(n, k) == 0
  {
    FactorialGrows(n, k);
    assert Factorial(n) / Factorial(k) == 0;
    assert Combinations(n, k) == 0 / Factorial(n - k);
  }

  lemma {:induction false} FactorialGrows(n: int, k: int)
    requires 0 <= n < k && k >= 2
    ensures Factorial(n) < Factorial(k)
    decreases k - n
  {
    FactorialRecurrence(k);
    var g := Factorial(k - 1);
    assert Factorial(k) == k * g;
    if n < k - 1 && k - 1 >= 2 {
      FactorialGrows(n, k - 1);
    } else if n < k - 1 {
      FactorialRecurrence(1);
      FactorialRecurrence(0);
    }
    MulGrows(k, g);
  }

  lemma MulGrows(k: int, g: int)
    requires k >= 2 && g >= 1
    ensures k * g > g
  {
    MulAtLeast(k - 1, g);
    Distrib(k, 1, g);
  }

  /** Edge values: `combinations(n, 0) == combinations(n, n) == 1`. */
  lemma CombinationsEdges(n: int)
    requires n >= 0
    ensures Combinations(n, 0) == 1 && Combinations(n, n) == 1
  {
    CombinationsIsBinomial(n, 0);
    CombinationsIsBinomial(n, n);
    BinomialTimesFactorials(n, 0);
    BinomialTimesFactorials(n, n);
    FactorialRecurrence(0);
  }

  /** `Convolution(a, b, k, i)` is the sum of `C(a,h) * C(b,k-h)` over `0 <= h < i`. */
  function Convolution(a: nat, b: nat, k: int, i: nat): nat
  {
    if i == 0 then 0
    else Convolution(a, b, k, i - 1) + Binomial(a, i - 1) * Binomial(b, k - (i - 1))
  }

  lemma {:induction false} ConvolutionZeroLeft(b: nat, k: int, i: nat)
    requires i >= 1
    ensures Convolution(0, b, k, i) == Binomial(b, k)
  {
    if i > 1 {
      ConvolutionZeroLeft(b, k, i - 1);
    }
  }

  /** Pascal's rule applied under the sum. */
  lemma {:induction false} ConvolutionStep(a: nat, b: nat, k: int, i: nat)
    requires i >= 1
    ensures Convolution(a + 1, b, k, i) == Convolution(a, b, k, i) + Convolution(a, b, k - 1, i - 1)
  {
    if i == 1 {
      BinomialOutside(a, -1);
    } else {
      ConvolutionStep(a, b, k, i - 1);
      var p, q, r := Binomial(a, i - 2), Binomial(a, i - 1), Binomial(b, k - (i - 1));
      assert Binomial(a + 1, i - 1) == p + q;
      AddDistrib(p, q, r);
      assert k - 1 - (i - 2) == k - (i - 1);
    }
  }

  /** Vandermonde's identity: the sum of `C(a,h) * C(b,k-h)` over `0 <= h <= k`
      is `C(a+b, k)`. */
  lemma {:induction false} Vandermonde(a: nat, b: nat, k: nat)
    ensures Convolution(a, b, k, k + 1) == Binomial(a + b, k)
  {
    if a == 0 {
      ConvolutionZeroLeft(b, k, k + 1);
    } else {
      ConvolutionStep(a - 1, b, k, k + 1);
      Vandermonde(a - 1, b, k);
      if k >= 1 {
        Vandermonde(a - 1, b, k - 1);
      } else {
        BinomialOutside(a - 1 + b, -1);
      }
      assert Binomial(a + b, k) == Binomial(a - 1 + b, k - 1) + Binomial(a - 1 + b, k);
    }
  }
}
