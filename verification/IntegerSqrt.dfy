/** `bigIntSqrt`: Newton's iteration on integers. */
module IntegerSqrt {

  /** Division of JavaScript's BigInt rounds toward zero. */
  function BigIntDiv(a: int, b: int): int
    requires b > 0
  {
    if a >= 0 then a / b else -(-a / b)
  }

  /** However much the two floors cut off, a Newton step never falls below the root: the step from
      `x` is at least the mean of `x` and `n / x`, which no root exceeds. */
  lemma StepStaysAbove(n: nat, x: nat)
    requires x > 0
    ensures var y := (x + n / x) / 2; n < (y + 1) * (y + 1)
  {
    var q := n / x;
    var y := (x + q) / 2;
    assert n < (q + 1) * x;
    var d := q + 1 - x;
    assert (q + 1 + x) * (q + 1 + x) == 4 * ((q + 1) * x) + d * d;
    SquareMono(q + 1 + x, 2 * (y + 1));
    assert (2 * (y + 1)) * (2 * (y + 1)) == 4 * ((y + 1) * (y + 1));
  }

  lemma SquareMono(a: nat, b: nat)
    requires a <= b
    ensures a * a <= b * b
  {
    assert b * b - a * a == (b - a) * (b + a);
  }

  /** Where the iteration stops descending, the root is reached. */
  lemma NoDescentMeansRoot(n: nat, x: nat)
    requires x > 0 && (x + n / x) / 2 >= x
    ensures x * x <= n
  {
    var q := n / x;
    assert q * x <= n;
    assert (q - x) * x >= 0;
    assert (q - x) * x == q * x - x * x;
  }

  lemma RootUnique(n: nat, j: nat, k: nat)
    requires j * j <= n < (j + 1) * (j + 1)
    requires k * k <= n < (k + 1) * (k + 1)
    ensures j == k
  {
    if j < k {
      SquareMono(j + 1, k);
    } else if k < j {
      SquareMono(k + 1, j);
    }
  }

  /** One Newton step from `x`, rounded down twice. */
  function Newton(n: nat, x: nat): (y: nat)
    requires n > 0 && x > 0
  {
    (x + n / x) / 2
  }

  /** The root lies below `x + 1`. */
  predicate RootBelow(n: nat, x: nat) {
    n < (x + 1) * (x + 1)
  }

  lemma NewtonKeeps(n: nat, x: nat)
    requires n > 0 && x > 0
    ensures Newton(n, x) > 0 && RootBelow(n, Newton(n, x))
    ensures BigIntDiv(x + BigIntDiv(n, x), 2) == Newton(n, x)
    ensures Newton(n, x) >= x ==> x * x <= n
  {
    StepStaysAbove(n, x);
    if x == 1 {
      assert n / x == n;
    }
    if Newton(n, x) >= x {
      NoDescentMeansRoot(n, x);
    }
  }

  /** The first guess is the step from `n` itself. */
  lemma FirstGuess(n: int)
    ensures n > 0 ==> BigIntDiv(n + 1, 2) == Newton(n, n) && RootBelow(n, n)
    ensures n <= 0 ==> BigIntDiv(n + 1, 2) >= n
  {
    if n > 0 {
      assert n / n == 1;
      SquareMono(1, n);
    }
  }

  /** The largest `k` with `k * k <= n` for every `n >= 0`; a negative `n` comes back unchanged. */
  method BigIntSqrt(n: int) returns (x: int)
    ensures n >= 0 ==> 0 <= x && x * x <= n < (x + 1) * (x + 1)
    ensures n < 0 ==> x == n
  {
    hide BigIntDiv, Newton;
    x := n;
    var y := BigIntDiv(x + 1, 2);
    FirstGuess(n);
    while y < x
      invariant n <= 0 ==> x == n && y >= x
      invariant n > 0 ==> x > 0 && RootBelow(n, x) && y == Newton(n, x)
      decreases x
    {
      NewtonKeeps(n, x);
      x := y;
      y := BigIntDiv(x + BigIntDiv(n, x), 2);
      NewtonKeeps(n, x);
    }
    if n > 0 {
      NewtonKeeps(n, x);
    }
  }
}
