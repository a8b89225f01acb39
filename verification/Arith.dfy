/** Facts about multiplication and division that the solver does not find on its own. */
module Arith {

  type Positive = x: nat | x > 0 witness 1

  lemma ModWrap(x: nat, n: nat)
    requires x < 2 * n
    ensures x % n == if x < n then x else x - n
  {
    if x >= n {
      assert x == (x - n) + n;
      assert (x - n) % n == x - n;
    }
  }

  /** `q` is the quotient of `a` by `b`. */
  lemma DivUnique(a: int, b: int, q: int)
    requires b > 0 && q * b <= a < q * b + b
    ensures a / b == q
  {
    var d := a / b;
    if d < q {
      MulMono(d + 1, q, b);
    } else if d > q {
      MulMono(q + 1, d, b);
    }
  }

  lemma MulMono(a: int, b: int, c: int)
    requires a <= b && c >= 0
    ensures a * c <= b * c
  {
    assert (b - a) * c >= 0;
    assert (b - a) * c == b * c - a * c;
  }

  lemma DivMono(a: int, b: int, c: int)
    requires a <= b && c > 0
    ensures a / c <= b / c
  {
    if a / c > b / c {
      MulMono(b / c + 1, a / c, c);
    }
  }

  /** A quotient is at least `q` when `q` divisors fit. */
  lemma DivAtLeast(a: int, b: int, q: int)
    requires b > 0 && q * b <= a
    ensures a / b >= q
  {
    if a / b < q {
      MulMono(a / b + 1, q, b);
    }
  }

  /** Dividing a sum: the quotients add up, but for a possible carry. */
  lemma DivSum(a: nat, b: nat, c: nat)
    requires c > 0
    ensures a / c + b / c <= (a + b) / c <= a / c + b / c + 1
  {
    var q, r := a / c + b / c, a % c + b % c;
    assert a + b == q * c + r;
    if r < c {
      DivUnique(a + b, c, q);
    } else {
      DivUnique(a + b, c, q + 1);
    }
  }

  /** Counting up by one moves to the next quotient exactly when the divisor divides. */
  lemma NextQuotient(a: nat, b: nat)
    requires b > 0
    ensures (a + 1) % b == 0 <==> (a + 1) / b == a / b + 1
    ensures (a + 1) % b != 0 <==> (a + 1) / b == a / b
  {
    var q, r := a / b, a % b;
    assert (q + 1) * b == q * b + b;
    if r + 1 < b {
      DivUnique(a + 1, b, q);
    } else {
      DivUnique(a + 1, b, q + 1);
    }
    assert (a + 1) % b == (a + 1) - (a + 1) / b * b;
  }
}
