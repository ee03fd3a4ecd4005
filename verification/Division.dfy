/** Division by counting, and what it has to do with the operators. */
module Division {
  /** Quotient and remainder; `QuotRest` relates them to `/` and `%`. */
  function Quot(n: nat, b: nat): (q: nat)
    requires b > 0
    ensures b >= 2 ==> 2 * q <= n
    ensures n >= b ==> q > 0
  {
    if n < b then 0 else 1 + Quot(n - b, b)
  }

  function Rest(n: nat, b: nat): (r: nat)
    requires b > 0
    ensures r < b && r <= n
  {
    if n < b then n else Rest(n - b, b)
  }

  lemma MulMonotone(a: int, b: int, c: nat)
    requires a <= b
    ensures a * c <= b * c
  {}

  lemma DivUnique(n: nat, b: nat, q: nat, r: nat)
    requires n == q * b + r && r < b
    ensures q == n / b && r == n % b
  {
    var p := n / b;
    assert p * b + n % b == n;
    assert (p + 1) * b == p * b + b && (q + 1) * b == q * b + b;
    if p < q {
      MulMonotone(p + 1, q, b);
    } else if q < p {
      MulMonotone(q + 1, p, b);
    }
  }

  lemma {:induction false} QuotRestProduct(n: nat, b: nat)
    requires b > 0
    ensures Quot(n, b) * b + Rest(n, b) == n
  {
    if n >= b {
      QuotRestProduct(n - b, b);
      assert (1 + Quot(n - b, b)) * b == b + Quot(n - b, b) * b;
    }
  }

  lemma QuotRest(n: nat, b: nat)
    requires b > 0
    ensures Quot(n, b) == n / b && Rest(n, b) == n % b
  {
    QuotRestProduct(n, b);
    DivUnique(n, b, Quot(n, b), Rest(n, b));
  }
}
