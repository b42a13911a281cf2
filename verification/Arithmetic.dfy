/** Facts about division that the round-robin and alignment proofs need. */
module Arithmetic {

  lemma MultipleAtLeast(n: nat, d: nat)
    requires d >= 1
    ensures n * d >= n
  {
    assert n * d == n + n * (d - 1);
  }

  /** Quotient and remainder are determined by the equation between them. */
  lemma DivModUnique(x: nat, n: nat, q: nat, r: nat)
    requires n > 0 && r < n && x == n * q + r
    ensures x / n == q && x % n == r
  {
    var q', r' := x / n, x % n;
    assert n * q' + r' == n * q + r;
    assert n * (q' - q) == n * q' - n * q;
    assert n * (q - q') == n * q - n * q';
    if q < q' {
      MultipleAtLeast(n, q' - q);
    } else if q' < q {
      MultipleAtLeast(n, q - q');
    }
  }

  /** Where a round robin over n places, started at `start`, is after k moves. */
  function Turn(start: nat, k: nat, n: nat): nat
    requires n > 0
  {
    (start + k) % n
  }

  lemma TurnBegins(start: nat, n: nat)
    requires start < n
    ensures Turn(start, 0, n) == start
  {
    DivModUnique(start, n, 0, start);
  }

  /** Moving one place on, as the code does it. */
  lemma TurnMoves(start: nat, k: nat, n: nat)
    requires n > 0
    ensures Turn(start, k, n) < n && (Turn(start, k, n) + 1) % n == Turn(start, k + 1, n)
  {
    var (x, q) := (start + k, (start + k) / n);
    var r := x % n;
    assert x == n * q + r;
    if r + 1 == n {
      assert x + 1 == n * (q + 1) + 0;
      DivModUnique(x + 1, n, q + 1, 0);
      DivModUnique(n, n, 1, 0);
    } else {
      DivModUnique(x + 1, n, q, r + 1);
      DivModUnique(r + 1, n, 0, r + 1);
    }
  }
}
