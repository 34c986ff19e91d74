/** Small facts about integer arithmetic shared by the components. */
module Arith {

  function Min(a: nat, b: nat): nat {
    if a <= b then a else b
  }

  /** The quotient and the remainder are determined by any decomposition x = q * n + r. */
  lemma DivModUnique(x: int, n: int, q: int, r: int)
    requires 0 < n && 0 <= r < n && x == q * n + r
    ensures x / n == q && x % n == r
  {
    var q', r' := x / n, x % n;
    assert x == q' * n + r' && 0 <= r' < n;
    assert (q - q') * n == r' - r;
    if q - q' >= 1 {
      MulMono(1, q - q', n);
    } else if q - q' <= -1 {
      MulMono(q - q', -1, n);
    }
  }

  lemma MulMono(a: int, b: int, n: int)
    requires a <= b && 0 <= n
    ensures a * n <= b * n
  {}

  /** Stepping forward from position w in a ring of n slots. */
  lemma RingStep(w: nat, i: nat, n: nat)
    requires 0 < n && i < n
    ensures 0 <= w % n < n
    ensures (w + i) % n == (if w % n + i < n then w % n + i else w % n + i - n)
  {
    var q, r := w / n, w % n;
    assert w == q * n + r;
    if r + i < n {
      DivModUnique(w + i, n, q, r + i);
    } else {
      assert w + i == (q + 1) * n + (r + i - n);
      DivModUnique(w + i, n, q + 1, r + i - n);
    }
  }

  /** Row-major addressing x * n + i is injective. */
  lemma CellUnique(x: int, i: int, y: int, j: int, n: int)
    requires 0 < n && 0 <= i < n && 0 <= j < n
    ensures x * n + i == y * n + j <==> x == y && i == j
  {
    DivModUnique(x * n + i, n, x, i);
    DivModUnique(y * n + j, n, y, j);
  }
}
