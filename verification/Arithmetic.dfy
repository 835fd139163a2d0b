/** The few facts about products and remainders that the client proofs use. */
module Arithmetic {

  const U32 := 0x1_0000_0000

  lemma MulMonotone(a: nat, b: nat, n: nat)
    requires a <= b
    ensures a * n <= b * n
  {
    assert b * n == a * n + (b - a) * n;
  }

  lemma Distributed(a: nat, b: nat, n: nat)
    ensures (a + b) * n == a * n + b * n
  {
  }

  lemma OneMore(k: nat, n: nat)
    ensures (k + 1) * n == k * n + n
  {
  }

  lemma DivModAgain(a: nat, b: nat)
    requires b > 0
    ensures a == (a / b) * b + a % b
  {
  }

  /** The only multiple of `n` strictly between -n and n is zero. */
  lemma SmallMultiple(n: int, m: int, r: int)
    requires n > 0 && n * m == r && -n < r < n
    ensures m == 0 && r == 0
  {
  }

  lemma RemainderOf(a: nat, n: nat, r: nat)
    requires r < n
    ensures (a * n + r) % n == r
  {
    var x := a * n + r;
    DivModAgain(x, n);
    SmallMultiple(n, x / n - a, r - x % n);
  }

  lemma QuotientIs(x: nat, n: nat, q: nat)
    requires q * n <= x < q * n + n
    ensures x / n == q
  {
    DivModAgain(x, n);
    SmallMultiple(n, x / n - q, x - q * n - x % n);
  }
}
