/** Unsigned 32-bit numbers, products and remainders. */
module Arithmetic {

  const TWO32 := 0x1_0000_0000

  type uint32 = x: nat | x < TWO32

  lemma MulMonotone(a: nat, b: nat, n: nat)
    requires a <= b
    ensures a * n <= b * n
  {
  }

  lemma MulAtLeast(n: nat, d: nat)
    requires d > 0
    ensures n * d >= n
  {
    assert n * d == n + n * (d - 1);
  }

  /** Quotient and remainder are unique. */
  lemma ModIs(x: int, n: nat, q: int, r: nat)
    requires n > 0 && x == n * q + r && r < n
    ensures x % n == r
  {
    var d := x / n - q;
    assert n * d == n * (x / n) - n * q;
    if d > 0 {
      MulAtLeast(n, d);
    } else if d < 0 {
      MulAtLeast(n, -d);
    }
  }

  /** x and y have the same remainder when they differ by a multiple of n. */
  lemma SameRemainder(x: int, y: int, n: nat, k: int)
    requires n > 0 && x == y + n * k
    ensures x % n == y % n
  {
    var q := y / n;
    assert n * (q + k) == n * q + n * k;
    ModIs(x, n, q + k, y % n);
  }

  /** Numbers with the same remainder differ by a multiple of n; of the same sign. */
  lemma Multiple(x: int, y: int, n: nat) returns (k: int)
    requires n > 0 && x % n == y % n
    ensures x == y + n * k
    ensures x >= y ==> k >= 0
  {
    k := x / n - y / n;
    assert n * k == n * (x / n) - n * (y / n);
    if k < 0 {
      MulAtLeast(n, -k);
    }
  }
}
