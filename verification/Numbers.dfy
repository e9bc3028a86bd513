/** Numbers of fixed width, powers of two, bitwise `or`, and division by a number that is not a constant. */
module Numbers {

  type Byte = x: int | 0 <= x < 0x100

  const W31 := 0x8000_0000
  const W32 := 0x1_0000_0000
  const W63 := 0x8000_0000_0000_0000
  const W64 := 0x1_0000_0000_0000_0000

  function Pow2(n: nat): (r: nat)
    ensures r >= 1
  {
    if n == 0 then 1 else 2 * Pow2(n - 1)
  }

  /** Bitwise or. */
  function Or(a: nat, b: nat): nat {
    if a == 0 then b else if b == 0 then a
    else 2 * Or(a / 2, b / 2) + (if a % 2 == 1 || b % 2 == 1 then 1 else 0)
  }

  lemma OrNothing(a: nat)
    ensures Or(a, 0) == a
  {}

  lemma OrStep(a: nat, e: nat, b: nat, f: nat)
    requires e < 2 && f < 2
    ensures Or(2 * a + e, 2 * b + f) == 2 * Or(a, b) + if e == 1 || f == 1 then 1 else 0
  {
    assert (2 * a + e) / 2 == a && (2 * b + f) / 2 == b;
  }

  /** The quotient and the remainder are the only numbers with their property. */
  lemma DivModUnique(x: nat, n: nat, q: nat, r: nat)
    requires n > 0 && r < n && x == q * n + r
    ensures x / n == q && x % n == r
  {
    var k := x / n;
    assert x == k * n + x % n;
    assert k < q ==> (k + 1) * n <= q * n;
    assert k > q ==> (q + 1) * n <= k * n;
  }

  lemma DivBounds(x: nat, n: nat)
    requires n > 0
    ensures x / n * n <= x < x / n * n + n
  {}

  lemma MulMonotone(a: nat, b: nat, n: nat)
    requires a <= b
    ensures a * n <= b * n
  {}

  lemma Pow2Zero()
    ensures Pow2(0) == 1
  {}

  lemma Pow2Four(n: nat)
    ensures Pow2(n + 4) == 16 * Pow2(n)
  {
    assert Pow2(n + 4) == 2 * Pow2(n + 3) == 4 * Pow2(n + 2) == 8 * Pow2(n + 1) == 16 * Pow2(n);
  }

  lemma Pow2Eight(n: nat)
    ensures Pow2(n + 8) == 256 * Pow2(n)
  {
    assert Pow2(n + 8) == 2 * Pow2(n + 7) == 4 * Pow2(n + 6) == 8 * Pow2(n + 5) == 16 * Pow2(n + 4);
    assert Pow2(n + 4) == 2 * Pow2(n + 3) == 4 * Pow2(n + 2) == 8 * Pow2(n + 1) == 16 * Pow2(n);
  }
}
