/** Unsigned `std::size_t` arithmetic as the editor's C++ code performs it:
    addition and subtraction wrap around modulo 2^64 instead of growing past
    the largest value or going negative. */
module SizeT {

  /** 2^64, the number of distinct `std::size_t` values. */
  const MODULUS: int := 0x1_0000_0000_0000_0000

  /** A value that fits in a `std::size_t`. */
  predicate InRange(a: nat) { a < MODULUS }

  /** `a - b` on `std::size_t`. */
  function Sub(a: nat, b: nat): (r: nat)
    ensures InRange(r)
    ensures b <= a ==> r <= a - b
    ensures b <= a && InRange(a) ==> r == a - b
    ensures a < b && InRange(b) ==> r == MODULUS - (b - a)
  {
    (a - b) % MODULUS
  }

  /** `a + b` on `std::size_t`. */
  function Add(a: nat, b: nat): (r: nat)
    ensures InRange(r)
    ensures a + b < MODULUS ==> r == a + b
    ensures InRange(a) && InRange(b) && a + b >= MODULUS ==> r == a + b - MODULUS
  {
    (a + b) % MODULUS
  }

  /** Wrapping the running total and each step gives the wrapped sum: a total
      accumulated with `Add` is the exact total taken modulo 2^64. */
  lemma AddOfWrapped(total: nat, step: nat)
    ensures Add(total % MODULUS, step % MODULUS) == (total + step) % MODULUS
  {
    var q, p := total / MODULUS, step / MODULUS;
    assert total == q * MODULUS + total % MODULUS;
    assert step == p * MODULUS + step % MODULUS;
    assert total + step == (q + p) * MODULUS + (total % MODULUS + step % MODULUS);
  }

  /** One step of a wrapped running total: adding `x + 1` to the wrapped total. */
  lemma AddStep(total: nat, x: nat)
    ensures Add(total % MODULUS, Add(x, 1)) == (total + (x + 1)) % MODULUS
  {
    AddOfWrapped(total, x + 1);
  }
}
