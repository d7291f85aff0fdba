/** Reduction modulo a positive number. */
module Modular {

  lemma Multiple(k: int, m: int)
    requires 0 < m
    ensures k >= 1 ==> k * m >= m
    ensures k <= -1 ==> k * m <= -m
  {
  }

  lemma WrapOnce(x: int, q: int, modulus: int)
    requires 0 < modulus && 0 <= x - q * modulus < modulus
    ensures x % modulus == x - q * modulus
  {
    var k := x / modulus - q;
    assert k * modulus == x - q * modulus - x % modulus;
    Multiple(k, modulus);
  }

  /** Multiples of the modulus do not matter. */
  lemma WrapShift(x: int, q: int, modulus: int)
    requires 0 < modulus
    ensures (x + q * modulus) % modulus == x % modulus
  {
    var k := x / modulus + q;
    assert (x + q * modulus) - k * modulus == x % modulus;
    WrapOnce(x + q * modulus, k, modulus);
  }

  lemma Wrap(x: int, modulus: int)
    requires 0 < modulus
    ensures 0 <= x < modulus ==> x % modulus == x
    ensures modulus <= x < 2 * modulus ==> x % modulus == x - modulus
    ensures -modulus <= x < 0 ==> x % modulus == x + modulus
  {
    if 0 <= x < modulus {
      WrapOnce(x, 0, modulus);
    } else if modulus <= x < 2 * modulus {
      WrapOnce(x, 1, modulus);
    } else if -modulus <= x < 0 {
      WrapOnce(x, -1, modulus);
    }
  }
}
