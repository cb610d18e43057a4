/** Bytes, and the multiplication, division and remainder facts the models share. */
module Arith {

  type byte = b: int | 0 <= b < 256

  /** A word or a long word from its bytes, lowest first. */
  function Word(b0: int, b1: int): int {
    b0 + 256 * b1
  }

  function Long(b0: int, b1: int, b2: int, b3: int): int {
    b0 + 256 * b1 + 0x1_0000 * b2 + 0x100_0000 * b3
  }

  lemma MulMono(a: nat, b: nat, s: nat)
    requires a <= b
    ensures a * s <= b * s
  {
  }

  lemma MulStep(a: int, s: int)
    ensures (a + 1) * s == a * s + s
  {
  }

  /** The quotient and remainder of a number are the only such pair. */
  lemma DivModUnique(n: int, d: int, q: int, r: int)
    requires d > 0 && n == q * d + r && 0 <= r < d
    ensures n / d == q && n % d == r
  {
    var q', r' := n / d, n % d;
    assert n == q' * d + r';
    if q' > q {
      MulMonoInt(q + 1, q', d);
      MulStep(q, d);
    } else if q' < q {
      MulMonoInt(q' + 1, q, d);
      MulStep(q', d);
    }
  }

  lemma MulMonoInt(a: int, b: int, s: int)
    requires a <= b && s >= 0
    ensures a * s <= b * s
  {
    assert (b - a) * s == b * s - a * s;
  }

  lemma Distribute(a: int, b: int, c: int)
    ensures (a + b) * c == a * c + b * c
  {
  }

  lemma Commute(a: int, b: int)
    ensures a * b == b * a
  {
  }

  lemma Reassociate(a: int, b: int, c: int)
    ensures a * (b * c) == a * b * c
  {
  }

  /** A number in terms of its quotient and remainder. */
  lemma IntParts(n: nat, s: nat)
    requires s > 0
    ensures n == n / s * s + n % s && n % s < s && n / s * s <= n
  {
  }
}
