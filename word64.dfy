/** Unsigned 64-bit machine words (the kernel's `unsigned long` on a 64-bit
    target) and the wrap-around arithmetic the module relies on. */
module Word64 {

  /** 2^64: every `unsigned long` operation is taken modulo this. */
  const TWO_64: int := 0x1_0000_0000_0000_0000

  /** An `unsigned long` value. */
  type U64 = x: int | 0 <= x < 0x1_0000_0000_0000_0000

  /** Reducing before an addition changes nothing modulo 2^64, so a running
      sum kept in an `unsigned long` is the true sum taken modulo 2^64. */
  lemma AddModAbsorbs(x: nat, v: nat)
    ensures (x % TWO_64 + v) % TWO_64 == (x + v) % TWO_64
  {
    var q, r := x / TWO_64, x % TWO_64;
    assert x == q * TWO_64 + r;
    ModAddMultiple(r + v, q);
  }

  /** Adding a whole number of moduli leaves the remainder unchanged. */
  lemma {:induction false} ModAddMultiple(y: nat, q: nat)
    ensures (y + q * TWO_64) % TWO_64 == y % TWO_64
    decreases q
  {
    if q > 0 {
      calc {
        (y + q * TWO_64) % TWO_64;
        ((y + (q - 1) * TWO_64) + TWO_64) % TWO_64;
        (y + (q - 1) * TWO_64) % TWO_64;
        { ModAddMultiple(y, q - 1); }
        y % TWO_64;
      }
    }
  }

  /** `a / c` is at least `b` whenever `a` is at least `b * c`. */
  lemma DivAtLeast(a: nat, b: nat, c: nat)
    requires 0 < c && b * c <= a
    ensures a / c >= b
  {
    var q, r := a / c, a % c;
    assert a == q * c + r && r < c;
    if q < b {
      assert (q + 1) * c == q * c + c;
      MulMonotone(q + 1, b, c);
      assert false;
    }
  }

  /** Multiplying by a natural number keeps an order. */
  lemma MulMonotone(x: nat, y: nat, c: nat)
    requires x <= y
    ensures x * c <= y * c
  {
    assert y * c == x * c + (y - x) * c;
  }
}
