/** Facts about Euclidean division by a positive divisor, proved from linear
    steps so that the wrapping proofs need no non-linear reasoning. */
module Arith {

  lemma {:induction false} MulAtLeast(k: nat, w: nat)
    requires k >= 1
    ensures k * w >= w
  {
    if k > 1 {
      MulAtLeast(k - 1, w);
      assert k * w == (k - 1) * w + w;
    }
  }

  /** Quotient and remainder are determined by a == q * w + r, 0 <= r < w. */
  lemma DivUnique(a: int, w: int, q: int, r: int)
    requires w > 0 && 0 <= r < w && a == q * w + r
    ensures a / w == q && a % w == r
  {
    var q0, r0 := a / w, a % w;
    var k := q - q0;
    assert k * w == r0 - r by {
      assert k * w == q * w - q0 * w;
    }
    if k >= 1 {
      MulAtLeast(k, w);
      assert false;
    } else if k <= -1 {
      assert false;
    }
  }

  /** Below the divisor, the quotient is zero and the remainder is the number. */
  lemma DivSmall(x: nat, w: nat)
    requires x < w
    ensures x / w == 0 && x % w == x
  {
    DivUnique(x, w, 0, x);
  }

  /** Adding the divisor adds one to the quotient and keeps the remainder. */
  lemma DivStep(x: nat, w: nat)
    requires w > 0
    ensures (x + w) / w == x / w + 1 && (x + w) % w == x % w
  {
    DivUnique(x + w, w, x / w + 1, x % w);
  }
}
