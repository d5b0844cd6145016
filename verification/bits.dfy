/** Bitwise exclusive or on Python's non-negative integers.

    Python's `^` works on unbounded integers; the cipher applies it both to
    bytes and to a block index that may exceed 255.  `Xor` is defined bit by
    bit (least significant bit first) so that both uses are modelled exactly,
    and the lemmas below give the facts the cipher relies on: XOR with zero is
    the identity, XOR is self-inverse, it stays within `k` bits, and reducing
    modulo `2^k` commutes with it.
 */
module Bits {

  /** 2 raised to the power `k`. */
  function Pow2(k: nat): (r: nat)
    ensures r >= 1
  {
    if k == 0 then 1 else 2 * Pow2(k - 1)
  }

  /** Bitwise exclusive or of two non-negative integers. */
  function Xor(a: nat, b: nat): nat
    decreases a + b
  {
    if a == 0 && b == 0 then 0
    else 2 * Xor(a / 2, b / 2) + (if a % 2 == b % 2 then 0 else 1)
  }

  lemma Pow2Eight()
    ensures Pow2(8) == 256
  {
    assert Pow2(4) == 16;
  }

  /** Reading off the lowest bit and the remaining bits of a XOR. */
  lemma XorSplit(a: nat, b: nat)
    ensures Xor(a, b) % 2 == (if a % 2 == b % 2 then 0 else 1)
    ensures Xor(a, b) / 2 == Xor(a / 2, b / 2)
  {
  }

  lemma {:induction false} XorZero(a: nat)
    ensures Xor(a, 0) == a
    ensures Xor(0, a) == a
    decreases a
  {
    if a != 0 {
      XorZero(a / 2);
    }
  }

  /** XOR with the same value twice gives back the original value. */
  lemma {:induction false} XorSelfInverse(a: nat, b: nat)
    ensures Xor(Xor(a, b), b) == a
    decreases a + b
  {
    if a != 0 || b != 0 {
      var c := Xor(a, b);
      XorSplit(a, b);
      XorSelfInverse(a / 2, b / 2);
      if c == 0 && b == 0 {
        XorZero(a / 2);
      } else {
        XorSplit(c, b);
      }
    }
  }

  /** Two values of at most `k` bits have a XOR of at most `k` bits. */
  lemma {:induction false} XorBound(a: nat, b: nat, k: nat)
    requires a < Pow2(k) && b < Pow2(k)
    ensures Xor(a, b) < Pow2(k)
    decreases k
  {
    if k == 0 {
      assert a == 0 && b == 0;
    } else if a != 0 || b != 0 {
      XorBound(a / 2, b / 2, k - 1);
    }
  }

  /** The byte case of `XorBound`. */
  lemma XorByte(a: nat, b: nat)
    requires a < 256 && b < 256
    ensures Xor(a, b) < 256
  {
    Pow2Eight();
    XorBound(a, b, 8);
  }

  lemma {:induction false} MulAtLeast(d: nat, n: nat)
    requires n >= 1
    ensures d * n >= d
  {
    if n > 1 {
      MulAtLeast(d, n - 1);
      assert d * n == d * (n - 1) + d;
    }
  }

  /** Multiplying by a non-negative factor keeps the order. */
  lemma MulMonotone(c: nat, x: nat, y: nat)
    requires x <= y
    ensures c * x <= c * y
  {
    assert c * y == c * x + c * (y - x);
  }

  /** A multiple of `d` leaves no remainder. */
  lemma MulMod(d: int, n: int)
    requires d > 0
    ensures (d * n) % d == 0 && (d * n) / d == n
  {
    ModUnique(d * n, d, n, 0);
  }

  /** Quotient and remainder are the only pair that reconstructs `x`. */
  lemma ModUnique(x: int, d: int, q: int, r: int)
    requires d > 0 && 0 <= r < d && x == d * q + r
    ensures x % d == r && x / d == q
  {
    var q0, r0 := x / d, x % d;
    assert d * q0 + r0 == d * q + r;
    if q0 > q {
      MulAtLeast(d, q0 - q);
      assert false;
    } else if q0 < q {
      MulAtLeast(d, q - q0);
      assert false;
    }
  }

  /** Reducing modulo `2m` keeps the lowest bit and reduces the rest modulo `m`. */
  lemma ModDouble(x: nat, m: nat)
    requires m > 0
    ensures x % (2 * m) == 2 * ((x / 2) % m) + x % 2
  {
    var q, r := x / (2 * m), x % (2 * m);
    assert x == 2 * (m * q) + r;
    assert x / 2 == m * q + r / 2;
    ModUnique(x / 2, m, q, r / 2);
  }

  /** The low `k` bits of a XOR are the XOR of the low `k` bits. */
  lemma {:induction false} XorLowBits(a: nat, b: nat, k: nat)
    ensures Xor(a, b) % Pow2(k) == Xor(a % Pow2(k), b % Pow2(k))
    decreases k
  {
    if k > 0 {
      var m := Pow2(k - 1);
      var a', b' := a % Pow2(k), b % Pow2(k);
      ModDouble(a, m);
      ModDouble(b, m);
      ModDouble(Xor(a, b), m);
      XorSplit(a, b);
      XorSplit(a', b');
      XorLowBits(a / 2, b / 2, k - 1);
      assert a' / 2 == (a / 2) % m && a' % 2 == a % 2;
      assert b' / 2 == (b / 2) % m && b' % 2 == b % 2;
    }
  }
}
