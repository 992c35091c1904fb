/** Python's integer operators that differ from Dafny's: bitwise exclusive or
    on non-negative integers, and floor division and modulo. */
module Bits {

  /** `a ^ b` on non-negative integers, one bit at a time from the lowest. */
  function Xor(a: nat, b: nat): nat
    decreases a + b
  {
    if a == 0 && b == 0 then 0
    else 2 * Xor(a / 2, b / 2) + (if a % 2 == b % 2 then 0 else 1)
  }

  lemma {:induction false} XorZero(a: nat)
    ensures Xor(a, 0) == a
    decreases a
  {
    if a != 0 { XorZero(a / 2); }
  }

  lemma {:induction false} XorCommutes(a: nat, b: nat)
    ensures Xor(a, b) == Xor(b, a)
    decreases a + b
  {
    if a != 0 || b != 0 { XorCommutes(a / 2, b / 2); }
  }

  /** Applying the same key twice gives the value back. */
  lemma {:induction false} XorCancels(a: nat, b: nat)
    ensures Xor(Xor(a, b), b) == a
    decreases a + b
  {
    if a != 0 || b != 0 {
      var x := Xor(a, b);
      XorCancels(a / 2, b / 2);
      assert x / 2 == Xor(a / 2, b / 2);
      assert x % 2 == (if a % 2 == b % 2 then 0 else 1);
    }
  }

  lemma XorInjective(a: nat, a': nat, b: nat)
    requires Xor(a, b) == Xor(a', b)
    ensures a == a'
  {
    XorCancels(a, b);
    XorCancels(a', b);
  }

  function Pow2(k: nat): (r: nat)
    ensures r >= 1
  {
    if k == 0 then 1 else 2 * Pow2(k - 1)
  }

  /** Exclusive or of two k-bit numbers is a k-bit number. */
  lemma {:induction false} XorBound(a: nat, b: nat, k: nat)
    requires a < Pow2(k) && b < Pow2(k)
    ensures Xor(a, b) < Pow2(k)
    decreases k
  {
    if k > 0 && (a != 0 || b != 0) {
      XorBound(a / 2, b / 2, k - 1);
    }
  }

  lemma XorHalves(a: nat, b: nat)
    ensures Xor(a, b) / 2 == Xor(a / 2, b / 2)
    ensures Xor(a, b) % 2 == if a % 2 == b % 2 then 0 else 1
  {
  }

  lemma Split8(n: nat)
    ensures n / 8 == n / 2 / 2 / 2
    ensures n % 8 == 4 * (n / 2 / 2 % 2) + 2 * (n / 2 % 2) + n % 2
  {
  }

  lemma LowBits(n: nat)
    ensures n % 8 % 2 == n % 2 && n % 8 / 2 % 2 == n / 2 % 2 && n % 8 / 2 / 2 % 2 == n / 2 / 2 % 2
    ensures n % 8 / 2 / 2 / 2 == 0
  {
    var q, r := n / 8, n % 8;
    assert n == 8 * q + r;
    assert n / 2 == 4 * q + r / 2;
    assert n / 2 / 2 == 2 * q + r / 2 / 2;
  }

  /** Bits 3 and up of `a ^ b` come from bits 3 and up of the operands. */
  lemma XorHigh(a: nat, b: nat)
    ensures Xor(a, b) / 8 == Xor(a / 8, b / 8)
  {
    XorHalves(a, b);
    XorHalves(a / 2, b / 2);
    XorHalves(a / 2 / 2, b / 2 / 2);
    Split8(a); Split8(b); Split8(Xor(a, b));
  }

  /** Bits 0 to 2 of `a ^ b` come from bits 0 to 2 of the operands. */
  lemma XorLow(a: nat, b: nat)
    ensures Xor(a, b) % 8 == Xor(a % 8, b % 8)
  {
    var a', b' := a % 8, b % 8;
    XorHalves(a, b);
    XorHalves(a / 2, b / 2);
    XorHalves(a / 2 / 2, b / 2 / 2);
    XorHalves(a', b');
    XorHalves(a' / 2, b' / 2);
    XorHalves(a' / 2 / 2, b' / 2 / 2);
    Split8(Xor(a, b)); Split8(Xor(a', b'));
    LowBits(a); LowBits(b);
    assert Xor(a' / 2 / 2 / 2, b' / 2 / 2 / 2) == 0;
  }

  /** `v ^ kl` for a one-bit `kl`. */
  function FlipLow(v: int, kl: int): int
  {
    if kl == 0 then v else if v % 2 == 0 then v + 1 else v - 1
  }

  lemma XorLowBit(v: nat, kl: nat)
    requires kl < 2
    ensures Xor(v, kl) == FlipLow(v, kl)
  {
    if kl == 0 { XorZero(v); } else { XorZero(v / 2); }
  }

  /** Python's `~a`: the two's-complement bitwise not, `-a - 1`. */
  function Not(a: int): int
  {
    -a - 1
  }

  /** Python's `a ^ b` on arbitrary integers. A negative integer behaves as
      the complement of a natural number (an infinite run of 1 bits), so the
      result is negative exactly when one operand is. */
  function IntXor(a: int, b: int): (r: int)
    ensures r >= 0 <==> (a >= 0 <==> b >= 0)
    ensures a >= 0 && b >= 0 ==> r == Xor(a, b)
  {
    if a >= 0 && b >= 0 then Xor(a, b)
    else if a < 0 && b < 0 then Xor(Not(a), Not(b))
    else if a < 0 then Not(Xor(Not(a), b))
    else Not(Xor(a, Not(b)))
  }

  /** Applying the same integer key twice gives the value back, for operands
      of either sign. */
  lemma IntXorCancels(a: int, b: int)
    ensures IntXor(IntXor(a, b), b) == a
  {
    if a >= 0 && b >= 0 {
      XorCancels(a, b);
    } else if a < 0 && b < 0 {
      XorCancels(Not(a), Not(b));
    } else if a < 0 {
      XorCancels(Not(a), b);
    } else {
      XorCancels(a, Not(b));
    }
  }

  /** Python's `a % b`: the remainder takes the sign of the divisor. */
  function PyMod(a: int, b: int): (r: int)
    requires b != 0
    ensures b > 0 ==> 0 <= r < b
    ensures b < 0 ==> b < r <= 0
  {
    if b > 0 || a % b == 0 then a % b else a % b + b
  }

  /** Python's `a // b`: the quotient rounded toward negative infinity. */
  function PyFloorDiv(a: int, b: int): (q: int)
    requires b != 0
    ensures q * b + PyMod(a, b) == a
  {
    if b > 0 || a % b == 0 then a / b else a / b - 1
  }
}
