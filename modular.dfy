// Arithmetic modulo 26, the size of the alphabet the Hill cipher works over.
// Dafny's `%` with the positive modulus 26 agrees with Python's and numpy's.

module Modular {

  /** a and b leave the same remainder modulo 26. */
  predicate Cong(a: int, b: int) { a % 26 == b % 26 }

  /** Adding a multiple of 26 does not change the remainder. */
  lemma Shift(x: int, k: int)
    ensures (x + 26 * k) % 26 == x % 26
  {
  }

  lemma Reduce(a: int)
    ensures Cong(a % 26, a)
  {
  }

  lemma CongAdd(a: int, b: int, c: int, d: int)
    requires Cong(a, b) && Cong(c, d)
    ensures Cong(a + c, b + d)
  {
  }

  lemma CongAdd3(a: int, b: int, c: int, a': int, b': int, c': int)
    requires Cong(a, a') && Cong(b, b') && Cong(c, c')
    ensures Cong(a + b + c, a' + b' + c')
  {
    CongAdd(a, a', b, b');
    CongAdd(a + b, a' + b', c, c');
  }

  /** A product's remainder depends only on its factors' remainders. */
  lemma CongMul(a: int, b: int, c: int, d: int)
    requires Cong(a, b) && Cong(c, d)
    ensures Cong(a * c, b * d)
  {
    var r, s := a % 26, c % 26;
    var qa, qb, qc, qd := a / 26, b / 26, c / 26, d / 26;
    assert a == 26 * qa + r && b == 26 * qb + r;
    assert c == 26 * qc + s && d == 26 * qd + s;
    var x := qa * c + r * qc;
    var y := qb * d + r * qd;
    assert a * c == r * s + 26 * x;
    assert b * d == r * s + 26 * y;
    Shift(r * s, x);
    Shift(r * s, y);
  }

  /** Dot products of three terms respect congruence of every factor. */
  lemma CongDot(a0: int, a1: int, a2: int, b0: int, b1: int, b2: int,
                c0: int, c1: int, c2: int, d0: int, d1: int, d2: int)
    requires Cong(a0, b0) && Cong(a1, b1) && Cong(a2, b2)
    requires Cong(c0, d0) && Cong(c1, d1) && Cong(c2, d2)
    ensures Cong(a0 * c0 + a1 * c1 + a2 * c2, b0 * d0 + b1 * d1 + b2 * d2)
  {
    CongMul(a0, b0, c0, d0);
    CongMul(a1, b1, c1, d1);
    CongMul(a2, b2, c2, d2);
    CongAdd3(a0 * c0, a1 * c1, a2 * c2, b0 * d0, b1 * d1, b2 * d2);
  }

  lemma CongScale(k: int, c: int, d: int)
    requires Cong(c, d)
    ensures Cong(k * c, k * d)
  {
    CongMul(k, k, c, d);
  }
}
