// The Hill cipher's receiving side: the key matrix is inverted modulo 26
// through its determinant and adjugate, and every block of three ciphertext
// letters is multiplied by that inverse.

module HillClient {
  import opened Ascii
  import opened Bits
  import opened Modular
  import opened HillServer

  // ---------------------------------------------------------------------------
  // eeuclid, as written
  // ---------------------------------------------------------------------------

  /** How a run of `eeuclid` ends within a bounded number of loop passes. */
  datatype Outcome = Returned(x: int, y: int) | ZeroDivision | OutOfFuel

  /**
   * `eeuclid` as written: the loop never reassigns r1 or r2, so the remainder
   * it tests is the same on every pass. `fuel` bounds the number of passes;
   * OutOfFuel for every fuel means the source loops forever.
   */
  method Eeuclid(a: int, b: int, fuel: nat) returns (out: Outcome)
    ensures fuel == 0 ==> out == OutOfFuel
    ensures fuel > 0 && b == 0 ==> out == ZeroDivision
    ensures fuel > 0 && b != 0 && PyMod(a, b) == 0 ==> out == Returned(0, 1)
    ensures fuel > 0 && b < 0 && PyMod(a, b) != 0 ==> out == Returned(1, -PyFloorDiv(a, b))
    ensures b > 0 && PyMod(a, b) != 0 ==> out == OutOfFuel
  {
    var r1, r2 := a, b;
    var ri, qi := 1, 0;
    var x1, y1 := 1, 0;
    var x2, y2 := 0, 1;
    var xi, yi := 0, 0;
    var steps := 0;
    while ri > 0
      invariant steps <= fuel
      invariant steps == 0 ==> ri == 1 && x1 == 1 && y1 == 0 && x2 == 0 && y2 == 1
      invariant steps > 0 ==> b != 0 && ri == PyMod(a, b) && ri != 0
      invariant steps > 0 && ri < 0 ==> x2 == 1 && y2 == -PyFloorDiv(a, b)
      decreases fuel - steps
    {
      if steps == fuel {
        return OutOfFuel;
      }
      steps := steps + 1;
      if r2 == 0 {
        return ZeroDivision;
      }
      qi := PyFloorDiv(r1, r2);
      ri := PyMod(r1, r2);
      if ri == 0 {
        break;
      }
      xi := x1 - x2 * qi;
      yi := y1 - y2 * qi;
      x1, y1 := x2, y2;
      x2, y2 := xi, yi;
    }
    return Returned(x2, y2);
  }

  // ---------------------------------------------------------------------------
  // eeuclid, corrected
  // ---------------------------------------------------------------------------

  /** Euclid's greatest common divisor. */
  function Gcd(a: nat, b: nat): nat
    decreases b
  {
    if b == 0 then a else Gcd(b, a % b)
  }

  ghost predicate Divides(d: int, n: int)
  {
    exists m :: n == d * m
  }

  /** Gcd(a, b) divides both a and b. */
  lemma {:induction false} GcdDivides(a: nat, b: nat)
    ensures Divides(Gcd(a, b), a) && Divides(Gcd(a, b), b)
    decreases b
  {
    var g := Gcd(a, b);
    if b == 0 {
      assert a == g * 1 && b == g * 0;
    } else {
      GcdDivides(b, a % b);
      var s :| b == g * s;
      var t :| a % b == g * t;
      var q := a / b;
      assert a == b * q + a % b;
      assert a == g * (s * q + t);
    }
  }

  /** Every common divisor of a and b divides Gcd(a, b). */
  lemma {:induction false} GcdGreatest(a: nat, b: nat, d: int)
    requires Divides(d, a) && Divides(d, b)
    ensures Divides(d, Gcd(a, b))
    decreases b
  {
    if b != 0 {
      var s :| a == d * s;
      var t :| b == d * t;
      var q := a / b;
      assert a % b == a - b * q;
      assert a % b == d * (s - t * q);
      GcdGreatest(b, a % b, d);
    }
  }

  /**
   * `eeuclid` with the update it lacks (r1, r2 = r2, ri): the returned
   * coefficients satisfy Bezout's identity a·x + b·y == gcd(a, b).
   */
  method ExtendedEuclid(a: nat, b: nat) returns (x: int, y: int)
    requires b > 0
    ensures a * x + b * y == Gcd(a, b)
  {
    var r1: nat, r2: nat := a, b;
    var ri, qi := 1, 0;
    var x1, y1 := 1, 0;
    var x2, y2 := 0, 1;
    var xi, yi := 0, 0;
    while ri > 0
      invariant r2 > 0 && ri > 0
      invariant Gcd(r1, r2) == Gcd(a, b)
      invariant a * x1 + b * y1 == r1 && a * x2 + b * y2 == r2
      decreases r2
    {
      qi := r1 / r2;
      ri := r1 % r2;
      if ri == 0 {
        break;
      }
      xi := x1 - x2 * qi;
      yi := y1 - y2 * qi;
      BezoutStep(a, b, x1, y1, x2, y2, qi);
      assert r1 == r2 * qi + ri;
      x1, y1 := x2, y2;
      x2, y2 := xi, yi;
      r1, r2 := r2, ri;
    }
    assert Gcd(r1, r2) == Gcd(r2, 0) == r2;
    return x2, y2;
  }

  lemma BezoutStep(a: int, b: int, x1: int, y1: int, x2: int, y2: int, q: int)
    ensures a * (x1 - x2 * q) + b * (y1 - y2 * q) == (a * x1 + b * y1) - q * (a * x2 + b * y2)
  {
  }

  // ---------------------------------------------------------------------------
  // determinant and adjugate
  // ---------------------------------------------------------------------------

  /** The exact determinant of a 3×3 integer matrix, by cofactors of row 0. */
  function Det3(k: Matrix): int
    requires Is3x3(k)
  {
    k[0][0] * (k[1][1] * k[2][2] - k[1][2] * k[2][1])
    - k[0][1] * (k[1][0] * k[2][2] - k[1][2] * k[2][0])
    + k[0][2] * (k[1][0] * k[2][1] - k[1][1] * k[2][0])
  }

  /** The adjugate: the transpose of the matrix of cofactors. */
  function Adjugate(k: Matrix): (adj: Matrix)
    requires Is3x3(k)
    ensures Is3x3(adj)
  {
    [ [k[1][1] * k[2][2] - k[1][2] * k[2][1],
       k[0][2] * k[2][1] - k[0][1] * k[2][2],
       k[0][1] * k[1][2] - k[0][2] * k[1][1]],
      [k[1][2] * k[2][0] - k[1][0] * k[2][2],
       k[0][0] * k[2][2] - k[0][2] * k[2][0],
       k[0][2] * k[1][0] - k[0][0] * k[1][2]],
      [k[1][0] * k[2][1] - k[1][1] * k[2][0],
       k[0][1] * k[2][0] - k[0][0] * k[2][1],
       k[0][0] * k[1][1] - k[0][1] * k[1][0]] ]
  }

  /** K · adj(K) == det(K) · I: row i of K times column j of the adjugate. */
  lemma AdjugateIdentity(k: Matrix, i: nat, j: nat)
    requires Is3x3(k) && i < 3 && j < 3
    ensures Combine(k[i], Adjugate(k), j) == if i == j then Det3(k) else 0
  {
    var a, b, c := k[0][0], k[0][1], k[0][2];
    var d, e, f := k[1][0], k[1][1], k[1][2];
    var g, h, l := k[2][0], k[2][1], k[2][2];
    if i == 0 {
      CofactorsRow0(a, b, c, d, e, f, g, h, l);
    } else if i == 1 {
      CofactorsRow1(a, b, c, d, e, f, g, h, l);
    } else {
      CofactorsRow2(a, b, c, d, e, f, g, h, l);
    }
  }

  // Row 0, 1 or 2 of K = [[a,b,c],[d,e,f],[g,h,l]] times the three columns
  // of adj(K); the right-hand side det is Det3(K).

  lemma CofactorsRow0(a: int, b: int, c: int, d: int, e: int, f: int, g: int, h: int, l: int)
    ensures a * (e * l - f * h) + b * (f * g - d * l) + c * (d * h - e * g)
         == a * (e * l - f * h) - b * (d * l - f * g) + c * (d * h - e * g)
    ensures a * (c * h - b * l) + b * (a * l - c * g) + c * (b * g - a * h) == 0
    ensures a * (b * f - c * e) + b * (c * d - a * f) + c * (a * e - b * d) == 0
  {
  }

  lemma CofactorsRow1(a: int, b: int, c: int, d: int, e: int, f: int, g: int, h: int, l: int)
    ensures d * (e * l - f * h) + e * (f * g - d * l) + f * (d * h - e * g) == 0
    ensures d * (c * h - b * l) + e * (a * l - c * g) + f * (b * g - a * h)
         == a * (e * l - f * h) - b * (d * l - f * g) + c * (d * h - e * g)
    ensures d * (b * f - c * e) + e * (c * d - a * f) + f * (a * e - b * d) == 0
  {
  }

  lemma CofactorsRow2(a: int, b: int, c: int, d: int, e: int, f: int, g: int, h: int, l: int)
    ensures g * (e * l - f * h) + h * (f * g - d * l) + l * (d * h - e * g) == 0
    ensures g * (c * h - b * l) + h * (a * l - c * g) + l * (b * g - a * h) == 0
    ensures g * (b * f - c * e) + h * (c * d - a * f) + l * (a * e - b * d)
         == a * (e * l - f * h) - b * (d * l - f * g) + c * (d * h - e * g)
  {
  }

  // ---------------------------------------------------------------------------
  // inverse of the determinant modulo 26
  // ---------------------------------------------------------------------------

  /** d has an inverse modulo 26: it shares no factor with 26 = 2·13. */
  predicate IsUnit(d: int)
  {
    d % 2 == 1 && d % 13 != 0
  }

  /** The search of `decrypt` from i up to 25: the first inverse of det, or det. */
  function SearchFrom(det: int, i: nat): (r: int)
    requires i >= 1
    ensures (r == det && forall j :: i <= j < 26 ==> (det * j) % 26 != 1)
         || (i <= r < 26 && (det * r) % 26 == 1 && forall j :: i <= j < r ==> (det * j) % 26 != 1)
    decreases 26 - i
  {
    if i >= 26 then det
    else if (det * i) % 26 == 1 then i
    else SearchFrom(det, i + 1)
  }

  /** The value `inv` takes in `decrypt`. */
  function ModInverse(det: int): int
  {
    SearchFrom(det, 1)
  }

  /** The search loop of `decrypt`: `inv` starts as det and takes the first inverse found. */
  method InverseSearch(det: int) returns (inv: int)
    ensures inv == ModInverse(det)
  {
    inv := det;
    for i := 1 to 26
      invariant inv == det && SearchFrom(det, i) == ModInverse(det)
    {
      if (det * i) % 26 == 1 {
        inv := i;
        break;
      }
    }
  }

  lemma UnitHasInverse(d: int)
    requires 0 < d < 26 && IsUnit(d)
    ensures exists j :: 1 <= j < 26 && (d * j) % 26 == 1
  {
    if d == 1 { assert (d * 1) % 26 == 1; }
    else if d == 3 { assert (d * 9) % 26 == 1; }
    else if d == 5 { assert (d * 21) % 26 == 1; }
    else if d == 7 { assert (d * 15) % 26 == 1; }
    else if d == 9 { assert (d * 3) % 26 == 1; }
    else if d == 11 { assert (d * 19) % 26 == 1; }
    else if d == 15 { assert (d * 7) % 26 == 1; }
    else if d == 17 { assert (d * 23) % 26 == 1; }
    else if d == 19 { assert (d * 11) % 26 == 1; }
    else if d == 21 { assert (d * 5) % 26 == 1; }
    else if d == 23 { assert (d * 17) % 26 == 1; }
    else { assert d == 25 && (d * 25) % 26 == 1; }
  }

  /**
   * For a determinant coprime with 26 the search finds its inverse, and it is
   * the only inverse in 1..25.
   */
  lemma InverseOfUnit(d: int)
    requires 0 < d < 26 && IsUnit(d)
    ensures 1 <= ModInverse(d) < 26 && (d * ModInverse(d)) % 26 == 1
    ensures forall j :: 1 <= j < 26 && (d * j) % 26 == 1 ==> j == ModInverse(d)
  {
    UnitHasInverse(d);
    var r := ModInverse(d);
    forall j | 1 <= j < 26 && (d * j) % 26 == 1
      ensures j == r
    {
      InverseUnique(d, r, j);
    }
  }

  /** Two inverses of d in 1..25 coincide: j ≡ j·(d·r) == r·(d·j) ≡ r. */
  lemma InverseUnique(d: int, r: int, j: int)
    requires 1 <= r < 26 && 1 <= j < 26
    requires (d * r) % 26 == 1 && (d * j) % 26 == 1
    ensures j == r
  {
    var x, y := d * r, d * j;
    CongScale(j, x, 1);
    CongScale(r, y, 1);
    MulSwap(d, r, j);
  }

  lemma MulSwap(d: int, r: int, j: int)
    ensures j * (d * r) == r * (d * j)
  {
  }

  /**
   * A determinant that is even or a multiple of 13 has no inverse, and `inv`
   * keeps the value det.
   */
  lemma InverseOfNonUnit(d: int)
    requires !IsUnit(d)
    ensures forall j :: (d * j) % 26 != 1
    ensures ModInverse(d) == d
  {
    forall j
      ensures (d * j) % 26 != 1
    {
      if d % 2 == 0 {
        var m := d / 2;
        assert d * j == 2 * (m * j);
      } else {
        var m := d / 13;
        assert d * j == 13 * (m * j);
      }
    }
  }

  // ---------------------------------------------------------------------------
  // decrypt
  // ---------------------------------------------------------------------------

  const NotInvertible: string := "Error: Key not invertible"

  /** `adj(K) · inv % 26`, entry by entry. */
  function InverseKey(k: Matrix, inv: int): (m: Matrix)
    requires Is3x3(k)
    ensures Is3x3(m) && forall r, c :: 0 <= r < 3 && 0 <= c < 3 ==> 0 <= m[r][c] < 26
  {
    seq(3, r requires 0 <= r < 3 => seq(3, c requires 0 <= c < 3 => Adjugate(k)[r][c] * inv % 26))
  }

  /** The determinant of the key matrix reduced modulo 26, as `decrypt` computes it. */
  function KeyDet(key: string): int
    requires 7 <= |key| <= 9
  {
    Det3(KeyMatrix(key)) % 26
  }

  /** Specification of `decrypt`. */
  function Deciphered(ciphertxt: string, key: string): (p: string)
    requires 7 <= |key| <= 9
    requires KeyDet(key) == 0 || |ciphertxt| % 3 == 0
  {
    if KeyDet(key) == 0 then NotInvertible
    else Transform(Numbers(LowerString(ciphertxt)), InverseKey(KeyMatrix(key), ModInverse(KeyDet(key))))
  }

  /**
   * A zero determinant gives the error text; any other determinant, unit or
   * not, gives lowercase text as long as the ciphertext, never the error.
   */
  lemma DecipheredShape(ciphertxt: string, key: string)
    requires 7 <= |key| <= 9
    requires KeyDet(key) == 0 || |ciphertxt| % 3 == 0
    ensures KeyDet(key) == 0 <==> Deciphered(ciphertxt, key) == NotInvertible
    ensures KeyDet(key) != 0 ==> |Deciphered(ciphertxt, key)| == |ciphertxt| && AllLower(Deciphered(ciphertxt, key))
  {
    assert |NotInvertible| == 25;
  }

  /** `decrypt`. */
  method Decrypt(ciphertxt: string, key: string) returns (plaintxt: string)
    requires 7 <= |key| <= 9
    requires KeyDet(key) == 0 || |ciphertxt| % 3 == 0
    ensures plaintxt == Deciphered(ciphertxt, key)
  {
    var k := Matricize(key);
    var det := Det3(k) % 26;
    if det == 0 {
      return NotInvertible;
    }
    var inv := InverseSearch(det);
    var kInv := InverseKey(k, inv);
    var chars := LowerString(ciphertxt);
    var nums: seq<int> := [];
    for i := 0 to |chars|
      invariant nums == Numbers(chars[..i])
    {
      nums := nums + [Residue(chars[i], 'a')];
    }
    assert chars[..|chars|] == chars;
    plaintxt := MultiplyBlocks(nums, kInv);
  }

  // ---------------------------------------------------------------------------
  // round trip
  // ---------------------------------------------------------------------------

  /** m is an inverse of k modulo 26: k · m ≡ I. */
  predicate InverseMod(k: Matrix, m: Matrix)
    requires Is3x3(k) && Is3x3(m)
  {
    forall i, j :: 0 <= i < 3 && 0 <= j < 3 ==> Cong(Combine(k[i], m, j), if i == j then 1 else 0)
  }

  /**
   * One entry of K · (adj(K)·inv % 26): a row of K times a column of the
   * adjugate is delta·D, and inv inverts D modulo 26.
   */
  lemma EntryInverse(k0: int, k1: int, k2: int, a0: int, a1: int, a2: int,
                     inv: int, bigD: int, delta: int)
    requires k0 * a0 + k1 * a1 + k2 * a2 == delta * bigD
    requires ((bigD % 26) * inv) % 26 == 1
    ensures Cong(k0 * (a0 * inv % 26) + k1 * (a1 * inv % 26) + k2 * (a2 * inv % 26), delta)
  {
    Reduce(a0 * inv);
    Reduce(a1 * inv);
    Reduce(a2 * inv);
    CongDot(k0, k1, k2, k0, k1, k2, a0 * inv % 26, a1 * inv % 26, a2 * inv % 26, a0 * inv, a1 * inv, a2 * inv);
    assert k0 * (a0 * inv) + k1 * (a1 * inv) + k2 * (a2 * inv) == delta * (bigD * inv);
    Reduce(bigD);
    CongMul(bigD, bigD % 26, inv, inv);
    CongScale(delta, bigD * inv, (bigD % 26) * inv);
    CongScale(delta, (bigD % 26) * inv, 1);
  }

  /** With a unit determinant, adj(K)·inv % 26 is an inverse of K modulo 26. */
  lemma KeyInverse(k: Matrix)
    requires Is3x3(k) && IsUnit(Det3(k) % 26)
    ensures InverseMod(k, InverseKey(k, ModInverse(Det3(k) % 26)))
  {
    var det := Det3(k) % 26;
    var inv := ModInverse(det);
    InverseOfUnit(det);
    var adj := Adjugate(k);
    var m := InverseKey(k, inv);
    forall i, j | 0 <= i < 3 && 0 <= j < 3
      ensures Cong(Combine(k[i], m, j), if i == j then 1 else 0)
    {
      AdjugateIdentity(k, i, j);
      var delta := if i == j then 1 else 0;
      assert Combine(k[i], adj, j) == delta * Det3(k);
      EntryInverse(k[i][0], k[i][1], k[i][2], adj[0][j], adj[1][j], adj[2][j], inv, Det3(k), delta);
    }
  }

  /** (v·k)·m == v·(k·m), written out for a row vector. */
  lemma Associate(v: seq<int>, k: Matrix, m: Matrix, j: nat)
    requires |v| == 3 && Is3x3(k) && Is3x3(m) && j < 3
    ensures Combine([Combine(v, k, 0), Combine(v, k, 1), Combine(v, k, 2)], m, j)
         == v[0] * Combine(k[0], m, j) + v[1] * Combine(k[1], m, j) + v[2] * Combine(k[2], m, j)
  {
  }

  /** A block of residues in 0..25, encrypted with k and decrypted with m, comes back. */
  lemma BlockRoundTrip(v: seq<int>, k: Matrix, m: Matrix)
    requires |v| == 3 && forall j :: 0 <= j < 3 ==> 0 <= v[j] < 26
    requires Is3x3(k) && Is3x3(m) && InverseMod(k, m)
    ensures MulMod(MulMod(v, k), m) == v
  {
    var w := MulMod(v, k);
    var e := [Combine(v, k, 0), Combine(v, k, 1), Combine(v, k, 2)];
    forall j | 0 <= j < 3
      ensures MulMod(w, m)[j] == v[j]
    {
      BlockEntry(v, k, m, j);
    }
  }

  lemma BlockEntry(v: seq<int>, k: Matrix, m: Matrix, j: nat)
    requires |v| == 3 && forall j :: 0 <= j < 3 ==> 0 <= v[j] < 26
    requires Is3x3(k) && Is3x3(m) && InverseMod(k, m) && j < 3
    ensures Combine(MulMod(v, k), m, j) % 26 == v[j]
  {
    var w := MulMod(v, k);
    var e0, e1, e2 := Combine(v, k, 0), Combine(v, k, 1), Combine(v, k, 2);
    Reduce(e0);
    Reduce(e1);
    Reduce(e2);
    Associate(v, k, m, j);
    var x0, x1, x2 := Combine(k[0], m, j), Combine(k[1], m, j), Combine(k[2], m, j);
    var d0, d1, d2 := if j == 0 then 1 else 0, if j == 1 then 1 else 0, if j == 2 then 1 else 0;
    assert Cong(x0, d0) && Cong(x1, d1) && Cong(x2, d2);
    ReturnEntry(w[0], w[1], w[2], e0, e1, e2, m[0][j], m[1][j], m[2][j],
                v[0], v[1], v[2], x0, x1, x2, d0, d1, d2, v[j]);
  }

  /**
   * w ≡ e entry by entry, e·m == v·x exactly and x ≡ d entry by entry, so
   * w·m ≡ v·d; for a residue v·d this is the remainder of w·m.
   */
  lemma ReturnEntry(w0: int, w1: int, w2: int, e0: int, e1: int, e2: int,
                    m0: int, m1: int, m2: int, v0: int, v1: int, v2: int,
                    x0: int, x1: int, x2: int, d0: int, d1: int, d2: int, r: int)
    requires Cong(w0, e0) && Cong(w1, e1) && Cong(w2, e2)
    requires e0 * m0 + e1 * m1 + e2 * m2 == v0 * x0 + v1 * x1 + v2 * x2
    requires Cong(x0, d0) && Cong(x1, d1) && Cong(x2, d2)
    requires v0 * d0 + v1 * d1 + v2 * d2 == r && 0 <= r < 26
    ensures (w0 * m0 + w1 * m1 + w2 * m2) % 26 == r
  {
    CongDot(w0, w1, w2, e0, e1, e2, m0, m1, m2, m0, m1, m2);
    CongDot(v0, v1, v2, v0, v1, v2, x0, x1, x2, d0, d1, d2);
  }

  /** Decrypting with an inverse key undoes Transform on lowercase text. */
  lemma {:induction false} TransformInverse(s: string, k: Matrix, m: Matrix)
    requires AllLower(s) && |s| % 3 == 0
    requires Is3x3(k) && Is3x3(m) && InverseMod(k, m)
    ensures Transform(Numbers(Transform(Numbers(s), k)), m) == s
    decreases |s|
  {
    if s != [] {
      var v := Numbers(s)[..3];
      assert v == Numbers(s[..3]);
      assert Numbers(s)[3..] == Numbers(s[3..]);
      var c := Transform(Numbers(s), k);
      TransformCons(Numbers(s), k);
      assert Numbers(c) == MulMod(v, k) + Numbers(Transform(Numbers(s[3..]), k));
      BlockRoundTrip(v, k, m);
      TransformInverse(s[3..], k, m);
      assert Spell(MulMod(MulMod(v, k), m)) == s[..3];
      assert s == s[..3] + s[3..];
    }
  }

  /**
   * Round trip: for a plaintext of letters and a key whose determinant is a
   * unit modulo 26, decrypting the ciphertext gives the lowered plaintext
   * padded with 'x' to a multiple of 3.
   */
  lemma RoundTrip(plaintxt: string, key: string)
    requires AllAlpha(plaintxt) && 7 <= |key| <= 9 && IsUnit(KeyDet(key))
    ensures Deciphered(Enciphered(plaintxt, key), key) == Padded(plaintxt)
  {
    var c := Enciphered(plaintxt, key);
    assert LowerString(c) == c;
    var p := Padded(plaintxt);
    assert AllLower(p);
    KeyInverse(KeyMatrix(key));
    TransformInverse(p, KeyMatrix(key), InverseKey(KeyMatrix(key), ModInverse(KeyDet(key))));
  }

  /** The demonstration key "gybnqkurp" has determinant 441 ≡ 25, its own inverse. */
  lemma GybnqkurpInvertible(key: string)
    requires key == "gybnqkurp"
    ensures Det3(KeyMatrix(key)) == 441 && KeyDet(key) == 25 && IsUnit(KeyDet(key))
    ensures ModInverse(KeyDet(key)) == 25
  {
    GybnqkurpMatrix(key);
    InverseOfUnit(25);
  }

  /** Decrypting "byoojoopo" with "gybnqkurp" gives back "abcxyztuv". */
  lemma DecryptDemo(ciphertxt: string, key: string, plaintxt: string)
    requires ciphertxt == "byoojoopo" && key == "gybnqkurp" && plaintxt == "abcxyztuv"
    ensures Deciphered(ciphertxt, key) == plaintxt
  {
    EncryptDemo(plaintxt, key);
    GybnqkurpInvertible(key);
    RoundTrip(plaintxt, key);
    assert Padded(plaintxt) == plaintxt;
  }

  // ---------------------------------------------------------------------------
  // decrypt, corrected
  // ---------------------------------------------------------------------------

  /**
   * The non-unit key "cbbbcbbbc" (determinant 4) sends "nnn" and "aaa" to the
   * same ciphertext "aaa", and `decrypt` does not report an error: the round
   * trip of "nnn" gives "aaa".
   */
  lemma NonUnitCollision(key: string, p: string, q: string)
    requires key == "cbbbcbbbc" && p == "nnn" && q == "aaa"
    ensures KeyDet(key) == 4 && !IsUnit(KeyDet(key))
    ensures Enciphered(p, key) == q && Enciphered(q, key) == q
    ensures Deciphered(Enciphered(p, key), key) == q
  {
    var k := KeyMatrix(key);
    EvenKey(key);
    assert Padded(p) == p && Padded(q) == q;
    assert Numbers(p) == [13, 13, 13] && Numbers(q) == [0, 0, 0];
    ZeroBlock(Numbers(p), k);
    ZeroBlock(Numbers(q), k);
    assert LowerString(q) == q;
    ZeroBlock(Numbers(q), InverseKey(k, ModInverse(4)));
  }

  /** "cbbbcbbbc" becomes [[2,1,1],[1,2,1],[1,1,2]], of determinant 4. */
  lemma EvenKey(key: string)
    requires key == "cbbbcbbbc"
    ensures KeyMatrix(key) == [[2, 1, 1], [1, 2, 1], [1, 1, 2]] && KeyDet(key) == 4
  {
    var k := KeyMatrix(key);
    forall r, c | 0 <= r < 3 && 0 <= c < 3
      ensures k[r][c] == Residue(key[3 * r + c], 'a')
    {
      KeyMatrixAt(key, r, c);
    }
    assert k[0] == [2, 1, 1] && k[1] == [1, 2, 1] && k[2] == [1, 1, 2];
  }

  /** A block whose products all vanish modulo 26 encrypts to "aaa". */
  lemma ZeroBlock(v: seq<int>, k: Matrix)
    requires |v| == 3 && Is3x3(k) && MulMod(v, k) == [0, 0, 0]
    ensures Transform(v, k) == "aaa"
  {
    TransformOne(v, k);
  }

  /** `decrypt` with the check widened to every determinant without an inverse. */
  function CheckedDeciphered(ciphertxt: string, key: string): string
    requires 7 <= |key| <= 9 && (!IsUnit(KeyDet(key)) || |ciphertxt| % 3 == 0)
  {
    if !IsUnit(KeyDet(key)) then NotInvertible else Deciphered(ciphertxt, key)
  }

  /**
   * The corrected `decrypt` either reports a key without an inverse or
   * recovers the padded plaintext: it never returns wrong text.
   */
  lemma CheckedRoundTrip(plaintxt: string, key: string)
    requires AllAlpha(plaintxt) && 7 <= |key| <= 9
    ensures CheckedDeciphered(Enciphered(plaintxt, key), key)
         == if IsUnit(KeyDet(key)) then Padded(plaintxt) else NotInvertible
  {
    if IsUnit(KeyDet(key)) {
      RoundTrip(plaintxt, key);
    }
  }
}
