/** Vernam/server.py: the receiver's residue exclusive or, with a lowercase
    and an uppercase branch. */
module VernamServer {
  import opened Ascii
  import opened Bits
  import VernamClient

  /** What `decrypt` returns: the integer 0 on a length mismatch, else text. */
  datatype Reply = Zero | Text(s: string)

  /** A lowercase cipher character is read with base 'a' for both arguments,
      any other with base 'A'; the residues are non-negative only when the key
      character is a letter of the same case as the cipher character. */
  predicate CanDecryptAt(cipher: string, key: string, i: nat)
    requires i < |cipher| && i < |key|
  {
    (IsLower(cipher[i]) && IsLower(key[i])) || (IsUpper(cipher[i]) && IsUpper(key[i]))
  }

  predicate CanDecrypt(cipher: string, key: string)
  {
    |cipher| == |key| ==> forall i :: 0 <= i < |cipher| ==> CanDecryptAt(cipher, key, i)
  }

  /** The character `decrypt` appends at index `i`. */
  function PlainChar(cipher: string, key: string, i: nat): (r: char)
    requires i < |cipher| && i < |key| && CanDecryptAt(cipher, key, i)
    ensures IsLower(cipher[i]) ==> IsLower(r)
    ensures !IsLower(cipher[i]) ==> IsUpper(r)
  {
    if IsLower(cipher[i]) then Letter(Xor(Residue(cipher[i], 'a'), Residue(key[i], 'a')) % 26, 'a')
    else Letter(Xor(Residue(cipher[i], 'A'), Residue(key[i], 'A')) % 26, 'A')
  }

  /** The value `decrypt(cipher, key)` returns. */
  function Decrypted(cipher: string, key: string): (r: Reply)
    requires CanDecrypt(cipher, key)
    ensures r.Zero? <==> |cipher| != |key|
    ensures r.Text? ==> |r.s| == |cipher|
  {
    if |cipher| != |key| then Zero
    else Text(seq(|cipher|, i requires 0 <= i < |cipher| => PlainChar(cipher, key, i)))
  }

  /** `decrypt`: 0 on a length mismatch, else one letter per index. */
  method Decrypt(cipher: string, key: string) returns (r: Reply)
    requires CanDecrypt(cipher, key)
    ensures r == Decrypted(cipher, key)
  {
    if |cipher| != |key| {
      return Zero;
    }
    var plain := "";
    for i := 0 to |cipher|
      invariant |plain| == i
      invariant forall j :: 0 <= j < i ==> plain[j] == PlainChar(cipher, key, j)
    {
      assert CanDecryptAt(cipher, key, i);
      if IsLower(cipher[i]) {
        var temp := Xor(Residue(cipher[i], 'a'), Residue(key[i], 'a'));
        plain := plain + [Letter(temp % 26, 'a')];
      } else {
        var temp := Xor(Residue(cipher[i], 'A'), Residue(key[i], 'A'));
        plain := plain + [Letter(temp % 26, 'A')];
      }
    }
    assert plain == Decrypted(cipher, key).s;
    return Text(plain);
  }

  lemma WrapHigh(x: nat, k: nat)
    requires 26 <= x < 32 && k < 26 && 26 <= Xor(x - 26, k)
    ensures k / 8 == 3 && Xor(x, k) < 8
  {
    var e := x - 26;
    XorBound(e, k, 5);
    XorHigh(e, k);
    XorCommutes(0, k / 8);
    XorZero(k / 8);
    XorHigh(x, k);
    assert Xor(3, 3) == 0;
  }

  lemma WrapLow(x: nat, k: nat)
    requires 26 <= x < 32 && k % 8 < 2
    ensures Xor(x, k) % 8 == FlipLow(x % 8, k % 8)
    ensures Xor(x - 26, k) % 8 == FlipLow(x % 8 - 2, k % 8)
  {
    var e := x - 26;
    assert e % 8 == x % 8 - 2;
    XorLow(e, k);
    XorLow(x, k);
    XorLowBit(x % 8, k % 8);
    XorLowBit(e % 8, k % 8);
  }

  lemma WrapArith(y: int, p: int, u: int, kl: int)
    requires 26 <= y < 32 && 0 <= p < 8 && 2 <= u < 8 && 0 <= kl < 2
    requires p % 8 == FlipLow(u, kl) && y % 8 == FlipLow(u - 2, kl)
    ensures y - 26 != p
  {
  }

  /** When `x = p ^ k` wrapped (26 <= x < 32) and `(x - 26) ^ k` wraps as
      well, the second fold still misses `p`. */
  lemma WrapCollision(x: nat, k: nat)
    requires 26 <= x < 32 && k < 26 && 26 <= Xor(x - 26, k)
    ensures Xor(x - 26, k) - 26 != Xor(x, k)
  {
    WrapHigh(x, k);
    WrapLow(x, k);
    assert Pow2(5) == 32;
    XorBound(x - 26, k, 5);
    WrapArith(Xor(x - 26, k), Xor(x, k), x % 8, k % 8);
  }

  /** On residues: the receiver recovers the sender's residue `p` under key
      residue `k` exactly when `p ^ k` did not need folding. */
  lemma ResidueRoundTrip(p: nat, k: nat)
    requires p < 26 && k < 26
    ensures (Xor(Xor(p, k) % 26, k) % 26 == p) <==> Xor(p, k) < 26
  {
    var x := Xor(p, k);
    if x < 26 {
      ModFold(x);
      XorCancels(p, k);
      ModFold(p);
    } else {
      FoldedMisses(p, k);
    }
  }

  /** A folded residue never decrypts back to `p`. */
  lemma FoldedMisses(p: nat, k: nat)
    requires p < 26 && k < 26 && Xor(p, k) >= 26
    ensures Xor(Xor(p, k) % 26, k) % 26 != p
  {
    var x := Xor(p, k);
    assert Pow2(5) == 32;
    XorBound(p, k, 5);
    ModFold(x);
    var y := Xor(x - 26, k);
    XorBound(x - 26, k, 5);
    ModFold(y);
    if y < 26 {
      FoldOnce(p, k);
    } else {
      FoldTwice(p, k);
    }
  }

  /** The remainder modulo 26 of a number below 52. */
  lemma ModFold(y: nat)
    requires y < 52
    ensures y % 26 == if y < 26 then y else y - 26
  {
  }

  /** Folded once on each side: the receiver's residue differs from `p`. */
  lemma FoldOnce(p: nat, k: nat)
    requires p < 26 && k < 26 && Xor(p, k) >= 26
    ensures Xor(Xor(p, k) - 26, k) != p
  {
    XorCancels(p, k);
    XorDiffers(Xor(p, k) - 26, Xor(p, k), k);
  }

  /** Folded on both sides: the second fold still misses `p`. */
  lemma FoldTwice(p: nat, k: nat)
    requires p < 26 && k < 26 && Xor(p, k) >= 26 && Xor(Xor(p, k) - 26, k) >= 26
    ensures Xor(Xor(p, k) - 26, k) - 26 != p
  {
    XorCancels(p, k);
    assert Pow2(5) == 32;
    XorBound(p, k, 5);
    WrapCollision(Xor(p, k), k);
  }

  lemma XorDiffers(a: nat, a': nat, b: nat)
    requires a != a'
    ensures Xor(a, b) != Xor(a', b)
  {
    if Xor(a, b) == Xor(a', b) {
      XorInjective(a, a', b);
    }
  }

  /** Sender and receiver together, for a lowercase plaintext and keyword of
      the same length: the receiver's output differs from the plaintext
      exactly where the sender folded a residue. */
  lemma RoundTrip(p: string, key: string)
    requires |p| == |key| && AllLower(p) && AllLower(key)
    ensures VernamClient.CanEncrypt(p, key)
    ensures CanDecrypt(VernamClient.Encrypted(p, key), key)
    ensures forall i :: 0 <= i < |p| ==>
      (Decrypted(VernamClient.Encrypted(p, key), key).s[i] == p[i] <==>
       Xor(Residue(p[i], 'a'), Residue(key[i], 'a')) < 26)
  {
    var c := VernamClient.Encrypted(p, key);
    forall i | 0 <= i < |p|
      ensures Decrypted(c, key).s[i] == p[i] <==> Xor(Residue(p[i], 'a'), Residue(key[i], 'a')) < 26
    {
      var rp, rk := Residue(p[i], 'a'), Residue(key[i], 'a');
      assert Residue(c[i], 'a') == Xor(rp, rk) % 26;
      ResidueRoundTrip(rp, rk);
    }
  }
}
