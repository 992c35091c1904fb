/** Vernam/client.py: exclusive or of letter residues, folded back into the
    alphabet with `% 26`. */
module VernamClient {
  import opened Ascii
  import opened Bits

  /** Position of a letter in the alphabet, whatever its case: the residue of
      the lowercased letter. */
  function LetterIndex(c: char): (r: nat)
    requires IsAlpha(c)
    ensures r < 26
  {
    Residue(ToLower(c), 'a')
  }

  /** The character `Encrypt` appends for the letters `p` and `k`. */
  function XorLetter(p: char, k: char): (r: char)
    requires IsAlpha(p) && IsAlpha(k)
    ensures IsLower(r)
  {
    Letter(Xor(LetterIndex(p), LetterIndex(k)) % 26, 'a')
  }

  /** Residues are non-negative only for letters, and the keyword is indexed
      at every plaintext position. */
  predicate CanEncrypt(p: string, keyword: string)
  {
    |keyword| >= |p| && AllAlpha(p) && forall i :: 0 <= i < |p| ==> IsAlpha(keyword[i])
  }

  /** The ciphertext `Encrypt(p, keyword)` returns. */
  function Encrypted(p: string, keyword: string): (r: string)
    requires CanEncrypt(p, keyword)
    ensures |r| == |p| && AllLower(r)
  {
    seq(|p|, i requires 0 <= i < |p| => XorLetter(p[i], keyword[i]))
  }

  /** `Encrypt`: lowercases both arguments, then appends one letter per
      plaintext index. */
  method Encrypt(plaintext: string, keyword: string) returns (ciphertext: string)
    requires CanEncrypt(plaintext, keyword)
    ensures ciphertext == Encrypted(plaintext, keyword)
  {
    var p := LowerString(plaintext);
    var k := LowerString(keyword);
    ciphertext := "";
    for i := 0 to |p|
      invariant |ciphertext| == i
      invariant forall j :: 0 <= j < i ==> ciphertext[j] == XorLetter(plaintext[j], keyword[j])
    {
      var ki := Residue(p[i], 'a');
      var pi := Residue(k[i], 'a');
      ciphertext := ciphertext + [Letter(Xor(ki, pi) % 26, 'a')];
    }
  }

  /** Case is ignored. */
  lemma IgnoresCase(p: string, keyword: string)
    requires CanEncrypt(p, keyword)
    ensures CanEncrypt(LowerString(p), LowerString(keyword))
    ensures Encrypted(LowerString(p), LowerString(keyword)) == Encrypted(p, keyword)
  {
  }

  /** Only the first `|p|` keyword characters are used. */
  lemma UsesKeywordPrefix(p: string, keyword: string)
    requires CanEncrypt(p, keyword)
    ensures CanEncrypt(p, keyword[..|p|])
    ensures Encrypted(p, keyword[..|p|]) == Encrypted(p, keyword)
  {
  }

  /** Plaintext and keyword play the same part. */
  lemma Commutes(p: string, keyword: string)
    requires |p| == |keyword| && CanEncrypt(p, keyword)
    ensures CanEncrypt(keyword, p)
    ensures Encrypted(p, keyword) == Encrypted(keyword, p)
  {
    forall i | 0 <= i < |p|
      ensures Encrypted(p, keyword)[i] == Encrypted(keyword, p)[i]
    {
      XorCommutes(LetterIndex(p[i]), LetterIndex(keyword[i]));
    }
  }

  /** The exclusive or of two residues stays below 32, so `% 26` can only
      fold 26..31 onto 0..5. */
  lemma XorBelow32(p: char, k: char)
    requires IsAlpha(p) && IsAlpha(k)
    ensures Xor(LetterIndex(p), LetterIndex(k)) < 32
  {
    assert Pow2(5) == 32;
    XorBound(LetterIndex(p), LetterIndex(k), 5);
  }

  /** The map is lossy: under the key "q", both "p" (15 ^ 16 = 31, folded to
      5) and "v" (21 ^ 16 = 5) encrypt to "f". */
  lemma Lossy()
    ensures CanEncrypt("p", "q") && CanEncrypt("v", "q")
    ensures Encrypted("p", "q") == Encrypted("v", "q") == "f"
  {
    XorOfLossy();
    assert LetterIndex('p') == 15;
    assert LetterIndex('q') == 16;
    assert LetterIndex('v') == 21;
    assert Xor(LetterIndex('p'), LetterIndex('q')) == 31;
    assert Xor(LetterIndex('v'), LetterIndex('q')) == 5;
    assert Letter(5, 'a') == 'f';
    EncryptOne('p', 'q', 'f');
    EncryptOne('v', 'q', 'f');
  }

  /** A one-letter plaintext encrypts to the letter XorLetter gives. */
  lemma EncryptOne(p: char, k: char, c: char)
    requires IsAlpha(p) && IsAlpha(k) && XorLetter(p, k) == c
    ensures CanEncrypt([p], [k]) && Encrypted([p], [k]) == [c]
  {
  }

  lemma XorOfLossy()
    ensures Xor(15, 16) == 31 && Xor(21, 16) == 5
  {
    assert Xor(0, 1) == 1 && Xor(1, 2) == 3 && Xor(3, 4) == 7 && Xor(7, 8) == 15;
    assert Xor(1, 1) == 0 && Xor(2, 2) == 0 && Xor(5, 4) == 1 && Xor(10, 8) == 2;
  }

  lemma EncryptHello()
    ensures CanEncrypt("hello", "abcde")
    ensures Encrypted("hello", "abcde") == "hfjik"
  {
    XorOfHello();
    var c := Encrypted("hello", "abcde");
    assert c[0] == 'h' && c[1] == 'f' && c[2] == 'j' && c[3] == 'i' && c[4] == 'k';
  }

  lemma XorOfHello()
    ensures Xor(7, 0) == 7 && Xor(4, 1) == 5 && Xor(11, 2) == 9
    ensures Xor(11, 3) == 8 && Xor(14, 4) == 10
  {
    XorZero(7);
    XorOfEleven();
  }

  lemma XorOfEleven()
    ensures Xor(11, 2) == 9 && Xor(11, 3) == 8
  {
  }
}
