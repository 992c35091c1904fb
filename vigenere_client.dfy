/** Vigenere/client.py: key expansion over the letters of the plaintext, and
    the sender's Vigenere shift. */
module VigenereClient {
  import opened Ascii

  /** Number of ASCII letters in `s`. */
  function AlphaCount(s: string): (n: nat)
    ensures n <= |s|
  {
    if s == [] then 0
    else AlphaCount(s[..|s| - 1]) + (if IsAlpha(s[|s| - 1]) then 1 else 0)
  }

  lemma AlphaCountStep(s: string, i: nat)
    requires i < |s|
    ensures AlphaCount(s[..i + 1]) == AlphaCount(s[..i]) + (if IsAlpha(s[i]) then 1 else 0)
  {
    assert s[..i + 1][..i] == s[..i];
  }

  /** `k.lower()` under a lowercase plaintext character, `k.upper()` otherwise. */
  function CasedLike(k: char, ch: char): (r: char)
    ensures IsAlpha(k) && IsLower(ch) ==> IsLower(r)
    ensures IsAlpha(k) && !IsLower(ch) ==> IsUpper(r)
  {
    if IsLower(ch) then ToLower(k) else ToUpper(k)
  }

  /** Character `i` of `keygen(p, partialKey)`: a letter of the plaintext gets
      the next character of the partial key, cycling, in the plaintext letter's
      case; any other character is copied from the plaintext. */
  function KeyChar(p: string, partialKey: string, i: nat): char
    requires partialKey != [] && i < |p|
  {
    if IsAlpha(p[i]) then CasedLike(partialKey[AlphaCount(p[..i]) % |partialKey|], p[i])
    else p[i]
  }

  /** The full-length key `keygen(p, partialKey)` returns. */
  function FullKey(p: string, partialKey: string): (r: string)
    ensures partialKey == [] ==> r == []
    ensures partialKey != [] ==> |r| == |p|
  {
    if partialKey == [] then []
    else seq(|p|, i requires 0 <= i < |p| => KeyChar(p, partialKey, i))
  }

  /** `keygen`: walks the plaintext with the counter `kp`, which advances only
      on letters. */
  method Keygen(p: string, partialKey: string) returns (fullKey: string)
    ensures fullKey == FullKey(p, partialKey)
    ensures partialKey != [] ==>
      |fullKey| == |p| && forall i :: 0 <= i < |p| ==> fullKey[i] == KeyChar(p, partialKey, i)
  {
    if partialKey == [] {
      return "";
    }
    fullKey := "";
    var kp := 0;
    for i := 0 to |p|
      invariant kp == AlphaCount(p[..i])
      invariant |fullKey| == i
      invariant forall j :: 0 <= j < i ==> fullKey[j] == KeyChar(p, partialKey, j)
    {
      AlphaCountStep(p, i);
      var ch := p[i];
      if IsAlpha(ch) {
        var k := partialKey[kp % |partialKey|];
        if IsLower(ch) {
          fullKey := fullKey + [ToLower(k)];
        } else {
          fullKey := fullKey + [ToUpper(k)];
        }
        kp := kp + 1;
      } else {
        fullKey := fullKey + [ch];
      }
    }
  }

  /** The character `encrypt` appends for a plaintext character `ch` under key
      character `k`: non-letters are kept, letters keep their case and move by
      `ord(k)` minus the case's base, modulo 26. */
  function EncryptChar(ch: char, k: char): (r: char)
    ensures !IsAlpha(ch) ==> r == ch
    ensures IsLower(ch) ==> IsLower(r)
    ensures IsUpper(ch) ==> IsUpper(r)
  {
    if !IsAlpha(ch) then ch
    else if IsLower(ch) then Letter((Residue(ch, 'a') + Residue(k, 'a')) % 26, 'a')
    else Letter((Residue(ch, 'A') + Residue(k, 'A')) % 26, 'A')
  }

  /** `encrypt` indexes the full key at every letter, so an empty partial key
      is only usable on text without letters. */
  predicate CanEncrypt(p: string, partialKey: string)
  {
    partialKey != [] || forall i :: 0 <= i < |p| ==> !IsAlpha(p[i])
  }

  /** The ciphertext `encrypt(p, partialKey)` returns. */
  function Encrypted(p: string, partialKey: string): (r: string)
    requires CanEncrypt(p, partialKey)
    ensures |r| == |p|
  {
    seq(|p|, i requires 0 <= i < |p| =>
      if IsAlpha(p[i]) then EncryptChar(p[i], FullKey(p, partialKey)[i]) else p[i])
  }

  /** `encrypt`: expands the key, then appends one character per plaintext
      character. */
  method Encrypt(p: string, partialKey: string) returns (ciphertext: string)
    requires CanEncrypt(p, partialKey)
    ensures ciphertext == Encrypted(p, partialKey)
    ensures |ciphertext| == |p|
    ensures forall i :: 0 <= i < |p| && !IsAlpha(p[i]) ==> ciphertext[i] == p[i]
  {
    var fullKey := Keygen(p, partialKey);
    ciphertext := "";
    for i := 0 to |p|
      invariant |ciphertext| == i
      invariant ciphertext == Encrypted(p, partialKey)[..i]
    {
      var ch := p[i];
      if !IsAlpha(ch) {
        ciphertext := ciphertext + [ch];
        continue;
      }
      var k := fullKey[i];
      ciphertext := ciphertext + [EncryptChar(ch, k)];
    }
  }

  lemma EncryptHello()
    ensures Encrypted("HELLO", "KEY") == "RIJVS"
  {
    var p := "HELLO";
    assert AlphaCount(p[..0]) == 0;
    AlphaCountStep(p, 0); AlphaCountStep(p, 1); AlphaCountStep(p, 2); AlphaCountStep(p, 3);
    assert FullKey(p, "KEY") == "KEYKE";
  }
}
