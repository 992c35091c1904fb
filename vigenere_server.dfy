/** Vigenere/server.py: the receiver's Vigenere unshift, with an aligned and
    a sequential way of reading the key. */
module VigenereServer {
  import opened Ascii
  import VigenereClient

  /** The key character `decrypt` uses for the letter at index `i`: `key[i]`
      when the key is as long as the text; otherwise the next unused key
      character, or 'a' once the key is used up. A key character that is not a
      letter is replaced by 'a'. */
  function DecryptKey(s: string, key: string, i: nat): (k: char)
    requires i < |s|
    ensures IsAlpha(k)
  {
    var pos := VigenereClient.AlphaCount(s[..i]);
    var raw := if |key| == |s| then key[i] else if pos < |key| then key[pos] else 'a';
    if IsAlpha(raw) then raw else 'a'
  }

  /** The character `decrypt` appends for the letter `ch` under the (letter)
      key character `k`: the key is cased like `ch` and subtracted modulo 26. */
  function DecryptChar(ch: char, k: char): (r: char)
    requires IsAlpha(ch)
    ensures IsLower(ch) ==> IsLower(r)
    ensures IsUpper(ch) ==> IsUpper(r)
  {
    if IsLower(ch) then Letter((Residue(ch, 'a') - Residue(ToLower(k), 'a') + 26) % 26, 'a')
    else Letter((Residue(ch, 'A') - Residue(ToUpper(k), 'A') + 26) % 26, 'A')
  }

  /** Character `i` of `decrypt(s, key)` for a non-empty key. */
  function PlainChar(s: string, key: string, i: nat): char
    requires i < |s|
  {
    if IsAlpha(s[i]) then DecryptChar(s[i], DecryptKey(s, key, i)) else s[i]
  }

  /** The plaintext `decrypt(s, key)` returns. */
  function Decrypted(s: string, key: string): (r: string)
    ensures |r| == |s|
  {
    if key == [] then s else seq(|s|, i requires 0 <= i < |s| => PlainChar(s, key, i))
  }

  /** `decrypt`: the loop keeps the sequential position `keyPos` and the
      `aligned` flag. */
  method Decrypt(s: string, key: string) returns (plain: string)
    ensures plain == Decrypted(s, key)
    ensures key == [] ==> plain == s
    ensures |plain| == |s|
    ensures forall i :: 0 <= i < |s| && !IsAlpha(s[i]) ==> plain[i] == s[i]
  {
    plain := "";
    if key == [] {
      return s;
    }
    var aligned := |key| == |s|;
    var keyPos := 0;
    for i := 0 to |s|
      invariant !aligned ==> keyPos == VigenereClient.AlphaCount(s[..i])
      invariant |plain| == i
      invariant forall j :: 0 <= j < i ==> plain[j] == PlainChar(s, key, j)
    {
      VigenereClient.AlphaCountStep(s, i);
      var ch := s[i];
      if !IsAlpha(ch) {
        plain := plain + [ch];
        continue;
      }
      var k: char;
      if aligned {
        k := key[i];
      } else {
        k := if keyPos < |key| then key[keyPos] else 'a';
        keyPos := keyPos + 1;
      }
      if !IsAlpha(k) {
        k := 'a';
      }
      assert k == DecryptKey(s, key, i);
      var r := ShiftBack(ch, k);
      plain := plain + [r];
    }
  }

  /** The body of `decrypt` for one letter: the key character is cased like
      the letter and subtracted modulo 26. */
  method ShiftBack(ch: char, key: char) returns (r: char)
    requires IsAlpha(ch)
    ensures r == DecryptChar(ch, key)
  {
    var k := key;
    if IsLower(ch) {
      k := ToLower(k);
      r := Letter((Residue(ch, 'a') - Residue(k, 'a') + 26) % 26, 'a');
    } else {
      k := ToUpper(k);
      r := Letter((Residue(ch, 'A') - Residue(k, 'A') + 26) % 26, 'A');
    }
  }

  /** With a key as long as the text, the letter at index `i` is decrypted
      with `key[i]` (or 'a' if that is not a letter). */
  lemma AlignedKey(s: string, key: string, i: nat)
    requires |key| == |s| && i < |s| && IsAlpha(s[i]) && IsAlpha(key[i])
    ensures Decrypted(s, key)[i] == DecryptChar(s[i], key[i])
  {
  }

  /** Otherwise the `j`-th letter of the text is decrypted with `key[j]`,
      without cycling, and with shift 0 once the key is used up. */
  lemma SequentialKey(s: string, key: string, i: nat)
    requires key != [] && |key| != |s| && i < |s| && IsAlpha(s[i])
    ensures var j := VigenereClient.AlphaCount(s[..i]);
      j < |key| && IsAlpha(key[j]) ==> Decrypted(s, key)[i] == DecryptChar(s[i], key[j])
    ensures VigenereClient.AlphaCount(s[..i]) >= |key| ==> Decrypted(s, key)[i] == s[i]
  {
    if VigenereClient.AlphaCount(s[..i]) >= |key| {
      ZeroShift(s[i]);
    }
  }

  /** A key character that is not a letter, like a used-up key, acts as 'a':
      the letter is left as it is. */
  lemma ZeroShift(ch: char)
    requires IsAlpha(ch)
    ensures DecryptChar(ch, 'a') == ch
  {
  }

  lemma BadKeyCharIsIgnored(s: string, key: string, i: nat)
    requires |key| == |s| && i < |s| && IsAlpha(s[i]) && !IsAlpha(key[i])
    ensures Decrypted(s, key)[i] == s[i]
  {
    ZeroShift(s[i]);
  }

  /** Residue arithmetic behind the round trip. */
  lemma Unshift(x: int, y: int)
    requires 0 <= x < 26 && 0 <= y < 26
    ensures ((x + y) % 26 - y + 26) % 26 == x
  {
  }

  /** The pairing the sender's main block uses: the receiver gets the
      ciphertext and the full key, and recovers the plaintext exactly, for any
      non-empty partial key made of letters. */
  lemma RoundTripAt(p: string, partialKey: string, i: nat)
    requires partialKey != [] && AllAlpha(partialKey) && i < |p|
    ensures Decrypted(VigenereClient.Encrypted(p, partialKey), VigenereClient.FullKey(p, partialKey))[i] == p[i]
  {
    var c := VigenereClient.Encrypted(p, partialKey);
    var fk := VigenereClient.FullKey(p, partialKey);
    if IsAlpha(p[i]) {
      var k := fk[i];
      assert k == VigenereClient.KeyChar(p, partialKey, i);
      assert DecryptKey(c, fk, i) == k;
      if IsLower(p[i]) {
        Unshift(Residue(p[i], 'a'), Residue(k, 'a'));
      } else {
        Unshift(Residue(p[i], 'A'), Residue(k, 'A'));
      }
    }
  }

  lemma RoundTrip(p: string, partialKey: string)
    requires partialKey != [] && AllAlpha(partialKey)
    ensures Decrypted(VigenereClient.Encrypted(p, partialKey), VigenereClient.FullKey(p, partialKey)) == p
  {
    var d := Decrypted(VigenereClient.Encrypted(p, partialKey), VigenereClient.FullKey(p, partialKey));
    forall i | 0 <= i < |p|
      ensures d[i] == p[i]
    {
      RoundTripAt(p, partialKey, i);
    }
  }
}
