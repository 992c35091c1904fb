/** ceaser/client.py: the sender's Caesar shift. */
module CaesarClient {
  import opened Ascii

  /** The character `encrypt` appends for `c`: a lowercase letter is shifted
      within 'a'..'z', and every other character, letter or not, goes through
      the uppercase formula. */
  function ShiftChar(c: char, key: int): (r: char)
    ensures IsLower(c) ==> IsLower(r)
    ensures !IsLower(c) ==> IsUpper(r)
  {
    if IsLower(c) then Letter((Residue(c, 'a') + key) % 26, 'a')
    else Letter((Residue(c, 'A') + key) % 26, 'A')
  }

  /** The ciphertext `encrypt(s, key)` returns. */
  function Shifted(s: string, key: int): (r: string)
    ensures |r| == |s|
  {
    seq(|s|, i requires 0 <= i < |s| => ShiftChar(s[i], key))
  }

  /** `encrypt`: appends one shifted character per input character. */
  method Encrypt(s: string, key: int) returns (ciphertext: string)
    ensures |ciphertext| == |s|
    ensures forall i :: 0 <= i < |s| ==> ciphertext[i] == ShiftChar(s[i], key)
    ensures ciphertext == Shifted(s, key)
  {
    ciphertext := "";
    for i := 0 to |s|
      invariant |ciphertext| == i
      invariant forall j :: 0 <= j < i ==> ciphertext[j] == ShiftChar(s[j], key)
    {
      ciphertext := ciphertext + [ShiftChar(s[i], key)];
    }
  }

  /** A lowercase letter moves `key` places forward within 'a'..'z'. */
  lemma ShiftLower(c: char, key: int)
    requires IsLower(c)
    ensures IsLower(ShiftChar(c, key))
    ensures Residue(ShiftChar(c, key), 'a') == (Residue(c, 'a') + key) % 26
  {
  }

  /** Digits, spaces and punctuation are not passed through: they land in
      'A'..'Z' like the uppercase letters. */
  lemma ShiftNonLetter(c: char, key: int)
    requires !IsAlpha(c)
    ensures ShiftChar(c, key) != c && IsUpper(ShiftChar(c, key))
  {
  }

  /** The shift acts modulo 26, for negative keys too. */
  lemma ShiftPeriodic(s: string, key: int)
    ensures Shifted(s, key + 26) == Shifted(s, key)
  {
    forall i | 0 <= i < |s|
      ensures Shifted(s, key + 26)[i] == Shifted(s, key)[i]
    {
      var base := if IsLower(s[i]) then 'a' else 'A';
      var x := Residue(s[i], base);
      assert (x + key + 26) % 26 == (x + key) % 26;
    }
  }

  lemma EncryptHello()
    ensures Shifted("HELLO", 3) == "KHOOR"
  {
  }
}
