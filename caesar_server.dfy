/** ceaser/server.py: the receiver's Caesar unshift. */
module CaesarServer {
  import opened Ascii
  import CaesarClient

  /** The character `decrypt` appends for `c`: the key is subtracted, with the
      same lowercase / everything-else split as the sender. */
  function UnshiftChar(c: char, key: int): (r: char)
    ensures IsLower(c) ==> IsLower(r)
    ensures !IsLower(c) ==> IsUpper(r)
  {
    if IsLower(c) then Letter((Residue(c, 'a') - key) % 26, 'a')
    else Letter((Residue(c, 'A') - key) % 26, 'A')
  }

  /** The plaintext `decrypt(s, key)` returns. */
  function Unshifted(s: string, key: int): (r: string)
    ensures |r| == |s|
  {
    seq(|s|, i requires 0 <= i < |s| => UnshiftChar(s[i], key))
  }

  /** `decrypt`: appends one unshifted character per input character. */
  method Decrypt(s: string, key: int) returns (plain: string)
    ensures |plain| == |s|
    ensures forall i :: 0 <= i < |s| ==> plain[i] == UnshiftChar(s[i], key)
    ensures plain == Unshifted(s, key)
  {
    plain := "";
    for i := 0 to |s|
      invariant |plain| == i
      invariant forall j :: 0 <= j < i ==> plain[j] == UnshiftChar(s[j], key)
    {
      plain := plain + [UnshiftChar(s[i], key)];
    }
  }

  /** Decrypting is encrypting with the negated key. */
  lemma DecryptIsEncryptNegated(s: string, key: int)
    ensures Unshifted(s, key) == CaesarClient.Shifted(s, -key)
  {
    forall i | 0 <= i < |s|
      ensures Unshifted(s, key)[i] == CaesarClient.Shifted(s, -key)[i]
    {
    }
  }

  /** Residue arithmetic behind the round trip: adding then subtracting the key
      modulo 26 gives back a residue in 0..25. */
  lemma ShiftBack(x: int, key: int)
    requires 0 <= x < 26
    ensures ((x + key) % 26 - key) % 26 == x
  {
    var q := (x + key) / 26;
    assert (x + key) % 26 - key == x - 26 * q;
  }

  /** A character survives encrypt-then-decrypt exactly when it is an ASCII
      letter: every other character is folded into 'A'..'Z' on the way. */
  lemma CharRoundTrip(c: char, key: int)
    ensures UnshiftChar(CaesarClient.ShiftChar(c, key), key) == c <==> IsAlpha(c)
  {
    if IsLower(c) {
      ShiftBack(Residue(c, 'a'), key);
    } else if IsUpper(c) {
      ShiftBack(Residue(c, 'A'), key);
    }
  }

  /** Round trip over whole strings: `decrypt(encrypt(s, k), k) == s` exactly
      when `s` consists of ASCII letters only. */
  lemma RoundTrip(s: string, key: int)
    ensures Unshifted(CaesarClient.Shifted(s, key), key) == s <==> AllAlpha(s)
  {
    var t := Unshifted(CaesarClient.Shifted(s, key), key);
    forall i | 0 <= i < |s|
      ensures t[i] == s[i] <==> IsAlpha(s[i])
    {
      CharRoundTrip(s[i], key);
    }
    if t == s {
      assert forall i :: 0 <= i < |s| ==> t[i] == s[i];
    }
  }

  lemma DecryptKhoor()
    ensures Unshifted("KHOOR", 3) == "HELLO"
  {
  }
}
