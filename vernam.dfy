/** Vernam/vernam.py: exclusive or of code points or integer lists with a key
    list, the counting key, the fixed-seed linear congruential key, and the
    `VernamCipher` wrapper. */
module Vernam {
  import opened Bits

  datatype Option<T> = None | Some(value: T)

  /** Code points Dafny's `char` can hold: `chr` succeeds on these. */
  predicate IsScalar(n: int)
  {
    0 <= n < 0xD800 || 0xE000 <= n < 0x11_0000
  }

  /** `generate_key(n)`: the counting key. */
  method GenerateKey(n: nat) returns (key: seq<nat>)
    ensures |key| == n
    ensures forall i :: 0 <= i < n ==> key[i] == i % 256
  {
    key := [];
    for i := 0 to n
      invariant |key| == i
      invariant forall j :: 0 <= j < i ==> key[j] == j % 256
    {
      key := key + [i % 256];
    }
  }

  /** The list `encrypt(p, key)` returns. The key holds any Python ints;
      since a code point is never negative, a ciphertext entry is negative
      exactly where the key entry is. */
  function Encrypted(p: string, key: seq<int>): (r: Option<seq<int>>)
    ensures r.Some? <==> |p| == |key|
    ensures r.Some? ==> |r.value| == |p|
    ensures r.Some? ==> forall i :: 0 <= i < |p| ==> (r.value[i] < 0 <==> key[i] < 0)
  {
    if |p| != |key| then None
    else Some(seq(|p|, i requires 0 <= i < |p| => IntXor(p[i] as int, key[i])))
  }

  /** `encrypt`: `None` on a length mismatch, else `ord(p[i]) ^ key[i]` for
      every index. */
  method Encrypt(p: string, key: seq<int>) returns (r: Option<seq<int>>)
    ensures r == Encrypted(p, key)
    ensures r.None? <==> |p| != |key|
    ensures r.Some? ==> |r.value| == |p| && forall i :: 0 <= i < |p| ==> r.value[i] == IntXor(p[i] as int, key[i])
  {
    if |p| != |key| {
      return None;
    }
    var ciphertext := [];
    for i := 0 to |p|
      invariant |ciphertext| == i
      invariant forall j :: 0 <= j < i ==> ciphertext[j] == IntXor(p[j] as int, key[j])
    {
      ciphertext := ciphertext + [IntXor(p[i] as int, key[i])];
    }
    assert ciphertext == Encrypted(p, key).value;
    return Some(ciphertext);
  }

  /** `chr` raises on a negative value or one above the code points, so
      `decrypt` needs every `c[i] ^ key[i]` to be a code point when the
      lengths agree. */
  predicate CanDecrypt(c: seq<int>, key: seq<int>)
  {
    |c| == |key| ==> forall i :: 0 <= i < |c| ==> IsScalar(IntXor(c[i], key[i]))
  }

  /** The string `decrypt(c, key)` returns. Entries of either sign decrypt,
      provided the two have the same sign. */
  function Decrypted(c: seq<int>, key: seq<int>): (r: Option<string>)
    requires CanDecrypt(c, key)
    ensures r.Some? <==> |c| == |key|
    ensures r.Some? ==> |r.value| == |c|
    ensures r.Some? ==> forall i :: 0 <= i < |c| ==> (c[i] < 0 <==> key[i] < 0)
  {
    if |c| != |key| then None
    else Some(seq(|c|, i requires 0 <= i < |c| => IntXor(c[i], key[i]) as char))
  }

  /** `decrypt`: `None` on a length mismatch, else `chr(c[i] ^ key[i])` for
      every index. */
  method Decrypt(c: seq<int>, key: seq<int>) returns (r: Option<string>)
    requires CanDecrypt(c, key)
    ensures r == Decrypted(c, key)
    ensures r.None? <==> |c| != |key|
    ensures r.Some? ==> |r.value| == |c| && forall i :: 0 <= i < |c| ==> r.value[i] as int == IntXor(c[i], key[i])
  {
    if |c| != |key| {
      return None;
    }
    var plaintext := "";
    for i := 0 to |c|
      invariant |plaintext| == i
      invariant forall j :: 0 <= j < i ==> plaintext[j] == IntXor(c[j], key[j]) as char
    {
      plaintext := plaintext + [IntXor(c[i], key[i]) as char];
    }
    assert plaintext == Decrypted(c, key).value;
    return Some(plaintext);
  }

  /** The list `encrypt_bytes(data, key)` and `decrypt_bytes(data, key)`
      return: the two functions have the same body. An entry is negative
      exactly where one of the data and the key entry is. */
  function XorBytes(data: seq<int>, key: seq<int>): (r: Option<seq<int>>)
    ensures r.Some? <==> |data| == |key|
    ensures r.Some? ==> |r.value| == |data|
    ensures r.Some? ==> forall i :: 0 <= i < |data| ==> (r.value[i] < 0 <==> (data[i] < 0 <==> key[i] >= 0))
  {
    if |data| != |key| then None
    else Some(seq(|data|, i requires 0 <= i < |data| => IntXor(data[i], key[i])))
  }

  /** `encrypt_bytes`. */
  method EncryptBytes(data: seq<int>, key: seq<int>) returns (r: Option<seq<int>>)
    ensures r == XorBytes(data, key)
    ensures r.None? <==> |data| != |key|
  {
    if |data| != |key| {
      return None;
    }
    var result := [];
    for i := 0 to |data|
      invariant |result| == i
      invariant forall j :: 0 <= j < i ==> result[j] == IntXor(data[j], key[j])
    {
      result := result + [IntXor(data[i], key[i])];
    }
    assert result == XorBytes(data, key).value;
    return Some(result);
  }

  /** `decrypt_bytes`: the same loop as `encrypt_bytes`. */
  method DecryptBytes(data: seq<int>, key: seq<int>) returns (r: Option<seq<int>>)
    ensures r == XorBytes(data, key)
    ensures r.None? <==> |data| != |key|
  {
    if |data| != |key| {
      return None;
    }
    var result := [];
    for i := 0 to |data|
      invariant |result| == i
      invariant forall j :: 0 <= j < i ==> result[j] == IntXor(data[j], key[j])
    {
      result := result + [IntXor(data[i], key[i])];
    }
    assert result == XorBytes(data, key).value;
    return Some(result);
  }

  /** `text_to_bytes`: the code points of the text. */
  function TextToBytes(t: string): (r: seq<int>)
    ensures |r| == |t| && forall i :: 0 <= i < |t| ==> IsScalar(r[i])
  {
    seq(|t|, i requires 0 <= i < |t| => t[i] as int)
  }

  /** `bytes_to_text`: one character per code point. */
  function BytesToText(data: seq<int>): (r: string)
    requires forall i :: 0 <= i < |data| ==> IsScalar(data[i])
    ensures |r| == |data|
  {
    seq(|data|, i requires 0 <= i < |data| => assert IsScalar(data[i]); data[i] as char)
  }

  lemma TextRoundTrip(t: string)
    ensures BytesToText(TextToBytes(t)) == t
  {
  }

  lemma BytesRoundTrip(data: seq<int>)
    requires forall i :: 0 <= i < |data| ==> IsScalar(data[i])
    ensures TextToBytes(BytesToText(data)) == data
  {
  }

  /** Decrypting with the key that encrypted gives the plaintext back. */
  lemma DecryptEncrypt(p: string, key: seq<int>)
    requires |p| == |key|
    ensures CanDecrypt(Encrypted(p, key).value, key)
    ensures Decrypted(Encrypted(p, key).value, key) == Some(p)
  {
    var c := Encrypted(p, key).value;
    forall i | 0 <= i < |p|
      ensures IntXor(c[i], key[i]) == p[i] as int
    {
      IntXorCancels(p[i] as int, key[i]);
    }
    assert Decrypted(c, key).value == p;
  }

  /** The byte transform undoes itself under the same key. */
  lemma XorBytesTwice(data: seq<int>, key: seq<int>)
    requires |data| == |key|
    ensures XorBytes(XorBytes(data, key).value, key) == Some(data)
  {
    var once := XorBytes(data, key).value;
    var twice := XorBytes(once, key).value;
    forall i | 0 <= i < |data|
      ensures twice[i] == data[i]
    {
      IntXorCancels(data[i], key[i]);
    }
    assert twice == data;
  }

  /** Negative entries go through Python's `^`: `encrypt("a", [-1])` is
      `[-98]`, `decrypt([-98], [-1])` gives "a" back, and
      `encrypt_bytes([-5], [3])` is `[-8]`. */
  lemma NegativeEntries()
    ensures Encrypted("a", [-1]) == Some([-98])
    ensures CanDecrypt([-98], [-1]) && Decrypted([-98], [-1]) == Some("a")
    ensures XorBytes([-5], [3]) == Some([-8])
  {
    XorZero(97);
    assert IntXor('a' as int, -1) == -98;
    assert IntXor(-98, -1) == 'a' as int;
    assert Xor(4, 3) == 7 by {
      assert Xor(1, 0) == 1;
      assert Xor(2, 1) == 3;
    }
    assert IntXor(-5, 3) == -8;
    assert Encrypted("a", [-1]).value == [-98];
    assert Decrypted([-98], [-1]).value == "a";
    assert XorBytes([-5], [3]).value == [-8];
  }

  /** The modulus of the key generator, 2 ** 31. */
  const Modulus: nat := 0x8000_0000

  /** The generator's state after `i` steps from the fixed seed 12345. */
  function Seed(i: nat): (s: nat)
    ensures s < Modulus || i == 0
  {
    if i == 0 then 12345 else (Seed(i - 1) * 1103515245 + 12345) % Modulus
  }

  /** The key `generate_random_key(n)` returns. */
  function RandomKey(n: nat): (key: seq<nat>)
    ensures |key| == n
  {
    seq(n, i requires 0 <= i < n => Seed(i + 1) % 256)
  }

  /** The key depends only on its length: a shorter key is a prefix of a
      longer one, because the seed restarts at 12345 on every call. */
  lemma RandomKeyPrefix(n: nat, m: nat)
    requires n <= m
    ensures RandomKey(n) == RandomKey(m)[..n]
  {
  }

  /** `VernamCipher`: holds no state; its methods call the functions above. */
  class VernamCipher {

    constructor ()
    {
    }

    /** `generate_random_key`: runs the generator `n` steps, keeping the low
        byte of each state. */
    method GenerateRandomKey(n: nat) returns (key: seq<nat>)
      ensures key == RandomKey(n)
      ensures forall i :: 0 <= i < n ==> key[i] < 256
    {
      key := [];
      var seed := 12345;
      for i := 0 to n
        invariant seed == Seed(i)
        invariant |key| == i
        invariant forall j :: 0 <= j < i ==> key[j] == Seed(j + 1) % 256
      {
        seed := (seed * 1103515245 + 12345) % Modulus;
        key := key + [seed % 256];
      }
    }

    /** `encrypt_text`: with no key, a generated key as long as the text. */
    method EncryptText(p: string, key: Option<seq<int>>) returns (c: Option<seq<int>>, usedKey: seq<int>)
      ensures usedKey == if key.None? then RandomKey(|p|) else key.value
      ensures c == Encrypted(p, usedKey)
      ensures key.None? ==> c.Some?
    {
      if key.None? {
        usedKey := GenerateRandomKey(|p|);
      } else {
        usedKey := key.value;
      }
      c := Encrypt(p, usedKey);
    }

    method DecryptText(c: seq<int>, key: seq<int>) returns (r: Option<string>)
      requires CanDecrypt(c, key)
      ensures r == Decrypted(c, key)
    {
      r := Decrypt(c, key);
    }

    /** `encrypt_data`: with no key, a generated key as long as the data. */
    method EncryptData(data: seq<int>, key: Option<seq<int>>) returns (c: Option<seq<int>>, usedKey: seq<int>)
      ensures usedKey == if key.None? then RandomKey(|data|) else key.value
      ensures c == XorBytes(data, usedKey)
      ensures key.None? ==> c.Some?
    {
      if key.None? {
        usedKey := GenerateRandomKey(|data|);
      } else {
        usedKey := key.value;
      }
      c := EncryptBytes(data, usedKey);
    }

    method DecryptData(c: seq<int>, key: seq<int>) returns (r: Option<seq<int>>)
      ensures r == XorBytes(c, key)
    {
      r := DecryptBytes(c, key);
    }
  }

  /** `encrypt_text` without a key, then `decrypt_text` with the key it
      returned, gives the text back. */
  lemma GeneratedKeyRoundTrip(p: string)
    ensures Encrypted(p, RandomKey(|p|)).Some?
    ensures CanDecrypt(Encrypted(p, RandomKey(|p|)).value, RandomKey(|p|))
    ensures Decrypted(Encrypted(p, RandomKey(|p|)).value, RandomKey(|p|)) == Some(p)
  {
    DecryptEncrypt(p, RandomKey(|p|));
  }
}
