/** playfair/playfair/client.py: decryption with the variant's stepped
    digraph splitter. Its `genbigram` and `findrc` are the same code as
    playfair/playfair/server.py's and are modelled once, by
    `PlayfairVariantServer.Genbigram` and `PlayfairServer.FindRC`; its
    substitution rule is `PlayfairClient.Unsubstitute`. */
module PlayfairVariantClient {
  import opened PlayfairServer
  import opened PlayfairClient
  import opened PlayfairVariantServer

  /** The text `decrypt(ciphertxt, key)` returns. */
  function VariantDeciphered(ciphertxt: string, key: Square): (p: string)
    requires IsSquare(key) && PairsInSquare(key, VariantBigrams(ciphertxt))
    ensures |p| == 2 * |VariantBigrams(ciphertxt)|
  {
    Flatten(DecryptPairs(key, VariantBigrams(ciphertxt)))
  }

  /** `decrypt`: the variant's digraphs, substituted back one by one. */
  method Decrypt(ciphertxt: string, key: Square) returns (subbed: string)
    requires IsSquare(key) && PairsInSquare(key, VariantBigrams(ciphertxt))
    ensures subbed == VariantDeciphered(ciphertxt, key)
  {
    var bigram := PlayfairVariantServer.Genbigram(ciphertxt);
    subbed := "";
    for k := 0 to |bigram|
      invariant subbed == Flatten(DecryptPairs(key, bigram[..k]))
    {
      var sec := bigram[k];
      assert InSquare(key, sec.first) && InSquare(key, sec.second);
      var p1 := FindRC(sec.first, key);
      var p2 := FindRC(sec.second, key);
      assert OnGrid(p1) && OnGrid(p2);
      var sub := Unsubstitute(key, p1, p2);
      assert sub == DecryptDigraph(key, sec);
      ghost var before := subbed;
      subbed := subbed + [sub.first];
      subbed := subbed + [sub.second];
      assert subbed == before + [sub.first, sub.second];
      DecryptPairsSnoc(key, bigram, k);
    }
    assert bigram[..|bigram|] == bigram;
  }

  /** On an even-length ciphertext without aligned repeated letters the
      splitter sees exactly the ciphertext's own pairs, so the output is as
      long as the ciphertext. */
  lemma EvenCiphertext(ciphertxt: string, key: Square)
    requires IsSquare(key) && PairsInSquare(key, VariantBigrams(ciphertxt))
    requires |ciphertxt| % 2 == 0 && AlignedRepeats(ciphertxt + "x") == 0
    ensures Flatten(VariantBigrams(ciphertxt)) == ciphertxt
    ensures |VariantDeciphered(ciphertxt, key)| == |ciphertxt|
  {
    BigramsPlain(ciphertxt);
  }

  /** `decrypt(encrypt(p, K), K)` is `p` with one 'x' appended when `p` has
      odd length, provided the square has distinct letters, holds the
      letters of every digraph of `p`, and no aligned pair of `p` (with its
      'x') repeats a letter. */
  lemma RoundTrip(p: string, key: Square)
    requires IsSquare(key) && DistinctCells(key) && PairsInSquare(key, VariantBigrams(p))
    requires AlignedRepeats(p + "x") == 0
    ensures PairsInSquare(key, VariantBigrams(VariantEnciphered(p, key)))
    ensures VariantDeciphered(VariantEnciphered(p, key), key)
         == if |p| % 2 == 0 then p else p + "x"
  {
    var bs := VariantBigrams(p);
    StepPairsPlain(p + "x");
    BigramsPlain(p);
    var es := EncryptPairs(key, bs);
    forall k | 0 <= k < |bs|
      ensures es[k].first != es[k].second
      ensures InSquare(key, es[k].first) && InSquare(key, es[k].second)
      ensures DecryptDigraph(key, es[k]) == bs[k]
    {
      assert bs[k] in bs;
      EncryptDistinct(key, bs[k]);
      DigraphInverse(key, bs[k]);
    }
    var c := Flatten(es);
    FlattenInSquare(key, es);
    StepPairsOfDistinct(es);
    StepPairsAppendX(c, |es|);
    assert DecryptPairs(key, es) == bs;
  }

  /** Appending 'x' to an even-length text adds no pair. */
  lemma {:induction false} StepPairsAppendX(c: string, n: nat)
    requires |c| == 2 * n
    ensures StepPairs(c + "x") == StepPairs(c)
    ensures AlignedRepeats(c + "x") == AlignedRepeats(c)
  {
    if n > 0 {
      StepPairsAppendX(c[2..], n - 1);
      assert (c + "x")[2..] == c[2..] + "x";
    } else {
      assert c + "x" == "x";
    }
  }

  /** `decrypt("rssrde", keygen("monarchy"))` is "attack" here too. */
  lemma VariantDecryptAttack()
    ensures PairsInSquare(KeySquare("monarchy"), VariantBigrams("rssrde"))
    ensures VariantDeciphered("rssrde", KeySquare("monarchy")) == "attack"
  {
    MonarchySquare();
    VariantDecryptAttackUnderSquare();
  }

  lemma VariantDecryptAttackUnderSquare()
    ensures PairsInSquare(MonarchyKey, VariantBigrams("rssrde"))
    ensures VariantDeciphered("rssrde", MonarchyKey) == "attack"
  {
    VariantEncryptAttackUnderSquare();
    MonarchyDistinct();
    VariantBigramsAttack();
    assert AlignedRepeats("attack" + "x") == 0 by {
      var t := "attack" + "x";
      assert t[2..] == "tackx" && t[2..][2..] == "ckx" && t[2..][2..][2..] == "x";
      assert AlignedRepeats(t[2..][2..]) == 0;
      assert AlignedRepeats(t[2..]) == 0;
    }
    RoundTrip("attack", MonarchyKey);
  }

  /** `decrypt("by", keygen("yzi"))` is "ab" here too. */
  lemma VariantDecryptWithoutFiller()
    ensures PairsInSquare(KeySquare("yzi"), VariantBigrams("by"))
    ensures VariantDeciphered("by", KeySquare("yzi")) == "ab"
  {
    YziSquare();
    VariantDecryptByUnderYzi();
  }

  lemma VariantDecryptByUnderYzi()
    ensures PairsInSquare(YziKey, VariantBigrams("by"))
    ensures VariantDeciphered("by", YziKey) == "ab"
  {
    EncryptAbUnderYzi();
    VariantBigramsAb();
    SameDigraphs("ab", YziKey);
    KeySquareDistinct("yzi");
    YziSquare();
    assert AlignedRepeats("ab" + "x") == 0 by {
      assert ("ab" + "x")[2..] == "x";
    }
    RoundTrip("ab", YziKey);
  }
}

