/** playfair/client.py: the decrypting substitution. Its `genbigram` and
    `findrc` are the same code as playfair/server.py's and are modelled once,
    by `PlayfairServer.Genbigram` and `PlayfairServer.FindRC`. */
module PlayfairClient {
  import opened PlayfairServer

  /** The substitution `decrypt` applies to the letters at `p1` and `p2`:
      in the same row both move one column left, in the same column both
      move one row up (wrapping), and otherwise each takes the other's
      column. */
  function Unsubstitute(key: Square, p1: Position, p2: Position): Digraph
    requires IsSquare(key) && OnGrid(p1) && OnGrid(p2)
  {
    if p1.row == p2.row then
      Digraph(key[p1.row][(p1.col - 1 + 5) % 5], key[p1.row][(p2.col - 1 + 5) % 5])
    else if p1.col == p2.col then
      Digraph(key[(p1.row - 1 + 5) % 5][p1.col], key[(p2.row - 1 + 5) % 5][p2.col])
    else
      Digraph(key[p1.row][p2.col], key[p2.row][p1.col])
  }

  /** One digraph of `decrypt`: look both letters up, then substitute back. */
  function DecryptDigraph(key: Square, d: Digraph): Digraph
    requires IsSquare(key) && InSquare(key, d.first) && InSquare(key, d.second)
  {
    Unsubstitute(key, Locate(key, d.first), Locate(key, d.second))
  }

  function DecryptPairs(key: Square, ps: seq<Digraph>): (ds: seq<Digraph>)
    requires IsSquare(key) && PairsInSquare(key, ps)
    ensures |ds| == |ps|
  {
    seq(|ps|, k requires 0 <= k < |ps| => DecryptDigraph(key, ps[k]))
  }

  /** The text `decrypt(ciphertxt, key)` returns: the ciphertext is split by
      the same `genbigram` as the plaintext was. */
  function Deciphered(ciphertxt: string, key: Square): (p: string)
    requires IsSquare(key) && PairsInSquare(key, Bigrams(ciphertxt))
    ensures |p| == 2 * |Bigrams(ciphertxt)|
  {
    Flatten(DecryptPairs(key, Bigrams(ciphertxt)))
  }

  /** `decrypt`: tokenises, then substitutes back digraph by digraph,
      appending to `subbed`. */
  method Decrypt(ciphertxt: string, key: Square) returns (subbed: string)
    requires IsSquare(key) && PairsInSquare(key, Bigrams(ciphertxt))
    ensures subbed == Deciphered(ciphertxt, key)
  {
    var bigram := Genbigram(ciphertxt);
    subbed := "";
    for k := 0 to |bigram|
      invariant subbed == Flatten(DecryptPairs(key, bigram[..k]))
    {
      var sec := bigram[k];
      assert InSquare(key, sec.first) && InSquare(key, sec.second);
      var p1 := FindRC(sec.first, key);
      var p2 := FindRC(sec.second, key);
      assert OnGrid(p1) && OnGrid(p2);
      var sub := Unsubstitute(key, p1, p2);
      assert sub == DecryptDigraph(key, sec);
      ghost var before := subbed;
      subbed := subbed + [sub.first];
      subbed := subbed + [sub.second];
      assert subbed == before + [sub.first, sub.second];
      DecryptPairsSnoc(key, bigram, k);
    }
    assert bigram[..|bigram|] == bigram;
  }

  lemma DecryptPairsSnoc(key: Square, ps: seq<Digraph>, k: nat)
    requires IsSquare(key) && PairsInSquare(key, ps) && k < |ps|
    ensures PairsInSquare(key, ps[..k]) && PairsInSquare(key, ps[..k + 1])
    ensures Flatten(DecryptPairs(key, ps[..k + 1]))
         == Flatten(DecryptPairs(key, ps[..k]))
          + [DecryptDigraph(key, ps[k]).first, DecryptDigraph(key, ps[k]).second]
  {
    var d := DecryptDigraph(key, ps[k]);
    assert DecryptPairs(key, ps[..k + 1]) == DecryptPairs(key, ps[..k]) + [d];
    FlattenAppend(DecryptPairs(key, ps[..k]), [d]);
  }

  /** The positions of the two substituted letters, found back by lookup in a
      square of distinct letters. */
  function SubstitutedPositions(p1: Position, p2: Position): (Position, Position)
  {
    if p1.row == p2.row then
      (Position(p1.row, (p1.col + 1) % 5), Position(p1.row, (p2.col + 1) % 5))
    else if p1.col == p2.col then
      (Position((p1.row + 1) % 5, p1.col), Position((p2.row + 1) % 5, p2.col))
    else
      (Position(p1.row, p2.col), Position(p2.row, p1.col))
  }

  lemma LocateSubstituted(key: Square, p1: Position, p2: Position)
    requires IsSquare(key) && DistinctCells(key) && OnGrid(p1) && OnGrid(p2)
    ensures var e := Substitute(key, p1, p2);
      var (q1, q2) := SubstitutedPositions(p1, p2);
      InSquare(key, e.first) && InSquare(key, e.second)
      && OnGrid(q1) && OnGrid(q2)
      && Locate(key, e.first) == q1 && Locate(key, e.second) == q2
  {
    SubstituteInSquare(key, p1, p2);
    var (q1, q2) := SubstitutedPositions(p1, p2);
    LocateCell(key, q1.row, q1.col);
    LocateCell(key, q2.row, q2.col);
  }

  /** Moving back undoes moving on: the shifted positions unshift to the
      originals, and the rectangle swap is its own inverse. */
  lemma UnsubstituteSubstitute(key: Square, p1: Position, p2: Position)
    requires IsSquare(key) && OnGrid(p1) && OnGrid(p2) && p1 != p2
    ensures var (q1, q2) := SubstitutedPositions(p1, p2);
      OnGrid(q1) && OnGrid(q2)
      && Unsubstitute(key, q1, q2) == Digraph(key[p1.row][p1.col], key[p2.row][p2.col])
  {
    var (q1, q2) := SubstitutedPositions(p1, p2);
    if p1.row == p2.row {
      StepBack(p1.col);
      StepBack(p2.col);
    } else if p1.col == p2.col {
      StepBack(p1.row);
      StepBack(p2.row);
    }
  }

  /** One step back around a row or column undoes one step forward. */
  lemma StepBack(x: int)
    requires 0 <= x < 5
    ensures ((x + 1) % 5 - 1 + 5) % 5 == x
  {
  }

  /** Undoing the substitution: for two distinct letters of a square of
      distinct letters, `decrypt`'s rule returns what `encrypt`'s rule was
      given. */
  lemma DigraphInverse(key: Square, d: Digraph)
    requires IsSquare(key) && DistinctCells(key)
    requires InSquare(key, d.first) && InSquare(key, d.second)
    requires d.first != d.second
    ensures var e := EncryptDigraph(key, d);
      InSquare(key, e.first) && InSquare(key, e.second)
      && DecryptDigraph(key, e) == d
  {
    var p1 := Locate(key, d.first);
    var p2 := Locate(key, d.second);
    LocateSubstituted(key, p1, p2);
    UnsubstituteSubstitute(key, p1, p2);
  }

  lemma EvenPad(s: string, n: nat)
    requires |s| == 2 * n
    ensures Pad(s) == s
  {
  }

  /** The ciphertext of distinct-letter digraphs is split by `genbigram` back
      into exactly those digraphs: it has even length and no digraph
      repeats a letter. */
  lemma RepairCiphertext(es: seq<Digraph>)
    requires forall k :: 0 <= k < |es| ==> es[k].first != es[k].second
    ensures Bigrams(Flatten(es)) == es
  {
    EvenPad(Flatten(es), |es|);
    PairsOfDistinct(es);
  }

  /** `decrypt(encrypt(p, K), K)` is `genbigram(p)` flattened, that is `p`
      with its filler 'x's, when the square has distinct letters, holds
      the letters of every digraph of `p`, and no digraph of `p` is
      ['x', 'x']. */
  lemma RoundTrip(p: string, key: Square)
    requires IsSquare(key) && DistinctCells(key) && PairsInSquare(key, Bigrams(p))
    requires Digraph('x', 'x') !in Bigrams(p)
    ensures PairsInSquare(key, Bigrams(Enciphered(p, key)))
    ensures Deciphered(Enciphered(p, key), key) == Flatten(Bigrams(p))
  {
    var bs := Bigrams(p);
    PairsDistinct(Pad(p));
    var es := EncryptPairs(key, bs);
    forall k | 0 <= k < |bs|
      ensures es[k].first != es[k].second
      ensures InSquare(key, es[k].first) && InSquare(key, es[k].second)
      ensures DecryptDigraph(key, es[k]) == bs[k]
    {
      assert bs[k] in bs;
      EncryptDistinct(key, bs[k]);
      DigraphInverse(key, bs[k]);
    }
    var c := Flatten(es);
    FlattenInSquare(key, es);
    RepairCiphertext(es);
    assert DecryptPairs(key, es) == bs;
  }

  /** `decrypt("rssrde", keygen("monarchy"))` is "attack". */
  lemma DecryptAttack()
    ensures PairsInSquare(KeySquare("monarchy"), Bigrams("rssrde"))
    ensures Deciphered("rssrde", KeySquare("monarchy")) == "attack"
  {
    MonarchySquare();
    DecryptAttackUnderSquare();
  }

  lemma DecryptAttackUnderSquare()
    ensures PairsInSquare(MonarchyKey, Bigrams("rssrde"))
    ensures Deciphered("rssrde", MonarchyKey) == "attack"
  {
    EncryptAttackUnderSquare();
    MonarchyDistinct();
    BigramsAttack();
    assert Digraph('x', 'x') !in Bigrams("attack");
    RoundTrip("attack", MonarchyKey);
  }

  /** `decrypt("by", keygen("yzi"))` is "ab", though the square has no 'x'. */
  lemma DecryptWithoutFiller()
    ensures PairsInSquare(KeySquare("yzi"), Bigrams("by"))
    ensures Deciphered("by", KeySquare("yzi")) == "ab"
  {
    YziSquare();
    DecryptByUnderYzi();
  }

  lemma DecryptByUnderYzi()
    ensures PairsInSquare(YziKey, Bigrams("by"))
    ensures Deciphered("by", YziKey) == "ab"
  {
    EncryptAbUnderYzi();
    KeySquareDistinct("yzi");
    YziSquare();
    RoundTrip("ab", YziKey);
    assert Flatten([Digraph('a', 'b')]) == "ab";
  }
}
