/** playfair/playfair/server.py: the same cipher with a key square built
    through a `visited` table and a stepped `for` loop as digraph splitter.
    Its `remcommon`, `findrc` and substitution rule are the same code as
    playfair/server.py's and are modelled once, in `PlayfairServer`. */
module PlayfairVariantServer {
  import opened Ascii
  import opened PlayfairServer

  // ------------------------------------------------------------------- keygen

  const Letters: string := "abcdefghijklmnopqrstuvwxyz"

  lemma LettersAreLower(c: char)
    ensures c in Letters <==> IsLower(c)
  {
    if IsLower(c) {
      assert Letters[c as int - 'a' as int] == c;
    }
  }

  /** `visited[c]` is defined for the lowercase letters only; a cell of
      `matval` outside them makes `keygen` raise a KeyError. */
  predicate LetterCells(key: string)
  {
    forall n :: 0 <= n < 25 ==> IsLower(Matval(key)[n])
  }

  /** A letter key gives letter cells. */
  lemma LetterKeyCells(key: string)
    requires AllAlpha(key)
    ensures LetterCells(key)
  {
    forall n | 0 <= n < 25
      ensures IsLower(Matval(key)[n])
    {
      KeySquareCell(key, n);
      SquareIsLower(key, n);
    }
  }

  /** The `visited` table `keygen` starts from: every lowercase letter,
      mapped to False. */
  method UnvisitedLetters() returns (visited: map<char, bool>)
    ensures forall c :: c in visited <==> IsLower(c)
    ensures forall c :: c in visited ==> !visited[c]
  {
    visited := map[];
    for k := 0 to |Letters|
      invariant forall c :: c in visited <==> c in Letters[..k]
      invariant forall c :: c in visited ==> !visited[c]
    {
      assert Letters[..k + 1] == Letters[..k] + [Letters[k]];
      visited := visited[Letters[k] := false];
    }
    assert Letters[..|Letters|] == Letters;
    forall c
      ensures c in visited <==> IsLower(c)
    {
      LettersAreLower(c);
    }
  }

  /** `keygen` with the `visited` table: every row takes five letters of
      `matval` that were not visited before. Since `matval` has no repeats
      the test never fails, and the square is the one of
      `PlayfairServer.KeySquare`. */
  method Keygen(key: string) returns (square: Square)
    requires LetterCells(key)
    ensures square == KeySquare(key)
  {
    var matval := KeygenPrelude(key);
    var visited := UnvisitedLetters();
    square := [];
    var idx := 0;
    for i := 0 to 5
      invariant idx == 5 * i && |square| == i
      invariant forall r :: 0 <= r < i ==> square[r] == matval[5 * r..5 * r + 5]
      invariant forall c :: c in visited <==> IsLower(c)
      invariant forall c :: c in visited ==> (visited[c] <==> c in matval[..idx])
    {
      var tmp := [];
      for j := 0 to 5
        invariant idx == 5 * i + j
        invariant tmp == matval[5 * i..5 * i + j]
        invariant forall c :: c in visited <==> IsLower(c)
        invariant forall c :: c in visited ==> (visited[c] <==> c in matval[..idx])
      {
        MarkVisited(matval, idx, visited);
        if !visited[matval[idx]] {
          visited := visited[matval[idx] := true];
          tmp := tmp + [matval[idx]];
          idx := idx + 1;
        }
      }
      square := square + [tmp];
    }
  }

  /** Cell idx of `matval` is an unvisited letter, and marking it keeps the
      table in step with the prefix taken so far. */
  lemma MarkVisited(matval: string, idx: nat, visited: map<char, bool>)
    requires idx < 25 && |matval| >= 25 && NoDups(matval)
    requires forall n :: 0 <= n < 25 ==> IsLower(matval[n])
    requires forall c :: c in visited <==> IsLower(c)
    requires forall c :: c in visited ==> (visited[c] <==> c in matval[..idx])
    ensures matval[idx] in visited && !visited[matval[idx]]
    ensures var v := visited[matval[idx] := true];
      && (forall c :: c in v <==> IsLower(c))
      && (forall c :: c in v ==> (v[c] <==> c in matval[..idx + 1]))
  {
    assert matval[..idx + 1] == matval[..idx] + [matval[idx]];
    assert matval[idx] !in matval[..idx];
  }

  // ---------------------------------------------------------------- genbigram

  /** The pairs the stepped loop takes at positions 0, 2, 4, ... of `t`: an
      equal pair gives `[c, 'x']` and then `[c, c]`; a last unpaired
      character is dropped. */
  function StepPairs(t: string): seq<Digraph>
    decreases |t|
  {
    if |t| < 2 then []
    else if t[0] == t[1] then [Digraph(t[0], 'x'), Digraph(t[0], t[1])] + StepPairs(t[2..])
    else [Digraph(t[0], t[1])] + StepPairs(t[2..])
  }

  /** `genbigram(plaintxt)`: `len([plaintxt])` is 1, so one 'x' is always
      appended before pairing. */
  function VariantBigrams(s: string): seq<Digraph>
  {
    StepPairs(s + "x")
  }

  /** The number of aligned pairs `t[2k] == t[2k+1]`. */
  function AlignedRepeats(t: string): nat
    decreases |t|
  {
    if |t| < 2 then 0
    else (if t[0] == t[1] then 1 else 0) + AlignedRepeats(t[2..])
  }

  /** `genbigram`: the `for` loop over `range(0, len(chars) - 1, 2)`. */
  method Genbigram(plaintxt: string) returns (bigram: seq<Digraph>)
    ensures bigram == VariantBigrams(plaintxt)
  {
    var gen := |[plaintxt]| % 2;
    var chars := plaintxt;
    if gen != 0 {
      chars := chars + seq(gen, _ => 'x');
    }
    assert chars == plaintxt + "x";
    bigram := [];
    var i := 0;
    while i < |chars| - 1
      invariant 0 <= i <= |chars|
      invariant bigram + StepPairs(chars[i..]) == StepPairs(chars)
      decreases |chars| - i
    {
      assert chars[i..][2..] == chars[i + 2..];
      if chars[i] == chars[i + 1] {
        bigram := bigram + [Digraph(chars[i], 'x')];
      }
      bigram := bigram + [Digraph(chars[i], chars[i + 1])];
      i := i + 2;
    }
    assert |chars[i..]| < 2;
  }

  /** The number of pairs: one per two characters of the text with its 'x',
      so `ceil(n / 2)`, plus one per aligned repeated letter. */
  lemma {:induction false} StepPairsCount(t: string)
    ensures |StepPairs(t)| == |t| / 2 + AlignedRepeats(t)
    decreases |t|
  {
    if |t| >= 2 {
      StepPairsCount(t[2..]);
    }
  }

  lemma BigramCount(s: string)
    ensures |VariantBigrams(s)| == (|s| + 1) / 2 + AlignedRepeats(s + "x")
  {
    StepPairsCount(s + "x");
  }

  /** Without aligned repeats the pairs are the text itself, two by two; a
      last unpaired character is left out. */
  lemma {:induction false} StepPairsPlain(t: string)
    requires AlignedRepeats(t) == 0
    ensures Flatten(StepPairs(t)) == if |t| % 2 == 0 then t else t[..|t| - 1]
    ensures forall d :: d in StepPairs(t) ==> d.first != d.second
    decreases |t|
  {
    if |t| >= 2 {
      StepPairsPlain(t[2..]);
      if |t| % 2 == 0 {
        assert t == t[..2] + t[2..];
      } else {
        assert t[..|t| - 1] == t[..2] + t[2..][..|t[2..]| - 1];
      }
    } else if |t| == 1 {
      assert t[..0] == [];
    }
  }

  lemma NextParity(n: nat)
    ensures (n + 1) % 2 == 1 - n % 2
  {
  }

  /** So the appended 'x' survives only for a text of odd length. */
  lemma BigramsPlain(s: string)
    requires AlignedRepeats(s + "x") == 0
    ensures Flatten(VariantBigrams(s)) == if |s| % 2 == 0 then s else s + "x"
  {
    var t := s + "x";
    NextParity(|s|);
    StepPairsPlain(t);
    if |s| % 2 == 0 {
      assert t[..|t| - 1] == s;
    }
  }

  /** Pairs that never repeat a letter are found back, unchanged, by the
      stepped loop. */
  lemma {:induction false} StepPairsOfDistinct(ps: seq<Digraph>)
    requires forall k :: 0 <= k < |ps| ==> ps[k].first != ps[k].second
    ensures StepPairs(Flatten(ps)) == ps
    ensures AlignedRepeats(Flatten(ps)) == 0
  {
    if ps != [] {
      StepPairsOfDistinct(ps[1..]);
      var f := Flatten(ps);
      assert f[2..] == Flatten(ps[1..]);
    }
  }

  /** Every character of a pair is a character of the text or 'x'. */
  lemma {:induction false} StepPairsChars(t: string)
    ensures forall d :: d in StepPairs(t) ==>
              (d.first in t || d.first == 'x') && (d.second in t || d.second == 'x')
    decreases |t|
  {
    if |t| >= 2 {
      StepPairsChars(t[2..]);
    }
  }

  // ------------------------------------------------------------------ encrypt

  /** When the square holds the text's letters and 'x', it holds every
      digraph's letters. */
  lemma VariantBigramsInSquare(key: Square, plaintxt: string)
    requires IsSquare(key) && Covers(key, plaintxt)
    ensures PairsInSquare(key, VariantBigrams(plaintxt))
  {
    var t := plaintxt + "x";
    StepPairsChars(t);
    forall c | c in t
      ensures InSquare(key, c)
    {
      if c !in plaintxt {
        assert c == 'x';
      }
    }
    forall k | 0 <= k < |StepPairs(t)|
      ensures InSquare(key, StepPairs(t)[k].first) && InSquare(key, StepPairs(t)[k].second)
    {
      assert StepPairs(t)[k] in StepPairs(t);
    }
  }

  /** The text `encrypt(plaintxt, key)` returns: the variant's digraphs,
      substituted by the rule of `PlayfairServer.EncryptDigraph`. */
  function VariantEnciphered(plaintxt: string, key: Square): (c: string)
    requires IsSquare(key) && PairsInSquare(key, VariantBigrams(plaintxt))
    ensures |c| == 2 * |VariantBigrams(plaintxt)|
  {
    Flatten(EncryptPairs(key, VariantBigrams(plaintxt)))
  }

  /** `encrypt`: the variant's digraphs, substituted one by one. */
  method Encrypt(plaintxt: string, key: Square) returns (subbed: string)
    requires IsSquare(key) && PairsInSquare(key, VariantBigrams(plaintxt))
    ensures subbed == VariantEnciphered(plaintxt, key)
  {
    var bigram := Genbigram(plaintxt);
    subbed := "";
    for k := 0 to |bigram|
      invariant subbed == Flatten(EncryptPairs(key, bigram[..k]))
    {
      var sec := bigram[k];
      assert InSquare(key, sec.first) && InSquare(key, sec.second);
      var p1 := FindRC(sec.first, key);
      var p2 := FindRC(sec.second, key);
      assert OnGrid(p1) && OnGrid(p2);
      var sub := Substitute(key, p1, p2);
      assert sub == EncryptDigraph(key, sec);
      ghost var before := subbed;
      subbed := subbed + [sub.first];
      subbed := subbed + [sub.second];
      assert subbed == before + [sub.first, sub.second];
      EncryptPairsSnoc(key, bigram, k);
    }
    assert bigram[..|bigram|] == bigram;
  }

  /** The variant's digraphs of "attack" are those of playfair/server.py. */
  lemma VariantBigramsAttack()
    ensures VariantBigrams("attack") == [Digraph('a', 't'), Digraph('t', 'a'), Digraph('c', 'k')]
  {
    var t := "attack" + "x";
    assert t == "attackx";
    assert t[2..] == "tackx";
    assert t[2..][2..] == "ckx";
    assert t[2..][2..][2..] == "x";
    assert StepPairs(t[2..][2..]) == [Digraph('c', 'k')];
    assert StepPairs(t[2..]) == [Digraph('t', 'a'), Digraph('c', 'k')];
  }

  /** `encrypt("attack", keygen("monarchy"))` is "rssrde" here too. */
  lemma VariantEncryptAttack()
    ensures PairsInSquare(KeySquare("monarchy"), VariantBigrams("attack"))
    ensures VariantEnciphered("attack", KeySquare("monarchy")) == "rssrde"
  {
    MonarchySquare();
    VariantEncryptAttackUnderSquare();
  }

  lemma VariantEncryptAttackUnderSquare()
    ensures PairsInSquare(MonarchyKey, VariantBigrams("attack"))
    ensures VariantEnciphered("attack", MonarchyKey) == "rssrde"
  {
    EncryptAttackUnderSquare();
    VariantBigramsAttack();
    BigramsAttack();
    SameDigraphs("attack", MonarchyKey);
  }

  /** Where the two splitters agree, so do the two encryptions. */
  lemma SameDigraphs(p: string, key: Square)
    requires IsSquare(key) && PairsInSquare(key, Bigrams(p))
    requires VariantBigrams(p) == Bigrams(p)
    ensures PairsInSquare(key, VariantBigrams(p))
    ensures VariantEnciphered(p, key) == Enciphered(p, key)
  {
  }

  /** The variant pairs "ab" with no 'x': the appended 'x' is left over. */
  lemma VariantBigramsAb()
    ensures VariantBigrams("ab") == [Digraph('a', 'b')]
  {
    var t := "ab" + "x";
    assert t == "abx" && t[2..] == "x";
    assert StepPairs(t[2..]) == [];
  }

  /** `encrypt("ab", keygen("yzi"))` is "by" here too, though the square has
      no 'x'. */
  lemma VariantEncryptWithoutFiller()
    ensures PairsInSquare(KeySquare("yzi"), VariantBigrams("ab"))
    ensures VariantEnciphered("ab", KeySquare("yzi")) == "by"
  {
    YziSquare();
    EncryptAbUnderYzi();
    VariantBigramsAb();
    SameDigraphs("ab", YziKey);
  }
}

