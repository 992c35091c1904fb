/** playfair/server.py: key-square construction, the while-loop digraph
    splitter, the row-major lookup and the encrypting substitution. */
module PlayfairServer {
  import opened Ascii

  /** A key square as the source passes it around: a list of rows. */
  type Square = seq<seq<char>>

  predicate IsSquare(key: Square)
  {
    |key| == 5 && forall r :: 0 <= r < 5 ==> |key[r]| == 5
  }

  /** The cell at row-major position `n`. */
  function Cell(key: Square, n: nat): char
    requires IsSquare(key) && n < 25
  {
    key[n / 5][n % 5]
  }

  predicate InSquare(key: Square, ch: char)
    requires IsSquare(key)
  {
    exists n :: 0 <= n < 25 && Cell(key, n) == ch
  }

  /** No character occurs twice. */
  predicate NoDups(s: string)
  {
    forall i, j :: 0 <= i < j < |s| ==> s[i] != s[j]
  }

  /** No cell of the square repeats another. */
  predicate DistinctCells(key: Square)
    requires IsSquare(key)
  {
    forall n, m :: 0 <= n < m < 25 ==> Cell(key, n) != Cell(key, m)
  }

  // ---------------------------------------------------------------- remcommon

  /** `remcommon(s)`: the first occurrence of every character, in order. */
  function Dedup(s: string): string
  {
    if s == [] then []
    else
      var d := Dedup(s[..|s| - 1]);
      if s[|s| - 1] in d then d else d + [s[|s| - 1]]
  }

  /** `remcommon`: the loop appends each character not yet in `visited`. */
  method RemCommon(s: string) returns (visited: string)
    ensures visited == Dedup(s)
    ensures NoDups(visited)
    ensures forall x :: x in visited <==> x in s
  {
    visited := [];
    for i := 0 to |s|
      invariant visited == Dedup(s[..i])
    {
      assert s[..i + 1][..i] == s[..i];
      if s[i] !in visited {
        visited := visited + [s[i]];
      }
    }
    assert s[..|s|] == s;
    DedupNoDups(s);
    DedupElements(s);
  }

  lemma {:induction false} DedupElements(s: string)
    ensures forall x :: x in Dedup(s) <==> x in s
  {
    if s != [] {
      var init := s[..|s| - 1];
      DedupElements(init);
      assert s == init + [s[|s| - 1]];
    }
  }

  lemma {:induction false} DedupNoDups(s: string)
    ensures NoDups(Dedup(s))
  {
    if s != [] {
      DedupNoDups(s[..|s| - 1]);
    }
  }

  /** A string without repeats is its own `remcommon`. */
  lemma {:induction false} DedupOfNoDups(s: string)
    requires NoDups(s)
    ensures Dedup(s) == s
  {
    if s != [] {
      var init := s[..|s| - 1];
      DedupOfNoDups(init);
      assert s[|s| - 1] !in init;
      assert init + [s[|s| - 1]] == s;
    }
  }

  lemma DedupIdempotent(s: string)
    ensures Dedup(Dedup(s)) == Dedup(s)
  {
    DedupNoDups(s);
    DedupOfNoDups(Dedup(s));
  }

  /** `remcommon(s)` is a prefix of `remcommon(s + t)`: the characters of `s`
      keep their places whatever follows. */
  lemma {:induction false} DedupPrefix(s: string, t: string)
    ensures Dedup(s) <= Dedup(s + t)
    decreases |t|
  {
    if t != [] {
      var init := t[..|t| - 1];
      DedupPrefix(s, init);
      assert (s + t)[..|s + t| - 1] == s + init;
    } else {
      assert s + t == s;
    }
  }

  // ------------------------------------------------------------------- keygen

  /** The letter that fills the I/J cell: 'j' when the raw key holds an 'i',
      else 'i'. The test is made before the key is lowercased. */
  function Filler(key: string): char
  {
    if 'i' in key then 'j' else if 'j' in key then 'i' else 'i'
  }

  /** The fallback letters `"abcdefgh" + temp + "klmnopqrstuvwxyz"`. */
  function Alphabet(temp: char): string
  {
    "abcdefgh" + [temp] + "klmnopqrstuvwxyz"
  }

  predicate Increasing(s: string)
  {
    forall i :: 0 <= i < |s| - 1 ==> s[i] < s[i + 1]
  }

  lemma {:induction false} IncreasingNoDups(s: string)
    requires Increasing(s)
    ensures NoDups(s) && forall i :: 0 <= i < |s| - 1 ==> s[i] < s[|s| - 1]
  {
    if |s| > 1 {
      IncreasingNoDups(s[..|s| - 1]);
    }
  }

  lemma AlphabetNoDups(temp: char)
    requires temp == 'i' || temp == 'j'
    ensures |Alphabet(temp)| == 25 && NoDups(Alphabet(temp))
  {
    IncreasingNoDups(Alphabet(temp));
  }

  function Elems(s: string): set<char>
  {
    set x | x in s
  }

  lemma {:induction false} ElemsCard(s: string)
    ensures |Elems(s)| <= |s|
    ensures NoDups(s) ==> |Elems(s)| == |s|
  {
    if s != [] {
      var init := s[..|s| - 1];
      ElemsCard(init);
      assert s == init + [s[|s| - 1]];
      assert Elems(s) == Elems(init) + {s[|s| - 1]};
    }
  }

  /** A string without repeats is no longer than any string holding all its
      characters. */
  lemma CoveredCard(s: string, t: string)
    requires NoDups(s) && NoDups(t)
    requires forall x :: x in s ==> x in t
    ensures |s| <= |t|
  {
    assert Elems(s) <= Elems(t);
    ElemsCard(s);
    ElemsCard(t);
    SubsetCard(Elems(s), Elems(t));
  }

  lemma {:induction false} SubsetCard(a: set<char>, b: set<char>)
    requires a <= b
    ensures |a| <= |b|
    decreases |a|
  {
    if a != {} {
      var x :| x in a;
      SubsetCard(a - {x}, b - {x});
    }
  }

  /** The key's own characters, lowercased and without repeats:
      `remcommon(key.lower())`. */
  function KeyChars(key: string): string
  {
    Dedup(LowerString(key))
  }

  /** `matval`: the key's characters followed by the fallback letters, without
      repeats; it has at least 25 characters. */
  function Matval(key: string): (m: string)
    ensures |m| >= 25 && NoDups(m)
  {
    var all := LowerString(KeyChars(key)) + Alphabet(Filler(key));
    AlphabetNoDups(Filler(key));
    DedupElements(all);
    DedupNoDups(all);
    CoveredCard(Alphabet(Filler(key)), Dedup(all));
    Dedup(all)
  }

  /** The square `keygen(key)` returns: `matval[0..24]` laid out row-major. */
  function KeySquare(key: string): (sq: Square)
    ensures IsSquare(sq)
  {
    var m := Matval(key);
    seq(5, r requires 0 <= r < 5 => m[5 * r..5 * r + 5])
  }

  /** `keygen`'s `matval`, built as the source builds it, is `Matval(key)`. */
  lemma KeygenMatval(key: string, keychar: string, temp: char)
    requires keychar == Dedup(LowerString(key))
    requires temp == (if 'i' in key then 'j' else if 'j' in key then 'i' else 'i')
    ensures Dedup(LowerString(keychar) + "abcdefgh" + [temp] + "klmnopqrstuvwxyz") == Matval(key)
  {
    assert LowerString(keychar) + "abcdefgh" + [temp] + "klmnopqrstuvwxyz"
        == LowerString(KeyChars(key)) + Alphabet(Filler(key));
  }

  /** The opening of `keygen`: the filler letter, `keychar` and `matval`. */
  method KeygenPrelude(key: string) returns (matval: string)
    ensures matval == Matval(key)
  {
    var temp := if 'i' in key then 'j' else if 'j' in key then 'i' else 'i';
    var keychar := RemCommon(LowerString(key));
    matval := RemCommon(LowerString(keychar) + "abcdefgh" + [temp] + "klmnopqrstuvwxyz");
    KeygenMatval(key, keychar, temp);
  }

  /** `keygen`: fills five rows of five from `matval` with the counter `idx`. */
  method Keygen(key: string) returns (square: Square)
    ensures square == KeySquare(key)
    ensures IsSquare(square) && DistinctCells(square)
  {
    var matval := KeygenPrelude(key);
    square := [];
    var idx := 0;
    for i := 0 to 5
      invariant idx == 5 * i && |square| == i
      invariant forall r :: 0 <= r < i ==> square[r] == matval[5 * r..5 * r + 5]
    {
      var row := [];
      for j := 0 to 5
        invariant idx == 5 * i + j
        invariant row == matval[5 * i..5 * i + j]
      {
        row := row + [matval[idx]];
        idx := idx + 1;
      }
      square := square + [row];
    }
    KeySquareDistinct(key);
  }

  lemma KeySquareCell(key: string, n: nat)
    requires n < 25
    ensures Cell(KeySquare(key), n) == Matval(key)[n]
  {
    var r := n / 5;
    assert 5 * r + n % 5 == n;
    assert KeySquare(key)[r] == Matval(key)[5 * r..5 * r + 5];
  }

  /** The 25 cells are pairwise distinct. */
  lemma KeySquareDistinct(key: string)
    ensures DistinctCells(KeySquare(key))
  {
    forall n, m | 0 <= n < m < 25
      ensures Cell(KeySquare(key), n) != Cell(KeySquare(key), m)
    {
      KeySquareCell(key, n);
      KeySquareCell(key, m);
    }
  }

  /** The fallback letters position by position: 'a'..'h', the filler, then
      'k'..'z'. */
  lemma AlphabetAt(temp: char, k: nat)
    requires k < 25
    ensures Alphabet(temp)[k]
         == if k < 8 then Letter(k, 'a') else if k == 8 then temp else Letter(k + 1, 'a')
  {
  }

  /** The twin of the filler: the one of 'i', 'j' the fallback letters leave out. */
  function Twin(temp: char): char
  {
    if temp == 'i' then 'j' else 'i'
  }

  /** The fallback letters are every lowercase letter except the filler's twin. */
  lemma AlphabetCovers(temp: char, c: char)
    requires temp == 'i' || temp == 'j'
    requires IsLower(c)
    ensures c in Alphabet(temp) <==> c != Twin(temp)
  {
    var k := Residue(c, 'a');
    if c == temp {
      AlphabetAt(temp, 8);
    } else if k < 8 {
      AlphabetAt(temp, k);
    } else if k >= 10 {
      AlphabetAt(temp, k - 1);
    }
    if c == Twin(temp) {
      forall n | 0 <= n < 25
        ensures Alphabet(temp)[n] != c
      {
        AlphabetAt(temp, n);
      }
    }
  }

  lemma LowerOfLower(s: string)
    requires AllLower(s)
    ensures LowerString(s) == s
  {
  }

  /** The key's characters are already lowercase, so `keychar.lower()`
      changes nothing, and they are exactly the lowered key's characters. */
  lemma KeyCharsLowered(key: string)
    ensures LowerString(KeyChars(key)) == KeyChars(key)
    ensures forall x :: x in KeyChars(key) <==> x in LowerString(key)
  {
    DedupElements(LowerString(key));
    var k := KeyChars(key);
    forall i | 0 <= i < |k|
      ensures ToLower(k[i]) == k[i]
    {
      assert k[i] in LowerString(key);
    }
  }

  /** The characters of `matval` are those of the lowered key and of the
      fallback letters. */
  lemma MatvalElements(key: string)
    ensures Matval(key) == Dedup(KeyChars(key) + Alphabet(Filler(key)))
    ensures forall x :: x in Matval(key) <==> x in LowerString(key) || x in Alphabet(Filler(key))
  {
    KeyCharsLowered(key);
    DedupElements(KeyChars(key) + Alphabet(Filler(key)));
  }

  /** For a key of letters, `matval` has all 26 letters exactly when the key
      holds the filler's twin: a lowercase 'i', or a 'j' of either case. Then
      the square, which takes only the first 25, loses the last letter. */
  lemma MatvalLength(key: string)
    requires AllAlpha(key)
    ensures |Matval(key)| == 25 || |Matval(key)| == 26
    ensures |Matval(key)| == 26 <==> 'i' in key || 'j' in LowerString(key)
  {
    var temp := Filler(key);
    var twin := Twin(temp);
    var low := LowerString(key);
    var a := Alphabet(temp);
    var m := Matval(key);
    MatvalElements(key);
    AlphabetNoDups(temp);
    ElemsCard(a);
    ElemsCard(m);
    AlphabetCovers(temp, twin);
    forall c | c in low && c != twin
      ensures c in a
    {
      AlphabetCovers(temp, c);
    }
    if 'i' in key {
      assert ToLower('i') == 'i';
    }
    if twin in low {
      assert Elems(m) == Elems(a) + {twin};
    } else {
      assert Elems(m) == Elems(a);
    }
  }

  /** With 26 letters in `matval`, its last letter is in no cell of the square. */
  lemma DroppedLetter(key: string)
    requires |Matval(key)| == 26
    ensures !InSquare(KeySquare(key), Matval(key)[25])
  {
    forall n | 0 <= n < 25
      ensures Cell(KeySquare(key), n) != Matval(key)[25]
    {
      KeySquareCell(key, n);
    }
  }

  /** The square starts with the key's deduplicated lowercase characters. */
  lemma SquareStartsWithKey(key: string, n: nat)
    requires n < |KeyChars(key)| && n < 25
    ensures Cell(KeySquare(key), n) == KeyChars(key)[n]
  {
    MatvalElements(key);
    DedupNoDups(LowerString(key));
    DedupOfNoDups(KeyChars(key));
    DedupPrefix(KeyChars(key), Alphabet(Filler(key)));
    KeySquareCell(key, n);
  }

  /** For a key of letters every cell holds a lowercase letter. */
  lemma SquareIsLower(key: string, n: nat)
    requires AllAlpha(key) && n < 25
    ensures IsLower(Cell(KeySquare(key), n))
  {
    var m := Matval(key);
    MatvalElements(key);
    KeySquareCell(key, n);
    assert m[n] in m;
    if m[n] in LowerString(key) {
      var i :| 0 <= i < |key| && LowerString(key)[i] == m[n];
    } else {
      var k :| 0 <= k < 25 && Alphabet(Filler(key))[k] == m[n];
      AlphabetAt(Filler(key), k);
    }
  }

  /** Appending characters already seen leaves `remcommon` unchanged. */
  lemma {:induction false} DedupSeen(s: string, t: string)
    requires forall x :: x in t ==> x in s
    ensures Dedup(s + t) == Dedup(s)
    decreases |t|
  {
    if t == [] {
      assert s + t == s;
    } else {
      var init := t[..|t| - 1];
      DedupSeen(s, init);
      assert (s + t)[..|s + t| - 1] == s + init;
      DedupElements(s);
    }
  }

  /** Appending new, distinct characters appends them to `remcommon`. */
  lemma {:induction false} DedupFresh(s: string, t: string)
    requires NoDups(t) && forall x :: x in t ==> x !in s
    ensures Dedup(s + t) == Dedup(s) + t
    decreases |t|
  {
    if t == [] {
      assert s + t == s;
    } else {
      var init := t[..|t| - 1];
      DedupFresh(s, init);
      assert (s + t)[..|s + t| - 1] == s + init;
      DedupElements(s);
      assert t == init + [t[|t| - 1]];
    }
  }

  /** `DedupSeen` with the characters checked against `remcommon(s)`. */
  lemma SeenStep(s: string, d: string, t: string)
    requires Dedup(s) == d && forall x :: x in t ==> x in d
    ensures Dedup(s + t) == d
  {
    DedupElements(s);
    DedupSeen(s, t);
  }

  /** `DedupFresh` with the characters checked against `remcommon(s)`. */
  lemma FreshStep(s: string, d: string, t: string)
    requires Dedup(s) == d && NoDups(t) && forall x :: x in t ==> x !in d
    ensures Dedup(s + t) == d + t
  {
    DedupElements(s);
    DedupFresh(s, t);
  }

  /** The fallback letters 'a'..'h' after "monarchy": 'a', 'c' and 'h' are
      seen, 'b' and 'd'..'g' are new. */
  lemma MonarchyFirstFallbacks(s: string)
    requires Dedup(s) == "monarchy"
    ensures Dedup(s + "abcdefgh") == "monarchybdefg"
  {
    assert s + "abcdefgh" == s + "ab" + "c" + "defg" + "h";
    SeenStep(s, "monarchy", "a");
    assert s + "ab" == s + "a" + "b";
    FreshStep(s + "a", "monarchy", "b");
    SeenStep(s + "ab", "monarchyb", "c");
    MonarchyDefgh(s + "ab" + "c");
  }

  lemma MonarchyDefgh(s: string)
    requires Dedup(s) == "monarchyb"
    ensures Dedup(s + "defg" + "h") == "monarchybdefg"
  {
    FreshStep(s, "monarchyb", "defg");
    SeenStep(s + "defg", "monarchybdefg", "h");
  }

  /** The fallback letters 'i'..'r': 'i', 'k', 'l', 'p', 'q' are new. */
  lemma MonarchyMiddleFallbacks(s: string)
    requires Dedup(s) == "monarchybdefg"
    ensures Dedup(s + "iklmnopqr") == "monarchybdefgiklpq"
  {
    assert s + "iklmnopqr" == s + "ikl" + "mno" + "pqr";
    FreshStep(s, "monarchybdefg", "ikl");
    SeenStep(s + "ikl", "monarchybdefgikl", "mno");
    MonarchyPqr(s + "ikl" + "mno");
  }

  lemma MonarchyPqr(s: string)
    requires Dedup(s) == "monarchybdefgikl"
    ensures Dedup(s + "pqr") == "monarchybdefgiklpq"
  {
    assert s + "pqr" == s + "pq" + "r";
    FreshStep(s, "monarchybdefgikl", "pq");
    SeenStep(s + "pq", "monarchybdefgiklpq", "r");
  }

  /** The fallback letters 's'..'z': all new except 'y'. */
  lemma MonarchyLastFallbacks(s: string)
    requires Dedup(s) == "monarchybdefgiklpq"
    ensures Dedup(s + "stuvwxyz") == "monarchybdefgiklpqstuvwxz"
  {
    assert s + "stuvwxyz" == s + "stu" + "vwx" + "yz";
    FreshStep(s, "monarchybdefgiklpq", "stu");
    FreshStep(s + "stu", "monarchybdefgiklpqstu", "vwx");
    MonarchyYz(s + "stu" + "vwx");
  }

  lemma MonarchyYz(s: string)
    requires Dedup(s) == "monarchybdefgiklpqstuvwx"
    ensures Dedup(s + "yz") == "monarchybdefgiklpqstuvwxz"
  {
    assert s + "yz" == s + "y" + "z";
    SeenStep(s, "monarchybdefgiklpqstuvwx", "y");
    FreshStep(s + "y", "monarchybdefgiklpqstuvwx", "z");
  }

  /** `matval` for the key "monarchy": the key, then the fallback letters it
      does not already hold. */
  lemma MonarchyMatval()
    ensures Matval("monarchy") == "monarchybdefgiklpqstuvwxz"
  {
    var p := "monarchy";
    assert AllLower(p) && NoDups(p);
    LowerOfLower(p);
    DedupOfNoDups(p);
    assert Filler(p) == 'i';
    MonarchyFirstFallbacks(p);
    MonarchyMiddleFallbacks(p + "abcdefgh");
    MonarchyLastFallbacks(p + "abcdefgh" + "iklmnopqr");
    FallbackChunks();
    AppendThree(p, "abcdefgh", "iklmnopqr", "stuvwxyz");
  }

  /** The fallback letters without 'j', in the three runs used above. */
  lemma FallbackChunks()
    ensures Alphabet('i') == "abcdefgh" + "iklmnopqr" + "stuvwxyz"
  {
  }

  /** The fallback letters without 'i', in the three runs used for "yzi". */
  lemma YziFallbackChunks()
    ensures Alphabet('j') == "abcdefgh" + "jklmnopqrs" + "tuvwxyz"
  {
  }

  lemma AppendThree(s: string, a: string, b: string, c: string)
    ensures s + (a + b + c) == s + a + b + c
  {
  }

  /** `keygen("monarchy")` is the square `MonarchyKey`. */
  lemma MonarchySquare()
    ensures KeySquare("monarchy") == MonarchyKey
  {
    var m := "monarchybdefgiklpqstuvwxz";
    MonarchyMatval();
    KeySquareRows("monarchy");
    assert m[0..5] == "monar";
    assert m[5..10] == "chybd";
    assert m[10..15] == "efgik";
    assert m[15..20] == "lpqst";
    assert m[20..25] == "uvwxz";
  }

  /** The square's five rows are the five runs of five letters of matval. */
  lemma KeySquareRows(key: string)
    ensures var m := Matval(key);
      KeySquare(key) == [m[0..5], m[5..10], m[10..15], m[15..20], m[20..25]]
  {
  }

  /** The fallback letters 'a'..'h' after "yzi" are all new. */
  lemma YziFirstFallbacks(s: string)
    requires Dedup(s) == "yzi"
    ensures Dedup(s + "abcdefgh") == "yziabcdefgh"
  {
    assert s + "abcdefgh" == s + "abcd" + "efgh";
    FreshStep(s, "yzi", "abcd");
    FreshStep(s + "abcd", "yziabcd", "efgh");
  }

  /** The fallback letters 'j'..'s' are all new. */
  lemma YziMiddleFallbacks(s: string)
    requires Dedup(s) == "yziabcdefgh"
    ensures Dedup(s + "jklmnopqrs") == "yziabcdefghjklmnopqrs"
  {
    assert s + "jklmnopqrs" == s + "jklmn" + "opqrs";
    FreshStep(s, "yziabcdefgh", "jklmn");
    FreshStep(s + "jklmn", "yziabcdefghjklmn", "opqrs");
  }

  /** The fallback letters 't'..'z': 'y' and 'z' are seen, the rest new. */
  lemma YziLastFallbacks(s: string)
    requires Dedup(s) == "yziabcdefghjklmnopqrs"
    ensures Dedup(s + "tuvwxyz") == "yziabcdefghjklmnopqrstuvwx"
  {
    assert s + "tuvwxyz" == s + "tuvwx" + "yz";
    FreshStep(s, "yziabcdefghjklmnopqrs", "tuvwx");
    SeenStep(s + "tuvwx", "yziabcdefghjklmnopqrstuvwx", "yz");
  }

  /** `matval` for the key "yzi": the key holds 'i', so 'j' is the filler,
      and all 26 letters are present. */
  lemma YziMatval()
    ensures Matval("yzi") == "yziabcdefghjklmnopqrstuvwx"
  {
    var p := "yzi";
    assert AllLower(p) && NoDups(p);
    LowerOfLower(p);
    DedupOfNoDups(p);
    assert Filler(p) == 'j';
    YziFirstFallbacks(p);
    YziMiddleFallbacks(p + "abcdefgh");
    YziLastFallbacks(p + "abcdefgh" + "jklmnopqrs");
    YziFallbackChunks();
    AppendThree(p, "abcdefgh", "jklmnopqrs", "tuvwxyz");
  }

  /** `keygen("yzi")` is `YziKey`: the 26th letter of `matval`, 'x', does not
      fit and is in no cell. */
  lemma YziSquare()
    ensures KeySquare("yzi") == YziKey
    ensures !InSquare(KeySquare("yzi"), 'x')
  {
    var m := "yziabcdefghjklmnopqrstuvwx";
    YziMatval();
    KeySquareRows("yzi");
    assert m[0..5] == "yziab";
    assert m[5..10] == "cdefg";
    assert m[10..15] == "hjklm";
    assert m[15..20] == "nopqr";
    assert m[20..25] == "stuvw";
    assert m[25] == 'x';
    DroppedLetter("yzi");
  }

  // ---------------------------------------------------------------- genbigram

  /** One two-letter unit `[first, second]` of the tokenised text. */
  datatype Digraph = Digraph(first: char, second: char)

  /** The characters of a list of digraphs, in order. */
  function Flatten(ps: seq<Digraph>): (r: string)
    ensures |r| == 2 * |ps|
  {
    if ps == [] then [] else [ps[0].first, ps[0].second] + Flatten(ps[1..])
  }

  lemma {:induction false} FlattenAppend(ps: seq<Digraph>, qs: seq<Digraph>)
    ensures Flatten(ps + qs) == Flatten(ps) + Flatten(qs)
  {
    if ps != [] {
      FlattenAppend(ps[1..], qs);
      assert (ps + qs)[1..] == ps[1..] + qs;
    } else {
      assert ps + qs == qs;
    }
  }

  lemma FlattenAt(ps: seq<Digraph>, k: nat)
    requires k < |ps|
    ensures Flatten(ps)[2 * k] == ps[k].first && Flatten(ps)[2 * k + 1] == ps[k].second
  {
    FlattenAppend(ps[..k], ps[k..]);
    assert ps == ps[..k] + ps[k..];
  }

  /** An odd-length text gets an 'x' appended. */
  function Pad(s: string): (t: string)
    ensures |t| % 2 == 0
  {
    if |s| % 2 != 0 then s + "x" else s
  }

  /** The pairs the `while` loop of `genbigram` produces from position 0 of
      the padded text: a repeated letter is split off with an 'x', a
      trailing single letter gets an 'x'. */
  function Pairs(t: string): seq<Digraph>
    decreases |t|
  {
    if t == [] then []
    else if |t| == 1 then [Digraph(t[0], 'x')]
    else if t[0] == t[1] then [Digraph(t[0], 'x')] + Pairs(t[1..])
    else [Digraph(t[0], t[1])] + Pairs(t[2..])
  }

  /** `genbigram(plaintxt)`. */
  function Bigrams(s: string): seq<Digraph>
  {
    Pairs(Pad(s))
  }

  /** `genbigram`: the `while` loop advancing `i` by one or two. */
  method Genbigram(plaintxt: string) returns (bigram: seq<Digraph>)
    ensures bigram == Bigrams(plaintxt)
  {
    var chars := plaintxt;
    if |chars| % 2 != 0 {
      chars := chars + "x";
    }
    bigram := [];
    var i := 0;
    while i < |chars|
      invariant 0 <= i <= |chars|
      invariant bigram + Pairs(chars[i..]) == Pairs(chars)
      decreases |chars| - i
    {
      PairsFrom(chars, i);
      if i + 1 < |chars| {
        if chars[i] == chars[i + 1] {
          Regroup(bigram, Digraph(chars[i], 'x'), Pairs(chars[i + 1..]));
          bigram := bigram + [Digraph(chars[i], 'x')];
          i := i + 1;
        } else {
          Regroup(bigram, Digraph(chars[i], chars[i + 1]), Pairs(chars[i + 2..]));
          bigram := bigram + [Digraph(chars[i], chars[i + 1])];
          i := i + 2;
        }
      } else {
        Regroup(bigram, Digraph(chars[i], 'x'), Pairs(chars[i + 1..]));
        bigram := bigram + [Digraph(chars[i], 'x')];
        i := i + 1;
      }
    }
    assert chars[i..] == [];
  }

  lemma Regroup(a: seq<Digraph>, d: Digraph, r: seq<Digraph>)
    ensures (a + [d]) + r == a + ([d] + r)
  {
  }

  /** One step of the `while` loop of `genbigram`, from position i. */
  lemma PairsFrom(t: string, i: nat)
    requires i < |t|
    ensures i + 1 < |t| && t[i] == t[i + 1] ==> Pairs(t[i..]) == [Digraph(t[i], 'x')] + Pairs(t[i + 1..])
    ensures i + 1 < |t| && t[i] != t[i + 1] ==> Pairs(t[i..]) == [Digraph(t[i], t[i + 1])] + Pairs(t[i + 2..])
    ensures i + 1 == |t| ==> Pairs(t[i..]) == [Digraph(t[i], 'x')]
  {
    if i + 1 < |t| {
      assert t[i..][1..] == t[i + 1..];
      assert t[i..][2..] == t[i + 2..];
    }
  }

  /** No digraph repeats a letter, except ['x', 'x']. */
  lemma {:induction false} PairsDistinct(t: string)
    ensures forall d :: d in Pairs(t) ==> d.first != d.second || d == Digraph('x', 'x')
    decreases |t|
  {
    if |t| >= 2 {
      if t[0] == t[1] {
        PairsDistinct(t[1..]);
      } else {
        PairsDistinct(t[2..]);
      }
    }
  }

  /** `f` is `t` with some 'x's inserted: each character of `f` is either
      the next character of `t` or an inserted 'x'. */
  predicate XPadded(t: string, f: string)
    decreases |f|
  {
    if f == [] then t == []
    else
      || (t != [] && f[0] == t[0] && XPadded(t[1..], f[1..]))
      || (f[0] == 'x' && XPadded(t, f[1..]))
  }

  /** `genbigram` never drops a letter: its flattened pairs are the padded text
      with 'x's inserted. */
  lemma {:induction false} PairsKeepLetters(t: string)
    ensures XPadded(t, Flatten(Pairs(t)))
    decreases |t|
  {
    var f := Flatten(Pairs(t));
    if |t| == 1 {
      assert f == [t[0], 'x'];
      assert f[1..] == "x" && t[1..] == [];
      assert XPadded([], "x") by {
        assert "x"[1..] == [];
      }
    } else if |t| >= 2 {
      if t[0] == t[1] {
        PairsKeepLetters(t[1..]);
        var g := Flatten(Pairs(t[1..]));
        assert f == [t[0], 'x'] + g;
        assert f[1..][1..] == g;
        assert XPadded(t[1..], f[1..]);
      } else {
        PairsKeepLetters(t[2..]);
        var g := Flatten(Pairs(t[2..]));
        assert f == [t[0], t[1]] + g;
        assert f[1..][1..] == g;
        assert t[1..][1..] == t[2..];
        assert XPadded(t[1..], f[1..]);
      }
    }
  }

  /** Pairs that never repeat a letter flatten to the text itself: an even
      text whose neighbours `t[2k]`, `t[2k+1]` differ is paired unchanged. */
  lemma {:induction false} PairsOfDistinct(ps: seq<Digraph>)
    requires forall d :: d in ps ==> d.first != d.second
    ensures Pairs(Flatten(ps)) == ps
  {
    if ps != [] {
      PairsOfDistinct(ps[1..]);
      var f := Flatten(ps);
      assert f[2..] == Flatten(ps[1..]);
    }
  }

  /** Every character of a digraph comes from the padded text or is 'x'. */
  lemma {:induction false} PairsChars(t: string)
    ensures forall d :: d in Pairs(t) ==>
              (d.first in t || d.first == 'x') && (d.second in t || d.second == 'x')
    decreases |t|
  {
    if |t| >= 2 {
      if t[0] == t[1] {
        PairsChars(t[1..]);
      } else {
        PairsChars(t[2..]);
      }
    }
  }

  // ------------------------------------------------------------------- findrc

  /** A (row, column) pair as `findrc` returns it; (-1, -1) means "absent". */
  datatype Position = Position(row: int, col: int)

  /** Scans the cells from row-major position `n` on. */
  function FindFrom(key: Square, ch: char, n: nat): Position
    requires IsSquare(key) && n <= 25
    decreases 25 - n
  {
    if n == 25 then Position(-1, -1)
    else if Cell(key, n) == ch then Position(n / 5, n % 5)
    else FindFrom(key, ch, n + 1)
  }

  /** `findrc(char, key)`: the first row-major cell holding `ch`, or (-1, -1). */
  function Locate(key: Square, ch: char): (p: Position)
    requires IsSquare(key)
    ensures InSquare(key, ch) ==>
              0 <= p.row < 5 && 0 <= p.col < 5 && key[p.row][p.col] == ch
              && forall n :: 0 <= n < 5 * p.row + p.col ==> Cell(key, n) != ch
    ensures !InSquare(key, ch) ==> p == Position(-1, -1)
  {
    FindFromFirst(key, ch, 0);
    FindFrom(key, ch, 0)
  }

  lemma {:induction false} FindFromFirst(key: Square, ch: char, n: nat)
    requires IsSquare(key) && n <= 25
    requires forall m :: 0 <= m < n ==> Cell(key, m) != ch
    ensures var p := FindFrom(key, ch, n);
      if InSquare(key, ch)
      then 0 <= p.row < 5 && 0 <= p.col < 5 && key[p.row][p.col] == ch
           && forall m :: 0 <= m < 5 * p.row + p.col ==> Cell(key, m) != ch
      else p == Position(-1, -1)
    decreases 25 - n
  {
    if n < 25 && Cell(key, n) != ch {
      FindFromFirst(key, ch, n + 1);
    } else if n < 25 {
      assert 5 * (n / 5) + n % 5 == n;
    }
  }

  /** With distinct cells, looking up the letter of cell (r, c) finds (r, c). */
  lemma LocateCell(key: Square, r: nat, c: nat)
    requires IsSquare(key) && DistinctCells(key) && r < 5 && c < 5
    ensures Locate(key, key[r][c]) == Position(r, c)
  {
    var n := 5 * r + c;
    assert Cell(key, n) == key[r][c];
    var p := Locate(key, key[r][c]);
    var m := 5 * p.row + p.col;
    assert Cell(key, m) == key[r][c];
  }

  /** `findrc`: two nested loops over rows and columns, returning at the first
      match. */
  method FindRC(ch: char, key: Square) returns (p: Position)
    requires IsSquare(key)
    ensures p == Locate(key, ch)
  {
    for i := 0 to 5
      invariant forall n :: 0 <= n < 5 * i ==> Cell(key, n) != ch
    {
      for j := 0 to 5
        invariant forall n :: 0 <= n < 5 * i + j ==> Cell(key, n) != ch
      {
        if key[i][j] == ch {
          assert Cell(key, 5 * i + j) == ch;
          LocateFirst(key, ch, i, j);
          return Position(i, j);
        }
        assert Cell(key, 5 * i + j) == key[i][j];
      }
    }
    return Position(-1, -1);
  }

  /** The first row-major match is what `Locate` returns. */
  lemma LocateFirst(key: Square, ch: char, r: nat, c: nat)
    requires IsSquare(key) && r < 5 && c < 5 && key[r][c] == ch
    requires forall n :: 0 <= n < 5 * r + c ==> Cell(key, n) != ch
    ensures Locate(key, ch) == Position(r, c)
  {
    assert Cell(key, 5 * r + c) == ch;
    var p := Locate(key, ch);
    var m := 5 * p.row + p.col;
    assert Cell(key, m) == ch;
    if m < 5 * r + c {
      assert false;
    } else if m > 5 * r + c {
      assert false;
    }
  }

  // ------------------------------------------------------------------ encrypt

  predicate OnGrid(p: Position)
  {
    0 <= p.row < 5 && 0 <= p.col < 5
  }

  /** The substitution `encrypt` applies to the letters at `p1` and `p2`:
      in the same row both move one column right, in the same column both
      move one row down (wrapping), and otherwise each takes the other's
      column. */
  function Substitute(key: Square, p1: Position, p2: Position): Digraph
    requires IsSquare(key) && OnGrid(p1) && OnGrid(p2)
  {
    if p1.row == p2.row then
      Digraph(key[p1.row][(p1.col + 1) % 5], key[p1.row][(p2.col + 1) % 5])
    else if p1.col == p2.col then
      Digraph(key[(p1.row + 1) % 5][p1.col], key[(p2.row + 1) % 5][p2.col])
    else
      Digraph(key[p1.row][p2.col], key[p2.row][p1.col])
  }

  /** One digraph of `encrypt`: look both letters up, then substitute. */
  function EncryptDigraph(key: Square, d: Digraph): Digraph
    requires IsSquare(key) && InSquare(key, d.first) && InSquare(key, d.second)
  {
    Substitute(key, Locate(key, d.first), Locate(key, d.second))
  }

  /** A simple sufficient condition for every looked-up letter to be in the
      square: the text's letters and the filler 'x' all are. */
  predicate Covers(key: Square, text: string)
    requires IsSquare(key)
  {
    InSquare(key, 'x') && forall i :: 0 <= i < |text| ==> InSquare(key, text[i])
  }

  /** Both letters of every digraph are in the square: `findrc` finds each
      letter `encrypt` or `decrypt` looks up. (A missing one would make it
      return (-1, -1).) */
  predicate PairsInSquare(key: Square, ps: seq<Digraph>)
    requires IsSquare(key)
  {
    forall k :: 0 <= k < |ps| ==> InSquare(key, ps[k].first) && InSquare(key, ps[k].second)
  }

  /** Flattening pairs of square letters gives a text of square letters. */
  lemma FlattenInSquare(key: Square, ps: seq<Digraph>)
    requires IsSquare(key) && PairsInSquare(key, ps)
    ensures forall i :: 0 <= i < |Flatten(ps)| ==> InSquare(key, Flatten(ps)[i])
  {
    var c := Flatten(ps);
    forall i | 0 <= i < |c|
      ensures InSquare(key, c[i])
    {
      var k := i / 2;
      FlattenAt(ps, k);
      if i % 2 == 0 {
        assert c[i] == ps[k].first;
      } else {
        assert c[i] == ps[k].second;
      }
    }
  }

  function EncryptPairs(key: Square, ps: seq<Digraph>): (es: seq<Digraph>)
    requires IsSquare(key) && PairsInSquare(key, ps)
    ensures |es| == |ps|
  {
    seq(|ps|, k requires 0 <= k < |ps| => EncryptDigraph(key, ps[k]))
  }

  /** The text `encrypt(plaintxt, key)` returns. */
  function Enciphered(plaintxt: string, key: Square): (c: string)
    requires IsSquare(key) && PairsInSquare(key, Bigrams(plaintxt))
    ensures |c| == 2 * |Bigrams(plaintxt)|
  {
    Flatten(EncryptPairs(key, Bigrams(plaintxt)))
  }

  /** When the square holds the text's letters and 'x', it holds every
      digraph's letters. */
  lemma BigramsInSquare(key: Square, plaintxt: string)
    requires IsSquare(key) && Covers(key, plaintxt)
    ensures PairsInSquare(key, Bigrams(plaintxt))
  {
    var t := Pad(plaintxt);
    PairsChars(t);
    forall c | c in t
      ensures InSquare(key, c)
    {
      if c !in plaintxt {
        assert c == 'x';
      }
    }
    forall k | 0 <= k < |Pairs(t)|
      ensures InSquare(key, Pairs(t)[k].first) && InSquare(key, Pairs(t)[k].second)
    {
      assert Pairs(t)[k] in Pairs(t);
    }
  }

  /** `encrypt`: tokenises, then substitutes digraph by digraph, appending to
      `subbed`. */
  method Encrypt(plaintxt: string, key: Square) returns (subbed: string)
    requires IsSquare(key) && PairsInSquare(key, Bigrams(plaintxt))
    ensures subbed == Enciphered(plaintxt, key)
  {
    var bigram := Genbigram(plaintxt);
    subbed := "";
    for k := 0 to |bigram|
      invariant subbed == Flatten(EncryptPairs(key, bigram[..k]))
    {
      var sec := bigram[k];
      assert InSquare(key, sec.first) && InSquare(key, sec.second);
      var p1 := FindRC(sec.first, key);
      var p2 := FindRC(sec.second, key);
      assert OnGrid(p1) && OnGrid(p2);
      var sub := Substitute(key, p1, p2);
      assert sub == EncryptDigraph(key, sec);
      ghost var before := subbed;
      subbed := subbed + [sub.first];
      subbed := subbed + [sub.second];
      assert subbed == before + [sub.first, sub.second];
      EncryptPairsSnoc(key, bigram, k);
    }
    assert bigram[..|bigram|] == bigram;
  }

  lemma EncryptPairsSnoc(key: Square, ps: seq<Digraph>, k: nat)
    requires IsSquare(key) && PairsInSquare(key, ps) && k < |ps|
    ensures PairsInSquare(key, ps[..k]) && PairsInSquare(key, ps[..k + 1])
    ensures Flatten(EncryptPairs(key, ps[..k + 1]))
         == Flatten(EncryptPairs(key, ps[..k]))
          + [EncryptDigraph(key, ps[k]).first, EncryptDigraph(key, ps[k]).second]
  {
    var e := EncryptDigraph(key, ps[k]);
    assert EncryptPairs(key, ps[..k + 1]) == EncryptPairs(key, ps[..k]) + [e];
    FlattenAppend(EncryptPairs(key, ps[..k]), [e]);
  }

  /** The substituted letters are letters of the square. */
  lemma SubstituteInSquare(key: Square, p1: Position, p2: Position)
    requires IsSquare(key) && OnGrid(p1) && OnGrid(p2)
    ensures InSquare(key, Substitute(key, p1, p2).first)
    ensures InSquare(key, Substitute(key, p1, p2).second)
  {
    var e := Substitute(key, p1, p2);
    forall r: nat, c: nat | r < 5 && c < 5
      ensures InSquare(key, key[r][c])
    {
      assert Cell(key, 5 * r + c) == key[r][c];
    }
  }

  /** In a square of distinct letters, two distinct letters are enciphered to
      two distinct letters. */
  lemma EncryptDistinct(key: Square, d: Digraph)
    requires IsSquare(key) && DistinctCells(key)
    requires InSquare(key, d.first) && InSquare(key, d.second)
    requires d.first != d.second
    ensures EncryptDigraph(key, d).first != EncryptDigraph(key, d).second
  {
    var p1 := Locate(key, d.first);
    var p2 := Locate(key, d.second);
    var e := EncryptDigraph(key, d);
    if p1.row == p2.row {
      assert p1.col != p2.col;
      CellsDiffer(key, p1.row, (p1.col + 1) % 5, p1.row, (p2.col + 1) % 5);
    } else if p1.col == p2.col {
      CellsDiffer(key, (p1.row + 1) % 5, p1.col, (p2.row + 1) % 5, p2.col);
    } else {
      CellsDiffer(key, p1.row, p2.col, p2.row, p1.col);
    }
  }

  /** Different positions of a square of distinct letters hold different
      letters. */
  lemma CellsDiffer(key: Square, r1: nat, c1: nat, r2: nat, c2: nat)
    requires IsSquare(key) && DistinctCells(key)
    requires r1 < 5 && c1 < 5 && r2 < 5 && c2 < 5 && (r1 != r2 || c1 != c2)
    ensures key[r1][c1] != key[r2][c2]
  {
    assert Cell(key, 5 * r1 + c1) == key[r1][c1];
    assert Cell(key, 5 * r2 + c2) == key[r2][c2];
    if 5 * r1 + c1 < 5 * r2 + c2 {
      assert Cell(key, 5 * r1 + c1) != Cell(key, 5 * r2 + c2);
    } else {
      assert Cell(key, 5 * r2 + c2) != Cell(key, 5 * r1 + c1);
    }
  }

  /** The square `keygen("yzi")` builds; it has no 'x'. */
  const YziKey: Square := ["yziab", "cdefg", "hjklm", "nopqr", "stuvw"]

  /** `encrypt("ab", keygen("yzi"))` is "by": the square has no 'x', but
      "ab" needs none. */
  lemma EncryptWithoutFiller()
    ensures !InSquare(KeySquare("yzi"), 'x')
    ensures PairsInSquare(KeySquare("yzi"), Bigrams("ab"))
    ensures Enciphered("ab", KeySquare("yzi")) == "by"
  {
    YziSquare();
    EncryptAbUnderYzi();
  }

  lemma EncryptAbUnderYzi()
    ensures Bigrams("ab") == [Digraph('a', 'b')]
    ensures PairsInSquare(YziKey, Bigrams("ab"))
    ensures Enciphered("ab", YziKey) == "by"
  {
    assert Pad("ab") == "ab";
    assert "ab"[2..] == [];
    assert Cell(YziKey, 3) == 'a' && Cell(YziKey, 4) == 'b';
    LocateFirst(YziKey, 'a', 0, 3);
    LocateFirst(YziKey, 'b', 0, 4);
    assert EncryptDigraph(YziKey, Digraph('a', 'b')) == Digraph('b', 'y');
  }

  /** The square `keygen("monarchy")` builds. */
  const MonarchyKey: Square := ["monar", "chybd", "efgik", "lpqst", "uvwxz"]

  /** `genbigram("attack")` is `[a, t], [t, a], [c, k]`, which flattens back
      to "attack". */
  lemma BigramsAttack()
    ensures Bigrams("attack") == [Digraph('a', 't'), Digraph('t', 'a'), Digraph('c', 'k')]
    ensures Flatten(Bigrams("attack")) == "attack"
  {
    var t := Pad("attack");
    assert t == "attack";
    assert t[2..][2..] == "ck";
    assert t[2..] == "tack";
    var bs := [Digraph('a', 't'), Digraph('t', 'a'), Digraph('c', 'k')];
    assert Flatten(bs[2..]) == "ck";
    assert Flatten(bs[1..]) == "tack";
  }

  /** The cells of `MonarchyKey` in row-major order. */
  lemma MonarchyCells()
    ensures IsSquare(MonarchyKey)
    ensures forall n :: 0 <= n < 25 ==> Cell(MonarchyKey, n) == "monarchybdefgiklpqstuvwxz"[n]
  {
  }

  /** Where a letter of `MonarchyKey` is found. */
  lemma MonarchyLocate(ch: char, n: nat)
    requires n < 25 && "monarchybdefgiklpqstuvwxz"[n] == ch
    requires ch !in "monarchybdefgiklpqstuvwxz"[..n]
    ensures IsSquare(MonarchyKey) && Locate(MonarchyKey, ch) == Position(n / 5, n % 5)
  {
    MonarchyCells();
    forall m | 0 <= m < n
      ensures Cell(MonarchyKey, m) != ch
    {
      assert "monarchybdefgiklpqstuvwxz"[..n][m] == "monarchybdefgiklpqstuvwxz"[m];
    }
    assert Cell(MonarchyKey, 5 * (n / 5) + n % 5) == ch;
    LocateFirst(MonarchyKey, ch, n / 5, n % 5);
  }

  /** The 25 letters of `MonarchyKey` are distinct. */
  lemma MonarchyDistinct()
    ensures IsSquare(MonarchyKey) && DistinctCells(MonarchyKey)
  {
    var m := "monarchybdefgiklpqstuvwxz";
    MonarchyCells();
    assert NoDups(m) by {
      forall i, j | 0 <= i < j < 25
        ensures m[i] != m[j]
      {
        MonarchyLetterRank(i);
        MonarchyLetterRank(j);
      }
    }
  }

  /** Each letter of `MonarchyKey` occurs at one position only: its index
      in the row-major reading is a function of the letter. */
  lemma MonarchyLetterRank(i: nat)
    requires i < 25
    ensures MonarchyRank("monarchybdefgiklpqstuvwxz"[i]) == i
  {
  }

  function MonarchyRank(c: char): int
  {
    if c == 'm' then 0 else if c == 'o' then 1 else if c == 'n' then 2
    else if c == 'a' then 3 else if c == 'r' then 4 else if c == 'c' then 5
    else if c == 'h' then 6 else if c == 'y' then 7 else if c == 'b' then 8
    else if c == 'd' then 9 else if c == 'e' then 10 else if c == 'f' then 11
    else if c == 'g' then 12 else if c == 'i' then 13 else if c == 'k' then 14
    else if c == 'l' then 15 else if c == 'p' then 16 else if c == 'q' then 17
    else if c == 's' then 18 else if c == 't' then 19 else if c == 'u' then 20
    else if c == 'v' then 21 else if c == 'w' then 22 else if c == 'x' then 23
    else if c == 'z' then 24 else -1
  }

  /** The three digraphs of "attack" under `MonarchyKey`: a rectangle, its
      mirror image, and a rectangle. */
  lemma EncryptAttackDigraphs()
    ensures IsSquare(MonarchyKey)
    ensures InSquare(MonarchyKey, 'a') && InSquare(MonarchyKey, 't')
    ensures InSquare(MonarchyKey, 'c') && InSquare(MonarchyKey, 'k')
    ensures InSquare(MonarchyKey, 'x')
    ensures EncryptDigraph(MonarchyKey, Digraph('a', 't')) == Digraph('r', 's')
    ensures EncryptDigraph(MonarchyKey, Digraph('t', 'a')) == Digraph('s', 'r')
    ensures EncryptDigraph(MonarchyKey, Digraph('c', 'k')) == Digraph('d', 'e')
  {
    MonarchyCells();
    assert Cell(MonarchyKey, 3) == 'a' && Cell(MonarchyKey, 19) == 't';
    assert Cell(MonarchyKey, 5) == 'c' && Cell(MonarchyKey, 14) == 'k';
    assert Cell(MonarchyKey, 23) == 'x';
    MonarchyLocate('a', 3);
    MonarchyLocate('t', 19);
    MonarchyLocate('c', 5);
    assert "monarchybdefgiklpqstuvwxz"[..14] == "monarchybdefgi";
    MonarchyLocate('k', 14);
  }

  lemma EncryptAttackPairs(b: seq<Digraph>)
    requires b == [Digraph('a', 't'), Digraph('t', 'a'), Digraph('c', 'k')]
    ensures IsSquare(MonarchyKey) && PairsInSquare(MonarchyKey, b)
    ensures EncryptPairs(MonarchyKey, b)
         == [Digraph('r', 's'), Digraph('s', 'r'), Digraph('d', 'e')]
  {
    EncryptAttackDigraphs();
  }

  /** `encrypt("attack", keygen("monarchy"))` is "rssrde". */
  lemma EncryptAttack()
    ensures PairsInSquare(KeySquare("monarchy"), Bigrams("attack"))
    ensures Enciphered("attack", KeySquare("monarchy")) == "rssrde"
  {
    MonarchySquare();
    EncryptAttackUnderSquare();
  }

  lemma EncryptAttackUnderSquare()
    ensures PairsInSquare(MonarchyKey, Bigrams("attack"))
    ensures Enciphered("attack", MonarchyKey) == "rssrde"
  {
    EncryptAttackDigraphs();
    BigramsAttack();
    EncryptAttackPairs(Bigrams("attack"));
    var e := [Digraph('r', 's'), Digraph('s', 'r'), Digraph('d', 'e')];
    assert Flatten(e[2..]) == "de";
    assert Flatten(e[1..]) == "srde";
  }
}
