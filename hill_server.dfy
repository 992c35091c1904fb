// The Hill cipher's sending side: the key string becomes a matrix of
// residues with three columns, and every block of three plaintext letters,
// read as a row vector, is multiplied by that matrix modulo 26.

module HillServer {
  import opened Ascii
  import opened Modular

  /** A matrix as a sequence of rows. */
  type Matrix = seq<seq<int>>

  /** Three rows of three entries: the only key shape the 1×3 product accepts. */
  predicate Is3x3(k: Matrix)
  {
    |k| == 3 && forall r :: 0 <= r < 3 ==> |k[r]| == 3
  }

  // ---------------------------------------------------------------------------
  // matricize
  // ---------------------------------------------------------------------------

  /** Entry n of the flattened key: the char's offset from 'a', or the pad 23 ('x'). */
  function KeyNumber(key: string, n: nat): int
  {
    if n < |key| then Residue(key[n], 'a') else 23
  }

  /** Number of rows of three needed to hold n entries. */
  function RowCount(n: nat): nat { (n + 2) / 3 }

  /** Specification of `matricize`: row r holds entries 3r, 3r+1, 3r+2. */
  function KeyMatrix(key: string): Matrix
  {
    seq(RowCount(|key|), r requires 0 <= r => seq(3, c requires 0 <= c => KeyNumber(key, 3 * r + c)))
  }

  /** Concatenation of the rows of a matrix. */
  function Entries(m: Matrix): seq<int>
  {
    if m == [] then [] else m[0] + Entries(m[1..])
  }

  lemma {:induction false} EntriesAppend(m: Matrix, row: seq<int>)
    ensures Entries(m + [row]) == Entries(m) + row
  {
    if m != [] {
      assert (m + [row])[1..] == m[1..] + [row];
      EntriesAppend(m[1..], row);
    }
  }

  /**
   * The key matrix lists the key's residues in order, followed by fewer
   * than three pads of 23, in rows of exactly three.
   */
  lemma KeyMatrixEntries(key: string)
    ensures forall r :: 0 <= r < |KeyMatrix(key)| ==> |KeyMatrix(key)[r]| == 3
    ensures var e := Entries(KeyMatrix(key));
      && |e| % 3 == 0 && |key| <= |e| < |key| + 3
      && (forall i :: 0 <= i < |key| ==> e[i] == Residue(key[i], 'a'))
      && (forall i :: |key| <= i < |e| ==> e[i] == 23)
  {
    var m := KeyMatrix(key);
    var n := 0;
    while n < |m|
      invariant n <= |m|
      invariant Entries(m[..n]) == seq(3 * n, i requires 0 <= i => KeyNumber(key, i))
    {
      assert m[..n + 1] == m[..n] + [m[n]];
      EntriesAppend(m[..n], m[n]);
      n := n + 1;
    }
    assert m[..n] == m;
  }

  /** `matricize`: residues, then pads of 23 up to a multiple of 3, then rows of 3. */
  method Matricize(key: string) returns (ckey: Matrix)
    ensures ckey == KeyMatrix(key)
  {
    var nums: seq<int> := [];
    for i := 0 to |key|
      invariant nums == seq(i, j requires 0 <= j < i => Residue(key[j], 'a'))
    {
      nums := nums + [Residue(key[i], 'a')];
    }
    while |nums| % 3 != 0
      invariant |key| <= |nums| <= RowCount(|key|) * 3
      invariant forall j :: 0 <= j < |nums| ==> nums[j] == KeyNumber(key, j)
      decreases RowCount(|key|) * 3 - |nums|
    {
      nums := nums + [23];
    }
    assert |nums| == RowCount(|key|) * 3;
    ckey := [];
    var i := 0;
    while i < |nums|
      invariant i == 3 * |ckey| <= |nums|
      invariant forall r :: 0 <= r < |ckey| ==> ckey[r] == KeyMatrix(key)[r]
    {
      ckey := ckey + [nums[i..i + 3]];
      i := i + 3;
    }
  }

  lemma KeyMatrixAt(key: string, r: nat, c: nat)
    requires r < RowCount(|key|) && c < 3
    ensures KeyMatrix(key)[r][c] == KeyNumber(key, 3 * r + c)
  {
  }

  /** The demonstration key "gybnqkurp" becomes [[6,24,1],[13,16,10],[20,17,15]]. */
  lemma GybnqkurpMatrix(key: string)
    requires key == "gybnqkurp"
    ensures KeyMatrix(key) == [[6, 24, 1], [13, 16, 10], [20, 17, 15]]
  {
    var m := KeyMatrix(key);
    forall r, c | 0 <= r < 3 && 0 <= c < 3
      ensures m[r][c] == Residue(key[3 * r + c], 'a')
    {
      KeyMatrixAt(key, r, c);
    }
    assert m[0] == [6, 24, 1];
    assert m[1] == [13, 16, 10];
    assert m[2] == [20, 17, 15];
  }

  /** Exactly the keys of 7 to 9 chars give the 3×3 matrix `encrypt` needs. */
  lemma KeyShape(key: string)
    ensures Is3x3(KeyMatrix(key)) <==> 7 <= |key| <= 9
  {
  }

  // ---------------------------------------------------------------------------
  // encrypt
  // ---------------------------------------------------------------------------

  /** The lowered text followed by 'x' up to a multiple of 3. */
  function Padded(s: string): (t: string)
    ensures |t| % 3 == 0 && |s| <= |t| < |s| + 3
    ensures forall i :: 0 <= i < |s| ==> t[i] == ToLower(s[i])
    ensures forall i :: |s| <= i < |t| ==> t[i] == 'x'
  {
    LowerString(s) + seq((3 - |s| % 3) % 3, _ => 'x')
  }

  /** Each char's offset from 'a', as `ord(c) - ord("a")`. */
  function Numbers(s: string): seq<int>
  {
    seq(|s|, i requires 0 <= i < |s| => Residue(s[i], 'a'))
  }

  /** Entry j of the row vector v times the matrix k, without reduction. */
  function Combine(v: seq<int>, k: Matrix, j: nat): int
    requires |v| == 3 && Is3x3(k) && j < 3
  {
    v[0] * k[0][j] + v[1] * k[1][j] + v[2] * k[2][j]
  }

  /** `(row @ k) % 26` for a 1×3 row. */
  function MulMod(v: seq<int>, k: Matrix): (w: seq<int>)
    requires |v| == 3 && Is3x3(k)
    ensures |w| == 3 && forall j :: 0 <= j < 3 ==> 0 <= w[j] < 26
  {
    seq(3, j requires 0 <= j < 3 => Combine(v, k, j) % 26)
  }

  /** The three residues of w written back as letters, `chr(num + ord("a"))`. */
  function Spell(w: seq<int>): (t: string)
    requires |w| == 3 && forall j :: 0 <= j < 3 ==> 0 <= w[j] < 26
    ensures |t| == 3 && AllLower(t)
  {
    [Letter(w[0], 'a'), Letter(w[1], 'a'), Letter(w[2], 'a')]
  }

  /** Every block of three numbers multiplied by k, written back as letters. */
  function Transform(nums: seq<int>, k: Matrix): (t: string)
    requires |nums| % 3 == 0 && (nums == [] || Is3x3(k))
    ensures |t| == |nums| && AllLower(t)
    decreases |nums|
  {
    if nums == [] then [] else Spell(MulMod(nums[..3], k)) + Transform(nums[3..], k)
  }

  /** Unfolding of Transform at a non-empty input: the first block, then the rest. */
  lemma TransformCons(nums: seq<int>, k: Matrix)
    requires |nums| % 3 == 0 && nums != [] && Is3x3(k)
    ensures |nums| >= 3 && |nums[3..]| % 3 == 0
    ensures Transform(nums, k) == Spell(MulMod(nums[..3], k)) + Transform(nums[3..], k)
  {
  }

  /** Specification of `encrypt`. */
  function Enciphered(plaintxt: string, key: string): (c: string)
    requires plaintxt == [] || 7 <= |key| <= 9
    ensures |c| == |Padded(plaintxt)| && AllLower(c)
  {
    Transform(Numbers(Padded(plaintxt)), KeyMatrix(key))
  }

  /** Transform works block by block. */
  lemma {:induction false} TransformAppend(xs: seq<int>, ys: seq<int>, k: Matrix)
    requires |xs| % 3 == 0 && |ys| % 3 == 0 && Is3x3(k)
    ensures Transform(xs + ys, k) == Transform(xs, k) + Transform(ys, k)
    decreases |xs|
  {
    if xs == [] {
      assert xs + ys == ys;
    } else {
      TransformCons(xs, k);
      TransformCons(xs + ys, k);
      assert (xs + ys)[..3] == xs[..3];
      assert (xs + ys)[3..] == xs[3..] + ys;
      TransformAppend(xs[3..], ys, k);
    }
  }

  /** Position 3b+j of the output is entry j of block b times the key. */
  lemma {:induction false} TransformAt(nums: seq<int>, k: Matrix, b: nat, j: nat)
    requires |nums| % 3 == 0 && Is3x3(k) && 3 * b + 3 <= |nums| && j < 3
    ensures Residue(Transform(nums, k)[3 * b + j], 'a') == Combine(nums[3 * b .. 3 * b + 3], k, j) % 26
    decreases b
  {
    TransformCons(nums, k);
    var head := Spell(MulMod(nums[..3], k));
    if b == 0 {
      assert nums[0..3] == nums[..3];
      assert Transform(nums, k)[j] == head[j];
    } else {
      TransformAt(nums[3..], k, b - 1, j);
      assert nums[3..][3 * (b - 1) .. 3 * (b - 1) + 3] == nums[3 * b .. 3 * b + 3];
      assert Transform(nums, k)[3 * b + j] == Transform(nums[3..], k)[3 * (b - 1) + j];
    }
  }

  /**
   * Output block b is the row vector of plaintext block b times the key
   * matrix, modulo 26.
   */
  lemma EncipheredBlock(plaintxt: string, key: string, b: nat, j: nat)
    requires 7 <= |key| <= 9 && 3 * b + 3 <= |Padded(plaintxt)| && j < 3
    ensures var p := Numbers(Padded(plaintxt));
      var k := KeyMatrix(key);
      Residue(Enciphered(plaintxt, key)[3 * b + j], 'a')
        == (p[3 * b] * k[0][j] + p[3 * b + 1] * k[1][j] + p[3 * b + 2] * k[2][j]) % 26
  {
    TransformAt(Numbers(Padded(plaintxt)), KeyMatrix(key), b, j);
  }

  /**
   * Block locality: when the first part fills whole blocks, the ciphertext of
   * a concatenation is the concatenation of the ciphertexts.
   */
  lemma EncipheredAppend(p1: string, p2: string, key: string)
    requires |p1| % 3 == 0 && 7 <= |key| <= 9
    ensures Enciphered(p1 + p2, key) == Enciphered(p1, key) + Enciphered(p2, key)
  {
    assert Padded(p1) == LowerString(p1);
    assert Padded(p1 + p2) == Padded(p1) + Padded(p2);
    assert Numbers(Padded(p1 + p2)) == Numbers(Padded(p1)) + Numbers(Padded(p2));
    TransformAppend(Numbers(Padded(p1)), Numbers(Padded(p2)), KeyMatrix(key));
  }

  /** `encrypt`: lower, pad with 'x', and multiply each block by the key matrix. */
  method Encrypt(plaintxt: string, key: string) returns (ciphertxt: string)
    requires plaintxt == [] || 7 <= |key| <= 9
    ensures ciphertxt == Enciphered(plaintxt, key)
  {
    var k := Matricize(key);
    var chars := LowerString(plaintxt);
    while |chars| % 3 != 0
      invariant |plaintxt| <= |chars| <= |Padded(plaintxt)|
      invariant forall i :: 0 <= i < |chars| ==> chars[i] == Padded(plaintxt)[i]
      decreases |Padded(plaintxt)| - |chars|
    {
      chars := chars + ['x'];
    }
    assert chars == Padded(plaintxt);
    var nums: seq<int> := [];
    for i := 0 to |chars|
      invariant nums == Numbers(chars[..i])
    {
      nums := nums + [Residue(chars[i], 'a')];
    }
    assert chars[..|chars|] == chars;
    // With no block the loop body, and so the product with the key, never runs.
    ciphertxt := "";
    if nums != [] {
      ciphertxt := MultiplyBlocks(nums, k);
    }
  }

  /** The block loop of `encrypt`: each row of three times the key, modulo 26. */
  method MultiplyBlocks(nums: seq<int>, k: Matrix) returns (ciphertxt: string)
    requires |nums| % 3 == 0 && Is3x3(k)
    ensures ciphertxt == Transform(nums, k)
  {
    ciphertxt := "";
    var i := 0;
    ghost var b, blocks := 0, |nums| / 3;
    assert |nums| == 3 * blocks;
    while i < |nums|
      invariant i == 3 * b && b <= blocks
      invariant ciphertxt == Transform(nums[..i], k)
    {
      var row := MulMod(nums[i..i + 3], k);
      ciphertxt := AppendLetters(ciphertxt, row);
      TransformSnoc(nums, b, k);
      i, b := i + 3, b + 1;
    }
    assert nums[..i] == nums;
  }

  /** Encrypting "abcxyztuv" with "gybnqkurp" gives "byoojoopo". */
  lemma EncryptDemo(plaintxt: string, key: string)
    requires plaintxt == "abcxyztuv" && key == "gybnqkurp"
    ensures Enciphered(plaintxt, key) == "byoojoopo"
  {
    GybnqkurpMatrix(key);
    var k := KeyMatrix(key);
    assert Padded(plaintxt) == plaintxt;
    var b0, b1, b2 := [0, 1, 2], [23, 24, 25], [19, 20, 21];
    assert Numbers(plaintxt) == b0 + b1 + b2;
    TransformAppend(b0 + b1, b2, k);
    TransformAppend(b0, b1, k);
    DemoBlock(b0, k, "byo");
    DemoBlock(b1, k, "ojo");
    DemoBlock(b2, k, "opo");
  }

  lemma DemoBlock(v: seq<int>, k: Matrix, out: string)
    requires k == [[6, 24, 1], [13, 16, 10], [20, 17, 15]]
    requires (v == [0, 1, 2] && out == "byo") || (v == [23, 24, 25] && out == "ojo") || (v == [19, 20, 21] && out == "opo")
    ensures Transform(v, k) == out
  {
    TransformOne(v, k);
  }

  /** The inner loop of `encrypt`: each residue of the row appended as a letter. */
  method AppendLetters(text: string, row: seq<int>) returns (out: string)
    requires |row| == 3 && forall j :: 0 <= j < 3 ==> 0 <= row[j] < 26
    ensures out == text + Spell(row)
  {
    out := text;
    for j := 0 to 3
      invariant out == text + Spell(row)[..j]
    {
      out := out + [Letter(row[j], 'a')];
    }
  }

  /** Appending one more block of output, as the loop of `encrypt` does. */
  lemma TransformSnoc(nums: seq<int>, b: nat, k: Matrix)
    requires 3 * b + 3 <= |nums| && Is3x3(k)
    ensures Transform(nums[..3 * b + 3], k) == Transform(nums[..3 * b], k) + Spell(MulMod(nums[3 * b..3 * b + 3], k))
  {
    var i := 3 * b;
    TransformOne(nums[i..i + 3], k);
    TransformAppend(nums[..i], nums[i..i + 3], k);
    assert nums[..i + 3] == nums[..i] + nums[i..i + 3];
  }

  lemma TransformOne(block: seq<int>, k: Matrix)
    requires |block| == 3 && Is3x3(k)
    ensures Transform(block, k) == Spell(MulMod(block, k))
  {
    assert block[..3] == block;
  }
}
