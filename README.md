# Classical ciphers, modelled and proved in Dafny

This project models the cipher transforms of a small Python toolkit. Each
cipher has a sender (which encrypts) and a receiver (which decrypts):

- **Caesar** (`ceaser/`): a shift modulo 26.
- **Vigenère** (`Vigenere/`): key expansion over the letters of the text,
  then shifts, with an aligned and a sequential decryption mode.
- **Vernam**, in two forms:
  - `Vernam/vernam.py`: exclusive or of code points or integer lists, a
    counting key and a fixed-seed linear congruential key.
  - `Vernam/client.py` and `Vernam/server.py`: exclusive or of letter
    residues folded back with `% 26`.
- **Playfair**, in two variants:
  - `playfair/`: a key square, a while-loop digraph splitter and the
    row/column/rectangle substitution.
  - `playfair/playfair/`: a visited-table key square and a stepped for-loop
    splitter.
- **Hill** (`hill/`): a key matrix, `P·K mod 26` per block of three, and
  decryption through the determinant, its inverse modulo 26 and the
  adjugate.

Each source file is one Dafny module:

| module | models |
|---|---|
| `CaesarClient`, `CaesarServer` | `ceaser/client.py`, `ceaser/server.py` |
| `VigenereClient`, `VigenereServer` | `Vigenere/client.py`, `Vigenere/server.py` |
| `Vernam`, `VernamClient`, `VernamServer` | `Vernam/vernam.py`, `Vernam/client.py`, `Vernam/server.py` |
| `PlayfairServer`, `PlayfairClient` | `playfair/server.py`, `playfair/client.py` |
| `PlayfairVariantServer`, `PlayfairVariantClient` | `playfair/playfair/server.py`, `playfair/playfair/client.py` |
| `HillServer`, `HillClient` | `hill/server.py`, `hill/client.py` |
| `Ascii`, `Bits`, `Modular` | shared helpers: ASCII character classes, Python's exclusive or on integers of either sign, Python's floor division and modulo, congruence modulo 26 |

Every Python function that builds its result in a loop is a Dafny `method`
with the same loop. Each such method is proved equal to a specification
function. The properties are proved as lemmas about those functions.
Round trips pair one file's encryption with another file's decryption, as
the toolkit's sender and receiver do, and are lemmas in the receiver's
module.

Python's `%` with a positive modulus agrees with Dafny's `%`. `eeuclid`
divides by an arbitrary integer, so `Bits.PyMod` and `Bits.PyFloorDiv`
model Python's flooring operators there. Characters are ASCII code points.
Python's errors (an `IndexError`, a `KeyError`, a shape mismatch in numpy,
`chr` out of range) become preconditions. Python's `^` on negative ints is
modelled by `Bits.IntXor`. Values the code returns on an
error (`None`, `0`, `"Error: Key not invertible"`) become result values.

## Model

| member | source | states |
|---|---|---|
| `CaesarClient.ShiftChar` | ceaser/client.py:7-10 | a lowercase character stays lowercase; every other character, digits and punctuation included, lands in 'A'..'Z' |
| `CaesarClient.Encrypt` | ceaser/client.py:4-11 | the loop returns one shifted character per input character, so the length is kept |
| `CaesarClient.ShiftLower` | ceaser/client.py:7-8 | a lowercase letter's residue becomes (residue + key) mod 26 |
| `CaesarClient.ShiftNonLetter` | ceaser/client.py:9-10 | a non-letter is never passed through: it changes, into an uppercase letter |
| `CaesarClient.ShiftPeriodic` | ceaser/client.py:8-10 | the shift acts modulo 26: key and key + 26 give the same text, for negative keys too |
| `CaesarClient.EncryptHello` | ceaser/client.py:10 | "HELLO" with key 3 gives "KHOOR" |
| `CaesarServer.UnshiftChar` | ceaser/server.py:7-10 | lowercase stays lowercase; every other character lands in 'A'..'Z' |
| `CaesarServer.Decrypt` | ceaser/server.py:4-11 | the loop returns one unshifted character per input character |
| `CaesarServer.DecryptIsEncryptNegated` | ceaser/server.py:8-10 | decrypting with key k is encrypting with key -k, character by character |
| `CaesarServer.CharRoundTrip` | ceaser/server.py:7-10 | one character survives encryption then decryption exactly when it is an ASCII letter |
| `CaesarServer.RoundTrip` | ceaser/server.py:4-11 | decrypt(encrypt(s, k), k) == s if and only if s is all letters |
| `CaesarServer.DecryptKhoor` | ceaser/server.py:10 | "KHOOR" with key 3 decrypts to "HELLO" |
| `VigenereClient.AlphaCountStep` | Vigenere/client.py:10-16 | the letter counter `kp` advances on letters only |
| `VigenereClient.CasedLike` | Vigenere/client.py:12-15 | a key letter placed at a lowercase letter is lowercase, at an uppercase letter uppercase |
| `VigenereClient.FullKey` | Vigenere/client.py:4-19 | an empty partial key gives ""; otherwise the key is as long as the text |
| `VigenereClient.Keygen` | Vigenere/client.py:4-19 | the loop places, at the j-th letter, partial_key[j mod length] in the letter's case, and copies every other character |
| `VigenereClient.EncryptChar` | Vigenere/client.py:26-34 | a non-letter is copied; a letter keeps its case |
| `VigenereClient.Encrypted` | Vigenere/client.py:22-35 | the ciphertext is as long as the text |
| `VigenereClient.Encrypt` | Vigenere/client.py:22-35 | the loop keeps the length and copies non-letters; it needs a non-empty key when the text has a letter |
| `VigenereClient.EncryptHello` | Vigenere/client.py:22-35 | "HELLO" with key "KEY" gives "RIJVS" |
| `VigenereServer.DecryptKey` | Vigenere/server.py:16-23 | the key character used is always a letter: a used-up or non-letter key character becomes 'a' |
| `VigenereServer.DecryptChar` | Vigenere/server.py:25-30 | a letter keeps its case |
| `VigenereServer.Decrypted` | Vigenere/server.py:4-31 | the plaintext is as long as the ciphertext |
| `VigenereServer.Decrypt` | Vigenere/server.py:4-31 | the loop returns the input for an empty key, keeps the length and copies non-letters without consuming key |
| `VigenereServer.ShiftBack` | Vigenere/server.py:25-30 | the case branches compute the letter's residue minus the key residue modulo 26 |
| `VigenereServer.AlignedKey` | Vigenere/server.py:9-17 | when key and text have the same length, letter i uses key[i] |
| `VigenereServer.SequentialKey` | Vigenere/server.py:18-20 | otherwise the j-th letter uses key[j], without cycling, and is left unchanged once the key runs out |
| `VigenereServer.ZeroShift` | Vigenere/server.py:19-23 | the fallback 'a' is a shift of 0 |
| `VigenereServer.BadKeyCharIsIgnored` | Vigenere/server.py:22-23 | a non-letter key character leaves the letter unchanged |
| `VigenereServer.RoundTripAt` | Vigenere/server.py:4-31 | position i of decrypt(encrypt(p, k), keygen(p, k)) is p[i], for a non-empty all-letter k |
| `VigenereServer.RoundTrip` | Vigenere/client.py:56-60 | decrypt(encrypt(p, k), keygen(p, k)) == p for a non-empty all-letter k, the pairing the sender uses |
| `Vernam.GenerateKey` | Vernam/vernam.py:1-5 | the key has length n and key[i] == i mod 256 |
| `Bits.IntXor` | Vernam/vernam.py:13 | Python's `^` on ints: negative exactly when one operand is, and the bitwise exclusive or on naturals |
| `Bits.IntXorCancels` | Vernam/vernam.py:13 | (a ^ b) ^ b == a for integers of either sign |
| `Vernam.Encrypted` | Vernam/vernam.py:8-14 | None exactly when the lengths differ; otherwise a list as long as the text, negative exactly where the key entry is |
| `Vernam.Encrypt` | Vernam/vernam.py:8-14 | the loop returns None on a length mismatch, else element i is ord(p[i]) xor key[i] |
| `Vernam.Decrypted` | Vernam/vernam.py:17-23 | None exactly when the lengths differ; otherwise a text as long as the list, where each cipher entry and key entry have the same sign |
| `Vernam.Decrypt` | Vernam/vernam.py:17-23 | the loop returns None on a length mismatch, else character i has code c[i] xor key[i] |
| `Vernam.XorBytes` | Vernam/vernam.py:26-41 | None exactly when the lengths differ; otherwise a list as long as the data, negative exactly where one of data and key is |
| `Vernam.EncryptBytes` | Vernam/vernam.py:26-32 | the loop computes the element-wise exclusive or, None on a length mismatch |
| `Vernam.DecryptBytes` | Vernam/vernam.py:35-41 | the loop computes the same function as `encrypt_bytes` |
| `Vernam.TextToBytes` | Vernam/vernam.py:44-45 | one code point per character |
| `Vernam.BytesToText` | Vernam/vernam.py:48-49 | one character per code point |
| `Vernam.TextRoundTrip` | Vernam/vernam.py:44-49 | bytes_to_text(text_to_bytes(t)) == t |
| `Vernam.BytesRoundTrip` | Vernam/vernam.py:44-49 | text_to_bytes(bytes_to_text(d)) == d for code points that are characters |
| `Vernam.DecryptEncrypt` | Vernam/vernam.py:8-23 | decrypt(encrypt(p, k), k) == p for equal lengths |
| `Vernam.XorBytesTwice` | Vernam/vernam.py:26-41 | applying the byte transform twice with the same key returns the data |
| `Vernam.NegativeEntries` | Vernam/vernam.py:8-32 | negative ints go through: encrypt("a", [-1]) == [-98], decrypt([-98], [-1]) == "a", encrypt_bytes([-5], [3]) == [-8] |
| `Vernam.Seed` | Vernam/vernam.py:58-60 | every state after the first step is below 2**31 |
| `Vernam.RandomKey` | Vernam/vernam.py:56-62 | the key has the requested length |
| `Vernam.RandomKeyPrefix` | Vernam/vernam.py:58-61 | the seed restarts on every call, so a shorter key is a prefix of a longer one |
| `Vernam.VernamCipher.GenerateRandomKey` | Vernam/vernam.py:56-62 | the loop computes the fixed-seed key, every entry below 256 |
| `Vernam.VernamCipher.EncryptText` | Vernam/vernam.py:64-67 | with no key, a fresh key of the text's length is used and encryption succeeds |
| `Vernam.VernamCipher.DecryptText` | Vernam/vernam.py:69-70 | delegates to `decrypt` |
| `Vernam.VernamCipher.EncryptData` | Vernam/vernam.py:72-75 | with no key, a fresh key of the data's length is used and encryption succeeds |
| `Vernam.VernamCipher.DecryptData` | Vernam/vernam.py:77-78 | delegates to `decrypt_bytes` |
| `Vernam.GeneratedKeyRoundTrip` | Vernam/vernam.py:64-70 | decrypting with the key `encrypt_text` generated recovers the plaintext |
| `VernamClient.LetterIndex` | Vernam/client.py:5-10 | the lowered letter's residue is in 0..25 |
| `VernamClient.XorLetter` | Vernam/client.py:11 | every output character is in 'a'..'z' |
| `VernamClient.Encrypted` | Vernam/client.py:4-13 | the ciphertext is as long as the plaintext and all lowercase |
| `VernamClient.Encrypt` | Vernam/client.py:4-13 | the loop appends, at index i, the folded exclusive or of the residues of p[i] and keyword[i] |
| `VernamClient.IgnoresCase` | Vernam/client.py:5-6 | both arguments are lowercased first, so case makes no difference |
| `VernamClient.UsesKeywordPrefix` | Vernam/client.py:8-10 | only the first len(plaintext) keyword characters matter |
| `VernamClient.Commutes` | Vernam/client.py:9-11 | for equal lengths Encrypt(p, k) == Encrypt(k, p) |
| `VernamClient.XorBelow32` | Vernam/client.py:11 | the exclusive or of two residues is below 32, so `% 26` folds only 26..31 |
| `VernamClient.Lossy` | Vernam/client.py:11 | the map is lossy: "p" and "v" both encrypt to "f" under "q" |
| `VernamClient.EncryptHello` | Vernam/client.py:34-35 | Encrypt("hello", "abcde") == "hfjik" |
| `VernamServer.PlainChar` | Vernam/server.py:9-14 | a lowercase cipher character decodes to lowercase, any other to uppercase |
| `VernamServer.Decrypted` | Vernam/server.py:4-15 | the integer 0 exactly on a length mismatch; otherwise a text as long as the cipher |
| `VernamServer.Decrypt` | Vernam/server.py:4-15 | the loop computes `Decrypted` |
| `VernamServer.ResidueRoundTrip` | Vernam/server.py:10-11 | a residue comes back through both folds exactly when the sender's exclusive or was below 26 |
| `VernamServer.WrapCollision` | Vernam/server.py:10-11 | folding twice never lands back on the sender's value |
| `VernamServer.RoundTrip` | Vernam/server.py:8-14 | decrypt(Encrypt(p, k), k) agrees with p exactly where residue(p) xor residue(k) < 26 |
| `PlayfairServer.RemCommon` | playfair/server.py:4-9 | the loop keeps first occurrences: no duplicates, same characters |
| `PlayfairServer.DedupNoDups` | playfair/server.py:4-9 | the deduplicated text has no repeated character |
| `PlayfairServer.DedupElements` | playfair/server.py:4-9 | it holds exactly the characters of the input |
| `PlayfairServer.DedupOfNoDups` | playfair/server.py:4-9 | a text without repeats is its own deduplication |
| `PlayfairServer.DedupIdempotent` | playfair/server.py:4-9 | deduplicating twice is deduplicating once |
| `PlayfairServer.DedupPrefix` | playfair/server.py:4-9 | first occurrences keep their order: dedup(s) is a prefix of dedup(s + t) |
| `PlayfairServer.Matval` | playfair/server.py:20-21 | the letter sequence has at least 25 distinct characters |
| `PlayfairServer.KeygenMatval` | playfair/server.py:13-21 | the filler choice, made on the raw key, and the two deduplications give `Matval` |
| `PlayfairServer.KeygenPrelude` | playfair/server.py:13-21 | the filler branches and `remcommon` calls compute `Matval` |
| `PlayfairServer.Keygen` | playfair/server.py:12-31 | the row loops lay matval[0..24] out row by row into a 5×5 square of distinct letters |
| `PlayfairServer.KeySquareCell` | playfair/server.py:23-30 | cell n of the square, read row by row, is matval[n] |
| `PlayfairServer.KeySquareDistinct` | playfair/server.py:23-30 | no two cells of the square are equal |
| `PlayfairServer.SquareStartsWithKey` | playfair/server.py:20-21 | the square starts with the key's deduplicated lowercase letters |
| `PlayfairServer.SquareIsLower` | playfair/server.py:20-30 | a letter key gives a square of lowercase letters |
| `PlayfairServer.MatvalElements` | playfair/server.py:14-21 | matval holds exactly the lowered key's characters and the alphabet with the filler |
| `PlayfairServer.MatvalLength` | playfair/server.py:14-21 | matval has 26 letters, not 25, exactly when the raw key has 'i' or the lowered key has 'j' |
| `PlayfairServer.DroppedLetter` | playfair/server.py:23-30 | with 26 letters, the last one is silently missing from the square |
| `PlayfairServer.MonarchyMatval` | playfair/server.py:20-21 | matval for "monarchy" is "monarchybdefgiklpqstuvwxz" |
| `PlayfairServer.MonarchySquare` | playfair/server.py:101-102 | keygen("monarchy") is the square monar / chybd / efgik / lpqst / uvwxz |
| `PlayfairServer.YziMatval` | playfair/server.py:12-21 | matval for "yzi" has 26 letters: the key has 'i', so the filler is 'j' |
| `PlayfairServer.YziSquare` | playfair/server.py:12-31 | keygen("yzi") is yziab / cdefg / hjklm / nopqr / stuvw, with no 'x' |
| `PlayfairServer.FlattenAppend` | playfair/server.py:67-79 | the text of a list of digraphs is the concatenation of their texts |
| `PlayfairServer.Genbigram` | playfair/server.py:34-53 | the while loop returns `Bigrams`: pairs of the padded text, splitting equal letters with 'x' |
| `PlayfairServer.PairsDistinct` | playfair/server.py:41-51 | no digraph has two equal letters except ['x', 'x'] |
| `PlayfairServer.PairsKeepLetters` | playfair/server.py:41-51 | no letter is dropped: the flattened pairs are the padded text with 'x's inserted |
| `PlayfairServer.PairsOfDistinct` | playfair/server.py:41-51 | the text of digraphs with distinct letters splits back into those digraphs |
| `PlayfairServer.PairsChars` | playfair/server.py:41-51 | every letter of a digraph is a letter of the text or 'x' |
| `PlayfairServer.BigramsInSquare` | playfair/server.py:34-53 | a square holding the text's letters and 'x' holds both letters of every digraph |
| `PlayfairServer.Locate` | playfair/server.py:56-61 | the first cell, row by row, holding the character, or (-1, -1) when there is none |
| `PlayfairServer.FindRC` | playfair/server.py:56-61 | the nested loops return `Locate` |
| `PlayfairServer.LocateCell` | playfair/server.py:56-61 | in a square of distinct letters the letter at (r, c) is found at (r, c) |
| `PlayfairServer.LocateFirst` | playfair/server.py:56-61 | a letter first found at (r, c) is located at (r, c) |
| `PlayfairServer.EncryptPairs` | playfair/server.py:67-79 | one substituted digraph per digraph |
| `PlayfairServer.Enciphered` | playfair/server.py:64-80 | defined whenever every digraph's letters are in the square; the ciphertext has twice as many letters as there are digraphs |
| `PlayfairServer.Encrypt` | playfair/server.py:64-80 | the loop returns `Enciphered` |
| `PlayfairServer.SubstituteInSquare` | playfair/server.py:71-79 | the row, column and rectangle rules always give letters of the square |
| `PlayfairServer.EncryptDistinct` | playfair/server.py:71-79 | two distinct letters are enciphered to two distinct letters |
| `PlayfairServer.BigramsAttack` | playfair/server.py:100 | genbigram("attack") is at, ta, ck |
| `PlayfairServer.EncryptAttack` | playfair/server.py:100-106 | encrypt("attack", keygen("monarchy")) is "rssrde" |
| `PlayfairServer.EncryptWithoutFiller` | playfair/server.py:64-80 | keygen("yzi") has no 'x', yet encrypt("ab", keygen("yzi")) is "by" |
| `PlayfairClient.DecryptPairs` | playfair/client.py:37-49 | one digraph back per digraph |
| `PlayfairClient.Deciphered` | playfair/client.py:34-50 | defined whenever every digraph's letters are in the square; the plaintext has twice as many letters as the ciphertext has digraphs |
| `PlayfairClient.Decrypt` | playfair/client.py:34-50 | the loop returns `Deciphered` |
| `PlayfairClient.UnsubstituteSubstitute` | playfair/client.py:41-49 | shifting left or up undoes shifting right or down, and the rectangle swap undoes itself |
| `PlayfairClient.DigraphInverse` | playfair/client.py:41-49 | for distinct letters of the square, decrypting an enciphered digraph gives it back |
| `PlayfairClient.RepairCiphertext` | playfair/client.py:4-23 | a ciphertext of distinct-letter digraphs is split back into exactly those digraphs |
| `PlayfairClient.RoundTrip` | playfair/client.py:34-50 | decrypt(encrypt(p, K), K) is genbigram(p) flattened when no digraph is ['x', 'x'] |
| `PlayfairClient.DecryptAttack` | playfair/client.py:34-50 | decrypt("rssrde", keygen("monarchy")) is "attack" |
| `PlayfairClient.DecryptWithoutFiller` | playfair/client.py:34-50 | decrypt("by", keygen("yzi")) is "ab", though the square has no 'x' |
| `PlayfairVariantServer.UnvisitedLetters` | playfair/playfair/server.py:22-24 | the visited table maps every lowercase letter, and only those, to False |
| `PlayfairVariantServer.Keygen` | playfair/playfair/server.py:12-36 | the visited check never skips, so the square equals the one playfair/server.py builds |
| `PlayfairVariantServer.MarkVisited` | playfair/playfair/server.py:31-34 | the next letter of matval is always unvisited, and marking it keeps the table right |
| `PlayfairVariantServer.Genbigram` | playfair/playfair/server.py:39-50 | the stepped loop returns `VariantBigrams`: one 'x' appended, even positions paired |
| `PlayfairVariantServer.StepPairsCount` | playfair/playfair/server.py:45-48 | the number of pairs is len/2 plus one per aligned equal pair |
| `PlayfairVariantServer.BigramCount` | playfair/playfair/server.py:40-48 | genbigram gives ceil(n/2) pairs plus one per aligned equal pair |
| `PlayfairVariantServer.StepPairsPlain` | playfair/playfair/server.py:45-48 | without aligned repeats the pairs are the text two by two, a trailing single dropped |
| `PlayfairVariantServer.BigramsPlain` | playfair/playfair/server.py:40-48 | the appended 'x' survives only for a text of odd length |
| `PlayfairVariantServer.StepPairsOfDistinct` | playfair/playfair/server.py:45-48 | distinct-letter pairs are split back unchanged and have no aligned repeat |
| `PlayfairVariantServer.VariantBigramsInSquare` | playfair/playfair/server.py:39-50 | a square holding the text's letters and 'x' holds both letters of every pair |
| `PlayfairVariantServer.VariantEnciphered` | playfair/playfair/server.py:64-80 | defined whenever every pair's letters are in the square; the ciphertext has twice as many letters as there are pairs |
| `PlayfairVariantServer.Encrypt` | playfair/playfair/server.py:64-80 | the loop applies playfair/server.py's substitution to the variant's pairs |
| `PlayfairVariantServer.VariantBigramsAttack` | playfair/playfair/server.py:100-106 | "attack" splits into at, ta, ck here too |
| `PlayfairVariantServer.VariantEncryptAttack` | playfair/playfair/server.py:100-106 | encrypt("attack", keygen("monarchy")) is "rssrde" here too |
| `PlayfairVariantServer.SameDigraphs` | playfair/playfair/server.py:64-80 | where the two splitters give the same digraphs, the two encryptions agree |
| `PlayfairVariantServer.VariantBigramsAb` | playfair/playfair/server.py:39-50 | "ab" is one pair: the appended 'x' is left over and dropped |
| `PlayfairVariantServer.VariantEncryptWithoutFiller` | playfair/playfair/server.py:64-80 | encrypt("ab", keygen("yzi")) is "by" here too, with no 'x' in the square |
| `PlayfairVariantClient.VariantDeciphered` | playfair/playfair/client.py:29-45 | defined whenever every pair's letters are in the square; the plaintext has twice as many letters as the ciphertext has pairs |
| `PlayfairVariantClient.Decrypt` | playfair/playfair/client.py:29-45 | the loop returns `VariantDeciphered` |
| `PlayfairVariantClient.EvenCiphertext` | playfair/playfair/client.py:4-13 | an even ciphertext with no aligned repeat is paired exactly and decrypts to the same length |
| `PlayfairVariantClient.RoundTrip` | playfair/playfair/client.py:29-45 | decrypt(encrypt(p, K), K) is p, with one 'x' appended for odd p, when no aligned pair repeats |
| `PlayfairVariantClient.VariantDecryptAttack` | playfair/playfair/client.py:29-45 | decrypt("rssrde", keygen("monarchy")) is "attack" here too |
| `PlayfairVariantClient.VariantDecryptWithoutFiller` | playfair/playfair/client.py:29-45 | decrypt("by", keygen("yzi")) is "ab" here too |
| `HillServer.Matricize` | hill/server.py:6-17 | the three loops give residues, padded with 23 to a multiple of 3, in rows of 3 |
| `HillServer.KeyMatrixEntries` | hill/server.py:9-16 | every row has 3 entries; read row by row they are the residues followed by fewer than three 23s |
| `HillServer.KeyShape` | hill/server.py:21-34 | the matrix is 3×3 exactly when the key has 7 to 9 characters |
| `HillServer.GybnqkurpMatrix` | hill/server.py:68 | matricize("gybnqkurp") == [[6,24,1],[13,16,10],[20,17,15]] |
| `HillServer.Padded` | hill/server.py:23-25 | the lowered text, padded with 'x' to a multiple of 3 by fewer than three letters |
| `HillServer.MulMod` | hill/server.py:33-34 | a row times the key modulo 26 has three entries in 0..25 |
| `HillServer.Spell` | hill/server.py:35-36 | three numbers in 0..25 spell three lowercase letters |
| `HillServer.Transform` | hill/server.py:32-36 | the block product keeps the length and gives lowercase letters |
| `HillServer.Enciphered` | hill/server.py:20-37 | the ciphertext is as long as the padded plaintext, all lowercase |
| `HillServer.TransformAppend` | hill/server.py:32-36 | the product of a concatenation of whole blocks is the concatenation of the products |
| `HillServer.TransformAt` | hill/server.py:32-36 | output letter 3b+j is entry j of block b times the key, modulo 26 |
| `HillServer.EncipheredBlock` | hill/server.py:33-36 | C[j] = P[0]·K[0][j] + P[1]·K[1][j] + P[2]·K[2][j] mod 26 for every block |
| `HillServer.EncipheredAppend` | hill/server.py:32-36 | output block i depends only on input block i |
| `HillServer.Encrypt` | hill/server.py:20-37 | the pad, number and block loops compute `Enciphered` |
| `HillServer.MultiplyBlocks` | hill/server.py:31-36 | the block loop computes `Transform` |
| `HillServer.AppendLetters` | hill/server.py:35-36 | the inner loop appends the three letters of a row |
| `HillServer.TransformSnoc` | hill/server.py:32-36 | one more block appends its three letters |
| `HillServer.EncryptDemo` | hill/server.py:67-69 | encrypt("abcxyztuv", "gybnqkurp") == "byoojoopo" |
| `HillClient.Eeuclid` | hill/client.py:7-26 | as written: (0, 1) when b divides a, one step for b < 0, a ZeroDivisionError for b == 0, and no termination for b > 0 not dividing a |
| `HillClient.GcdDivides` | hill/client.py:7-26 | the reference gcd divides both arguments |
| `HillClient.GcdGreatest` | hill/client.py:7-26 | every common divisor divides it |
| `HillClient.ExtendedEuclid` | hill/client.py:7-26 | corrected loop, updating the remainders: a·x + b·y == gcd(a, b) |
| `HillClient.Adjugate` | hill/client.py:56-57 | the adjugate of a 3×3 matrix is 3×3 |
| `HillClient.AdjugateIdentity` | hill/client.py:56-58 | K times adj(K) is det(K) times the identity |
| `HillClient.SearchFrom` | hill/client.py:50-54 | the first i from the start with det·i ≡ 1 mod 26, or det when there is none |
| `HillClient.InverseSearch` | hill/client.py:50-54 | the search loop with its break computes `ModInverse` |
| `HillClient.InverseOfUnit` | hill/client.py:50-54 | for det coprime with 26, inv is the unique i in 1..25 with det·i ≡ 1 |
| `HillClient.InverseOfNonUnit` | hill/client.py:50-54 | for an even det or a multiple of 13 no inverse exists and inv stays det |
| `HillClient.InverseKey` | hill/client.py:58 | K_inv = adj(K)·inv mod 26 is 3×3 with entries in 0..25 |
| `HillClient.KeyInverse` | hill/client.py:56-58 | K·K_inv ≡ I mod 26 when det is a unit |
| `HillClient.DecipheredShape` | hill/client.py:43-71 | "Error: Key not invertible" exactly when det ≡ 0; otherwise same length, all lowercase |
| `HillClient.Decrypt` | hill/client.py:43-71 | the determinant test, inverse search, number and block loops compute `Deciphered` |
| `HillClient.BlockRoundTrip` | hill/client.py:66-70 | a block of residues times K then times K_inv comes back |
| `HillClient.TransformInverse` | hill/client.py:66-70 | block by block, the product with K_inv undoes the product with K |
| `HillClient.RoundTrip` | hill/client.py:43-71 | decrypt(encrypt(p, k), k) is p lowered and padded with 'x', for a letter text and a unit determinant |
| `HillClient.GybnqkurpInvertible` | hill/client.py:46-54 | the demo key has determinant 441 ≡ 25, its own inverse modulo 26 |
| `HillClient.DecryptDemo` | hill/client.py:43-71 | "byoojoopo" decrypts to "abcxyztuv" under "gybnqkurp" |
| `HillClient.NonUnitCollision` | hill/client.py:46-54 | as written: det 4 passes the check, "nnn" and "aaa" both encrypt to "aaa", and decrypting gives "aaa" |
| `HillClient.CheckedRoundTrip` | hill/client.py:46-48 | corrected check: the error for every non-unit det, the round trip for every unit det |

## Left out

- Sockets, `transmit`, `receive`, every `__main__` block and the wire formats: these are I/O.
- The `print` in Vernam/client.py:12 is output only.
- Python's Unicode `isalpha`, `islower`, `lower` and `upper`: the model uses ASCII.
- `np.linalg.det` with `np.round` is replaced by the exact integer determinant `HillClient.Det3`. Sympy's `adjugate` is replaced by the exact cofactors `HillClient.Adjugate`. Numpy's `@` is replaced by explicit sums. Float rounding is not modelled.
- `matricize` appears in both Hill files, and `genbigram` and `findrc` in both files of each Playfair pair. Each duplicate is modelled once and reused.
- Inputs on which the code indexes out of range, reads a missing key or gets a negative residue are excluded by preconditions:
  - Hill: a key whose length is not 7 to 9.
  - Hill decryption: a ciphertext that is not a whole number of blocks.
  - Vigenère: an empty key with a lettered text.
  - Vernam client and server: non-letters, and key letters of the other case.
  - Playfair: a digraph with a letter missing from the square, where `findrc`'s (-1, -1) would index from the end (`PairsInSquare`). Only the letters of the digraphs are required, so a square without 'x' serves every text whose digraphs need none.
  - The variant's `keygen`: non-letter key characters, which raise a `KeyError`.
- Vernam.Decrypted, Vernam.Decrypt and Vernam.BytesToText require every value passed to `chr` to be a code point that is not a surrogate (`CanDecrypt`, `IsScalar`). `chr` raises `ValueError` on a negative value or one above 0x10FFFF, and the model has no exceptions. `chr` of a surrogate succeeds in Python, but a Dafny `char` cannot hold one.
- Vernam: the lists are lists of Python ints. Other values Python's `^` accepts, such as `bool`, are not modelled.
- HillClient.Eeuclid: the loop that never ends is modelled with a `fuel` bound. `OutOfFuel` stands for non-termination, and no fuel is enough when b > 0 does not divide a.
- `cleanup_python.py` and the `python fixes` scripts: operating-system maintenance with no cipher logic.

## Findings

| source | as written | input that shows it | evidently intended | confidence | as-written member | corrected member |
|---|---|---|---|---|---|---|
| hill/client.py:16-24 | `eeuclid` never reassigns r1 or r2, so ri stays r1 % r2 | a = 3, b = 2: ri is 1 on every pass and the loop never ends | the extended Euclidean algorithm, returning Bézout coefficients | not executed | `HillClient.Eeuclid` | `HillClient.ExtendedEuclid` |
| hill/client.py:46-54 | only det ≡ 0 is rejected; an even det or a multiple of 13 has no inverse, and inv silently stays det | key "cbbbcbbbc" (det 4): "nnn" and "aaa" both encrypt to "aaa", which decrypts to "aaa" | report "Error: Key not invertible" whenever gcd(det, 26) ≠ 1 | not executed | `HillClient.NonUnitCollision` | `HillClient.CheckedRoundTrip` |
