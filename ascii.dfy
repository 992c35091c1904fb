/** Character classes and case mapping on ASCII code points, as the cipher
    transforms use Python's `islower`, `isupper`, `isalpha`, `lower` and
    `upper` on ASCII text. */
module Ascii {

  predicate IsLower(c: char) { 'a' <= c <= 'z' }

  predicate IsUpper(c: char) { 'A' <= c <= 'Z' }

  predicate IsAlpha(c: char) { IsLower(c) || IsUpper(c) }

  predicate AllAlpha(s: string) { forall i :: 0 <= i < |s| ==> IsAlpha(s[i]) }

  predicate AllLower(s: string) { forall i :: 0 <= i < |s| ==> IsLower(s[i]) }

  /** `str.lower` on one character: only 'A'..'Z' change. */
  function ToLower(c: char): (r: char)
    ensures IsUpper(c) ==> IsLower(r) && Residue(r, 'a') == Residue(c, 'A')
    ensures !IsUpper(c) ==> r == c
    ensures IsLower(r) <==> IsAlpha(c)
  {
    if IsUpper(c) then (c as int + 32) as char else c
  }

  /** `str.upper` on one character: only 'a'..'z' change. */
  function ToUpper(c: char): (r: char)
    ensures IsLower(c) ==> IsUpper(r) && Residue(r, 'A') == Residue(c, 'a')
    ensures !IsLower(c) ==> r == c
    ensures IsUpper(r) <==> IsAlpha(c)
  {
    if IsLower(c) then (c as int - 32) as char else c
  }

  function LowerString(s: string): (r: string)
    ensures |r| == |s| && forall i :: 0 <= i < |s| ==> r[i] == ToLower(s[i])
  {
    seq(|s|, i requires 0 <= i < |s| => ToLower(s[i]))
  }

  /** `ord(c) - ord(base)`: the letter's position when `c` is in `base`'s case. */
  function Residue(c: char, base: char): int
  {
    c as int - base as int
  }

  /** `chr(r + ord(base))` for a residue `r` in 0..25. */
  function Letter(r: int, base: char): (c: char)
    requires 0 <= r < 26
    requires base == 'a' || base == 'A'
    ensures Residue(c, base) == r
    ensures base == 'a' ==> IsLower(c)
    ensures base == 'A' ==> IsUpper(c)
  {
    (r + base as int) as char
  }
}
