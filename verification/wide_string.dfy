/**
 The parts of std::wstring and of size_t arithmetic that the manifest parser and the
 path mapping rely on. A wide string is a `string`, a sequence of characters;
 size_t is the 64-bit unsigned type of the x64 build, so its arithmetic is
 written out modulo 2^64.
 */
module WideString {
  import opened Wrappers

  /** size_t arithmetic wraps modulo 2^64. */
  const SIZE_T_MODULUS: nat := 0x1_0000_0000_0000_0000

  /** std::wstring::npos, the largest size_t value, returned by the searches on failure. */
  const NPOS: nat := SIZE_T_MODULUS - 1

  /** `a - b` on size_t. */
  function SizeSub(a: nat, b: nat): (r: nat)
    ensures r < SIZE_T_MODULUS
    ensures b <= a < SIZE_T_MODULUS ==> r == a - b
    ensures a < b <= SIZE_T_MODULUS ==> r == SIZE_T_MODULUS - (b - a)
  {
    (a - b) % SIZE_T_MODULUS
  }

  /** `a + b` on size_t. */
  function SizeAdd(a: nat, b: nat): (r: nat)
    ensures r < SIZE_T_MODULUS
    ensures a + b < SIZE_T_MODULUS ==> r == a + b
    ensures SIZE_T_MODULUS <= a + b < 2 * SIZE_T_MODULUS ==> r == a + b - SIZE_T_MODULUS
  {
    (a + b) % SIZE_T_MODULUS
  }

  function Min(a: nat, b: nat): nat {
    if a <= b then a else b
  }

  /**
   std::wstring::substr(pos, count): throws std::out_of_range (here `None`) when `pos`
   exceeds the size; otherwise the characters from `pos`, at most `count` of them.
   */
  function Substr(s: string, pos: nat, count: nat): (r: Option<string>)
    ensures r.None? <==> pos > |s|
    ensures r.Some? ==> |r.value| == Min(count, |s| - pos) && r.value <= s[pos..]
    ensures r.Some? && count >= |s| - pos ==> r.value == s[pos..]
  {
    if pos > |s| then None
    else Some(s[pos .. pos + Min(count, |s| - pos)])
  }

  /**
   std::wstring::substr(pos) with its default count npos: no wstring is longer than
   npos, so this is the rest of the string from `pos`.
   */
  function SubstrToEnd(s: string, pos: nat): (r: Option<string>)
    ensures r.None? <==> pos > |s|
    ensures r.Some? ==> r.value == s[pos..]
  {
    if pos > |s| then None else Some(s[pos..])
  }

  /** `pat` occurs in `s` starting at index `i`. */
  predicate OccursAt(s: string, pat: string, i: nat) {
    i + |pat| <= |s| && s[i .. i + |pat|] == pat
  }

  ghost predicate Contains(s: string, pat: string) {
    exists i: nat :: OccursAt(s, pat, i)
  }

  /** `p` is where the leftmost occurrence of `pat` in `s` starts. */
  ghost predicate IsFirstOccurrence(s: string, pat: string, p: nat) {
    OccursAt(s, pat, p) && forall j: nat :: j < p ==> !OccursAt(s, pat, j)
  }

  /** std::wstring::find(pat, from), with `None` in place of npos. */
  function FindFrom(s: string, pat: string, from: nat): (r: Option<nat>)
    decreases |s| - from
    ensures r.Some? ==> from <= r.value && OccursAt(s, pat, r.value)
    ensures forall j: nat :: from <= j && (r.None? || j < r.value) ==> !OccursAt(s, pat, j)
  {
    if from + |pat| > |s| then None
    else if s[from .. from + |pat|] == pat then Some(from)
    else FindFrom(s, pat, from + 1)
  }

  /** std::wstring::find(pat): the search starts at index 0. */
  function Find(s: string, pat: string): (r: Option<nat>)
    ensures r.Some? ==> IsFirstOccurrence(s, pat, r.value)
    ensures r.None? <==> !Contains(s, pat)
  {
    FindFrom(s, pat, 0)
  }

  /** std::wstring::find_last_of(c) for a one-character set, with `None` in place of npos. */
  function LastIndexOf(s: string, c: char): (r: Option<nat>)
    ensures r.Some? ==> r.value < |s| && s[r.value] == c && c !in s[r.value + 1..]
    ensures r.None? <==> c !in s
  {
    if |s| == 0 then None
    else if s[|s| - 1] == c then Some(|s| - 1)
    else
      assert s == s[..|s| - 1] + [s[|s| - 1]];
      LastIndexOf(s[..|s| - 1], c)
  }
}
