/**
 * The version pattern `(\d+)\.blend$`, compiled case-insensitively and used
 * with a leftmost search: a non-empty run of digits followed by the file
 * extension at the very end of the path.
 */
module VersionPattern {
  import opened Wrappers
  import opened Decimal

  const Extension := ".blend"

  function AsciiLower(c: char): (l: char)
    ensures 'A' <= c <= 'Z' ==> l as int == c as int + 32
    ensures !('A' <= c <= 'Z') ==> l == c
  {
    if 'A' <= c <= 'Z' then (c as int + 32) as char else c
  }

  predicate EqualIgnoreCase(a: string, b: string) {
    |a| == |b| && forall i :: 0 <= i < |a| ==> AsciiLower(a[i]) == AsciiLower(b[i])
  }

  /** The last six characters spell the extension in any mix of cases. */
  predicate EndsWithExtensionIgnoreCase(s: string) {
    |s| >= |Extension| && EqualIgnoreCase(s[|s| - |Extension|..], Extension)
  }

  /** The last six characters are exactly the lower-case extension. */
  predicate EndsWithExtension(s: string) {
    |s| >= |Extension| && s[|s| - |Extension|..] == Extension
  }

  /** The pattern matches `s` starting at index `i`: digits from `i` up to a final extension. */
  predicate MatchesAt(s: string, i: int) {
    && EndsWithExtensionIgnoreCase(s)
    && 0 <= i < |s| - |Extension|
    && forall k :: i <= k < |s| - |Extension| ==> IsDigit(s[k])
  }

  /** The length of the longest run of digits at the end of `s`. */
  function TrailingDigitCount(s: string): (n: nat)
    ensures n <= |s|
    ensures forall i :: |s| - n <= i < |s| ==> IsDigit(s[i])
    ensures n < |s| ==> !IsDigit(s[|s| - n - 1])
  {
    if s != [] && IsDigit(s[|s| - 1]) then 1 + TrailingDigitCount(s[..|s| - 1]) else 0
  }

  /** The start index of the match a leftmost search for the pattern finds in `s`, if any. */
  function SearchVersion(s: string): (m: Option<nat>)
    ensures m.Some? ==> MatchesAt(s, m.value)
    ensures m.None? ==> forall i :: !MatchesAt(s, i)
    ensures m.Some? ==> forall j :: 0 <= j < m.value ==> !MatchesAt(s, j)
  {
    if !EndsWithExtensionIgnoreCase(s) then None
    else
      var end := |s| - |Extension|;
      var k := TrailingDigitCount(s[..end]);
      if k == 0 then None else Some(end - k)
  }

  /** The path carries a version number: the search finds a match. */
  predicate HasVersion(s: string) {
    SearchVersion(s).Some?
  }

  /** The captured group: the digit run the search matched. */
  function VersionDigits(s: string): (d: string)
    requires HasVersion(s)
    ensures |d| >= 1 && AllDigits(d)
  {
    s[SearchVersion(s).value..|s| - |Extension|]
  }

  /** The version number a path carries. */
  function VersionNumber(s: string): (n: nat)
    requires HasVersion(s)
  {
    DigitsToNat(VersionDigits(s))
  }

  /**
   * A path split into a stem that does not end in a digit, a non-empty digit
   * run and an extension in any case is matched exactly at the digit run.
   */
  lemma SplitMatch(stem: string, digits: string, ext: string)
    requires stem == [] || !IsDigit(stem[|stem| - 1])
    requires |digits| >= 1 && AllDigits(digits)
    requires EqualIgnoreCase(ext, Extension)
    ensures HasVersion(stem + digits + ext)
    ensures SearchVersion(stem + digits + ext) == Some(|stem|)
    ensures VersionDigits(stem + digits + ext) == digits
  {
    var s := stem + digits + ext;
    assert s[|s| - |Extension|..] == ext;
    assert s[|stem|..|s| - |Extension|] == digits;
    assert MatchesAt(s, |stem|);
  }

  /**
   * Conversely, a matched path is its text before the digit run (which does
   * not end in a digit: the run is maximal), the digit run, and the extension.
   */
  lemma MatchSplits(s: string)
    requires HasVersion(s)
    ensures var start := SearchVersion(s).value;
      && s == s[..start] + VersionDigits(s) + s[|s| - |Extension|..]
      && (start == 0 || !IsDigit(s[start - 1]))
      && EqualIgnoreCase(s[|s| - |Extension|..], Extension)
  {
  }
}
