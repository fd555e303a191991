/**
 * Character-level helpers for the marker search: ASCII case folding (the
 * model of `re.IGNORECASE` and of `str.upper`) and the whitespace class `\s`.
 */
module Text {

  /** ASCII lower-casing of one character; every other character is kept. */
  function LowerChar(c: char): char {
    if 'A' <= c <= 'Z' then (c as int + 32) as char else c
  }

  /** ASCII upper-casing of one character; every other character is kept. */
  function UpperChar(c: char): char {
    if 'a' <= c <= 'z' then (c as int - 32) as char else c
  }

  function Lower(s: string): string {
    seq(|s|, i requires 0 <= i < |s| => LowerChar(s[i]))
  }

  function Upper(s: string): string {
    seq(|s|, i requires 0 <= i < |s| => UpperChar(s[i]))
  }

  predicate IsUpperLetter(c: char) {
    'A' <= c <= 'Z'
  }

  /**
   * The characters Python's `\s` matches in a `str` pattern, which are the
   * characters for which `str.isspace()` holds.
   */
  predicate IsSpace(c: char) {
    var n := c as int;
    || 0x09 <= n <= 0x0D
    || 0x1C <= n <= 0x20
    || n == 0x85
    || n == 0xA0
    || n == 0x1680
    || 0x2000 <= n <= 0x200A
    || n == 0x2028
    || n == 0x2029
    || n == 0x202F
    || n == 0x205F
    || n == 0x3000
  }

  /** Case folding never turns a space into a non-space or back. */
  lemma SpaceIgnoresCase(c: char)
    ensures IsSpace(LowerChar(c)) == IsSpace(c)
  {
  }

  /**
   * A character that folds to the same lower case as an upper-case ASCII
   * letter d upper-cases to d: a case-insensitive capture of an upper-case
   * word upper-cases back to that word.
   */
  lemma UpperOfFolded(c: char, d: char)
    requires IsUpperLetter(d)
    requires LowerChar(c) == LowerChar(d)
    ensures UpperChar(c) == d
  {
  }

  lemma UpperOfFoldedWord(w: string, t: string)
    requires IsUpperWord(t)
    requires Lower(w) == Lower(t)
    ensures Upper(w) == t
  {
    assert |w| == |Lower(w)| == |Lower(t)| == |t|;
    forall k | 0 <= k < |t|
      ensures Upper(w)[k] == t[k]
    {
      assert Lower(w)[k] == Lower(t)[k];
      UpperOfFolded(w[k], t[k]);
    }
  }

  predicate IsUpperWord(t: string) {
    forall k :: 0 <= k < |t| ==> IsUpperLetter(t[k])
  }

  lemma LowerOfUpper(w: string)
    ensures Lower(Upper(w)) == Lower(w)
  {
  }

  /** Two strings that agree up to case agree on every slice up to case. */
  lemma LowerSlice(a: string, b: string, i: nat, j: nat)
    requires |a| == |b| && Lower(a) == Lower(b)
    requires i <= j <= |a|
    ensures Lower(a[i..j]) == Lower(b[i..j])
  {
    forall k | 0 <= k < j - i
      ensures Lower(a[i..j])[k] == Lower(b[i..j])[k]
    {
      assert Lower(a)[i + k] == Lower(b)[i + k];
    }
  }
}
