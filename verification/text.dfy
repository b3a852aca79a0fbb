/**
 * String operations the handlers rely on: Python's `str.strip()`, ASCII case
 * folding, case-insensitive substring search (`icontains`) and the
 * "before the first comma" split used on the forwarded-for header.
 */
module Text {

  /** Python's `str.isspace()` on one character. */
  predicate IsSpace(c: char) {
    var n := c as int;
    || 9 <= n <= 13 || 28 <= n <= 32 || n == 0x85 || n == 0xA0 || n == 0x1680
    || 0x2000 <= n <= 0x200A || n == 0x2028 || n == 0x2029 || n == 0x202F
    || n == 0x205F || n == 0x3000
  }

  predicate AllSpace(s: string) {
    forall i :: 0 <= i < |s| ==> IsSpace(s[i])
  }

  /** `s` with its leading whitespace removed. */
  function TrimStart(s: string): (r: string)
    ensures |r| <= |s| && r == s[|s| - |r|..]
    ensures AllSpace(s[..|s| - |r|])
    ensures r == [] || !IsSpace(r[0])
    ensures r == [] <==> AllSpace(s)
    decreases |s|
  {
    if |s| > 0 && IsSpace(s[0]) then TrimStart(s[1..]) else s
  }

  /** `s` with its trailing whitespace removed. */
  function TrimEnd(s: string): (r: string)
    ensures r <= s
    ensures AllSpace(s[|r|..])
    ensures r == [] || !IsSpace(r[|r| - 1])
    ensures r == [] <==> AllSpace(s)
    decreases |s|
  {
    if |s| > 0 && IsSpace(s[|s| - 1]) then TrimEnd(s[..|s| - 1]) else s
  }

  /** Python's `str.strip()` with no argument. */
  function Strip(s: string): (r: string)
    ensures exists i, j :: FramedByBlanks(s, r, i, j)
    ensures r == [] || (!IsSpace(r[0]) && !IsSpace(r[|r| - 1]))
    ensures r == [] <==> AllSpace(s)
  {
    var t := TrimStart(s);
    var r := TrimEnd(t);
    TrimBothIsSlice(s, t, r);
    r
  }

  /** `r` is the slice `s[i..j]` and everything of `s` outside it is whitespace. */
  predicate FramedByBlanks(s: string, r: string, i: nat, j: nat) {
    i <= j <= |s| && r == s[i..j] && AllSpace(s[..i]) && AllSpace(s[j..])
  }

  /** Trimming the front and then the back keeps a slice framed by blanks. */
  lemma TrimBothIsSlice(s: string, t: string, r: string)
    requires |t| <= |s| && t == s[|s| - |t|..] && AllSpace(s[..|s| - |t|])
    requires r <= t && AllSpace(t[|r|..])
    ensures exists i, j :: FramedByBlanks(s, r, i, j)
  {
    var i := |s| - |t|;
    var j := i + |r|;
    assert r == s[i..j];
    assert t[|r|..] == s[j..];
    assert FramedByBlanks(s, r, i, j);
  }

  /** Stripping twice is stripping once. */
  lemma StripIdempotent(s: string)
    ensures Strip(Strip(s)) == Strip(s)
  {
    var r := Strip(s);
    assert TrimStart(r) == r;
    assert TrimEnd(r) == r;
  }

  /** A string with no whitespace at either end is its own `strip()`. */
  lemma StripUnpadded(s: string)
    requires s == [] || (!IsSpace(s[0]) && !IsSpace(s[|s| - 1]))
    ensures Strip(s) == s
  {
    var r := Strip(s);
    var i: nat, j: nat :| FramedByBlanks(s, r, i, j);
    assert s[0..|s|] == s;
  }

  /** ASCII lower-casing of one character; other characters are unchanged. */
  function LowerChar(c: char): char {
    if 'A' <= c <= 'Z' then (c as int + 32) as char else c
  }

  /** ASCII lower-casing of a string. */
  function Lower(s: string): string {
    seq(|s|, i requires 0 <= i < |s| => LowerChar(s[i]))
  }

  /**
   * Lower-casing keeps the length, leaves no ASCII capital, moves each capital
   * to its small letter, and keeps every other character.
   */
  lemma LowerMeaning(s: string)
    ensures |Lower(s)| == |s|
    ensures forall i :: 0 <= i < |s| ==> !('A' <= Lower(s)[i] <= 'Z')
    ensures forall i :: 0 <= i < |s| && !('A' <= s[i] <= 'Z') ==> Lower(s)[i] == s[i]
    ensures forall i :: 0 <= i < |s| && 'A' <= s[i] <= 'Z' ==> Lower(s)[i] as int == s[i] as int + 32
  {
  }

  /** `needle` occurs in `hay` starting at position `i`. */
  ghost predicate OccursAt(needle: string, hay: string, i: nat) {
    i + |needle| <= |hay| && hay[i..i + |needle|] == needle
  }

  /** Whether `needle` occurs in `hay` at some position `k` or later. */
  function ContainsFrom(hay: string, needle: string, k: nat): (b: bool)
    ensures b <==> exists i: nat :: k <= i && OccursAt(needle, hay, i)
    decreases |hay| - k
  {
    if k + |needle| > |hay| then false
    else if hay[k..k + |needle|] == needle then
      assert OccursAt(needle, hay, k);
      true
    else ContainsFrom(hay, needle, k + 1)
  }

  /** Python's `needle in hay` for strings. */
  function Contains(hay: string, needle: string): (b: bool)
    ensures b <==> exists i: nat :: OccursAt(needle, hay, i)
  {
    ContainsFrom(hay, needle, 0)
  }

  /** Django's `icontains` lookup, with ASCII case folding. */
  function IContains(hay: string, needle: string): (b: bool)
    ensures b <==> exists i: nat :: OccursAt(Lower(needle), Lower(hay), i)
  {
    Contains(Lower(hay), Lower(needle))
  }

  /** A string can only contain a needle whose first character it contains. */
  lemma ContainsNeedsFirstChar(hay: string, needle: string)
    requires |needle| > 0 && needle[0] !in hay
    ensures !Contains(hay, needle)
  {
    forall i: nat ensures !OccursAt(needle, hay, i) {
      if i + |needle| <= |hay| {
        assert hay[i..i + |needle|][0] == hay[i];
      }
    }
  }

  /** Python's `s.split(',')[0]`: the longest prefix of `s` without a comma. */
  function BeforeFirstComma(s: string): (r: string)
    ensures r <= s
    ensures ',' !in r
    ensures |r| < |s| ==> s[|r|] == ','
    decreases |s|
  {
    if |s| == 0 || s[0] == ',' then [] else [s[0]] + BeforeFirstComma(s[1..])
  }

  /** The first entry of a comma-separated list is recovered exactly, blanks included. */
  lemma {:induction false} BeforeFirstCommaOfList(head: string, rest: string)
    requires ',' !in head
    ensures BeforeFirstComma(head + [','] + rest) == head
    decreases |head|
  {
    var s := head + [','] + rest;
    if head != [] {
      assert s[0] == head[0] && s[1..] == head[1..] + [','] + rest;
      BeforeFirstCommaOfList(head[1..], rest);
    }
  }

  /** A string without a comma is its own first entry. */
  lemma BeforeFirstCommaNoComma(s: string)
    requires ',' !in s
    ensures BeforeFirstComma(s) == s
  {
  }
}
