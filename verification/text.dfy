/** Character classes, lower-casing and substring search, restricted to what
    the odds extractor needs.  `\d`, `\w` and `str.lower()` are taken over
    ASCII; whitespace is the full set Python's `str.split()` splits on. */
module Text {
  import opened Wrappers

  /** `\d`: an ASCII decimal digit. */
  predicate IsDigit(c: char) {
    '0' <= c <= '9'
  }

  /** `\w`: an ASCII letter, digit or underscore. */
  predicate IsWordChar(c: char) {
    IsDigit(c) || 'a' <= c <= 'z' || 'A' <= c <= 'Z' || c == '_'
  }

  /** A character for which Python's `str.isspace()` holds, so that
      `str.split()` and `str.strip()` treat it as whitespace. */
  predicate IsSpace(c: char) {
    || c == ' '
    || '\t' <= c <= '\r'
    || '\U{1C}' <= c <= '\U{1F}'
    || c == '\U{85}' || c == '\U{A0}' || c == '\U{1680}'
    || '\U{2000}' <= c <= '\U{200A}'
    || c == '\U{2028}' || c == '\U{2029}' || c == '\U{202F}'
    || c == '\U{205F}' || c == '\U{3000}'
  }

  /** `str.lower()` on one character: only `A`..`Z` change. */
  function LowerChar(c: char): (r: char)
    ensures IsDigit(r) <==> IsDigit(c)
    ensures IsWordChar(r) <==> IsWordChar(c)
    ensures IsSpace(r) <==> IsSpace(c)
    ensures !('A' <= c <= 'Z') ==> r == c
    ensures !('a' <= r <= 'z') ==> r == c
  {
    if 'A' <= c <= 'Z' then (c as int + 32) as char else c
  }

  function Lower(s: string): string {
    seq(|s|, k requires 0 <= k < |s| => LowerChar(s[k]))
  }

  predicate AllDigits(s: string) {
    forall k :: 0 <= k < |s| ==> IsDigit(s[k])
  }

  function DigitValue(c: char): nat
    requires IsDigit(c)
  {
    c as int - '0' as int
  }

  /** The decimal value of a run of digits. */
  function DigitsValue(s: string): nat
    requires AllDigits(s)
    decreases |s|
  {
    if s == [] then 0 else DigitsValue(s[..|s| - 1]) * 10 + DigitValue(s[|s| - 1])
  }

  predicate OccursAt(hay: string, needle: string, i: int) {
    0 <= i && i + |needle| <= |hay| && hay[i..i + |needle|] == needle
  }

  predicate FirstOccurrence(hay: string, needle: string, i: int) {
    OccursAt(hay, needle, i) && forall j :: 0 <= j < i ==> !OccursAt(hay, needle, j)
  }

  function FindFrom(hay: string, needle: string, i: nat): (r: Option<nat>)
    requires i <= |hay|
    decreases |hay| - i
    ensures r.Some? ==> i <= r.value && OccursAt(hay, needle, r.value)
    ensures r.Some? ==> forall j :: i <= j < r.value ==> !OccursAt(hay, needle, j)
    ensures r.None? ==> forall j :: i <= j ==> !OccursAt(hay, needle, j)
  {
    if OccursAt(hay, needle, i) then Some(i)
    else if i + |needle| >= |hay| then None
    else FindFrom(hay, needle, i + 1)
  }

  /** `hay.find(needle)`: the lowest index at which `needle` occurs, with
      `None` standing for Python's -1. */
  function Find(hay: string, needle: string): (r: Option<nat>)
    ensures r.None? <==> forall i :: !OccursAt(hay, needle, i)
    ensures r.Some? ==> FirstOccurrence(hay, needle, r.value)
  {
    FindFrom(hay, needle, 0)
  }

  /** A slice of a slice is a slice of the original. */
  lemma SliceOfSlice(s: string, p: nat, q: nat, x: nat, y: nat)
    requires p <= q <= |s| && x <= y <= q - p
    ensures s[p..q][x..y] == s[p + x..p + y]
  {
    var u, v := s[p..q][x..y], s[p + x..p + y];
    assert |u| == |v|;
    forall k | 0 <= k < |u| ensures u[k] == v[k] {
      assert u[k] == s[p..q][x + k] == s[p + x + k];
    }
  }
}
