/** The odd token scanner: the first word-bounded `\d{1,2}[.,]\d{1,2}` in a
    window of text, read as a decimal number with `,` taken as `.`.
    Odds are exact integers in hundredths (`2,75` is 275). */
module OddScanner {
  import opened Wrappers
  import opened Text

  predicate IsSep(c: char) {
    c == '.' || c == ','
  }

  /** `\b` just before position `i`, given that `s[i]` is a word character. */
  predicate BoundaryBefore(s: string, i: int)
    requires 0 <= i <= |s|
  {
    i == 0 || !IsWordChar(s[i - 1])
  }

  /** `\b` just after position `e - 1`, given that `s[e - 1]` is a word character. */
  predicate BoundaryAfter(s: string, e: int)
    requires 0 <= e <= |s|
  {
    e == |s| || !IsWordChar(s[e])
  }

  /** The pattern `\b\d{1,2}[.,]\d{1,2}\b` matches at `i` with `a` digits
      before the separator and `b` digits after it. */
  predicate MatchAt(s: string, i: int, a: int, b: int) {
    && 0 <= i && 1 <= a <= 2 && 1 <= b <= 2 && i + a + 1 + b <= |s|
    && BoundaryBefore(s, i)
    && AllDigits(s[i..i + a])
    && IsSep(s[i + a])
    && AllDigits(s[i + a + 1..i + a + 1 + b])
    && BoundaryAfter(s, i + a + 1 + b)
  }

  /** Where a match starts and how many digits it has on either side. */
  datatype Token = Token(start: nat, intLen: nat, fracLen: nat) {
    function End(): nat {
      start + intLen + 1 + fracLen
    }
  }

  predicate Matches(s: string, t: Token) {
    MatchAt(s, t.start, t.intLen, t.fracLen)
  }

  /** The leftmost match: what `re.search` reports. */
  ghost predicate IsFirstMatch(s: string, t: Token) {
    Matches(s, t) && forall j, a, b :: 0 <= j < t.start ==> !MatchAt(s, j, a, b)
  }

  /** A match's digit counts are fixed by the text: two integer digits
      exactly when the second character is a digit, two fraction digits
      exactly when the character after the first one is a digit. */
  lemma MatchDigitCounts(s: string, i: int, a: int, b: int)
    requires MatchAt(s, i, a, b)
    ensures a == (if IsDigit(s[i + 1]) then 2 else 1)
    ensures b == (if i + a + 2 < |s| && IsDigit(s[i + a + 2]) then 2 else 1)
  {
    if a == 2 {
      assert s[i + 1] == s[i..i + a][1];
    }
    if b == 2 {
      assert s[i + a + 2] == s[i + a + 1..i + a + 1 + b][1];
    }
  }

  /** At one start position at most one split into digits, separator and
      digits matches, so the regex engine's backtracking order cannot pick
      between two. */
  lemma MatchUnique(s: string, i: int, a: int, b: int, a': int, b': int)
    requires MatchAt(s, i, a, b) && MatchAt(s, i, a', b')
    ensures a == a' && b == b'
  {
    MatchDigitCounts(s, i, a, b);
    MatchDigitCounts(s, i, a', b');
  }

  /** Tries the pattern at one position, choosing the digit counts the
      way the greedy `\d{1,2}` does. */
  function TryAt(s: string, i: nat): (r: Option<Token>)
    requires i <= |s|
    ensures r.Some? ==> r.value.start == i && Matches(s, r.value)
  {
    if i == |s| || !BoundaryBefore(s, i) || !IsDigit(s[i]) then None
    else
      var a := if i + 1 < |s| && IsDigit(s[i + 1]) then 2 else 1;
      var p := i + a;
      if p + 1 >= |s| || !IsSep(s[p]) || !IsDigit(s[p + 1]) then None
      else
        var b := if p + 2 < |s| && IsDigit(s[p + 2]) then 2 else 1;
        if BoundaryAfter(s, p + 1 + b) then
          assert AllDigits(s[i..i + a]) by {
            if a == 2 { assert s[i..i + a] == [s[i], s[i + 1]]; } else { assert s[i..i + a] == [s[i]]; }
          }
          assert AllDigits(s[p + 1..p + 1 + b]) by {
            if b == 2 { assert s[p + 1..p + 1 + b] == [s[p + 1], s[p + 2]]; } else { assert s[p + 1..p + 1 + b] == [s[p + 1]]; }
          }
          Some(Token(i, a, b))
        else
          None
  }

  /** Whatever matches at `i` is what `TryAt` reports. */
  lemma TryAtComplete(s: string, i: nat)
    requires i <= |s|
    ensures forall a, b :: MatchAt(s, i, a, b) ==> TryAt(s, i) == Some(Token(i, a, b))
  {
    forall a, b | MatchAt(s, i, a, b) ensures TryAt(s, i) == Some(Token(i, a, b)) {
      MatchDigitCounts(s, i, a, b);
      assert s[i] == s[i..i + a][0];
      assert s[i + a + 1] == s[i + a + 1..i + a + 1 + b][0];
    }
  }

  function ScanFrom(s: string, i: nat): (r: Option<Token>)
    requires i <= |s|
    decreases |s| - i
    ensures r.Some? ==> i <= r.value.start && Matches(s, r.value)
    ensures r.Some? ==> forall j, a, b :: i <= j < r.value.start ==> !MatchAt(s, j, a, b)
    ensures r.None? ==> forall j, a, b :: i <= j ==> !MatchAt(s, j, a, b)
  {
    TryAtComplete(s, i);
    match TryAt(s, i)
    case Some(t) => Some(t)
    case None => if i == |s| then None else ScanFrom(s, i + 1)
  }

  /** `re.search(r"\b\d{1,2}[.,]\d{1,2}\b", s)`. */
  function FirstToken(s: string): (r: Option<Token>)
    ensures r.None? <==> forall j, a, b :: !MatchAt(s, j, a, b)
    ensures r.Some? ==> IsFirstMatch(s, r.value)
  {
    ScanFrom(s, 0)
  }

  /** The leftmost match is unique, so `FirstToken` finds exactly it. */
  lemma FirstTokenIsTheFirstMatch(s: string)
    ensures forall t :: IsFirstMatch(s, t) ==> FirstToken(s) == Some(t)
  {
    forall t | IsFirstMatch(s, t) ensures FirstToken(s) == Some(t) {
      var f := FirstToken(s).value;
      assert Matches(s, f) && Matches(s, t);
      assert f.start == t.start;
      MatchUnique(s, t.start, t.intLen, t.fracLen, f.intLen, f.fracLen);
    }
  }

  /** The number a token spells, in hundredths: one fraction digit is tenths. */
  function TokenValue(s: string, t: Token): nat
    requires Matches(s, t)
  {
    var whole := DigitsValue(s[t.start..t.start + t.intLen]);
    var frac := DigitsValue(s[t.start + t.intLen + 1..t.End()]);
    whole * 100 + (if t.fracLen == 1 then frac * 10 else frac)
  }

  /** `.replace(",", ".")`. */
  function NormalizeSep(v: string): string {
    seq(|v|, k requires 0 <= k < |v| => if v[k] == ',' then '.' else v[k])
  }

  /** `float(v)`, in hundredths, for the shape the scanner hands it: digits,
      a period, then one or two digits; anything else is the `except` path. */
  function ParseDecimal(v: string): Option<nat> {
    match Find(v, ".")
    case None => None
    case Some(p) =>
      var whole, frac := v[..p], v[p + 1..];
      if 1 <= |whole| && 1 <= |frac| <= 2 && AllDigits(whole) && AllDigits(frac) then
        Some(DigitsValue(whole) * 100 + (if |frac| == 1 then DigitsValue(frac) * 10 else DigitsValue(frac)))
      else
        None
  }

  /** `float(v)` of digits, a period, then one or two digits. */
  lemma ParseShape(v: string, a: nat)
    requires 1 <= a && a + 2 <= |v| <= a + 3 && v[a] == '.'
    requires AllDigits(v[..a]) && AllDigits(v[a + 1..])
    ensures ParseDecimal(v) == Some(DigitsValue(v[..a]) * 100 +
      (if |v| == a + 2 then DigitsValue(v[a + 1..]) * 10 else DigitsValue(v[a + 1..])))
  {
    assert OccursAt(v, ".", a) by { assert v[a..a + 1] == ['.']; }
    forall j | 0 <= j < a ensures !OccursAt(v, ".", j) {
      assert v[j] == v[..a][j];
      assert v[j..j + 1][0] == v[j];
    }
  }

  /** The replacement leaves a run of digits alone. */
  lemma NormalizeDigits(u: string, x: nat, y: nat)
    requires x <= y <= |u| && AllDigits(u[x..y])
    ensures NormalizeSep(u)[x..y] == u[x..y]
  {
    forall k | 0 <= k < y - x ensures NormalizeSep(u)[x..y][k] == u[x..y][k] {
      assert u[x..y][k] == u[x + k];
    }
  }

  /** Text without commas is left alone by the replacement. */
  lemma NormalizeWithoutCommas(v: string)
    requires forall k :: 0 <= k < |v| ==> v[k] != ','
    ensures NormalizeSep(v) == v
  {
  }

  /** The matched text with its comma turned into a period always parses,
      to the value the token spells: the `except` branch is never taken. */
  lemma ParseToken(s: string, t: Token)
    requires Matches(s, t)
    ensures ParseDecimal(NormalizeSep(s[t.start..t.End()])) == Some(TokenValue(s, t))
  {
    var a := t.intLen;
    var u := s[t.start..t.End()];
    var v := NormalizeSep(u);
    SliceOfSlice(s, t.start, t.End(), 0, a);
    SliceOfSlice(s, t.start, t.End(), a + 1, |u|);
    assert u[a] == s[t.start + a];
    NormalizeDigits(u, 0, a);
    NormalizeDigits(u, a + 1, |u|);
    assert |v| == |u| == a + 1 + t.fracLen && v[a] == '.';
    assert v[..a] == s[t.start..t.start + a] by { assert v[..a] == v[0..a]; }
    assert v[a + 1..] == s[t.start + a + 1..t.End()] by { assert v[a + 1..] == v[a + 1..|u|]; }
    ParseShape(v, a);
  }

  /** `_find_first_odd`: absent exactly when no token matches, otherwise
      the value of the leftmost token. */
  function FindFirstOdd(window: string): (r: Option<nat>)
    ensures r.None? <==> forall i, a, b :: !MatchAt(window, i, a, b)
    ensures forall t :: IsFirstMatch(window, t) ==> r == Some(TokenValue(window, t))
  {
    FirstTokenIsTheFirstMatch(window);
    match FirstToken(window)
    case None => None
    case Some(t) =>
      ParseToken(window, t);
      ParseDecimal(NormalizeSep(window[t.start..t.End()]))
  }
}
