/** `extract_markets`: locate `"<label> <k>"` case-insensitively in the
    collapsed page text and read the first odd in the 120 characters that
    start there. */
module Markets {
  import opened Wrappers
  import opened Text
  import opened OddScanner
  import opened Whitespace

  /** How many characters, from the start of a located phrase, are scanned. */
  const WindowSize: nat := 120

  /** `t[i:i+120]`, clamped at the end of the text as Python clamps slices. */
  function Window(t: string, i: nat): (w: string)
    requires i <= |t|
    ensures |w| == if i + WindowSize <= |t| then WindowSize else |t| - i
    ensures forall j :: 0 <= j < |w| ==> w[j] == t[i + j]
  {
    t[i..if i + WindowSize <= |t| then i + WindowSize else |t|]
  }

  /** `f"{side} {k}"`: both the phrase searched for and the key stored. */
  function Phrase(side: string, key: string): string {
    side + " " + key
  }

  /** `if odd:` keeps an odd only when it is present and not 0.0. */
  function Truthy(odd: Option<nat>): (r: Option<nat>)
    ensures r.Some? <==> odd.Some? && odd.value != 0
    ensures r.Some? ==> r == odd
  {
    if odd.Some? && odd.value != 0 then odd else None
  }

  /** One side of one threshold: the odd stored under `phrase`, if any. */
  function LocateOdd(t: string, phrase: string): (r: Option<nat>)
    ensures (forall i :: !OccursAt(Lower(t), Lower(phrase), i)) ==> r.None?
    ensures forall i :: FirstOccurrence(Lower(t), Lower(phrase), i) ==> r == Truthy(FindFirstOdd(Window(t, i)))
    ensures r.Some? ==> r.value != 0
  {
    match Find(Lower(t), Lower(phrase))
    case None => None
    case Some(i) => Truthy(FindFirstOdd(Window(t, i)))
  }

  /** Every label `extract_markets` may store for these keys. */
  function Labels(labelOver: string, labelUnder: string, keys: seq<string>): set<string> {
    (set k | k in keys :: Phrase(labelOver, k)) + (set k | k in keys :: Phrase(labelUnder, k))
  }

  /** The map after one side has been tried: `out[phrase] = odd` when the
      phrase is located and its odd is truthy, otherwise unchanged. */
  function Record(out: map<string, nat>, t: string, phrase: string): map<string, nat> {
    match LocateOdd(t, phrase)
    case Some(v) => out[phrase := v]
    case None => out
  }

  /** What `extract_markets` returns for the collapsed text `t`: the keys
      tried in order, the over side before the under side. */
  function MarketMap(t: string, labelOver: string, labelUnder: string, keys: seq<string>): map<string, nat>
    decreases |keys|
  {
    if keys == [] then map[]
    else
      var k := keys[|keys| - 1];
      var before := MarketMap(t, labelOver, labelUnder, keys[..|keys| - 1]);
      Record(Record(before, t, Phrase(labelOver, k)), t, Phrase(labelUnder, k))
  }

  lemma LabelsSnoc(labelOver: string, labelUnder: string, keys: seq<string>, k: string)
    ensures Labels(labelOver, labelUnder, keys + [k])
         == Labels(labelOver, labelUnder, keys) + {Phrase(labelOver, k), Phrase(labelUnder, k)}
  {
    var ks := keys + [k];
    assert forall x :: x in ks <==> x in keys || x == k;
  }

  /** `out` holds, for the labels tried so far, exactly the odds located. */
  ghost predicate Agrees(out: map<string, nat>, t: string, tried: set<string>) {
    && (forall m :: m in out <==> m in tried && LocateOdd(t, m).Some?)
    && (forall m :: m in out ==> out[m] == LocateOdd(t, m).value)
  }

  lemma AgreesRecord(out: map<string, nat>, t: string, tried: set<string>, phrase: string)
    requires Agrees(out, t, tried)
    ensures Agrees(Record(out, t, phrase), t, tried + {phrase})
  {
  }

  lemma {:induction false} MarketMapAgrees(t: string, labelOver: string, labelUnder: string, keys: seq<string>)
    ensures Agrees(MarketMap(t, labelOver, labelUnder, keys), t, Labels(labelOver, labelUnder, keys))
    decreases |keys|
  {
    if keys != [] {
      var init, k := keys[..|keys| - 1], keys[|keys| - 1];
      var before := MarketMap(t, labelOver, labelUnder, init);
      MarketMapAgrees(t, labelOver, labelUnder, init);
      AgreesRecord(before, t, Labels(labelOver, labelUnder, init), Phrase(labelOver, k));
      AgreesRecord(Record(before, t, Phrase(labelOver, k)), t,
                   Labels(labelOver, labelUnder, init) + {Phrase(labelOver, k)}, Phrase(labelUnder, k));
      assert keys == init + [k];
      LabelsSnoc(labelOver, labelUnder, init, k);
    }
  }

  /** A label is in the market map exactly when it is one of the labels
      tried and its own phrase locates a nonzero odd, and then it maps to
      that odd: neither the order of the keys and sides nor what any other
      label finds makes a difference. */
  lemma MarketMapSpec(t: string, labelOver: string, labelUnder: string, keys: seq<string>)
    ensures forall m :: m in MarketMap(t, labelOver, labelUnder, keys)
                    <==> m in Labels(labelOver, labelUnder, keys) && LocateOdd(t, m).Some?
    ensures forall m :: m in MarketMap(t, labelOver, labelUnder, keys)
                    ==> MarketMap(t, labelOver, labelUnder, keys)[m] == LocateOdd(t, m).value
  {
    MarketMapAgrees(t, labelOver, labelUnder, keys);
  }

  /** `Record` spelled the way the loop body computes it. */
  lemma RecordUnfolds(out: map<string, nat>, t: string, phrase: string)
    ensures Record(out, t, phrase) ==
      match Find(Lower(t), Lower(phrase))
      case None => out
      case Some(i) =>
        var odd := FindFirstOdd(Window(t, i));
        if odd.Some? && odd.value != 0 then out[phrase := odd.value] else out
  {
  }

  /** One side of one key in the loop of `extract_markets`: find the phrase,
      scan its window, store a truthy odd. */
  method StoreSide(out: map<string, nat>, t: string, phrase: string) returns (r: map<string, nat>)
    ensures r == Record(out, t, phrase)
  {
    RecordUnfolds(out, t, phrase);
    r := out;
    var i := Find(Lower(t), Lower(phrase));
    if i.Some? {
      var snippet := Window(t, i.value);
      var odd := FindFirstOdd(snippet);
      if odd.Some? && odd.value != 0 {
        r := out[phrase := odd.value];
      }
    }
  }

  /** `extract_markets`: the text is collapsed once, then each key is tried
      for the over side and the under side in turn.  A label is present
      exactly when its own phrase is located and yields a nonzero odd, so
      one side or key never affects another. */
  method ExtractMarkets(text: string, labelOver: string, labelUnder: string, keys: seq<string>)
    returns (out: map<string, nat>)
    ensures forall m :: m in out <==> m in Labels(labelOver, labelUnder, keys) && LocateOdd(Collapse(text), m).Some?
    ensures forall m :: m in out ==> out[m] == LocateOdd(Collapse(text), m).value && out[m] != 0
    ensures out == MarketMap(Collapse(text), labelOver, labelUnder, keys)
  {
    out := map[];
    var t := Collapse(text);
    for n := 0 to |keys|
      invariant out == MarketMap(t, labelOver, labelUnder, keys[..n])
    {
      var k := keys[n];
      out := StoreSide(out, t, Phrase(labelOver, k));
      out := StoreSide(out, t, Phrase(labelUnder, k));
      assert keys[..n + 1][..n] == keys[..n];
    }
    assert keys[..|keys|] == keys;
    MarketMapSpec(t, labelOver, labelUnder, keys);
  }

  /** The located text agrees with the phrase up to letter case. */
  lemma LocatedUpToCase(t: string, p: string, i: nat)
    requires OccursAt(Lower(t), Lower(p), i)
    ensures forall k :: 0 <= k < |p| ==> LowerChar(t[i + k]) == LowerChar(p[k])
  {
    forall k | 0 <= k < |p| ensures LowerChar(t[i + k]) == LowerChar(p[k]) {
      assert Lower(t)[i..i + |p|][k] == Lower(p)[k];
    }
  }

  /** The window at a located `"<label> <key>"` holds no digit up to the
      space before the key, and then the key itself, character for
      character (digits and the period have no upper case). */
  lemma WindowAtPhrase(t: string, side: string, key: string, i: nat)
    requires forall k :: 0 <= k < |side| ==> !IsDigit(side[k])
    requires forall k :: 0 <= k < |key| ==> IsDigit(key[k]) || key[k] == '.'
    requires |Phrase(side, key)| <= WindowSize
    requires OccursAt(Lower(t), Lower(Phrase(side, key)), i)
    ensures |Window(t, i)| >= |Phrase(side, key)|
    ensures forall k :: 0 <= k <= |side| ==> !IsDigit(Window(t, i)[k])
    ensures Window(t, i)[|side|] == ' '
    ensures Window(t, i)[|side| + 1..|side| + 1 + |key|] == key
  {
    var p := Phrase(side, key);
    var L := |side|;
    var w := Window(t, i);
    LocatedUpToCase(t, p, i);
    forall k | 0 <= k <= L ensures !IsDigit(w[k]) {
      assert w[k] == t[i + k] && LowerChar(t[i + k]) == LowerChar(p[k]);
    }
    assert LowerChar(t[i + L]) == LowerChar(p[L]);
    forall k | 0 <= k < |key| ensures w[L + 1 + k] == key[k] {
      assert LowerChar(t[i + L + 1 + k]) == LowerChar(p[L + 1 + k]);
    }
  }

  /** The threshold, after a space and before a non-word character, is a
      token of the window. */
  lemma KeyTokenMatches(w: string, L: nat, key: string, a: nat, b: nat)
    requires MatchAt(key, 0, a, b) && |key| == a + 1 + b
    requires L + 1 + |key| <= |w|
    requires w[L] == ' ' && w[L + 1..L + 1 + |key|] == key
    requires BoundaryAfter(w, L + 1 + |key|)
    ensures Matches(w, Token(L + 1, a, b))
  {
    SliceOfSlice(w, L + 1, L + 1 + |key|, 0, a);
    SliceOfSlice(w, L + 1, L + 1 + |key|, a + 1, a + 1 + b);
    assert w[L + 1 + a] == key[a];
  }

  /** A window with no digit before position `L + 1`, a space at `L`, then
      the threshold `key`, then no word character: its first odd is the threshold. */
  lemma FirstOddIsKey(w: string, L: nat, key: string, a: nat, b: nat)
    requires MatchAt(key, 0, a, b) && |key| == a + 1 + b && key[a] == '.'
    requires forall k :: 0 <= k < |key| ==> IsDigit(key[k]) || key[k] == '.'
    requires L + 1 + |key| <= |w|
    requires forall k :: 0 <= k <= L ==> !IsDigit(w[k])
    requires w[L] == ' ' && w[L + 1..L + 1 + |key|] == key
    requires BoundaryAfter(w, L + 1 + |key|)
    ensures FindFirstOdd(w) == ParseDecimal(key)
  {
    var tok := Token(L + 1, a, b);
    KeyTokenMatches(w, L, key, a, b);
    NoMatchBefore(w, L + 1);
    assert IsFirstMatch(w, tok);
    ParseToken(w, tok);
    assert w[tok.start..tok.End()] == key;
    NormalizeWithoutCommas(key);
  }

  /** When a threshold spelled like an odd with a period (`9.5`, `10.5`)
      follows a label without digits, and the character after the located
      threshold is not a word character, the first odd in the window is the
      threshold itself: the window starts at the label, so the scanner sees
      the threshold before any odd printed after it. */
  lemma ThresholdIsFirstOdd(t: string, side: string, key: string, i: nat, a: nat, b: nat)
    requires forall k :: 0 <= k < |side| ==> !IsDigit(side[k])
    requires MatchAt(key, 0, a, b) && |key| == a + 1 + b && key[a] == '.'
    requires |Phrase(side, key)| <= WindowSize
    requires FirstOccurrence(Lower(t), Lower(Phrase(side, key)), i)
    requires BoundaryAfter(t, i + |Phrase(side, key)|)
    ensures LocateOdd(t, Phrase(side, key)) == Truthy(ParseDecimal(key))
  {
    var L := |side|;
    var w := Window(t, i);
    forall k | 0 <= k < |key| ensures IsDigit(key[k]) || key[k] == '.' {
      if k < a { assert key[k] == key[0..a][k]; }
      if k > a { assert key[k] == key[a + 1..a + 1 + b][k - a - 1]; }
    }
    WindowAtPhrase(t, side, key, i);
    assert |Phrase(side, key)| == L + 1 + |key|;
    assert BoundaryAfter(w, L + 1 + |key|) by {
      if L + 1 + |key| < |w| {
        assert w[L + 1 + |key|] == t[i + (L + 1 + |key|)];
      }
    }
    FirstOddIsKey(w, L, key, a, b);
  }

  /** No token starts where there is no digit. */
  lemma NoMatchBefore(w: string, n: nat)
    requires n <= |w|
    requires forall k :: 0 <= k < n ==> !IsDigit(w[k])
    ensures forall j, a, b :: 0 <= j < n ==> !MatchAt(w, j, a, b)
  {
    forall j: int, a: int, b: int | 0 <= j < n ensures !MatchAt(w, j, a, b) {
      if 1 <= a && j + a <= |w| {
        assert w[j..j + a][0] == w[j];
      }
    }
  }
}
