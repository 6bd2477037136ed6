/** `extract_for_house`: which label pair a bookmaker is searched with,
    for the fixed thresholds 8.5, 9.5, 10.5 and 11.5. */
module Houses {
  import opened Wrappers
  import opened Text
  import opened OddScanner
  import opened Whitespace
  import opened Markets
  import opened Ordering

  /** The thresholds every house is searched for. */
  const Keys: seq<string> := ["8.5", "9.5", "10.5", "11.5"]

  /** The Portuguese label pair, tried for every house. */
  const PtOver: string := "Mais de"
  const PtUnder: string := "Menos de"

  /** The English label pair, tried for Bet365 when the Portuguese one finds nothing. */
  const EnOver: string := "Over"
  const EnUnder: string := "Under"

  /** `"bet365" in house.lower()`. */
  predicate IsBet365(house: string) {
    Find(Lower(house), "bet365").Some?
  }

  /** What `extract_for_house` returns for a page text and a house name. */
  function HouseMarkets(text: string, house: string): map<string, nat> {
    var pt := MarketMap(Collapse(text), PtOver, PtUnder, Keys);
    if IsBet365(house) && pt == map[] then MarketMap(Collapse(text), EnOver, EnUnder, Keys) else pt
  }

  /** `extract_for_house`: Bet365 is searched with the Portuguese labels and,
      only when that finds nothing at all, with the English ones; every
      other house with the Portuguese labels alone. */
  method ExtractForHouse(text: string, house: string) returns (d: map<string, nat>)
    ensures !IsBet365(house) ==> d == MarketMap(Collapse(text), PtOver, PtUnder, Keys)
    ensures IsBet365(house) && MarketMap(Collapse(text), PtOver, PtUnder, Keys) != map[]
        ==> d == MarketMap(Collapse(text), PtOver, PtUnder, Keys)
    ensures IsBet365(house) && MarketMap(Collapse(text), PtOver, PtUnder, Keys) == map[]
        ==> d == MarketMap(Collapse(text), EnOver, EnUnder, Keys)
    ensures d == HouseMarkets(text, house)
  {
    var keys := ["8.5", "9.5", "10.5", "11.5"];
    var h := Lower(house);
    if Find(h, "bet365").Some? {
      d := ExtractMarkets(text, "Mais de", "Menos de", keys);
      if d == map[] {
        d := ExtractMarkets(text, "Over", "Under", keys);
      }
    } else {
      d := ExtractMarkets(text, "Mais de", "Menos de", keys);
    }
  }

  /** A house's map never mixes the two label pairs, only Bet365 can get the
      English labels, and every odd in it is nonzero. */
  lemma HouseMarketsShape(text: string, house: string)
    ensures HouseMarkets(text, house).Keys <= Labels(PtOver, PtUnder, Keys)
         || HouseMarkets(text, house).Keys <= Labels(EnOver, EnUnder, Keys)
    ensures !IsBet365(house) ==> HouseMarkets(text, house).Keys <= Labels(PtOver, PtUnder, Keys)
    ensures forall m :: m in HouseMarkets(text, house) ==> HouseMarkets(text, house)[m] != 0
  {
    MarketMapSpec(Collapse(text), PtOver, PtUnder, Keys);
    MarketMapSpec(Collapse(text), EnOver, EnUnder, Keys);
  }

  /** Some phrase of the label pair locates an odd in the collapsed page. */
  ghost predicate PairFinds(text: string, labelOver: string, labelUnder: string) {
    exists m :: m in Labels(labelOver, labelUnder, Keys) && LocateOdd(Collapse(text), m).Some?
  }

  /** A label pair's map is empty exactly when none of its phrases locates an odd. */
  lemma EmptyIffNothingFound(text: string, labelOver: string, labelUnder: string)
    ensures MarketMap(Collapse(text), labelOver, labelUnder, Keys) == map[] <==> !PairFinds(text, labelOver, labelUnder)
  {
    var t := Collapse(text);
    var d := MarketMap(t, labelOver, labelUnder, Keys);
    MarketMapSpec(t, labelOver, labelUnder, Keys);
    if PairFinds(text, labelOver, labelUnder) {
      var m :| m in Labels(labelOver, labelUnder, Keys) && LocateOdd(t, m).Some?;
      assert m in d;
    } else {
      assert forall m :: m !in d;
    }
  }

  /** `extract_for_house` phrase by phrase: the English pair is used exactly
      when the house is Bet365 and no Portuguese phrase locates an odd; a
      label is in the result exactly when it is a phrase of the pair used
      that locates an odd, and it maps to that odd. */
  lemma HouseMarketsSpec(text: string, house: string)
    ensures !(IsBet365(house) && !PairFinds(text, PtOver, PtUnder)) ==>
      forall m :: m in HouseMarkets(text, house) <==> m in Labels(PtOver, PtUnder, Keys) && LocateOdd(Collapse(text), m).Some?
    ensures IsBet365(house) && !PairFinds(text, PtOver, PtUnder) ==>
      forall m :: m in HouseMarkets(text, house) <==> m in Labels(EnOver, EnUnder, Keys) && LocateOdd(Collapse(text), m).Some?
    ensures forall m :: m in HouseMarkets(text, house) ==> HouseMarkets(text, house)[m] == LocateOdd(Collapse(text), m).value
  {
    EmptyIffNothingFound(text, PtOver, PtUnder);
    MarketMapSpec(Collapse(text), PtOver, PtUnder, Keys);
    MarketMapSpec(Collapse(text), EnOver, EnUnder, Keys);
  }

  /** Of the houses the page compares, only Bet365 gets the English
      fallback, whatever the case of its name. */
  lemma Bet365Detected()
    ensures IsBet365("Bet365") && IsBet365("BET365")
    ensures !IsBet365("Betano") && !IsBet365("KTO")
  {
    assert Lower("Bet365") == "bet365";
    assert Lower("BET365") == "bet365";
    assert OccursAt("bet365", "bet365", 0);
    assert Lower("Betano") == "betano";
    assert "betano"[0..6][3] != "bet365"[3];
  }

  /** The fallback only ever adds markets: Bet365 comes back empty exactly
      when neither label pair locates any odd. */
  lemma Bet365EmptyOnlyIfBothEmpty(text: string, house: string)
    requires IsBet365(house)
    ensures HouseMarkets(text, house) == map[] <==>
              (MarketMap(Collapse(text), PtOver, PtUnder, Keys) == map[]
               && MarketMap(Collapse(text), EnOver, EnUnder, Keys) == map[])
  {
  }

  /** `float` of a threshold with one fraction digit, in hundredths. */
  lemma ParseThreshold(key: string, a: nat)
    requires 1 <= a <= 2 && |key| == a + 2 && key[a] == '.'
    requires AllDigits(key[..a]) && IsDigit(key[a + 1])
    ensures ParseDecimal(key) == Some(DigitsValue(key[..a]) * 100 + DigitValue(key[a + 1]) * 10)
  {
    assert OccursAt(key, ".", a) by { assert key[a..a + 1] == ['.']; }
    forall j | 0 <= j < a ensures !OccursAt(key, ".", j) {
      assert key[j] == key[..a][j];
      assert key[j..j + 1][0] == key[j];
    }
    assert key[a + 1..] == [key[a + 1]];
    assert DigitsValue([key[a + 1]]) == DigitValue(key[a + 1]) by {
      assert [key[a + 1]][..0] == [];
    }
  }

  /** `float("d.5")`, in hundredths. */
  lemma ParseOneDigitHalf(d: char)
    requires IsDigit(d)
    ensures ParseDecimal([d, '.', '5']) == Some(DigitValue(d) * 100 + 50)
  {
    var key := [d, '.', '5'];
    assert key[..1] == [d] && [d][..0] == [];
    ParseThreshold(key, 1);
  }

  /** `float("dd.5")`, in hundredths. */
  lemma ParseTwoDigitHalf(d1: char, d2: char)
    requires IsDigit(d1) && IsDigit(d2)
    ensures ParseDecimal([d1, d2, '.', '5']) == Some((DigitValue(d1) * 10 + DigitValue(d2)) * 100 + 50)
  {
    var key := [d1, d2, '.', '5'];
    assert key[..2] == [d1, d2] && [d1, d2][..1] == [d1] && [d1][..0] == [];
    ParseThreshold(key, 2);
  }

  lemma ThresholdValues()
    ensures ParseDecimal("8.5") == Some(850)
    ensures ParseDecimal("9.5") == Some(950)
    ensures ParseDecimal("10.5") == Some(1050)
    ensures ParseDecimal("11.5") == Some(1150)
  {
    ParseOneDigitHalf('8');
    ParseOneDigitHalf('9');
    ParseTwoDigitHalf('1', '0');
    ParseTwoDigitHalf('1', '1');
  }

  /** A threshold written as digits, a period and one digit is a token on
      its own. */
  lemma HalfKeyMatches(key: string, a: nat)
    requires 1 <= a <= 2 && |key| == a + 2 && key[a] == '.'
    requires forall k :: 0 <= k < |key| && k != a ==> IsDigit(key[k])
    ensures MatchAt(key, 0, a, 1)
  {
    assert AllDigits(key[0..a]) by {
      forall k | 0 <= k < a ensures IsDigit(key[0..a][k]) { assert key[0..a][k] == key[k]; }
    }
    assert key[a + 1..a + 2] == [key[a + 1]];
  }

  /** Every configured threshold has that shape. */
  lemma KeyShape(key: string) returns (a: nat)
    requires key in Keys
    ensures 1 <= a <= 2 && |key| == a + 2 && key[a] == '.'
    ensures MatchAt(key, 0, a, 1)
  {
    a := |key| - 2;
    HalfKeyMatches(key, a);
  }

  /** No configured label contains a digit. */
  lemma SideHasNoDigits(side: string)
    requires side == PtOver || side == PtUnder || side == EnOver || side == EnUnder
    ensures forall k :: 0 <= k < |side| ==> !IsDigit(side[k])
  {
  }

  /** For the configured labels and thresholds: when a located phrase is
      followed by a non-word character, the odd stored for it is the
      threshold itself, e.g. 9.5 for `"Mais de 9.5"`. */
  lemma ConfiguredThresholdIsStored(t: string, side: string, key: string, i: nat)
    requires side == PtOver || side == PtUnder || side == EnOver || side == EnUnder
    requires key in Keys
    requires FirstOccurrence(Lower(t), Lower(Phrase(side, key)), i)
    requires BoundaryAfter(t, i + |Phrase(side, key)|)
    ensures key == "8.5" ==> LocateOdd(t, Phrase(side, key)) == Some(850)
    ensures key == "9.5" ==> LocateOdd(t, Phrase(side, key)) == Some(950)
    ensures key == "10.5" ==> LocateOdd(t, Phrase(side, key)) == Some(1050)
    ensures key == "11.5" ==> LocateOdd(t, Phrase(side, key)) == Some(1150)
  {
    var a := KeyShape(key);
    SideHasNoDigits(side);
    ThresholdValues();
    ThresholdIsFirstOdd(t, side, key, i, a, 1);
  }

  /** A label without digits, a space, then a threshold written as
      digits, a period and one digit: the row's sort key is the threshold. */
  lemma PhraseSortKey(side: string, key: string, a: nat)
    requires forall k :: 0 <= k < |side| ==> !IsDigit(side[k])
    requires 1 <= a <= 2 && |key| == a + 2 && key[a] == '.'
    requires AllDigits(key[..a]) && IsDigit(key[a + 1])
    ensures ParseDecimal(key).Some? && SortKey(Phrase(side, key)) * 10 == ParseDecimal(key).value
  {
    var s, L := Phrase(side, key), |side|;
    assert s[L + 1..] == key;
    SliceOfSlice(s, L + 1, |s|, 0, a);
    assert s[L + 1..L + 1 + a] == key[..a];
    assert s[L + 1 + a] == key[a] && s[L + 2 + a] == key[a + 1];
    assert NumberAt(s, L + 1, L + 1 + a);
    SortKeyOfFirstNumber(s, L + 1, L + 1 + a);
    ParseThreshold(key, a);
  }

  /** The sort key of a configured row is its threshold: the labels carry
      no digit, so the first `\d+\.\d` is the threshold itself. */
  lemma ThresholdSortKey(side: string, key: string)
    requires side == PtOver || side == PtUnder || side == EnOver || side == EnUnder
    requires key in Keys
    ensures ParseDecimal(key).Some? && SortKey(Phrase(side, key)) * 10 == ParseDecimal(key).value
  {
    var a := KeyShape(key);
    assert key[..a] == key[0..a];
    SideHasNoDigits(side);
    PhraseSortKey(side, key, a);
  }

  /** The `i`-th configured threshold is 8.5 + i. */
  lemma KeyValue(i: nat)
    requires i < |Keys|
    ensures ParseDecimal(Keys[i]) == Some(850 + 100 * i)
  {
    if i == 0 {
      ParseOneDigitHalf('8');
    } else if i == 1 {
      ParseOneDigitHalf('9');
    } else if i == 2 {
      ParseTwoDigitHalf('1', '0');
    } else {
      ParseTwoDigitHalf('1', '1');
    }
  }

  /** The configured thresholds are in increasing order. */
  lemma KeysAscending(p: nat, q: nat)
    requires p < q < |Keys|
    ensures ParseDecimal(Keys[p]).Some? && ParseDecimal(Keys[q]).Some?
    ensures ParseDecimal(Keys[p]).value < ParseDecimal(Keys[q]).value
  {
    KeyValue(p);
    KeyValue(q);
  }

  /** Rows of the configured labels come in threshold order, whatever their
      labels: every 8.5 row before every 9.5 row, and so on, although as
      strings "10.5" sorts before "8.5". */
  lemma ConfiguredRowOrder(side1: string, side2: string, p: nat, q: nat)
    requires side1 == PtOver || side1 == PtUnder || side1 == EnOver || side1 == EnUnder
    requires side2 == PtOver || side2 == PtUnder || side2 == EnOver || side2 == EnUnder
    requires p < q < |Keys|
    ensures RowBefore(Phrase(side1, Keys[p]), Phrase(side2, Keys[q]))
  {
    KeysAscending(p, q);
    ThresholdSortKey(side1, Keys[p]);
    ThresholdSortKey(side2, Keys[q]);
  }
}
