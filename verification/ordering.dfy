/** The row order of the comparison table: `sorted(..., key=lambda x:
    (float(first \d+\.\d in x), x) if there is one else (999, x))`.
    Numbers are exact integers in tenths, so 999 is 9990. */
module Ordering {
  import opened Wrappers
  import opened Text

  /** The sort key of a market with no `\d+\.\d` in it, in tenths. */
  const NoNumberKey: nat := 9990

  /** `\d+\.\d` matches at `i`, with its period at `dot`. */
  predicate NumberAt(s: string, i: int, dot: int) {
    0 <= i < dot && dot + 1 < |s| && AllDigits(s[i..dot]) && s[dot] == '.' && IsDigit(s[dot + 1])
  }

  ghost predicate IsFirstNumber(s: string, i: int, dot: int) {
    NumberAt(s, i, dot) && forall j, e :: 0 <= j < i ==> !NumberAt(s, j, e)
  }

  /** The end of the run of digits that starts at `i`. */
  function RunEnd(s: string, i: nat): (e: nat)
    requires i <= |s|
    ensures i <= e <= |s|
    ensures e < |s| ==> !IsDigit(s[e])
    decreases |s| - i
  {
    if i < |s| && IsDigit(s[i]) then RunEnd(s, i + 1) else i
  }

  lemma {:induction false} RunEndCovers(s: string, i: nat, e: nat)
    requires i <= e <= |s| && AllDigits(s[i..e])
    ensures e <= RunEnd(s, i)
    decreases |s| - i
  {
    if i < e {
      assert s[i] == s[i..e][0];
      assert s[i + 1..e] == s[i..e][1..];
      RunEndCovers(s, i + 1, e);
    }
  }

  lemma {:induction false} RunEndStops(s: string, i: nat, e: nat)
    requires i <= e < |s| && !IsDigit(s[e])
    ensures RunEnd(s, i) <= e
    decreases |s| - i
  {
    if i < e && IsDigit(s[i]) {
      RunEndStops(s, i + 1, e);
    }
  }

  lemma {:induction false} RunEndDigits(s: string, i: nat)
    requires i <= |s|
    ensures AllDigits(s[i..RunEnd(s, i)])
    decreases |s| - i
  {
    if i < |s| && IsDigit(s[i]) {
      RunEndDigits(s, i + 1);
      assert s[i..RunEnd(s, i)] == [s[i]] + s[i + 1..RunEnd(s, i + 1)];
    }
  }

  /** A match's period is where its digit run stops: greedy `\d+` cannot
      stop anywhere else and still be followed by `.`. */
  lemma NumberDot(s: string, i: int, dot: int)
    requires NumberAt(s, i, dot)
    ensures dot == RunEnd(s, i)
  {
    RunEndCovers(s, i, dot);
    RunEndStops(s, i, dot);
  }

  /** The match at `i`, if any, as the position of its period. */
  function NumberDotAt(s: string, i: nat): (r: Option<nat>)
    requires i <= |s|
    ensures r.Some? ==> NumberAt(s, i, r.value)
    ensures r.None? ==> forall e :: !NumberAt(s, i, e)
  {
    var e := RunEnd(s, i);
    RunEndDigits(s, i);
    if i < e && e + 1 < |s| && s[e] == '.' && IsDigit(s[e + 1]) then Some(e)
    else
      assert forall e' :: NumberAt(s, i, e') ==> e' == e by {
        forall e' | NumberAt(s, i, e') ensures e' == e { NumberDot(s, i, e'); }
      }
      None
  }

  function FirstNumberFrom(s: string, i: nat): (r: Option<(nat, nat)>)
    requires i <= |s|
    decreases |s| - i
    ensures r.Some? ==> i <= r.value.0 && NumberAt(s, r.value.0, r.value.1)
    ensures r.Some? ==> forall j, e :: i <= j < r.value.0 ==> !NumberAt(s, j, e)
    ensures r.None? ==> forall j, e :: i <= j ==> !NumberAt(s, j, e)
  {
    match NumberDotAt(s, i)
    case Some(dot) => Some((i, dot))
    case None => if i == |s| then None else FirstNumberFrom(s, i + 1)
  }

  /** The value of the number matched at `i`, in tenths. */
  function NumberTenths(s: string, i: int, dot: int): nat
    requires NumberAt(s, i, dot)
  {
    DigitsValue(s[i..dot]) * 10 + DigitValue(s[dot + 1])
  }

  /** The numeric part of a market's sort key: its first `\d+\.\d`, or 999. */
  function SortKey(market: string): (r: nat)
    ensures (forall j, e :: !NumberAt(market, j, e)) ==> r == NoNumberKey
    ensures forall i, dot :: IsFirstNumber(market, i, dot) ==> r == NumberTenths(market, i, dot)
  {
    match FirstNumberFrom(market, 0)
    case None => NoNumberKey
    case Some((i, dot)) =>
      assert forall i', dot' :: IsFirstNumber(market, i', dot') ==> i' == i && dot' == dot by {
        forall i', dot' | IsFirstNumber(market, i', dot') ensures i' == i && dot' == dot {
          assert NumberAt(market, i, dot) && NumberAt(market, i', dot');
          assert i' == i;
          NumberDot(market, i, dot);
          NumberDot(market, i', dot');
        }
      }
      NumberTenths(market, i, dot)
  }

  /** A number with no digit anywhere before it is the first number, and
      so gives the sort key. */
  lemma SortKeyOfFirstNumber(s: string, i: nat, dot: nat)
    requires NumberAt(s, i, dot)
    requires forall k :: 0 <= k < i ==> !IsDigit(s[k])
    ensures SortKey(s) == NumberTenths(s, i, dot)
  {
    forall j, e | NumberAt(s, j, e) ensures IsDigit(s[j]) {
      assert s[j] == s[j..e][0];
    }
    assert IsFirstNumber(s, i, dot);
  }

  /** Python's `<` on strings: lexicographic by code point, a proper prefix first. */
  predicate StrLess(a: string, b: string)
    decreases |a|
  {
    if a == [] then b != []
    else if b == [] then false
    else if a[0] != b[0] then a[0] < b[0]
    else StrLess(a[1..], b[1..])
  }

  lemma {:induction false} StrLessIrreflexive(a: string)
    ensures !StrLess(a, a)
    decreases |a|
  {
    if a != [] {
      StrLessIrreflexive(a[1..]);
    }
  }

  lemma {:induction false} StrLessTransitive(a: string, b: string, c: string)
    requires StrLess(a, b) && StrLess(b, c)
    ensures StrLess(a, c)
    decreases |a|
  {
    if a != [] && b != [] && c != [] && a[0] == b[0] && b[0] == c[0] {
      StrLessTransitive(a[1..], b[1..], c[1..]);
    }
  }

  lemma {:induction false} StrLessTotal(a: string, b: string)
    requires a != b
    ensures StrLess(a, b) || StrLess(b, a)
    decreases |a|
  {
    if a != [] && b != [] && a[0] == b[0] {
      assert a == [a[0]] + a[1..] && b == [b[0]] + b[1..];
      StrLessTotal(a[1..], b[1..]);
    }
  }

  /** Row `x` comes before row `y`: smaller number, or the same number and
      the smaller market. */
  predicate RowBefore(x: string, y: string) {
    SortKey(x) < SortKey(y) || (SortKey(x) == SortKey(y) && StrLess(x, y))
  }

  lemma RowBeforeIrreflexive(x: string)
    ensures !RowBefore(x, x)
  {
    StrLessIrreflexive(x);
  }

  lemma RowBeforeTransitive(x: string, y: string, z: string)
    requires RowBefore(x, y) && RowBefore(y, z)
    ensures RowBefore(x, z)
  {
    if SortKey(x) == SortKey(y) == SortKey(z) {
      StrLessTransitive(x, y, z);
    }
  }

  lemma RowBeforeTotal(x: string, y: string)
    requires x != y
    ensures RowBefore(x, y) || RowBefore(y, x)
  {
    StrLessTotal(x, y);
  }

  /** Every market is strictly before every later one: ordered, no repeats. */
  predicate StrictlySorted(s: seq<string>) {
    forall i, j :: 0 <= i < j < |s| ==> RowBefore(s[i], s[j])
  }

  lemma BeforeAll(x: string, s: seq<string>)
    requires StrictlySorted(s) && s != [] && RowBefore(x, s[0])
    ensures forall k :: 0 <= k < |s| ==> RowBefore(x, s[k])
  {
    forall k | 0 < k < |s| ensures RowBefore(x, s[k]) {
      RowBeforeTransitive(x, s[0], s[k]);
    }
  }

  /** Puts `x` in its place in a strictly sorted sequence. */
  function Insert(s: seq<string>, x: string): (r: seq<string>)
    requires StrictlySorted(s) && x !in s
    ensures StrictlySorted(r)
    ensures forall m :: m in r <==> m in s || m == x
    ensures |r| == |s| + 1
  {
    if s == [] then [x]
    else if RowBefore(x, s[0]) then
      BeforeAll(x, s);
      [x] + s
    else
      RowBeforeTotal(x, s[0]);
      var rest := Insert(s[1..], x);
      assert forall m :: m in rest ==> RowBefore(s[0], m);
      [s[0]] + rest
  }

  /** `sorted(list(mercados), key=...)`: the labels of the set, each once,
      in row order, whatever order the set is enumerated in. */
  method SortMarkets(labels: set<string>) returns (sorted: seq<string>)
    ensures StrictlySorted(sorted)
    ensures forall m :: m in sorted <==> m in labels
  {
    sorted := [];
    var rest := labels;
    while rest != {}
      invariant StrictlySorted(sorted)
      invariant forall m :: m in labels <==> m in sorted || m in rest
      invariant forall m :: m in sorted ==> m !in rest
      decreases |rest|
    {
      var x :| x in rest;
      sorted := Insert(sorted, x);
      rest := rest - {x};
    }
  }

  lemma RowBeforeAsymmetric(x: string, y: string)
    ensures !(RowBefore(x, y) && RowBefore(y, x))
  {
    if RowBefore(x, y) && RowBefore(y, x) {
      RowBeforeTransitive(x, y, x);
      RowBeforeIrreflexive(x);
    }
  }

  lemma HeadBeforeRest(s: seq<string>)
    requires StrictlySorted(s) && s != []
    ensures forall m :: m in s[1..] ==> RowBefore(s[0], m)
  {
    forall m | m in s[1..] ensures RowBefore(s[0], m) {
      var k :| 0 <= k < |s[1..]| && s[1..][k] == m;
      assert s[k + 1] == m;
    }
  }

  /** A strictly sorted arrangement of a set of labels is unique, so the
      rows do not depend on the order in which the set is enumerated. */
  lemma {:induction false} StrictlySortedUnique(s1: seq<string>, s2: seq<string>)
    requires StrictlySorted(s1) && StrictlySorted(s2)
    requires forall m :: m in s1 <==> m in s2
    ensures s1 == s2
    decreases |s1|
  {
    assert s1 != [] ==> s1[0] in s2;
    assert s2 != [] ==> s2[0] in s1;
    if s1 != [] && s2 != [] {
      var x, y := s1[0], s2[0];
      HeadBeforeRest(s1);
      HeadBeforeRest(s2);
      RowBeforeAsymmetric(x, y);
      RowBeforeIrreflexive(x);
      RowBeforeIrreflexive(y);
      assert s1 == [x] + s1[1..] && s2 == [y] + s2[1..];
      assert x in s2 && y in s1;
      assert x == y;
      forall m ensures m in s1[1..] <==> m in s2[1..] {
        RowBeforeIrreflexive(m);
        assert m in s1 <==> m == x || m in s1[1..];
        assert m in s2 <==> m == y || m in s2[1..];
      }
      StrictlySortedUnique(s1[1..], s2[1..]);
    }
  }
}
