/** `compare`: one column per non-blank house, in input order, and one row
    per market label any of them produced, in row order.  The page fetch is
    the parameter `fetch`. */
module Comparison {
  import opened Wrappers
  import opened Text
  import opened OddScanner
  import opened Markets
  import opened Houses
  import opened Ordering

  /** One table row: the market label and one cell per house column;
      `None` where that house did not show the market. */
  datatype Row = Row(market: string, cells: seq<Option<nat>>)

  /** The table: the house columns, in order, and the rows. */
  datatype Table = Table(houses: seq<string>, rows: seq<Row>)

  /** `not url.strip()`: the URL is empty or all whitespace. */
  predicate IsBlank(url: string) {
    forall k :: 0 <= k < |url| ==> IsSpace(url[k])
  }

  /** `links` is a dictionary: no house appears twice. */
  predicate DistinctHouses(links: seq<(string, string)>) {
    forall p, q :: 0 <= p < q < |links| ==> links[p].0 != links[q].0
  }

  /** `url.strip()`: the URL without whitespace at either end. */
  function Strip(url: string): string
    decreases |url|
  {
    if url != [] && IsSpace(url[0]) then Strip(url[1..])
    else if url != [] && IsSpace(url[|url| - 1]) then Strip(url[..|url| - 1])
    else url
  }

  /** `not url.strip()` holds exactly for the URLs `IsBlank` describes. */
  lemma {:induction false} BlankIffStripEmpty(url: string)
    ensures Strip(url) == [] <==> IsBlank(url)
    decreases |url|
  {
    if url != [] && IsSpace(url[0]) {
      BlankIffStripEmpty(url[1..]);
      assert forall k :: 0 < k < |url| ==> url[k] == url[1..][k - 1];
    } else if url != [] && IsSpace(url[|url| - 1]) {
      BlankIffStripEmpty(url[..|url| - 1]);
      assert forall k :: 0 <= k < |url| - 1 ==> url[k] == url[..|url| - 1][k];
    }
  }

  /** The positions of the pairs `compare` does not skip, in increasing
      order: every position with a non-blank URL, and only those. */
  function KeptIndices(links: seq<(string, string)>): (idx: seq<nat>)
    ensures forall p :: 0 <= p < |idx| ==> idx[p] < |links| && !IsBlank(links[idx[p]].1)
    ensures forall p, q :: 0 <= p < q < |idx| ==> idx[p] < idx[q]
    ensures forall k :: 0 <= k < |links| && !IsBlank(links[k].1) ==> k in idx
  {
    if links == [] then []
    else
      var n := |links| - 1;
      assert forall k :: 0 <= k < n ==> links[..n][k] == links[k];
      var init := KeptIndices(links[..n]);
      if IsBlank(links[n].1) then init else init + [n]
  }

  /** The (house, URL) pairs `compare` does not skip, in input order. */
  function Included(links: seq<(string, string)>): (inc: seq<(string, string)>)
    ensures forall l :: l in inc <==> l in links && !IsBlank(l.1)
    ensures |inc| <= |links|
  {
    if links == [] then []
    else
      var init, last := Included(links[..|links| - 1]), links[|links| - 1];
      assert links == links[..|links| - 1] + [last];
      if IsBlank(last.1) then init else init + [last]
  }

  /** The kept pairs are the pairs at `KeptIndices(links)`, one for each
      and in that order: nothing is reordered, repeated or dropped. */
  lemma {:induction false} IncludedInOrder(links: seq<(string, string)>)
    ensures |Included(links)| == |KeptIndices(links)|
    ensures forall p :: 0 <= p < |Included(links)| ==> Included(links)[p] == links[KeptIndices(links)[p]]
    decreases |links|
  {
    if links != [] {
      var n := |links| - 1;
      var pre := links[..n];
      IncludedInOrder(pre);
      var inc, idx := Included(pre), KeptIndices(pre);
      forall p | 0 <= p < |inc| ensures inc[p] == links[idx[p]] {
        assert pre[idx[p]] == links[idx[p]];
      }
      if IsBlank(links[n].1) {
        assert Included(links) == inc && KeptIndices(links) == idx;
      } else {
        assert Included(links) == inc + [links[n]] && KeptIndices(links) == idx + [n];
      }
    }
  }

  function HouseNames(inc: seq<(string, string)>): seq<string> {
    seq(|inc|, j requires 0 <= j < |inc| => inc[j].0)
  }

  /** What `compare` gets for one house, from its name and URL: the page
      text is fetched and `extract_for_house` is run on it. */
  function Extracted(fetch: string -> string): (string, string) -> map<string, nat> {
    (house, url) => HouseMarkets(fetch(url), house)
  }

  /** The markets of the `j`-th included house. */
  function MarketsOf(inc: seq<(string, string)>, ext: (string, string) -> map<string, nat>, j: nat): map<string, nat>
    requires j < |inc|
  {
    ext(inc[j].0, inc[j].1)
  }

  /** `mercados` after the first loop: every label some included house produced. */
  function LabelUnion(inc: seq<(string, string)>, ext: (string, string) -> map<string, nat>): set<string> {
    if inc == [] then {}
    else LabelUnion(inc[..|inc| - 1], ext) + MarketsOf(inc, ext, |inc| - 1).Keys
  }

  /** `.get(m, None)`. */
  function Get(d: map<string, nat>, m: string): (r: Option<nat>)
    ensures r.Some? <==> m in d
    ensures r.Some? ==> r.value == d[m]
  {
    if m in d then Some(d[m]) else None
  }

  /** `data_por_casa.get(casa, {}).get(m, None)`. */
  function Lookup(data: map<string, map<string, nat>>, house: string, m: string): (r: Option<nat>)
    ensures r.Some? <==> house in data && m in data[house]
    ensures r.Some? ==> r.value == data[house][m]
  {
    Get(if house in data then data[house] else map[], m)
  }

  function RowMarkets(rows: seq<Row>): seq<string> {
    seq(|rows|, i requires 0 <= i < |rows| => rows[i].market)
  }

  /** Row `r` is market `m` with each included house's odd for it. */
  predicate IsRowFor(r: Row, m: string, inc: seq<(string, string)>, ext: (string, string) -> map<string, nat>) {
    && r.market == m
    && |r.cells| == |inc|
    && forall j :: 0 <= j < |inc| ==> r.cells[j] == Get(MarketsOf(inc, ext, j), m)
  }

  /** The table `compare` builds when house `h` at URL `u` yields `ext(h, u)`:
      the columns are the non-blank houses in input order; the rows are the
      union of their labels, each once, in row order; each cell is that
      house's odd for the row or `None`. */
  ghost predicate IsTable(links: seq<(string, string)>, ext: (string, string) -> map<string, nat>, table: Table) {
    var inc := Included(links);
    && table.houses == HouseNames(inc)
    && StrictlySorted(RowMarkets(table.rows))
    && (forall m :: m in RowMarkets(table.rows) <==> m in LabelUnion(inc, ext))
    && (forall i :: 0 <= i < |table.rows| ==> IsRowFor(table.rows[i], table.rows[i].market, inc, ext))
  }

  /** What `compare(links)` returns when `fetch_text` returns `fetch(url)`. */
  ghost predicate IsComparison(links: seq<(string, string)>, fetch: string -> string, table: Table) {
    IsTable(links, Extracted(fetch), table)
  }

  lemma IncludedStep(links: seq<(string, string)>, n: nat)
    requires n < |links|
    ensures Included(links[..n + 1]) ==
      if IsBlank(links[n].1) then Included(links[..n]) else Included(links[..n]) + [links[n]]
  {
    assert links[..n + 1][..n] == links[..n];
  }

  /** A house not yet seen differs from every house kept so far. */
  lemma NextHouseIsNew(links: seq<(string, string)>, n: nat)
    requires DistinctHouses(links) && n < |links|
    ensures forall j :: 0 <= j < |Included(links[..n])| ==> Included(links[..n])[j].0 != links[n].0
  {
    var inc := Included(links[..n]);
    forall j | 0 <= j < |inc| ensures inc[j].0 != links[n].0 {
      assert inc[j] in inc;
      var p :| 0 <= p < n && links[..n][p] == inc[j];
    }
  }

  /** What the first loop of `compare` has built from the houses `inc`
      kept so far: the columns, the union of their labels, and each
      house's map. */
  ghost predicate Collected(inc: seq<(string, string)>, ext: (string, string) -> map<string, nat>,
                            casas: seq<string>, mercados: set<string>, data: map<string, map<string, nat>>)
  {
    && casas == HouseNames(inc)
    && mercados == LabelUnion(inc, ext)
    && (forall h :: h in data ==> h in casas)
    && (forall j :: 0 <= j < |inc| ==> inc[j].0 in data && data[inc[j].0] == MarketsOf(inc, ext, j))
  }

  lemma LabelUnionSnoc(inc: seq<(string, string)>, l: (string, string), ext: (string, string) -> map<string, nat>)
    ensures LabelUnion(inc + [l], ext) == LabelUnion(inc, ext) + ext(l.0, l.1).Keys
  {
    assert (inc + [l])[..|inc|] == inc;
  }

  /** Keeping one more house, whose name is new, with its map `d`. */
  lemma CollectedSnoc(inc: seq<(string, string)>, l: (string, string), ext: (string, string) -> map<string, nat>,
                      casas: seq<string>, mercados: set<string>, data: map<string, map<string, nat>>)
    requires Collected(inc, ext, casas, mercados, data)
    requires forall j :: 0 <= j < |inc| ==> inc[j].0 != l.0
    ensures Collected(inc + [l], ext, casas + [l.0], mercados + ext(l.0, l.1).Keys, data[l.0 := ext(l.0, l.1)])
  {
    LabelUnionSnoc(inc, l, ext);
    var inc' := inc + [l];
    forall j | 0 <= j < |inc'|
      ensures inc'[j].0 in data[l.0 := ext(l.0, l.1)]
      ensures data[l.0 := ext(l.0, l.1)][inc'[j].0] == MarketsOf(inc', ext, j)
    {
    }
  }

  /** Cells read from `data_por_casa` are the houses' own odds. */
  lemma CollectedRow(inc: seq<(string, string)>, ext: (string, string) -> map<string, nat>,
                     casas: seq<string>, mercados: set<string>, data: map<string, map<string, nat>>,
                     m: string, cells: seq<Option<nat>>)
    requires Collected(inc, ext, casas, mercados, data)
    requires |cells| == |casas|
    requires forall j :: 0 <= j < |casas| ==> cells[j] == Lookup(data, casas[j], m)
    ensures IsRowFor(Row(m, cells), m, inc, ext)
  {
  }

  /** The first loop of `compare`: fetch and extract every house whose URL
      is not blank, keeping the columns in input order. */
  method CollectHouses(links: seq<(string, string)>, fetch: string -> string)
    returns (casas: seq<string>, mercados: set<string>, dataPorCasa: map<string, map<string, nat>>)
    requires DistinctHouses(links)
    ensures Collected(Included(links), Extracted(fetch), casas, mercados, dataPorCasa)
  {
    ghost var ext := Extracted(fetch);
    casas, mercados, dataPorCasa := [], {}, map[];
    for n := 0 to |links|
      invariant Collected(Included(links[..n]), ext, casas, mercados, dataPorCasa)
    {
      var (casa, url) := links[n];
      IncludedStep(links, n);
      if IsBlank(url) {
        continue;
      }
      NextHouseIsNew(links, n);
      CollectedSnoc(Included(links[..n]), links[n], ext, casas, mercados, dataPorCasa);
      casas := casas + [casa];
      var txt := fetch(url);
      var d := ExtractForHouse(txt, casa);
      dataPorCasa := dataPorCasa[casa := d];
      mercados := mercados + d.Keys;
    }
    assert links[..|links|] == links;
  }

  /** The second loop of `compare`: one row per sorted label, one cell per
      column, read from `data_por_casa`. */
  method BuildRows(sorted: seq<string>, casas: seq<string>, dataPorCasa: map<string, map<string, nat>>)
    returns (rows: seq<Row>)
    ensures RowMarkets(rows) == sorted
    ensures forall i :: 0 <= i < |rows| ==> |rows[i].cells| == |casas|
    ensures forall i, j :: 0 <= i < |rows| && 0 <= j < |casas| ==>
              rows[i].cells[j] == Lookup(dataPorCasa, casas[j], sorted[i])
  {
    rows := [];
    for i := 0 to |sorted|
      invariant RowMarkets(rows) == sorted[..i]
      invariant forall r :: 0 <= r < i ==> |rows[r].cells| == |casas|
      invariant forall r, j :: 0 <= r < i && 0 <= j < |casas| ==>
                  rows[r].cells[j] == Lookup(dataPorCasa, casas[j], sorted[r])
    {
      var m := sorted[i];
      var cells: seq<Option<nat>> := [];
      for c := 0 to |casas|
        invariant |cells| == c
        invariant forall j :: 0 <= j < c ==> cells[j] == Lookup(dataPorCasa, casas[j], m)
      {
        cells := cells + [Lookup(dataPorCasa, casas[c], m)];
      }
      rows := rows + [Row(m, cells)];
    }
    assert sorted[..|sorted|] == sorted;
  }

  /** `compare(links)`, with `fetch_text` passed in as `fetch`. */
  method Compare(links: seq<(string, string)>, fetch: string -> string) returns (table: Table)
    requires DistinctHouses(links)
    ensures IsComparison(links, fetch, table)
  {
    var casas, mercados, dataPorCasa := CollectHouses(links, fetch);
    var sorted := SortMarkets(mercados);
    var rows := BuildRows(sorted, casas, dataPorCasa);
    table := Table(casas, rows);
    ghost var inc, ext := Included(links), Extracted(fetch);
    forall i | 0 <= i < |rows| ensures IsRowFor(rows[i], rows[i].market, inc, ext) {
      assert rows[i].market == RowMarkets(rows)[i];
      CollectedRow(inc, ext, casas, mercados, dataPorCasa, sorted[i], rows[i].cells);
      assert rows[i] == Row(sorted[i], rows[i].cells);
    }
  }

  /** A label is in the union exactly when some included house produced it. */
  lemma {:induction false} LabelUnionMembers(inc: seq<(string, string)>, ext: (string, string) -> map<string, nat>)
    ensures forall m :: m in LabelUnion(inc, ext) <==> exists j :: 0 <= j < |inc| && m in MarketsOf(inc, ext, j)
    decreases |inc|
  {
    if inc != [] {
      var init := inc[..|inc| - 1];
      LabelUnionMembers(init, ext);
      assert forall j :: 0 <= j < |init| ==> MarketsOf(inc, ext, j) == MarketsOf(init, ext, j);
    }
  }

  /** The columns are the houses whose URL is not blank. */
  lemma ColumnsAreNonBlankHouses(links: seq<(string, string)>, ext: (string, string) -> map<string, nat>, table: Table)
    requires IsTable(links, ext, table)
    ensures forall h :: h in table.houses <==> exists u :: (h, u) in links && !IsBlank(u)
  {
    var inc := Included(links);
    forall h ensures h in table.houses <==> exists u :: (h, u) in links && !IsBlank(u) {
      if h in table.houses {
        var j :| 0 <= j < |inc| && table.houses[j] == h;
        assert inc[j] in inc;
      }
      if exists u :: (h, u) in links && !IsBlank(u) {
        var u :| (h, u) in links && !IsBlank(u);
        var j :| 0 <= j < |inc| && inc[j] == (h, u);
        assert table.houses[j] == h;
      }
    }
  }

  /** The columns come in input order: the `p`-th column is the house at
      the `p`-th position with a non-blank URL. */
  lemma ColumnsInInputOrder(links: seq<(string, string)>, ext: (string, string) -> map<string, nat>, table: Table)
    requires IsTable(links, ext, table)
    ensures |table.houses| == |KeptIndices(links)|
    ensures forall p :: 0 <= p < |table.houses| ==> table.houses[p] == links[KeptIndices(links)[p]].0
  {
    IncludedInOrder(links);
    assert table.houses == HouseNames(Included(links));
  }

  /** Some house has an odd in this row. */
  predicate HasOdd(r: Row) {
    exists j :: 0 <= j < |r.cells| && r.cells[j].Some?
  }

  /** Every row has at least one house with an odd for it. */
  lemma RowsHaveAnOdd(links: seq<(string, string)>, ext: (string, string) -> map<string, nat>, table: Table)
    requires IsTable(links, ext, table)
    ensures forall i :: 0 <= i < |table.rows| ==> HasOdd(table.rows[i])
  {
    var inc := Included(links);
    LabelUnionMembers(inc, ext);
    forall i | 0 <= i < |table.rows| ensures HasOdd(table.rows[i]) {
      var r := table.rows[i];
      assert r.market == RowMarkets(table.rows)[i] && r.market in RowMarkets(table.rows);
      var j :| 0 <= j < |inc| && r.market in MarketsOf(inc, ext, j);
      assert IsRowFor(r, r.market, inc, ext);
      assert r.cells[j].Some?;
    }
  }

  /** The table has no rows exactly when no included house produced a label. */
  lemma EmptyTableIffNoLabels(links: seq<(string, string)>, ext: (string, string) -> map<string, nat>, table: Table)
    requires IsTable(links, ext, table)
    ensures table.rows == [] <==>
              forall j :: 0 <= j < |Included(links)| ==> MarketsOf(Included(links), ext, j).Keys == {}
  {
    var inc := Included(links);
    LabelUnionMembers(inc, ext);
    if table.rows != [] {
      var m := table.rows[0].market;
      assert m == RowMarkets(table.rows)[0] && m in RowMarkets(table.rows);
      var j :| 0 <= j < |inc| && m in MarketsOf(inc, ext, j);
    } else {
      assert RowMarkets(table.rows) == [];
      assert LabelUnion(inc, ext) == {};
    }
  }

  /** The specification pins the table down: two tables that both meet it
      are equal, so the row order leaves no choice. */
  lemma TableUnique(links: seq<(string, string)>, ext: (string, string) -> map<string, nat>, t1: Table, t2: Table)
    requires IsTable(links, ext, t1) && IsTable(links, ext, t2)
    ensures t1 == t2
  {
    var r1, r2 := RowMarkets(t1.rows), RowMarkets(t2.rows);
    StrictlySortedUnique(r1, r2);
    assert |t1.rows| == |r1| == |r2| == |t2.rows|;
    forall i | 0 <= i < |t1.rows| ensures t1.rows[i] == t2.rows[i] {
      assert t1.rows[i].market == r1[i] == r2[i] == t2.rows[i].market;
      assert t1.rows[i].cells == t2.rows[i].cells;
    }
  }

  /** Each cell of `compare`'s table, in the source's own terms: the odd
      `extract_for_house` finds for the row's label in that house's fetched
      page, or `None`. */
  lemma ComparisonCells(links: seq<(string, string)>, fetch: string -> string, table: Table)
    requires IsComparison(links, fetch, table)
    ensures forall i, j :: 0 <= i < |table.rows| && 0 <= j < |Included(links)| ==>
              table.rows[i].cells[j] == Get(HouseMarkets(fetch(Included(links)[j].1), Included(links)[j].0), table.rows[i].market)
  {
    var inc, ext := Included(links), Extracted(fetch);
    forall i, j | 0 <= i < |table.rows| && 0 <= j < |inc|
      ensures table.rows[i].cells[j] == Get(HouseMarkets(fetch(inc[j].1), inc[j].0), table.rows[i].market)
    {
      assert IsRowFor(table.rows[i], table.rows[i].market, inc, ext);
    }
  }
}
