# odds-escan: odds extraction and comparison, modelled in Dafny

odds-escan is a small Streamlit page. It compares over/under odds for
total-corners markets ("escanteios") across three bookmakers (Betano,
Bet365, KTO). For each
bookmaker URL it fetches the rendered page text and then does four things:

1. It squeezes all whitespace in the text.
2. It looks for each market label, such as `Mais de 9.5` or `Menos de 9.5`,
   ignoring letter case.
3. It reads the first decimal number, written `1.85` or `2,75`, in the 120
   characters that start at the label.
4. It builds a table with one row per market label and one column per
   bookmaker.

This project models that core in `app.py`:

- `_find_first_odd`: the regular-expression scan and the float conversion.
- `extract_markets`: whitespace collapsing, then a case-insensitive search
  for each label and threshold.
- `extract_for_house`: the fixed thresholds 8.5, 9.5, 10.5 and 11.5, with
  the Bet365 fallback from Portuguese to English labels.
- `compare`: the column list, the union of labels, the row sort key and the
  cells.

The model is split into these modules:

- `text.dfy`: ASCII `\d`, `\w` and `lower()`, Python's full whitespace set, and `str.find`.
- `odd_scanner.dfy`: `\b\d{1,2}[.,]\d{1,2}\b` as a declarative match
  predicate, the leftmost-match search, and the float parse.
- `whitespace.dfy`: `str.split()` and `" ".join`.
- `comparison.dfy`: `compare`, and `str.strip()` for its blank-URL test.
- `markets.dfy`: `extract_markets`.
- `houses.dfy`: `extract_for_house`, and the sort keys of its labels.
- `ordering.dfy`: the sort key `(float(first \d+\.\d), label)`, with 999 when
  there is no number, Python's string order, and the sort.

Odds are exact integers in hundredths: `1.85` is 185 and `2,75` is 275.
Sort-key numbers are exact integers in tenths, and the fallback 999 is 9990.
Nothing is a float.

The loop of `extract_markets` and the two loops of `compare` are methods
with loop invariants. Each is proved against a specification function:
`MarketMap` for the first, and the `IsComparison` table predicate for
`compare`. Their properties are proved as lemmas. The scanner, the collapse
and `extract_for_house`'s choice of labels are functions.

**The code differs from its docstring, and the model follows the code.**
The docstring of `extract_markets` says it returns the odds themselves,
e.g. `{"Mais de 9.5": 1.90}`. But the 120-character window starts at the
located label, so the first token the scanner sees is normally the
threshold in the label itself. `Markets.ThresholdIsFirstOdd` and
`Houses.ConfiguredThresholdIsStored` prove this: when the character after
the threshold is not a word character, the value stored for `"Mais de 9.5"`
is 9.5 (950 here), whatever odd the page prints after it.

## Model

| member | source | states |
|---|---|---|
| Text.Find | app.py:69 | `str.find`: no position exactly when the needle occurs nowhere; otherwise the first position where it occurs |
| OddScanner.MatchUnique | app.py:49 | at one start position at most one split into digits, separator and digits matches the pattern, so backtracking order is irrelevant |
| OddScanner.TryAt | app.py:49 | a token reported at a position is a match of the pattern there |
| OddScanner.TryAtComplete | app.py:49 | every match at a position is the token `TryAt` reports, with the same digit counts |
| OddScanner.FirstToken | app.py:49-51 | `re.search`: no token exactly when the pattern matches nowhere; otherwise the leftmost match |
| OddScanner.FirstTokenIsTheFirstMatch | app.py:49 | the leftmost match is unique and is what `FirstToken` returns |
| OddScanner.ParseToken | app.py:52-56 | the matched text, with `,` replaced by `.`, always parses to the number it spells, so the `except` branch is unreachable |
| OddScanner.ParseShape | app.py:52-54 | `float` of digits, a period, then one or two digits is the number they spell, in hundredths |
| OddScanner.FindFirstOdd | app.py:44-56 | `None` exactly when no token matches anywhere; otherwise the value of the leftmost token, with a comma read as a period |
| Whitespace.SplitKeepsText | app.py:65 | `str.split()` drops only whitespace: its fields, concatenated, are the non-whitespace characters of the text in order |
| Whitespace.SplitField | app.py:65 | a run of non-whitespace characters splits into exactly itself |
| Whitespace.SplitAtSpace | app.py:65 | every whitespace character separates fields: the text on either side of it is split on its own and the results are concatenated |
| Whitespace.Collapse | app.py:65 | `" ".join(text.split())` keeps every non-whitespace character of the page, in order |
| Whitespace.SplitJoin | app.py:65 | splitting fields joined by single spaces gives back the fields |
| Whitespace.CollapseIsCollapsed | app.py:65 | collapsed text has no whitespace at either end, no whitespace other than a space, and no two spaces in a row |
| Whitespace.SplitCollapse | app.py:65 | collapsing keeps the sequence of words |
| Whitespace.CollapseFixesCollapsed | app.py:65 | text already in collapsed shape is unchanged by collapsing |
| Whitespace.CollapseIdempotent | app.py:65 | collapsing twice equals collapsing once |
| Markets.LocateOdd | app.py:68-74 | a phrase that does not occur case-insensitively gives nothing; otherwise the truthy first odd of the window at its first occurrence; never zero |
| Markets.StoreSide | app.py:68-74 | one side of one key stores exactly the located odd under the phrase, or leaves the map unchanged |
| Markets.MarketMapSpec | app.py:64-83 | a label is in the map iff it is `"<label> k"` for a key `k` and its own phrase locates a nonzero odd, and it maps to that odd, independent of other labels and keys |
| Markets.ExtractMarkets | app.py:58-83 | the loop's result has exactly the labels whose phrase locates a nonzero odd in the collapsed text, each with that odd |
| Markets.FirstOddIsKey | app.py:71-72 | a window with no digit before the threshold, and no word character after it, scans to the threshold's own value |
| Markets.ThresholdIsFirstOdd | app.py:68-74 | for a label without digits and a threshold like `9.5` followed by a non-word character, the stored value is the parsed threshold itself |
| Houses.ExtractForHouse | app.py:85-101 | non-Bet365 houses get the Portuguese map; Bet365 gets the Portuguese map unless it is empty, and the English map then |
| Houses.HouseMarketsSpec | app.py:85-101 | the English labels are used exactly when the house is Bet365 and no Portuguese phrase locates an odd; a label is in the result exactly when it is a phrase of the labels used that locates an odd, and it maps to that odd |
| Houses.EmptyIffNothingFound | app.py:96 | `not d` holds exactly when none of the label pair's phrases locates an odd |
| Houses.Bet365Detected | app.py:92-93 | `"bet365" in house.lower()` holds for `Bet365` and `BET365`, and not for `Betano` or `KTO` |
| Houses.HouseMarketsShape | app.py:91-101 | a house's map never mixes the two label pairs, only Bet365 can have English labels, and every odd in it is nonzero |
| Houses.Bet365EmptyOnlyIfBothEmpty | app.py:93-98 | Bet365's map is empty exactly when both the Portuguese and the English searches find nothing |
| Houses.ThresholdValues | app.py:91 | the thresholds parse to 8.5, 9.5, 10.5 and 11.5 |
| Houses.KeyShape | app.py:91 | each configured threshold is, on its own, a token of the odds pattern |
| Houses.ConfiguredThresholdIsStored | app.py:91-101 | for the four labels and four thresholds, a located phrase followed by a non-word character stores 8.5, 9.5, 10.5 or 11.5 |
| Ordering.NumberDot | app.py:121 | in a `\d+\.\d` match the period is where the digit run from the start ends |
| Ordering.SortKey | app.py:121 | 999 when the label has no `\d+\.\d`, otherwise the value of its leftmost match |
| Ordering.SortKeyOfFirstNumber | app.py:121 | a number with no digit before it gives the sort key |
| Ordering.StrLessTransitive | app.py:121 | Python's string `<` is transitive |
| Ordering.StrLessTotal | app.py:121 | Python's string `<` orders any two different strings |
| Ordering.RowBeforeTransitive | app.py:121 | the key `(number, label)` orders transitively |
| Ordering.RowBeforeTotal | app.py:121 | the key `(number, label)` orders any two different labels |
| Ordering.Insert | app.py:121 | inserting a new label into a sorted list keeps it sorted, adds exactly that label, and grows it by one |
| Ordering.SortMarkets | app.py:121 | `sorted(list(mercados), key=…)`: strictly ascending by the key, with exactly the labels of the set |
| Ordering.StrictlySortedUnique | app.py:121 | two strictly sorted lists with the same labels are equal, so the sort result is determined |
| Comparison.BlankIffStripEmpty | app.py:113 | `not url.strip()` holds exactly when the URL is empty or all whitespace |
| Comparison.Included | app.py:112-114 | a pair is kept exactly when it is in the input and its URL is not blank |
| Comparison.IncludedInOrder | app.py:112-115 | the kept pairs are the input pairs at the increasing positions of the non-blank URLs, one for each: nothing is reordered, repeated or dropped |
| Comparison.CollectedRow | app.py:125-126 | a row's cells read with `.get(casa, {}).get(m, None)` from the maps the first loop stored are, column by column, each included house's own odd for the label, or `None` |
| Comparison.CollectedSnoc | app.py:115-119 | keeping one more house appends its column, adds its labels to the union and stores its map, without disturbing earlier houses |
| Comparison.CollectHouses | app.py:108-119 | the first loop ends with the non-blank houses in input order, the union of their labels, and each house's own map |
| Comparison.BuildRows | app.py:122-127 | one row per sorted label, in order, each with one cell per column read from the per-house maps |
| Comparison.Compare | app.py:103-129 | the table's columns are the non-blank houses in order; its rows are the union of their labels, each once, sorted by the key; each cell is that house's odd for the row or `None` |
| Comparison.LabelUnionMembers | app.py:119 | a label is in the union exactly when some included house produced it |
| Comparison.ColumnsAreNonBlankHouses | app.py:112-115 | a house is a column exactly when it has a non-blank URL |
| Comparison.ColumnsInInputOrder | app.py:108-115 | the `p`-th column is the house at the `p`-th input position with a non-blank URL |
| Comparison.RowsHaveAnOdd | app.py:119-127 | every row has at least one house with an odd |
| Comparison.EmptyTableIffNoLabels | app.py:119-128 | the table has no rows exactly when no included house produced a label |
| Comparison.TableUnique | app.py:121-127 | two tables that both meet the specification are equal |
| Comparison.ComparisonCells | app.py:116-126 | each cell is the odd `extract_for_house` finds for the row's label on that house's fetched page, or `None` |
| Houses.KeyValue | app.py:91 | the `i`-th configured threshold is 8.5 + `i` |
| Houses.KeysAscending | app.py:91 | the configured thresholds are in increasing order |
| Houses.PhraseSortKey | app.py:121 | a label without digits followed by a threshold like `9.5` has that threshold as its sort key |
| Houses.ThresholdSortKey | app.py:121 | a configured label's sort key is its threshold |
| Houses.ConfiguredRowOrder | app.py:121 | rows of configured labels are in threshold order: all 8.5 rows before all 9.5 rows, and so on, although "10.5" is before "8.5" as a string |

## Left out

- `fetch_text` (app.py:18-42) is not part of this model. It drives a headless browser, and `st.cache_data(ttl=15)` caches its pages for 15 seconds. It becomes the parameter `fetch` of `Compare`: a total function from URL to page text. Its exceptions, timeouts and caching are not modelled.
- The Streamlit page (input fields, button, table display) is not modelled.
- `pd.DataFrame(rows)` becomes the `Table` datatype: column list, row labels, cells. Two pandas behaviours are not modelled:
  - A house literally named `mercado` would overwrite the label column.
  - An empty row list gives a frame with no columns at all.
- Floats are exact integers: hundredths for odds, tenths for sort keys. Two float effects are not captured:
  - Rounding of `float(val)`.
  - Precision loss in the sort key for digit runs beyond double precision, which could make two different numbers compare equal.
- `OddScanner.ParseDecimal` accepts only the shape the scanner gives it: digits, a period, then one or two digits. Python's `float` accepts more, but nothing else ever reaches it here.
- Characters are ASCII. The following work on ASCII only:
  - `\d`, `\w`/`\b` and `str.lower()`.
  - Unicode case mappings that change a string's length, which would shift `find`'s index against the original text.
  Whitespace for `split()` and `strip()` is Python's full `str.isspace` set.
- `links` is a sequence of (house, URL) pairs with distinct houses (`DistinctHouses`), as a dict's items are. Dict iteration order is the sequence order.
- `Comparison.Compare`'s loops are split into `CollectHouses` and `BuildRows`. The statements are the same as in the source.
