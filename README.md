# Finance dashboard tables, facets and CSV export — a Dafny model

This project models the data-handling core of a React finance dashboard.
It covers four components.

- **DataTable** is a generic grid over records of any shape:
  - a case-insensitive free-text search over the string form of every field;
  - an optional sort on one column by `localeCompare` of the string forms, ascending or reversed;
  - a page slice of `rowsPerPage` rows, plus the page count shown under the table;
  - toggling a row's selection by object identity;
  - counting the distinct values of each column, which decides whether a cell is drawn as a number, a badge or plain text;
  - the header-click and search-edit state transitions.
- **StockTable** runs the same search, sort and toggle over a fixed `ticker`/`title`/`sector` schema. The query is lower-cased and trimmed. Sorting is applied to the full list before filtering, and selection is keyed by ticker.
- **StockFilter** derives the facet panel:
  - the split of the first record's fields into string (qualitative) and number (quantitative) fields;
  - the distinct truthy values of each qualitative field;
  - the minimum and maximum of each quantitative field;
  - the "update one filter value" map;
  - the "greater than" threshold options produced by a step loop.
- **ExportButton** builds the CSV text. It has a header line of the first record's keys, then one line per record with every value wrapped in double quotes.

Modules:

- `Text`: ASCII lower-casing, JavaScript `trim`, `includes`, join and split.
- `Sequences`: filter, subsequence, first-occurrence dedup, toggle.
- `Sorting`: stable insertion sort under a total preorder standing for `localeCompare`.
- `Records`: scalars, records as ordered fields, `String(v)`, truthiness.
- One module per component.

The components' own state is modelled by the classes `DataTable.TableState` and `StockTable.StockTableState`. The loops that fill dictionaries (`uniqueCounts`, `uniqueQualValues`, `quantitativeStats`) and the threshold `while` loop are methods with loop invariants.

`localeCompare`, `String(number)`, `toFixed(2)` and the compact `toLocaleString` are parameters. The sort lemmas assume only that `le(a, b)`, read as `a.localeCompare(b) <= 0`, is a total preorder. The JavaScript stable sort is modelled as an insertion sort. That sort is proved to be a permutation, to be ordered, and to keep tied elements in input order. `FilterSortCommute` proves that filtering and this sort commute. That is why StockTable's sort-then-filter is the same as sorting the filtered list.

The CSV output departs from section 2 of RFC 4180 in three ways:

- a double quote inside a value is not doubled (rule 7);
- a key holding a comma, a double quote or a line feed is written unquoted (rule 6);
- records end with LF, not CRLF (rule 1).

`ExportButton.EmbeddedQuoteAmbiguous` proves that two different records produce the same line. The round trips (`LineRoundTrip`, `CsvLines`) are proved only for values without double quotes and line feeds.

Points worth knowing about the code:

- The page count is `Math.ceil(n / rowsPerPage)` (components/DataTable.tsx:171-173), so it is 0 when no row matches.
- No component applies the filter values that StockFilter builds, so there is no predicate stage in any view pipeline.
- `activePage` is never clamped when `data` changes; editing the search resets it to 1 (components/DataTable.tsx:104). A page past the end is simply empty (`DataTable.Page`).
- Both sorts work on a copy (`[...filteredData]`, `[...data]`). The model's sequences are immutable, so the input is never changed.

## Model

| member | source | states |
|---|---|---|
| Text.ToLower | components/DataTable.tsx:70 | `toLowerCase` maps each character through the lower-case map, keeping the length |
| Text.Trim | components/StockTable.tsx:48 | `trim` yields a contiguous slice of the input whose first and last characters are not JavaScript whitespace |
| Text.ContainsAt | components/DataTable.tsx:70 | `s.includes(q)` holds exactly when `q` occurs in `s` at some position |
| Text.SplitJoin | components/ExportButton.tsx:13-22 | joining pieces that do not contain the separator and splitting again gives back the pieces |
| Sequences.Filter | components/DataTable.tsx:68-72 | `Array.prototype.filter` keeps exactly the elements satisfying the predicate and is no longer than the input |
| Sequences.FilterIsSubsequence | components/DataTable.tsx:68-72 | a filtered array is a subsequence of the original (order kept) |
| Sequences.Dedup | components/StockFilter.tsx:168-170 | `Array.from(new Set(xs))` holds exactly the elements of `xs` |
| Sequences.DedupOrdered | components/StockFilter.tsx:168-170 | that array has no duplicates and lists elements in first-occurrence order |
| Sequences.Toggle | components/StockTable.tsx:120-124 | toggling a selected element drops every occurrence of it and nothing else; an unselected one is appended at the end; other elements keep their membership |
| Sequences.ToggleTwice | components/StockTable.tsx:120-124 | toggling an unselected element twice restores the selection list exactly |
| Sequences.ToggleAsFilter | components/DataTable.tsx:86 | dropping a selected element is filtering with any predicate that rejects exactly it |
| Sequences.ToggleNoDuplicates | components/StockTable.tsx:120-124 | toggling keeps a duplicate-free selection duplicate-free |
| Sequences.FilterPreservesOrder | components/StockFilter.tsx:169 | filtering keeps the relative order of the kept elements (both directions) |
| Sorting.FlipTotalPreorder | components/DataTable.tsx:78 | comparing `b` with `a` instead of `a` with `b` is again a total preorder |
| Sorting.OrderTotalPreorder | components/StockTable.tsx:65-70 | the ascending and the reversed comparators are both total preorders |
| Sorting.StableSortPermutes | components/DataTable.tsx:75-79 | sorting a copy yields a permutation of it |
| Sorting.StableSortSorted | components/DataTable.tsx:75-79 | the sorted copy is ordered by the comparator on the key |
| Sorting.StableSortStable | components/DataTable.tsx:75-79 | elements whose keys compare equal keep their input order |
| Sorting.SortTiedIsIdentity | components/DataTable.tsx:75-79 | sorting elements whose keys all compare equal changes nothing |
| Sorting.FilterSortCommute | components/StockTable.tsx:64-72 | filtering the sorted list equals sorting the filtered list |
| Records.Keys | components/DataTable.tsx:90 | `Object.keys` lists the field names in order |
| Records.Get | components/ExportButton.tsx:17 | `row[k]` is the value of a field named `k`, or `undefined` when there is none |
| Records.Column | components/DataTable.tsx:94 | `data.map(row => row[key])` has one entry per row, each that row's value |
| DataTable.FilteredData | components/DataTable.tsx:68-72 | the search result is a subsequence of `data`; a row is kept iff some field's lower-cased string form includes the lower-cased search, and then with all its copies |
| DataTable.EmptySearchKeepsAll | components/DataTable.tsx:68-72 | an empty search keeps exactly the rows with at least one field, hence every row when all have fields |
| DataTable.SortedDataSpec | components/DataTable.tsx:74-80 | `sortedData` is a permutation of `filteredData`; it is `filteredData` itself when `sortBy` is null or empty; otherwise it is ordered by the column's string form, ascending, or descending when `reverseSort` |
| DataTable.JsSlice | components/DataTable.tsx:82 | `slice(start, end)` with clamping is at most `end - start` long and, for non-negative bounds, is the clamped sub-range |
| DataTable.Page | components/DataTable.tsx:82 | a page has at most `rowsPerPage` rows and is `sortedData[(p-1)*rpp .. p*rpp)` clamped to the data |
| DataTable.PageCount | components/DataTable.tsx:171-173 | `Math.ceil(n / rowsPerPage)`: pages before the last are full and the last reaches `n`; it is 0 exactly when `n` is 0 |
| DataTable.PagesPrefix | components/DataTable.tsx:82 | pages `1..c` concatenated are the first `c * rowsPerPage` rows |
| DataTable.PagesPartition | components/DataTable.tsx:173 | pages `1..ceil(n / rowsPerPage)` concatenated reproduce `sortedData` exactly |
| DataTable.ToggleRow | components/DataTable.tsx:84-88 | comparing rows by identity, a selected row is dropped (every copy, the rest in order) and an unselected one appended at the end; afterwards it is selected iff it was not; rows of other identities keep their membership and, when a row is dropped, their number of occurrences |
| DataTable.ToggleRowIsToggle | components/DataTable.tsx:84-88 | when equal identities carry equal rows, the identity toggle is the selection toggle on rows |
| DataTable.ToggleRowTwice | components/DataTable.tsx:84-88 | toggling an unselected row twice restores the selection list exactly |
| DataTable.ColumnKeys | components/DataTable.tsx:90 | the column keys are the first row's keys, and none without data |
| DataTable.ValueSetSize | components/DataTable.tsx:94-95 | the distinct values of a column are at most as many as its entries, and at least one when it is non-empty |
| DataTable.DistinctCountBound | components/DataTable.tsx:94-95 | `uniqueCounts[key]` is at most `data.length`, and at least 1 for non-empty data |
| DataTable.UniqueCounts | components/DataTable.tsx:92-96 | the `forEach` fills exactly the column keys, each with its column's distinct-value count, bounded by `data.length` |
| DataTable.CellKindOf | components/DataTable.tsx:154-160 | a cell is a number iff its value is a number; otherwise a badge iff the column's distinct count is below `n_unique_for_badge`; otherwise plain text |
| DataTable.SmallTableCellsAreBadges | components/DataTable.tsx:154-160 | with fewer rows than the threshold, every non-number cell is a badge |
| DataTable.TableState.constructor | components/DataTable.tsx:55-66 | defaults 15 and 10; empty search, no sort, ascending, page 1 |
| DataTable.TableState.View | components/DataTable.tsx:82 | `paginatedData` is page `activePage` of `sortedData`: at most `rowsPerPage` rows, each a row of `data` that matches the search |
| DataTable.TableState.TotalPages | components/DataTable.tsx:171-173 | the page count is `Math.ceil(sortedData.length / rowsPerPage)` (`PageCount`), 0 iff no row matches, and its pages reproduce `sortedData` |
| DataTable.TableState.OnSort | components/DataTable.tsx:123-127 | clicking a header sets `sortBy` to it; the direction flips when it was already the sort column and is ascending otherwise; the search and the page are untouched |
| DataTable.TableState.OnSearchChange | components/DataTable.tsx:104 | editing the search stores the text and goes back to page 1, which shows the first `rowsPerPage` sorted rows; the sort is untouched |
| DataTable.TableState.OnPageChange | components/DataTable.tsx:174 | choosing a page shows that page of `sortedData`; the search and the sort are untouched |
| StockTable.FilterData | components/StockTable.tsx:47-52 | the result is a subsequence of `data`; a stock is kept iff some field, lower-cased, includes the lower-cased trimmed query, and then with all its copies |
| StockTable.BlankSearchKeepsAll | components/StockTable.tsx:47-52 | a search of whitespace only (or empty) keeps every stock |
| StockTable.SortDataSpec | components/StockTable.tsx:54-73 | without `sortBy` the result is `filterData(data, search)`; with one it is the stable sort of `filterData(data, search)` on that field, ascending or reversed; either way a permutation of `filterData(data, search)` and, when sorted, ordered |
| StockTable.StockTableState.constructor | components/StockTable.tsx:101-105 | initially the full data, no search, no sort, nothing selected, and the shown list equals `sortData` of that state |
| StockTable.StockTableState.SetSorting | components/StockTable.tsx:107-112 | the direction flips when the field is re-selected and is ascending for a new one; the list is recomputed from the full data with the current search |
| StockTable.StockTableState.HandleSearchChange | components/StockTable.tsx:114-118 | the search becomes the new text and the list is recomputed from the full data with the unchanged sort field and direction |
| StockTable.StockTableState.ToggleRow | components/StockTable.tsx:120-124 | a present ticker is removed and an absent one appended; other tickers keep their membership; the selection stays duplicate-free and nothing else changes |
| StockFilter.HandleChange | components/StockFilter.tsx:154-156 | the new map equals `values` except at `field`, which holds the value, or `undefined` for null |
| StockFilter.HandleChangeLastWins | components/StockFilter.tsx:154-156 | two changes to one field: the second wins |
| StockFilter.HandleChangeCommutes | components/StockFilter.tsx:154-156 | changes to two different fields commute |
| StockFilter.QualitativeFields | components/StockFilter.tsx:158-160 | none without data; otherwise exactly the first record's keys holding a string, in key order |
| StockFilter.QuantitativeFields | components/StockFilter.tsx:162-164 | none without data; otherwise exactly the first record's keys holding a number, in key order, none of them qualitative |
| StockFilter.UniqueValues | components/StockFilter.tsx:168-170 | no duplicates; a value is listed iff it occurs in the column and is truthy |
| StockFilter.UniqueValuesOrder | components/StockFilter.tsx:168-170 | the values are listed in the order of their first occurrence in the column |
| StockFilter.UniqueQualValues | components/StockFilter.tsx:166-171 | the `forEach` fills exactly the qualitative fields, each with its distinct truthy values |
| StockFilter.Numbers | components/StockFilter.tsx:175-177 | the numbers of a column are exactly its number entries |
| StockFilter.MinOf | components/StockFilter.tsx:180 | `Math.min` of a non-empty list is one of its elements and no larger than any |
| StockFilter.MaxOf | components/StockFilter.tsx:181 | `Math.max` of a non-empty list is one of its elements and no smaller than any |
| StockFilter.ColumnStats | components/StockFilter.tsx:179-182 | `min <= max`, both are numbers of the column, and every number of the column lies between them |
| StockFilter.FieldStats | components/StockFilter.tsx:174-183 | the loop records a range for exactly the given fields whose column holds a number (the early `return` skips the others) |
| StockFilter.QuantitativeStats | components/StockFilter.tsx:173-183 | `quantitativeStats[key]` exists iff the key is quantitative and its column holds a number, and is then that column's range |
| StockFilter.QuantitativeFieldHasNumbers | components/StockFilter.tsx:178 | a quantitative field's column always holds a number (the first record's), so every quantitative field gets a range |
| StockFilter.ThresholdOptions | components/StockFilter.tsx:243-259 | for `step > 0` the loop ends; option `i` has value `String((i+1)*step)` and label `"> "` plus its compact form; every threshold is at most `max`, the next one is above `max`, and there are none iff `step > max` |
| StockFilter.ThresholdsBelow | components/StockFilter.tsx:245 | a threshold at most `max` is among the first `max / step`, which bounds the loop |
| StockFilter.ThresholdsIncrease | components/StockFilter.tsx:258 | the thresholds increase strictly |
| ExportButton.Csv | components/ExportButton.tsx:10-22 | no output exactly when `data` is missing or empty |
| ExportButton.Quoted | components/ExportButton.tsx:19 | every field text is wrapped in double quotes, nothing escaped |
| ExportButton.CellTexts | components/ExportButton.tsx:16-20 | one text per key, in key order: numbers via `toFixed(2)`, anything else via `String` |
| ExportButton.Lines | components/ExportButton.tsx:15-21 | one data line per record, in input order |
| ExportButton.HeaderRoundTrip | components/ExportButton.tsx:14 | for at least one key, the header, cut at commas, gives back the keys when no key holds a comma |
| ExportButton.LineRoundTrip | components/ExportButton.tsx:16-20 | for at least one key, a data line read back field by field gives exactly `keys.length` fields, the record's texts, when none holds a double quote |
| ExportButton.CsvLines | components/ExportButton.tsx:13-22 | cut at line feeds, the output is the header then exactly one line per record, `data.length + 1` lines, when no key or text holds a line feed |
| ExportButton.ParseQuoted | components/ExportButton.tsx:20 | quoted texts joined by commas parse back to the texts when none holds a double quote |
| ExportButton.EmbeddedQuoteAmbiguous | components/ExportButton.tsx:19 | because embedded double quotes are not doubled, two different records give the same line |
| ExportButton.EmbeddedQuoteAddsField | components/ExportButton.tsx:19 | the line of a two-key record whose first value holds `","` reads back as three fields |

## Left out

- Rendering is not modelled: the JSX, the Mantine components, the header icons, badge and row colours, and the StockTable dummy list of twenty stocks (components/StockTable.tsx:76-97).
- The CSV download is not modelled: `Blob`, `URL.createObjectURL` and the link click are browser I/O (components/ExportButton.tsx:24-32).
- `localeCompare` is a parameter `le` (read as `a.localeCompare(b) <= 0`), assumed to be a total preorder. Its locale rules are not modelled.
- Number formatting is not modelled. `String(number)`, `toFixed(2)`, `NumberFormatter` and the compact `toLocaleString` are uninterpreted functions passed in (`numText`, `fixed2`, `compact`).
- JavaScript numbers are reals. NaN, infinities, `-0` and floating-point rounding are not modelled.
- Text.ToLower: lower-cases ASCII letters only. Full Unicode case mapping is not modelled.
- StockFilter.ThresholdOptions: takes `step` as an input that must be positive. The mean, standard deviation and `log10`/`pow` derivation of `step` are floating-point numerics (components/StockFilter.tsx:233-238) and are not modelled. A column with zero spread, where that derivation gives NaN and no options, is not modelled either. Thresholds are the exact reals `(i+1)*step`; the drift of repeated float addition is not modelled. The termination proof holds only for reals: in doubles, `current += step` stops changing `current` once it exceeds about 2^53 times `step`, so for such a large `max` the loop never ends even with `step > 0`.
- The quantitative `Select`'s value display (`toFixed(2)`) and its `Number(v)` parse on change are not modelled (components/StockFilter.tsx:268-269). Only `handleChange` itself is.
- Records hold only scalars (string, number, boolean, null, undefined) with distinct keys. Nested objects and arrays as values are not modelled.
- DataTable row identity is a `ref` number carried by each row. JavaScript object references and aliasing are not modelled beyond that; `RefsIdentify` states the consistency JavaScript guarantees (one reference, one object).
- The DataTable `onSelectionChange` callback is not modelled, and neither is the parent that owns `selectedRows`. `DataTable.ToggleRow` is the new list handed to that callback.
- DataTable.TableState.constructor: requires `rowsPerPage` to be a positive whole number. The component also accepts 0 (the count is then NaN without rows and infinite with some), negative values, and fractions, for which `slice` truncates its positions while `Math.ceil` does not.
- React state scheduling is not modelled: updates are synchronous, with no batching and no re-render timing.
- StockTable.StockTableState.SetSorting: states the new list as `sortData` of the new state. Its permutation and order facts come from `StockTable.SortDataSpec` and are not repeated in the method's contract.
- ExportButton.CsvLines: proved only when no key or value text contains a line feed. A line feed inside a value stays inside its quotes, which RFC 4180 allows, but a reader that cuts at every line feed sees extra lines; a line feed inside a key breaks the header line.
- ExportButton.LineRoundTrip: proved only when no value text contains a double quote. `EmbeddedQuoteAmbiguous` shows what happens otherwise.
- The pages that fetch data, the selected-stocks hook, the charts, the theme and the layout are not part of this model.
