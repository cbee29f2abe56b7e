/** The generic grid: free-text search, optional sort on one column, a page
    slice, selection toggling, distinct-value counts per column and the
    choice of how a cell is drawn, over rows of arbitrary shape. */
module DataTable {
  import opened Text
  import opened Sequences
  import opened Sorting
  import opened Records

  /** Default of the `n_unique_for_badge` property. */
  const DefaultBadgeThreshold: int := 15
  /** Default of the `rowsPerPage` property. */
  const DefaultRowsPerPage: nat := 10

  /** A row object. `ref` is its identity: the table compares rows with
      `includes` and `!==`, that is by reference, never by contents. */
  datatype Row = Row(ref: nat, fields: Record)

  /** Some value of the row, as `String(val).toLowerCase()`, includes
      `search.toLowerCase()`. */
  predicate Matches(row: Row, search: string, numText: real -> string) {
    exists i | 0 <= i < |row.fields| ::
      Contains(ToLower(Show(row.fields[i].value, numText)), ToLower(search))
  }

  /** `filteredData`: the rows that match, in their original order. */
  function FilteredData(data: seq<Row>, search: string, numText: real -> string): (r: seq<Row>)
    ensures IsSubsequence(r, data)
    ensures forall row :: row in r <==> row in data && Matches(row, search, numText)
    ensures forall x :: multiset(r)[x] == if Matches(x, search, numText) then multiset(data)[x] else 0
  {
    FilterIsSubsequence(data, row => Matches(row, search, numText));
    forall x { FilterCount(data, row => Matches(row, search, numText), x); }
    Filter(data, row => Matches(row, search, numText))
  }

  /** An empty search keeps every row that has at least one field, and
      only those (`some` over no values is false). */
  lemma EmptySearchKeepsAll(data: seq<Row>, numText: real -> string)
    ensures FilteredData(data, "", numText) == Filter(data, (row: Row) => |row.fields| > 0)
    ensures (forall i :: 0 <= i < |data| ==> |data[i].fields| > 0) ==> FilteredData(data, "", numText) == data
  {
    forall row: Row
      ensures Matches(row, "", numText) == (|row.fields| > 0)
    {
      if |row.fields| > 0 {
        assert Contains(ToLower(Show(row.fields[0].value, numText)), ToLower(""));
      }
    }
    FilterCongruent(data, row => Matches(row, "", numText), (row: Row) => |row.fields| > 0);
    if forall i :: 0 <= i < |data| ==> |data[i].fields| > 0 {
      FilterAll(data, (row: Row) => |row.fields| > 0);
    }
  }

  /** The sort key of a row: `String(row[sortBy])`. */
  function SortKey(key: string, numText: real -> string): Row -> string {
    (row: Row) => Show(Get(row.fields, key), numText)
  }

  /** `sortedData`: a copy of the filtered rows sorted on `sortBy`, or the
      filtered rows themselves when `sortBy` is null or the (falsy) empty
      key. */
  function SortedData(filtered: seq<Row>, sortBy: Option<string>, reverse: bool,
                      le: (string, string) -> bool, numText: real -> string): seq<Row>
  {
    if sortBy.Some? && sortBy.value != "" then
      StableSort(filtered, SortKey(sortBy.value, numText), Order(le, reverse))
    else filtered
  }

  /** Sorting returns a permutation of the filtered rows, ordered by the
      column's string form, ascending or descending; without a sort column
      it returns them unchanged. */
  lemma SortedDataSpec(filtered: seq<Row>, sortBy: Option<string>, reverse: bool,
                       le: (string, string) -> bool, numText: real -> string)
    requires TotalPreorder(le)
    ensures multiset(SortedData(filtered, sortBy, reverse, le, numText)) == multiset(filtered)
    ensures (sortBy.None? || sortBy.value == "") ==> SortedData(filtered, sortBy, reverse, le, numText) == filtered
    ensures sortBy.Some? && sortBy.value != "" && !reverse ==>
              SortedBy(SortedData(filtered, sortBy, reverse, le, numText), SortKey(sortBy.value, numText), le)
    ensures sortBy.Some? && sortBy.value != "" && reverse ==>
              SortedBy(SortedData(filtered, sortBy, reverse, le, numText), SortKey(sortBy.value, numText), Flip(le))
  {
    if sortBy.Some? && sortBy.value != "" {
      var order := Order(le, reverse);
      if reverse {
        FlipTotalPreorder(le);
      }
      StableSortPermutes(filtered, SortKey(sortBy.value, numText), order);
      StableSortSorted(filtered, SortKey(sortBy.value, numText), order);
    }
  }

  /** `Array.prototype.slice(start, end)`: negative positions count from the
      end, positions are clamped to the length, a reversed range is empty. */
  function JsSlice<T>(s: seq<T>, start: int, end: int): (r: seq<T>)
    ensures start <= end ==> |r| <= end - start
    ensures 0 <= start <= end ==> r == s[Min(start, |s|)..Min(end, |s|)]
  {
    var from := SliceIndex(start, |s|);
    var to := SliceIndex(end, |s|);
    assert start <= end && from < to ==> to - from <= end - start by {
      if start < 0 && end >= 0 {
        assert from >= |s| + start && to <= end;
      }
    }
    if from < to then s[from..to] else []
  }

  /** How `slice` resolves one position against the length. */
  function SliceIndex(i: int, n: nat): (r: nat)
    ensures r <= n
  {
    if i < 0 then (if n + i < 0 then 0 else n + i) else if i > n then n else i
  }

  function Min(a: int, b: int): int {
    if a <= b then a else b
  }

  /** `paginatedData`: page `activePage` (counted from 1) of `rowsPerPage`
      rows; never longer than a page, whatever the page number. */
  function Page<T>(sorted: seq<T>, activePage: int, rowsPerPage: nat): (r: seq<T>)
    ensures |r| <= rowsPerPage
    ensures activePage >= 1 ==>
              r == sorted[Min((activePage - 1) * rowsPerPage, |sorted|)..Min(activePage * rowsPerPage, |sorted|)]
  {
    var start := (activePage - 1) * rowsPerPage;
    var end := activePage * rowsPerPage;
    MulSucc(activePage - 1, rowsPerPage);
    MulNonnegative(activePage - 1, rowsPerPage);
    JsSlice(sorted, start, end)
  }

  /** `Math.ceil(n / rowsPerPage)`: the fewest pages that hold `n` rows;
      zero for no rows. */
  function PageCount(n: nat, rowsPerPage: nat): (pages: nat)
    requires rowsPerPage > 0
    ensures (pages - 1) * rowsPerPage < n <= pages * rowsPerPage
    ensures pages == 0 <==> n == 0
  {
    var q := (n + rowsPerPage - 1) / rowsPerPage;
    var m := (n + rowsPerPage - 1) % rowsPerPage;
    assert q * rowsPerPage + m == n + rowsPerPage - 1;
    assert (q - 1) * rowsPerPage == q * rowsPerPage - rowsPerPage;
    q
  }

  /** Pages 1 to `count`, one after the other. */
  function Pages<T>(sorted: seq<T>, rowsPerPage: nat, count: nat): seq<T> {
    if count == 0 then [] else Pages(sorted, rowsPerPage, count - 1) + Page(sorted, count, rowsPerPage)
  }

  /** The first `count` pages are the first `count * rowsPerPage` rows. */
  lemma {:induction false} PagesPrefix<T>(sorted: seq<T>, rowsPerPage: nat, count: nat)
    requires rowsPerPage > 0
    requires count == 0 || (count - 1) * rowsPerPage < |sorted|
    ensures Pages(sorted, rowsPerPage, count) == sorted[..Min(count * rowsPerPage, |sorted|)]
  {
    if count > 0 {
      var lo := (count - 1) * rowsPerPage;
      var hi := count * rowsPerPage;
      MulSucc(count - 1, rowsPerPage);
      if count > 1 {
        MulSucc(count - 2, rowsPerPage);
      }
      PagesPrefix(sorted, rowsPerPage, count - 1);
      assert Pages(sorted, rowsPerPage, count - 1) == sorted[..lo];
      assert Page(sorted, count, rowsPerPage) == sorted[lo..Min(hi, |sorted|)];
      PrefixSplit(sorted, lo, Min(hi, |sorted|));
    }
  }

  /** A prefix is a shorter prefix followed by the slice between them. */
  lemma PrefixSplit<T>(s: seq<T>, i: nat, j: nat)
    requires i <= j <= |s|
    ensures s[..i] + s[i..j] == s[..j]
  {
  }

  /** A product of two non-negative numbers is non-negative. */
  lemma MulNonnegative(a: int, b: int)
    ensures a >= 0 && b >= 0 ==> a * b >= 0
  {
  }

  /** One more copy of `b`. */
  lemma MulSucc(a: int, b: int)
    ensures (a + 1) * b == a * b + b
  {
  }

  /** Pages 1 to `PageCount` put together give back the sorted rows exactly,
      none twice, none missing. */
  lemma PagesPartition<T>(sorted: seq<T>, rowsPerPage: nat)
    requires rowsPerPage > 0
    ensures Pages(sorted, rowsPerPage, PageCount(|sorted|, rowsPerPage)) == sorted
  {
    var count := PageCount(|sorted|, rowsPerPage);
    PagesPrefix(sorted, rowsPerPage, count);
  }

  /** `selectedRows.includes(row)`: some selected row is the same object. */
  predicate Selected(selected: seq<Row>, row: Row) {
    exists s | s in selected :: s.ref == row.ref
  }

  /** `toggleRow(row)`: the list handed to `onSelectionChange`. A selected
      row is dropped, every copy of it (`r !== row`); another one is
      appended at the end. Rows of other identities are untouched. */
  function ToggleRow(selected: seq<Row>, row: Row): (r: seq<Row>)
    ensures Selected(r, row) <==> !Selected(selected, row)
    ensures forall s: Row :: s.ref != row.ref ==> (s in r <==> s in selected)
    ensures !Selected(selected, row) ==> r == selected + [row]
    ensures Selected(selected, row) ==> IsSubsequence(r, selected)
    ensures Selected(selected, row) ==>
              forall s :: multiset(r)[s] == if s.ref == row.ref then 0 else multiset(selected)[s]
  {
    if Selected(selected, row) then
      FilterIsSubsequence(selected, (s: Row) => s.ref != row.ref);
      forall s { FilterCount(selected, (x: Row) => x.ref != row.ref, s); }
      Filter(selected, (s: Row) => s.ref != row.ref)
    else
      assert row in selected + [row];
      selected + [row]
  }

  /** Toggling an unselected row twice restores the selection exactly. */
  lemma ToggleRowTwice(selected: seq<Row>, row: Row)
    requires !Selected(selected, row)
    ensures ToggleRow(ToggleRow(selected, row), row) == selected
  {
    assert row in selected + [row];
    FilterAppend(selected, [row], (s: Row) => s.ref != row.ref);
    FilterAll(selected, (s: Row) => s.ref != row.ref);
  }

  /** Rows with one identity are one object, so they hold the same fields. */
  predicate RefsIdentify(rows: seq<Row>) {
    forall i, j :: 0 <= i < |rows| && 0 <= j < |rows| && rows[i].ref == rows[j].ref ==> rows[i] == rows[j]
  }

  /** Where identities are consistent, toggling by identity is the
      selection toggle on rows (`ToggleRowTwice` states the double toggle). */
  lemma ToggleRowIsToggle(selected: seq<Row>, row: Row)
    requires RefsIdentify(selected + [row])
    ensures ToggleRow(selected, row) == Toggle(selected, row)
  {
    var all := selected + [row];
    assert all[|selected|] == row;
    forall i | 0 <= i < |selected|
      ensures (selected[i].ref != row.ref) == (selected[i] != row)
    {
      assert all[i] == selected[i];
    }
    if Selected(selected, row) {
      var s :| s in selected && s.ref == row.ref;
      var i :| 0 <= i < |selected| && selected[i] == s;
      assert all[i] == s && all[i].ref == all[|selected|].ref;
      assert row in selected;
      ToggleAsFilter(selected, row, (s: Row) => s.ref != row.ref);
    } else {
      assert row !in selected;
    }
  }

  /** The records behind the rows. */
  function RowRecords(data: seq<Row>): (rs: seq<Record>)
    ensures |rs| == |data|
    ensures forall i :: 0 <= i < |data| ==> rs[i] == data[i].fields
  {
    seq(|data|, i requires 0 <= i < |data| => data[i].fields)
  }

  /** `keys`: the first row's keys, none when there is no row. */
  function ColumnKeys(data: seq<Row>): (ks: seq<string>)
    ensures data == [] ==> ks == []
    ensures data != [] ==> ks == Keys(data[0].fields)
  {
    if |data| > 0 then Keys(data[0].fields) else []
  }

  /** The distinct elements of a sequence, as a set (`new Set(xs)`). */
  function ValueSet<T>(xs: seq<T>): set<T> {
    set v | v in xs
  }

  /** `new Set(data.map(row => row[key])).size`. */
  function DistinctCount(data: seq<Row>, key: string): nat {
    |ValueSet(Column(RowRecords(data), key))|
  }

  /** A sequence has at most as many distinct elements as it has elements,
      and at least one when it is not empty. */
  lemma {:induction false} ValueSetSize<T>(xs: seq<T>)
    ensures |ValueSet(xs)| <= |xs|
    ensures xs != [] ==> |ValueSet(xs)| >= 1
    decreases |xs|
  {
    if xs != [] {
      ValueSetSize(xs[1..]);
      assert ValueSet(xs) == {xs[0]} + ValueSet(xs[1..]) by {
        assert xs == [xs[0]] + xs[1..];
      }
      assert xs[0] in ValueSet(xs);
    }
  }

  /** `uniqueCounts[key]` is at most the number of rows, and at least one
      when there are rows. */
  lemma DistinctCountBound(data: seq<Row>, key: string)
    ensures DistinctCount(data, key) <= |data|
    ensures data != [] ==> DistinctCount(data, key) >= 1
  {
    ValueSetSize(Column(RowRecords(data), key));
  }

  /** `uniqueCounts`: for each column key, the number of distinct values in
      that column. */
  method UniqueCounts(data: seq<Row>) returns (counts: map<string, nat>)
    ensures forall k :: k in counts <==> k in ColumnKeys(data)
    ensures forall k :: k in counts ==> counts[k] == DistinctCount(data, k) && counts[k] <= |data|
  {
    var keys := ColumnKeys(data);
    counts := map[];
    var i := 0;
    while i < |keys|
      invariant 0 <= i <= |keys|
      invariant forall k :: k in counts <==> k in keys[..i]
      invariant forall k :: k in counts ==> counts[k] == DistinctCount(data, k) && counts[k] <= |data|
    {
      var key := keys[i];
      DistinctCountBound(data, key);
      counts := counts[key := |ValueSet(Column(RowRecords(data), key))|];
      PrefixSnoc(keys, i);
      i := i + 1;
    }
    assert keys[..i] == keys;
  }

  /** How a cell is drawn. */
  datatype CellKind = NumberCell | BadgeCell | TextCell

  /** A number is formatted as a number; any other value is a badge when its
      column has fewer than `badgeThreshold` distinct values, plain text
      otherwise. */
  function CellKindOf(value: Scalar, uniqueCount: int, badgeThreshold: int): (k: CellKind)
    ensures k == NumberCell <==> value.Num?
    ensures k == BadgeCell <==> !value.Num? && uniqueCount < badgeThreshold
    ensures k == TextCell <==> !value.Num? && uniqueCount >= badgeThreshold
  {
    if value.Num? then NumberCell
    else if uniqueCount < badgeThreshold then BadgeCell
    else TextCell
  }

  /** In a table with fewer rows than the threshold every non-number cell is
      a badge; numbers are always formatted as numbers. */
  lemma SmallTableCellsAreBadges(data: seq<Row>, key: string, value: Scalar, badgeThreshold: int)
    requires |data| < badgeThreshold
    ensures CellKindOf(value, DistinctCount(data, key), badgeThreshold)
            == if value.Num? then NumberCell else BadgeCell
  {
    DistinctCountBound(data, key);
  }

  /** The component's state: the properties it was given and the search,
      sort and page it keeps. */
  class TableState {
    const data: seq<Row>
    const badgeThreshold: int
    const rowsPerPage: nat
    const le: (string, string) -> bool
    const numText: real -> string

    var search: string
    var sortBy: Option<string>
    var reverseSort: bool
    var activePage: int

    constructor (data: seq<Row>, le: (string, string) -> bool, numText: real -> string,
                 badgeThreshold: int := DefaultBadgeThreshold, rowsPerPage: nat := DefaultRowsPerPage)
      requires rowsPerPage > 0
      ensures this.data == data && this.le == le && this.numText == numText
      ensures this.badgeThreshold == badgeThreshold && this.rowsPerPage == rowsPerPage
      ensures search == "" && sortBy == None && !reverseSort && activePage == 1
    {
      this.data := data;
      this.le := le;
      this.numText := numText;
      this.badgeThreshold := badgeThreshold;
      this.rowsPerPage := rowsPerPage;
      search := "";
      sortBy := None;
      reverseSort := false;
      activePage := 1;
    }

    /** `sortedData` for the current state. */
    function Sorted(): seq<Row>
      reads this
    {
      SortedData(FilteredData(data, search, numText), sortBy, reverseSort, le, numText)
    }

    /** `paginatedData`: at most one page of rows, each of them a row of
        `data` that matches the search. */
    function View(): (r: seq<Row>)
      reads this
      ensures r == Page(Sorted(), activePage, rowsPerPage)
      ensures |r| <= rowsPerPage
      ensures forall row :: row in r ==> row in data && Matches(row, search, numText)
    {
      var filtered := FilteredData(data, search, numText);
      var sorted := Sorted();
      assert multiset(sorted) == multiset(filtered) by {
        if sortBy.Some? && sortBy.value != "" {
          StableSortPermutes(filtered, SortKey(sortBy.value, numText), Order(le, reverseSort));
        }
      }
      var page := Page(sorted, activePage, rowsPerPage);
      assert forall row :: row in page ==> row in sorted by {
        forall row | row in page ensures row in sorted {
          var start := SliceIndex((activePage - 1) * rowsPerPage, |sorted|);
          var end := SliceIndex(activePage * rowsPerPage, |sorted|);
          assert page == if start < end then sorted[start..end] else [];
        }
      }
      assert forall row :: row in sorted ==> row in filtered by {
        forall row | row in sorted ensures row in filtered {
          assert row in multiset(sorted);
        }
      }
      page
    }

    /** The page count shown under the table: `Math.ceil(sortedData.length / rowsPerPage)`. */
    function TotalPages(): (pages: nat)
      reads this
      requires rowsPerPage > 0
      ensures pages == 0 <==> FilteredData(data, search, numText) == []
      ensures Pages(Sorted(), rowsPerPage, pages) == Sorted()
      ensures pages == PageCount(|Sorted()|, rowsPerPage)
    {
      var filtered := FilteredData(data, search, numText);
      assert |Sorted()| == |filtered| by {
        if sortBy.Some? && sortBy.value != "" {
          StableSortPermutes(filtered, SortKey(sortBy.value, numText), Order(le, reverseSort));
        }
      }
      PagesPartition(Sorted(), rowsPerPage);
      PageCount(|Sorted()|, rowsPerPage)
    }

    /** Clicking a column header: that column becomes the sort column; the
        direction flips when it already was, and is ascending otherwise.
        The page is left alone. */
    method OnSort(key: string)
      modifies this
      ensures sortBy == Some(key)
      ensures reverseSort == if old(sortBy) == Some(key) then !old(reverseSort) else false
      ensures search == old(search) && activePage == old(activePage)
    {
      var reversed := if sortBy == Some(key) then !reverseSort else false;
      reverseSort := reversed;
      sortBy := Some(key);
    }

    /** Editing the search box: the new text, and back to page 1. */
    method OnSearchChange(value: string)
      modifies this
      ensures search == value && activePage == 1
      ensures sortBy == old(sortBy) && reverseSort == old(reverseSort)
      ensures View() == Sorted()[..Min(rowsPerPage, |Sorted()|)]
    {
      search := value;
      activePage := 1;
    }

    /** Choosing a page in the pager. */
    method OnPageChange(page: int)
      modifies this
      ensures activePage == page
      ensures search == old(search) && sortBy == old(sortBy) && reverseSort == old(reverseSort)
      ensures View() == Page(Sorted(), page, rowsPerPage)
    {
      activePage := page;
    }
  }
}
