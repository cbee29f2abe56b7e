/** The fixed-schema stock list: a search over ticker, title and sector with
    a trimmed, lower-cased query, a sort on one of the three fields, and a
    selection of tickers. */
module StockTable {
  import opened Text
  import opened Sequences
  import opened Sorting
  import opened Records

  /** One listed stock. */
  datatype StockData = StockData(ticker: string, title: string, sector: string)

  /** The keys of a stock record, in `Object.keys` order. */
  datatype StockField = Ticker | Title | Sector

  /** `item[key]`. */
  function Value(item: StockData, field: StockField): string {
    match field
    case Ticker => item.ticker
    case Title => item.title
    case Sector => item.sector
  }

  /** The sort key of the column `field`. */
  function FieldKey(field: StockField): StockData -> string {
    item => Value(item, field)
  }

  /** `search.toLowerCase().trim()`. */
  function Query(search: string): string {
    Trim(ToLower(search))
  }

  /** Some field of `item`, lower-cased, includes `query`. */
  predicate ItemMatches(item: StockData, query: string) {
    exists field: StockField :: Contains(ToLower(Value(item, field)), query)
  }

  /** `filterData(data, search)`: the stocks some field of which includes the
      query, in their input order. */
  function FilterData(data: seq<StockData>, search: string): (r: seq<StockData>)
    ensures IsSubsequence(r, data)
    ensures forall item :: item in r <==> item in data && ItemMatches(item, Query(search))
    ensures forall x :: multiset(r)[x] == if ItemMatches(x, Query(search)) then multiset(data)[x] else 0
  {
    FilterIsSubsequence(data, item => ItemMatches(item, Query(search)));
    forall x { FilterCount(data, item => ItemMatches(item, Query(search)), x); }
    Filter(data, item => ItemMatches(item, Query(search)))
  }

  /** A search made only of whitespace (the empty one included) trims to the
      empty query and keeps every stock. */
  lemma BlankSearchKeepsAll(data: seq<StockData>, search: string)
    requires forall i :: 0 <= i < |search| ==> IsJsWhitespace(search[i])
    ensures FilterData(data, search) == data
  {
    var lower := ToLower(search);
    forall i | 0 <= i < |lower| ensures IsJsWhitespace(lower[i]) {
      assert lower[i] == LowerChar(search[i]);
    }
    var q := Query(search);
    assert q == [];
    forall k | 0 <= k < |data| ensures ItemMatches(data[k], q) {
      assert Contains(ToLower(Value(data[k], Ticker)), q);
    }
    FilterAll(data, item => ItemMatches(item, Query(search)));
  }

  /** `sortData(data, { sortBy, reversed, search })`: without a sort field,
      the filtered stocks; with one, a sorted copy of all the stocks,
      filtered afterwards. */
  function SortData(data: seq<StockData>, sortBy: Option<StockField>, reversed: bool, search: string,
                    le: (string, string) -> bool): seq<StockData>
  {
    if sortBy.None? then FilterData(data, search)
    else Filter(StableSort(data, FieldKey(sortBy.value), Order(le, reversed)),
                item => ItemMatches(item, Query(search)))
  }

  /** Sorting before filtering gives what filtering before sorting would:
      a permutation of `filterData(data, search)`, ordered on the sort field
      in the chosen direction, ties kept in input order; without a sort
      field, `filterData(data, search)` itself. */
  lemma SortDataSpec(data: seq<StockData>, sortBy: Option<StockField>, reversed: bool, search: string,
                     le: (string, string) -> bool)
    requires TotalPreorder(le)
    ensures sortBy.None? ==> SortData(data, sortBy, reversed, search, le) == FilterData(data, search)
    ensures sortBy.Some? ==> SortData(data, sortBy, reversed, search, le)
                               == StableSort(FilterData(data, search), FieldKey(sortBy.value), Order(le, reversed))
    ensures multiset(SortData(data, sortBy, reversed, search, le)) == multiset(FilterData(data, search))
    ensures sortBy.Some? ==> SortedBy(SortData(data, sortBy, reversed, search, le),
                                      FieldKey(sortBy.value), Order(le, reversed))
  {
    if sortBy.Some? {
      var key := FieldKey(sortBy.value);
      var order := Order(le, reversed);
      OrderTotalPreorder(le, reversed);
      FilterSortCommute(data, key, order, item => ItemMatches(item, Query(search)));
      StableSortPermutes(FilterData(data, search), key, order);
      StableSortSorted(FilterData(data, search), key, order);
    }
  }

  /** The component's state. `sortedData` is what the table shows. */
  class StockTableState {
    const data: seq<StockData>
    const le: (string, string) -> bool

    var search: string
    var sortedData: seq<StockData>
    var sortBy: Option<StockField>
    var reverseSortDirection: bool
    var selectedRows: seq<string>

    /** The shown list is the one `sortData` computes from the full data
        and the current search and sort, and no ticker is selected twice. */
    ghost predicate Valid()
      reads this
    {
      && sortedData == SortData(data, sortBy, reverseSortDirection, search, le)
      && NoDuplicates(selectedRows)
    }

    /** Initially the data as given, no search, no sort, nothing selected. */
    constructor (data: seq<StockData>, le: (string, string) -> bool)
      ensures this.data == data && this.le == le
      ensures search == "" && sortedData == data && sortBy == None
      ensures !reverseSortDirection && selectedRows == []
      ensures Valid()
    {
      this.data := data;
      this.le := le;
      search := "";
      sortedData := data;
      sortBy := None;
      reverseSortDirection := false;
      selectedRows := [];
      new;
      BlankSearchKeepsAll(data, "");
    }

    /** Clicking a header: that field becomes the sort field, the direction
        flips when it already was and is ascending otherwise, and the list
        is recomputed from the full data with the current search. */
    method SetSorting(field: StockField)
      requires Valid()
      modifies this
      ensures sortBy == Some(field)
      ensures reverseSortDirection == if old(sortBy) == Some(field) then !old(reverseSortDirection) else false
      ensures search == old(search) && selectedRows == old(selectedRows)
      ensures sortedData == SortData(data, Some(field), reverseSortDirection, search, le)
      ensures Valid()
    {
      var reversed := if Some(field) == sortBy then !reverseSortDirection else false;
      reverseSortDirection := reversed;
      sortBy := Some(field);
      sortedData := SortData(data, Some(field), reversed, search, le);
    }

    /** Editing the search: the new text, and the list recomputed from the
        full data with the unchanged sort field and direction. */
    method HandleSearchChange(value: string)
      requires Valid()
      modifies this
      ensures search == value
      ensures sortBy == old(sortBy) && reverseSortDirection == old(reverseSortDirection)
      ensures selectedRows == old(selectedRows)
      ensures sortedData == SortData(data, sortBy, reverseSortDirection, value, le)
      ensures Valid()
    {
      search := value;
      sortedData := SortData(data, sortBy, reverseSortDirection, value, le);
    }

    /** Ticking a row's box: a selected ticker is removed, another one is
        appended; nothing else changes. */
    method ToggleRow(ticker: string)
      requires Valid()
      modifies this
      ensures selectedRows == Toggle(old(selectedRows), ticker)
      ensures ticker in selectedRows <==> ticker !in old(selectedRows)
      ensures forall t :: t != ticker ==> (t in selectedRows <==> t in old(selectedRows))
      ensures search == old(search) && sortedData == old(sortedData)
      ensures sortBy == old(sortBy) && reverseSortDirection == old(reverseSortDirection)
      ensures Valid()
    {
      ToggleNoDuplicates(selectedRows, ticker);
      selectedRows := Toggle(selectedRows, ticker);
    }
  }
}
