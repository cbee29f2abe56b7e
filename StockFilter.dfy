/** The facet panel: which fields of the records are qualitative (strings)
    and which quantitative (numbers), the choices offered for each, the
    "greater than" thresholds, and the update of one filter value. */
module StockFilter {
  import opened Sequences
  import opened Records

  /** A filter value: a chosen string, a lower bound, a range, or
      `undefined` (cleared). */
  datatype FilterValue = TextValue(s: string) | NumberValue(x: real) | RangeValue(lo: real, hi: real) | Unset

  /** `FilterValues`: the filter value of each field that has one. */
  type FilterValues = map<string, FilterValue>

  /** `handleChange(field, value)`: the values handed to `onChange`, a copy
      of `values` in which `field` holds `value`, or `undefined` for a
      cleared (null) value. */
  function HandleChange(values: FilterValues, field: string, value: Option<FilterValue>): (r: FilterValues)
    ensures r.Keys == values.Keys + {field}
    ensures value.None? ==> r[field] == Unset
    ensures value.Some? ==> r[field] == value.value
    ensures forall k :: k in values && k != field ==> r[k] == values[k]
  {
    values[field := if value.Some? then value.value else Unset]
  }

  /** Two changes to the same field: the second one wins. */
  lemma HandleChangeLastWins(values: FilterValues, field: string, a: Option<FilterValue>, b: Option<FilterValue>)
    ensures HandleChange(HandleChange(values, field, a), field, b) == HandleChange(values, field, b)
  {
  }

  /** Changes to two different fields can be made in either order. */
  lemma HandleChangeCommutes(values: FilterValues, f: string, g: string, a: Option<FilterValue>, b: Option<FilterValue>)
    requires f != g
    ensures HandleChange(HandleChange(values, f, a), g, b) == HandleChange(HandleChange(values, g, b), f, a)
  {
  }

  /** `qualitativeFields`: the keys of the first record whose value there is
      a string, in key order; none without data. */
  function QualitativeFields(data: seq<Record>): (ks: seq<string>)
    ensures data == [] ==> ks == []
    ensures data != [] ==> IsSubsequence(ks, Keys(data[0]))
    ensures forall k :: k in ks <==> data != [] && k in Keys(data[0]) && Get(data[0], k).Str?
  {
    if |data| > 0 then
      FilterIsSubsequence(Keys(data[0]), k => Get(data[0], k).Str?);
      Filter(Keys(data[0]), k => Get(data[0], k).Str?)
    else []
  }

  /** `quantitativeFields`: the keys of the first record whose value there
      is a number, in key order; none without data, and never a
      qualitative field. */
  function QuantitativeFields(data: seq<Record>): (ks: seq<string>)
    ensures data == [] ==> ks == []
    ensures data != [] ==> IsSubsequence(ks, Keys(data[0]))
    ensures forall k :: k in ks <==> data != [] && k in Keys(data[0]) && Get(data[0], k).Num?
    ensures forall k :: k in ks ==> k !in QualitativeFields(data)
  {
    if |data| > 0 then
      FilterIsSubsequence(Keys(data[0]), k => Get(data[0], k).Num?);
      Filter(Keys(data[0]), k => Get(data[0], k).Num?)
    else []
  }

  /** `Array.from(new Set(column.filter(Boolean)))`: the distinct truthy
      values of the column `key`, none twice. */
  function UniqueValues(data: seq<Record>, key: string): (vs: seq<Scalar>)
    ensures NoDuplicates(vs)
    ensures forall v :: v in vs <==> v in Column(data, key) && Truthy(v)
  {
    DedupOrdered(Filter(Column(data, key), v => Truthy(v)));
    Dedup(Filter(Column(data, key), v => Truthy(v)))
  }

  /** The distinct values are listed in the order in which they first occur
      in the column. */
  lemma UniqueValuesOrder(data: seq<Record>, key: string)
    ensures forall i, j :: 0 <= i < j < |UniqueValues(data, key)| ==>
              IndexOf(Column(data, key), UniqueValues(data, key)[i])
              < IndexOf(Column(data, key), UniqueValues(data, key)[j])
  {
    var col := Column(data, key);
    var truthy := Filter(col, v => Truthy(v));
    var vs := UniqueValues(data, key);
    DedupOrdered(truthy);
    forall i, j | 0 <= i < j < |vs|
      ensures IndexOf(col, vs[i]) < IndexOf(col, vs[j])
    {
      assert vs[i] in vs && vs[j] in vs;
      FilterPreservesOrder(col, v => Truthy(v), vs[i], vs[j]);
    }
  }

  /** `uniqueQualValues`: for every qualitative field, its distinct truthy
      values. */
  method UniqueQualValues(data: seq<Record>) returns (uniq: map<string, seq<Scalar>>)
    ensures forall k :: k in uniq <==> k in QualitativeFields(data)
    ensures forall k :: k in uniq ==> uniq[k] == UniqueValues(data, k)
  {
    var fields := QualitativeFields(data);
    uniq := map[];
    var i := 0;
    while i < |fields|
      invariant 0 <= i <= |fields|
      invariant forall k :: k in uniq <==> k in fields[..i]
      invariant forall k :: k in uniq ==> uniq[k] == UniqueValues(data, k)
    {
      var key := fields[i];
      uniq := uniq[key := Dedup(Filter(Column(data, key), v => Truthy(v)))];
      PrefixSnoc(fields, i);
      i := i + 1;
    }
    assert fields[..i] == fields;
  }

  /** The numbers of a column (`filter(v => typeof v === 'number')`): which
      numbers occur, all that the minimum and maximum depend on. */
  function Numbers(col: seq<Scalar>): (xs: seq<real>)
    ensures |xs| <= |col|
    ensures forall x :: x in xs <==> Num(x) in col
    decreases |col|
  {
    if col == [] then []
    else
      assert col == [col[0]] + col[1..];
      (if col[0].Num? then [col[0].x] else []) + Numbers(col[1..])
  }

  /** `Math.min(...xs)`: an element of `xs` no larger than any other. */
  function MinOf(xs: seq<real>): (m: real)
    requires xs != []
    ensures m in xs
    ensures forall x :: x in xs ==> m <= x
    decreases |xs|
  {
    if |xs| == 1 then xs[0]
    else
      var rest := MinOf(xs[1..]);
      assert xs == [xs[0]] + xs[1..];
      if xs[0] <= rest then xs[0] else rest
  }

  /** `Math.max(...xs)`: an element of `xs` no smaller than any other. */
  function MaxOf(xs: seq<real>): (m: real)
    requires xs != []
    ensures m in xs
    ensures forall x :: x in xs ==> x <= m
    decreases |xs|
  {
    if |xs| == 1 then xs[0]
    else
      var rest := MaxOf(xs[1..]);
      assert xs == [xs[0]] + xs[1..];
      if xs[0] >= rest then xs[0] else rest
  }

  /** The range of a quantitative field. */
  datatype Stats = Stats(min: real, max: real)

  /** The column `key` holds at least one number. */
  predicate HasNumbers(data: seq<Record>, key: string) {
    Numbers(Column(data, key)) != []
  }

  /** `{ min: Math.min(...values), max: Math.max(...values) }` over the
      numbers of the column: two of them, bounding all of them. */
  function ColumnStats(data: seq<Record>, key: string): (st: Stats)
    requires HasNumbers(data, key)
    ensures st.min <= st.max
    ensures Num(st.min) in Column(data, key) && Num(st.max) in Column(data, key)
    ensures forall x :: Num(x) in Column(data, key) ==> st.min <= x <= st.max
  {
    var xs := Numbers(Column(data, key));
    Stats(MinOf(xs), MaxOf(xs))
  }

  /** `quantitativeStats`: for every quantitative field whose column holds
      a number, the range of those numbers. */
  method QuantitativeStats(data: seq<Record>) returns (stats: map<string, Stats>)
    ensures forall k :: k in stats <==> k in QuantitativeFields(data) && HasNumbers(data, k)
    ensures forall k :: k in stats ==> HasNumbers(data, k) && stats[k] == ColumnStats(data, k)
  {
    stats := FieldStats(data, QuantitativeFields(data));
  }

  /** The `forEach` over the fields: the range of each of them whose column
      holds a number. */
  method FieldStats(data: seq<Record>, fields: seq<string>) returns (stats: map<string, Stats>)
    ensures forall k :: k in stats <==> k in fields && HasNumbers(data, k)
    ensures forall k :: k in stats ==> HasNumbers(data, k) && stats[k] == ColumnStats(data, k)
  {
    stats := map[];
    var i := 0;
    while i < |fields|
      invariant 0 <= i <= |fields|
      invariant forall k :: k in stats <==> k in fields[..i] && HasNumbers(data, k)
      invariant forall k :: k in stats ==> HasNumbers(data, k) && stats[k] == ColumnStats(data, k)
    {
      var key := fields[i];
      if HasNumbers(data, key) {
        stats := stats[key := ColumnStats(data, key)];
      }
      PrefixSnoc(fields, i);
      i := i + 1;
    }
    assert fields[..i] == fields;
  }

  /** Every quantitative field has a range: the first record supplies a
      number. */
  lemma QuantitativeFieldHasNumbers(data: seq<Record>, key: string)
    requires key in QuantitativeFields(data)
    ensures HasNumbers(data, key)
  {
    var col := Column(data, key);
    assert col[0] == Get(data[0], key);
    assert col[0].x in Numbers(col);
  }

  /** One choice of a `Select`. */
  datatype SelectOption = SelectOption(value: string, labelText: string)

  /** The `i`-th threshold (from 0): `(i + 1) * step`. */
  function Threshold(step: real, i: nat): real {
    (i + 1) as real * step
  }

  /** The "greater than" choices of a quantitative field: thresholds
      `step, 2 * step, ...` up to `max`, each offered with its plain string
      form as value and `"> "` and its compact form as label. `numText` is
      `Number.prototype.toString`, `compact` the compact `toLocaleString`. */
  method ThresholdOptions(step: real, max: real, numText: real -> string, compact: real -> string)
    returns (options: seq<SelectOption>)
    requires step > 0.0
    ensures forall i :: 0 <= i < |options| ==>
              options[i] == SelectOption(numText(Threshold(step, i)), "> " + compact(Threshold(step, i)))
    ensures forall i :: 0 <= i < |options| ==> Threshold(step, i) <= max
    ensures max < Threshold(step, |options|)
    ensures options == [] <==> max < step
  {
    options := [];
    var current := step;
    while current <= max
      invariant current == Threshold(step, |options|)
      invariant forall i :: 0 <= i < |options| ==>
                  options[i] == SelectOption(numText(Threshold(step, i)), "> " + compact(Threshold(step, i)))
      invariant forall i :: 0 <= i < |options| ==> Threshold(step, i) <= max
      decreases (max / step).Floor - |options|
    {
      ThresholdsBelow(step, max, |options|);
      options := options + [SelectOption(numText(current), "> " + compact(current))];
      current := current + step;
    }
  }

  /** A threshold at most `max` is one of the first `max / step`. */
  lemma ThresholdsBelow(step: real, max: real, n: nat)
    requires step > 0.0 && Threshold(step, n) <= max
    ensures n < (max / step).Floor
  {
    var q := max / step;
    assert q * step == max;
    assert (n + 1) as real <= q;
  }

  /** The thresholds rise strictly. */
  lemma ThresholdsIncrease(step: real, i: nat, j: nat)
    requires step > 0.0 && i < j
    ensures Threshold(step, i) < Threshold(step, j)
  {
  }
}
