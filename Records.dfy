/** Flat records as the components receive them: JavaScript objects whose
    properties, in insertion order, hold scalars. */
module Records {

  /** A value that may be absent (`null` in the source). */
  datatype Option<T> = None | Some(value: T)

  /** The scalar values a record field can hold. JavaScript numbers are
      modelled as reals (no NaN, no infinities, no rounding). */
  datatype Scalar = Str(s: string) | Num(x: real) | Bool(b: bool) | Null | Undefined

  /** One own enumerable property. */
  datatype Field = Field(name: string, value: Scalar)

  /** A record: its properties in `Object.keys` order. */
  type Record = seq<Field>

  /** `Object.keys(r)`. */
  function Keys(r: Record): (ks: seq<string>)
    ensures |ks| == |r|
    ensures forall i :: 0 <= i < |r| ==> ks[i] == r[i].name
  {
    seq(|r|, i requires 0 <= i < |r| => r[i].name)
  }

  /** `r[key]`: the value of the property named `key`, `undefined` when there
      is none. */
  function Get(r: Record, key: string): (v: Scalar)
    ensures key !in Keys(r) ==> v == Undefined
    ensures key in Keys(r) ==> exists i :: 0 <= i < |r| && r[i].name == key && v == r[i].value
    decreases |r|
  {
    if r == [] then Undefined
    else if r[0].name == key then r[0].value
    else
      assert Keys(r) == [r[0].name] + Keys(r[1..]);
      var v := Get(r[1..], key);
      assert key in Keys(r[1..]) ==> exists i :: 0 <= i < |r[1..]| && r[1..][i].name == key && v == r[1..][i].value;
      v
  }

  /** `String(v)`; how a number prints is left to `numText`. */
  function Show(v: Scalar, numText: real -> string): string {
    match v
    case Str(s) => s
    case Num(x) => numText(x)
    case Bool(b) => if b then "true" else "false"
    case Null => "null"
    case Undefined => "undefined"
  }

  /** JavaScript truthiness (`Boolean(v)`). */
  predicate Truthy(v: Scalar) {
    match v
    case Str(s) => s != ""
    case Num(x) => x != 0.0
    case Bool(b) => b
    case Null => false
    case Undefined => false
  }

  /** `data.map(row => row[key])`. */
  function Column(data: seq<Record>, key: string): (col: seq<Scalar>)
    ensures |col| == |data|
    ensures forall i :: 0 <= i < |data| ==> col[i] == Get(data[i], key)
  {
    seq(|data|, i requires 0 <= i < |data| => Get(data[i], key))
  }
}
