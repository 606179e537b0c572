/** Raw input items, the shapes `initData` accepts, and their coercion into column values. */
module RawData {
  import opened Wrappers
  import opened Dimensions

  /** A primitive in the raw input: a number, or the `'-'` placeholder for "no value". */
  datatype Scalar = Number(x: real) | Placeholder

  /** The value part of an item: one scalar, or a row whose k-th element feeds the k-th dimension. */
  datatype Payload = Single(s: Scalar) | Row(cells: seq<Scalar>)

  /** The value of an extra field of a record item. */
  datatype FieldValue = Text(s: string) | Numeric(x: real)

  /**
   * An item as supplied: a bare payload, or a record `{value, ...}` whose remaining
   * fields become the item's overlay.
   */
  datatype RawItem =
    | Plain(value: Payload)
    | Record(value: Payload, fields: map<string, FieldValue>)

  /**
   * The input of `initData`: an array of items, or a provider answering `count()` and
   * `getItem(i)` (a total function here; its `getSource()` is not part of this model).
   */
  datatype DataInput =
    | Items(items: seq<RawItem>)
    | Provider(count: nat, getItem: nat -> RawItem)

  /** The number of raw items: the array's length, or the provider's `count()`. */
  function CountOf(input: DataInput): nat {
    match input
    case Items(items) => |items|
    case Provider(n, _) => n
  }

  /** The raw item at raw index i: the array's element, or the provider's `getItem(i)`. */
  function ItemAt(input: DataInput, i: nat): RawItem
    requires i < CountOf(input)
  {
    match input
    case Items(items) => items[i]
    case Provider(_, getItem) => getItem(i)
  }

  /** The raw items an input yields, in raw-index order. */
  function RawItemsOf(input: DataInput): (raw: seq<RawItem>)
    ensures |raw| == CountOf(input)
    ensures forall i :: 0 <= i < |raw| ==> raw[i] == ItemAt(input, i)
    ensures input.Items? ==> raw == input.items
  {
    seq(CountOf(input), i requires 0 <= i < CountOf(input) => ItemAt(input, i))
  }

  /** Truncation toward zero, as an int column stores a fractional number. */
  function Trunc(x: real): (n: int)
    ensures 0.0 <= x ==> 0 <= n && n as real <= x < n as real + 1.0
    ensures x < 0.0 ==> n <= 0 && n as real - 1.0 < x <= n as real
  {
    if x >= 0.0 then x.Floor else -((-x).Floor)
  }

  /** The placeholder coerces to the missing value; a number to itself. */
  function ParseScalar(s: Scalar): (v: Option<real>)
    ensures v.None? <==> s.Placeholder?
    ensures v.Some? ==> v.value == s.x
  {
    match s
    case Number(x) => Some(x)
    case Placeholder => None
  }

  /** Stores a value into a column of the given type: int columns drop the fraction. */
  function Coerce(t: DimType, v: Option<real>): (r: Option<real>)
    ensures r.Some? <==> v.Some?
    ensures t == Float ==> r == v
    ensures t == Int && v.Some? ==>
      r.value.Floor as real == r.value &&
      (0.0 <= v.value ==> 0.0 <= r.value <= v.value < r.value + 1.0) &&
      (v.value < 0.0 ==> r.value - 1.0 < v.value <= r.value <= 0.0)
  {
    match v
    case None => None
    case Some(x) => if t == Int then Some(Trunc(x) as real) else v
  }

  /** What the payload offers the k-th declared dimension, before coercion. */
  function PayloadCell(p: Payload, k: nat): Option<real> {
    match p
    case Single(s) => ParseScalar(s)
    case Row(cells) => if k < |cells| then ParseScalar(cells[k]) else None
  }

  /** The value the k-th dimension stores for an item. */
  function CellOf(item: RawItem, k: nat, dim: Dim): Option<real> {
    Coerce(dim.dimType, PayloadCell(item.value, k))
  }

  /** The read-only per-item view `getItemModel` returns; `option` is the raw item itself. */
  datatype ItemModel = ItemModel(option: RawItem) {
    /** A field of a record item's overlay; None (null) for any key it does not carry. */
    function Get(key: string): (r: Option<FieldValue>)
      ensures r.Some? <==> option.Record? && key in option.fields
      ensures r.Some? ==> r.value == option.fields[key]
    {
      match option
      case Plain(_) => None
      case Record(_, fields) => if key in fields then Some(fields[key]) else None
    }
  }
}
