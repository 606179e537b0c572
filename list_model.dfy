/**
 * The abstract state of a List and the meaning of its operations, as values: the schema, one
 * column per dimension indexed by raw index, the retained raw items, and the index map from
 * active index to raw index.
 */
module ListModel {
  import opened Wrappers
  import opened Dimensions
  import opened RawData

  /** One dimension's stored values by raw index; None is the missing value (NaN). */
  type Column = seq<Option<real>>

  /** A callback over an active item: its values on the requested dimensions, then its active index. */
  type ItemPredicate = (seq<Option<real>>, nat) -> bool
  type ItemMapper = (seq<Option<real>>, nat) -> seq<Option<real>>

  datatype Store = Store(dims: seq<Dim>, columns: seq<Column>, raw: seq<RawItem>, indices: seq<nat>)

  ghost predicate StrictlyIncreasing(xs: seq<nat>) {
    forall a, b :: 0 <= a < b < |xs| ==> xs[a] < xs[b]
  }

  /**
   * The List invariants: distinct dimension names, one column per dimension as long as the raw
   * data, and an index map of valid raw indices in increasing order.
   */
  ghost predicate WellFormed(s: Store) {
    DistinctNames(s.dims)
    && |s.columns| == |s.dims|
    && (forall d :: 0 <= d < |s.columns| ==> |s.columns[d]| == |s.raw|)
    && (forall k :: 0 <= k < |s.indices| ==> s.indices[k] < |s.raw|)
    && StrictlyIncreasing(s.indices)
  }

  ghost predicate ColumnsIn(s: Store, cols: seq<nat>) {
    forall k :: 0 <= k < |cols| ==> cols[k] < |s.dims|
  }

  // ---------------------------------------------------------------------------
  // Ingestion

  function Identity(n: nat): (xs: seq<nat>)
    ensures |xs| == n && forall k :: 0 <= k < n ==> xs[k] == k
  {
    seq(n, k requires 0 <= k => k)
  }

  /** The columns an ingestion fills: the k-th dimension stores CellOf of each raw item. */
  function Columns(dims: seq<Dim>, raw: seq<RawItem>): seq<Column> {
    seq(|dims|, d requires 0 <= d < |dims| =>
      seq(|raw|, r requires 0 <= r < |raw| => CellOf(raw[r], d, dims[d])))
  }

  /** The state `initData` leaves in a fresh List. */
  function Ingest(dims: seq<Dim>, input: DataInput): Store {
    var raw := RawItemsOf(input);
    Store(dims, Columns(dims, raw), raw, Identity(|raw|))
  }

  lemma IngestWellFormed(dims: seq<Dim>, input: DataInput)
    requires DistinctNames(dims)
    ensures WellFormed(Ingest(dims, input))
    ensures |Ingest(dims, input).indices| == |RawItemsOf(input)|
  {
  }

  // ---------------------------------------------------------------------------
  // Column access

  function Count(s: Store): nat {
    |s.indices|
  }

  /** `get(dim, i)`: the stored value of the active item i, or the lookup error. */
  function Get(s: Store, name: string, i: int): (r: Result<Option<real>>)
    requires WellFormed(s)
    ensures DimIndex(s.dims, name).None? ==> r == Err(UnknownDimension(name))
    ensures DimIndex(s.dims, name).Some? && !(0 <= i < Count(s)) ==> r == Err(OutOfRange(i))
    ensures DimIndex(s.dims, name).Some? && 0 <= i < Count(s) ==>
      r == Ok(s.columns[DimIndex(s.dims, name).value][s.indices[i]])
  {
    match DimIndex(s.dims, name)
    case None => Err(UnknownDimension(name))
    case Some(d) => if 0 <= i < |s.indices| then Ok(s.columns[d][s.indices[i]]) else Err(OutOfRange(i))
  }

  /** `getRawDataItem(i)`: the raw item behind active index i, exactly as supplied. */
  function GetRawDataItem(s: Store, i: int): (r: Result<RawItem>)
    requires WellFormed(s)
    ensures r.Err? <==> !(0 <= i < Count(s))
    ensures r.Err? ==> r.error == OutOfRange(i)
    ensures r.Ok? ==> r.value == s.raw[s.indices[i]]
  {
    if 0 <= i < |s.indices| then Ok(s.raw[s.indices[i]]) else Err(OutOfRange(i))
  }

  /** `getItemModel(i)`: the item's read-only view over its raw item. */
  function GetItemModel(s: Store, i: int): (r: Result<ItemModel>)
    requires WellFormed(s)
    ensures r.Err? <==> !(0 <= i < Count(s))
    ensures r.Ok? ==> r.value.option == s.raw[s.indices[i]]
  {
    match GetRawDataItem(s, i)
    case Err(e) => Err(e)
    case Ok(item) => Ok(ItemModel(item))
  }

  /** The values of one column over the active items, in active-index order. */
  function ActiveValues(s: Store, d: nat): (vals: seq<Option<real>>)
    requires WellFormed(s) && d < |s.dims|
    ensures |vals| == Count(s)
    ensures forall i :: 0 <= i < |vals| ==> vals[i] == s.columns[d][s.indices[i]]
  {
    seq(|s.indices|, i requires 0 <= i < |s.indices| => s.columns[d][s.indices[i]])
  }

  /** The values a callback receives for active item i on the columns `cols`. */
  function RowAt(s: Store, cols: seq<nat>, i: nat): (row: seq<Option<real>>)
    requires WellFormed(s) && ColumnsIn(s, cols) && i < Count(s)
    ensures |row| == |cols|
    ensures forall k :: 0 <= k < |cols| ==> row[k] == s.columns[cols[k]][s.indices[i]]
  {
    seq(|cols|, k requires 0 <= k < |cols| => s.columns[cols[k]][s.indices[i]])
  }

  /**
   * A scalar item (bare or as a record's value) is read by every declared dimension: each
   * dimension stores the same scalar, coerced to its own type.
   */
  lemma IngestScalarEveryDimension(dims: seq<Dim>, input: DataInput, i: nat, d: nat)
    requires DistinctNames(dims) && d < |dims| && i < CountOf(input)
    requires ItemAt(input, i).value.Single?
    ensures WellFormed(Ingest(dims, input))
    ensures Get(Ingest(dims, input), dims[d].name, i) ==
      Ok(Coerce(dims[d].dimType, ParseScalar(ItemAt(input, i).value.s)))
  {
    DimIndexOfOwnName(dims, d);
  }

  /**
   * A row item is assigned by position: the d-th declared dimension stores the row's d-th
   * element, and the missing value when the row is shorter.
   */
  lemma IngestRowPositional(dims: seq<Dim>, input: DataInput, i: nat, d: nat)
    requires DistinctNames(dims) && d < |dims| && i < CountOf(input)
    requires ItemAt(input, i).value.Row?
    ensures WellFormed(Ingest(dims, input))
    ensures Get(Ingest(dims, input), dims[d].name, i) ==
      var cells := ItemAt(input, i).value.cells;
      Ok(Coerce(dims[d].dimType, if d < |cells| then ParseScalar(cells[d]) else None))
  {
    DimIndexOfOwnName(dims, d);
  }

  // ---------------------------------------------------------------------------
  // Index map

  /**
   * `indexOfRawIndex(r)`, stated linearly: the position of raw index r in the index map, or -1
   * when r is not active.
   */
  function ActiveIndexOf(indices: seq<nat>, r: int): (k: int)
    ensures -1 <= k < |indices|
    ensures k >= 0 ==> indices[k] == r
    ensures k == -1 <==> forall j :: 0 <= j < |indices| ==> indices[j] != r
  {
    if |indices| == 0 then -1
    else if indices[0] == r then 0
    else
      var k := ActiveIndexOf(indices[1..], r);
      if k < 0 then -1 else k + 1
  }

  /** In an increasing index map the active index of a raw index is its unique position. */
  lemma ActiveIndexOfPosition(indices: seq<nat>, k: nat)
    requires StrictlyIncreasing(indices)
    requires k < |indices|
    ensures ActiveIndexOf(indices, indices[k]) == k
  {
    var p := ActiveIndexOf(indices, indices[k]);
    assert p >= 0;
    assert indices[p] == indices[k];
  }

  /**
   * Right after ingestion of n items the index map is the identity: raw index r < n is active
   * index r, and every other raw index (negative, or n and beyond, even when n is 0) gives -1.
   */
  lemma IndexOfRawIndexAfterIngest(dims: seq<Dim>, input: DataInput, r: int)
    ensures 0 <= r < |RawItemsOf(input)| ==> ActiveIndexOf(Ingest(dims, input).indices, r) == r
    ensures !(0 <= r < |RawItemsOf(input)|) ==> ActiveIndexOf(Ingest(dims, input).indices, r) == -1
  {
    var s := Ingest(dims, input);
    if 0 <= r < |s.raw| {
      assert s.indices[r] == r;
      ActiveIndexOfPosition(s.indices, r);
    }
  }

  /** Every raw item is reached back from its own raw index while it is active. */
  lemma RawItemRoundTrip(s: Store, r: nat)
    requires WellFormed(s)
    requires r in s.indices
    ensures GetRawDataItem(s, ActiveIndexOf(s.indices, r)) == Ok(s.raw[r])
  {
  }

  // ---------------------------------------------------------------------------
  // filterSelf

  /** The raw indices, in order, of those of the first n active items the predicate keeps. */
  function Kept(s: Store, cols: seq<nat>, pred: ItemPredicate, n: nat): seq<nat>
    requires WellFormed(s) && ColumnsIn(s, cols) && n <= Count(s)
  {
    if n == 0 then
      []
    else
      var last := if pred(RowAt(s, cols, n - 1), n - 1) then [s.indices[n - 1]] else [];
      Kept(s, cols, pred, n - 1) + last
  }

  /** The state `filterSelf` leaves: only the index map changes. */
  function FilterStore(s: Store, cols: seq<nat>, pred: ItemPredicate): (f: Store)
    requires WellFormed(s) && ColumnsIn(s, cols)
    ensures WellFormed(f)
    ensures f.dims == s.dims && f.columns == s.columns && f.raw == s.raw
    ensures Count(f) <= Count(s)
  {
    KeptOrdered(s, cols, pred, Count(s));
    s.(indices := Kept(s, cols, pred, Count(s)))
  }

  /** A raw index survives the filter exactly when it was active and its item satisfied the predicate. */
  lemma {:induction false} KeptMembership(s: Store, cols: seq<nat>, pred: ItemPredicate, n: nat, r: nat)
    requires WellFormed(s) && ColumnsIn(s, cols) && n <= Count(s)
    ensures r in Kept(s, cols, pred, n) <==>
      exists j :: 0 <= j < n && s.indices[j] == r && pred(RowAt(s, cols, j), j)
  {
    if n > 0 {
      KeptMembership(s, cols, pred, n - 1, r);
      if s.indices[n - 1] == r && pred(RowAt(s, cols, n - 1), n - 1) {
        assert r in Kept(s, cols, pred, n);
      }
    }
  }

  /** The filter keeps the surviving raw indices valid and in their original relative order. */
  lemma {:induction false} KeptOrdered(s: Store, cols: seq<nat>, pred: ItemPredicate, n: nat)
    requires WellFormed(s) && ColumnsIn(s, cols) && n <= Count(s)
    ensures |Kept(s, cols, pred, n)| <= n
    ensures forall k :: 0 <= k < |Kept(s, cols, pred, n)| ==> Kept(s, cols, pred, n)[k] < |s.raw|
    ensures forall k :: 0 <= k < |Kept(s, cols, pred, n)| ==>
      n > 0 && Kept(s, cols, pred, n)[k] <= s.indices[n - 1]
    ensures StrictlyIncreasing(Kept(s, cols, pred, n))
  {
    if n > 0 {
      KeptOrdered(s, cols, pred, n - 1);
      var prev := Kept(s, cols, pred, n - 1);
      forall k | 0 <= k < |prev|
        ensures prev[k] < s.indices[n - 1]
      {
        assert prev[k] <= s.indices[n - 2];
      }
    }
  }

  /**
   * After a filter, a raw index that survived is found at its new active index, and one that
   * was filtered out (or never active) answers -1.
   */
  lemma IndexOfRawIndexAfterFilter(s: Store, cols: seq<nat>, pred: ItemPredicate, r: nat)
    requires WellFormed(s) && ColumnsIn(s, cols)
    ensures var f := FilterStore(s, cols, pred);
      (ActiveIndexOf(f.indices, r) >= 0 <==>
        exists j :: 0 <= j < Count(s) && s.indices[j] == r && pred(RowAt(s, cols, j), j))
      && (ActiveIndexOf(f.indices, r) >= 0 ==> f.indices[ActiveIndexOf(f.indices, r)] == r)
  {
    KeptMembership(s, cols, pred, Count(s), r);
  }

  /** When the predicate holds of every item among the first n, the filter keeps all of them. */
  lemma {:induction false} KeptAll(s: Store, cols: seq<nat>, pred: ItemPredicate, n: nat)
    requires WellFormed(s) && ColumnsIn(s, cols) && n <= Count(s)
    requires forall j :: 0 <= j < n ==> pred(RowAt(s, cols, j), j)
    ensures Kept(s, cols, pred, n) == s.indices[..n]
  {
    if n > 0 {
      KeptAll(s, cols, pred, n - 1);
      assert s.indices[..n] == s.indices[..n - 1] + [s.indices[n - 1]];
    }
  }

  /**
   * Filtering twice with a predicate that looks only at the values (not at the active index)
   * leaves the same active items as filtering once.
   */
  lemma FilterIdempotent(s: Store, cols: seq<nat>, pred: ItemPredicate)
    requires WellFormed(s) && ColumnsIn(s, cols)
    requires forall row: seq<Option<real>>, i: nat, j: nat :: pred(row, i) == pred(row, j)
    ensures FilterStore(FilterStore(s, cols, pred), cols, pred) == FilterStore(s, cols, pred)
  {
    var s1 := FilterStore(s, cols, pred);
    forall i | 0 <= i < Count(s1)
      ensures pred(RowAt(s1, cols, i), i)
    {
      var r := s1.indices[i];
      KeptMembership(s, cols, pred, Count(s), r);
      var j :| 0 <= j < Count(s) && s.indices[j] == r && pred(RowAt(s, cols, j), j);
      assert RowAt(s1, cols, i) == RowAt(s, cols, j);
    }
    KeptAll(s1, cols, pred, Count(s1));
    assert s1.indices[..Count(s1)] == s1.indices;
  }

  // ---------------------------------------------------------------------------
  // map

  /**
   * Writes a callback's results for one raw index: result k goes to column cols[k] (coerced to
   * that column's type); results beyond the named columns are dropped, and named columns
   * beyond the results keep their value.
   */
  function WriteRow(columns: seq<Column>, dims: seq<Dim>, cols: seq<nat>, ret: seq<Option<real>>, r: nat, k: nat): (out: seq<Column>)
    requires |columns| == |dims|
    requires forall c :: 0 <= c < |cols| ==> cols[c] < |dims|
    requires forall d :: 0 <= d < |columns| ==> r < |columns[d]|
    ensures |out| == |columns|
    ensures forall d :: 0 <= d < |out| ==> |out[d]| == |columns[d]|
    decreases |ret| - k
  {
    if k >= |ret| || k >= |cols| then
      columns
    else
      var d := cols[k];
      WriteRow(columns[d := columns[d][r := Coerce(dims[d].dimType, ret[k])]], dims, cols, ret, r, k + 1)
  }

  /** The columns `map` produces after visiting the first n active items. */
  function MappedUpTo(s: Store, cols: seq<nat>, fn: ItemMapper, n: nat): (out: seq<Column>)
    requires WellFormed(s) && ColumnsIn(s, cols) && n <= Count(s)
    ensures |out| == |s.columns|
    ensures forall d :: 0 <= d < |out| ==> |out[d]| == |s.raw|
  {
    if n == 0 then
      s.columns
    else
      var before := MappedUpTo(s, cols, fn, n - 1);
      WriteRow(before, s.dims, cols, fn(RowAt(s, cols, n - 1), n - 1), s.indices[n - 1], 0)
  }

  /** The new List `map` returns: same schema, raw items and index map; rewritten columns. */
  function MapStore(s: Store, cols: seq<nat>, fn: ItemMapper): (m: Store)
    requires WellFormed(s) && ColumnsIn(s, cols)
    ensures WellFormed(m)
    ensures m.dims == s.dims && m.raw == s.raw && m.indices == s.indices
  {
    s.(columns := MappedUpTo(s, cols, fn, Count(s)))
  }

  ghost predicate Distinct(cols: seq<nat>) {
    forall a, b :: 0 <= a < b < |cols| ==> cols[a] != cols[b]
  }

  /** A row write leaves every other raw index, and every column not named from k on, untouched. */
  lemma {:induction false} WriteRowElsewhere(columns: seq<Column>, dims: seq<Dim>, cols: seq<nat>, ret: seq<Option<real>>, r: nat, k: nat, d: nat, r2: nat)
    requires |columns| == |dims|
    requires forall c :: 0 <= c < |cols| ==> cols[c] < |dims|
    requires forall e :: 0 <= e < |columns| ==> r < |columns[e]|
    requires d < |columns| && r2 < |columns[d]|
    requires r2 != r || forall c :: k <= c < |cols| ==> cols[c] != d
    ensures WriteRow(columns, dims, cols, ret, r, k)[d][r2] == columns[d][r2]
    decreases |ret| - k
  {
    if k < |ret| && k < |cols| {
      var e := cols[k];
      WriteRowElsewhere(columns[e := columns[e][r := Coerce(dims[e].dimType, ret[k])]], dims, cols, ret, r, k + 1, d, r2);
    }
  }

  /** With distinct column names, column cols[c] receives result c, when there is one. */
  lemma {:induction false} WriteRowAt(columns: seq<Column>, dims: seq<Dim>, cols: seq<nat>, ret: seq<Option<real>>, r: nat, k: nat, c: nat)
    requires |columns| == |dims|
    requires forall e :: 0 <= e < |cols| ==> cols[e] < |dims|
    requires forall e :: 0 <= e < |columns| ==> r < |columns[e]|
    requires Distinct(cols) && k <= c < |cols|
    ensures WriteRow(columns, dims, cols, ret, r, k)[cols[c]][r] ==
      if c < |ret| then Coerce(dims[cols[c]].dimType, ret[c]) else columns[cols[c]][r]
    decreases |ret| - k
  {
    if k < |ret| && k < |cols| {
      var e := cols[k];
      var next := columns[e := columns[e][r := Coerce(dims[e].dimType, ret[k])]];
      if k == c {
        WriteRowElsewhere(next, dims, cols, ret, r, k + 1, cols[c], r);
      } else {
        WriteRowAt(next, dims, cols, ret, r, k + 1, c);
      }
    }
  }

  /** Raw indices that no visited active item maps to keep their values. */
  lemma {:induction false} MappedUpToElsewhere(s: Store, cols: seq<nat>, fn: ItemMapper, n: nat, d: nat, r: nat)
    requires WellFormed(s) && ColumnsIn(s, cols) && n <= Count(s)
    requires d < |s.dims| && r < |s.raw|
    requires forall j :: 0 <= j < n ==> s.indices[j] != r
    ensures MappedUpTo(s, cols, fn, n)[d][r] == s.columns[d][r]
  {
    if n > 0 {
      MappedUpToElsewhere(s, cols, fn, n - 1, d, r);
      var before := MappedUpTo(s, cols, fn, n - 1);
      WriteRowElsewhere(before, s.dims, cols, fn(RowAt(s, cols, n - 1), n - 1), s.indices[n - 1], 0, d, r);
    }
  }

  /** Columns not named by the map keep their values. */
  lemma {:induction false} MappedUpToUnnamed(s: Store, cols: seq<nat>, fn: ItemMapper, n: nat, d: nat, r: nat)
    requires WellFormed(s) && ColumnsIn(s, cols) && n <= Count(s)
    requires d < |s.dims| && r < |s.raw|
    requires forall c :: 0 <= c < |cols| ==> cols[c] != d
    ensures MappedUpTo(s, cols, fn, n)[d][r] == s.columns[d][r]
  {
    if n > 0 {
      MappedUpToUnnamed(s, cols, fn, n - 1, d, r);
      var before := MappedUpTo(s, cols, fn, n - 1);
      WriteRowElsewhere(before, s.dims, cols, fn(RowAt(s, cols, n - 1), n - 1), s.indices[n - 1], 0, d, r);
    }
  }

  /** The active item i ends up with the callback's results written into the named columns. */
  lemma {:induction false} MappedUpToActive(s: Store, cols: seq<nat>, fn: ItemMapper, n: nat, i: nat, c: nat)
    requires WellFormed(s) && ColumnsIn(s, cols) && i < n <= Count(s)
    requires Distinct(cols) && c < |cols|
    ensures MappedUpTo(s, cols, fn, n)[cols[c]][s.indices[i]] ==
      var ret := fn(RowAt(s, cols, i), i);
      if c < |ret| then Coerce(s.dims[cols[c]].dimType, ret[c]) else s.columns[cols[c]][s.indices[i]]
  {
    var before := MappedUpTo(s, cols, fn, n - 1);
    var ret := fn(RowAt(s, cols, n - 1), n - 1);
    if i == n - 1 {
      MappedUpToElsewhere(s, cols, fn, n - 1, cols[c], s.indices[i]);
      WriteRowAt(before, s.dims, cols, ret, s.indices[n - 1], 0, c);
    } else {
      MappedUpToActive(s, cols, fn, n - 1, i, c);
      WriteRowElsewhere(before, s.dims, cols, ret, s.indices[n - 1], 0, cols[c], s.indices[i]);
    }
  }

  /**
   * `map` gives each active item the callback's results on the named columns, coerced to the
   * column type; other columns, inactive raw items, the index map, the raw items and the schema
   * are carried over unchanged.
   */
  lemma MapStoreSpec(s: Store, cols: seq<nat>, fn: ItemMapper)
    requires WellFormed(s) && ColumnsIn(s, cols) && Distinct(cols)
    ensures forall i, c :: 0 <= i < Count(s) && 0 <= c < |cols| ==>
      MapStore(s, cols, fn).columns[cols[c]][s.indices[i]] ==
        var ret := fn(RowAt(s, cols, i), i);
        if c < |ret| then Coerce(s.dims[cols[c]].dimType, ret[c]) else s.columns[cols[c]][s.indices[i]]
    ensures forall d, r :: 0 <= d < |s.dims| && 0 <= r < |s.raw| && (forall c :: 0 <= c < |cols| ==> cols[c] != d) ==>
      MapStore(s, cols, fn).columns[d][r] == s.columns[d][r]
    ensures forall d, r :: 0 <= d < |s.dims| && 0 <= r < |s.raw| && r !in s.indices ==>
      MapStore(s, cols, fn).columns[d][r] == s.columns[d][r]
  {
    var n := Count(s);
    forall i, c | 0 <= i < n && 0 <= c < |cols|
      ensures MapStore(s, cols, fn).columns[cols[c]][s.indices[i]] ==
        var ret := fn(RowAt(s, cols, i), i);
        if c < |ret| then Coerce(s.dims[cols[c]].dimType, ret[c]) else s.columns[cols[c]][s.indices[i]]
    {
      MappedUpToActive(s, cols, fn, n, i, c);
    }
    forall d, r | 0 <= d < |s.dims| && 0 <= r < |s.raw| && (forall c :: 0 <= c < |cols| ==> cols[c] != d)
      ensures MapStore(s, cols, fn).columns[d][r] == s.columns[d][r]
    {
      MappedUpToUnnamed(s, cols, fn, n, d, r);
    }
    forall d, r | 0 <= d < |s.dims| && 0 <= r < |s.raw| && r !in s.indices
      ensures MapStore(s, cols, fn).columns[d][r] == s.columns[d][r]
    {
      MappedUpToElsewhere(s, cols, fn, n, d, r);
    }
  }

  // ---------------------------------------------------------------------------
  // getDataExtent

  /** The `[min, max]` of the present values, or none when no value is present. */
  datatype Extent = NoExtent | Extent(min: real, max: real)

  ghost predicate IsExtent(vals: seq<Option<real>>, e: Extent) {
    match e
    case NoExtent => forall i :: 0 <= i < |vals| ==> vals[i].None?
    case Extent(lo, hi) =>
      (exists i :: 0 <= i < |vals| && vals[i] == Some(lo))
      && (exists i :: 0 <= i < |vals| && vals[i] == Some(hi))
      && forall i :: 0 <= i < |vals| && vals[i].Some? ==> lo <= vals[i].value <= hi
  }

  /** The extent of a list of values is determined by it. */
  lemma ExtentUnique(vals: seq<Option<real>>, e1: Extent, e2: Extent)
    requires IsExtent(vals, e1) && IsExtent(vals, e2)
    ensures e1 == e2
  {
    if e1.Extent? && e2.Extent? {
      var a :| 0 <= a < |vals| && vals[a] == Some(e1.min);
      var b :| 0 <= b < |vals| && vals[b] == Some(e2.min);
      var c :| 0 <= c < |vals| && vals[c] == Some(e1.max);
      var d :| 0 <= d < |vals| && vals[d] == Some(e2.max);
    }
  }
}
