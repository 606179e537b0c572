/**
 * The List: a columnar dataset that ingests raw items once, then answers reads through its
 * index map, narrows that map in place (`filterSelf`) and derives new lists (`map`).
 */
module DataList {
  import opened Wrappers
  import opened Dimensions
  import opened RawData
  import opened ListModel
  import opened Nearest

  class List {
    /** The schema, fixed at construction. */
    const dims: seq<Dim>
    /** One column per dimension, indexed by raw index. */
    var columns: seq<Column>
    /** The raw items as supplied, indexed by raw index. */
    var rawItems: seq<RawItem>
    /** The index map: active index to raw index. */
    var indices: seq<nat>

    function Snapshot(): Store
      reads this
    {
      Store(dims, columns, rawItems, indices)
    }

    ghost predicate Valid()
      reads this
    {
      WellFormed(Snapshot())
    }

    /** `count()`: the number of active items. */
    function Count(): nat
      reads this
    {
      |indices|
    }

    /** `new List(dimensions, hostModel)`: an empty list over the declared dimensions. */
    constructor (decls: seq<DimDecl>)
      requires DistinctDeclNames(decls)
      ensures Valid()
      ensures dims == ResolveDecls(decls)
      ensures rawItems == [] && indices == [] && |columns| == |decls|
    {
      dims := ResolveDecls(decls);
      columns := seq(|decls|, _ => []);
      rawItems := [];
      indices := [];
    }

    /** A copy sharing nothing mutable with `source`: the start of `map`. */
    constructor CloneFrom(source: List)
      requires source.Valid()
      ensures Valid()
      ensures Snapshot() == source.Snapshot()
    {
      dims := source.dims;
      columns := source.columns;
      rawItems := source.rawItems;
      indices := source.indices;
    }

    /**
     * `initData(data)`: reads every raw item of the input, stores each dimension's coerced
     * value column by column, retains the raw items and makes the index map the identity.
     */
    method InitData(input: DataInput)
      requires Valid() && rawItems == []
      modifies this
      ensures Valid()
      ensures Snapshot() == Ingest(dims, input)
    {
      var n := CountOf(input);
      ghost var raw := RawItemsOf(input);
      var i := 0;
      while i < n
        invariant 0 <= i <= n
        invariant rawItems == raw[..i]
        invariant |columns| == |dims|
        invariant forall d :: 0 <= d < |dims| ==> |columns[d]| == i
        invariant forall d, r :: 0 <= d < |dims| && 0 <= r < |columns[d]| ==>
          columns[d][r] == CellOf(raw[r], d, dims[d])
      {
        var item := ItemAt(input, i);
        var k := 0;
        while k < |dims|
          invariant 0 <= k <= |dims|
          invariant rawItems == raw[..i]
          invariant |columns| == |dims|
          invariant forall d :: 0 <= d < k ==> |columns[d]| == i + 1
          invariant forall d :: k <= d < |dims| ==> |columns[d]| == i
          invariant forall d, r :: 0 <= d < |dims| && 0 <= r < |columns[d]| ==>
            columns[d][r] == CellOf(raw[r], d, dims[d])
        {
          columns := columns[k := columns[k] + [CellOf(item, k, dims[k])]];
          k := k + 1;
        }
        assert raw[..i + 1] == raw[..i] + [item];
        rawItems := rawItems + [item];
        i := i + 1;
      }
      indices := Identity(n);
      assert rawItems == raw;
      forall d | 0 <= d < |dims|
        ensures columns[d] == Columns(dims, raw)[d]
      {
      }
    }

    /**
     * `indexOfRawIndex(rawIndex)`: the active index of a raw index, or -1. Raw indices outside
     * the raw data are answered at once; an item still at its own raw position is found
     * directly; otherwise the increasing index map is searched by bisection.
     */
    method IndexOfRawIndex(rawIndex: int) returns (k: int)
      requires Valid()
      ensures k == ActiveIndexOf(indices, rawIndex)
      ensures k == -1 <==> rawIndex !in indices
      ensures k != -1 ==> 0 <= k < |indices| && indices[k] == rawIndex
    {
      if rawIndex < 0 || rawIndex >= |rawItems| {
        return -1;
      }
      if rawIndex < |indices| && indices[rawIndex] == rawIndex {
        ActiveIndexOfPosition(indices, rawIndex);
        return rawIndex;
      }
      var left, right := 0, |indices| - 1;
      while left <= right
        invariant 0 <= left <= |indices|
        invariant -1 <= right < |indices|
        invariant forall j :: 0 <= j < left ==> indices[j] < rawIndex
        invariant forall j :: right < j < |indices| ==> indices[j] > rawIndex
        decreases right - left
      {
        var mid := (left + right) / 2;
        if indices[mid] < rawIndex {
          left := mid + 1;
        } else if indices[mid] > rawIndex {
          right := mid - 1;
        } else {
          ActiveIndexOfPosition(indices, mid);
          return mid;
        }
      }
      return -1;
    }

    /**
     * `filterSelf(dims, predicate)`: keeps the active items the predicate accepts, in order,
     * by replacing the index map in place; returns this same list so calls can be chained.
     * With no dimension names the predicate sees only the active index.
     */
    method FilterSelf(names: seq<string>, pred: ItemPredicate) returns (r: Result<List>)
      requires Valid()
      modifies this
      ensures Valid()
      ensures r.Ok? <==> ResolveNames(dims, names).Ok?
      ensures r.Err? ==> r.error == ResolveNames(dims, names).error && Snapshot() == old(Snapshot())
      ensures r.Ok? ==>
        r.value == this && Snapshot() == FilterStore(old(Snapshot()), ResolveNames(dims, names).value, pred)
    {
      var resolved := ResolveNames(dims, names);
      if resolved.Err? {
        return Err(resolved.error);
      }
      var cols := resolved.value;
      var s := Snapshot();
      var kept: seq<nat> := [];
      var i := 0;
      while i < |s.indices|
        invariant 0 <= i <= |s.indices|
        invariant Snapshot() == s
        invariant kept == Kept(s, cols, pred, i)
      {
        if pred(RowAt(s, cols, i), i) {
          kept := kept + [s.indices[i]];
        }
        i := i + 1;
      }
      indices := kept;
      assert Snapshot() == FilterStore(s, cols, pred);
      return Ok(this);
    }

    /**
     * `mapArray(dims, fn)`: one result per active item, in active-index order, each computed
     * from the item's values on the named dimensions and its active index.
     */
    method MapArray<T>(names: seq<string>, fn: (seq<Option<real>>, nat) -> T) returns (r: Result<seq<T>>)
      requires Valid()
      ensures r.Ok? <==> ResolveNames(dims, names).Ok?
      ensures r.Err? ==> r.error == ResolveNames(dims, names).error
      ensures r.Ok? ==> |r.value| == Count()
      ensures r.Ok? ==> forall i :: 0 <= i < |r.value| ==>
        r.value[i] == fn(RowAt(Snapshot(), ResolveNames(dims, names).value, i), i)
    {
      var resolved := ResolveNames(dims, names);
      if resolved.Err? {
        return Err(resolved.error);
      }
      var cols := resolved.value;
      var out: seq<T> := [];
      var i := 0;
      while i < |indices|
        invariant 0 <= i <= |indices|
        invariant |out| == i
        invariant forall j :: 0 <= j < i ==> out[j] == fn(RowAt(Snapshot(), cols, j), j)
      {
        out := out + [fn(RowAt(Snapshot(), cols, i), i)];
        i := i + 1;
      }
      return Ok(out);
    }

    /**
     * `map(dims, fn)`: a new list over the same schema, raw items and index map, in which each
     * active item's named dimensions hold fn's results; this list is left as it was.
     */
    method Map(names: seq<string>, fn: ItemMapper) returns (r: Result<List>)
      requires Valid()
      ensures r.Ok? <==> ResolveNames(dims, names).Ok?
      ensures r.Err? ==> r.error == ResolveNames(dims, names).error
      ensures r.Ok? ==>
        fresh(r.value) && r.value.Valid()
        && r.value.Snapshot() == MapStore(Snapshot(), ResolveNames(dims, names).value, fn)
    {
      var resolved := ResolveNames(dims, names);
      if resolved.Err? {
        return Err(resolved.error);
      }
      var cols := resolved.value;
      var s := Snapshot();
      var list := new List.CloneFrom(this);
      var i := 0;
      while i < |s.indices|
        invariant 0 <= i <= |s.indices|
        invariant fresh(list) && list.Valid()
        invariant list.dims == s.dims && list.rawItems == s.raw && list.indices == s.indices
        invariant list.columns == MappedUpTo(s, cols, fn, i)
      {
        var ret := fn(RowAt(s, cols, i), i);
        list.WriteItem(cols, ret, s.indices[i]);
        i := i + 1;
      }
      assert list.Snapshot() == MapStore(s, cols, fn);
      return Ok(list);
    }

    /**
     * Writes one item's mapped results into this list's columns: result k into the column
     * cols[k], coerced to its type, for as many results and names as there are.
     */
    method WriteItem(cols: seq<nat>, ret: seq<Option<real>>, rawIndex: nat)
      requires Valid() && ColumnsIn(Snapshot(), cols) && rawIndex < |rawItems|
      modifies this
      ensures Valid()
      ensures rawItems == old(rawItems) && indices == old(indices)
      ensures columns == WriteRow(old(columns), dims, cols, ret, rawIndex, 0)
    {
      var k := 0;
      while k < |ret| && k < |cols|
        invariant 0 <= k
        invariant rawItems == old(rawItems) && indices == old(indices)
        invariant |columns| == |dims|
        invariant forall d :: 0 <= d < |dims| ==> |columns[d]| == |rawItems|
        invariant WriteRow(columns, dims, cols, ret, rawIndex, k) == WriteRow(old(columns), dims, cols, ret, rawIndex, 0)
        decreases |ret| - k
      {
        var d := cols[k];
        columns := columns[d := columns[d][rawIndex := Coerce(dims[d].dimType, ret[k])]];
        k := k + 1;
      }
    }

    /**
     * `getDataExtent(dim)`: the smallest and largest present value of the dimension over the
     * active items; missing values are skipped, and with none present there is no extent.
     */
    method GetDataExtent(name: string) returns (r: Result<Extent>)
      requires Valid()
      ensures r.Err? <==> DimIndex(dims, name).None?
      ensures r.Err? ==> r.error == UnknownDimension(name)
      ensures r.Ok? ==> IsExtent(ActiveValues(Snapshot(), DimIndex(dims, name).value), r.value)
    {
      var found := DimIndex(dims, name);
      if found.None? {
        return Err(UnknownDimension(name));
      }
      var d := found.value;
      ghost var vals := ActiveValues(Snapshot(), d);
      var any := false;
      var lo, hi := 0.0, 0.0;
      ghost var loAt, hiAt := 0, 0;
      var i := 0;
      while i < |indices|
        invariant 0 <= i <= |indices|
        invariant !any ==> forall j :: 0 <= j < i ==> vals[j].None?
        invariant any ==> loAt < i && vals[loAt] == Some(lo) && hiAt < i && vals[hiAt] == Some(hi)
        invariant any ==> forall j :: 0 <= j < i && vals[j].Some? ==> lo <= vals[j].value <= hi
      {
        var v := columns[d][indices[i]];
        if v.Some? {
          if !any || v.value < lo {
            lo, loAt := v.value, i;
          }
          if !any || v.value > hi {
            hi, hiAt := v.value, i;
          }
          any := true;
        }
        i := i + 1;
      }
      return Ok(if any then Extent(lo, hi) else NoExtent);
    }

    /**
     * `indicesOfNearest(dim, target, maxDistance)`: the active indices holding the value
     * nearest to target, ascending, found by one scan of the dimension's active values.
     */
    method IndicesOfNearest(name: string, target: real, maxDistance: Option<real>) returns (r: Result<seq<nat>>)
      requires Valid()
      ensures r.Err? <==> DimIndex(dims, name).None?
      ensures r.Err? ==> r.error == UnknownDimension(name)
      ensures r.Ok? ==>
        r.value == NearestIndices(ActiveValues(Snapshot(), DimIndex(dims, name).value), target, maxDistance)
    {
      var found := DimIndex(dims, name);
      if found.None? {
        return Err(UnknownDimension(name));
      }
      var nearest := ScanNearest(ActiveValues(Snapshot(), found.value), target, maxDistance);
      return Ok(nearest);
    }
  }
}
