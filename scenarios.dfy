/**
 * The behaviours the List unit tests pin down, stated on the model: each lemma fixes one
 * test's input and proves what the test expects of it.
 */
module ListScenarios {
  import opened Wrappers
  import opened Dimensions
  import opened RawData
  import opened ListModel
  import opened Nearest

  function Num(x: real): RawItem {
    Plain(Single(Number(x)))
  }

  function Pair(a: real, b: real): RawItem {
    Plain(Row([Number(a), Number(b)]))
  }

  /** The schema `['x', 'y']`. */
  function XY(): seq<Dim> {
    ResolveDecls([Bare("x"), Bare("y")])
  }

  /** The schema `['y', 'x']`. */
  function YX(): seq<Dim> {
    ResolveDecls([Bare("y"), Bare("x")])
  }

  /** The rows `[[10, 15], [20, 25], [30, 35]]`. */
  function Rows(): DataInput {
    Items([Pair(10.0, 15.0), Pair(20.0, 25.0), Pair(30.0, 35.0)])
  }

  /** Flat scalars `[10, 20, 30]` under `['x', 'y']`: every dimension reads each scalar. */
  lemma InitData1d()
    ensures WellFormed(Ingest(XY(), Items([Num(10.0), Num(20.0), Num(30.0)])))
    ensures Get(Ingest(XY(), Items([Num(10.0), Num(20.0), Num(30.0)])), "x", 0) == Ok(Some(10.0))
    ensures Get(Ingest(XY(), Items([Num(10.0), Num(20.0), Num(30.0)])), "x", 1) == Ok(Some(20.0))
    ensures Get(Ingest(XY(), Items([Num(10.0), Num(20.0), Num(30.0)])), "x", 2) == Ok(Some(30.0))
    ensures Get(Ingest(XY(), Items([Num(10.0), Num(20.0), Num(30.0)])), "y", 1) == Ok(Some(20.0))
  {
    var input := Items([Num(10.0), Num(20.0), Num(30.0)]);
    IngestScalarEveryDimension(XY(), input, 0, 0);
    IngestScalarEveryDimension(XY(), input, 1, 0);
    IngestScalarEveryDimension(XY(), input, 2, 0);
    IngestScalarEveryDimension(XY(), input, 1, 1);
  }

  /** Rows are assigned by declaration order: swapping the declared names swaps the columns. */
  lemma InitData2dOrder()
    ensures WellFormed(Ingest(XY(), Rows())) && WellFormed(Ingest(YX(), Rows()))
    ensures Get(Ingest(XY(), Rows()), "x", 1) == Ok(Some(20.0))
    ensures Get(Ingest(XY(), Rows()), "y", 1) == Ok(Some(25.0))
    ensures Get(Ingest(YX(), Rows()), "x", 1) == Ok(Some(25.0))
    ensures Get(Ingest(YX(), Rows()), "y", 1) == Ok(Some(20.0))
  {
    IngestRowPositional(XY(), Rows(), 1, 0);
    IngestRowPositional(XY(), Rows(), 1, 1);
    IngestRowPositional(YX(), Rows(), 1, 0);
    IngestRowPositional(YX(), Rows(), 1, 1);
  }

  /** A record item's extra fields are its overlay; a bare item's overlay answers null. */
  lemma DataWithOption1d()
    ensures var s := Ingest(XY(), Items([Num(1.0), Record(Single(Number(2.0)), map["somProp" := Text("foo")])]));
      WellFormed(s)
      && GetItemModel(s, 1).Ok? && GetItemModel(s, 1).value.Get("somProp") == Some(Text("foo"))
      && GetItemModel(s, 0).Ok? && GetItemModel(s, 0).value.Get("somProp") == None
  {
  }

  /** The placeholder `'-'` is stored as the missing value. */
  lemma EmptyData()
    ensures WellFormed(Ingest(XY(), Items([Num(1.0), Plain(Single(Placeholder))])))
    ensures Get(Ingest(XY(), Items([Num(1.0), Plain(Single(Placeholder))])), "y", 1) == Ok(None)
  {
    IngestScalarEveryDimension(XY(), Items([Num(1.0), Plain(Single(Placeholder))]), 1, 1);
  }

  /** The item view's `option` is the raw item as supplied, scalar or row. */
  lemma GetRawValue()
    ensures var s := Ingest(XY(), Items([Num(1.0), Num(2.0), Num(3.0)]));
      WellFormed(s) && GetItemModel(s, 1) == Ok(ItemModel(Num(2.0)))
    ensures WellFormed(Ingest(XY(), Rows()))
      && GetItemModel(Ingest(XY(), Rows()), 1) == Ok(ItemModel(Pair(20.0, 25.0)))
  {
  }

  function Ints(n: nat): seq<RawItem> {
    seq(n, i requires 0 <= i => Num(i as real))
  }

  /** `filterSelf(idx => idx >= 2)`: keeps the items from active index 2 on. */
  function FromTwo(): ItemPredicate {
    (row: seq<Option<real>>, idx: nat) => idx >= 2
  }

  /** `indexOfRawIndex` on freshly ingested lists of 0, 1, 4 and 5 items. */
  lemma IndexOfRawIndexAfterInit()
    ensures ActiveIndexOf(Ingest([Dim("x", Float)], Items([])).indices, 1) == -1
    ensures ActiveIndexOf(Ingest([Dim("x", Float)], Items(Ints(1))).indices, 0) == 0
    ensures ActiveIndexOf(Ingest([Dim("x", Float)], Items(Ints(1))).indices, 1) == -1
    ensures ActiveIndexOf(Ingest([Dim("x", Float)], Items(Ints(4))).indices, 1) == 1
    ensures ActiveIndexOf(Ingest([Dim("x", Float)], Items(Ints(4))).indices, 2) == 2
    ensures ActiveIndexOf(Ingest([Dim("x", Float)], Items(Ints(4))).indices, 5) == -1
    ensures ActiveIndexOf(Ingest([Dim("x", Float)], Items(Ints(5))).indices, 2) == 2
    ensures ActiveIndexOf(Ingest([Dim("x", Float)], Items(Ints(5))).indices, 3) == 3
    ensures ActiveIndexOf(Ingest([Dim("x", Float)], Items(Ints(5))).indices, 5) == -1
  {
    var dims := [Dim("x", Float)];
    IndexOfRawIndexAfterIngest(dims, Items([]), 1);
    IndexOfRawIndexAfterIngest(dims, Items(Ints(1)), 0);
    IndexOfRawIndexAfterIngest(dims, Items(Ints(1)), 1);
    IndexOfRawIndexAfterIngest(dims, Items(Ints(4)), 1);
    IndexOfRawIndexAfterIngest(dims, Items(Ints(4)), 2);
    IndexOfRawIndexAfterIngest(dims, Items(Ints(4)), 5);
    IndexOfRawIndexAfterIngest(dims, Items(Ints(5)), 2);
    IndexOfRawIndexAfterIngest(dims, Items(Ints(5)), 3);
    IndexOfRawIndexAfterIngest(dims, Items(Ints(5)), 5);
  }

  /** After `filterSelf(idx => idx >= 2)` on five items, raw index 2 is active index 0. */
  lemma IndexOfRawIndexFilteredCase()
    ensures WellFormed(Ingest([Dim("x", Float)], Items(Ints(5))))
    ensures ActiveIndexOf(FilterStore(Ingest([Dim("x", Float)], Items(Ints(5))), [], FromTwo()).indices, 2) == 0
  {
    var s := Ingest([Dim("x", Float)], Items(Ints(5)));
    assert s.indices == [0, 1, 2, 3, 4];
    KeptFromTwo(s);
    ActiveIndexOfPosition([2, 3, 4], 0);
  }

  lemma KeptFromTwo(s: Store)
    requires WellFormed(s) && s.indices == [0, 1, 2, 3, 4]
    ensures Kept(s, [], FromTwo(), 5) == [2, 3, 4]
  {
    assert Kept(s, [], FromTwo(), 1) == [];
    assert Kept(s, [], FromTwo(), 2) == [];
    assert Kept(s, [], FromTwo(), 3) == [2];
    assert Kept(s, [], FromTwo(), 4) == [2, 3];
  }

  /** The extent of `[1, 2, 3]` is `[1, 3]` on both dimensions. */
  lemma GetDataExtentCase()
    ensures WellFormed(Ingest(XY(), Items([Num(1.0), Num(2.0), Num(3.0)])))
    ensures IsExtent(ActiveValues(Ingest(XY(), Items([Num(1.0), Num(2.0), Num(3.0)])), 0), Extent(1.0, 3.0))
    ensures IsExtent(ActiveValues(Ingest(XY(), Items([Num(1.0), Num(2.0), Num(3.0)])), 1), Extent(1.0, 3.0))
  {
    var s := Ingest(XY(), Items([Num(1.0), Num(2.0), Num(3.0)]));
    assert ActiveValues(s, 0) == [Some(1.0), Some(2.0), Some(3.0)];
    assert ActiveValues(s, 1) == [Some(1.0), Some(2.0), Some(3.0)];
    ExtentOfOneTwoThree(ActiveValues(s, 0));
    ExtentOfOneTwoThree(ActiveValues(s, 1));
  }

  lemma ExtentOfOneTwoThree(vals: seq<Option<real>>)
    requires vals == [Some(1.0), Some(2.0), Some(3.0)]
    ensures IsExtent(vals, Extent(1.0, 3.0))
  {
    assert vals[0] == Some(1.0) && vals[2] == Some(3.0);
  }

  /** An `int` dimension drops the fraction of 1.1; a `float` dimension keeps it. */
  lemma DataTypes()
    ensures var s := Ingest(ResolveDecls([Typed("x", Int), Typed("y", Float)]), Items([Pair(1.1, 1.1)]));
      WellFormed(s) && Get(s, "x", 0) == Ok(Some(1.0)) && Get(s, "y", 0) == Ok(Some(1.1))
  {
    var dims := ResolveDecls([Typed("x", Int), Typed("y", Float)]);
    IngestRowPositional(dims, Items([Pair(1.1, 1.1)]), 0, 0);
    IngestRowPositional(dims, Items([Pair(1.1, 1.1)]), 0, 1);
  }

  /** Adds a constant to each value; the missing value stays missing. */
  function AddEach(c: real): ItemMapper {
    (row: seq<Option<real>>, idx: nat) =>
      seq(|row|, k requires 0 <= k < |row| => if row[k].Some? then Some(row[k].value + c) else None)
  }

  /** The three rows `[10, 15], [20, 25], [30, 35]` land in the columns x and y, all active. */
  lemma RowsIngested()
    ensures WellFormed(Ingest(XY(), Rows()))
    ensures Ingest(XY(), Rows()).dims == XY() && Ingest(XY(), Rows()).indices == [0, 1, 2]
    ensures Ingest(XY(), Rows()).columns[0] == [Some(10.0), Some(20.0), Some(30.0)]
    ensures Ingest(XY(), Rows()).columns[1] == [Some(15.0), Some(25.0), Some(35.0)]
  {
  }

  /** `map(['x', 'y'], (x, y) => [x + 2, y + 2])` followed by `mapArray('x', x => x)`. */
  lemma MapCase()
    ensures WellFormed(Ingest(XY(), Rows()))
    ensures WellFormed(MapStore(Ingest(XY(), Rows()), [0, 1], AddEach(2.0)))
    ensures ActiveValues(MapStore(Ingest(XY(), Rows()), [0, 1], AddEach(2.0)), 0) == [Some(12.0), Some(22.0), Some(32.0)]
  {
    RowsIngested();
    MapAddsTwo(Ingest(XY(), Rows()));
  }

  lemma MapAddsTwo(s: Store)
    requires WellFormed(s) && |s.dims| == 2 && s.dims[0].dimType == Float && s.indices == [0, 1, 2]
    requires s.columns[0] == [Some(10.0), Some(20.0), Some(30.0)]
    ensures ActiveValues(MapStore(s, [0, 1], AddEach(2.0)), 0) == [Some(12.0), Some(22.0), Some(32.0)]
  {
    var m := MapStore(s, [0, 1], AddEach(2.0));
    MappedUpToActive(s, [0, 1], AddEach(2.0), 3, 0, 0);
    MappedUpToActive(s, [0, 1], AddEach(2.0), 3, 1, 0);
    MappedUpToActive(s, [0, 1], AddEach(2.0), 3, 2, 0);
    assert m.columns[0][0] == Some(12.0);
    assert m.columns[0][1] == Some(22.0);
    assert m.columns[0][2] == Some(32.0);
  }

  /** `mapArray(['x', 'y'], (x, y) => [x, y])` gives back the rows in order. */
  lemma MapArrayCase()
    ensures WellFormed(Ingest(XY(), Rows()))
    ensures Count(Ingest(XY(), Rows())) == 3
    ensures RowAt(Ingest(XY(), Rows()), [0, 1], 0) == [Some(10.0), Some(15.0)]
    ensures RowAt(Ingest(XY(), Rows()), [0, 1], 1) == [Some(20.0), Some(25.0)]
    ensures RowAt(Ingest(XY(), Rows()), [0, 1], 2) == [Some(30.0), Some(35.0)]
  {
  }

  /** Keeps items whose x lies strictly between 10 and 30. */
  function Between10And30(): ItemPredicate {
    (row: seq<Option<real>>, idx: nat) =>
      |row| > 0 && row[0].Some? && row[0].value < 30.0 && row[0].value > 10.0
  }

  /** `filterSelf(['x', 'y'], (x, y) => x < 30 && x > 10)` then `mapArray('x', x => x)` gives `[20]`. */
  lemma FilterSelfCase()
    ensures WellFormed(Ingest(XY(), Rows()))
    ensures ActiveValues(FilterStore(Ingest(XY(), Rows()), [0, 1], Between10And30()), 0) == [Some(20.0)]
  {
    RowsIngested();
    KeptBetween10And30(Ingest(XY(), Rows()));
  }

  lemma KeptBetween10And30(s: Store)
    requires WellFormed(s) && |s.dims| == 2 && s.indices == [0, 1, 2]
    requires s.columns[0] == [Some(10.0), Some(20.0), Some(30.0)]
    ensures ActiveValues(FilterStore(s, [0, 1], Between10And30()), 0) == [Some(20.0)]
  {
    assert RowAt(s, [0, 1], 0)[0] == Some(10.0);
    assert RowAt(s, [0, 1], 1)[0] == Some(20.0);
    assert RowAt(s, [0, 1], 2)[0] == Some(30.0);
    assert Kept(s, [0, 1], Between10And30(), 1) == [];
    assert Kept(s, [0, 1], Between10And30(), 2) == [1];
    assert Kept(s, [0, 1], Between10And30(), 3) == [1];
  }

  /** A provider over the interleaved numbers `[10, 10, 20, 20]` with `count() == 2`. */
  function Interleaved(): DataInput {
    var buf := [10.0, 10.0, 20.0, 20.0];
    Provider(2, (idx: nat) =>
      if 2 * idx + 1 < |buf| then Pair(buf[2 * idx], buf[2 * idx + 1]) else Plain(Row([])))
  }

  /** Provider input: the rows read back in order, and raw item 0 is returned as supplied. */
  lemma DataProviderCase()
    ensures WellFormed(Ingest(XY(), Interleaved()))
    ensures Count(Ingest(XY(), Interleaved())) == 2
    ensures RowAt(Ingest(XY(), Interleaved()), [0, 1], 0) == [Some(10.0), Some(10.0)]
    ensures RowAt(Ingest(XY(), Interleaved()), [0, 1], 1) == [Some(20.0), Some(20.0)]
    ensures GetRawDataItem(Ingest(XY(), Interleaved()), 0) == Ok(Pair(10.0, 10.0))
    ensures GetItemModel(Ingest(XY(), Interleaved()), 0) == Ok(ItemModel(Pair(10.0, 10.0)))
  {
  }

  /** The values of the nearest-search test, by index 0..7. */
  function Sample(): seq<Option<real>> {
    [Some(10.0), Some(20.0), Some(30.0), Some(35.0), Some(40.0), Some(40.0), Some(35.0), Some(50.0)]
  }

  lemma SampleIngested()
    ensures WellFormed(Ingest([Dim("value", Float)], Items([Num(10.0), Num(20.0), Num(30.0), Num(35.0), Num(40.0), Num(40.0), Num(35.0), Num(50.0)])))
    ensures ActiveValues(Ingest([Dim("value", Float)], Items([Num(10.0), Num(20.0), Num(30.0), Num(35.0), Num(40.0), Num(40.0), Num(35.0), Num(50.0)])), 0) == Sample()
  {
  }

  /** No qualifying x is preferred to best. */
  predicate Unbeaten(target: real, maxDistance: Option<real>, x: real, best: real) {
    Qualifies(Some(x), target, maxDistance) ==> !Beats(target, x, best)
  }

  /** Establishes that `best`, held at position w, is the nearest value of Sample(). */
  lemma SampleBest(target: real, maxDistance: Option<real>, best: real, w: nat)
    requires w < 8 && Sample()[w] == Some(best) && Qualifies(Some(best), target, maxDistance)
    requires Unbeaten(target, maxDistance, 10.0, best) && Unbeaten(target, maxDistance, 20.0, best)
    requires Unbeaten(target, maxDistance, 30.0, best) && Unbeaten(target, maxDistance, 35.0, best)
    requires Unbeaten(target, maxDistance, 40.0, best) && Unbeaten(target, maxDistance, 50.0, best)
    ensures NearestIndices(Sample(), target, maxDistance) == IndicesOf(Sample(), best, 8)
  {
    var v := Sample();
    forall j | 0 <= j < 8 && Qualifies(v[j], target, maxDistance)
      ensures !Beats(target, v[j].value, best)
    {
      assert j == 0 || j == 1 || j == 2 || j == 3 || j == 4 || j == 5 || j == 6 || j == 7;
    }
    NearestIsIndicesOfBest(v, target, maxDistance, best, 8);
  }

  lemma SamplePositionsOfTwenty()
    ensures IndicesOf(Sample(), 20.0, 8) == [1]
  {
    var v := Sample();
    assert IndicesOf(v, 20.0, 1) == [];
    assert IndicesOf(v, 20.0, 2) == [1];
    assert IndicesOf(v, 20.0, 3) == [1];
    assert IndicesOf(v, 20.0, 4) == [1];
    assert IndicesOf(v, 20.0, 5) == [1];
    assert IndicesOf(v, 20.0, 6) == [1];
    assert IndicesOf(v, 20.0, 7) == [1];
  }

  lemma SamplePositionsOfThirty()
    ensures IndicesOf(Sample(), 30.0, 8) == [2]
  {
    var v := Sample();
    assert IndicesOf(v, 30.0, 1) == [];
    assert IndicesOf(v, 30.0, 2) == [];
    assert IndicesOf(v, 30.0, 3) == [2];
    assert IndicesOf(v, 30.0, 4) == [2];
    assert IndicesOf(v, 30.0, 5) == [2];
    assert IndicesOf(v, 30.0, 6) == [2];
    assert IndicesOf(v, 30.0, 7) == [2];
  }

  lemma SamplePositionsOfForty()
    ensures IndicesOf(Sample(), 40.0, 8) == [4, 5]
  {
    var v := Sample();
    assert IndicesOf(v, 40.0, 1) == [];
    assert IndicesOf(v, 40.0, 2) == [];
    assert IndicesOf(v, 40.0, 3) == [];
    assert IndicesOf(v, 40.0, 4) == [];
    assert IndicesOf(v, 40.0, 5) == [4];
    assert IndicesOf(v, 40.0, 6) == [4, 5];
    assert IndicesOf(v, 40.0, 7) == [4, 5];
  }

  lemma SamplePositionsOfThirtyFive()
    ensures IndicesOf(Sample(), 35.0, 8) == [3, 6]
  {
    var v := Sample();
    assert IndicesOf(v, 35.0, 1) == [];
    assert IndicesOf(v, 35.0, 2) == [];
    assert IndicesOf(v, 35.0, 3) == [];
    assert IndicesOf(v, 35.0, 4) == [3];
    assert IndicesOf(v, 35.0, 5) == [3];
    assert IndicesOf(v, 35.0, 6) == [3];
    assert IndicesOf(v, 35.0, 7) == [3, 6];
  }

  lemma SamplePositionsOfFifty()
    ensures IndicesOf(Sample(), 50.0, 8) == [7]
  {
    var v := Sample();
    assert IndicesOf(v, 50.0, 1) == [];
    assert IndicesOf(v, 50.0, 2) == [];
    assert IndicesOf(v, 50.0, 3) == [];
    assert IndicesOf(v, 50.0, 4) == [];
    assert IndicesOf(v, 50.0, 5) == [];
    assert IndicesOf(v, 50.0, 6) == [];
    assert IndicesOf(v, 50.0, 7) == [];
  }

  /** Two different values equally near the target: the one not above it wins. */
  lemma NearestTieBelowWins()
    ensures NearestIndices(Sample(), 24.5, None) == [1]
    ensures NearestIndices(Sample(), 25.0, None) == [1]
  {
    SampleBest(24.5, None, 20.0, 1);
    SampleBest(25.0, None, 20.0, 1);
    SamplePositionsOfTwenty();
  }

  /** Past the midpoint the value above becomes the nearest. */
  lemma NearestPastMidpoint()
    ensures NearestIndices(Sample(), 25.5, None) == [2]
  {
    SampleBest(25.5, None, 30.0, 2);
    SamplePositionsOfThirty();
  }

  /** Equal nearest values at several indices are all returned, ascending. */
  lemma NearestEqualValues()
    ensures NearestIndices(Sample(), 41.0, None) == [4, 5]
  {
    SampleBest(41.0, None, 40.0, 4);
    SamplePositionsOfForty();
  }

  /** Approached from below, the same two indices are returned. */
  lemma NearestEqualValuesFromBelow()
    ensures NearestIndices(Sample(), 39.0, None) == [4, 5]
  {
    SampleBest(39.0, None, 40.0, 4);
    SamplePositionsOfForty();
  }

  /** The same holds for two equal values far apart. */
  lemma NearestEqualValuesApart()
    ensures NearestIndices(Sample(), 36.0, None) == [3, 6]
  {
    SampleBest(36.0, None, 35.0, 3);
    SamplePositionsOfThirtyFive();
  }

  /** The distance bound is inclusive: 50 lies exactly 0.5 from 50.5. */
  lemma NearestWithinBound()
    ensures NearestIndices(Sample(), 50.5, Some(0.5)) == [7]
  {
    SampleBest(50.5, Some(0.5), 50.0, 7);
    SamplePositionsOfFifty();
  }

  /** With nothing within the bound the answer is empty; no farther value is taken instead. */
  lemma NearestOutsideBound()
    ensures NearestIndices(Sample(), 50.6, Some(0.5)) == []
  {
    var v := Sample();
    assert v == [Some(10.0), Some(20.0), Some(30.0), Some(35.0), Some(40.0), Some(40.0), Some(35.0), Some(50.0)];
    forall j | 0 <= j < |v|
      ensures !Qualifies(v[j], 50.6, Some(0.5))
    {
      assert v[j].value <= 50.0;
    }
    NearestNoneQualify(v, 50.6, Some(0.5), |v|);
  }
}
