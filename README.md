# echarts `List` — a verified model of the columnar dataset

The echarts `List` stores one series' data column by column. A list is built with its
dimensions: a bare name is a `float` dimension, and a `{name, type}` declaration can also
make it `int`. `initData` then ingests the raw items. These may be a flat array of scalars, an
array of rows, record items `{value, ...extra fields}`, or a provider object answering
`count()` and `getItem(i)`. Every dimension receives one coerced value per raw item:

- A scalar item feeds every dimension.
- A row feeds its k-th cell to the k-th declared dimension.
- The placeholder `'-'` becomes the missing value.
- An `int` dimension truncates toward zero.

Reads go through the *index map*, the ascending list of raw indices that are still active:

- `get(dim, i)`, `getRawDataItem(i)` and `getItemModel(i)` read active item `i`. The item
  view's `option` is the raw item, and `get(key)` gives a record's extra field, or null.
- `indexOfRawIndex(r)` maps a raw index back to its active index, or gives -1.
- `filterSelf` narrows the index map in place and returns the same list.
- `map` builds a new list whose named dimensions hold the callback's results.
- `mapArray` collects the callback's results.
- `getDataExtent` gives the minimum and maximum of a dimension.
- `indicesOfNearest` gives every active index holding the value nearest to a target. At an
  exact tie, the value at or below the target wins. An optional bound on the distance is
  inclusive.

The model is organised as follows:

- `Wrappers` holds `Option`, `Result` and the two error kinds:
  - an unknown dimension name;
  - an item index out of range.
- `Dimensions` resolves dimension declarations and looks names up.
- `RawData` models the raw item shapes, the input forms, scalar coercion and the item view.
- `ListModel` is the specification. It is a `Store` value (dimensions, columns, raw items, index
  map) with pure functions for each operation and lemmas about them.
- `Nearest` is the reference semantics of the nearest-value search: a preference order,
  `Beats`, with proofs that it is transitive and total. It also holds the scan
  `ScanNearest`, proved equal to that semantics.
- `DataList` is the mutable `List` class. Its fields are the columns, the raw items and the
  index map.
  - `InitData` and `FilterSelf` update them in place, under `modifies this`.
  - `Map` fills a fresh clone.
  - `IndexOfRawIndex` (fast path and bisection) is proved equal to the linear
    `ListModel.ActiveIndexOf` of the current index map.
  - `MapArray` is proved to return the callback applied to `ListModel.RowAt` of each active
    item, in order.
  - `GetDataExtent` is proved to return a value satisfying the predicate `ListModel.IsExtent`
    over the dimension's active values.
  - `IndicesOfNearest` is proved equal to `Nearest.NearestIndices` over the dimension's active
    values.
  - `get`, `getRawDataItem` and `getItemModel` are stated once, on the store value, as
    `ListModel.Get`, `ListModel.GetRawDataItem` and `ListModel.GetItemModel`.
- `ListScenarios` states the documented example behaviours as lemmas over the specification.

## Model

| member | source | states |
|---|---|---|
| Dimensions.ResolveDecls | test/ut/spec/data/List.test.ts:119-126 | the schema keeps the declaration order and names; a bare name is a float dimension, a typed declaration keeps its type |
| Dimensions.DimIndex | test/ut/spec/data/List.test.ts:34-37 | a name resolves to the first dimension carrying it, and to nothing exactly when no dimension carries it |
| Dimensions.ResolveNames | test/ut/spec/data/List.test.ts:145-147 | a list of dimension names resolves position by position, and fails exactly when one name is unknown, reporting that name |
| RawData.RawItemsOf | test/ut/spec/data/List.test.ts:164-174 | a provider yields `count()` items, the i-th being `getItem(i)`; an array yields its own elements |
| RawData.Trunc | test/ut/spec/data/List.test.ts:127-128 | truncation toward zero: the result is the integer part of the input, for both signs |
| RawData.ParseScalar | test/ut/spec/data/List.test.ts:66-67 | the `'-'` placeholder, and only it, becomes the missing value; a number is kept |
| RawData.Coerce | test/ut/spec/data/List.test.ts:119-130 | a float dimension stores the value unchanged; an int dimension stores an integral value truncated toward zero; missing stays missing |
| RawData.ItemModel.Get | test/ut/spec/data/List.test.ts:54-62 | an item view answers a key exactly when the item is a record carrying that field, with that field's value; otherwise null |
| ListModel.IngestWellFormed | test/ut/spec/data/List.test.ts:31-33 | ingestion yields one column per dimension, each as long as the raw data, and the identity index map over all raw items |
| ListModel.IngestScalarEveryDimension | test/ut/spec/data/List.test.ts:31-38 | a scalar item's value is what every dimension holds for that item, after coercion to the dimension's type |
| ListModel.IngestRowPositional | test/ut/spec/data/List.test.ts:40-52 | a row's k-th cell is what the k-th declared dimension holds, whatever the dimension's name; a short row leaves the rest missing |
| ListModel.Get | test/ut/spec/data/List.test.ts:34-37 | `get(dim, i)` is the dimension's value for the raw item at active index i; an unknown name or an index outside the active items is an error |
| ListModel.GetRawDataItem | test/ut/spec/data/List.test.ts:178 | the raw item behind active index i, as supplied; an error outside the active items |
| ListModel.GetItemModel | test/ut/spec/data/List.test.ts:78-81 | the item view of active index i carries the raw item behind it as its option |
| ListModel.ActiveValues | test/ut/spec/data/List.test.ts:112-117 | the values of one dimension in active order, one per active item |
| ListModel.RowAt | test/ut/spec/data/List.test.ts:145-147 | the values an item offers a callback are the named dimensions' values for its raw item, in the order named |
| ListModel.ActiveIndexOf | test/ut/spec/data/List.test.ts:84-104 | `indexOfRawIndex(r)`: the active index holding raw index r, or -1 exactly when no active index holds it |
| ListModel.ActiveIndexOfPosition | test/ut/spec/data/List.test.ts:100-109 | in an ascending index map, looking up the raw index stored at position k gives back k |
| ListModel.IndexOfRawIndexAfterIngest | test/ut/spec/data/List.test.ts:84-104 | right after ingesting n items, raw index r maps to r when r < n and to -1 otherwise, including when n is 0 |
| ListModel.RawItemRoundTrip | test/ut/spec/data/List.test.ts:84-104 | an active raw index, mapped to its active index and read back, gives its own raw item |
| ListModel.FilterStore | test/ut/spec/data/List.test.ts:106-109 | a filter changes only the index map, keeps it ascending and within the raw data, and never lengthens it |
| ListModel.KeptMembership | test/ut/spec/data/List.test.ts:150-158 | a raw index survives the filter exactly when it was active and the predicate held for that item |
| ListModel.KeptOrdered | test/ut/spec/data/List.test.ts:150-158 | the surviving raw indices keep their relative order and are strictly ascending |
| ListModel.KeptAll | test/ut/spec/data/List.test.ts:150-158 | a predicate that keeps every item leaves the index map as it was |
| ListModel.IndexOfRawIndexAfterFilter | test/ut/spec/data/List.test.ts:106-109 | after a filter, a raw index maps to an active index exactly when it was active and kept, and that active index holds it |
| ListModel.FilterIdempotent | test/ut/spec/data/List.test.ts:150-158 | filtering twice with the same value predicate is the same as filtering once |
| ListModel.MapStore | test/ut/spec/data/List.test.ts:132-140 | a mapped store keeps the schema, raw items and index map of its source |
| ListModel.MapStoreSpec | test/ut/spec/data/List.test.ts:132-140 | after a map, each active item's named dimensions hold the callback's results for that item; other dimensions, and inactive raw items, keep their values |
| ListModel.ExtentUnique | test/ut/spec/data/List.test.ts:112-117 | the extent of a column is unique: the minimum and maximum present values, or none when no value is present |
| Nearest.BeatsTotal | test/ut/spec/data/List.test.ts:189-196 | of two different values one is always preferred, so the nearest value is unique |
| Nearest.NearestUpTo | test/ut/spec/data/List.test.ts:184-200 | the answer lists, in ascending order, only indices whose value qualifies and is not beaten by any qualifying value |
| Nearest.NearestIsIndicesOfBest | test/ut/spec/data/List.test.ts:193-196 | the answer is exactly the list of positions holding the nearest value |
| Nearest.NearestComplete | test/ut/spec/data/List.test.ts:193-196 | an index is in the answer exactly when it holds a qualifying value that no qualifying value beats: no position of the nearest value is missed |
| Nearest.NearestNoneQualify | test/ut/spec/data/List.test.ts:198 | when no value lies within the bound, the answer is empty: there is no fallback to a farther value |
| Nearest.NearestSingleValue | test/ut/spec/data/List.test.ts:193-196 | all returned indices hold one and the same present value within the bound |
| Nearest.PreferenceTest | test/ut/spec/data/List.test.ts:189-191 | the scan's test, "strictly nearer, or equally near with the candidate at or below the target and the best so far above it", is exactly the preference order |
| Nearest.IndicesOf | test/ut/spec/data/List.test.ts:193-196 | the positions listed hold exactly the given value |
| Nearest.ScanNearest | test/ut/spec/data/List.test.ts:184-200 | the single pass that tracks the best distance and signed difference returns exactly the reference answer |
| DataList.List.constructor | test/ut/spec/data/List.test.ts:119-126 | a new list has the resolved schema, one empty column per dimension, no raw items and an empty index map |
| DataList.List.InitData | test/ut/spec/data/List.test.ts:31-52 | ingesting into a fresh list leaves it holding exactly the specified store: coerced columns, the raw items and the identity index map |
| DataList.List.IndexOfRawIndex | test/ut/spec/data/List.test.ts:84-110 | the fast path plus bisection over the ascending index map returns the active index holding the raw index, and -1 exactly when none does |
| DataList.List.FilterSelf | test/ut/spec/data/List.test.ts:106-109 | filtering in place replaces only the index map with the predicate's survivors and returns the same list; an unknown name changes nothing |
| DataList.List.MapArray | test/ut/spec/data/List.test.ts:142-148 | one result per active item, in active order, each the callback applied to that item's named values and its index |
| DataList.List.Map | test/ut/spec/data/List.test.ts:132-140 | a fresh list holding the mapped store; the source list is not modified |
| DataList.List.GetDataExtent | test/ut/spec/data/List.test.ts:112-117 | the minimum and maximum of the present active values of the dimension, or no extent when there are none |
| DataList.List.IndicesOfNearest | test/ut/spec/data/List.test.ts:184-200 | the nearest indices on the named dimension's active values, with the tie rule and the inclusive bound; an unknown name is an error |
| ListScenarios.InitData1d | test/ut/spec/data/List.test.ts:31-38 | flat scalars 10, 20, 30 feed both x and y |
| ListScenarios.InitData2dOrder | test/ut/spec/data/List.test.ts:40-52 | rows feed dimensions by declaration position, so swapping the declared order swaps x and y |
| ListScenarios.DataWithOption1d | test/ut/spec/data/List.test.ts:54-62 | a record's extra field is read through its item view; a bare item answers null |
| ListScenarios.EmptyData | test/ut/spec/data/List.test.ts:64-68 | `'-'` reads back as the missing value |
| ListScenarios.GetRawValue | test/ut/spec/data/List.test.ts:70-82 | the item view's option is the supplied scalar or row |
| ListScenarios.IndexOfRawIndexAfterInit | test/ut/spec/data/List.test.ts:84-104 | the expected answers on lists of 0, 1, 4 and 5 items |
| ListScenarios.IndexOfRawIndexFilteredCase | test/ut/spec/data/List.test.ts:100-109 | after keeping the indices from 2 on, raw index 2 is active index 0 |
| ListScenarios.GetDataExtentCase | test/ut/spec/data/List.test.ts:112-117 | the extent of both dimensions over 1, 2, 3 is [1, 3] |
| ListScenarios.DataTypes | test/ut/spec/data/List.test.ts:119-130 | 1.1 reads back as 1 from an int dimension and as 1.1 from a float dimension |
| ListScenarios.MapCase | test/ut/spec/data/List.test.ts:132-140 | adding 2 to each value maps x to 12, 22, 32 |
| ListScenarios.MapArrayCase | test/ut/spec/data/List.test.ts:142-148 | the rows offered to the callback are the ingested rows |
| ListScenarios.FilterSelfCase | test/ut/spec/data/List.test.ts:150-158 | keeping 10 < x < 30 leaves x equal to [20] |
| ListScenarios.DataProviderCase | test/ut/spec/data/List.test.ts:160-180 | a provider over 10, 10, 20, 20 yields the rows [10, 10] and [20, 20], and its first raw item |
| ListScenarios.NearestTieBelowWins | test/ut/spec/data/List.test.ts:189-190 | near 24.5 and at the exact midpoint 25, the nearest index is [1], holding 20 |
| ListScenarios.NearestPastMidpoint | test/ut/spec/data/List.test.ts:191-192 | past the midpoint, at 25.5, the nearest index is [2], holding 30 |
| ListScenarios.NearestEqualValues | test/ut/spec/data/List.test.ts:193 | near 41, both positions holding 40 are returned |
| ListScenarios.NearestEqualValuesFromBelow | test/ut/spec/data/List.test.ts:194 | near 39, both positions holding 40 are returned |
| ListScenarios.NearestEqualValuesApart | test/ut/spec/data/List.test.ts:196 | near 36, the two non-adjacent positions holding 35 are returned |
| ListScenarios.NearestWithinBound | test/ut/spec/data/List.test.ts:199 | the bound is inclusive: with bound 0.5, 50.5 finds [7], holding 50 |
| ListScenarios.NearestOutsideBound | test/ut/spec/data/List.test.ts:198 | with bound 0.5, 50.6 finds nothing, although 50 is the nearest value |

## Left out

- List.ts, Source.ts and Model.ts are not part of this model. The behaviour is stated from the
  documented examples of the list and the documented contracts of the dataset.
- Errors are results, not NaN. `get` with an unknown dimension or an out-of-range index gives
  `UnknownDimension` or `OutOfRange`, where echarts returns NaN or undefined.
- Missing values are absent, not NaN. The missing value is `None`, and every query skips or
  reports it.
- Numbers are exact reals. Float32 storage and IEEE rounding are not modelled, and neither is
  NaN, so the `toBeCloseTo(1.1, 5)` comparison becomes an exact equality.
- Int columns are not 32-bit. Their wrap-around, and the storage of a missing value as 0 in an
  Int32 array, are not modelled, because the storage code is not part of this model.
- Only numbers and `'-'` are scalars. Numeric strings, `null` and `undefined` items are not
  modelled.
- `Model` is reduced to the item view. The host series model, and an item view's fallback to
  its parent model, are not modelled. `ItemModel.Get` reads only the record's own fields.
- RawData.ItemModel.Get: does not model `get('value')` on an item view, which echarts answers
  from the record's `value` property. A record here keeps its payload apart from its extra
  fields, and nothing stops the field map from also carrying a key "value".
- Provider `getSource()` and `createSourceFromSeriesDataOption` are not modelled. A provider is
  its `count` and a total `getItem` function.
- Storage internals are not modelled: chunked storage and the chunk counter, appending data
  to a list that already holds some, and the extent cache.
- DataList.List.InitData: requires a fresh list (no raw items yet), since a second
  `initData` on the same list accumulates chunk state that is not modelled.
- Callbacks are total functions. They are given the named dimensions' values plus the active
  index, and cannot see `this` or have side effects. A single dimension name passed as a
  string is modelled as a one-element list of names.
- ListModel.FilterIdempotent: holds only for predicates that ignore the item index. A
  predicate on the index, such as "index at least 2", sees new indices on the second pass.
- ListModel.MapStoreSpec: is proved only when the named dimensions are distinct. With
  repeated names, `MapStore` still computes the last write, but no lemma describes it.
- The class keeps no dimension-info map, no name list for visual encodings and no other
  series state beyond the columns, the raw items and the index map.
