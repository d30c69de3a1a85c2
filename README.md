# Riparian lotic-water preparation: the chunked spatial join and its filters

This project models in Dafny the row bookkeeping of `create_lotic_water.py`.
That script prepares water layers for a riparian model. It models four pieces:

- the lotic/reservoir and estuarine/marine attribute filters applied to each county's `water` layer;
- the county loops that collect only non-empty county tables, and the merge (`pd.concat`) of those tables;
- `sjoin_mp`, which cuts the left table into six contiguous row ranges, joins each range against the whole right table with `sjoin` (inner join, `drop_duplicates`, column projection) and concatenates the results in submission order;
- the two filters built on that join: `remove_disconnected_features` keeps the water polygons that intersect the stream network, and `clean_facet` keeps the stream segments that intersect another segment.

Tables are sequences of rows. Geometries are an abstract type `G`. The geometry
predicate (`intersects`) is a function parameter `(G, G) -> bool` that the
model knows nothing about; it is not even assumed to be symmetric. A row's
acreage (area ÷ 4046.86) is a function parameter `acresOf: G -> real`.

Files and modules:

- `seqs.dfy` (`Seqs`): boolean-mask selection `Select`, `drop_duplicates` as `Dedupe`, column projection `Project`, and `pd.concat` as `ConcatAll`, with their algebra (append and extensionality lemmas).
- `spatial_join.dfy` (`SpatialJoin`): the join rows, `sjoin` as `SJoin`, the six chunks, the `BuildChunks` loop, `SJoinMp`, and the partition-independence theorems.
- `loaders.dfy` (`Wrappers`, `Loaders`): the county loaders, the county loop `CollectNonEmpty` and `Merge`.
- `connectivity.dfy` (`Connectivity`): `RemoveDisconnectedFeatures` and `CleanFacet`, each proved equal to an independent reference selection.
- `pipeline.dfy` (`Pipeline`): `run_estuary` and `run_lotic` without their file I/O.

How the source's columns are represented:

- A join output row is `Match(left, indexRight, right)`. It holds the left row, gpd's `index_right` column and the right row's own columns.
- `drop_duplicates` compares whole `Match` rows. `IsMatch` is the predicate that says which rows the join must report.
- The `cols` argument is modelled as the projection it selects. `IdColumn` models `['id']`. `IdPair` models `['id_left', 'id_right']` of the self-join.
- The predicate named by `sjoin_op` is the function `hits`, applied to a left geometry and a right row.

Three behaviours of the code worth knowing:

- The batch size is `int(n / 6) + 1`. This is the ceiling of `n / 6` except when 6 divides `n`, where it is one more (`BatchSize`, `BatchSizeVersusCeiling`). For `n = 6k` with `k >= 5`, the first five chunks hold `k + 1` rows and the last holds `k - 5`, so no chunk is empty once `k >= 6` (`MultipleOfSixChunks`). For `n = 6k` with `k <= 5` the trailing chunks are empty: six rows give three chunks of two rows and three empty chunks (`SixRowsLeaveThreeEmptyChunks`). Small tables leave trailing empty chunks whether or not 6 divides `n`: seven rows give chunks of 2, 2, 2, 1, 0 and 0 rows.
- `index_right` is kept until the projection. So `drop_duplicates` does not merge the several matches of one left row. The `['id']` projection can therefore repeat an id, once per matching network line. Only id membership is used downstream, and that is what `SJoinIds` characterises.
- `Match.right` carries the whole right row, its geometry included, although `gpd.sjoin` drops the right geometry from its output. For the network join, where the right row is a bare geometry, `right` therefore holds nothing the real output row has. This changes nothing for `drop_duplicates`: `indexRight` already determines the right row, so two `Match` rows with equal `left` and `indexRight` are equal with or without `right`, and the projections `IdColumn` and `IdPair` never read it.

## Model

| member | source | states |
|---|---|---|
| `SpatialJoin.BatchSize` | create_lotic_water.py:155 | the batch size `floor(n/6) + 1` is at least 1 and six batches exceed `n` rows |
| `SpatialJoin.ChunkBounds` | create_lotic_water.py:155-162 | the six ranges `[min(i*bs, n), min((i+1)*bs, n))` start at 0, end at `n`, are ascending (hence pairwise disjoint) and hold at most `bs` rows each |
| `SpatialJoin.BatchSizeVersusCeiling` | create_lotic_water.py:155 | the batch size equals the ceiling of `n/6` when 6 does not divide `n`, and is one more than the ceiling when it does |
| `SpatialJoin.MultipleOfSixChunks` | create_lotic_water.py:155-162 | for `n = 6k` rows with `k >= 5`, the first five chunks hold `k + 1` rows each and the last holds the remaining `k - 5` |
| `SpatialJoin.SixRowsLeaveThreeEmptyChunks` | create_lotic_water.py:155-162 | with `floor + 1` rather than the ceiling, six rows give three chunks of two rows and three empty chunks |
| `SpatialJoin.BuildChunks` | create_lotic_water.py:158-162 | the loop builds exactly six chunks, chunk `i` is the clamped slice `t[i*bs:(i+1)*bs]` of at most `bs` rows, and their concatenation is the whole table in order |
| `SpatialJoin.SJoinExact` | create_lotic_water.py:170-185 | `sjoin` (the function `SJoin`, which has no contract of its own): a value is in its result iff it is the `cols` projection of a row the inner join must report, that is a left row and a right row (with its `index_right`) satisfying the predicate |
| `SpatialJoin.JoinRowsExact` | create_lotic_water.py:183-184 | after the inner join and `drop_duplicates`, a row is present iff it pairs a left row with a right row (and its `index_right`) satisfying the predicate, and no row equals another |
| `SpatialJoin.SJoinIds` | create_lotic_water.py:183-185 | an id is in the `['id']` projection of a chunk's join iff some left row with that id satisfies the predicate with at least one right row |
| `SpatialJoin.SJoinAppend` | create_lotic_water.py:183-185 | the join of two row-disjoint tables concatenated is the concatenation of their joins |
| `SpatialJoin.PartitionIndependent` | create_lotic_water.py:158-168 | for any split of a table without repeated rows into consecutive chunks, the concatenated per-chunk results equal one join over the whole table, as sequences |
| `SpatialJoin.PartitionIndependentMembers` | create_lotic_water.py:158-168 | for any split into consecutive chunks, even with repeated rows, the concatenated per-chunk results hold exactly the values of one join over the whole table |
| `SpatialJoin.SJoinMp` | create_lotic_water.py:143-168 | the six chunks, joined one by one in submission order (`PerChunk`, the pool's map) and concatenated, hold exactly the values of a single `sjoin` over the whole left table, and equal it as a sequence when the left rows are distinct |
| `Seqs.Dedupe` | create_lotic_water.py:184 | `drop_duplicates` keeps every distinct row and only rows of the input, and leaves no two equal rows |
| `Seqs.ConcatAll` | create_lotic_water.py:167 | the concatenation of a list of tables has as many rows as the tables together |
| `Seqs.DropEmptyTables` | create_lotic_water.py:49-57 | leaving out the empty county tables changes neither the concatenation nor the total row count |
| `Loaders.GetEstuaryMarine` | create_lotic_water.py:28-43 | a missing county file gives no rows; otherwise every returned row has code 1100 and comes from the layer, and every code-1100 row of the layer is returned |
| `Loaders.GetLoticAndReservoirs` | create_lotic_water.py:70-89 | a missing county file gives no rows; returned rows have code 1300 or 1210, come from the layer with `acres` computed from their geometry, and code-1300 rows reach the threshold; every layer row the area rule accepts is returned |
| `Loaders.LoticRule` | create_lotic_water.py:80-86 | the loader equals one order-preserving selection by "1210, or 1300 with `acres >= threshold`": the `isin([1300, 1210])` step removes nothing further |
| `Loaders.AreaThreshold` | create_lotic_water.py:86 | a single row: a 1210 row is kept whatever its acreage, a 1300 row is kept iff `acres >= threshold` (inclusive), any other code is dropped |
| `Loaders.CollectNonEmpty` | create_lotic_water.py:11-19 | the county loop appends a county's table only when it has a row: the list is the non-empty loads in county order, holds no empty table, has the loads' total row count and concatenation, and is empty iff every county loaded nothing |
| `Loaders.Merge` | create_lotic_water.py:60 | concatenating the collected tables fails exactly when the list is empty and otherwise gives one table with the sum of their row counts |
| `Connectivity.RemoveDisconnectedFeatures` | create_lotic_water.py:91-114 | the result equals the reference selection: the rows numbered `0..n-1` by `AssignIds`, in their order, whose geometry intersects some network line; a row is kept iff it intersects a line, so one disjoint from every line is dropped, and the result is no longer than the input |
| `Connectivity.SelfJoinPairs` | create_lotic_water.py:126 | the `(id_left, id_right)` pairs of the self-join are exactly the position pairs whose geometries intersect, `(i, i)` included |
| `Connectivity.CleanFacet` | create_lotic_water.py:120-137 | the result equals the reference selection of the segments, numbered by `AssignIds`, that intersect a segment with a different id; segment `i` is kept iff such a segment exists, and the result is no longer than the network |
| `Connectivity.LoneSegmentRemoved` | create_lotic_water.py:130-137 | a network of one segment keeps nothing, whatever the predicate says of the segment and itself |
| `Connectivity.TouchingPairKept` | create_lotic_water.py:130-137 | two segments that intersect each other are both kept |
| `Pipeline.RunEstuary` | create_lotic_water.py:7-26 | over the seven listed counties, the merge fails iff no county has an estuarine/marine row, and otherwise returns all such rows county by county, with the sum of the counties' row counts |
| `Pipeline.RunLotic` | create_lotic_water.py:46-68 | the merge fails iff no county yields a lotic/reservoir row; otherwise the result is the connectivity selection over the merged rows of all counties, in county order |

## Left out

- File I/O is not modelled: `gpd.read_file` (including the bounding-box read of the network at line 101), `to_file`, `os.path.isfile` and `os.listdir`. A county's layer is an optional input table, the county list is an input sequence, and the network is the whole input sequence of lines.
- The bounding-box read is left out because the model passes the whole network. That a line outside the polygons' envelope cannot intersect them is a geometry fact the abstract predicate does not carry.
- The multiprocessing pool (lines 164-166) is modelled as a sequential map over the chunk list, taken in submission order. Process creation and teardown are not represented.
- The geometry engine is abstract: predicate evaluation, `.area`, `.length` and `envelope`. The `len` column that `clean_facet` adds at line 122 is written to the cleaned network file by `to_file` at line 141, but it is not modelled, because `.length` is a geometry-engine call.
- The acre conversion `area / 4046.86` in floating point is replaced by the abstract `acresOf`. Only the comparison `acres >= threshold` on its value is modelled.
- `astype(int)` on `lu_code` is not modelled: codes are integers already, so the failure on a non-numeric code is not modelled either.
- Coordinate-reference-system assignment, `print` output, `del`, the `__main__` paths and the invalid-geometry failure inside a worker are not modelled.
- The source rows of a county layer are modelled already restricted to `lu_code` and the geometry. The other columns of the layer, dropped at lines 38 and 80, are not modelled.
- `Seqs.ConcatAll`: the pandas index that `pd.concat` keeps from each county is not modelled. Only row order and row content are.
- `Loaders.GetEstuaryMarine`: states membership in both directions. The order of the result is fixed by it being one `Select`, not by a separate ensures.
- `Connectivity.RemoveDisconnectedFeatures`: `create_lotic_water.py:105` calls `sjoin_mp` with three arguments, but its signature at line 143 takes four (`cols`), so as written that call raises a `TypeError` whenever the merge succeeds. This member, and `Pipeline.RunLotic` through it, model the call with the `['id']` projection supplied, which is the column line 106 reads back; the `TypeError` path is not modelled.
- `SpatialJoin.PartitionIndependent` and `SpatialJoin.SJoinMp`: the row order of `gpd.sjoin`'s output belongs to the library and is not fixed by the script. The model chooses one order: left rows in table order, and each left row's matches in right-table order (`RawJoin`). The "as sequences" statements, `PartitionIndependent` and the second ensures of `SJoinMp`, hold for that choice only. A join that grouped its output by right row could order the chunked result differently from the whole-table result. `PartitionIndependentMembers` and the first ensures of `SJoinMp` compare values only and do not depend on the order. Nothing downstream depends on it either: the script only tests membership (`isin`, `unique`).
