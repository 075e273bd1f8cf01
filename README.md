# Benchmark_Kmeans: a Dafny model of the MapReduce K-means core

This project models the sequential data handling of a small shared-memory
MapReduce engine and the K-means job that runs on it:

- **The intermediate store** (`mapreduce.dfy`, module `MapReduceEngine`).
  It is a grid of `map_num × reduce_num` cells addressed by `get_vec_index`.
  - Each cell is an ordered list of blocks. Each block is a chunk drawn from the allocator plus the bytes in use.
  - `emit_intermediate` appends a record in place when it fits within the default 512 bytes. Otherwise it allocates one new block of `max(len, 512)` bytes.
  - `reset_intermediate_data` releases every block and empties every cell.
  - The class `MapReduce` holds the grid as a `seq` field that its methods reassign. Its invariant:
    - every block stays within its allocation;
    - a block larger than 512 bytes holds exactly one record;
    - every block owns a distinct live chunk of the allocator.
- **The allocator** (`allocator.dfy`, module `Allocation`). Its implementation is not part of this model. Only its contract is modelled:
  - `allocate` hands out a fresh chunk of the requested size, or fails;
  - `deallocate` releases a live chunk.
- **The record layout** (`layout.dfy`, module `RecordLayout`). A point is `dim` doubles followed by one label slot, and records lie end to end. The data source and the job both use it.
- **The K-means job** (`kmeans.dfy`, module `KMeansJob`).
  - `splice` cuts the input into one contiguous share per mapper.
  - `map_func` labels each record of its split with its first-nearest centroid. It then emits the record to the cell of the reducer that owns that centroid, `min(label / row_dis, R − 1)`.
  - `reduce_func` gathers the records sent to its reducer from every mapper. It replaces each centroid row it owns that received points with their mean.
  - The row ownership `row_dis = ⌈num_means / reduce_num⌉` is a partition.
  - Records are `dim + 1` doubles: the coordinates, then the label slot. As bytes in a block, they are sequences of `Octet`s, the bytes of stored doubles, so `memcpy` and the reinterpreting reads are encode and decode.
- **What a mapper delivers** (`delivery.dfy`, module `Delivery`). A finished mapper's cells are read back the way a reducer reads them.
  - Cell `(task_id, r)` holds exactly the split's records routed to `r`, in point order.
  - For every centroid row that `r` owns, the cell has as many records with that label, with the same coordinate sums, as the whole split.
- **The text-file data source** (`datasource.dfy`, module `DataSource`).
  - It keeps the lines with exactly `dim` values, in file order, and fails when none is kept.
  - It packs the kept points into a buffer of `dim + 1`-double records and reports its size in bytes.
  - The constructor refuses a null allocator and a zero dimension.
- **The load-once latch** (`datamanager.dfy`, module `DataManager`). `load` runs `perform_load` until one run succeeds, and never after. The data source class carries the flag, and its `Load` follows the latch's transition.

Coordinates are `real`, not IEEE doubles. The errors the source throws become `Result` values in `NewMapReduce`, `NewKMeans`, `NewTextFileSource`, `TextFileSource.PerformLoad` and `TextFileSource.Load`. A failed allocation while emitting is reported as a success flag `ok` by `MapReduce.EmitIntermediate`, `KMeans.MapOne` and `KMeans.MapFunc`.

Two details of the code that the model keeps as written:
- **Emit fit test.** The fit test compares `count + len` with the fixed size 512 (MapReduce.h:100), not with the block's own capacity. So a block larger than 512 bytes never takes a second record. `FitsInLastBlock` and `Block.WellFormed` state this.
- **Empty lines.** A line with no values is skipped silently, before the count test (KMeansTextFileDataSource.h:61). `IsPoint` and `Kept` follow this.

## Model

| member | source | states |
|---|---|---|
| MapReduceEngine.CellIndex | MapReduce.h:53-55 | the cell of `(m, r)` lies inside the `map_num · reduce_num` grid and determines `m` and `r` back (quotient and remainder), so distinct pairs get distinct cells |
| MapReduceEngine.CellIndexOnto | MapReduce.h:53-55 | every grid position is the cell of some pair `m < map_num`, `r < reduce_num` |
| MapReduceEngine.RowMajor | MapReduce.h:53-55 | `m · cols + r` is below `rows · cols` and divides back into `m` and `r` |
| MapReduceEngine.MapReduce.constructor | MapReduce.h:62-65 | the grid has exactly `map_num · reduce_num` cells, all empty, and the store invariant holds |
| MapReduceEngine.NewMapReduce | MapReduce.h:57-65 | construction fails exactly when the allocator is null; otherwise it yields a fresh store of `map_num · reduce_num` empty cells |
| MapReduceEngine.FitsInLastBlock | MapReduce.h:100 | a record goes into the last block only when the cell has a block and the record stays within the default 512 bytes |
| MapReduceEngine.MapReduce.EmitIntermediate | MapReduce.h:99-117 | only the target cell changes. When the record fits in the last block's default 512 bytes, it is appended to that block's filled prefix, with no allocation and the same number of blocks. Otherwise, on success, exactly one fresh block of capacity `max(len, 512)` holding exactly the record is appended last. On allocation failure the store and allocator are unchanged. On success the cell's bytes are the old bytes followed by the record. In every case the store invariant is kept |
| MapReduceEngine.AppendInPlace | MapReduce.h:100-103 | appending in place keeps the number of blocks, every block but the last, and the last block's chunk |
| MapReduceEngine.AppendInPlaceContents | MapReduce.h:100-103 | an in-place append extends the cell's bytes by exactly the record |
| MapReduceEngine.AppendBlockContents | MapReduce.h:114-116 | pushing a new block extends the cell's bytes by exactly that block's bytes |
| MapReduceEngine.InPlaceStep | MapReduce.h:100-103 | an in-place append that passes the 512-byte test keeps every block within its allocation, leaves the multiset of held chunks exactly as it was, so every chunk stays live and is held once, and extends the cell's bytes by the record |
| MapReduceEngine.NewBlockStep | MapReduce.h:106-116 | pushing a block of a freshly allocated chunk keeps the store invariant: every block well formed, every chunk live and held once |
| MapReduceEngine.MapReduce.ResetIntermediateData | MapReduce.h:83-92 | every cell is empty, the number of cells is unchanged, and the chunks released are exactly those the grid held, each once (live chunks plus released chunks equal the old live chunks) |
| MapReduceEngine.MapReduce.ReleaseCells | MapReduce.h:84-91 | after the loop over cells, every cell is empty and every chunk of the old grid was released exactly once |
| MapReduceEngine.MapReduce.ReleaseBlocks | MapReduce.h:86-88 | the chunks of one cell are released, each exactly once, and chunks held elsewhere stay live |
| MapReduceEngine.ClearedStep | MapReduce.h:84-91 | clearing cell `i` after cells `0..i-1` extends the cleared prefix by one and accounts its chunks as released |
| MapReduceEngine.ClearedAll | MapReduce.h:83-92 | once every cell is cleared, the grid is all empty cells and the released chunks are exactly the old grid's |
| MapReduceEngine.GridChunksUpdate | MapReduce.h:99-117 | replacing one cell changes the grid's chunks by exactly that cell's old and new chunks |
| Allocation.Allocator.Allocate | MapReduce.h:109-112 | a request either fails with nothing allocated, or yields a fresh chunk of exactly the requested size that becomes live |
| Allocation.Allocator.Deallocate | MapReduce.h:87 | releasing a live chunk removes it from the live set and nothing else |
| KMeansJob.RowDis | KMeans.h:41 | the rows per reducer are zero exactly when there is no centroid, and never more than the centroids |
| KMeansJob.RowDisIsCeiling | KMeans.h:41 | `row_dis · reduce_num` is the least multiple of `reduce_num` that reaches `num_means`, and `row_dis ≥ 1` when there is a centroid |
| KMeansJob.OwnershipPartition | KMeans.h:100-105 | for every row `j < num_means` and reducer `t < reduce_num`: `t` owns `j` exactly when `t = j / row_dis`. So the owned ranges are disjoint and cover every row, and a record labelled `j` is sent to its owner |
| KMeansJob.DestOwns | KMeans.h:90-91 | the label `j` of an existing centroid is sent to reducer `j / row_dis`, which is below `reduce_num` and owns row `j`, so the clamp never moves a real label |
| KMeansJob.OwnerUnique | KMeans.h:100-105 | no reducer other than `j / row_dis` owns row `j` |
| KMeansJob.IdleReducerOwnsNothing | KMeans.h:100-104 | a reducer whose first row is at or past `num_means` owns no row |
| KMeansJob.Dest | KMeans.h:90-91 | the destination reducer is always below `reduce_num` |
| KMeansJob.ItemsFor | KMeans.h:157-162 | every mapper gets at least the equal share `⌊total / M⌋` and fewer than `M` items more |
| KMeansJob.ItemsForSum | KMeans.h:152-165 | the shares `⌊total / M⌋` for mappers `0..M-2` and the remainder for mapper `M-1` add up to exactly the whole items |
| KMeansJob.SpliceArith | KMeans.h:156-165 | mapper `i`'s range starts at item `⌊total / M⌋ · i`, has its share, and ends where the next range starts, or at the last whole item for the last mapper |
| KMeansJob.SpliceStep | KMeans.h:163-165 | writing mapper `i`'s range after the first `i` keeps the ranges contiguous from 0 with the share lengths |
| KMeansJob.WriteShare | KMeans.h:157-165 | one round of the loop writes mapper `i`'s offset and length and returns where the next range starts |
| KMeansJob.KMeans.Splice | KMeans.h:149-167 | the ranges start at 0 and are contiguous, range `i` has `ItemsFor(i)` items of `item_size` bytes, and the last range ends at the last whole item, so a trailing partial item goes to no mapper |
| KMeansJob.ContiguousPartition | KMeans.h:163-164 | contiguous ranges are pairwise disjoint: a byte lies in at most one range |
| KMeansJob.ContiguousCover | KMeans.h:163-164 | contiguous ranges from 0 cover every byte below the end of the last range |
| KMeansJob.RangesOrdered | KMeans.h:163-164 | an earlier contiguous range ends at or before a later one starts |
| KMeansJob.RecordCountIsQuotient | KMeans.h:65 | the number of whole records in `n` bytes is `n / item_size` |
| RecordLayout.RecordsEndIsOffset | KMeans.h:68 | record `i` of a split starts at double `base + i · (dim + 1)` |
| KMeansJob.DecodeEncode | KMeans.h:93-94 | reading the doubles back from the bytes `memcpy` stored gives the same doubles, wherever they sit in a block |
| KMeansJob.Records | KMeans.h:119-122 | a block of `count` bytes holds `count / item_size` whole records of `dim + 1` doubles |
| KMeansJob.RecordsAt | KMeans.h:121-122 | the `i`-th record a reducer reads from a block is the `dim + 1` doubles at byte `i · item_size` |
| KMeansJob.DecodeShift | KMeans.h:121-122 | reading records from a buffer with its first bytes dropped is reading the original buffer further on |
| KMeansJob.RecordsConcat | KMeans.h:117-122 | bytes cut at a record boundary read as the records of the first part followed by those of the second, so appended records are read back in order and none is split |
| KMeansJob.RecordsOfOne | KMeans.h:93-94 | the bytes emitted for one record read back as exactly that record |
| KMeansJob.DistSq | KMeans.h:74-79 | the squared distance is non-negative, and zero between equal points |
| KMeansJob.KMeans.SquaredDistance | KMeans.h:74-79 | the loop computes the squared distance from the point to centroid row `j` |
| KMeansJob.FirstMin | KMeans.h:73-85 | the chosen index has a distance no larger than any other, and strictly smaller than every earlier one, so ties go to the first index |
| KMeansJob.Nearest | KMeans.h:73-85 | the label of a point is a centroid index below `num_means` |
| KMeansJob.Classify | KMeans.h:73-88 | with at least one centroid, every point gets a label below `num_means` |
| KMeansJob.Route | KMeans.h:88-91 | with at least one reducer, every point is sent to a reducer below `reduce_num` |
| KMeansJob.NearestIsFirstMinimum | KMeans.h:73-85 | the index that is minimal with no earlier equal is unique, so a point's label depends only on the point and the centroid table |
| KMeansJob.KMeans.ClosestCluster | KMeans.h:69-85 | the argmin loop, which starts with no candidate and replaces it only on a strictly smaller distance, returns the first nearest centroid |
| KMeansJob.KMeans.LabelPoint | KMeans.h:69-91 | only the label slot of the record changes, and it becomes the nearest centroid; the returned reducer is the owner of that centroid, below `reduce_num` |
| KMeansJob.LabelledRecord | KMeans.h:88 | after labelling a split, every record's coordinates are unchanged and its label slot holds its nearest centroid |
| KMeansJob.LabelledOutside | KMeans.h:67-88 | labelling a split changes nothing outside its records |
| KMeansJob.LabelStep | KMeans.h:88 | labelling the next record extends the labelled prefix of the split by it |
| KMeansJob.RoutedStep | KMeans.h:90-94 | emitting the next record extends what reducer `r` has been sent by that record, if it is routed to `r`, and by nothing otherwise |
| KMeansJob.RoutedFrame | KMeans.h:90-94 | what is routed from a prefix of the split does not depend on anything after it |
| KMeansJob.MapStep | KMeans.h:67-95 | one round of the map loop keeps the map state: the labelled prefix grows by one record, the cell of this mapper and the record's reducer grows by the encoded record, and every other cell stays as it was |
| KMeansJob.MapStateStart | KMeans.h:61-67 | before the loop, nothing is labelled and nothing is routed |
| KMeansJob.OtherCellsStep | KMeans.h:93-94 | an emit into a cell of mapper `task_id` leaves every cell of the other mappers unchanged |
| KMeansJob.MapperCellsStep | KMeans.h:93-94 | an emit extends the destination cell by the record and leaves this mapper's other cells as they were |
| KMeansJob.EmitKeepsWholeRecords | KMeans.h:93-94 | both forms of emit keep every block a run of whole records |
| KMeansJob.KMeans.MapOne | KMeans.h:68-94 | one record: it is labelled and emitted, and the map state advances by one record, or on a failed emit the store is unchanged |
| KMeansJob.KMeans.MapFunc | KMeans.h:61-96 | on success, exactly the `data_length / item_size` records of the split have their label slot set to their first-nearest centroid. Nothing else in the buffer changes. Each cell `(task_id, r)` has gained exactly the records routed to `r`, in point order, and the cells of other mappers are unchanged |
| Delivery.SplitRecords | KMeans.h:65-68 | the `n` records of a split, one per point, in order |
| Delivery.RoutedRecords | KMeans.h:90-94 | each record routed to `r` has `dim + 1` doubles, and there are no more of them than records in the split |
| Delivery.EncodeAllCons | KMeans.h:93-94 | successive copies of records lay the first record's bytes in front of the rest |
| Delivery.RecordsCons | KMeans.h:119-122 | a reducer reading a buffer that starts with a copied record reads that record first, then the rest |
| Delivery.DecodeAll | KMeans.h:119-122 | records copied end to end read back as exactly those records, in order |
| Delivery.RoutedIsEncoded | KMeans.h:90-94 | the bytes a mapper sends to reducer `r` are the records routed to `r`, copied end to end in point order |
| Delivery.RoutedAsRecords | KMeans.h:90-122 | read back the way a reducer reads them, the bytes sent to `r` are the records routed to `r` |
| Delivery.CellRecordsAreContents | KMeans.h:117-122 | when every block holds whole records, reading block by block gives the records of the cell's bytes taken as one run |
| Delivery.MapperDelivers | KMeans.h:67-94 | after a mapper has handled `n` records from an empty cell `(task_id, r)`, a reducer reading that cell finds exactly the split's records routed to `r`, in point order |
| Delivery.LabelledAgree | KMeans.h:88 | in a labelled split, each record's label slot holds the index its coordinates classify to |
| Delivery.LabelRoutesToOwner | KMeans.h:88-105 | a record labelled with a centroid row that reducer `r` owns is routed to `r` |
| Delivery.AgreedLabelsRoute | KMeans.h:88-93 | if every point whose label truncates to `j` goes to `r`, then every record of a split whose label slots hold their classification and are labelled `j` goes to `r` |
| Delivery.OwnedLabelsRoute | KMeans.h:88-105 | in a labelled split, every record labelled with a row that `r` owns is routed to `r` |
| Delivery.TallyBoth | KMeans.h:127-131 | appending the same record to two lists with the same count and sums for row `j` keeps them equal |
| Delivery.TallySkip | KMeans.h:127-131 | a record not labelled `j` changes neither the count nor the sums for row `j` |
| Delivery.TallyStep | KMeans.h:127-131 | one more record of the split keeps the routed records and the whole split equal in count and sums for row `j` |
| Delivery.DeliveredCount | KMeans.h:90-131 | when every record labelled `j` is routed to `r`, the records routed to `r` have the same count and coordinate sums for row `j` as the whole split |
| Delivery.MapperDeliversOwned | KMeans.h:61-135 | for every row `j` that reducer `r` owns, the cell a finished mapper fills for `r` has as many records labelled `j`, with the same coordinate sums, as the mapper's whole split: no point nearest to one of `r`'s rows is lost or sent to another reducer |
| KMeansJob.AddPoint | KMeans.h:129-131 | each coordinate sum gains the record's coordinate |
| KMeansJob.CountRecord | KMeans.h:121-132 | one record is counted into its row's count and sums when its label lies in the reduced range, and ignored otherwise |
| KMeansJob.CountBlock | KMeans.h:117-134 | the count and sums cover exactly the whole records of the block, in order |
| KMeansJob.CountCell | KMeans.h:117-134 | the count and sums cover the records of every block of the cell, in insertion order |
| KMeansJob.Gather | KMeans.h:108-135 | the first loop yields, for each row of the range, the count and per-coordinate sums of the records labelled with it among all records in cells `(m, task_id)` for every mapper `m`, and of no other cell |
| KMeansJob.TallyEmpty | KMeans.h:108-110 | the zeroed counts and sums are the tally of no records |
| KMeansJob.TallyStep | KMeans.h:124-132 | counting one record keeps the tally: only the row of its label, if in range, changes |
| KMeansJob.Reduced | KMeans.h:137-143 | reducing keeps the centroid table's size |
| KMeansJob.Trunc | KMeans.h:124 | the `(int)` cast truncates toward zero: the result has the sign of its argument and is less than one away from it, on the side of zero |
| KMeansJob.ReducedRow | KMeans.h:137-143 | after reducing, an owned row with records holds their per-coordinate mean, and any other row is unchanged |
| KMeansJob.ReducedNothing | KMeans.h:100-104 | an empty owned range leaves the centroid table unchanged |
| KMeansJob.ReducedGrow | KMeans.h:137-144 | writing one row's mean, or nothing for a row without records, extends the reduced rows by one |
| KMeansJob.KMeans.WriteRow | KMeans.h:140-142 | one row becomes `sums / count`, and every other cell of the table is unchanged |
| KMeansJob.KMeans.WriteMeans | KMeans.h:137-144 | the second loop leaves the table as reduced over its rows: rows with records hold their mean, and rows with none are unchanged |
| KMeansJob.KMeans.ReduceFunc | KMeans.h:99-146 | the centroid table becomes `Reduced` over the records reducer `task_id` was sent by every mapper: each owned row with at least one record is their mean, and every other row, owned or not, is unchanged. An idle reducer changes nothing |
| KMeansJob.KMeans.constructor | KMeans.h:37-52 | `row_dis` is `⌈num_means / reduce_num⌉`, the centroid table has `num_means · dim` entries holding the initial centroids, and the job invariant holds |
| KMeansJob.NewKMeans | KMeans.h:37-52 | a null allocator or a failed allocation of the `8 · dim · num_means`-byte centroid table is an error that leaves the allocator as it was. Otherwise the job holds an empty store of `map_num · reduce_num` cells, the initial centroids, and a fresh live chunk for its table |
| DataSource.Kept | KMeansTextFileDataSource.h:61-67 | every kept point is one of the lines and has exactly `dim` values |
| DataSource.KeptEmpty | KMeansTextFileDataSource.h:61-75 | nothing is kept exactly when no line has exactly `dim` values |
| DataSource.KeptConcat | KMeansTextFileDataSource.h:51-69 | kept points follow the file's order: the points of two parts of a file are those of the first, then those of the second |
| DataSource.KeptAll | KMeansTextFileDataSource.h:61-63 | a file whose every line is a point loads every line |
| DataSource.FilterLines | KMeansTextFileDataSource.h:48-69 | the reading loop collects exactly the kept points |
| DataSource.PacksAt | KMeansTextFileDataSource.h:86-90 | the buffer has `n · (dim + 1)` doubles, and coordinate `j` of kept point `i` is at `i · (dim + 1) + j` |
| DataSource.PacksLength | KMeansTextFileDataSource.h:77-79 | a packed buffer has as many doubles as `n` records of `dim + 1` laid end to end |
| DataSource.PacksRecord | KMeansTextFileDataSource.h:86-90 | coordinate `j` of kept point `i` sits right after the `i` records before it |
| DataSource.PacksSnoc | KMeansTextFileDataSource.h:86-90 | a record holding the next point's coordinates extends a packed buffer by that point |
| DataSource.WritePoint | KMeansTextFileDataSource.h:87-89 | the inner loop writes the point's coordinates at its record and leaves every slot before and after them as it was |
| DataSource.SlotsStep | KMeansTextFileDataSource.h:86-90 | writing one point's coordinates keeps every label slot of the records written so far, and the rest of the buffer past the new record, unchanged |
| DataSource.PackStep | KMeansTextFileDataSource.h:86-90 | after one more point is written, the packed prefix holds one more record and the untouched part shrinks by one record |
| DataSource.PackOne | KMeansTextFileDataSource.h:86-90 | one pass of the outer loop extends the packing by the next point |
| DataSource.PackPoints | KMeansTextFileDataSource.h:86-90 | the packing loop leaves the buffer holding the points in order, one `dim + 1`-double record each, and never writes a record's label slot |
| DataSource.PackedRecordCount | KMeansTextFileDataSource.h:77-79 | a buffer of `8 · n · (dim + 1)` bytes holds exactly `n` whole records, so splitting it among mappers sees every loaded point |
| DataSource.TextFileSource.PerformLoad | KMeansTextFileDataSource.h:40-91 | an unopenable file, or one with no kept line, is an error with no allocation and no field changed. Otherwise the size becomes `8 · n · (dim + 1)` bytes for the `n` kept points; a failed allocation is an error that leaves no buffer. On success the buffer is fresh, packs the kept points in order, and is backed by a fresh live chunk of that size |
| DataSource.TextFileSource.Load | BaseDataManager.h:25-30 | the flag and counters take exactly the latch's transition. A loaded source is left as it is. A first load with no file or no kept point leaves buffer, size and allocator as they were. Otherwise the size becomes `8 · kept · (dim + 1)`; a failed allocation leaves the buffer null and the allocator as it was, and a success installs a fresh buffer packing the kept points and a fresh chunk of that size, the only new live chunk. Each failure reports the error of its cause and leaves the flag clear |
| DataSource.TextFileSource.GetData | KMeansTextFileDataSource.h:93 | a loaded source has a buffer |
| DataSource.TextFileSource.GetSize | KMeansTextFileDataSource.h:94 | the size is eight bytes per double of the buffer |
| DataSource.IsPoint | KMeansTextFileDataSource.h:61-62 | a line is kept exactly when it has `dim` values and `dim` is not zero, so the empty-line test adds nothing once the constructor has refused `dim = 0` |
| DataSource.TextFileSource.constructor | KMeansTextFileDataSource.h:24-25 | a new source is unloaded, has no buffer, and reports size 0 |
| DataSource.NewTextFileSource | KMeansTextFileDataSource.h:24-32 | a null allocator is refused, then a zero dimension, with the source's messages. Otherwise the source is fresh and unloaded, with no buffer and size 0 |
| DataManager.Load | BaseDataManager.h:25-30 | a loaded latch is left as it is; otherwise one more run is started, and the flag is raised exactly when that run succeeded |
| DataManager.LoadKeepsConsistent | BaseDataManager.h:25-30 | a `load` keeps the flag raised exactly when one run has succeeded |
| DataManager.Run | BaseDataManager.h:25-30 | a sequence of `load` calls leaves the flag raised exactly when it was already raised or some call succeeded, and starts `perform_load` at most once per call |
| DataManager.RunsUntilLoaded | BaseDataManager.h:25-30 | a sequence of `load` calls starts `perform_load` at most once per call |
| DataManager.LoadedStaysPut | BaseDataManager.h:26 | once loaded, any number of further `load` calls change nothing |
| DataManager.RunConcat | BaseDataManager.h:25-30 | a sequence of calls is its first part followed by its second, from where the first left off |
| DataManager.RunFromUnloaded | BaseDataManager.h:10-30 | from a new source, any sequence of `load` calls raises the flag exactly when some call succeeded and starts `perform_load` once per call up to and including the first success, and never after. So `perform_load` succeeds at most once, and a failure leaves the flag clear for a retry |
| DataManager.RunShifted | BaseDataManager.h:25-30 | after one failed call, the latch behaves as a new one with one more run counted |

## Left out

- Threads and barriers. The mapper and reducer threads, `run_mr_single_iteration`, and the two `pthread_barrier_t`s are not part of this model (MapReduce.h:119-170). An iteration is only meant as all maps followed by all reduces. No lemma composes whole iterations: `Delivery.MapperDeliversOwned` covers one mapper's cells, and the concatenation over all mappers that `reduce_func` gathers is not stated as one lemma.
- Floating point. Coordinates, distances and means are `real`. IEEE rounding and overflow are not modelled. The `numeric_limits<double>::max()` start value of the minimum search is modelled as "no candidate yet". The source would leave the label at −1 if every distance were at least that value; the model always takes the first distance.
- The label casts. The label is stored as the centroid index `as real`. The reducer's `(int)` cast is truncation toward zero (`Trunc`). Out-of-range conversions are not modelled.
- Random centroid initialisation. `generate_points_double` and `rand()` are replaced by a parameter holding the initial centroids.
- Allocator internals. BaseAllocator.h is not part of this model. `init`, `shutdown`, and the memory itself are left out; a chunk is an opaque handle with a size. The byte array behind a chunk is a separate Dafny `array` or a `seq` of `Octet`s, so pointer aliasing between a chunk and other memory is not modelled.
- Integer widths. `int` and `size_t` are unbounded `nat`/`int`, so overflow of `map_num · reduce_num`, of `count + len`, or of byte sizes is not modelled.
- File I/O and number parsing. `perform_load` receives the file already parsed: `None` when it cannot be opened, else the values of each line.
- Logging. The `printf` and `cerr` messages, including the skip warning, are not modelled.
- Destructors. `~MapReduce`, `~KMeans` and `~KMeansTextFileDataSource` are not modelled. They release memory the same way the reset does.
- KMeansJob.KMeans.MapFunc: after a failed emit, the source throws with earlier records of the split already labelled and emitted. The model stops there too, but its contract states only that the store invariant holds and the grid keeps its size, not which records were already emitted.
- DataSource.TextFileSource.PerformLoad: a second direct call after a successful load would leak the previous buffer. The model replaces the buffer without releasing its chunk, as the source does, and `Load` prevents the second call.
