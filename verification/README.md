# pg_arrow: a verified model of its heap readers

pg_arrow reads the raw heap files of a PostgreSQL data directory and turns them into rows and
Arrow columns. This project models the parts of it that carry proof obligations and proves what
they promise:

* **Tuple deforming** (`Codec`, `HeapTuples`, `Deform`, `TupleWalk`, `RowDecode`, `Page`). A
  tuple's data area is walked left to right. The crate has four such walks: the zero-copy page
  loop `to_record_batch`, `decode_row`, `decode_row_projected`, and the cursor `next_datum`
  behind every `from_row`. Here each is a method with the source's loop, proved equal to one
  `Walk`: a fold of a per-column step. What the walks have in common is then proved once about
  that fold: refinement, projection, disjoint extents.
* **The layout** (`HeapLayout`, `TupleImage`, `PageImage`, `PageRoundTrip`). An encoder writes any
  row of values and NULLs, in any storage form, into a data area, a tuple and, with any other rows,
  an 8192-byte page of header, line pointers and tuples, as PostgreSQL lays them out. The walks
  invert it, parsing finds every tuple, and the layout is uniquely decodable.
* **Arrow columns** (`Builder`, `ArrowTypes`, `PageTheorems`, `PageRoundTrip`, `ReadBack`, `Refusals`).
  What the builders append, what a record batch accepts, and with both the exact outcome of converting
  a page of stored rows under any projection: a batch of exactly those rows, a refusal, or a panic.
  `ReadBack` says it value by value: which rows, which bytes or numbers, which NULLs.
* **NUMERIC** (`Numeric`, `NumericFormat`, `NumericExact`, `NumericWrap`, `NumericBound`,
  `NumericRescale`, `NumericWide`, `NumericUnbound`). Header forms, the base-10000 loop, checked and
  wrapping, and two truncating rescales, against the exact rational value, with the precise set of
  values and of column types for which they are exact.
* **The scan** (`Relation`, `BulkRead`, `PageCursor`, `RowIter`, `Stream`, `AsyncStream`,
  `Parallel`, `ParallelPages`, `Scan`). Segments, a cached descriptor, bulk reads, a sequential page cursor, a
  row iterator, a buffered stream, its async wrapper and a chunked parallel map, each against
  the relation as one flat file of pages.
* **Visibility** (`Snapshot`, `SnapshotText`, `Mvcc`). The snapshot test over whole runs of a
  server, its text form, and the rows a scan keeps against the full MVCC algorithm.
* **Schemas and types** (`Schema`, `TypeCatalog`). Which attribute a schema position stands for, and
  the crate's tables of lengths, alignments and Arrow types against the server's catalogue.

`Err(Panic)` stands for a Rust panic, including arithmetic overflow under overflow checks (a
release build without them wraps instead); 256-bit arithmetic wraps in every build, as its
operations are the wrapping ones. Bit masks and shifts of the source are written as
division and remainder. Words are little-endian, as `from_ne_bytes` reads them on the machines
PostgreSQL data directories come from. `Kernel.faithful` distinguishes a system whose opens and
`pread` calls always succeed in full from one that may fail or read short at any call; what holds
of both is stated without it.

## What turned out not to hold

Where the code does not do what its documentation, its tests or its name promise, the model
follows the code, and the exact condition is proved:

* A projection that names a column twice: the last occurrence wins. `decode_row_projected` leaves
  the others NULL, whatever the value (`ProjectedRowIsProjection`); the page path fails unless no
  row is kept (`ProjectionCommutesWithPage`).
* A NULL in a NOT NULL column makes the whole page fail (`NullIsRefused`), and NaN in a NOT NULL
  NUMERIC column is such a NULL (`NanInNotNullIsRefused`); no other NULL is refused
  (`NullIsRefusedIffNotNull`). An interval or array column makes every
  page fail, because it is built as binary and declared otherwise (`UnbuiltColumnIsRefused`). All this
  is so only of columns that are selected; the others do no harm (`WalkedPageIsConverted`).
* A stored date or timestamp is moved to the Unix epoch iff it is at most 2147472690 days or
  9222425352054775807 microseconds from PostgreSQL's (`EpochShiftIff`). 'infinity' is beyond
  (`InfinityPanics`), and one such value in a selected column panics the page (`LateDatePanics`);
  '-infinity' becomes an ordinary day or instant (`MinusInfinityIsOrdinary`).
* `NUMERIC(p, s)` maps to Decimal128 for p up to 38, but the decoder's accumulation may leave i128:
  every value of the column decodes iff p plus the decimals missing to a multiple of four is at most 38
  and s is below 128 (`NumericColumnIsSafeIff`). So `NUMERIC(38, 2)` has values that panic. Over all
  precisions, those truncated to u8 among them, every value of a column is appended as it is iff that sum
  is at most 38, or p is above 38 and at most 39, 40, 41 or 42, by s modulo 4 (`ColumnIsAppendedIff`).
* The 256-bit decoder wraps without an error: a payload decodes exactly iff it fits in 256 bits
  (`I256IsExactIff`), and 2^255 in a `NUMERIC(77, 0)` column is appended as -2^255
  (`LargeValueWraps`, `TwoTo255IsLarge`). It panics on a value with so many zero digits that it lies 39
  or more decimals above its scale: 10^40 in `NUMERIC(50, 0)` does (`RoundNumberPanics`). What becomes of
  any value of such a column is stated in full (`WideValueIsAppended`).
* A column without precision and scale has scale 0: of the values with fewer than 128 decimals, one is
  cut to its integer part iff it has at most 38 decimals and fits in 256 bits, and one with more
  decimals panics (`UnconstrainedIsCutIff`). Nothing is lost iff every decimal digit is zero
  (`NothingIsLostIff`). With 128 decimals or more the scale is truncated too: such a value panics iff it
  needs a power of ten beyond i128 or the truncated scale is more than 38 from 0, and is otherwise cut to
  its integer part iff that is what the truncated scale happens to make of it (`LongScaleIsCutIff`).
  A value of 1 or more with that many decimals panics or has wrapped (`FittingLongScaleIsCutIff`), and
  10^-256, written with 256 decimals, is appended as 1 (`TinyIsAppendedAsOne`).
* Precision is truncated to u8 and scale to i8, so the documented Arrow type is chosen iff
  p < 256 and s < 128 (`TypmodMapsAsDocumented`); likewise the reported scale (`NumericIsExact`).
* `get_page_by_index` ignores its index while the open segment has pages left (`ServesIff`). Its one
  caller asks sequentially, for which it is exact (`SequentialIsRandomAccess`).
* The test that the row iterator and the batches count the same rows holds iff no row it iterates
  is dropped by the filter (`RowCountsAgreeIff`, `StoredRowCountsAgreeIff`), which one deleted row
  breaks (`DeletedRowIsOnlyIterated`).
* Parallel conversion returns a panic where the plain loop returns an earlier error, iff the first page
  to fail does not panic and a page of a later chunk does, before any other page of its chunk fails
  (`ParallelDiffersIff`, and four heap pages in `PanicHidesEarlierError`). It always passes no snapshot,
  and nothing calls it at present.
* A kept row is MVCC-visible iff its inserter committed, which is never checked
  (`KeptIsVisibleIffInserterCommitted`). A visible row is dropped iff an xmax is recorded, as in locked
  rows and rows deleted by an aborted, running or later transaction, or if it was frozen after the
  snapshot was taken, since its xmin is tested all the same (`VisibleIsKeptIffUndeleted`,
  `LockedRowIsDropped`, `FrozenRowIsDropped`).
* `PgSnapshot`'s comments say that an xid below xmin is committed and visible; it is finished, and
  committed iff it did not abort (`VisibleMeansFinished`).
* A malformed entry in a snapshot's list is dropped, which makes its transaction visible
  (`VisibleIffNotRead`).
* Schema positions are used as tuple positions; that is right iff no dropped column precedes
  (`SchemaPositionIsTuplePositionIff`).
* Every array is aligned to 4 bytes, although the server aligns arrays of 8-aligned elements to 8:
  those of int8, float8, time, timestamp and timestamptz (`ArrayIsMisalignedIff`).
* A page buffer with pd_lower above 8195 panics instead of being rejected (`PageParsesIff`).
* The MVCC outline in docs/design/DESIGN.md tests HEAP_XMIN_INVALID before the frozen bits, although
  a frozen tuple carries both bits; the model tests frozen first.

## Model

| member | source | states |
|---|---|---|
| Codec.AlignUpIsMultiple | src/heap/tuple.rs:505-507 | alignment gives the least multiple of the alignment not below the offset |
| Codec.VarlenaHeaderAccepts | src/types/codec.rs:1491-1561 | exactly which byte patterns are accepted as a varlena header, and for each where the payload starts and how long it is; everything else is a decode error |
| Codec.SizesAgree | src/types/arrow.rs:534-568 | extraction and skipping report the same size, at least 1 and inside the buffer, and succeed on the same data; extraction fails with a decode error, skipping a fixed width never fails and a varlena exactly without a header |
| Codec.DecodeAgrees | src/types/codec.rs:1567-1646 | decoding succeeds iff extraction does and the payload renders, with the same extent and size; a payload that does not render is an error, or for a name a panic |
| HeapTuples.ToBlockId | src/heap/tuple.rs:21-28 | splitting a 32-bit block number gives two valid halves that name it |
| HeapTuples.BlockIdsRoundTrip | src/heap/tuple.rs:21-34 | splitting and joining block numbers are inverse |
| HeapTuples.TupleParsesIff | src/heap/tuple.rs:174-261 | for any bytes: which are a tuple, which error the others are, and which bytes become bitmap and data area |
| Deform.AlignmentRulesAgree | src/heap/page.rs:395-420 | the page loop's alignment test agrees with decode_row's for every type there is |
| Deform.AlignmentRulesDifferOnCStrings | src/table/mod.rs:945-960 | the two tests would part exactly on an unaligned C string not preceded by padding |
| Deform.ChecksFactor | src/table/mod.rs:926-966 | checking values neither moves nor hides cells: a checked walk is the unchecked one iff every payload passes |
| Deform.ProjectionCommutes | src/table/mod.rs:1004-1055 | delivering only some columns, and stopping early, delivers the same cells |
| Deform.CellsAreDisjointSlices | src/heap/page.rs:384-454 | payloads are slices of the data area in column order, without overlap, and each non-NULL column moves the offset |
| TupleWalk.PagesRefineRows | src/heap/page.rs:384-454 | the page walk and the row walk succeed on the same tuples with the same NULLs, offsets, lengths and bytes, for any projection |
| TupleWalk.ProjectedRun | src/table/mod.rs:1004-1055 | if the full walk succeeds, so does every projected one, on the same cells |
| TupleWalk.RunSlices | src/types/pg_type.rs:97-132 | every reader's payloads are disjoint slices of the tuple in column order, threading a strictly increasing offset over non-NULL columns |
| TupleWalk.VisitFailures | src/heap/page.rs:421-447 | a fixed-width value past the end is an error for the row readers, panics the page loop if it is projected and is passed over if not; other failures are decode errors |
| HeapLayout.DeformInvertsLayout | src/heap/page.rs:384-454 | walking any encoded row, of any schema and storage forms, gives back exactly its NULLs and payloads and ends where the encoding does |
| HeapLayout.LayoutIsUniquelyDecodable | src/types/codec.rs:1470-1561 | given the NULL flags, no two rows share an encoding: payloads, storage forms and the end of the row are determined |
| TupleImage.BitmapReadsBack | src/heap/tuple.rs:321-330 | the null bitmap marks exactly the NULL columns |
| TupleImage.ParseInvertsTuple | src/heap/tuple.rs:174-261 | parsing a stored tuple gives back its header, a bitmap of exactly the NULL columns, and its data area |
| RowDecode.ColumnIsVisit | src/heap/tuple.rs:263-360 | get_column and skip_column after alignment are one step of the common walk |
| RowDecode.ColumnsNotRead | src/heap/tuple.rs:263-360 | reading a column that does not exist panics and skipping one is an error; a NULL is an error of its own in both |
| RowDecode.NextDatum | src/types/pg_type.rs:97-132 | one call is one step of the common walk: NULL leaves the offset, a value moves it to the step's end, errors are the step's |
| RowDecode.FromRow | src/types/pg_type.rs:207-250 | threading one offset through columns 0, 1, 2, ... gives exactly decode_row's walk |
| RowDecode.DecodeRow | src/table/mod.rs:926-966 | the loop computes the common walk, or its first error |
| RowDecode.BuildOutputPositions | src/table/mod.rs:995-1002 | every column is sent to the last place where the projection names it |
| RowDecode.DecodeRowProjected | src/table/mod.rs:977-1055 | the loop delivers the projected walk's cells to their last places, for any projection whatever |
| RowDecode.ProjectionIsChecked | src/table/mod.rs:977-994 | no columns give an empty row, and a column that does not exist is refused, whatever the tuple |
| RowDecode.ProjectedRowIsProjection | src/table/mod.rs:977-1055 | whenever the full row decodes so does the projected one; output j is column p[j] iff j is the last occurrence or the column is NULL |
| RowDecode.LaterColumnsAreNotRead | src/table/mod.rs:994-1055 | columns after the last one projected change neither the row nor the error, whatever the tuple holds there |
| NumericFormat.ParseInvertsShort | src/types/arrow.rs:75-99 | sign, scale, weight and digits survive the short header form |
| NumericFormat.ParseInvertsLong | src/types/arrow.rs:100-112 | sign, scale, weight and digits survive the long header form |
| NumericFormat.SpecialsAreNotFinite | src/types/arrow.rs:75-103 | exactly the payloads with the two top header bits set, and those too short for their header, are not finite |
| NumericFormat.OddByteIsIgnored | src/types/arrow.rs:97-110 | half a digit at the end of a payload changes nothing |
| Numeric.WidthsAreRight | src/types/arrow.rs:118-176 | the bounds of the two integer types are those of 128 and 256 bits |
| Numeric.DecodeI128 | src/types/arrow.rs:118-146 | the checked loop, powers and negation yield the specified value, and overflow exactly when one operation leaves i128 |
| Numeric.DecodeI256 | src/types/arrow.rs:149-176 | the wrapping loop yields the specified value |
| NumericExact.HornerIsMagnitude | src/types/arrow.rs:125-134 | the accumulated integer, moved by the natural scale, is the sum of digit times 10000^(weight - i) |
| NumericExact.NumericIsExact | src/types/arrow.rs:118-146 | whatever digits a finite payload has, a decode that does not overflow is sign * trunc(N * 10^dscale), clamped to i128; the scale is the payload's iff below 128 |
| NumericBound.NumericDecodesIff | src/types/arrow.rs:118-146 | with base-10000 digits, a payload decodes to that value iff its accumulation is an i128 and its scales are at most 38 apart, and overflows otherwise |
| NumericBound.OverflowsIff | src/types/arrow.rs:118-146 | whatever its digits, a payload overflows iff a step of the loop leaves i128, it needs a power of ten beyond i128 or the least i128 would be negated; any other value is an i128 |
| NumericBound.NothingIsCutIff | src/types/arrow.rs:131-139 | truncating at scale s keeps the value iff the accumulation has no decimals below s |
| NumericWrap.HornerWrapIsWrapped | src/types/arrow.rs:156-161 | the accumulation that wraps at every step is the exact one wrapped once |
| NumericWrap.I256IsExactIff | src/types/arrow.rs:149-176 | a payload decodes to sign * trunc(N * 10^dscale) iff it fits in 256 bits, and overflows iff it needs a power of ten beyond i128 |
| NumericBound.HornerFitsIffTotalFits | src/types/arrow.rs:124-128 | with digits in range, the loop stays in i128 iff its result does |
| NumericBound.ColumnDecodes | src/types/arrow.rs:118-176 | a value m / 10^s of NUMERIC(p, s) with p plus slack at most 38 decodes to exactly m by both decoders alike |
| NumericBound.NumericColumnIsSafeIff | src/types/arrow.rs:118-146 | every value of a NUMERIC(p, s) column decodes to its m and s in 128 bits iff p plus slack is at most 38 and s fits an i8, whichever of p and s is larger |
| NumericRescale.CoarserMagnitude | src/types/arrow.rs:433-447 | truncating at one scale and then at a coarser one is truncating once |
| NumericRescale.RescaleIsOneTruncationIff | src/types/arrow.rs:433-447 | for every payload that decodes: rescaling to the column panics iff the column's and the reported scale are more than 38 apart, and is one truncation of the exact value iff moreover no clamp bites and the column is coarser or nothing nonzero lay between; with 128 or more decimals, iff the value vanishes at the truncated scale |
| NumericRescale.ColumnValueIsAppended | src/types/arrow.rs:433-447 | a stored value m / 10^s of a NUMERIC(p, s) column with p plus slack at most 38 reaches its Arrow builder as the integer m, signed |
| NumericRescale.OtherTypmods | src/types/arrow.rs:29-42 | the decimal types of every other type modifier, those below 4 among them |
| NumericWide.WideColumnDecodesIff | src/types/arrow.rs:149-176 | for every p and s, a value m / 10^s decodes to exactly m at scale s iff it fits and s < 128, and overflows iff it lies 39 or more decimals above s |
| NumericWide.ValueIsAppendedIff | src/types/arrow.rs:433-463 | a stored value of any NUMERIC(p, s) column, of whatever precision, reaches its Arrow builder as the integer m, signed, iff it fits the decoder that the truncated precision picks |
| NumericWide.WideValueIsAppended | src/types/arrow.rs:448-463 | what every stored value of a Decimal256 column becomes: itself wrapped to 256 bits, the quotient of its wrapped accumulation, or a panic |
| NumericWide.WideColumnIsSafeIff | src/types/arrow.rs:149-176 | every value of a NUMERIC(p, s) column decodes exactly in 256 bits iff s < 128 and p is at most 39, 40, 41 or 42, by s modulo 4 |
| NumericWide.ColumnIsAppendedIff | src/types/arrow.rs:26-43 | for all p and s: every value of the column is appended as its m iff p plus slack is at most 38 or p is from 39 to the digit boundary above s |
| NumericWide.RoundNumberPanics | src/types/arrow.rs:163-169 | every longer column with a Decimal256 builder has a round number whose appending panics |
| NumericWide.LargeValueWraps | src/types/arrow.rs:448-463 | from 2^255 up to 2^256, whole values that do not end in four zeros are appended to a long enough column as negative numbers, without an error |
| NumericUnbound.UnconstrainedIsCutIff | src/types/arrow.rs:448-463 | without typmod, a payload with fewer than 128 decimals is appended as its integer part, truncated toward zero, iff it has at most 38 decimals and fits in 256 bits; exactly when it panics |
| NumericUnbound.WideRescaleIff | src/types/arrow.rs:448-463 | for every payload that fits in 256 bits and has fewer than 128 decimals, and a Decimal256 column of any scale: a panic iff the scales are more than 38 apart, and else one truncation of the exact value iff the column is no finer, or nothing nonzero lay between and the result fits |
| NumericUnbound.LongScaleIsCutIff | src/types/arrow.rs:163-175 | for every payload with 128 or more decimals: it panics iff it needs a power of ten beyond i128 or its truncated scale is more than 38 from 0, and its integer part is appended iff that scale makes it of the wrapped value |
| NumericUnbound.FittingLongScaleIsCutIff | src/types/arrow.rs:175 | one that fits in 256 bits is below 1, and is appended as 0 iff it vanishes at the truncated scale |
| NumericUnbound.NothingIsLostIff | src/types/arrow.rs:38-42 | the integer part is the value iff every decimal digit is zero |
| NumericUnbound.TinyIsAppendedAsOne | src/types/arrow.rs:175 | a value with 256 decimals whose scale is truncated to 0 |
| NumericWide.SpecialsAreNull | src/types/arrow.rs:81-84 | of payloads with a whole header, exactly NaN and the infinities become one NULL, in every NUMERIC column |
| Builder.TypmodMapsAsDocumented | src/types/arrow.rs:22-43 | the documented decimal type is chosen iff the precision fits u8 and the scale i8 |
| Builder.EpochShiftIff | src/types/arrow.rs:377-402 | a column that stores the number x of days or microseconds since 2000 gets x + 10957 or x + 946684800000000, or panics iff x is beyond the last one that can be moved |
| Builder.InfinityPanics | src/types/arrow.rs:377-402 | the bytes FF .. FF 7F, the date or timestamp 'infinity', panic |
| Builder.MinusInfinityIsOrdinary | src/types/arrow.rs:377-402 | the bytes 00 .. 00 80, '-infinity', are appended as an ordinary day or instant |
| ArrowTypes.BuiltAsDeclaredIff | src/types/arrow.rs:230-301 | a column's builder makes arrays of the type its field declares iff it is neither an interval nor an array |
| ArrowTypes.NumericIsDeclared | src/types/column.rs:34-41 | a NUMERIC(p, s) column is declared and built as a decimal of that precision and scale, in 128 bits up to 38 digits; without them as Decimal256(38, 0) |
| Builder.ColumnBuilder.AppendNull | src/types/arrow.rs:304-337 | the builder grows by exactly one NULL |
| Builder.ColumnBuilder.AppendBytes | src/types/arrow.rs:339-482 | the builder grows by exactly one entry, NaN as NULL, dates from the Unix epoch and other types the payload itself, or stays as it was on an error |
| Page.ItemIdFields | src/heap/page.rs:28-43 | offset, flags and length packed into a line pointer are read back |
| Page.ParseBytes | src/heap/page.rs:160-182 | all line pointers up to pd_lower are read, in order |
| Page.PageParsesIff | src/heap/page.rs:160-182 | for any buffer: too short, a panic because its line pointers run over it, or a page with exactly those line pointers; 8192 bytes parse iff pd_lower is at most 8195 |
| Page.PointerIsFollowedIff | src/heap/page.rs:184-218 | a slot is read iff it exists, the two flag bits of its pointer are 1 and its bytes lie on the page; the error of every other one |
| Page.VisibleTuple | src/heap/page.rs:325-383 | the inlined header checks pass exactly the tuples get_row_data accepts and the filter keeps, with the same bitmap and data |
| Page.WalkTuple | src/heap/page.rs:384-454 | the column loop appends this tuple's cells, one to every builder of a last occurrence, or reports the walk's error |
| Page.ConvertTuples | src/heap/page.rs:325-455 | the slot loop leaves the builders holding, column by column, the kept tuples' rows in slot order |
| Page.ToRecordBatch | src/heap/page.rs:230-467 | converting a page, with any projection and snapshot, gives the specified batch, refusal or panic |
| PageTheorems.ReadersShareOneWalk | src/heap/page.rs:384-454 | decode_row and the page loop both have the cells of one unchecked walk, and each fails exactly when that does or one of its payloads is refused |
| PageTheorems.WalkedPageIsConverted | src/heap/page.rs:230-467 | for any projection and any page whose kept tuples can be walked: the exact conditions for a panic and for a refusal, which depend on the selected columns alone, and otherwise column j is the rows' column p[j] |
| PageTheorems.PageRefinesDecodeRow | src/heap/page.rs:230-467 | when decode_row succeeds on the kept tuples, that is the outcome for the rows it gives, in slot order, each cell as decode_row gives it, under any projection |
| PageTheorems.ProjectionCommutesWithPage | src/heap/page.rs:281-322 | if the kept tuples become rows, a projected conversion succeeds iff the projection has no duplicates or there are no rows, and the columns it selects are taken, whatever the others are; column j is then the rows' column p[j] |
| PageTheorems.ProjectionOfBatch | src/heap/page.rs:281-322 | if the full conversion succeeds, a projected one does iff the projection has no duplicates or no row is kept, and column j is then column p[j] |
| PageTheorems.LaterColumnsAreNotWalked | src/heap/page.rs:281-322 | columns after the last one selected do not change the outcome of a page, whatever its tuples hold there |
| PageTheorems.BatchIsRectangular | src/heap/page.rs:325-467 | every column of a batch has exactly one entry per kept tuple |
| PageTheorems.StoredTupleIsRecovered | src/heap/tuple.rs:174-261 | a tuple stored with any ids, flags and row is parsed and walked back to that row by both readers |
| PageImage.ParseInvertsPage | src/heap/page.rs:160-182 | an encoded page parses, and every line pointer leads to its tuple, or is not normal |
| PageImage.PageOfRowsHolds | src/heap/page.rs:184-218 | in any page laid out from stored rows, whatever its other bytes, each slot holds its row |
| PageRoundTrip.SlotIsRead | src/heap/page.rs:184-218 | get_row_data gives the stored row's tuple, and an error for a slot without one |
| PageRoundTrip.KeptTuplesAreKeptRows | src/heap/page.rs:325-383 | the tuples a conversion keeps are the stored rows that pass the filter, in slot order, dead slots passed over |
| PageRoundTrip.StoredPageIsConverted | src/heap/page.rs:230-467 | a page of any stored rows, under any projection, panics iff a selected column does not exist or a payload of a kept row in one cannot be appended, is else refused iff a selected column is repeated while a row is kept, is not built as declared or has an undeclared NULL, and is else exactly the kept rows: each entry is NULL or the rendered payload stored there |
| ReadBack.IsKeptIff | src/heap/page.rs:353-367 | a stored row is kept iff no xmax is stored or its flag word marks it invalid, and its xmin passes the snapshot |
| ReadBack.KeptRowsAreInOrder | src/heap/page.rs:325-383 | the kept rows are exactly those that pass, in slot order |
| ReadBack.StoredPageIsReadBack | src/types/arrow.rs:339-482 | entry i of column j of a converted page of stored rows is NULL, the payload stored for the i-th kept row, or its day or microsecond counted from 1970 |
| ReadBack.EveryDateIsADay | src/types/arrow.rs:377-402 | every date or timestamp that fits its column is the encoding of some day or microsecond, so the previous row covers all of them |
| ReadBack.PayloadIsReadBack | src/types/arrow.rs:341-376 | in particular, in columns other than NUMERIC, dates and timestamps it is the payload itself, empty for an out-of-line pointer |
| ReadBack.PayloadAppends | src/types/arrow.rs:341-376 | no payload in such a column makes a page fail |
| ReadBack.DifferentValuesDiffer | src/types/arrow.rs:403-482 | pages whose kept rows differ in such a payload, or in whether it is NULL, have different batches |
| ReadBack.NumericIsReadBack | src/types/arrow.rs:430-463 | m / 10^s stored in a NUMERIC column all whose values can be appended is read back as m, signed |
| ReadBack.NullIsRefusedIffNotNull | src/types/column.rs:50-58 | under the schema read from the catalogue, a page that can be appended is refused iff a kept row has a NULL, or NaN, in a selected column whose attribute is NOT NULL |
| ReadBack.StoredRelationIsReadBack | src/file/reader.rs:437-503 | a scan of a relation of stored pages shows the same values, page by page |
| ReadBack.StoredRelationIsIterated | src/file/reader.rs:587-660 | the row iterator over a relation of stored pages yields the tuple of every stored row, kept or not, once, in (block, slot) order |
| Refusals.UnbuiltColumnIsRefused | src/types/arrow.rs:251-253 | a page whose selected columns include an interval or an array fails, whatever it holds |
| Refusals.NullIsRefused | src/heap/page.rs:457-467 | a kept row with a NULL in a selected NOT NULL column makes the page fail |
| Refusals.NanInNotNullIsRefused | src/types/arrow.rs:433-437 | so does NaN in a selected NOT NULL NUMERIC column |
| Refusals.NanPageIsRefused | src/heap/page.rs:457-467 | a page of 8192 bytes with one such NaN parses, and its conversion fails |
| Refusals.LateDatePanics | src/types/arrow.rs:377-402 | a kept row with a date or timestamp too late for the Unix epoch in a selected column panics the page |
| Relation.SegmentInFlat | src/file/reader.rs:146-168 | segment s is the flat file's s-th GiB |
| Relation.PageInSegment | src/file/reader.rs:146-168 | the segment and offset computed for a page hold that page of the flat file, and nothing when the file has ended |
| Relation.SegmentSizes | src/file/reader.rs:113-144 | the walk reports each segment up to the first short one, in any directory; in a relation as the server keeps it, their whole pages total the flat file's |
| Relation.CountPages | src/file/reader.rs:103-106 | the page count is that of the segments up to the first short one, and the flat file's length in whole pages |
| BulkRead.TableFileReader.Descriptor | src/file/reader.rs:217-229 | cached or opened, the descriptor is that of the segment asked for |
| BulkRead.TableFileReader.ReadOnce | src/file/reader.rs:208-253 | one round extends the buffer by whole pages of the flat file, and stops only at a failure, a short read or the end |
| BulkRead.TableFileReader.ReadLoop | src/file/reader.rs:208-253 | the buffer's prefix is always whole pages of the range, and on a faithful kernel the loop ends at the range's or the relation's end |
| BulkRead.TableFileReader.ReadPagesBulk | src/file/reader.rs:195-259 | under any short or failed reads a whole-page prefix of the range; exactly the pages of the range that exist when reads are faithful; always terminates |
| BulkRead.CacheIsTransparent | src/file/reader.rs:206-229 | over any sequence of bulk reads, results equal those of a reader that reopens its segments for every call |
| PageCursor.PageReader.GetPageByIndex | src/file/reader.rs:270-306 | the page actually served, its parse result, and where the cursor is left, in every state |
| PageCursor.SequentialIsRandomAccess | src/file/reader.rs:270-306 | asking for pages 0, 1, 2, ... serves exactly those, across segments, until they end |
| PageCursor.ServesIff | src/file/reader.rs:270-306 | after page b, page i is served iff it exists and is next or b ended its segment |
| RowIter.PageRowIter.constructor | src/file/reader.rs:559-570 | a new iterator has every accepted row of the relation to yield |
| RowIter.PageRowIter.NextPage | src/file/reader.rs:601-622 | turning to the next block, by its split number, loses no row and ends exactly when no page is left |
| RowIter.PageRowIter.Next | src/file/reader.rs:587-660 | yields the rows get_row_data accepts, each once, in (block, slot) order, then None for good; terminates |
| Stream.PageOf | src/file/reader.rs:465-472 | the i-th batch of a range is the conversion of its i-th page |
| Stream.RangesConcatenate | src/file/reader.rs:427-431 | streams over [a, b) and [b, c) yield together what one over [a, c) does |
| Stream.RecordBatchStream.WithPagesPerBatch | src/file/reader.rs:419-422 | a batch size of 0 means the default; nothing else changes |
| Stream.RecordBatchStream.WithPageRange | src/file/reader.rs:427-431 | an unread stream starts at `start` and stops before `end` |
| Stream.RecordBatchStream.FillBuffer | src/file/reader.rs:437-480 | yielded then buffered batches stay the conversions of the pages read, in order; a batch of pages is read, or all that are left; a panic only if a page panics |
| Stream.RecordBatchStream.Next | src/file/reader.rs:483-503 | over a faithful kernel the k-th call yields page start + k's conversion, whatever the batch size, then None for good |
| Stream.Drain | src/file/reader.rs:349-355 | one full run yields each page of the range once; it fails iff some page panics; under short reads it is a prefix |
| Stream.ReadRange | src/file/reader.rs:419-431 | the result over [a, b) is the conversion of its existing pages, for every batch size |
| Stream.ReadAllToBatches | src/file/reader.rs:343-356 | all pages converted in order, or a panic iff one of them panics |
| AsyncStream.AsyncBatchStream.Refill | src/file/reader.rs:746-773 | a blocking task moves one batch of pages over and gives the stream back, or loses it to a panic |
| AsyncStream.AsyncBatchStream.NextBatch | src/file/reader.rs:733-775 | the k-th call yields what the k-th call of the synchronous stream does, and ends with None; a panicking page is one error and then the end |
| AsyncStream.SyncCalls | src/file/reader.rs:483-503 | any number of calls on the synchronous stream returns the pages' conversions, then None |
| AsyncStream.AsyncCalls | src/file/reader.rs:733-775 | any number of calls on the async stream returns the same |
| Parallel.ConvertedAt | src/file/reader.rs:521-528 | batch i of a conversion is that of page i |
| Parallel.ChunksPartition | src/file/reader.rs:531-538 | chunking loses, repeats and moves no page, and makes no more chunks than threads |
| Parallel.ChunkSizeIs | src/file/reader.rs:520-531 | threads are used for three pages or more, each but the last with the least number of pages for which that many threads suffice |
| Parallel.JoinedIsConvertAll | src/file/reader.rs:552-556 | joining chunk results in order is converting all pages, to the first error |
| Parallel.ThreadPanicsIff | src/file/reader.rs:531-550 | a thread panics iff some page panics and the earlier pages of its chunk convert |
| Parallel.ConvertPagesParallel | src/file/reader.rs:509-557 | however the threads are scheduled, the plain loop's result, or a panic if some page panics before any other of its chunk fails |
| Parallel.ParallelDiffersIff | src/file/reader.rs:509-557 | differs from the plain loop iff the first page to fail does not panic and a page of a later chunk does, before any other of that chunk fails |
| ParallelPages.PanicHidesEarlierError | src/file/reader.rs:548-550 | four heap pages on two threads where the plain loop's error is lost to a later panic |
| Scan.ConvertPage | src/file/reader.rs:465-472 | parsing and converting a page's bytes is the conversion the streams are given |
| Scan.StoredRelationIsScanned | src/file/reader.rs:437-503 | a relation of pages laid out from any stored rows converts, under any projection, iff each page's kept rows can be appended and taken in the selected columns, and then, page by page, to exactly those columns of those rows |
| Scan.KeptCount | src/heap/page.rs:353-367 | a page never keeps more rows than it iterates, and as many iff the filter drops none |
| Scan.RowCountsAgreeIff | src/heap/page.rs:759-796 | over a whole relation, batches have as many rows as the iterator yields iff the filter drops none of them |
| Scan.StoredRowCountsAgreeIff | src/heap/page.rs:759-796 | over a relation of stored rows that converts, the counts agree iff every stored row passes the filter |
| Scan.DeletedRowIsOnlyIterated | src/heap/page.rs:759-796 | a relation of one 8192-byte page with a deleted row, on which the two counts differ |
| Snapshot.RunKeepsInv | src/heap/snapshot.rs:5-13 | in every reachable state each snapshot describes the state it was taken in, and outcomes are final since |
| Snapshot.VisibleMeansFinished | src/heap/snapshot.rs:38-58 | visible iff finished when the snapshot was taken; committed then iff not aborted |
| Snapshot.VisibilityIsMonotone | src/heap/snapshot.rs:47-58 | once visible, visible in every later snapshot |
| SnapshotText.TextParses | src/heap/snapshot.rs:20-36 | two decimal fields and a comma list are read back, keeping exactly the entries that are numbers; out-of-range fields are refused |
| SnapshotText.ShortTexts | src/heap/snapshot.rs:20-28 | without a list there is none, and text without a colon is no snapshot |
| SnapshotText.PaddedNumberParses | src/heap/snapshot.rs:22-33 | blanks around a number and a plus sign before it are ignored, and 2^32 and beyond are refused |
| SnapshotText.ParseInvertsRender | src/heap/snapshot.rs:20-36 | every snapshot of 32-bit ids is read back from its text |
| SnapshotText.NumbersAreDigits | src/heap/snapshot.rs:22-33 | only digits after at most one plus sign are read as a number, and only below 2^32 |
| SnapshotText.VisibleIffNotRead | src/heap/snapshot.rs:28-34 | a transaction in the snapshot's window is visible iff no entry reads as its id |
| Mvcc.KeptIff | src/heap/page.rs:353-367 | which tuples are kept, with and without a snapshot, by xmax, bit 0x0800 of t_infomask and xmin |
| Mvcc.KeptIsVisibleIffInserterCommitted | src/heap/page.rs:353-367 | a kept row satisfies the MVCC algorithm iff its inserter committed |
| Mvcc.VisibleIsKeptIffUndeleted | src/heap/page.rs:353-367 | a visible row is kept iff xmax is 0 or bit 0x0800 of t_infomask is set and, if frozen, its xmin passes the snapshot test |
| Mvcc.FrozenRowIsDropped | docs/design/DESIGN.md:1243-1318 | a row frozen after the snapshot was taken that is visible and yet dropped |
| Mvcc.LockedRowIsDropped | docs/design/DESIGN.md:1289-1290 | a locked row of a committed transaction that is visible and yet dropped |
| Mvcc.RolledBackDeleteIsKept | docs/design/DESIGN.md:1280-1290 | a row whose deletion was rolled back, flagged 0x0900, is visible and kept |
| Mvcc.CommittedDeleteIsGone | docs/design/DESIGN.md:1280-1318 | a row deleted by a committed transaction is neither; a multixact decides for itself |
| Mvcc.KeptRowsAreSoundInRuns | src/heap/page.rs:353-367 | in every run of the server, a kept row's inserter had finished at the snapshot, and the row is visible iff it had committed |
| Schema.ColumnsAreAttributes | src/types/column.rs:50-58 | field by field: a column's type, typmod and nullability are its attribute's |
| Schema.SchemaIsLiveAttributes | src/types/schema.rs:31-38 | the schema is the attributes that are neither dropped nor system columns, each as often as it occurs, in ascending order |
| Schema.SchemaPositionIsTuplePositionIff | src/types/schema.rs:31-45 | column k of the schema is value k of a tuple iff no dropped column precedes it |
| Schema.ProjectPicks | src/types/schema.rs:81-87 | a projection has column p[j] at j, and panics iff an index is out of range |
| Schema.ProjectionsCompose | src/types/schema.rs:81-87 | projecting a projection is projecting once |
| TypeCatalog.LengthIsCatalogues | src/types/codec.rs:186-262 | every type is as long as pg_type has it |
| TypeCatalog.AlignmentIsCatalogues | src/types/codec.rs:264-335 | every type but an array is aligned as pg_type has it, and arrays to 4 bytes |
| TypeCatalog.ArrayIsMisalignedIff | src/types/codec.rs:310-332 | exactly five array types are aligned otherwise than the server aligns them |
| TypeCatalog.ArraysAreLists | src/types/codec.rs:757-829 | an array is declared as a list of what its element type is declared as |
| TypeCatalog.IntegersAreAsWide | src/types/codec.rs:757-829 | signed integers are declared as wide as they are stored |
| TypeCatalog.BinariesAreAsWide | src/types/codec.rs:757-829 | and so are fixed-size binaries |
| TypeCatalog.DeclaredIntegers | src/types/codec.rs:757-829 | which types are declared as signed and unsigned integers |
| TypeCatalog.DeclaredInstants | src/types/codec.rs:757-829 | which as timestamps, and which of these with a time zone |
| TypeCatalog.DeclaredTexts | src/types/codec.rs:757-829 | which as text, and which as bytes of a fixed number |

## Left out

- Leaf rendering: the text, time, float and other conversions of a payload, and whether they fail, are one uninterpreted predicate for rows and the raw bytes for columns; only NUMERIC, dates and timestamps are rendered in full.
- The layout follows the crate's alignment table (src/types/codec.rs:310-332), which aligns every array type to 4 bytes. PostgreSQL aligns arrays of int8, float8, time, timestamp and timestamptz to 8 (TypeCatalog.ArrayIsMisalignedIff); pages with such columns, which the page path refuses anyway, are not what a server writes.
- RecordBatch.try_new: its checks are those of column count, lengths, types and nullability; names, metadata and memory are not modelled.
- `PgRow::to_record_batch` and `build_arrow_array`: the slow Arrow path, a table of cases.
- TOAST and PGLZ: not implemented by the crate; an out-of-line pointer delivers nothing and a compressed payload is delivered as stored, as in the code.
- Tuples with fewer attributes than the schema, and catalogue rows that break the numbering of `OfOneRelation`: the code has no handling of them.
- MVCC: visibility of a transaction's own commands and wraparound of ids are not modelled; a multixact is resolved by a parameter.
- BulkRead.CacheIsTransparent: the relation does not change between calls; a segment that is unlinked and recreated under a cached descriptor is not modelled.
- PageCursor.PageReader.GetPageByIndex: reads of an open segment fail only for want of bytes; other I/O errors are not modelled here.
- RowIter.PageRowIter.constructor: asks for fewer than 2^32 pages, PostgreSQL's own limit; a row is read through a function field the constructor sets to get_row_data.
- Stream.RecordBatchStream.Next: the stream is stated for any function from a snapshot and a page's bytes to a batch; `Scan.ConvertPage` ties parsing and conversion to such a function. After a panic the stream promises nothing.
- AsyncStream.AsyncBatchStream.NextBatch: cancellation of a call, which would lose the inner stream, and the scheduler itself are not modelled; an error other than a panic cannot reach the wrapper, so that arm is absent.
- Parallel.ConvertPagesParallel: threads run to completion one after another in any order; they share nothing they write.
- Paths, configuration, catalogue caching, the relation map file and logging: no property of the data depends on them.
- Memory and `usize` limits: a batch size whose buffer cannot be allocated is not modelled.
