/** Whole scans: pages read, parsed and converted, and the two ways of counting rows
    (src/file/reader.rs, tests in src/heap/page.rs:732-797). */
module Scan {
  import opened Base
  import opened Codec
  import opened HeapTuples
  import opened RowDecode
  import opened HeapLayout
  import opened TupleImage
  import opened Builder
  import opened ArrowTypes
  import opened Snapshot
  import opened Mvcc
  import opened Page
  import opened PageTheorems
  import opened PageRoundTrip
  import opened PageImage
  import opened Relation
  import opened RowIter
  import opened Stream

  /** parse_bytes and to_record_batch on one page. */
  function ToBatch(cols: seq<PgColumn>, projection: Option<seq<nat>>): PageConverter<PgSnapshot, Batch> {
    (snapshot: Option<PgSnapshot>, bytes: seq<byte>) =>
      match ParsedPage(bytes)
      case Err(_) => None
      case Ok(page) => BatchOf(PageBatch(page, cols, projection, snapshot))
  }

  function BatchOf(r: Result<Batch>): Option<Batch> { if r.Ok? then Some(r.value) else None }

  /** The page loop's body in fill_buffer. */
  method ConvertPage(cols: seq<PgColumn>, projection: Option<seq<nat>>, snapshot: Option<PgSnapshot>, bytes: seq<byte>)
    returns (batch: Option<Batch>)
    ensures batch == ToBatch(cols, projection)(snapshot, bytes)
  {
    var page := ParseBytes(bytes);
    if page.Err? {
      return None;
    }
    var r := ToRecordBatch(page.value, cols, projection, snapshot);
    return BatchOf(r);
  }

  // ── Stored relations ─────────────────────────────────────────────────────

  /** Page `b` of the relation is the server's layout of the rows of `slots`. */
  ghost predicate PageStores(segs: Segments, b: nat, cols: seq<PgColumn>, slots: seq<Option<StoredRow>>)
    requires b < NumPages(segs)
  {
    IsPageOf(PageAt(segs, b), Layouts(Types(cols)), slots)
  }

  /** The kept rows of a page convert: no payload in a selected column that cannot be
      appended, and no selected column that is not taken. */
  ghost predicate ConvertsTo(cols: seq<PgColumn>, projection: Option<seq<nat>>, kept: seq<StoredRow>) {
    var p := Selected(projection, |cols|);
    projection == Some([]) || (InRange(p, |cols|) && AllAppend(cols, p, kept) && AllTaken(cols, p, kept))
  }

  ghost predicate IsKeptBatch(batch: Batch, cols: seq<PgColumn>, projection: Option<seq<nat>>, kept: seq<StoredRow>) {
    var p := Selected(projection, |cols|);
    AllFit(Layouts(Types(cols)), kept) && InRange(p, |cols|) && IsBatchOf(batch, cols, p, kept)
  }

  /** What a page's conversion is: the selected columns of the kept rows, if those convert. */
  ghost predicate IsConversion(batch: Option<Batch>, cols: seq<PgColumn>, projection: Option<seq<nat>>,
                               kept: seq<StoredRow>)
  {
    && (batch.Some? <==> ConvertsTo(cols, projection, kept))
    && (batch.Some? ==> IsKeptBatch(batch.value, cols, projection, kept))
  }

  lemma ConvertsIsConversion(r: Result<Batch>, cols: seq<PgColumn>, projection: Option<seq<nat>>, kept: seq<StoredRow>)
    requires Converts(r, cols, projection, kept)
    ensures IsConversion(BatchOf(r), cols, projection, kept)
  {
  }

  lemma StoredPageConverts(bytes: seq<byte>, cols: seq<PgColumn>, projection: Option<seq<nat>>,
                           slots: seq<Option<StoredRow>>, snapshot: Option<PgSnapshot>)
    requires IsPageOf(bytes, Layouts(Types(cols)), slots)
    ensures IsConversion(ToBatch(cols, projection)(snapshot, bytes), cols, projection, KeptRows(slots, snapshot))
  {
    PageOfRowsHolds(bytes, Layouts(Types(cols)), slots);
    var page := ParsedPage(bytes).value;
    StoredPageIsConverted(page, cols, projection, slots, snapshot);
    ConvertsIsConversion(PageBatch(page, cols, projection, snapshot), cols, projection, KeptRows(slots, snapshot));
    assert ToBatch(cols, projection)(snapshot, bytes) == BatchOf(PageBatch(page, cols, projection, snapshot));
  }

  /** The rows that pass the filter, page by page. */
  function KeptPages(slots: seq<seq<Option<StoredRow>>>, snapshot: Option<PgSnapshot>): (kept: seq<seq<StoredRow>>)
    ensures |kept| == |slots| && forall b :: 0 <= b < |kept| ==> kept[b] == KeptRows(slots[b], snapshot)
  {
    seq(|slots|, b requires 0 <= b < |slots| => KeptRows(slots[b], snapshot))
  }

  ghost predicate PagesConvert(cols: seq<PgColumn>, projection: Option<seq<nat>>, kept: seq<seq<StoredRow>>) {
    forall b :: 0 <= b < |kept| ==> ConvertsTo(cols, projection, kept[b])
  }

  /** The batches are exactly these rows' selected columns, page by page. */
  ghost predicate AreBatchesOf(batches: seq<Batch>, cols: seq<PgColumn>, projection: Option<seq<nat>>,
                               kept: seq<seq<StoredRow>>)
  {
    |batches| == |kept| && forall b :: 0 <= b < |kept| ==> IsKeptBatch(batches[b], cols, projection, kept[b])
  }

  ghost predicate AreConversions(conversions: Conversions<Batch>, cols: seq<PgColumn>, projection: Option<seq<nat>>,
                                 kept: seq<seq<StoredRow>>)
  {
    |conversions| == |kept| && forall b :: 0 <= b < |kept| ==> IsConversion(conversions[b], cols, projection, kept[b])
  }

  lemma PagesConvertIff(conversions: Conversions<Batch>, cols: seq<PgColumn>, projection: Option<seq<nat>>,
                        kept: seq<seq<StoredRow>>)
    requires AreConversions(conversions, cols, projection, kept)
    ensures AllConvert(conversions, 0, |kept|) <==> PagesConvert(cols, projection, kept)
  {
  }

  lemma ConvertedBatch(conversion: Option<Batch>, cols: seq<PgColumn>, projection: Option<seq<nat>>,
                       kept: seq<StoredRow>, batch: Batch)
    requires IsConversion(conversion, cols, projection, kept) == true && conversion == Some(batch)
    ensures IsKeptBatch(batch, cols, projection, kept)
  {
  }

  lemma BatchOfPage(conversions: Conversions<Batch>, cols: seq<PgColumn>, projection: Option<seq<nat>>,
                    kept: seq<seq<StoredRow>>, b: nat)
    requires AllConvert(conversions, 0, |kept|) && b < |kept|
    requires IsConversion(conversions[b], cols, projection, kept[b]) == true
    ensures IsKeptBatch(Pages(conversions, 0, |kept|)[b], cols, projection, kept[b])
  {
    PageOf(conversions, 0, |kept|, b);
    ConvertedBatch(conversions[b], cols, projection, kept[b], Pages(conversions, 0, |kept|)[b]);
  }

  lemma BatchesOfPages(conversions: Conversions<Batch>, cols: seq<PgColumn>, projection: Option<seq<nat>>,
                       kept: seq<seq<StoredRow>>)
    requires AreConversions(conversions, cols, projection, kept) == true && AllConvert(conversions, 0, |kept|)
    ensures AreBatchesOf(Pages(conversions, 0, |kept|), cols, projection, kept)
  {
    forall b | 0 <= b < |kept| ensures IsKeptBatch(Pages(conversions, 0, |kept|)[b], cols, projection, kept[b]) {
      BatchOfPage(conversions, cols, projection, kept, b);
    }
  }

  /** A scan of a relation of stored pages, under any projection, succeeds exactly when the
      rows of each page that pass the filter convert, and it then yields, page by page, exactly
      the selected columns of those rows. With the contracts of ReadAllToBatches and the
      streams, this is what a reader gets. */
  lemma StoredRelationIsScanned(segs: Segments, cols: seq<PgColumn>, projection: Option<seq<nat>>,
                                slots: seq<seq<Option<StoredRow>>>, snapshot: Option<PgSnapshot>)
    requires |slots| == NumPages(segs)
    requires forall b :: 0 <= b < |slots| ==> PageStores(segs, b, cols, slots[b])
    ensures var conversions := ConversionsOf(segs, ToBatch(cols, projection), snapshot);
            var kept := KeptPages(slots, snapshot);
            && (AllConvert(conversions, 0, |slots|) <==> PagesConvert(cols, projection, kept))
            && (AllConvert(conversions, 0, |slots|) ==>
                  AreBatchesOf(Pages(conversions, 0, |slots|), cols, projection, kept))
  {
    var conversions := ConversionsOf(segs, ToBatch(cols, projection), snapshot);
    forall b | 0 <= b < |slots| ensures IsConversion(conversions[b], cols, projection, KeptPages(slots, snapshot)[b]) {
      assert PageStores(segs, b, cols, slots[b]);
      StoredPageConverts(PageAt(segs, b), cols, projection, slots[b], snapshot);
    }
    PagesConvertIff(conversions, cols, projection, KeptPages(slots, snapshot));
    if AllConvert(conversions, 0, |slots|) {
      BatchesOfPages(conversions, cols, projection, KeptPages(slots, snapshot));
    }
  }

  // ── Row counts ───────────────────────────────────────────────────────────

  function NumRows(batch: Batch): nat { if batch == [] then 0 else |batch[0]| }

  function TotalRows(batches: seq<Batch>): nat {
    if batches == [] then 0 else NumRows(batches[0]) + TotalRows(batches[1..])
  }

  /** The filter keeps every tuple that get_row_data accepts. */
  ghost predicate NoneDropped(page: HeapPage, snapshot: Option<PgSnapshot>) {
    forall k: nat :: k < |page.items| && GetRowData(page, k).Ok? ==> Kept(GetRowData(page, k).value.header, snapshot)
  }

  lemma {:induction false} PickedCount(pick: nat -> Option<HeapTuple>, read: RowReader, page: HeapPage, k: nat)
    requires k <= |page.items| && forall j: nat :: pick(j).Some? ==> read(page, j).Ok?
    ensures |Collect(pick, |page.items|, k)| <= |Accepted(read, page, k)|
    ensures |Collect(pick, |page.items|, k)| == |Accepted(read, page, k)| <==>
            forall j: nat :: k <= j < |page.items| && read(page, j).Ok? ==> pick(j).Some?
    decreases |page.items| - k
  {
    if k < |page.items| {
      PickedCount(pick, read, page, k + 1);
    }
  }

  /** The filter drops rows, and none exactly when every accepted row passes. */
  lemma KeptCount(page: HeapPage, snapshot: Option<PgSnapshot>)
    ensures |KeptTuples(page, snapshot)| <= |Accepted(ReadRow(), page, 0)|
    ensures |KeptTuples(page, snapshot)| == |Accepted(ReadRow(), page, 0)| <==> NoneDropped(page, snapshot)
  {
    var pick, read := Picker(page, snapshot), ReadRow();
    PickedCount(pick, read, page, 0);
    if NoneDropped(page, snapshot) {
      forall j: nat | j < |page.items| && read(page, j).Ok? ensures pick(j).Some? {
        assert GetRowData(page, j).Ok?;
      }
    }
    if forall j: nat :: 0 <= j < |page.items| && read(page, j).Ok? ==> pick(j).Some? {
      forall k: nat | k < |page.items| && GetRowData(page, k).Ok? ensures Kept(GetRowData(page, k).value.header, snapshot) {
        assert read(page, k).Ok?;
      }
    }
  }

  lemma FirstOfPages(conversions: Conversions<Batch>, b: nat, n: nat)
    requires b < n && AllConvert(conversions, b, n)
    ensures TotalRows(Pages(conversions, b, n)) == NumRows(conversions[b].value) + TotalRows(Pages(conversions, b + 1, n))
  {
    PagesConcatenate(conversions, b, b + 1, n);
    assert Pages(conversions, b, b) == [];
    assert Pages(conversions, b, n) == [conversions[b].value] + Pages(conversions, b + 1, n);
  }

  lemma FirstOfRows(pages: ParsedPages, n: nat, read: RowReader, b: nat)
    requires b < n && pages(b).Ok?
    ensures |RowsFrom(pages, n, read, b)| == |Accepted(read, pages(b).value, 0)| + |RowsFrom(pages, n, read, b + 1)|
  {
  }

  lemma {:induction false} RowTotals(conversions: Conversions<Batch>, pages: ParsedPages, n: nat, read: RowReader, b: nat)
    requires b <= n && AllConvert(conversions, b, n)
    requires forall i: nat :: b <= i < n ==>
               pages(i).Ok? && NumRows(conversions[i].value) <= |Accepted(read, pages(i).value, 0)|
    ensures TotalRows(Pages(conversions, b, n)) <= |RowsFrom(pages, n, read, b)|
    ensures TotalRows(Pages(conversions, b, n)) == |RowsFrom(pages, n, read, b)| <==>
            forall i: nat :: b <= i < n ==> NumRows(conversions[i].value) == |Accepted(read, pages(i).value, 0)|
    decreases n - b
  {
    if b < n {
      FirstOfPages(conversions, b, n);
      FirstOfRows(pages, n, read, b);
      RowTotals(conversions, pages, n, read, b + 1);
    }
  }

  lemma PageRows(segs: Segments, cols: seq<PgColumn>, projection: Option<seq<nat>>, snapshot: Option<PgSnapshot>, b: nat)
    requires b < NumPages(segs) && projection != Some([])
    requires ToBatch(cols, projection)(snapshot, PageAt(segs, b)).Some?
    ensures PagesIn(segs)(b).Ok? && PagesIn(segs)(b) == ParsedPage(PageAt(segs, b))
    ensures var page := ParsedPage(PageAt(segs, b)).value;
            var rows := NumRows(ToBatch(cols, projection)(snapshot, PageAt(segs, b)).value);
            && rows <= |Accepted(ReadRow(), page, 0)|
            && (rows == |Accepted(ReadRow(), page, 0)| <==> NoneDropped(page, snapshot))
  {
    BatchIsRectangular(ParsedPage(PageAt(segs, b)).value, cols, projection, snapshot);
    KeptCount(ParsedPage(PageAt(segs, b)).value, snapshot);
  }

  /** The row iterator never yields fewer rows than there are in the batches, and as many
      exactly when the filter drops no row it yields: without a snapshot, when no xmax is
      recorded and valid. */
  lemma RowCountsAgreeIff(segs: Segments, cols: seq<PgColumn>, projection: Option<seq<nat>>, snapshot: Option<PgSnapshot>)
    requires segs != [] && projection != Some([])
    requires AllConvert(ConversionsOf(segs, ToBatch(cols, projection), snapshot), 0, NumPages(segs))
    ensures var batches := Pages(ConversionsOf(segs, ToBatch(cols, projection), snapshot), 0, NumPages(segs));
            && TotalRows(batches) <= |AllRows(segs)|
            && (TotalRows(batches) == |AllRows(segs)| <==>
                  forall b: nat :: b < NumPages(segs) ==>
                    ParsedPage(PageAt(segs, b)).Ok? && NoneDropped(ParsedPage(PageAt(segs, b)).value, snapshot))
  {
    var conversions, n := ConversionsOf(segs, ToBatch(cols, projection), snapshot), NumPages(segs);
    forall b: nat | b < n
      ensures PagesIn(segs)(b).Ok? && PagesIn(segs)(b) == ParsedPage(PageAt(segs, b))
      ensures NumRows(conversions[b].value) <= |Accepted(ReadRow(), PagesIn(segs)(b).value, 0)|
      ensures NumRows(conversions[b].value) == |Accepted(ReadRow(), PagesIn(segs)(b).value, 0)| <==>
              NoneDropped(ParsedPage(PageAt(segs, b)).value, snapshot)
    {
      PageRows(segs, cols, projection, snapshot, b);
    }
    RowTotals(conversions, PagesIn(segs), n, ReadRow(), 0);
  }

  // ── Row counts of stored relations ──────────────────────────────────────

  /** Every stored row passes the filter. */
  predicate AllKept(slots: seq<Option<StoredRow>>, snapshot: Option<PgSnapshot>) {
    forall k :: 0 <= k < |slots| && slots[k].Some? ==> slots[k].value.IsKept(snapshot)
  }

  lemma NoneDroppedIff(page: HeapPage, layouts: seq<ColLayout>, slots: seq<Option<StoredRow>>,
                       snapshot: Option<PgSnapshot>)
    requires PageHolds(page, layouts, slots)
    ensures NoneDropped(page, snapshot) <==> AllKept(slots, snapshot)
  {
    forall k: nat | k < |slots|
      ensures GetRowData(page, k).Ok? <==> slots[k].Some?
      ensures slots[k].Some? ==> (Kept(GetRowData(page, k).value.header, snapshot) <==> slots[k].value.IsKept(snapshot))
    {
      SlotIsRead(page, layouts, slots, k);
    }
  }

  lemma StoredPageDropsIff(bytes: seq<byte>, layouts: seq<ColLayout>, slots: seq<Option<StoredRow>>,
                           snapshot: Option<PgSnapshot>)
    requires IsPageOf(bytes, layouts, slots) == true
    ensures ParsedPage(bytes).Ok? && (NoneDropped(ParsedPage(bytes).value, snapshot) <==> AllKept(slots, snapshot))
  {
    PageOfRowsHolds(bytes, layouts, slots);
    NoneDroppedIff(ParsedPage(bytes).value, layouts, slots, snapshot);
  }

  ghost predicate AllPagesKept(slots: seq<seq<Option<StoredRow>>>, snapshot: Option<PgSnapshot>) {
    forall b :: 0 <= b < |slots| ==> AllKept(slots[b], snapshot)
  }

  lemma StoredDropsIff(segs: Segments, cols: seq<PgColumn>, slots: seq<seq<Option<StoredRow>>>,
                       snapshot: Option<PgSnapshot>)
    requires |slots| == NumPages(segs) && forall b :: 0 <= b < |slots| ==> PageStores(segs, b, cols, slots[b])
    ensures (forall b: nat :: b < NumPages(segs) ==>
              ParsedPage(PageAt(segs, b)).Ok? && NoneDropped(ParsedPage(PageAt(segs, b)).value, snapshot))
            <==> AllPagesKept(slots, snapshot)
  {
    forall b: nat | b < |slots|
      ensures ParsedPage(PageAt(segs, b)).Ok?
      ensures NoneDropped(ParsedPage(PageAt(segs, b)).value, snapshot) <==> AllKept(slots[b], snapshot)
    {
      assert PageStores(segs, b, cols, slots[b]);
      StoredPageDropsIff(PageAt(segs, b), Layouts(Types(cols)), slots[b], snapshot);
    }
  }

  /** Over a relation of stored pages that converts, under any projection to some column, the
      two counts are the same exactly when every stored row passes the filter. */
  lemma StoredRowCountsAgreeIff(segs: Segments, cols: seq<PgColumn>, projection: Option<seq<nat>>,
                                slots: seq<seq<Option<StoredRow>>>, snapshot: Option<PgSnapshot>)
    requires segs != [] && projection != Some([]) && |slots| == NumPages(segs)
    requires forall b :: 0 <= b < |slots| ==> PageStores(segs, b, cols, slots[b])
    requires AllConvert(ConversionsOf(segs, ToBatch(cols, projection), snapshot), 0, |slots|)
    ensures var batches := Pages(ConversionsOf(segs, ToBatch(cols, projection), snapshot), 0, |slots|);
            && TotalRows(batches) <= |AllRows(segs)|
            && (TotalRows(batches) == |AllRows(segs)| <==> AllPagesKept(slots, snapshot))
  {
    RowCountsAgreeIff(segs, cols, projection, snapshot);
    StoredDropsIff(segs, cols, slots, snapshot);
  }

  /** A relation of one page. */
  lemma OnePageRelation(bytes: seq<byte>, cols: seq<PgColumn>, slots: seq<Option<StoredRow>>)
    requires |bytes| == PAGE_SIZE && IsPageOf(bytes, Layouts(Types(cols)), slots) == true
    ensures Valid([bytes]) && NumPages([bytes]) == 1 && PageStores([bytes], 0, cols, slots)
  {
    assert Flat([bytes]) == bytes + [] == bytes;
  }

  /** A page whose one row is dropped converts to no rows. */
  lemma NothingKeptConverts(cols: seq<PgColumn>, s: StoredRow, snapshot: Option<PgSnapshot>)
    requires !s.IsKept(snapshot)
    requires |cols| > 0 && forall c :: 0 <= c < |cols| ==> FieldType(cols[c]) == ArrayType(cols[c])
    ensures PagesConvert(cols, None, KeptPages([[Some(s)]], snapshot)) && !AllKept([Some(s)], snapshot)
  {
    assert KeptRows([Some(s)], snapshot) == [];
    assert [Some(s)][0] == Some(s);
  }

  lemma DroppedRowIsOnlyIterated(segs: Segments, cols: seq<PgColumn>, s: StoredRow, snapshot: Option<PgSnapshot>)
    requires segs != [] && |cols| > 0 && NumPages(segs) == 1 && PageStores(segs, 0, cols, [Some(s)])
    requires !s.IsKept(snapshot) && forall c :: 0 <= c < |cols| ==> FieldType(cols[c]) == ArrayType(cols[c])
    ensures var conversions := ConversionsOf(segs, ToBatch(cols, None), snapshot);
            AllConvert(conversions, 0, 1) && TotalRows(Pages(conversions, 0, 1)) < |AllRows(segs)|
  {
    var slots := [[Some(s)]];
    NothingKeptConverts(cols, s, snapshot);
    StoredRelationIsScanned(segs, cols, None, slots, snapshot);
    StoredRowCountsAgreeIff(segs, cols, None, slots, snapshot);
    assert slots[0] == [Some(s)];
  }

  lemma OneLayout(col: PgColumn)
    ensures |Layouts(Types([col]))| == 1 && Layouts(Types([col])) == [Layouts(Types([col]))[0]]
  {
  }

  /** A NULL in an int4 column, deleted by any transaction. */
  ghost predicate IsDeletedNull(col: PgColumn, s: StoredRow) {
    col.typeId.Int4? && s.row == [VNull] && s.meta.Valid() && s.meta.xmax != 0 && s.meta.flags == 0
  }

  lemma DeletedRowFits(col: PgColumn, s: StoredRow)
    requires IsDeletedNull(col, s)
    ensures s.Fits(Layouts(Types([col]))) && FitsAlone(Layouts(Types([col])), s)
    ensures forall snapshot :: !s.IsKept(snapshot)
  {
    OneLayout(col);
    ShortRowFits(Layouts(Types([col]))[0], s);
  }

  /** 8192 bytes with that row. */
  function DeletedRowPage(col: PgColumn, s: StoredRow): (bytes: seq<byte>)
    requires IsDeletedNull(col, s)
    ensures |bytes| == PAGE_SIZE && IsPageOf(bytes, Layouts(Types([col])), [Some(s)])
  {
    DeletedRowFits(col, s);
    OneRowPageIsPage(Layouts(Types([col])), s);
    OneRowPage(Layouts(Types([col])), s)
  }

  lemma DeletedRowCounts(bytes: seq<byte>, col: PgColumn, s: StoredRow, snapshot: Option<PgSnapshot>)
    requires IsDeletedNull(col, s) && |bytes| == PAGE_SIZE && IsPageOf(bytes, Layouts(Types([col])), [Some(s)]) == true
    ensures var conversions := ConversionsOf([bytes], ToBatch([col], None), snapshot);
            && Valid([bytes]) && NumPages([bytes]) == 1 && AllConvert(conversions, 0, 1)
            && TotalRows(Pages(conversions, 0, 1)) < |AllRows([bytes])|
  {
    DeletedRowFits(col, s);
    OnePageRelation(bytes, [col], [Some(s)]);
    BuiltAsDeclaredIff(col);
    DroppedRowIsOnlyIterated([bytes], [col], s, snapshot);
  }

  /** The relation of that page, whoever deleted the row and whether or not that committed:
      it converts, to no rows, but the iterator yields one. */
  lemma DeletedRowIsOnlyIterated(col: PgColumn, s: StoredRow, snapshot: Option<PgSnapshot>)
    requires IsDeletedNull(col, s)
    ensures var segs := [DeletedRowPage(col, s)];
            var conversions := ConversionsOf(segs, ToBatch([col], None), snapshot);
            && Valid(segs) && NumPages(segs) == 1 && AllConvert(conversions, 0, 1)
            && TotalRows(Pages(conversions, 0, 1)) < |AllRows(segs)|
  {
    DeletedRowCounts(DeletedRowPage(col, s), col, s, snapshot);
  }
}
