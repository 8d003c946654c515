/** Four heap pages whose parallel conversion loses an error (src/file/reader.rs:509-557). */
module ParallelPages {
  import opened Base
  import opened Codec
  import opened Deform
  import opened RowDecode
  import opened HeapLayout
  import opened TupleImage
  import opened Builder
  import opened ArrowTypes
  import opened Snapshot
  import opened Mvcc
  import opened Page
  import opened PageTheorems
  import opened PageRoundTrip
  import opened PageImage
  import opened Refusals
  import opened Parallel

  /** The conversion that the parallel path runs on each page. */
  function PageConvert(cols: seq<PgColumn>, projection: Option<seq<nat>>): Parallel.Convert<HeapPage, Batch> {
    (page: HeapPage) => PageBatch(page, cols, projection, None)
  }

  /** A stored, undeleted row of one nullable date column. */
  ghost predicate IsDateRow(col: PgColumn, s: StoredRow) {
    && col.typeId.Date? && col.nullable && s.meta.Valid() && s.meta.xmax == 0
    && |s.row| == 1 && s.row[0].Stored? && s.row[0].form.FixedWidth? && |s.row[0].bytes| == 4
  }

  lemma DateRowFits(col: PgColumn, s: StoredRow)
    requires IsDateRow(col, s)
    ensures s.Fits(Layouts(Types([col]))) && FitsAlone(Layouts(Types([col])), s)
  {
    var layouts := Layouts(Types([col]));
    var l := layouts[0];
    assert layouts == [l] && l.len == Fixed(4);
    assert |EncodeValue(l, s.row[0], 0)| == 4;
    ShortRowFits(l, s);
  }

  lemma DateRowIsKept(col: PgColumn, s: StoredRow)
    requires IsDateRow(col, s)
    ensures KeptRows([Some(s)], None) == [s]
  {
    assert s.IsKept(None);
    assert RowPicker([Some(s)], None)(0) == Some(s);
  }

  /** The page of 8192 bytes that holds only that row, parsed. */
  function DatePage(col: PgColumn, s: StoredRow): (page: HeapPage)
    requires IsDateRow(col, s)
    ensures PageHolds(page, Layouts(Types([col])), [Some(s)])
  {
    DateRowFits(col, s);
    OneRowPageIsPage(Layouts(Types([col])), s);
    PageOfRowsHolds(OneRowPage(Layouts(Types([col])), s), Layouts(Types([col])), [Some(s)]);
    ParsedPage(OneRowPage(Layouts(Types([col])), s)).value
  }

  function NoRows(col: PgColumn): (page: HeapPage)
    ensures PageHolds(page, Layouts(Types([col])), [])
  {
    EmptyPageIsPage(Layouts(Types([col])));
    PageOfRowsHolds(EmptyPage(), Layouts(Types([col])), []);
    ParsedPage(EmptyPage()).value
  }

  /** The column, twice. */
  const TWICE: seq<nat> := [0, 0]

  lemma EarlyDateAppends(col: PgColumn, s: StoredRow)
    requires IsDateRow(col, s) && !TooLate(col.typeId, s.row[0])
    ensures AllAppend([col], TWICE, [s]) && !AllTaken([col], TWICE, [s])
  {
    ShiftedWord(col, s.row[0].bytes);
    assert TWICE[0] == TWICE[1];
  }

  lemma DateIsRefused(page: HeapPage, col: PgColumn, s: StoredRow)
    requires IsDateRow(col, s) && !TooLate(col.typeId, s.row[0])
    requires PageHolds(page, Layouts(Types([col])), [Some(s)]) == true
    ensures PageBatch(page, [col], Some(TWICE), None) == Err(ArrowConversionFailed)
  {
    DateRowIsKept(col, s);
    EarlyDateAppends(col, s);
    StoredPageIsConverted(page, [col], Some(TWICE), [Some(s)], None);
  }

  lemma NoRowsConvert(page: HeapPage, col: PgColumn)
    requires col.typeId.Date? && PageHolds(page, Layouts(Types([col])), []) == true
    ensures PageBatch(page, [col], Some(TWICE), None).Ok?
  {
    NoRowsAreTaken(col);
    StoredPageIsConverted(page, [col], Some(TWICE), [], None);
  }

  lemma NoRowsAreTaken(col: PgColumn)
    requires col.typeId.Date?
    ensures KeptRows([], None) == [] && AllAppend([col], TWICE, []) && AllTaken([col], TWICE, [])
  {
    BuiltAsDeclaredIff(col);
  }

  lemma LateDatePagePanics(page: HeapPage, col: PgColumn, s: StoredRow)
    requires IsDateRow(col, s) && TooLate(col.typeId, s.row[0])
    requires PageHolds(page, Layouts(Types([col])), [Some(s)]) == true
    ensures PageBatch(page, [col], Some(TWICE), None) == Err(Panic)
  {
    DateRowIsKept(col, s);
    LateDatePanics(page, [col], Some(TWICE), [Some(s)], None, 0, 0);
  }

  lemma LastPanics<P, T>(pages: seq<P>, convert: Parallel.Convert<P, T>)
    requires |pages| == 4 && convert(pages[0]) == Err(ArrowConversionFailed)
    requires convert(pages[2]).Ok? && convert(pages[3]) == Err(Panic)
    ensures ConvertAll(pages, convert) == Err(ArrowConversionFailed) && ParallelResult(pages, convert, 2) == Err(Panic)
  {
    assert ChunkSize(pages, 2) == 2 && ChunkStart(2, 3) == 2;
    assert PanicsFirst(pages, convert, 2, 3);
  }

  lemma FourPages(a: HeapPage, b: HeapPage, d: HeapPage, col: PgColumn, early: StoredRow, late: StoredRow)
    requires IsDateRow(col, early) && !TooLate(col.typeId, early.row[0])
    requires IsDateRow(col, late) && TooLate(col.typeId, late.row[0])
    requires PageHolds(a, Layouts(Types([col])), [Some(early)]) == true
    requires PageHolds(b, Layouts(Types([col])), []) == true
    requires PageHolds(d, Layouts(Types([col])), [Some(late)]) == true
    ensures ConvertAll([a, b, b, d], PageConvert([col], Some(TWICE))) == Err(ArrowConversionFailed)
    ensures ParallelResult([a, b, b, d], PageConvert([col], Some(TWICE)), 2) == Err(Panic)
  {
    DateIsRefused(a, col, early);
    NoRowsConvert(b, col);
    LateDatePagePanics(d, col, late);
    LastPanics([a, b, b, d], PageConvert([col], Some(TWICE)));
  }

  /** Two of these pages have a row: the first a date, which the projection refuses, the last
      'infinity', which panics. With two threads, the error is lost. */
  lemma PanicHidesEarlierError(col: PgColumn, early: StoredRow, late: StoredRow)
    requires IsDateRow(col, early) && !TooLate(col.typeId, early.row[0])
    requires IsDateRow(col, late) && TooLate(col.typeId, late.row[0])
    ensures var pages := [DatePage(col, early), NoRows(col), NoRows(col), DatePage(col, late)];
            var convert := PageConvert([col], Some(TWICE));
            && ConvertAll(pages, convert) == Err(ArrowConversionFailed)
            && ParallelResult(pages, convert, 2) == Err(Panic)
  {
    FourPages(DatePage(col, early), NoRows(col), DatePage(col, late), col, early, late);
  }
}
