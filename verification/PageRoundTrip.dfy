/** From stored rows to Arrow columns: a page's bytes, its filter and its conversion at once. */
module PageRoundTrip {
  import opened Base
  import opened Codec
  import opened HeapTuples
  import opened Deform
  import opened TupleWalk
  import opened RowDecode
  import opened HeapLayout
  import opened TupleImage
  import opened Builder
  import opened ArrowTypes
  import opened Snapshot
  import opened Mvcc
  import opened Page
  import opened PageTheorems

  datatype StoredRow = StoredRow(meta: TupleMeta, row: seq<Value>) {
    ghost predicate Fits(layouts: seq<ColLayout>) {
      meta.Valid() && RowFits(layouts, row) && |row| <= MAX_HEAP_ATTRIBUTES
    }

    /** The parsed tuple. */
    function Tuple(layouts: seq<ColLayout>): HeapTuple
      requires RowFits(layouts, row)
    {
      HeapTuple(HeaderFor(meta, row), BitmapOf(row), EncodeRow(layouts, row))
    }

    predicate IsKept(snapshot: Option<PgSnapshot>) { Kept(HeaderFor(meta, row), snapshot) }
  }

  /** Slot `k` is unused, dead or redirected, or its item is a stored row. */
  ghost predicate SlotHolds(page: HeapPage, layouts: seq<ColLayout>, slot: Option<StoredRow>, k: nat)
    requires k < |page.items|
  {
    var lp := page.items[k];
    match slot
    case None => lp.word / 0x8000 % 4 != 1
    case Some(s) =>
      && lp.word / 0x8000 % 4 == 1 && s.Fits(layouts)
      && Get(page.data, lp.Off(), lp.Off() + lp.Len()) == Some(EncodeTuple(s.meta, layouts, s.row))
  }

  ghost predicate PageHolds(page: HeapPage, layouts: seq<ColLayout>, slots: seq<Option<StoredRow>>) {
    |slots| == |page.items| && forall k :: 0 <= k < |slots| ==> SlotHolds(page, layouts, slots[k], k)
  }

  function RowPicker(slots: seq<Option<StoredRow>>, snapshot: Option<PgSnapshot>): nat -> Option<StoredRow> {
    (k: nat) => if k < |slots| && slots[k].Some? && slots[k].value.IsKept(snapshot) then slots[k] else None
  }

  /** The stored rows that pass the filter, in slot order. */
  function KeptRows(slots: seq<Option<StoredRow>>, snapshot: Option<PgSnapshot>): seq<StoredRow> {
    Collect(RowPicker(slots, snapshot), |slots|, 0)
  }

  /** get_row_data gives a stored row's tuple, and an error where there is none. */
  lemma SlotIsRead(page: HeapPage, layouts: seq<ColLayout>, slots: seq<Option<StoredRow>>, k: nat)
    requires PageHolds(page, layouts, slots) && k < |slots|
    ensures match slots[k]
            case None => GetRowData(page, k).Err?
            case Some(s) => s.Fits(layouts) && GetRowData(page, k) == Ok(s.Tuple(layouts))
  {
    assert SlotHolds(page, layouts, slots[k], k);
    if slots[k].Some? {
      ParseInvertsTuple(slots[k].value.meta, layouts, slots[k].value.row);
    }
  }

  /** `t` is the parsed tuple of `s`. */
  ghost predicate IsTupleOf(t: HeapTuple, s: StoredRow, layouts: seq<ColLayout>) {
    s.Fits(layouts) && t == s.Tuple(layouts)
  }

  ghost predicate PicksTuple(tuple: Option<HeapTuple>, row: Option<StoredRow>, layouts: seq<ColLayout>) {
    match row
    case None => tuple == None
    case Some(s) => tuple.Some? && IsTupleOf(tuple.value, s, layouts)
  }

  lemma SlotIsPicked(page: HeapPage, layouts: seq<ColLayout>, slots: seq<Option<StoredRow>>,
                     snapshot: Option<PgSnapshot>, k: nat)
    requires PageHolds(page, layouts, slots) == true && k < |slots|
    ensures PicksTuple(Picker(page, snapshot)(k), RowPicker(slots, snapshot)(k), layouts)
  {
    SlotIsRead(page, layouts, slots, k);
  }

  lemma {:induction false} CollectMaps(rows: nat -> Option<StoredRow>, tuples: nat -> Option<HeapTuple>,
                                       layouts: seq<ColLayout>, n: nat, k: nat)
    requires k <= n && forall j: nat :: j < n ==> PicksTuple(tuples(j), rows(j), layouts)
    ensures AreTuplesOf(Collect(tuples, n, k), layouts, Collect(rows, n, k))
    decreases n - k
  {
    if k < n {
      CollectMaps(rows, tuples, layouts, n, k + 1);
    }
  }

  ghost predicate AreTuplesOf(tuples: seq<HeapTuple>, layouts: seq<ColLayout>, kept: seq<StoredRow>) {
    |kept| == |tuples| && forall i :: 0 <= i < |kept| ==> IsTupleOf(tuples[i], kept[i], layouts)
  }

  // ── One row ──────────────────────────────────────────────────────────────

  /** The entry a stored value becomes: NULL, or its payload rendered. */
  function StoredEntry(col: PgColumn, v: Value): Entry {
    if v.VNull? then NullEntry
    else match EntryFor(col, Delivered(v))
      case Ok(e) => e
      case Err(_) => NullEntry
  }

  /** Every payload of the row in a column of `p` can be appended (see NumericBound and
      EpochShiftIff). */
  ghost predicate RowAppends(cols: seq<PgColumn>, p: seq<nat>, row: seq<Value>)
    requires |row| == |cols| && InRange(p, |cols|)
  {
    forall j :: 0 <= j < |p| && row[p[j]].Stored? ==> EntryFor(cols[p[j]], Delivered(row[p[j]])).Ok?
  }

  /** The cells both readers walk a stored row back to. */
  function WalkedRow(cols: seq<PgColumn>, s: StoredRow): Row
    requires RowFits(Layouts(Types(cols)), s.row)
  {
    var walk := WalkedTuple(cols, s.Tuple(Layouts(Types(cols))));
    if walk.Ok? then walk.value else []
  }

  lemma StoredRowIsWalked(cols: seq<PgColumn>, s: StoredRow)
    requires s.Fits(Layouts(Types(cols)))
    ensures WalkedTuple(cols, s.Tuple(Layouts(Types(cols)))) == Ok(WalkedRow(cols, s))
    ensures Recovers(WalkedRow(cols, s), Seen(s.row), 0)
  {
    var layouts := Layouts(Types(cols));
    var data := EncodeRow(layouts, s.row);
    var plan := PagePlan(cols, AllWanted(|cols|), BitmapOf(s.row), data);
    ParseInvertsTuple(s.meta, layouts, s.row);
    assert data == data + [];
    DeformInvertsLayout(plan.(accept := AcceptAll()), s.row, []);
  }

  lemma CellPasses(cols: seq<PgColumn>, cells: seq<Cell>, row: seq<Value>, c: nat)
    requires Recovers(cells, Seen(row), 0) && c < |row| == |cols|
    ensures Passes(EntryCheck(cols), c, cells[c]) <==> row[c].Stored? ==> EntryFor(cols[c], Delivered(row[c])).Ok?
  {
    assert Shows(cells[c], Seen(row)[0 + c]);
  }

  lemma CellEntry(col: PgColumn, cells: seq<Cell>, row: seq<Value>, c: nat)
    requires Recovers(cells, Seen(row), 0) && c < |row|
    ensures EntryOf(col, cells[c]) == StoredEntry(col, row[c])
  {
    assert Shows(cells[c], Seen(row)[0 + c]);
  }

  // ── The whole page ───────────────────────────────────────────────────────

  lemma KeptTuplesAreKeptRows(page: HeapPage, layouts: seq<ColLayout>, slots: seq<Option<StoredRow>>,
                              snapshot: Option<PgSnapshot>)
    requires PageHolds(page, layouts, slots) == true
    ensures AreTuplesOf(KeptTuples(page, snapshot), layouts, KeptRows(slots, snapshot))
  {
    forall j: nat | j < |slots|
      ensures PicksTuple(Picker(page, snapshot)(j), RowPicker(slots, snapshot)(j), layouts)
    {
      SlotIsPicked(page, layouts, slots, snapshot, j);
    }
    CollectMaps(RowPicker(slots, snapshot), Picker(page, snapshot), layouts, |slots|, 0);
  }

  ghost predicate AllFit(layouts: seq<ColLayout>, kept: seq<StoredRow>) {
    forall i :: 0 <= i < |kept| ==> kept[i].Fits(layouts)
  }

  function WalkedRows(cols: seq<PgColumn>, kept: seq<StoredRow>): (rows: seq<Row>)
    requires AllFit(Layouts(Types(cols)), kept)
    ensures |rows| == |kept| && forall i :: 0 <= i < |rows| ==> rows[i] == WalkedRow(cols, kept[i])
  {
    if kept == [] then [] else [WalkedRow(cols, kept[0])] + WalkedRows(cols, kept[1..])
  }

  /** Every payload in a column of `p` can be appended. */
  ghost predicate AllAppend(cols: seq<PgColumn>, p: seq<nat>, kept: seq<StoredRow>)
    requires InRange(p, |cols|)
  {
    forall i :: 0 <= i < |kept| ==> |kept[i].row| == |cols| && RowAppends(cols, p, kept[i].row)
  }

  /** There are columns, none twice unless no row is kept, and every column is built as
      declared and shows a NULL only if it may. */
  ghost predicate AllTaken(cols: seq<PgColumn>, p: seq<nat>, kept: seq<StoredRow>)
    requires InRange(p, |cols|) && forall i :: 0 <= i < |kept| ==> |kept[i].row| == |cols|
  {
    p != [] && (NoDuplicates(p) || kept == []) && forall j :: 0 <= j < |p| ==> StoredColumnTaken(cols, kept, p[j])
  }

  ghost predicate StoredColumnTaken(cols: seq<PgColumn>, kept: seq<StoredRow>, c: nat)
    requires c < |cols| && forall i :: 0 <= i < |kept| ==> |kept[i].row| == |cols|
  {
    && FieldType(cols[c]) == ArrayType(cols[c])
    && (cols[c].nullable || forall i :: 0 <= i < |kept| ==> StoredEntry(cols[c], kept[i].row[c]) != NullEntry)
  }

  /** `batch` is the columns `p` of the kept rows. */
  ghost predicate IsBatchOf(batch: Batch, cols: seq<PgColumn>, p: seq<nat>, kept: seq<StoredRow>)
    requires InRange(p, |cols|) && forall i :: 0 <= i < |kept| ==> |kept[i].row| == |cols|
  {
    && |batch| == |p| && (forall j :: 0 <= j < |p| ==> |batch[j]| == |kept|)
    && forall j, i :: 0 <= j < |p| && 0 <= i < |kept| ==> batch[j][i] == StoredEntry(cols[p[j]], kept[i].row[p[j]])
  }

  /** Cell `c` of row `i` passes the builder's check, and is rendered, as the stored value. */
  ghost predicate ShowsStored(cols: seq<PgColumn>, rows: seq<Row>, kept: seq<StoredRow>)
    requires AllFit(Layouts(Types(cols)), kept)
  {
    && |rows| == |kept| && Width(rows, |cols|)
    && (forall i, c :: 0 <= i < |rows| && 0 <= c < |cols| ==>
          EntryOf(cols[c], rows[i][c]) == StoredEntry(cols[c], kept[i].row[c]))
    && (forall i, c :: 0 <= i < |rows| && 0 <= c < |cols| ==>
          (Passes(EntryCheck(cols), c, rows[i][c]) <==>
           kept[i].row[c].Stored? ==> EntryFor(cols[c], Delivered(kept[i].row[c])).Ok?))
  }

  lemma RowShowsStored(cols: seq<PgColumn>, s: StoredRow)
    requires s.Fits(Layouts(Types(cols)))
    ensures |WalkedRow(cols, s)| == |cols|
    ensures forall c :: 0 <= c < |cols| ==> EntryOf(cols[c], WalkedRow(cols, s)[c]) == StoredEntry(cols[c], s.row[c])
    ensures forall c :: 0 <= c < |cols| ==>
              (Passes(EntryCheck(cols), c, WalkedRow(cols, s)[c]) <==>
               s.row[c].Stored? ==> EntryFor(cols[c], Delivered(s.row[c])).Ok?)
  {
    var cells := WalkedRow(cols, s);
    StoredRowIsWalked(cols, s);
    forall c | 0 <= c < |cols|
      ensures EntryOf(cols[c], cells[c]) == StoredEntry(cols[c], s.row[c])
      ensures Passes(EntryCheck(cols), c, cells[c]) <==>
              s.row[c].Stored? ==> EntryFor(cols[c], Delivered(s.row[c])).Ok?
    {
      CellEntry(cols[c], cells, s.row, c);
      CellPasses(cols, cells, s.row, c);
    }
  }

  lemma WalkedRowsShowStored(cols: seq<PgColumn>, kept: seq<StoredRow>)
    requires AllFit(Layouts(Types(cols)), kept)
    ensures ShowsStored(cols, WalkedRows(cols, kept), kept)
  {
    forall i | 0 <= i < |kept|
      ensures |WalkedRows(cols, kept)[i]| == |cols|
      ensures forall c :: 0 <= c < |cols| ==>
                EntryOf(cols[c], WalkedRows(cols, kept)[i][c]) == StoredEntry(cols[c], kept[i].row[c])
      ensures forall c :: 0 <= c < |cols| ==>
                (Passes(EntryCheck(cols), c, WalkedRows(cols, kept)[i][c]) <==>
                 kept[i].row[c].Stored? ==> EntryFor(cols[c], Delivered(kept[i].row[c])).Ok?)
    {
      RowShowsStored(cols, kept[i]);
    }
  }

  lemma TuplesAreWalked(cols: seq<PgColumn>, kept: seq<StoredRow>, tuples: seq<HeapTuple>)
    requires AreTuplesOf(tuples, Layouts(Types(cols)), kept) == true
    ensures AllFit(Layouts(Types(cols)), kept) && AreWalked(cols, tuples, WalkedRows(cols, kept))
  {
    WalkedRowsShowStored(cols, kept);
    forall i | 0 <= i < |kept| ensures WalkedTuple(cols, tuples[i]) == Ok(WalkedRows(cols, kept)[i]) {
      StoredRowIsWalked(cols, kept[i]);
    }
  }

  lemma AppendableIff(cols: seq<PgColumn>, p: seq<nat>, rows: seq<Row>, kept: seq<StoredRow>)
    requires InRange(p, |cols|) && AllFit(Layouts(Types(cols)), kept) && ShowsStored(cols, rows, kept)
    ensures AppendableAt(cols, rows, p) <==> AllAppend(cols, p, kept)
  {
    if AppendableAt(cols, rows, p) {
      forall i, j | 0 <= i < |kept| && 0 <= j < |p| && kept[i].row[p[j]].Stored?
        ensures EntryFor(cols[p[j]], Delivered(kept[i].row[p[j]])).Ok?
      {
        assert Passes(EntryCheck(cols), p[j], rows[i][p[j]]);
      }
    }
    if AllAppend(cols, p, kept) {
      forall i, j | 0 <= i < |rows| && 0 <= j < |p| ensures Passes(EntryCheck(cols), p[j], rows[i][p[j]]) {
        assert RowAppends(cols, p, kept[i].row);
      }
    }
  }

  lemma StoredColumnTakenIff(cols: seq<PgColumn>, rows: seq<Row>, kept: seq<StoredRow>, c: nat)
    requires AllFit(Layouts(Types(cols)), kept) && ShowsStored(cols, rows, kept) && c < |cols|
    ensures ColumnTaken(cols, rows, c) <==> StoredColumnTaken(cols, kept, c)
  {
    assert forall i :: 0 <= i < |rows| ==> EntryOf(cols[c], rows[i][c]) == StoredEntry(cols[c], kept[i].row[c]);
  }

  lemma TakenIff(cols: seq<PgColumn>, p: seq<nat>, rows: seq<Row>, kept: seq<StoredRow>)
    requires InRange(p, |cols|) && AllFit(Layouts(Types(cols)), kept) && ShowsStored(cols, rows, kept)
    ensures TakenAt(cols, rows, p) <==> AllTaken(cols, p, kept)
  {
    forall j | 0 <= j < |p| ensures ColumnTaken(cols, rows, p[j]) <==> StoredColumnTaken(cols, kept, p[j]) {
      StoredColumnTakenIff(cols, rows, kept, p[j]);
    }
  }

  lemma ColumnsMakeBatchOf(batch: Batch, cols: seq<PgColumn>, p: seq<nat>, rows: seq<Row>, kept: seq<StoredRow>)
    requires InRange(p, |cols|) && AllFit(Layouts(Types(cols)), kept) && ShowsStored(cols, rows, kept)
    requires AreColumnsOf(batch, cols, rows, p)
    ensures IsBatchOf(batch, cols, p, kept)
  {
    forall j, i | 0 <= j < |p| && 0 <= i < |kept| ensures batch[j][i] == StoredEntry(cols[p[j]], kept[i].row[p[j]]) {
      ColumnAt(rows, cols[p[j]], p[j], i);
    }
  }

  /** What converting the kept rows yields under any projection. */
  ghost predicate Converts(r: Result<Batch>, cols: seq<PgColumn>, projection: Option<seq<nat>>, kept: seq<StoredRow>) {
    var p := Selected(projection, |cols|);
    && AllFit(Layouts(Types(cols)), kept)
    && if projection == Some([]) then r == Ok([])
       else if !InRange(p, |cols|) || !AllAppend(cols, p, kept) then r == Err(Panic)
       else if !AllTaken(cols, p, kept) then r == Err(ArrowConversionFailed)
       else r.Ok? && IsBatchOf(r.value, cols, p, kept)
  }

  lemma OutcomeConverts(r: Result<Batch>, cols: seq<PgColumn>, projection: Option<seq<nat>>, rows: seq<Row>,
                        kept: seq<StoredRow>)
    requires AllFit(Layouts(Types(cols)), kept) && ShowsStored(cols, rows, kept) == true
    requires Width(rows, |cols|) && Outcome(r, cols, rows, projection)
    ensures Converts(r, cols, projection, kept)
  {
    var p := Selected(projection, |cols|);
    if projection != Some([]) && InRange(p, |cols|) {
      AppendableIff(cols, p, rows, kept);
      TakenIff(cols, p, rows, kept);
      if r.Ok? {
        ColumnsMakeBatchOf(r.value, cols, p, rows, kept);
      }
    }
  }

  lemma TuplesConvert(page: HeapPage, cols: seq<PgColumn>, projection: Option<seq<nat>>, kept: seq<StoredRow>,
                      snapshot: Option<PgSnapshot>)
    requires AreTuplesOf(KeptTuples(page, snapshot), Layouts(Types(cols)), kept) == true
    ensures Converts(PageBatch(page, cols, projection, snapshot), cols, projection, kept)
  {
    TuplesAreWalked(cols, kept, KeptTuples(page, snapshot));
    WalkedRowsShowStored(cols, kept);
    WalkedPageIsConverted(page, cols, projection, snapshot, WalkedRows(cols, kept));
    OutcomeConverts(PageBatch(page, cols, projection, snapshot), cols, projection, WalkedRows(cols, kept), kept);
  }

  /** A page holding any rows of values and NULLs, in any storage form and between any dead
      slots, under any projection: its conversion panics exactly when a selected column does
      not exist or some payload in one, of a row that passes the filter, cannot be appended.
      It is otherwise refused exactly when a selected column is named twice while a row is
      kept, is not built as declared, or has an undeclared NULL. Else the batch is exactly
      those rows, in slot order: entry i of column j is NULL or the rendered payload of value
      p[j] of the i-th kept row. */
  lemma StoredPageIsConverted(page: HeapPage, cols: seq<PgColumn>, projection: Option<seq<nat>>,
                              slots: seq<Option<StoredRow>>, snapshot: Option<PgSnapshot>)
    requires PageHolds(page, Layouts(Types(cols)), slots) == true
    ensures Converts(PageBatch(page, cols, projection, snapshot), cols, projection, KeptRows(slots, snapshot))
  {
    KeptTuplesAreKeptRows(page, Layouts(Types(cols)), slots, snapshot);
    TuplesConvert(page, cols, projection, KeptRows(slots, snapshot), snapshot);
  }
}
