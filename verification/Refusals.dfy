/** Pages whose conversion fails: columns RecordBatch refuses, and values the builders
    cannot take (src/types/arrow.rs:377-402, src/heap/page.rs:455-467). */
module Refusals {
  import opened Base
  import opened Codec
  import opened RowDecode
  import opened HeapLayout
  import opened TupleImage
  import opened Numeric
  import opened NumericFormat
  import opened Builder
  import opened ArrowTypes
  import opened Snapshot
  import opened Page
  import opened PageRoundTrip
  import opened PageImage

  /** Interval and array columns are built as binary columns, so that every page, even an
      empty one, is refused when such a column is selected. */
  lemma UnbuiltColumnIsRefused(page: HeapPage, cols: seq<PgColumn>, projection: Option<seq<nat>>,
                               snapshot: Option<PgSnapshot>, j: nat)
    requires projection != Some([]) && j < |Selected(projection, |cols|)|
    requires InRange(Selected(projection, |cols|), |cols|)
    requires var t := cols[Selected(projection, |cols|)[j]].typeId; t.Interval? || IsArray(t)
    ensures PageBatch(page, cols, projection, snapshot).Err?
  {
    var p := Selected(projection, |cols|);
    BuiltAsDeclaredIff(cols[p[j]]);
    forall b: Batch ensures TryNew(ColumnsAt(cols, p), b).Err? {
      MismatchIsRefused(ColumnsAt(cols, p), b, j);
    }
  }

  lemma MismatchIsRefused(schema: seq<PgColumn>, b: Batch, j: nat)
    requires j < |schema| && FieldType(schema[j]) != ArrayType(schema[j])
    ensures TryNew(schema, b).Err?
  {
    assert |schema| == |b| ==> !Takes(schema[j], b[j]);
  }

  /** A page of stored rows, and column `p[j]` of its `i`-th kept row, under a projection `p`
      that does not panic. */
  ghost predicate SelectsRow(page: HeapPage, cols: seq<PgColumn>, projection: Option<seq<nat>>,
                             slots: seq<Option<StoredRow>>, snapshot: Option<PgSnapshot>, i: nat, j: nat)
  {
    var p := Selected(projection, |cols|);
    && PageHolds(page, Layouts(Types(cols)), slots)
    && projection != Some([]) && InRange(p, |cols|) && j < |p|
    && i < |KeptRows(slots, snapshot)| && |KeptRows(slots, snapshot)[i].row| == |cols|
  }

  function SelectedColumn(cols: seq<PgColumn>, projection: Option<seq<nat>>, j: nat): PgColumn
    requires j < |Selected(projection, |cols|)| && InRange(Selected(projection, |cols|), |cols|)
  {
    cols[Selected(projection, |cols|)[j]]
  }

  /** The stored value there. */
  function SelectedValue(cols: seq<PgColumn>, projection: Option<seq<nat>>, s: StoredRow, j: nat): Value
    requires j < |Selected(projection, |cols|)| && InRange(Selected(projection, |cols|), |cols|) && |s.row| == |cols|
  {
    s.row[Selected(projection, |cols|)[j]]
  }

  /** A kept row with a NULL, or what becomes one, in a selected column declared NOT NULL. */
  lemma NullIsRefused(page: HeapPage, cols: seq<PgColumn>, projection: Option<seq<nat>>,
                      slots: seq<Option<StoredRow>>, snapshot: Option<PgSnapshot>, i: nat, j: nat)
    requires SelectsRow(page, cols, projection, slots, snapshot, i, j)
    requires AllAppend(cols, Selected(projection, |cols|), KeptRows(slots, snapshot))
    requires var col := SelectedColumn(cols, projection, j);
             !col.nullable && StoredEntry(col, SelectedValue(cols, projection, KeptRows(slots, snapshot)[i], j)) == NullEntry
    ensures PageBatch(page, cols, projection, snapshot) == Err(ArrowConversionFailed)
  {
    StoredPageIsConverted(page, cols, projection, slots, snapshot);
    assert !StoredColumnTaken(cols, KeptRows(slots, snapshot), Selected(projection, |cols|)[j]);
  }

  /** NaN and the infinities, as stored in any but the out-of-line form. */
  predicate IsSpecial(v: Value) {
    v.Stored? && !v.form.External? && |v.bytes| >= 2 && U16(v.bytes, 0) >= 0xC000
  }

  /** NaN in a NOT NULL NUMERIC column that is selected: the whole page is refused. */
  lemma NanInNotNullIsRefused(page: HeapPage, cols: seq<PgColumn>, projection: Option<seq<nat>>,
                              slots: seq<Option<StoredRow>>, snapshot: Option<PgSnapshot>, i: nat, j: nat)
    requires SelectsRow(page, cols, projection, slots, snapshot, i, j)
    requires AllAppend(cols, Selected(projection, |cols|), KeptRows(slots, snapshot))
    requires var col := SelectedColumn(cols, projection, j);
             && !col.nullable && col.typeId.Numeric?
             && IsSpecial(SelectedValue(cols, projection, KeptRows(slots, snapshot)[i], j))
    ensures PageBatch(page, cols, projection, snapshot) == Err(ArrowConversionFailed)
  {
    SpecialEntry(SelectedColumn(cols, projection, j), SelectedValue(cols, projection, KeptRows(slots, snapshot)[i], j));
    NullIsRefused(page, cols, projection, slots, snapshot, i, j);
  }

  lemma SpecialEntry(col: PgColumn, v: Value)
    requires col.typeId.Numeric? && IsSpecial(v)
    ensures EntryFor(col, Delivered(v)) == Ok(NullEntry) && StoredEntry(col, v) == NullEntry
  {
    SpecialsAreNotFinite(v.bytes);
  }

  /** A stored, undeleted row of one NOT NULL NUMERIC column: NaN, behind a 1-byte header. */
  ghost predicate IsNanRow(col: PgColumn, s: StoredRow) {
    && col.typeId.Numeric? && !col.nullable && s.meta.Valid() && s.meta.xmax == 0
    && |s.row| == 1 && IsSpecial(s.row[0]) && s.row[0].form.Short? && |s.row[0].bytes| == 2
  }

  lemma NanRowFits(col: PgColumn, s: StoredRow)
    requires IsNanRow(col, s)
    ensures s.Fits(Layouts(Types([col]))) && FitsAlone(Layouts(Types([col])), s)
  {
    var layouts := Layouts(Types([col]));
    var l := layouts[0];
    assert layouts == [l] && l.len == Varlena;
    assert |EncodeValue(l, s.row[0], 0)| == 3;
    ShortRowFits(l, s);
  }

  lemma NanRowIsKept(col: PgColumn, s: StoredRow)
    requires IsNanRow(col, s)
    ensures KeptRows([Some(s)], None) == [s] && AllAppend([col], Identity(1), [s])
  {
    SpecialEntry(col, s.row[0]);
    assert s.IsKept(None);
    assert RowPicker([Some(s)], None)(0) == Some(s);
  }

  lemma NanIsRefused(page: HeapPage, col: PgColumn, s: StoredRow)
    requires IsNanRow(col, s) && PageHolds(page, Layouts(Types([col])), [Some(s)]) == true
    ensures PageBatch(page, [col], None, None) == Err(ArrowConversionFailed)
  {
    NanRowIsKept(col, s);
    assert Selected(None, 1) == Identity(1);
    NanInNotNullIsRefused(page, [col], None, [Some(s)], None, 0, 0);
  }

  /** The page of 8192 bytes with that one row parses, and its conversion fails. */
  lemma NanPageIsRefused(col: PgColumn, s: StoredRow)
    requires IsNanRow(col, s)
    ensures s.Fits(Layouts(Types([col]))) && FitsAlone(Layouts(Types([col])), s)
    ensures var page := ParsedPage(OneRowPage(Layouts(Types([col])), s));
            page.Ok? && PageBatch(page.value, [col], None, None) == Err(ArrowConversionFailed)
  {
    NanRowFits(col, s);
    var layouts := Layouts(Types([col]));
    OneRowPageIsPage(layouts, s);
    PageOfRowsHolds(OneRowPage(layouts, s), layouts, [Some(s)]);
    NanIsRefused(ParsedPage(OneRowPage(layouts, s)).value, col, s);
  }

  /** A date or timestamp too late to be moved to the Unix epoch, 'infinity' among them. */
  predicate TooLate(t: PgTypeId, v: Value) {
    v.Stored? && v.form.FixedWidth? &&
    if t.Date? then |v.bytes| == 4 && I32(v.bytes, 0) > LAST_DAY
    else (t.Timestamp? || t.Timestamptz?) && |v.bytes| == 8 && I64(v.bytes, 0) > LAST_MICRO
  }

  /** One in a selected column of a kept row makes the conversion of the page panic. */
  lemma LateDatePanics(page: HeapPage, cols: seq<PgColumn>, projection: Option<seq<nat>>,
                       slots: seq<Option<StoredRow>>, snapshot: Option<PgSnapshot>, i: nat, j: nat)
    requires SelectsRow(page, cols, projection, slots, snapshot, i, j)
    requires TooLate(SelectedColumn(cols, projection, j).typeId,
                     SelectedValue(cols, projection, KeptRows(slots, snapshot)[i], j))
    ensures PageBatch(page, cols, projection, snapshot) == Err(Panic)
  {
    var p := Selected(projection, |cols|);
    StoredPageIsConverted(page, cols, projection, slots, snapshot);
    ShiftedWord(cols[p[j]], KeptRows(slots, snapshot)[i].row[p[j]].bytes);
    assert !RowAppends(cols, p, KeptRows(slots, snapshot)[i].row);
  }
}
