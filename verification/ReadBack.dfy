/** What a reader gets of the values stored on a page, value by value: which rows, which
    entries, and which NULLs are refused (src/heap/page.rs:353-455, src/types/arrow.rs:339-482,
    src/types/column.rs:50-58). */
module ReadBack {
  import opened Base
  import opened Codec
  import opened HeapTuples
  import opened RowDecode
  import opened HeapLayout
  import opened TupleImage
  import opened Numeric
  import opened NumericFormat
  import opened NumericBound
  import opened NumericRescale
  import opened NumericWide
  import opened Builder
  import opened ArrowTypes
  import opened Snapshot
  import opened Mvcc
  import opened Page
  import opened PageRoundTrip
  import opened PageImage
  import opened Refusals
  import opened Relation
  import opened RowIter
  import opened Schema
  import opened Stream
  import opened Scan
  import opened TypeCatalog

  // ── Which rows ───────────────────────────────────────────────────────────

  /** No xmax is stored, or bit 0x0400 of the flags above HEAP_HASNULL says that it is
      invalid; and under a snapshot xmin is a bootstrap or frozen id, or finished. */
  predicate PassesFilter(m: TupleMeta, snapshot: Option<PgSnapshot>) {
    && (m.xmax == 0 || m.flags / 0x0400 % 2 == 1)
    && (snapshot.Some? ==>
          || m.xmin <= 2 || m.xmin < snapshot.value.xmin
          || (m.xmin < snapshot.value.xmax && m.xmin !in snapshot.value.xip))
  }

  lemma HalvedBit(flags: nat, bit: nat)
    requires bit < 2
    ensures (2 * flags + bit) / 0x0800 % 2 == flags / 0x0400 % 2
  {
  }

  lemma IsKeptIff(s: StoredRow, snapshot: Option<PgSnapshot>)
    ensures s.IsKept(snapshot) <==> PassesFilter(s.meta, snapshot)
  {
    HalvedBit(s.meta.flags, if HasNulls(s.row) then 1 else 0);
    KeptIff(HeaderFor(s.meta, s.row), if snapshot.Some? then snapshot.value else PgSnapshot(0, 0, []));
  }

  lemma {:induction false} CollectLast<T>(a: nat -> Option<T>, b: nat -> Option<T>, n: nat, k: nat)
    requires k <= n && forall j: nat :: j < n ==> a(j) == b(j)
    ensures Collect(a, n + 1, k) == Collect(b, n, k) + (if a(n).Some? then [a(n).value] else [])
    decreases n - k
  {
    if k < n {
      CollectLast(a, b, n, k + 1);
    } else {
      assert Collect(a, n + 1, n + 1) == [];
    }
  }

  /** The kept rows are those that pass the filter, in slot order: one more slot adds its row
      behind the others, or nothing. */
  lemma KeptRowsAreInOrder(slots: seq<Option<StoredRow>>, slot: Option<StoredRow>, snapshot: Option<PgSnapshot>)
    ensures KeptRows([], snapshot) == []
    ensures KeptRows(slots + [slot], snapshot) ==
            KeptRows(slots, snapshot)
            + (if slot.Some? && PassesFilter(slot.value.meta, snapshot) then [slot.value] else [])
  {
    CollectLast(RowPicker(slots + [slot], snapshot), RowPicker(slots, snapshot), |slots|, 0);
    if slot.Some? {
      IsKeptIff(slot.value, snapshot);
    }
  }

  // ── Which entries ────────────────────────────────────────────────────────

  /** Four bytes holding day `x` from 2000-01-01, and eight holding microsecond `x`. */
  predicate IsDay(v: Value, x: int) {
    -0x8000_0000 <= x < 0x8000_0000 && v == Stored(FixedWidth, SignedLE32(x))
  }

  predicate IsMicro(v: Value, x: int) {
    -0x8000_0000_0000_0000 <= x < 0x8000_0000_0000_0000 && v == Stored(FixedWidth, SignedLE64(x))
  }

  /** The payload as stored; nothing for an out-of-line pointer. */
  function Payload(v: Value): seq<byte>
    requires v.Stored?
  {
    match v.form
    case External => []
    case _ => v.bytes
  }

  /** Entry `e` is what a column of type `t` other than NUMERIC shows of value `v`: NULL, days
      or microseconds from 1970-01-01, or the payload itself. */
  ghost predicate ShowsValue(e: Entry, t: PgTypeId, v: Value) {
    if v.VNull? then e == NullEntry
    else if t.Date? then forall x :: IsDay(v, x) ==> e == SinceEpoch(x + 10_957)
    else if t.Timestamp? || t.Timestamptz? then forall x :: IsMicro(v, x) ==> e == SinceEpoch(x + 946_684_800_000_000)
    else e == Raw(Payload(v))
  }

  /** Every date is some day, and every timestamp some microsecond. */
  lemma EveryDateIsADay(t: PgTypeId, v: Value)
    requires v.Stored? && Fits(LayoutOf(t), v)
    ensures t.Date? ==> exists x :: IsDay(v, x)
    ensures t.Timestamp? || t.Timestamptz? ==> exists x :: IsMicro(v, x)
  {
    SignedWordsCover(v.bytes);
    if t.Date? {
      assert IsDay(v, I32(v.bytes, 0));
    } else if t.Timestamp? || t.Timestamptz? {
      assert IsMicro(v, I64(v.bytes, 0));
    }
  }

  lemma EntryShowsValue(col: PgColumn, v: Value)
    requires !col.typeId.Numeric? && (v.Stored? ==> EntryFor(col, Delivered(v)).Ok?)
    ensures ShowsValue(StoredEntry(col, v), col.typeId, v)
  {
    if v.Stored? {
      forall x | IsDay(v, x) || IsMicro(v, x)
        ensures IsDay(v, x) && col.typeId.Date? ==> StoredEntry(col, v) == SinceEpoch(x + 10_957)
        ensures IsMicro(v, x) && (col.typeId.Timestamp? || col.typeId.Timestamptz?) ==>
                  StoredEntry(col, v) == SinceEpoch(x + 946_684_800_000_000)
      {
        EpochShiftIff(col, x);
      }
    }
  }

  /** `batch` shows, in slot order, values `p` of the kept rows; of NUMERIC columns this says
      only how many entries there are (but see NumericIsReadBack). */
  ghost predicate ShowsRows(batch: Batch, cols: seq<PgColumn>, p: seq<nat>, kept: seq<StoredRow>) {
    && InRange(p, |cols|) && |batch| == |p|
    && (forall i :: 0 <= i < |kept| ==> |kept[i].row| == |cols|)
    && (forall j :: 0 <= j < |p| ==> |batch[j]| == |kept|)
    && forall j, i :: 0 <= j < |p| && 0 <= i < |kept| && !cols[p[j]].typeId.Numeric? ==>
         ShowsValue(batch[j][i], cols[p[j]].typeId, kept[i].row[p[j]])
  }

  lemma BatchShowsRows(batch: Batch, cols: seq<PgColumn>, p: seq<nat>, kept: seq<StoredRow>)
    requires InRange(p, |cols|) && AllAppend(cols, p, kept) && IsBatchOf(batch, cols, p, kept)
    ensures ShowsRows(batch, cols, p, kept)
  {
    forall j, i | 0 <= j < |p| && 0 <= i < |kept| && !cols[p[j]].typeId.Numeric?
      ensures ShowsValue(batch[j][i], cols[p[j]].typeId, kept[i].row[p[j]])
    {
      assert RowAppends(cols, p, kept[i].row);
      EntryShowsValue(cols[p[j]], kept[i].row[p[j]]);
    }
  }

  /** The batch of a page of stored rows shows exactly the values of its kept rows. */
  lemma StoredPageIsReadBack(page: HeapPage, cols: seq<PgColumn>, projection: Option<seq<nat>>,
                             slots: seq<Option<StoredRow>>, snapshot: Option<PgSnapshot>)
    requires PageHolds(page, Layouts(Types(cols)), slots) == true
    requires projection != Some([]) && PageBatch(page, cols, projection, snapshot).Ok?
    ensures ShowsRows(PageBatch(page, cols, projection, snapshot).value, cols, Selected(projection, |cols|),
                      KeptRows(slots, snapshot))
  {
    StoredPageIsConverted(page, cols, projection, slots, snapshot);
    BatchShowsRows(PageBatch(page, cols, projection, snapshot).value, cols, Selected(projection, |cols|),
                   KeptRows(slots, snapshot));
  }

  predicate IsRendered(t: PgTypeId) { t.Numeric? || t.Date? || t.Timestamp? || t.Timestamptz? }

  /** Where column `p[j]` is rendered by a leaf, entry i is the payload stored for the i-th
      kept row. */
  lemma PayloadIsReadBack(page: HeapPage, cols: seq<PgColumn>, projection: Option<seq<nat>>,
                          slots: seq<Option<StoredRow>>, snapshot: Option<PgSnapshot>, i: nat, j: nat, v: Value)
    requires SelectsRow(page, cols, projection, slots, snapshot, i, j)
    requires v == SelectedValue(cols, projection, KeptRows(slots, snapshot)[i], j)
    requires !IsRendered(SelectedColumn(cols, projection, j).typeId)
    requires PageBatch(page, cols, projection, snapshot).Ok?
    ensures var batch := PageBatch(page, cols, projection, snapshot).value;
            && j < |batch| && i < |batch[j]|
            && batch[j][i] == if v.VNull? then NullEntry else Raw(Payload(v))
  {
    StoredPageIsReadBack(page, cols, projection, slots, snapshot);
  }

  /** Pages whose kept rows differ in such a value, by being NULL or by the payload, have
      different batches. */
  lemma DifferentValuesDiffer(a: HeapPage, b: HeapPage, cols: seq<PgColumn>, projection: Option<seq<nat>>,
                              slots: seq<Option<StoredRow>>, others: seq<Option<StoredRow>>,
                              snapshot: Option<PgSnapshot>, i: nat, j: nat, v: Value, w: Value)
    requires SelectsRow(a, cols, projection, slots, snapshot, i, j)
    requires SelectsRow(b, cols, projection, others, snapshot, i, j)
    requires v == SelectedValue(cols, projection, KeptRows(slots, snapshot)[i], j)
    requires w == SelectedValue(cols, projection, KeptRows(others, snapshot)[i], j)
    requires !IsRendered(SelectedColumn(cols, projection, j).typeId)
    requires v.VNull? != w.VNull? || (v.Stored? && w.Stored? && Payload(v) != Payload(w))
    requires PageBatch(a, cols, projection, snapshot).Ok?
    ensures PageBatch(a, cols, projection, snapshot) != PageBatch(b, cols, projection, snapshot)
  {
    if PageBatch(b, cols, projection, snapshot).Ok? {
      PayloadIsReadBack(a, cols, projection, slots, snapshot, i, j, v);
      PayloadIsReadBack(b, cols, projection, others, snapshot, i, j, w);
    }
  }

  /** A column of such a type never fails on a payload. */
  lemma PayloadAppends(col: PgColumn, v: Value)
    requires !IsRendered(col.typeId) && v.Stored?
    ensures EntryFor(col, Delivered(v)) == Ok(Raw(Payload(v)))
  {
  }

  /** `v` holds m / 10^s, signed as header `h` has it, in a NUMERIC(q, s) column all whose
      values can be appended (see ColumnIsAppendedIff). */
  ghost predicate HoldsNumber(v: Value, col: PgColumn, h: Numeric.Header, q: nat, s: nat, m: nat) {
    && v.Stored? && LongForm(h) && Stores(h, q, s, m) && Payload(v) == NumericFormat.Encode(h)
    && col.typeId.Numeric? && col.typmod == 0x1_0000 * q + s + 4
    && 1 <= q < 0x8000 && (q + (4 - s % 4) % 4 <= 38 || 38 < q <= 39 + (s + 1) % 4)
  }

  lemma PayloadNumber(col: PgColumn, q: nat, s: nat, nullable: bool, bytes: seq<byte>, h: Numeric.Header, m: nat, n: int)
    requires col == NumericColumn(q, s, nullable) && n == Negate(h.neg, m)
    requires LongForm(h) && Stores(h, q, s, m) && bytes == NumericFormat.Encode(h)
    requires 1 <= q < 0x8000 && (q + Slack(s) <= 38 || 38 < q <= FarBoundary(s))
    ensures EntryFor(col, bytes) == Ok(Decimal(n))
  {
    ParseInvertsEncode(h);
    if q + Slack(s) <= 38 {
      ColumnValueIsAppended(q, s, nullable, bytes, m);
    } else {
      NarrowValueIsAppended(q, s, nullable, bytes, m);
    }
  }

  lemma AppendedPayload(v: Value, col: PgColumn, e: Entry)
    requires v.Stored? && EntryFor(col, Payload(v)) == Ok(e)
    ensures StoredEntry(col, v) == e
  {
  }

  lemma NumberIsAppended(v: Value, col: PgColumn, h: Numeric.Header, q: nat, s: nat, m: nat, n: int)
    requires HoldsNumber(v, col, h, q, s, m) && n == Negate(h.neg, m)
    ensures StoredEntry(col, v) == Decimal(n)
  {
    PayloadNumber(col, q, s, col.nullable, Payload(v), h, m, n);
    AppendedPayload(v, col, Decimal(n));
  }

  lemma EntryIsReadBack(page: HeapPage, cols: seq<PgColumn>, projection: Option<seq<nat>>,
                        slots: seq<Option<StoredRow>>, snapshot: Option<PgSnapshot>, i: nat, j: nat)
    requires SelectsRow(page, cols, projection, slots, snapshot, i, j)
    requires PageBatch(page, cols, projection, snapshot).Ok?
    ensures var batch := PageBatch(page, cols, projection, snapshot).value;
            && j < |batch| && i < |batch[j]|
            && batch[j][i] == StoredEntry(SelectedColumn(cols, projection, j),
                                          SelectedValue(cols, projection, KeptRows(slots, snapshot)[i], j))
  {
    StoredPageIsConverted(page, cols, projection, slots, snapshot);
  }

  /** Such a number is read back as m, signed. */
  lemma NumericIsReadBack(page: HeapPage, cols: seq<PgColumn>, projection: Option<seq<nat>>,
                          slots: seq<Option<StoredRow>>, snapshot: Option<PgSnapshot>, i: nat, j: nat,
                          v: Value, col: PgColumn, h: Numeric.Header, q: nat, s: nat, m: nat)
    requires HoldsNumber(v, col, h, q, s, m) == true
    requires SelectsRow(page, cols, projection, slots, snapshot, i, j)
    requires col == SelectedColumn(cols, projection, j)
    requires v == SelectedValue(cols, projection, KeptRows(slots, snapshot)[i], j)
    requires PageBatch(page, cols, projection, snapshot).Ok?
    ensures var batch := PageBatch(page, cols, projection, snapshot).value;
            j < |batch| && i < |batch[j]| && batch[j][i] == Decimal((if h.neg then -1 else 1) * m)
  {
    EntryIsReadBack(page, cols, projection, slots, snapshot, i, j);
    NumberIsAppended(v, col, h, q, s, m, if h.neg then 0 - m else m);
  }

  // ── Which NULLs are refused ──────────────────────────────────────────────

  /** What becomes a NULL entry: NULL, and in a NUMERIC column NaN, an infinity, or a payload
      too short for its header. */
  predicate IsNullIn(t: PgTypeId, v: Value) {
    v.VNull? || (t.Numeric? && !IsFinite(Payload(v)))
  }

  predicate IsFinite(payload: seq<byte>) {
    |payload| >= 2 && U16(payload, 0) < 0xC000 && (U16(payload, 0) < 0x8000 ==> |payload| >= 4)
  }

  lemma NullEntryIff(col: PgColumn, v: Value)
    requires v.Stored? ==> EntryFor(col, Delivered(v)).Ok?
    ensures StoredEntry(col, v) == NullEntry <==> IsNullIn(col.typeId, v)
  {
    if v.Stored? {
      SpecialsAreNotFinite(Payload(v));
    }
  }

  /** A kept row has a NULL where an attribute is NOT NULL. */
  ghost predicate BreaksNotNull(attrs: seq<PgAttribute>, p: seq<nat>, kept: seq<StoredRow>)
    requires InRange(p, |SchemaAttributes(attrs)|)
    requires forall i :: 0 <= i < |kept| ==> |kept[i].row| == |SchemaAttributes(attrs)|
  {
    exists i, j :: 0 <= i < |kept| && 0 <= j < |p| && BreaksAt(SchemaAttributes(attrs)[p[j]], kept[i].row[p[j]])
  }

  predicate BreaksAt(a: PgAttribute, v: Value) { a.notNull && IsNullIn(TypeNamed(a), v) }

  /** The type a column is read as. */
  function TypeNamed(a: PgAttribute): PgTypeId {
    match a.typeId
    case Some(t) => t
    case None => Text
  }

  /** The selected attributes are of types that are built as declared. */
  predicate AllBuilt(attrs: seq<PgAttribute>, p: seq<nat>)
    requires InRange(p, |SchemaAttributes(attrs)|)
  {
    forall j :: 0 <= j < |p| ==>
      var t := TypeNamed(SchemaAttributes(attrs)[p[j]]); !t.Interval? && ElementOf(t).None?
  }

  lemma ColumnTakenUnlessBroken(attrs: seq<PgAttribute>, kept: seq<StoredRow>, c: nat)
    requires c < |SchemaAttributes(attrs)|
    requires forall i :: 0 <= i < |kept| ==> |kept[i].row| == |SchemaAttributes(attrs)|
    requires var col := FromAttributes(attrs)[c];
             forall i :: 0 <= i < |kept| && kept[i].row[c].Stored? ==> EntryFor(col, Delivered(kept[i].row[c])).Ok?
    requires var t := TypeNamed(SchemaAttributes(attrs)[c]); !t.Interval? && ElementOf(t).None?
    ensures StoredColumnTaken(FromAttributes(attrs), kept, c) <==>
            forall i :: 0 <= i < |kept| ==> !BreaksAt(SchemaAttributes(attrs)[c], kept[i].row[c])
  {
    var cols, a := FromAttributes(attrs), SchemaAttributes(attrs)[c];
    ColumnsAreAttributes(attrs, c);
    BuiltAsDeclaredIff(cols[c]);
    OnlyArraysAreLists(cols[c].typeId);
    forall i | 0 <= i < |kept|
      ensures StoredEntry(cols[c], kept[i].row[c]) == NullEntry <==> IsNullIn(TypeNamed(a), kept[i].row[c])
    {
      NullEntryIff(cols[c], kept[i].row[c]);
    }
  }

  /** Under the schema read from the catalogue, a page whose payloads can be appended is
      refused exactly when a kept row has a NULL in a selected column whose attribute is NOT
      NULL, for every selection without repeats of columns that are built as declared. */
  lemma NullIsRefusedIffNotNull(attrs: seq<PgAttribute>, page: HeapPage, projection: Option<seq<nat>>,
                                slots: seq<Option<StoredRow>>, snapshot: Option<PgSnapshot>)
    requires PageHolds(page, Layouts(Types(FromAttributes(attrs))), slots) == true
    requires var cols := FromAttributes(attrs);
             var p := Selected(projection, |cols|);
             && p != [] && NoDuplicates(p) && InRange(p, |cols|) && AllBuilt(attrs, p)
             && AllAppend(cols, p, KeptRows(slots, snapshot))
    ensures var cols := FromAttributes(attrs);
            var r := PageBatch(page, cols, projection, snapshot);
            if BreaksNotNull(attrs, Selected(projection, |cols|), KeptRows(slots, snapshot))
            then r == Err(ArrowConversionFailed)
            else r.Ok?
  {
    var cols := FromAttributes(attrs);
    var p, kept := Selected(projection, |cols|), KeptRows(slots, snapshot);
    StoredPageIsConverted(page, cols, projection, slots, snapshot);
    forall j | 0 <= j < |p|
      ensures StoredColumnTaken(cols, kept, p[j]) <==>
              forall i :: 0 <= i < |kept| ==> !BreaksAt(SchemaAttributes(attrs)[p[j]], kept[i].row[p[j]])
    {
      ColumnTakenUnlessBroken(attrs, kept, p[j]);
    }
  }

  // ── Whole relations ──────────────────────────────────────────────────────

  /** A scan of a relation of stored pages shows, page by page, the values of its kept rows. */
  lemma StoredRelationIsReadBack(segs: Segments, cols: seq<PgColumn>, projection: Option<seq<nat>>,
                                 slots: seq<seq<Option<StoredRow>>>, snapshot: Option<PgSnapshot>, b: nat)
    requires |slots| == NumPages(segs) && b < |slots| && projection != Some([])
    requires forall k :: 0 <= k < |slots| ==> PageStores(segs, k, cols, slots[k])
    requires AllConvert(ConversionsOf(segs, ToBatch(cols, projection), snapshot), 0, |slots|)
    ensures var batches := Pages(ConversionsOf(segs, ToBatch(cols, projection), snapshot), 0, |slots|);
            && |batches| == |slots|
            && ShowsRows(batches[b], cols, Selected(projection, |cols|), KeptRows(slots[b], snapshot))
  {
    StoredRelationIsScanned(segs, cols, projection, slots, snapshot);
    var batches := Pages(ConversionsOf(segs, ToBatch(cols, projection), snapshot), 0, |slots|);
    assert Scan.ConvertsTo(cols, projection, KeptPages(slots, snapshot)[b]);
    assert IsKeptBatch(batches[b], cols, projection, KeptPages(slots, snapshot)[b]);
    BatchShowsRows(batches[b], cols, Selected(projection, |cols|), KeptRows(slots[b], snapshot));
  }

  // ── Row iteration over stored relations ─────────────────────────────────

  /** The parts one behind the other. */
  function InOrder<T>(parts: seq<seq<T>>): seq<T> {
    if parts == [] then [] else InOrder(parts[..|parts| - 1]) + parts[|parts| - 1]
  }

  /** A sequence without its last element, and without its first. */
  lemma Ends<T>(s: seq<T>, n: nat)
    requires 0 < n == |s| - 1
    ensures s[..n][0] == s[0] && s[1..][..n - 1] == s[..n][1..] && s[1..][n - 1] == s[n]
  {
    assert s[..n][1..] == s[1..][..n - 1];
  }

  lemma {:induction false} InOrderFrom<T>(parts: seq<seq<T>>)
    requires parts != []
    ensures InOrder(parts) == parts[0] + InOrder(parts[1..])
  {
    var n := |parts| - 1;
    if n == 0 {
      assert parts[..0] == [] && parts[1..] == [];
    } else {
      Ends(parts, n);
      InOrderFrom(parts[..n]);
      assert InOrder(parts[1..]) == InOrder(parts[..n][1..]) + parts[n];
    }
  }

  ghost function TupleIn(slot: Option<StoredRow>, layouts: seq<ColLayout>): seq<Item> {
    if slot.Some? && slot.value.Fits(layouts) then [Ok(slot.value.Tuple(layouts))] else []
  }

  ghost function SlotTuples(slots: seq<Option<StoredRow>>, layouts: seq<ColLayout>): (parts: seq<seq<Item>>)
    ensures |parts| == |slots| && forall k :: 0 <= k < |parts| ==> parts[k] == TupleIn(slots[k], layouts)
  {
    seq(|slots|, k requires 0 <= k < |slots| => TupleIn(slots[k], layouts))
  }

  /** The tuples stored on a page, kept or not, in slot order. */
  ghost function TuplesOn(slots: seq<Option<StoredRow>>, layouts: seq<ColLayout>): seq<Item> {
    InOrder(SlotTuples(slots, layouts))
  }

  ghost function PageTuples(pages: seq<seq<Option<StoredRow>>>, layouts: seq<ColLayout>): (parts: seq<seq<Item>>)
    ensures |parts| == |pages| && forall b :: 0 <= b < |parts| ==> parts[b] == TuplesOn(pages[b], layouts)
  {
    seq(|pages|, b requires 0 <= b < |pages| => TuplesOn(pages[b], layouts))
  }

  /** Those of all pages, in block order. */
  ghost function TuplesIn(pages: seq<seq<Option<StoredRow>>>, layouts: seq<ColLayout>): seq<Item> {
    InOrder(PageTuples(pages, layouts))
  }

  lemma TuplesFirst(slots: seq<Option<StoredRow>>, layouts: seq<ColLayout>)
    requires slots != []
    ensures TuplesOn(slots, layouts) == TupleIn(slots[0], layouts) + TuplesOn(slots[1..], layouts)
  {
    InOrderFrom(SlotTuples(slots, layouts));
    assert SlotTuples(slots, layouts)[1..] == SlotTuples(slots[1..], layouts);
  }

  lemma PagesFirst(pages: seq<seq<Option<StoredRow>>>, layouts: seq<ColLayout>)
    requires pages != []
    ensures TuplesIn(pages, layouts) == TuplesOn(pages[0], layouts) + TuplesIn(pages[1..], layouts)
  {
    InOrderFrom(PageTuples(pages, layouts));
    assert PageTuples(pages, layouts)[1..] == PageTuples(pages[1..], layouts);
  }

  lemma {:induction false} StoredPageIsIterated(page: HeapPage, layouts: seq<ColLayout>,
                                                slots: seq<Option<StoredRow>>, k: nat)
    requires PageHolds(page, layouts, slots) == true && k <= |slots| == |page.items|
    ensures Accepted(ReadRow(), page, k) == TuplesOn(slots[k..], layouts)
    decreases |slots| - k
  {
    if k < |slots| {
      StoredPageIsIterated(page, layouts, slots, k + 1);
      SlotIsRead(page, layouts, slots, k);
      TuplesFirst(slots[k..], layouts);
      assert slots[k..][1..] == slots[k + 1..];
    }
  }

  lemma {:induction false} StoredPagesAreIterated(segs: Segments, cols: seq<PgColumn>,
                                                  slots: seq<seq<Option<StoredRow>>>, b: nat)
    requires |slots| == NumPages(segs) && b <= |slots|
    requires forall k :: 0 <= k < |slots| ==> PageStores(segs, k, cols, slots[k])
    ensures RowsFrom(PagesIn(segs), |slots|, ReadRow(), b) == TuplesIn(slots[b..], Layouts(Types(cols)))
    decreases |slots| - b
  {
    if b < |slots| {
      var layouts := Layouts(Types(cols));
      StoredPagesAreIterated(segs, cols, slots, b + 1);
      assert PageStores(segs, b, cols, slots[b]);
      PageOfRowsHolds(PageAt(segs, b), layouts, slots[b]);
      var page := ParsedPage(PageAt(segs, b)).value;
      assert |slots[b]| == |page.items|;
      StoredPageIsIterated(page, layouts, slots[b], 0);
      assert slots[b][0..] == slots[b];
      PagesFirst(slots[b..], layouts);
      assert slots[b..][1..] == slots[b + 1..];
    }
  }

  /** The row iterator over a relation of stored pages yields the tuple of every stored row,
      kept or not, once, in (block, slot) order. */
  lemma StoredRelationIsIterated(segs: Segments, cols: seq<PgColumn>, slots: seq<seq<Option<StoredRow>>>)
    requires segs != [] && |slots| == NumPages(segs)
    requires forall k :: 0 <= k < |slots| ==> PageStores(segs, k, cols, slots[k])
    ensures AllRows(segs) == TuplesIn(slots, Layouts(Types(cols)))
  {
    StoredPagesAreIterated(segs, cols, slots, 0);
    assert slots[0..] == slots;
  }
}
