/** Heap pages and their direct conversion to Arrow columns (src/heap/page.rs). */
module Page {
  import opened Base
  import opened Codec
  import opened HeapTuples
  import opened Deform
  import opened TupleWalk
  import opened RowDecode
  import opened Builder
  import opened ArrowTypes
  import opened Snapshot
  import opened Mvcc

  const LP_NORMAL := 1

  // ── Line pointers ────────────────────────────────────────────────────────

  /** lp_off, lp_flags and lp_len: 15, 2 and 15 bits of a 32-bit word. */
  datatype ItemId = ItemId(word: nat) {
    function Off(): nat { word % 0x8000 }
    function Flags(): nat { word / 0x8000 % 4 }
    function Len(): nat { word / 0x2_0000 % 0x8000 }
  }

  lemma ItemIdFields(off: nat, flags: nat, len: nat)
    requires off < 0x8000 && flags < 4 && len < 0x8000
    ensures var i := ItemId(off + 0x8000 * flags + 0x2_0000 * len);
            i.word < 0x1_0000_0000 && i.Off() == off && i.Flags() == flags && i.Len() == len
  {
    var w := off + 0x8000 * flags + 0x2_0000 * len;
    assert w / 0x8000 == flags + 4 * len;
    assert w / 0x2_0000 == len;
  }

  function NumLinePointers(pdLower: nat): nat { SatSub(pdLower, 24) / 4 }

  function ReadLinePointer(page: seq<byte>, index: nat): (r: Result<ItemId>)
    ensures r.Ok? <==> 24 + 4 * index + 4 <= |page|
  {
    if 24 + 4 * index + 4 <= |page| then Ok(ItemId(U32(page, 24 + 4 * index))) else Err(Panic)
  }

  datatype HeapPage = HeapPage(items: seq<ItemId>, data: seq<byte>)

  function ParsedPage(buffer: seq<byte>): Result<HeapPage> {
    if |buffer| < PAGE_SIZE then Err(PageBufferTooShort)
    else
      var n := NumLinePointers(U16(buffer, 12));
      if 24 + 4 * n <= |buffer| then
        Ok(HeapPage(seq(n, k requires 0 <= k < n => ItemId(U32(buffer, 24 + 4 * k))), buffer))
      else Err(Panic)
  }

  method ParseBytes(buffer: seq<byte>) returns (r: Result<HeapPage>)
    ensures r == ParsedPage(buffer)
  {
    if |buffer| < PAGE_SIZE {
      return Err(PageBufferTooShort);
    }
    var n := NumLinePointers(U16(buffer, 12));
    var items := [];
    for k := 0 to n
      invariant |items| == k && 24 + 4 * k <= |buffer|
      invariant forall i :: 0 <= i < k ==> items[i] == ItemId(U32(buffer, 24 + 4 * i))
    {
      var item := ReadLinePointer(buffer, k);
      if item.Err? {
        return Err(item.error);
      }
      items := items + [item.value];
    }
    assert items == ParsedPage(buffer).value.items;
    return Ok(HeapPage(items, buffer));
  }

  /** A page buffer parses, rather than panics, exactly when pd_lower is at most 8195; a
      longer one when its line pointers fit; one below 8192 bytes is refused. */
  lemma PageParsesIff(buffer: seq<byte>)
    ensures |buffer| < 8192 ==> ParsedPage(buffer) == Err(PageBufferTooShort)
    ensures |buffer| == 8192 ==> (ParsedPage(buffer).Ok? <==> U16(buffer, 12) <= 8195)
    ensures |buffer| >= 8192 ==>
              var n := if U16(buffer, 12) < 24 then 0 else (U16(buffer, 12) - 24) / 4;
              if 24 + 4 * n > |buffer| then ParsedPage(buffer) == Err(Panic)
              else
                && ParsedPage(buffer).Ok? && ParsedPage(buffer).value.data == buffer
                && |ParsedPage(buffer).value.items| == n
                && forall k :: 0 <= k < n ==> ParsedPage(buffer).value.items[k].word == U32(buffer, 24 + 4 * k)
  {
  }

  function GetRowData(page: HeapPage, posid: nat): Result<HeapTuple> {
    if posid >= |page.items| then Err(Generic)
    else
      var lp := page.items[posid];
      if lp.Flags() != LP_NORMAL then Err(DeadTupleLinePointer)
      else
        match Get(page.data, lp.Off(), lp.Off() + lp.Len())
        case None => Err(Generic)
        case Some(raw) => ParseAndBuild(raw)
  }

  /** A slot is read only if the two flag bits of its line pointer are 1; unused, redirected
      and dead line pointers (0, 2 and 3) never are. */
  lemma PointerIsFollowedIff(page: HeapPage, k: nat)
    ensures k >= |page.items| ==> GetRowData(page, k) == Err(Generic)
    ensures k < |page.items| ==>
              var word := page.items[k].word;
              var (off, len) := (word % 0x8000, word / 0x2_0000 % 0x8000);
              GetRowData(page, k) == if word / 0x8000 % 4 != 1 then Err(DeadTupleLinePointer)
                                     else if off + len > |page.data| then Err(Generic)
                                     else ParseAndBuild(page.data[off..off + len])
  {
  }

  // ── Specification of to_record_batch ────────────────────────────────────

  /** The tuple of slot `k`, if get_row_data accepts it and the filter keeps it. */
  function KeptTuple(page: HeapPage, snapshot: Option<PgSnapshot>, k: nat): Option<HeapTuple> {
    match GetRowData(page, k)
    case Ok(t) => if Kept(t.header, snapshot) then Some(t) else None
    case Err(_) => None
  }

  function Types(cols: seq<PgColumn>): (t: seq<PgTypeId>)
    ensures |t| == |cols|
    ensures forall i :: 0 <= i < |t| ==> t[i] == cols[i].typeId
  {
    seq(|cols|, i requires 0 <= i < |cols| => cols[i].typeId)
  }

  function EntryCheck(cols: seq<PgColumn>): Accept {
    (i: nat, b: seq<byte>) =>
      if i >= |cols| then Some(Panic)
      else match EntryFor(cols[i], b)
        case Ok(_) => None
        case Err(e) => Some(e)
  }

  function PagePlan(cols: seq<PgColumn>, wanted: seq<bool>, nulls: seq<byte>, data: seq<byte>): Plan {
    Plan(Pages, EntryCheck(cols), Layouts(Types(cols)), wanted, nulls, data)
  }

  /** How a kept tuple becomes a row. */
  type Converter = HeapTuple -> Result<Row>

  function ConverterFor(cols: seq<PgColumn>, wanted: seq<bool>): Converter {
    (t: HeapTuple) => RowOf(PagePlan(cols, wanted, t.nullBitmap, t.data).Run())
  }

  /** The results of `pick` on `k, ..., n - 1`, in order, without the absent ones. */
  function Collect<T>(pick: nat -> Option<T>, n: nat, k: nat): seq<T>
    requires k <= n
    decreases n - k
  {
    if k == n then []
    else match pick(k)
      case None => Collect(pick, n, k + 1)
      case Some(t) => [t] + Collect(pick, n, k + 1)
  }

  function Picker(page: HeapPage, snapshot: Option<PgSnapshot>): nat -> Option<HeapTuple> {
    (k: nat) => KeptTuple(page, snapshot, k)
  }

  /** The tuples get_row_data accepts and the filter keeps, in slot order. */
  function KeptTuples(page: HeapPage, snapshot: Option<PgSnapshot>): seq<HeapTuple> {
    Collect(Picker(page, snapshot), |page.items|, 0)
  }

  function Convert(tuples: seq<HeapTuple>, convert: Converter): Result<seq<Row>> {
    if tuples == [] then Ok([])
    else
      var row :- convert(tuples[0]);
      var rest :- Convert(tuples[1..], convert);
      Ok([row] + rest)
  }

  ghost predicate Width(rows: seq<Row>, n: nat) { forall i :: 0 <= i < |rows| ==> |rows[i]| == n }

  lemma {:induction false} RowWidths(tuples: seq<HeapTuple>, convert: Converter, n: nat)
    requires Convert(tuples, convert).Ok?
    requires forall t :: convert(t).Ok? ==> |convert(t).value| == n
    ensures |Convert(tuples, convert).value| == |tuples|
    ensures Width(Convert(tuples, convert).value, n)
  {
    if tuples != [] {
      RowWidths(tuples[1..], convert, n);
    }
  }

  lemma ConvertedWidths(tuples: seq<HeapTuple>, cols: seq<PgColumn>, wanted: seq<bool>)
    ensures var rows := Convert(tuples, ConverterFor(cols, wanted));
            rows.Ok? ==> |rows.value| == |tuples| && Width(rows.value, |wanted|)
  {
    var convert := ConverterFor(cols, wanted);
    if Convert(tuples, convert).Ok? {
      RowWidths(tuples, convert, |wanted|);
    }
  }

  function EntryOf(col: PgColumn, c: Cell): Entry {
    match c
    case At(_, b) => (match EntryFor(col, b) case Ok(e) => e case Err(_) => NullEntry)
    case _ => NullEntry
  }

  type Column = seq<Entry>
  type Batch = seq<Column>

  /** Column `c` of the rows, rendered for `col`. */
  function ColumnOf(rows: seq<Row>, col: PgColumn, c: nat): (r: Column)
    requires forall i :: 0 <= i < |rows| ==> c < |rows[i]|
    ensures |r| == |rows|
  {
    if rows == [] then []
    else ColumnOf(rows[..|rows| - 1], col, c) + [EntryOf(col, rows[|rows| - 1][c])]
  }

  /** Output column `j`: only the last occurrence of a schema column receives entries. */
  function OutputColumn(rows: seq<Row>, cols: seq<PgColumn>, p: seq<nat>, j: nat): Column
    requires j < |p| && p[j] < |cols| && forall i :: 0 <= i < |rows| ==> p[j] < |rows[i]|
  {
    if LastAt(p, j) then ColumnOf(rows, cols[p[j]], p[j]) else []
  }

  function OutputColumns(rows: seq<Row>, cols: seq<PgColumn>, p: seq<nat>): (b: Batch)
    requires InRange(p, |cols|)
    requires forall i, j :: 0 <= i < |rows| && 0 <= j < |p| ==> p[j] < |rows[i]|
    ensures |b| == |p|
  {
    seq(|p|, j requires 0 <= j < |p| => OutputColumn(rows, cols, p, j))
  }

  predicate Rectangular(b: Batch) {
    forall i, j :: 0 <= i < |b| && 0 <= j < |b| ==> |b[i]| == |b[j]|
  }

  /** `schema.project` */
  function ColumnsAt(cols: seq<PgColumn>, p: seq<nat>): (s: seq<PgColumn>)
    requires InRange(p, |cols|)
    ensures |s| == |p| && forall j :: 0 <= j < |p| ==> s[j] == cols[p[j]]
  {
    seq(|p|, j requires 0 <= j < |p| => cols[p[j]])
  }

  predicate AllTake(schema: seq<PgColumn>, b: Batch) {
    |schema| == |b| && forall j :: 0 <= j < |b| ==> Takes(schema[j], b[j])
  }

  /** Arrow's RecordBatch constructor: at least one column, columns of equal length and of
      the declared type, and no NULL where none is declared. */
  function TryNew(schema: seq<PgColumn>, b: Batch): Result<Batch> {
    if |b| > 0 && Rectangular(b) && AllTake(schema, b) then Ok(b) else Err(ArrowConversionFailed)
  }

  function Identity(n: nat): (p: seq<nat>)
    ensures |p| == n && forall i :: 0 <= i < n ==> p[i] == i
  {
    seq(n, i requires 0 <= i => i)
  }

  function Selected(projection: Option<seq<nat>>, n: nat): seq<nat> {
    if projection.Some? then projection.value else Identity(n)
  }

  function WalkUpTo(projection: Option<seq<nat>>, n: nat): nat {
    if projection.None? then n else if projection.value == [] then 0 else MaxOf(projection.value) + 1
  }

  function PageBatch(page: HeapPage, cols: seq<PgColumn>, projection: Option<seq<nat>>,
                     snapshot: Option<PgSnapshot>): Result<Batch>
  {
    var p := Selected(projection, |cols|);
    if projection == Some([]) then Ok([])
    else if !InRange(p, |cols|) then Err(Panic)
    else
      var wanted := WantedBy(p, WalkUpTo(projection, |cols|));
      ConvertedWidths(KeptTuples(page, snapshot), cols, wanted);
      var rows :- Convert(KeptTuples(page, snapshot), ConverterFor(cols, wanted));
      TryNew(ColumnsAt(cols, p), OutputColumns(rows, cols, p))
  }

  // ── to_record_batch ──────────────────────────────────────────────────────

  /** The inlined header checks of the page loop: the null bitmap and data area of slot
      `k`, unless the slot is passed over. */
  method VisibleTuple(page: HeapPage, k: nat, snapshot: Option<PgSnapshot>)
    returns (t: Option<(seq<byte>, seq<byte>)>)
    requires k < |page.items|
    ensures match KeptTuple(page, snapshot, k)
            case None => t == None
            case Some(tup) => t == Some((tup.nullBitmap, tup.data))
  {
    var lp := page.items[k];
    if lp.Flags() != LP_NORMAL {
      return None;
    }
    var slice := Get(page.data, lp.Off(), lp.Off() + lp.Len());
    if slice.None? {
      return None;
    }
    var raw := slice.value;
    if |raw| < SIZEOF_HEAP_TUPLE_HEADER {
      return None;
    }
    var infomask, infomask2 := U16(raw, 20), U16(raw, 18);
    var hoff: nat := raw[22];
    if hoff < SIZEOF_HEAP_TUPLE_HEADER || hoff > |raw| {
      return None;
    }
    var xmin, xmax := U32(raw, 0), U32(raw, 4);
    if !HasBit(infomask, HEAP_XMAX_INVALID) && xmax != 0 {
      return None;
    }
    if snapshot.Some? && !snapshot.value.XminVisible(xmin) {
      return None;
    }
    var bitmap: seq<byte> := [];
    if HasBit(infomask, HEAP_HASNULL) {
      var natts := infomask2 % NATTS_MODULUS;
      var bitmapEnd := SIZEOF_HEAP_TUPLE_HEADER + DivCeil8(natts);
      if bitmapEnd > hoff {
        return None;
      }
      bitmap := raw[SIZEOF_HEAP_TUPLE_HEADER..bitmapEnd];
    }
    return Some((bitmap, raw[hoff..]));
  }

  /** Align, then slice out a projected column or measure another: the payload's place and
      bytes, and the offset after it. */
  function PageColumn(l: ColLayout, data: seq<byte>, off: nat, projected: bool): Result<(nat, seq<byte>, nat)> {
    var at := AlignInPages(l, data, off);
    SizesAgree(l, data, at);
    var n := FixedSize(l);
    if projected then
      var piece :- if n > 0 then ExtractFixedBytes(data, at, n) else ExtractColumnBytes(l.len, data, at);
      Ok((piece.start, data[piece.start..piece.start + piece.len], at + piece.consumed))
    else
      var size :- if n > 0 then Ok(n) else SkipDatum(l.len, data, at);
      Ok((0, [], at + size))
  }

  lemma PageColumnIsVisit(plan: Plan, col: nat, off: nat)
    requires plan.reader.Pages? && col < |plan.wanted| <= |plan.layouts|
    ensures match PageColumn(plan.layouts[col], plan.data, off, plan.wanted[col])
            case Err(e) => plan.Visit(col, off) == Err(e)
            case Ok((start, bytes, next)) =>
              if !plan.wanted[col] then plan.Visit(col, off) == Ok((Skipped, next))
              else match plan.accept(col, bytes)
                case Some(e) => plan.Visit(col, off) == Err(e)
                case None => plan.Visit(col, off) == Ok((At(start, bytes), next))
  {
    SizesAgree(plan.layouts[col], plan.data, plan.Start(col, off));
  }

  /** One column of one tuple, not NULL: append the value to its builder, or skip it. */
  method VisitPageColumn(cols: seq<PgColumn>, layouts: seq<ColLayout>, col: nat, place: Option<nat>,
                         builders: seq<ColumnBuilder>, data: seq<byte>, offset: nat,
                         ghost wanted: seq<bool>, ghost nulls: seq<byte>)
    returns (e: Option<PgError>, offset': nat)
    requires layouts == Layouts(Types(cols)) && col < |wanted| <= |cols| && wanted[col] == place.Some?
    requires place.Some? ==> place.value < |builders| && builders[place.value].col == cols[col]
    modifies if place.Some? then {builders[place.value]} else {}
    ensures match PagePlan(cols, wanted, nulls, data).Visit(col, offset)
            case Err(error) => e == Some(error)
            case Ok((cell, next)) =>
              && e == None && offset' == next
              && (place.Some? ==>
                   builders[place.value].entries == old(builders[place.value].entries) + [EntryOf(cols[col], cell)])
  {
    ghost var plan := PagePlan(cols, wanted, nulls, data);
    PageColumnIsVisit(plan, col, offset);
    var column := PageColumn(layouts[col], data, offset, place.Some?);
    if column.Err? {
      return Some(column.error), offset;
    }
    var (start, bytes, next) := column.value;
    offset' := next;
    if place.Some? {
      e := builders[place.value].AppendBytes(bytes);
    } else {
      e := None;
    }
  }

  ghost predicate BuildersFor(builders: seq<ColumnBuilder>, cols: seq<PgColumn>, p: seq<nat>)
    requires InRange(p, |cols|)
  {
    && |builders| == |p|
    && (forall i, j :: 0 <= i < j < |builders| ==> builders[i] != builders[j])
    && forall j :: 0 <= j < |builders| ==> builders[j].col == cols[p[j]]
  }

  ghost function Entries(builders: seq<ColumnBuilder>): (b: Batch)
    reads builders
    ensures |b| == |builders| && forall j :: 0 <= j < |b| ==> b[j] == builders[j].entries
  {
    seq(|builders|, j requires 0 <= j < |builders| reads builders => builders[j].entries)
  }

  /** The builders' contents once the cells of columns `0..|cells|` have been appended. */
  ghost function Appended(before: Batch, cols: seq<PgColumn>, p: seq<nat>, cells: seq<Cell>): (b: Batch)
    requires InRange(p, |cols|) && |before| == |p|
    ensures |b| == |p|
  {
    seq(|p|, j requires 0 <= j < |p| =>
      if LastAt(p, j) && p[j] < |cells| then before[j] + [EntryOf(cols[p[j]], cells[p[j]])] else before[j])
  }

  lemma AppendedNext(before: Batch, cols: seq<PgColumn>, p: seq<nat>, cells: seq<Cell>, cell: Cell, place: Option<nat>)
    requires InRange(p, |cols|) && |before| == |p| && PlaceOf(place, p, |cells|)
    ensures var now := Appended(before, cols, p, cells);
            Appended(before, cols, p, cells + [cell]) ==
            match place
            case None => now
            case Some(o) => now[o := now[o] + [EntryOf(cols[p[o]], cell)]]
  {
    var now, next := Appended(before, cols, p, cells), Appended(before, cols, p, cells + [cell]);
    forall j | 0 <= j < |p| && place != Some(j) ensures next[j] == now[j] {
      if LastAt(p, j) {
        assert p[j] != |cells|;
      }
    }
  }

  lemma OutputNext(rows: seq<Row>, row: Row, cols: seq<PgColumn>, p: seq<nat>)
    requires InRange(p, |cols|)
    requires forall i, j :: 0 <= i < |rows| && 0 <= j < |p| ==> p[j] < |rows[i]|
    requires forall j :: 0 <= j < |p| ==> p[j] < |row|
    ensures OutputColumns(rows + [row], cols, p) == Appended(OutputColumns(rows, cols, p), cols, p, row)
  {
    forall j | 0 <= j < |p|
      ensures OutputColumn(rows + [row], cols, p, j) == Appended(OutputColumns(rows, cols, p), cols, p, row)[j]
    {
      assert (rows + [row])[..|rows|] == rows;
    }
  }

  /** One column of one tuple: a NULL is appended and takes no space. */
  method AppendColumn(cols: seq<PgColumn>, layouts: seq<ColLayout>, col: nat, place: Option<nat>,
                      builders: seq<ColumnBuilder>, nulls: seq<byte>, data: seq<byte>, offset: nat,
                      ghost wanted: seq<bool>, ghost walk: Walk)
    returns (e: Option<PgError>, offset': nat, ghost cell: Cell)
    requires Follows(walk, PagePlan(cols, wanted, nulls, data)) == true
    requires layouts == Layouts(Types(cols)) && col < |wanted| <= |cols| && wanted[col] == place.Some?
    requires place.Some? ==> place.value < |builders| && builders[place.value].col == cols[col]
    requires forall i, j :: 0 <= i < j < |builders| ==> builders[i] != builders[j]
    modifies builders
    ensures if IsNull(nulls, col) then e == None && cell == Null && offset' == offset
            else match walk.step(col, offset)
              case Err(error) => e == Some(error)
              case Ok((c, next)) => e == None && cell == c && offset' == next
    ensures e.None? ==> Entries(builders) == Grown(old(Entries(builders)), cols, col, place, cell)
  {
    if IsNull(nulls, col) {
      if place.Some? {
        builders[place.value].AppendNull();
      }
      return None, offset, Null;
    }
    assert Here(col, offset);
    cell := match walk.step(col, offset)
      case Ok((c, _)) => c
      case Err(_) => Null;
    e, offset' := VisitPageColumn(cols, layouts, col, place, builders, data, offset, wanted, nulls);
  }

  ghost function Grown(b: Batch, cols: seq<PgColumn>, col: nat, place: Option<nat>, cell: Cell): Batch
    requires col < |cols| && (place.Some? ==> place.value < |b|)
  {
    match place
    case None => b
    case Some(o) => b[o := b[o] + [EntryOf(cols[col], cell)]]
  }

  /** Columns `0..|done|` of a tuple have been appended to builders that held `before`, and
      the rest of the walk, from `offset`, completes it. */
  ghost predicate Progress(walk: Walk, done: seq<Cell>, offset: nat, now: Batch, before: Batch,
                           cols: seq<PgColumn>, p: seq<nat>)
    requires InRange(p, |cols|) && |before| == |p|
  {
    && |done| <= walk.count
    && walk.From(0, 0) == Prepend(done, walk.From(|done|, offset))
    && now == Appended(before, cols, p, done)
  }

  lemma CellProgress(walk: Walk, done: seq<Cell>, offset: nat, now: Batch, before: Batch,
                     cols: seq<PgColumn>, p: seq<nat>, place: Option<nat>, cell: Cell, next: nat)
    requires InRange(p, |cols|) && |before| == |p| && |done| < walk.count && |done| < |cols|
    requires now == Appended(before, cols, p, done) && PlaceOf(place, p, |done|)
    requires walk.From(0, 0) == Prepend(done + [cell], walk.From(|done| + 1, next))
    ensures Progress(walk, done + [cell], next, Grown(now, cols, |done|, place, cell), before, cols, p)
  {
    AppendedNext(before, cols, p, done, cell, place);
  }

  lemma NextProgress(walk: Walk, done: seq<Cell>, offset: nat, now: Batch, before: Batch,
                     cols: seq<PgColumn>, p: seq<nat>, place: Option<nat>)
    requires InRange(p, |cols|) && |before| == |p| && |done| < walk.count
    requires Progress(walk, done, offset, now, before, cols, p) && PlaceOf(place, p, |done|)
    ensures |done| < |cols| ==>
              if IsNull(walk.nulls, |done|) then
                Progress(walk, done + [Null], offset, Grown(now, cols, |done|, place, Null), before, cols, p)
              else if walk.step(|done|, offset).Err? then
                walk.From(0, 0) == Err(walk.step(|done|, offset).error)
              else
                Progress(walk, done + [walk.step(|done|, offset).value.0], walk.step(|done|, offset).value.1,
                         Grown(now, cols, |done|, place, walk.step(|done|, offset).value.0), before, cols, p)
  {
    Unroll(walk, done, |done|, offset);
    if |done| < |cols| {
      if IsNull(walk.nulls, |done|) {
        CellProgress(walk, done, offset, now, before, cols, p, place, Null, offset);
      } else if walk.step(|done|, offset).Ok? {
        var (cell, next) := walk.step(|done|, offset).value;
        CellProgress(walk, done, offset, now, before, cols, p, place, cell, next);
      }
    }
  }

  /** The column loop: every output builder grows by this tuple's entry for its column. */
  method WalkTuple(cols: seq<PgColumn>, layouts: seq<ColLayout>, p: seq<nat>, places: seq<Option<nat>>,
                   builders: seq<ColumnBuilder>, nulls: seq<byte>, data: seq<byte>, ghost walk: Walk)
    returns (e: Option<PgError>)
    requires Follows(walk, PagePlan(cols, WantedBy(p, |places|), nulls, data))
    requires layouts == Layouts(Types(cols)) && |places| <= |cols| && InRange(p, |cols|)
    requires forall i :: 0 <= i < |places| ==> PlaceOf(places[i], p, i)
    requires BuildersFor(builders, cols, p)
    modifies builders
    ensures match walk.From(0, 0)
            case Err(error) => e == Some(error)
            case Ok(w) => e == None && Entries(builders) == Appended(old(Entries(builders)), cols, p, w.cells)
  {
    var offset := 0;
    ghost var done: seq<Cell> := [];
    ghost var before := Entries(builders);
    assert before == Appended(before, cols, p, []);
    for col := 0 to |places|
      invariant |done| == col && Progress(walk, done, offset, Entries(builders), before, cols, p)
    {
      NextProgress(walk, done, offset, Entries(builders), before, cols, p, places[col]);
      ghost var cell;
      e, offset, cell := AppendColumn(cols, layouts, col, places[col], builders, nulls, data, offset,
                                      WantedBy(p, |places|), walk);
      if e.Some? {
        return e;
      }
      done := done + [cell];
    }
    assert done + [] == done;
    return None;
  }

  method MakeBuilders(cols: seq<PgColumn>, p: seq<nat>) returns (builders: seq<ColumnBuilder>)
    requires InRange(p, |cols|)
    ensures BuildersFor(builders, cols, p)
    ensures forall j :: 0 <= j < |builders| ==> fresh(builders[j]) && builders[j].entries == []
  {
    builders := [];
    for k := 0 to |p|
      invariant |builders| == k
      invariant forall i, j :: 0 <= i < j < k ==> builders[i] != builders[j]
      invariant forall j :: 0 <= j < k ==>
        fresh(builders[j]) && builders[j].col == cols[p[j]] && builders[j].entries == []
    {
      var b := new ColumnBuilder(cols[p[k]]);
      builders := builders + [b];
    }
  }

  /** Prefixing the rows of earlier slots. */
  function PrependRows(done: seq<Row>, r: Result<seq<Row>>): (p: Result<seq<Row>>)
    ensures done == [] ==> p == r
  {
    match r
    case Err(e) => Err(e)
    case Ok(rows) =>
      assert done == [] ==> done + rows == rows;
      Ok(done + rows)
  }

  lemma UnrollRows(pick: nat -> Option<HeapTuple>, n: nat, convert: Converter, done: seq<Row>, k: nat)
    requires k < n
    ensures PrependRows(done, Convert(Collect(pick, n, k), convert)) ==
            match pick(k)
            case None => PrependRows(done, Convert(Collect(pick, n, k + 1), convert))
            case Some(t) =>
              match convert(t)
              case Err(e) => Err(e)
              case Ok(row) => PrependRows(done + [row], Convert(Collect(pick, n, k + 1), convert))
  {
    if pick(k).Some? {
      var t, rest := pick(k).value, Collect(pick, n, k + 1);
      assert ([t] + rest)[1..] == rest;
      if convert(t).Ok? && Convert(rest, convert).Ok? {
        var row, rows := convert(t).value, Convert(rest, convert).value;
        assert done + ([row] + rows) == done + [row] + rows;
      }
    }
  }

  method ToRecordBatch(page: HeapPage, cols: seq<PgColumn>, projection: Option<seq<nat>>,
                       snapshot: Option<PgSnapshot>)
    returns (r: Result<Batch>)
    ensures r == PageBatch(page, cols, projection, snapshot)
  {
    if projection == Some([]) {
      return Ok([]);
    }
    var p := Selected(projection, |cols|);
    for k := 0 to |p|
      invariant forall j :: 0 <= j < k ==> p[j] < |cols|
    {
      if p[k] >= |cols| {
        return Err(Panic);  // schema.project
      }
    }
    var layouts := Layouts(Types(cols));
    var places := BuildOutputPositions(p, WalkUpTo(projection, |cols|));
    var builders := MakeBuilders(cols, p);
    ghost var pick, convert := Picker(page, snapshot), ConverterFor(cols, WantedBy(p, |places|));
    var e := ConvertTuples(page, cols, layouts, p, places, builders, snapshot, pick, convert);
    if e.Some? {
      return Err(e.value);
    }
    var arrays := Finish(builders);
    return TryNew(ColumnsAt(cols, p), arrays);
  }

  method Finish(builders: seq<ColumnBuilder>) returns (arrays: Batch)
    ensures arrays == Entries(builders)
  {
    arrays := [];
    for j := 0 to |builders|
      invariant |arrays| == j && forall i :: 0 <= i < j ==> arrays[i] == builders[i].entries
    {
      arrays := arrays + [builders[j].entries];
    }
  }

  /** Slots before `k` have yielded `rows`, which the builders hold as columns. */
  ghost predicate RowProgress(pick: nat -> Option<HeapTuple>, n: nat, convert: Converter, k: nat,
                              rows: seq<Row>, width: nat, now: Batch, cols: seq<PgColumn>, p: seq<nat>)
    requires k <= n && InRange(p, |cols|) && forall j :: 0 <= j < |p| ==> p[j] < width
  {
    && Convert(Collect(pick, n, 0), convert) == PrependRows(rows, Convert(Collect(pick, n, k), convert))
    && Width(rows, width) && now == OutputColumns(rows, cols, p)
  }

  /** What slot `k` becomes: nothing, or the row or error of its tuple. */
  ghost function SlotRow(pick: nat -> Option<HeapTuple>, convert: Converter, k: nat): Option<Result<Row>> {
    match pick(k)
    case None => None
    case Some(t) => Some(convert(t))
  }

  lemma NextRow(pick: nat -> Option<HeapTuple>, n: nat, convert: Converter, k: nat,
                rows: seq<Row>, width: nat, now: Batch, cols: seq<PgColumn>, p: seq<nat>)
    requires k < n && InRange(p, |cols|) && forall j :: 0 <= j < |p| ==> p[j] < width
    requires RowProgress(pick, n, convert, k, rows, width, now, cols, p)
    ensures match SlotRow(pick, convert, k)
            case None => RowProgress(pick, n, convert, k + 1, rows, width, now, cols, p)
            case Some(Err(e)) => Convert(Collect(pick, n, 0), convert) == Err(e)
            case Some(Ok(row)) =>
              |row| == width ==>
                RowProgress(pick, n, convert, k + 1, rows + [row], width, Appended(now, cols, p, row), cols, p)
  {
    UnrollRows(pick, n, convert, rows, k);
    var t := pick(k);
    if t.Some? && convert(t.value).Ok? && |convert(t.value).value| == width {
      OutputNext(rows, convert(t.value).value, cols, p);
    }
  }

  /** `pick` and `convert` are the page loop's; the quantifier keeps them folded. */
  ghost predicate PageLoop(pick: nat -> Option<HeapTuple>, convert: Converter, page: HeapPage,
                           snapshot: Option<PgSnapshot>, cols: seq<PgColumn>, wanted: seq<bool>)
  {
    forall u: nat {:trigger Here(u, 0)} :: Here(u, 0) ==>
      pick == Picker(page, snapshot) && convert == ConverterFor(cols, wanted)
  }

  /** One slot: passed over, or one entry appended to every output builder. */
  method ConvertSlot(page: HeapPage, k: nat, cols: seq<PgColumn>, layouts: seq<ColLayout>, p: seq<nat>,
                     places: seq<Option<nat>>, builders: seq<ColumnBuilder>, snapshot: Option<PgSnapshot>,
                     ghost pick: nat -> Option<HeapTuple>, ghost convert: Converter)
    returns (e: Option<PgError>)
    requires k < |page.items| && PageLoop(pick, convert, page, snapshot, cols, WantedBy(p, |places|)) == true
    requires layouts == Layouts(Types(cols)) && |places| <= |cols| && InRange(p, |cols|)
    requires forall i :: 0 <= i < |places| ==> PlaceOf(places[i], p, i)
    requires BuildersFor(builders, cols, p)
    modifies builders
    ensures match SlotRow(pick, convert, k)
            case None => e == None && Entries(builders) == old(Entries(builders))
            case Some(Err(error)) => e == Some(error)
            case Some(Ok(row)) => && e == None && |row| == |places|
                                  && Entries(builders) == Appended(old(Entries(builders)), cols, p, row)
  {
    assert Here(0, 0);
    var tup := VisibleTuple(page, k, snapshot);
    if tup.None? {
      return None;
    }
    var (nulls, data) := tup.value;
    ghost var plan := PagePlan(cols, WantedBy(p, |places|), nulls, data);
    e := WalkTuple(cols, layouts, p, places, builders, nulls, data, plan.ToWalk());
  }

  /** One turn of the slot loop. */
  method NextSlot(page: HeapPage, k: nat, cols: seq<PgColumn>, layouts: seq<ColLayout>, p: seq<nat>,
                  places: seq<Option<nat>>, builders: seq<ColumnBuilder>, snapshot: Option<PgSnapshot>,
                  ghost pick: nat -> Option<HeapTuple>, ghost convert: Converter, ghost rows: seq<Row>)
    returns (e: Option<PgError>, ghost rows': seq<Row>)
    requires k < |page.items| && PageLoop(pick, convert, page, snapshot, cols, WantedBy(p, |places|)) == true
    requires layouts == Layouts(Types(cols)) && |places| <= |cols| && InRange(p, |cols|)
    requires forall j :: 0 <= j < |p| ==> p[j] < |places|
    requires forall i :: 0 <= i < |places| ==> PlaceOf(places[i], p, i)
    requires BuildersFor(builders, cols, p)
    requires RowProgress(pick, |page.items|, convert, k, rows, |places|, Entries(builders), cols, p)
    modifies builders
    ensures if e.Some? then Convert(Collect(pick, |page.items|, 0), convert) == Err(e.value)
            else RowProgress(pick, |page.items|, convert, k + 1, rows', |places|, Entries(builders), cols, p)
  {
    NextRow(pick, |page.items|, convert, k, rows, |places|, Entries(builders), cols, p);
    e := ConvertSlot(page, k, cols, layouts, p, places, builders, snapshot, pick, convert);
    ghost var row := SlotRow(pick, convert, k);
    rows' := if row.Some? && row.value.Ok? then rows + [row.value.value] else rows;
  }

  /** The slot loop. */
  method ConvertTuples(page: HeapPage, cols: seq<PgColumn>, layouts: seq<ColLayout>, p: seq<nat>,
                       places: seq<Option<nat>>, builders: seq<ColumnBuilder>, snapshot: Option<PgSnapshot>,
                       ghost pick: nat -> Option<HeapTuple>, ghost convert: Converter)
    returns (e: Option<PgError>)
    requires PageLoop(pick, convert, page, snapshot, cols, WantedBy(p, |places|)) == true
    requires layouts == Layouts(Types(cols)) && |places| <= |cols| && InRange(p, |cols|)
    requires forall j :: 0 <= j < |p| ==> p[j] < |places|
    requires forall i :: 0 <= i < |places| ==> PlaceOf(places[i], p, i)
    requires BuildersFor(builders, cols, p) && forall j :: 0 <= j < |builders| ==> builders[j].entries == []
    modifies builders
    ensures match Convert(Collect(pick, |page.items|, 0), convert)
            case Err(error) => e == Some(error)
            case Ok(rows) => && e == None && Width(rows, |places|)
                             && Entries(builders) == OutputColumns(rows, cols, p)
  {
    ghost var rows: seq<Row> := [];
    assert Entries(builders) == OutputColumns([], cols, p);
    for k := 0 to |page.items|
      invariant RowProgress(pick, |page.items|, convert, k, rows, |places|, Entries(builders), cols, p)
    {
      e, rows := NextSlot(page, k, cols, layouts, p, places, builders, snapshot, pick, convert, rows);
      if e.Some? {
        return e;
      }
    }
    assert rows + [] == rows;
    return None;
  }
}
