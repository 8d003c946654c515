/** Row decoding over a parsed tuple: heap/tuple.rs get_column and skip_column,
    table/mod.rs decode_row and decode_row_projected, types/pg_type.rs next_datum. */
module RowDecode {
  import opened Base
  import opened Codec
  import opened HeapTuples
  import opened Deform
  import opened TupleWalk

  type Row = seq<Cell>

  function LeafCheck(leaf: Leaf, types: seq<PgTypeId>): Accept {
    (i: nat, b: seq<byte>) =>
      if i >= |types| then Some(Panic) else if leaf(types[i], b) then None else Some(Refusal(types[i]))
  }

  /** The walk a row reader performs on `tup`. */
  function RowPlan(leaf: Leaf, types: seq<PgTypeId>, wanted: seq<bool>, tup: HeapTuple): Plan {
    Plan(Rows, LeafCheck(leaf, types), Layouts(types), wanted, tup.nullBitmap, tup.data)
  }

  function Layouts(types: seq<PgTypeId>): (l: seq<ColLayout>)
    ensures |l| == |types|
    ensures forall i :: 0 <= i < |l| ==> l[i] == LayoutOf(types[i])
  {
    seq(|types|, i requires 0 <= i < |types| => LayoutOf(types[i]))
  }

  function GetColumn(leaf: Leaf, types: seq<PgTypeId>, tup: HeapTuple, col: nat, off: nat): Result<(Cell, nat)> {
    if col >= |types| then Err(Panic)
    else if IsNull(tup.nullBitmap, col) then Err(NullColumnValue)
    else
      var p :- DecodeDatum(leaf, types[col], tup.data, off);
      DecodeAgrees(leaf, types[col], tup.data, off);
      SizesAgree(LayoutOf(types[col]), tup.data, off);
      Ok((At(p.start, tup.data[p.start..p.start + p.len]), p.consumed))
  }

  function SkipColumn(types: seq<PgTypeId>, tup: HeapTuple, col: nat, off: nat): Result<nat> {
    if col >= |types| then Err(ColumnNotFound)
    else if IsNull(tup.nullBitmap, col) then Err(NullColumnValue)
    else SkipDatum(LayoutOf(types[col]).len, tup.data, off)
  }

  /** A NULL, and a column that does not exist, are errors of their own kind. */
  lemma ColumnsNotRead(leaf: Leaf, types: seq<PgTypeId>, tup: HeapTuple, col: nat, off: nat)
    ensures col >= |types| ==> GetColumn(leaf, types, tup, col, off) == Err(Panic)
                               && SkipColumn(types, tup, col, off) == Err(ColumnNotFound)
    ensures col < |types| && IsNull(tup.nullBitmap, col) ==>
              GetColumn(leaf, types, tup, col, off) == Err(NullColumnValue)
              && SkipColumn(types, tup, col, off) == Err(NullColumnValue)
  {
  }

  /** Reading or skipping column `col` is one step of the walk. */
  lemma ColumnIsVisit(leaf: Leaf, types: seq<PgTypeId>, wanted: seq<bool>, tup: HeapTuple, col: nat, off: nat)
    requires col < |wanted| <= |types| && !IsNull(tup.nullBitmap, col)
    ensures var at := AlignInRows(LayoutOf(types[col]), tup.data, off);
            var visit := RowPlan(leaf, types, wanted, tup).Visit(col, off);
            if wanted[col] then
              match GetColumn(leaf, types, tup, col, at)
              case Ok((cell, size)) => visit == Ok((cell, at + size))
              case Err(e) => visit == Err(e)
            else
              match SkipColumn(types, tup, col, at)
              case Ok(size) => visit == Ok((Skipped, at + size))
              case Err(e) => visit == Err(e)
  {
    var at := AlignInRows(LayoutOf(types[col]), tup.data, off);
    DecodeAgrees(leaf, types[col], tup.data, at);
    SizesAgree(LayoutOf(types[col]), tup.data, at);
  }

  /** The row behind a finished walk. */
  function RowOf(r: Result<Walked>): Result<Row> {
    match r
    case Ok(w) => Ok(w.cells)
    case Err(e) => Err(e)
  }

  /** Reads column `col`, advancing the caller's offset; NULL leaves it unchanged.
      Column readers in from_row thread one offset through calls for columns 0, 1, 2, ... */
  method NextDatum(leaf: Leaf, types: seq<PgTypeId>, tup: HeapTuple, offset: nat, col: nat)
    returns (r: Result<Option<Cell>>, offset': nat)
    ensures col < |types| && !IsNull(tup.nullBitmap, col) ==>
              match RowPlan(leaf, types, AllWanted(|types|), tup).Visit(col, offset)
              case Ok((cell, next)) => r == Ok(Some(cell)) && offset' == next
              case Err(e) => r == Err(e)
    ensures IsNull(tup.nullBitmap, col) ==> r == Ok(None) && offset' == offset
    ensures col >= |types| && !IsNull(tup.nullBitmap, col) ==> r == Err(Panic)
  {
    offset' := offset;
    if IsNull(tup.nullBitmap, col) {
      return Ok(None), offset';
    }
    if col >= |types| {
      return Err(Panic), offset';
    }
    ColumnIsVisit(leaf, types, AllWanted(|types|), tup, col, offset);
    var l := LayoutOf(types[col]);
    if l.align > 1 {
      if l.len.Varlena? {
        if offset' >= |tup.data| || tup.data[offset'] == 0 {
          offset' := AlignUp(offset', l.align);
        }
      } else {
        offset' := AlignUp(offset', l.align);
      }
    }
    var got := GetColumn(leaf, types, tup, col, offset');
    match got {
      case Ok((cell, size)) =>
        offset' := offset' + size;
        return Ok(Some(cell)), offset';
      case Err(e) =>
        if e == NullColumnValue {
          return Ok(None), offset';
        }
        return Err(e), offset';
    }
  }

  /** The from_row pattern: one offset threaded through next_datum for columns 0, 1, 2, ... */
  method FromRow(leaf: Leaf, types: seq<PgTypeId>, tup: HeapTuple) returns (r: Result<Row>)
    ensures r == RowOf(RowPlan(leaf, types, AllWanted(|types|), tup).Run())
  {
    var columns: Row := [];
    var offset := 0;
    ghost var walk := RowPlan(leaf, types, AllWanted(|types|), tup).ToWalk();
    ghost var whole := walk.From(0, 0);
    for col := 0 to |types|
      invariant whole == Prepend(columns, walk.From(col, offset))
    {
      Unroll(walk, columns, col, offset);
      var datum;
      datum, offset := NextDatum(leaf, types, tup, offset, col);
      if datum.Err? {
        return Err(datum.error);
      }
      columns := columns + [if datum.value.Some? then datum.value.value else Null];
    }
    assert columns + [] == columns;
    return Ok(columns);
  }

  /** Aligns, then decodes a projected column or skips the bytes of another. */
  method VisitColumn(leaf: Leaf, types: seq<PgTypeId>, tup: HeapTuple, offset: nat, col: nat,
                     projected: bool, ghost wanted: seq<bool>)
    returns (e: Option<PgError>, cell: Cell, offset': nat)
    requires col < |wanted| <= |types| && wanted[col] == projected
    requires !IsNull(tup.nullBitmap, col)
    ensures match RowPlan(leaf, types, wanted, tup).Visit(col, offset)
            case Ok((c, next)) => e == None && cell == c && offset' == next
            case Err(error) => e == Some(error)
  {
    ColumnIsVisit(leaf, types, wanted, tup, col, offset);
    var at := AlignInRows(LayoutOf(types[col]), tup.data, offset);
    if projected {
      var got := GetColumn(leaf, types, tup, col, at);
      match got {
        case Ok((c, size)) => return None, c, at + size;
        case Err(error) => return Some(error), Null, at;
      }
    } else {
      var skipped := SkipColumn(types, tup, col, at);
      match skipped {
        case Ok(size) => return None, Skipped, at + size;
        case Err(error) => return Some(error), Null, at;
      }
    }
  }

  method DecodeRow(leaf: Leaf, types: seq<PgTypeId>, tup: HeapTuple) returns (r: Result<Row>)
    ensures r == RowOf(RowPlan(leaf, types, AllWanted(|types|), tup).Run())
  {
    var columns: Row := [];
    var offset := 0;
    ghost var walk := RowPlan(leaf, types, AllWanted(|types|), tup).ToWalk();
    ghost var whole := walk.From(0, 0);
    for col := 0 to |types|
      invariant whole == Prepend(columns, walk.From(col, offset))
    {
      Unroll(walk, columns, col, offset);
      if IsNull(tup.nullBitmap, col) {
        columns := columns + [Null];
        continue;
      }
      var e, cell;
      e, cell, offset := VisitColumn(leaf, types, tup, offset, col, true, AllWanted(|types|));
      if e.Some? {
        return Err(e.value);
      }
      columns := columns + [cell];
    }
    assert columns + [] == columns;
    return Ok(columns);
  }

  // ── Projection ───────────────────────────────────────────────────────────

  /** `j` is the last place where its column occurs in the projection. */
  predicate LastAt(projection: seq<nat>, j: nat)
    requires j < |projection|
  {
    forall k :: j < k < |projection| ==> projection[k] != projection[j]
  }

  ghost predicate NoDuplicates(projection: seq<nat>) {
    forall j, k :: 0 <= j < k < |projection| ==> projection[j] != projection[k]
  }

  function MaxOf(s: seq<nat>): (m: nat)
    requires s != []
    ensures m in s
    ensures forall j :: 0 <= j < |s| ==> s[j] <= m
  {
    if |s| == 1 then s[0]
    else
      var m := MaxOf(s[1..]);
      assert forall j :: 0 < j < |s| ==> s[j] == s[1..][j - 1];
      if s[0] > m then s[0] else m
  }

  /** Which columns `0..=max` a projection asks for. */
  function WantedBy(projection: seq<nat>, n: nat): (w: seq<bool>)
    ensures |w| == n
    ensures forall i :: 0 <= i < n ==> (w[i] <==> i in projection)
  {
    seq(n, i requires 0 <= i < n => i in projection)
  }

  /** `pos` sends each column to its last place in `projection[..upto]`. */
  ghost predicate OutputPositions(pos: seq<Option<nat>>, projection: seq<nat>, upto: nat)
    requires upto <= |projection|
  {
    forall i :: 0 <= i < |pos| ==> PlaceOf(pos[i], projection[..upto], i)
  }

  method BuildOutputPositions(projection: seq<nat>, n: nat) returns (pos: seq<Option<nat>>)
    requires forall j :: 0 <= j < |projection| ==> projection[j] < n
    ensures |pos| == n
    ensures forall i :: 0 <= i < n ==> PlaceOf(pos[i], projection, i)
  {
    pos := seq(n, _ => None);
    for j := 0 to |projection|
      invariant |pos| == n && OutputPositions(pos, projection, j)
    {
      ExtendPositions(pos, projection, j);
      pos := pos[projection[j] := Some(j)];
    }
    assert projection[..|projection|] == projection;
  }

  /** `place` is the last occurrence of column `col`, if it occurs at all. */
  ghost predicate PlaceOf(place: Option<nat>, projection: seq<nat>, col: nat) {
    match place
    case None => col !in projection
    case Some(j) => j < |projection| && projection[j] == col && LastAt(projection, j)
  }

  lemma ExtendPositions(pos: seq<Option<nat>>, projection: seq<nat>, j: nat)
    requires j < |projection| && projection[j] < |pos|
    requires OutputPositions(pos, projection, j)
    ensures OutputPositions(pos[projection[j] := Some(j)], projection, j + 1)
  {
    assert projection[..j + 1] == projection[..j] + [projection[j]];
  }

  /** `columns` after the walk: NULL everywhere, then one write per delivered column. */
  ghost function Gather(projection: seq<nat>, cells: seq<Cell>): (out: Row)
    requires forall j :: 0 <= j < |projection| ==> projection[j] < |cells|
    ensures |out| == |projection|
  {
    seq(|projection|, j requires 0 <= j < |projection| =>
      if LastAt(projection, j) then cells[projection[j]] else Null)
  }

  predicate InRange(projection: seq<nat>, n: nat) {
    forall j :: 0 <= j < |projection| ==> projection[j] < n
  }

  /** The specification of decode_row_projected, for any projection whatever. */
  ghost function ProjectedRow(leaf: Leaf, types: seq<PgTypeId>, tup: HeapTuple, projection: seq<nat>): Result<Row> {
    if projection == [] then Ok([])
    else if !InRange(projection, |types|) then Err(ColumnNotFound)
    else
      match RowPlan(leaf, types, WantedBy(projection, MaxOf(projection) + 1), tup).Run()
      case Err(e) => Err(e)
      case Ok(w) => Ok(Gather(projection, w.cells))
  }

  /** No columns are decoded from anything; a column that does not exist is refused before
      anything is decoded. */
  lemma ProjectionIsChecked(leaf: Leaf, types: seq<PgTypeId>, tup: HeapTuple, projection: seq<nat>)
    ensures projection == [] ==> ProjectedRow(leaf, types, tup, projection) == Ok([])
    ensures (exists c :: c in projection && c >= |types|) ==>
              ProjectedRow(leaf, types, tup, projection) == Err(ColumnNotFound)
  {
  }

  /** Cells `done` have been visited; `out` holds the delivered ones. */
  ghost predicate Placed(out: seq<Cell>, projection: seq<nat>, done: seq<Cell>) {
    && |out| == |projection|
    && forall j :: 0 <= j < |out| ==>
         out[j] == if projection[j] < |done| && LastAt(projection, j) then done[projection[j]] else Null
  }

  /** Writing the next delivered cell to its place; a NULL needs no write. */
  lemma PlaceNext(out: seq<Cell>, projection: seq<nat>, done: seq<Cell>, pos: Option<nat>, cell: Cell)
    requires Placed(out, projection, done)
    requires PlaceOf(pos, projection, |done|)
    ensures Placed(if pos.Some? then out[pos.value := cell] else out, projection, done + [cell])
    ensures cell == Null ==> Placed(out, projection, done + [cell])
  {
  }

  method DecodeRowProjected(leaf: Leaf, types: seq<PgTypeId>, tup: HeapTuple, projection: seq<nat>)
    returns (r: Result<Row>)
    ensures r == ProjectedRow(leaf, types, tup, projection)
  {
    if projection == [] {
      return Ok([]);
    }
    for k := 0 to |projection|
      invariant forall j :: 0 <= j < k ==> projection[j] < |types|
    {
      if projection[k] >= |types| {
        return Err(ColumnNotFound);
      }
    }
    var maxCol := MaxOf(projection);
    var outputPos := BuildOutputPositions(projection, maxCol + 1);
    var columns := seq(|projection|, _ => Null);
    var offset := 0;
    ghost var wanted := WantedBy(projection, maxCol + 1);
    ghost var walk := RowPlan(leaf, types, wanted, tup).ToWalk();
    ghost var whole := walk.From(0, 0);
    ghost var done: seq<Cell> := [];
    for col := 0 to maxCol + 1
      invariant |done| == col && whole == Prepend(done, walk.From(col, offset))
      invariant Placed(columns, projection, done)
    {
      Unroll(walk, done, col, offset);
      ghost var before := columns;
      var place := outputPos[col];
      var cell := Null;
      if !IsNull(tup.nullBitmap, col) {
        var e;
        e, cell, offset := VisitColumn(leaf, types, tup, offset, col, place.Some?, wanted);
        if e.Some? {
          return Err(e.value);
        }
        if place.Some? {
          columns := columns[place.value := cell];
        }
      }
      PlaceNext(before, projection, done, place, cell);
      done := done + [cell];
    }
    assert done + [] == done;
    assert columns == Gather(projection, done);
    return Ok(columns);
  }

  lemma GatherRestricted(projection: seq<nat>, cells: seq<Cell>, full: seq<Cell>, j: nat)
    requires projection != [] && j < |projection|
    requires Restricts(cells, full, WantedBy(projection, MaxOf(projection) + 1), 0)
    requires NoneSkipped(full)
    ensures var out := Gather(projection, cells);
            && (out[j] == full[projection[j]] <==> LastAt(projection, j) || full[projection[j]].Null?)
            && (LastAt(projection, j) || out[j] == Null)
  {
    var w := WantedBy(projection, MaxOf(projection) + 1);
    assert w[0 + projection[j]];
  }

  /** Whenever the full row decodes, the projected one does, in any projection order.
      Its j-th column is the row's column p[j] exactly when j is the last occurrence of
      p[j] or that column is NULL: an earlier duplicate silently reads as NULL. */
  lemma ProjectedRowIsProjection(leaf: Leaf, types: seq<PgTypeId>, tup: HeapTuple, projection: seq<nat>, j: nat)
    requires InRange(projection, |types|) && j < |projection|
    requires RowPlan(leaf, types, AllWanted(|types|), tup).Run().Ok?
    ensures var row := RowPlan(leaf, types, AllWanted(|types|), tup).Run().value.cells;
            var r := ProjectedRow(leaf, types, tup, projection);
            && r.Ok? && |r.value| == |projection|
            && (r.value[j] == row[projection[j]] <==> LastAt(projection, j) || row[projection[j]].Null?)
            && (NoDuplicates(projection) ==> r.value[j] == row[projection[j]])
  {
    var full := RowPlan(leaf, types, AllWanted(|types|), tup);
    var wanted := WantedBy(projection, MaxOf(projection) + 1);
    ProjectedRun(full, wanted);
    FullRunSkipsNothing(full);
    var part := RowPlan(leaf, types, wanted, tup);
    assert full.(wanted := wanted) == part;
    GatherRestricted(projection, part.Run().value.cells, full.Run().value.cells, j);
  }

  /** Columns after the last one named are not even walked: with or without them, the
      projected row is the same, and so is any error. */
  lemma LaterColumnsAreNotRead(leaf: Leaf, types: seq<PgTypeId>, more: seq<PgTypeId>, tup: HeapTuple, projection: seq<nat>)
    requires InRange(projection, |types|)
    ensures ProjectedRow(leaf, types + more, tup, projection) == ProjectedRow(leaf, types, tup, projection)
  {
    if projection != [] {
      var wanted := WantedBy(projection, MaxOf(projection) + 1);
      SameRun(RowPlan(leaf, types + more, wanted, tup), RowPlan(leaf, types, wanted, tup));
    }
  }
}
