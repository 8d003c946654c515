/** What converting a page means: refinement of row decoding, projection, rectangularity. */
module PageTheorems {
  import opened Base
  import opened Codec
  import opened HeapTuples
  import opened Deform
  import opened TupleWalk
  import opened RowDecode
  import opened HeapLayout
  import opened TupleImage
  import opened Builder
  import opened ArrowTypes
  import opened Snapshot
  import opened Mvcc
  import opened Page

  // ── The page path refines decode_row ────────────────────────────────────

  function DecodedRow(leaf: Leaf, cols: seq<PgColumn>, t: HeapTuple): Result<Row> {
    RowOf(RowPlan(leaf, Types(cols), AllWanted(|cols|), t).Run())
  }

  function ConvertedRow(cols: seq<PgColumn>, t: HeapTuple): Result<Row> {
    ConverterFor(cols, AllWanted(|cols|))(t)
  }

  /** The cells of every column of a tuple, whatever their payloads. */
  function WalkedTuple(cols: seq<PgColumn>, t: HeapTuple): Result<Row> {
    RowOf(PagePlan(cols, AllWanted(|cols|), t.nullBitmap, t.data).(accept := AcceptAll()).Run())
  }

  /** Both readers' outcomes from one unchecked walk: decode_row succeeds iff the walk does
      and every payload renders, the page walk iff the walk does and every payload can be
      appended; then both have the walk's cells. */
  lemma ReadersShareOneWalk(leaf: Leaf, cols: seq<PgColumn>, t: HeapTuple)
    ensures var walk := WalkedTuple(cols, t);
            && (if walk.Ok? && AllPass(LeafCheck(leaf, Types(cols)), walk.value, 0)
                then DecodedRow(leaf, cols, t) == walk else DecodedRow(leaf, cols, t).Err?)
            && (if walk.Ok? && AllPass(EntryCheck(cols), walk.value, 0)
                then ConvertedRow(cols, t) == walk else ConvertedRow(cols, t).Err?)
  {
    var rows := RowPlan(leaf, Types(cols), AllWanted(|cols|), t);
    var pages := PagePlan(cols, AllWanted(|cols|), t.nullBitmap, t.data);
    RunFactors(rows);
    RunFactors(pages);
    var free := rows.(accept := AcceptAll());
    PagesRefineRows(free);
    assert free.(reader := Rows) == free;
    assert free.(reader := Pages) == pages.(accept := AcceptAll());
  }

  ghost predicate AreWalked(cols: seq<PgColumn>, tuples: seq<HeapTuple>, rows: seq<Row>) {
    && |rows| == |tuples| && Width(rows, |cols|)
    && forall i :: 0 <= i < |rows| ==> WalkedTuple(cols, tuples[i]) == Ok(rows[i])
  }

  // ── What a conversion depends on ────────────────────────────────────────

  /** Every payload in a column of `p` can be appended: no NUMERIC overflows, and no date or
      timestamp lies beyond the last one that can be shifted to the Unix epoch. */
  ghost predicate AppendableAt(cols: seq<PgColumn>, rows: seq<Row>, p: seq<nat>)
    requires InRange(p, |cols|) && Width(rows, |cols|)
  {
    forall i, j :: 0 <= i < |rows| && 0 <= j < |p| ==> Passes(EntryCheck(cols), p[j], rows[i][p[j]])
  }

  /** Column `c` is built as the type it declares, and holds no NULL unless it may. */
  ghost predicate ColumnTaken(cols: seq<PgColumn>, rows: seq<Row>, c: nat)
    requires c < |cols| && forall i :: 0 <= i < |rows| ==> c < |rows[i]|
  {
    && FieldType(cols[c]) == ArrayType(cols[c])
    && (cols[c].nullable || forall i :: 0 <= i < |rows| ==> EntryOf(cols[c], rows[i][c]) != NullEntry)
  }

  /** There are columns, none twice unless there are no rows, and all of them are taken. */
  ghost predicate TakenAt(cols: seq<PgColumn>, rows: seq<Row>, p: seq<nat>)
    requires InRange(p, |cols|) && Width(rows, |cols|)
  {
    p != [] && (NoDuplicates(p) || rows == []) && forall j :: 0 <= j < |p| ==> ColumnTaken(cols, rows, p[j])
  }

  /** `b` is the rows' columns `p`, rendered. */
  ghost predicate AreColumnsOf(b: Batch, cols: seq<PgColumn>, rows: seq<Row>, p: seq<nat>)
    requires InRange(p, |cols|) && Width(rows, |cols|)
  {
    |b| == |p| && forall j :: 0 <= j < |p| ==> b[j] == ColumnOf(rows, cols[p[j]], p[j])
  }

  /** What converting these rows yields under any projection: nothing for no columns, a panic
      for a column that does not exist or a payload that cannot be appended, a refusal, or the
      columns. */
  ghost predicate Outcome(r: Result<Batch>, cols: seq<PgColumn>, rows: seq<Row>, projection: Option<seq<nat>>)
    requires Width(rows, |cols|)
  {
    var p := Selected(projection, |cols|);
    if projection == Some([]) then r == Ok([])
    else if !InRange(p, |cols|) || !AppendableAt(cols, rows, p) then r == Err(Panic)
    else if !TakenAt(cols, rows, p) then r == Err(ArrowConversionFailed)
    else r.Ok? && AreColumnsOf(r.value, cols, rows, p)
  }

  // ── One tuple under a projection ────────────────────────────────────────

  /** What a walk wanting `wanted` delivers of a full row. */
  function ProjectRow(full: Row, wanted: seq<bool>): (part: Row)
    requires |wanted| <= |full|
    ensures |part| == |wanted| && Restricts(part, full, wanted, 0)
  {
    seq(|wanted|, k requires 0 <= k < |wanted| => if wanted[k] || full[k].Null? then full[k] else Skipped)
  }

  predicate WantedPass(cols: seq<PgColumn>, full: Row, wanted: seq<bool>)
    requires |wanted| <= |full|
  {
    forall k :: 0 <= k < |wanted| && wanted[k] ==> Passes(EntryCheck(cols), k, full[k])
  }

  /** A tuple that can be walked is converted, under any projection, to its row's wanted
      cells, or panics on the payload of one. */
  lemma TupleConverts(cols: seq<PgColumn>, wanted: seq<bool>, t: HeapTuple, full: Row)
    requires |wanted| <= |cols| == |full| && WalkedTuple(cols, t) == Ok(full)
    ensures ConverterFor(cols, wanted)(t) ==
            if WantedPass(cols, full, wanted) then Ok(ProjectRow(full, wanted)) else Err(Panic)
  {
    var free := PagePlan(cols, AllWanted(|cols|), t.nullBitmap, t.data).(accept := AcceptAll());
    var plan := PagePlan(cols, wanted, t.nullBitmap, t.data);
    ProjectedRun(free, wanted);
    assert free.(wanted := wanted) == plan.(accept := AcceptAll());
    RunFactors(plan);
    ChecksPanic(cols);
    RunReports(plan, Panic);
    var part := plan.(accept := AcceptAll()).Run().value.cells;
    assert part == ProjectRow(full, wanted);
    PassIffWantedPass(cols, full, wanted);
  }

  lemma PassIffWantedPass(cols: seq<PgColumn>, full: Row, wanted: seq<bool>)
    requires |wanted| <= |full|
    ensures AllPass(EntryCheck(cols), ProjectRow(full, wanted), 0) <==> WantedPass(cols, full, wanted)
  {
    var part := ProjectRow(full, wanted);
    forall k | 0 <= k < |wanted|
      ensures Passes(EntryCheck(cols), 0 + k, part[k]) <==> wanted[k] ==> Passes(EntryCheck(cols), k, full[k])
    {
    }
  }

  /** The builder's only failure is a panic. */
  lemma ChecksPanic(cols: seq<PgColumn>)
    ensures forall i: nat, b :: EntryCheck(cols)(i, b).Some? ==> EntryCheck(cols)(i, b).value == Panic
  {
  }

  lemma {:induction false} RowsMatch(tuples: seq<HeapTuple>, convert: Converter, rows: seq<Row>, good: seq<bool>)
    requires |rows| == |good| == |tuples|
    requires forall i :: 0 <= i < |rows| ==> convert(tuples[i]) == if good[i] then Ok(rows[i]) else Err(Panic)
    ensures Convert(tuples, convert) == if false in good then Err(Panic) else Ok(rows)
  {
    if tuples != [] {
      assert good == [good[0]] + good[1..] && rows == [rows[0]] + rows[1..];
      assert forall i :: 0 < i < |rows| ==> tuples[i] == tuples[1..][i - 1];
      RowsMatch(tuples[1..], convert, rows[1..], good[1..]);
    }
  }

  function ProjectRows(rows: seq<Row>, wanted: seq<bool>): (part: seq<Row>)
    requires forall i :: 0 <= i < |rows| ==> |wanted| <= |rows[i]|
    ensures |part| == |rows| && Width(part, |wanted|) && AllRestrict(part, rows, wanted)
    ensures forall i :: 0 <= i < |rows| ==> part[i] == ProjectRow(rows[i], wanted)
  {
    seq(|rows|, i requires 0 <= i < |rows| => ProjectRow(rows[i], wanted))
  }

  function Passing(cols: seq<PgColumn>, rows: seq<Row>, wanted: seq<bool>): (good: seq<bool>)
    requires forall i :: 0 <= i < |rows| ==> |wanted| <= |rows[i]|
    ensures |good| == |rows|
    ensures forall i :: 0 <= i < |rows| ==> good[i] == WantedPass(cols, rows[i], wanted)
  {
    seq(|rows|, i requires 0 <= i < |rows| => WantedPass(cols, rows[i], wanted))
  }

  ghost predicate AllWantedPass(cols: seq<PgColumn>, rows: seq<Row>, wanted: seq<bool>)
    requires forall i :: 0 <= i < |rows| ==> |wanted| <= |rows[i]|
  {
    forall i :: 0 <= i < |rows| ==> WantedPass(cols, rows[i], wanted)
  }

  lemma PassingIff(cols: seq<PgColumn>, rows: seq<Row>, wanted: seq<bool>)
    requires forall i :: 0 <= i < |rows| ==> |wanted| <= |rows[i]|
    ensures AllWantedPass(cols, rows, wanted) <==> false !in Passing(cols, rows, wanted)
  {
    var good := Passing(cols, rows, wanted);
    assert forall i :: 0 <= i < |rows| ==> good[i] == WantedPass(cols, rows[i], wanted);
  }

  lemma RowsConvert(cols: seq<PgColumn>, wanted: seq<bool>, tuples: seq<HeapTuple>, rows: seq<Row>)
    requires |wanted| <= |cols| && AreWalked(cols, tuples, rows)
    ensures Convert(tuples, ConverterFor(cols, wanted)) ==
            if AllWantedPass(cols, rows, wanted) then Ok(ProjectRows(rows, wanted)) else Err(Panic)
  {
    var good := Passing(cols, rows, wanted);
    forall i | 0 <= i < |rows|
      ensures ConverterFor(cols, wanted)(tuples[i]) == if good[i] then Ok(ProjectRows(rows, wanted)[i]) else Err(Panic)
    {
      TupleConverts(cols, wanted, tuples[i], rows[i]);
    }
    PassingIff(cols, rows, wanted);
    RowsMatch(tuples, ConverterFor(cols, wanted), ProjectRows(rows, wanted), good);
  }

  // ── Columns ──────────────────────────────────────────────────────────────

  lemma {:induction false} ColumnAt(rows: seq<Row>, col: PgColumn, c: nat, i: nat)
    requires i < |rows| && forall k :: 0 <= k < |rows| ==> c < |rows[k]|
    ensures ColumnOf(rows, col, c)[i] == EntryOf(col, rows[i][c])
  {
    if i < |rows| - 1 {
      ColumnAt(rows[..|rows| - 1], col, c, i);
    }
  }

  lemma {:induction false} SameColumn(a: seq<Row>, b: seq<Row>, col: PgColumn, c: nat)
    requires |a| == |b|
    requires forall k :: 0 <= k < |a| ==> c < |a[k]| && c < |b[k]| && a[k][c] == b[k][c]
    ensures ColumnOf(a, col, c) == ColumnOf(b, col, c)
  {
    if a != [] {
      SameColumn(a[..|a| - 1], b[..|b| - 1], col, c);
    }
  }

  lemma ColumnTakenIff(cols: seq<PgColumn>, rows: seq<Row>, c: nat)
    requires Width(rows, |cols|) && c < |cols|
    ensures Takes(cols[c], ColumnOf(rows, cols[c], c)) <==> ColumnTaken(cols, rows, c)
  {
    var column := ColumnOf(rows, cols[c], c);
    forall i | 0 <= i < |rows| ensures column[i] == EntryOf(cols[c], rows[i][c]) {
      ColumnAt(rows, cols[c], c, i);
    }
  }

  /** Every column of `p` is wanted. */
  ghost predicate Wants(wanted: seq<bool>, p: seq<nat>) {
    forall j :: 0 <= j < |p| ==> p[j] < |wanted| && wanted[p[j]]
  }

  ghost predicate AllRestrict(part: seq<Row>, full: seq<Row>, wanted: seq<bool>) {
    |part| == |full| && forall i :: 0 <= i < |full| ==> Restricts(part[i], full[i], wanted, 0)
  }

  lemma ProjectedColumn(full: seq<Row>, part: seq<Row>, cols: seq<PgColumn>, wanted: seq<bool>, p: seq<nat>, j: nat)
    requires InRange(p, |cols|) && j < |p| && Wants(wanted, p) && AllRestrict(part, full, wanted)
    requires Width(full, |cols|) && Width(part, |wanted|)
    ensures OutputColumn(part, cols, p, j) == if LastAt(p, j) then ColumnOf(full, cols[p[j]], p[j]) else []
  {
    forall i | 0 <= i < |full| ensures part[i][p[j]] == full[i][p[j]] {
      assert wanted[0 + p[j]];
    }
    SameColumn(part, full, cols[p[j]], p[j]);
  }

  /** `out` holds the full rows' columns `p`, last occurrences only. */
  ghost predicate Projects(out: Batch, full: seq<Row>, cols: seq<PgColumn>, p: seq<nat>)
    requires InRange(p, |cols|) && Width(full, |cols|)
  {
    && |out| == |p|
    && forall j :: 0 <= j < |p| ==> out[j] == if LastAt(p, j) then ColumnOf(full, cols[p[j]], p[j]) else []
  }

  lemma ColumnsMakeBatch(full: seq<Row>, part: seq<Row>, cols: seq<PgColumn>, p: seq<nat>)
    requires InRange(p, |cols|) && Width(full, |cols|)
    requires forall i, j :: 0 <= i < |part| && 0 <= j < |p| ==> p[j] < |part[i]|
    requires forall j :: 0 <= j < |p| ==>
               OutputColumn(part, cols, p, j) == if LastAt(p, j) then ColumnOf(full, cols[p[j]], p[j]) else []
    ensures Projects(OutputColumns(part, cols, p), full, cols, p)
  {
  }

  lemma OutputColumnsProject(full: seq<Row>, part: seq<Row>, cols: seq<PgColumn>, wanted: seq<bool>, p: seq<nat>)
    requires InRange(p, |cols|) && Wants(wanted, p) && AllRestrict(part, full, wanted)
    requires Width(full, |cols|) && Width(part, |wanted|)
    ensures Projects(OutputColumns(part, cols, p), full, cols, p)
  {
    forall j | 0 <= j < |p|
      ensures OutputColumn(part, cols, p, j) == if LastAt(p, j) then ColumnOf(full, cols[p[j]], p[j]) else []
    {
      ProjectedColumn(full, part, cols, wanted, p, j);
    }
    ColumnsMakeBatch(full, part, cols, p);
  }

  /** What PageBatch makes of the converted rows. */
  lemma BatchFromRows(page: HeapPage, cols: seq<PgColumn>, projection: Option<seq<nat>>, p: seq<nat>,
                      wanted: seq<bool>, rows: seq<Row>, snapshot: Option<PgSnapshot>)
    requires projection != Some([]) && p == Selected(projection, |cols|) && InRange(p, |cols|)
    requires wanted == WantedBy(p, WalkUpTo(projection, |cols|))
    requires Convert(KeptTuples(page, snapshot), ConverterFor(cols, wanted)) == Ok(rows)
    requires Width(rows, |wanted|) && forall j :: 0 <= j < |p| ==> p[j] < |wanted|
    ensures PageBatch(page, cols, projection, snapshot) == TryNew(ColumnsAt(cols, p), OutputColumns(rows, cols, p))
  {
  }

  lemma BatchFails(page: HeapPage, cols: seq<PgColumn>, projection: Option<seq<nat>>, p: seq<nat>,
                   wanted: seq<bool>, e: PgError, snapshot: Option<PgSnapshot>)
    requires projection != Some([]) && p == Selected(projection, |cols|) && InRange(p, |cols|)
    requires wanted == WantedBy(p, WalkUpTo(projection, |cols|))
    requires Convert(KeptTuples(page, snapshot), ConverterFor(cols, wanted)) == Err(e)
    ensures PageBatch(page, cols, projection, snapshot) == Err(e)
  {
  }

  lemma OutIsColumns(out: Batch, cols: seq<PgColumn>, rows: seq<Row>, p: seq<nat>)
    requires InRange(p, |cols|) && Width(rows, |cols|) && Projects(out, rows, cols, p) && p != []
    ensures Rectangular(out) <==> NoDuplicates(p) || rows == []
    ensures Rectangular(out) ==> AreColumnsOf(out, cols, rows, p)
  {
    assert LastAt(p, |p| - 1);
    if rows == [] {
      forall j | 0 <= j < |p| ensures out[j] == ColumnOf(rows, cols[p[j]], p[j]) {
      }
    } else if !NoDuplicates(p) {
      var j, k :| 0 <= j < k < |p| && p[j] == p[k];
      assert !LastAt(p, j);
    }
  }

  /** RecordBatch's constructor on the columns a projection builds. */
  lemma TryNewIff(out: Batch, cols: seq<PgColumn>, rows: seq<Row>, p: seq<nat>)
    requires InRange(p, |cols|) && Width(rows, |cols|) && Projects(out, rows, cols, p)
    ensures TryNew(ColumnsAt(cols, p), out) == if TakenAt(cols, rows, p) then Ok(out) else Err(ArrowConversionFailed)
    ensures TakenAt(cols, rows, p) ==> AreColumnsOf(out, cols, rows, p)
  {
    if p != [] {
      OutIsColumns(out, cols, rows, p);
      if Rectangular(out) {
        forall j | 0 <= j < |p| ensures Takes(ColumnsAt(cols, p)[j], out[j]) <==> ColumnTaken(cols, rows, p[j]) {
          ColumnTakenIff(cols, rows, p[j]);
        }
      }
    }
  }

  // ── Converting a page ────────────────────────────────────────────────────

  /** The columns a conversion walks include those it selects. */
  lemma SelectedIsWanted(projection: Option<seq<nat>>, n: nat)
    requires projection != Some([]) && InRange(Selected(projection, n), n)
    ensures WalkUpTo(projection, n) <= n
    ensures Wants(WantedBy(Selected(projection, n), WalkUpTo(projection, n)), Selected(projection, n))
  {
    var p, m := Selected(projection, n), WalkUpTo(projection, n);
    forall j | 0 <= j < |p| ensures p[j] < m && WantedBy(p, m)[p[j]] {
      assert p[j] in p;
    }
  }

  lemma WantedPassIff(cols: seq<PgColumn>, rows: seq<Row>, p: seq<nat>, wanted: seq<bool>)
    requires InRange(p, |cols|) && Width(rows, |cols|) && |wanted| <= |cols|
    requires Wants(wanted, p) && wanted == WantedBy(p, |wanted|)
    ensures AllWantedPass(cols, rows, wanted) <==> AppendableAt(cols, rows, p)
  {
    forall i | 0 <= i < |rows|
      ensures WantedPass(cols, rows[i], wanted) <==>
              forall j :: 0 <= j < |p| ==> Passes(EntryCheck(cols), p[j], rows[i][p[j]])
    {
      if WantedPass(cols, rows[i], wanted) {
        forall j | 0 <= j < |p| ensures Passes(EntryCheck(cols), p[j], rows[i][p[j]]) {
          assert wanted[p[j]];
        }
      }
    }
  }

  /** For any projection, and any page whose kept tuples can be walked in full: converting
      the page panics exactly when a column does not exist or a payload in a selected column
      cannot be appended, and is otherwise refused exactly when a selected column is named
      twice while there are rows, is not built as declared, or has an undeclared NULL. Else
      its j-th column is the rows' column p[j]. Columns not selected do no harm. */
  lemma WalkedPageIsConverted(page: HeapPage, cols: seq<PgColumn>, projection: Option<seq<nat>>,
                              snapshot: Option<PgSnapshot>, rows: seq<Row>)
    requires AreWalked(cols, KeptTuples(page, snapshot), rows)
    ensures Outcome(PageBatch(page, cols, projection, snapshot), cols, rows, projection)
  {
    var p := Selected(projection, |cols|);
    if projection != Some([]) && InRange(p, |cols|) {
      var wanted := WantedBy(p, WalkUpTo(projection, |cols|));
      SelectedIsWanted(projection, |cols|);
      RowsConvert(cols, wanted, KeptTuples(page, snapshot), rows);
      WantedPassIff(cols, rows, p, wanted);
      if AppendableAt(cols, rows, p) {
        var part := ProjectRows(rows, wanted);
        BatchFromRows(page, cols, projection, p, wanted, part, snapshot);
        OutputColumnsProject(rows, part, cols, wanted, p);
        TryNewIff(OutputColumns(part, cols, p), cols, rows, p);
      } else {
        BatchFails(page, cols, projection, p, wanted, Panic, snapshot);
      }
    }
  }

  /** The kept tuples as decode_row reads them. */
  function DecodedRows(leaf: Leaf, cols: seq<PgColumn>, tuples: seq<HeapTuple>): (rows: seq<Row>)
    requires forall t :: t in tuples ==> DecodedRow(leaf, cols, t).Ok?
    ensures |rows| == |tuples| && forall i :: 0 <= i < |rows| ==> Ok(rows[i]) == DecodedRow(leaf, cols, tuples[i])
    ensures Width(rows, |cols|)
  {
    if tuples == [] then [] else [DecodedRow(leaf, cols, tuples[0]).value] + DecodedRows(leaf, cols, tuples[1..])
  }

  /** When decode_row succeeds on the kept tuples, this is the outcome for the rows it gives:
      the batch has exactly those tuples, in slot order, each cell with the NULL flag, offset
      and bytes decode_row gives it. */
  lemma PageRefinesDecodeRow(page: HeapPage, cols: seq<PgColumn>, projection: Option<seq<nat>>,
                             snapshot: Option<PgSnapshot>, leaf: Leaf)
    requires forall t :: t in KeptTuples(page, snapshot) ==> DecodedRow(leaf, cols, t).Ok?
    ensures Outcome(PageBatch(page, cols, projection, snapshot), cols,
                    DecodedRows(leaf, cols, KeptTuples(page, snapshot)), projection)
  {
    var tuples := KeptTuples(page, snapshot);
    var rows := DecodedRows(leaf, cols, tuples);
    forall i | 0 <= i < |rows| ensures WalkedTuple(cols, tuples[i]) == Ok(rows[i]) {
      assert tuples[i] in tuples;
      ReadersShareOneWalk(leaf, cols, tuples[i]);
    }
    WalkedPageIsConverted(page, cols, projection, snapshot, rows);
  }

  // ── Projection ───────────────────────────────────────────────────────────

  lemma ConvertedIsWalked(cols: seq<PgColumn>, t: HeapTuple)
    requires ConvertedRow(cols, t).Ok?
    ensures WalkedTuple(cols, t) == ConvertedRow(cols, t)
    ensures AllPass(EntryCheck(cols), ConvertedRow(cols, t).value, 0)
  {
    RunFactors(PagePlan(cols, AllWanted(|cols|), t.nullBitmap, t.data));
  }

  lemma {:induction false} RowsAreConverted(tuples: seq<HeapTuple>, convert: Converter, rows: seq<Row>)
    requires Convert(tuples, convert) == Ok(rows)
    ensures |rows| == |tuples| && forall i :: 0 <= i < |tuples| ==> convert(tuples[i]) == Ok(rows[i])
  {
    if tuples != [] {
      RowsAreConverted(tuples[1..], convert, rows[1..]);
      assert forall i :: 0 < i < |tuples| ==> tuples[i] == tuples[1..][i - 1];
    }
  }

  lemma ConvertedAreWalked(cols: seq<PgColumn>, tuples: seq<HeapTuple>, rows: seq<Row>)
    requires Convert(tuples, ConverterFor(cols, AllWanted(|cols|))) == Ok(rows)
    ensures AreWalked(cols, tuples, rows)
    ensures forall i :: 0 <= i < |rows| ==> AllPass(EntryCheck(cols), rows[i], 0)
  {
    RowsAreConverted(tuples, ConverterFor(cols, AllWanted(|cols|)), rows);
    forall i | 0 <= i < |rows|
      ensures WalkedTuple(cols, tuples[i]) == Ok(rows[i]) && AllPass(EntryCheck(cols), rows[i], 0)
    {
      assert ConvertedRow(cols, tuples[i]) == Ok(rows[i]);
      ConvertedIsWalked(cols, tuples[i]);
    }
  }

  /** Projecting and then converting is converting and then projecting: for every non-empty,
      in-range projection of a page whose kept tuples become rows, the projected conversion
      succeeds exactly when it has no duplicates or there are no rows, and every column it
      selects is taken, whatever the others are. Its j-th column is then the rows' column p[j]. */
  lemma ProjectionCommutesWithPage(page: HeapPage, cols: seq<PgColumn>, p: seq<nat>, snapshot: Option<PgSnapshot>)
    requires InRange(p, |cols|) && p != []
    requires Convert(KeptTuples(page, snapshot), ConverterFor(cols, AllWanted(|cols|))).Ok?
    ensures var rows := Convert(KeptTuples(page, snapshot), ConverterFor(cols, AllWanted(|cols|))).value;
            var r := PageBatch(page, cols, Some(p), snapshot);
            && Width(rows, |cols|)
            && (r.Ok? <==> (NoDuplicates(p) || rows == []) && forall j :: 0 <= j < |p| ==> ColumnTaken(cols, rows, p[j]))
            && (r.Ok? ==> AreColumnsOf(r.value, cols, rows, p))
            && (r.Err? ==> r.error == ArrowConversionFailed)
  {
    var tuples := KeptTuples(page, snapshot);
    var rows := Convert(tuples, ConverterFor(cols, AllWanted(|cols|))).value;
    ConvertedAreWalked(cols, tuples, rows);
    WalkedPageIsConverted(page, cols, Some(p), snapshot, rows);
    forall i, j | 0 <= i < |rows| && 0 <= j < |p| ensures Passes(EntryCheck(cols), p[j], rows[i][p[j]]) {
      assert Passes(EntryCheck(cols), 0 + p[j], rows[i][p[j]]);
    }
  }

  /** In particular, where the full conversion succeeds. */
  lemma ProjectionOfBatch(page: HeapPage, cols: seq<PgColumn>, p: seq<nat>, snapshot: Option<PgSnapshot>)
    requires InRange(p, |cols|) && p != [] && PageBatch(page, cols, None, snapshot).Ok?
    ensures var full := PageBatch(page, cols, None, snapshot).value;
            var r := PageBatch(page, cols, Some(p), snapshot);
            && |full| == |cols|
            && (r.Ok? <==> NoDuplicates(p) || full[0] == [])
            && (r.Ok? ==> |r.value| == |p| && forall j :: 0 <= j < |p| ==> r.value[j] == full[p[j]])
            && (r.Err? ==> r.error == ArrowConversionFailed)
  {
    FullConversion(page, cols, snapshot);
    ProjectionCommutesWithPage(page, cols, p, snapshot);
  }

  lemma FullConversion(page: HeapPage, cols: seq<PgColumn>, snapshot: Option<PgSnapshot>)
    requires PageBatch(page, cols, None, snapshot).Ok?
    ensures var rows := Convert(KeptTuples(page, snapshot), ConverterFor(cols, AllWanted(|cols|)));
            && rows.Ok? && Width(rows.value, |cols|)
            && var full := PageBatch(page, cols, None, snapshot).value;
            && |full| == |cols| && (forall c :: 0 <= c < |cols| ==> full[c] == ColumnOf(rows.value, cols[c], c))
            && (forall c :: 0 <= c < |cols| ==> ColumnTaken(cols, rows.value, c))
  {
    var tuples := KeptTuples(page, snapshot);
    var p := Identity(|cols|);
    forall i | 0 <= i < |cols| ensures WantedBy(p, |cols|)[i] {
      assert p[i] == i;
    }
    assert WantedBy(p, |cols|) == AllWanted(|cols|);
    var rows := Convert(tuples, ConverterFor(cols, AllWanted(|cols|))).value;
    ConvertedAreWalked(cols, tuples, rows);
    WalkedPageIsConverted(page, cols, None, snapshot, rows);
    forall c | 0 <= c < |cols|
      ensures PageBatch(page, cols, None, snapshot).value[c] == ColumnOf(rows, cols[c], c) && ColumnTaken(cols, rows, c)
    {
      assert p[c] == c;
    }
  }

  lemma {:induction false} SameConversion(tuples: seq<HeapTuple>, f: Converter, g: Converter)
    requires forall t :: f(t) == g(t)
    ensures Convert(tuples, f) == Convert(tuples, g)
  {
    if tuples != [] {
      SameConversion(tuples[1..], f, g);
    }
  }

  lemma SameConverter(cols: seq<PgColumn>, more: seq<PgColumn>, wanted: seq<bool>, t: HeapTuple)
    requires |wanted| <= |cols|
    ensures ConverterFor(cols + more, wanted)(t) == ConverterFor(cols, wanted)(t)
  {
    SameRun(PagePlan(cols + more, wanted, t.nullBitmap, t.data), PagePlan(cols, wanted, t.nullBitmap, t.data));
  }

  lemma SameRows(tuples: seq<HeapTuple>, cols: seq<PgColumn>, more: seq<PgColumn>, wanted: seq<bool>)
    requires |wanted| <= |cols|
    ensures Convert(tuples, ConverterFor(cols + more, wanted)) == Convert(tuples, ConverterFor(cols, wanted))
  {
    forall t ensures ConverterFor(cols + more, wanted)(t) == ConverterFor(cols, wanted)(t) {
      SameConverter(cols, more, wanted, t);
    }
    SameConversion(tuples, ConverterFor(cols + more, wanted), ConverterFor(cols, wanted));
  }

  lemma SameOutput(rows: seq<Row>, cols: seq<PgColumn>, more: seq<PgColumn>, p: seq<nat>)
    requires InRange(p, |cols|) && forall i, j :: 0 <= i < |rows| && 0 <= j < |p| ==> p[j] < |rows[i]|
    ensures OutputColumns(rows, cols + more, p) == OutputColumns(rows, cols, p)
    ensures ColumnsAt(cols + more, p) == ColumnsAt(cols, p)
  {
  }

  /** Columns after the last one selected are not even walked: with or without them, a page
      has the same outcome, whatever its tuples hold there. */
  lemma LaterColumnsAreNotWalked(page: HeapPage, cols: seq<PgColumn>, more: seq<PgColumn>, p: seq<nat>,
                                 snapshot: Option<PgSnapshot>)
    requires InRange(p, |cols|)
    ensures PageBatch(page, cols + more, Some(p), snapshot) == PageBatch(page, cols, Some(p), snapshot)
  {
    if p != [] {
      SelectedIsWanted(Some(p), |cols|);
      var wanted := WantedBy(p, MaxOf(p) + 1);
      SameRows(KeptTuples(page, snapshot), cols, more, wanted);
      match Convert(KeptTuples(page, snapshot), ConverterFor(cols, wanted)) {
        case Err(e) =>
          BatchFails(page, cols, Some(p), p, wanted, e, snapshot);
          BatchFails(page, cols + more, Some(p), p, wanted, e, snapshot);
        case Ok(rows) =>
          ConvertedWidths(KeptTuples(page, snapshot), cols, wanted);
          BatchFromRows(page, cols, Some(p), p, wanted, rows, snapshot);
          BatchFromRows(page, cols + more, Some(p), p, wanted, rows, snapshot);
          SameOutput(rows, cols, more, p);
      }
    }
  }

  // ── Rectangularity ───────────────────────────────────────────────────────

  /** Every column of a converted page has exactly one entry per kept tuple. */
  lemma BatchIsRectangular(page: HeapPage, cols: seq<PgColumn>, projection: Option<seq<nat>>,
                           snapshot: Option<PgSnapshot>)
    requires PageBatch(page, cols, projection, snapshot).Ok?
    ensures forall c :: 0 <= c < |PageBatch(page, cols, projection, snapshot).value| ==>
              |PageBatch(page, cols, projection, snapshot).value[c]| == |KeptTuples(page, snapshot)|
  {
    if projection != Some([]) {
      var p := Selected(projection, |cols|);
      var wanted := WantedBy(p, WalkUpTo(projection, |cols|));
      SelectedIsWanted(projection, |cols|);
      ConvertedWidths(KeptTuples(page, snapshot), cols, wanted);
      var rows := Convert(KeptTuples(page, snapshot), ConverterFor(cols, wanted)).value;
      BatchFromRows(page, cols, projection, p, wanted, rows, snapshot);
      LastColumnIsFull(cols, rows, p);
    }
  }

  lemma LastColumnIsFull(cols: seq<PgColumn>, rows: seq<Row>, p: seq<nat>)
    requires InRange(p, |cols|) && p != []
    requires forall i, j :: 0 <= i < |rows| && 0 <= j < |p| ==> p[j] < |rows[i]|
    ensures |OutputColumns(rows, cols, p)[|p| - 1]| == |rows|
  {
    assert LastAt(p, |p| - 1);
  }

  // ── Whole stored tuples ──────────────────────────────────────────────────

  /** A tuple stored with any ids and flags, any row of values and NULLs in any storage
      form, is parsed and walked back to exactly that row by both readers. */
  lemma StoredTupleIsRecovered(m: TupleMeta, types: seq<PgTypeId>, row: seq<Value>, reader: Reader)
    requires m.Valid() && RowFits(Layouts(types), row) && |row| <= MAX_HEAP_ATTRIBUTES
    ensures var parsed := ParseAndBuild(EncodeTuple(m, Layouts(types), row));
            && parsed.Ok? && parsed.value.header == HeaderFor(m, row)
            && var run := Plan(reader, AcceptAll(), Layouts(types), AllWanted(|types|),
                               parsed.value.nullBitmap, parsed.value.data).Run();
            run.Ok? && Recovers(run.value.cells, Seen(row), 0) && run.value.end == |parsed.value.data|
  {
    ParseInvertsTuple(m, Layouts(types), row);
    var data := EncodeRow(Layouts(types), row);
    assert data == data + [];
    DeformInvertsLayout(Plan(reader, AcceptAll(), Layouts(types), AllWanted(|types|), BitmapOf(row), data), row, []);
  }
}
