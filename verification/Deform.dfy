/** The left-to-right walk over a tuple's data area, shared by every reader. */
module Deform {
  import opened Base
  import opened Codec
  import opened HeapTuples

  /** What a walk learns about one column: NULL, passed over, or the payload's
      place and bytes within the data area. */
  datatype Cell = Null | Skipped | At(start: nat, bytes: seq<byte>)

  // ── Alignment: two phrasings of att_align_pointer ────────────────────────

  /** decode_row, decode_row_projected and next_datum: test for varlena. */
  function AlignInRows(l: Layout, data: seq<byte>, off: nat): nat
    requires l.align in {1, 2, 4, 8}
  {
    if l.align <= 1 then off
    else if l.len.Varlena? then
      if off >= |data| || data[off] == 0 then AlignUp(off, l.align) else off
    else AlignUp(off, l.align)
  }

  /** `fixed_sizes[col]`, where 0 stands for "not fixed". */
  function FixedSize(l: Layout): nat { if l.len.Fixed? then l.len.n else 0 }

  /** to_record_batch: test for a positive fixed size. */
  function AlignInPages(l: Layout, data: seq<byte>, off: nat): nat
    requires l.align in {1, 2, 4, 8}
  {
    if l.align <= 1 then off
    else if FixedSize(l) > 0 then AlignUp(off, l.align)
    else if off >= |data| || data[off] == 0 then AlignUp(off, l.align)
    else off
  }

  /** The two phrasings agree on every layout a type can have ... */
  lemma AlignmentRulesAgree(l: ColLayout, data: seq<byte>, off: nat)
    ensures AlignInRows(l, data, off) == AlignInPages(l, data, off)
  {
  }

  /** ... and would part on a C string not preceded by padding, which no type is. */
  lemma AlignmentRulesDifferOnCStrings(align: nat, data: seq<byte>, off: nat)
    requires align in {2, 4, 8}
    ensures var l := Layout(CString, align);
            AlignInRows(l, data, off) != AlignInPages(l, data, off) <==>
            off < |data| && data[off] != 0 && off % align != 0
  {
    AlignUpIsMultiple(off, align);
  }

  // ── A walk is a fold of a step function ─────────────────────────────────

  /** Visiting column `i`, not NULL, when the previous column ended at `off`: its cell
      and the offset where it ends. */
  type StepFn = (nat, nat) -> Result<(Cell, nat)>

  datatype Walked = Walked(cells: seq<Cell>, end: nat)

  /** `count` columns, some NULL by the bitmap, the others visited by `step`. */
  datatype Walk = Walk(count: nat, nulls: seq<byte>, step: StepFn) {
    /** Columns `i..count`, the previous column having ended at `off`. */
    function From(i: nat, off: nat): (r: Result<Walked>)
      requires i <= count
      ensures r.Ok? ==> |r.value.cells| == count - i
      decreases count - i
    {
      if i == count then Ok(Walked([], off))
      else if IsNull(nulls, i) then
        var rest :- From(i + 1, off);
        Ok(Walked([Null] + rest.cells, rest.end))
      else
        var (cell, next) :- step(i, off);
        var rest :- From(i + 1, next);
        Ok(Walked([cell] + rest.cells, rest.end))
    }
  }

  /** Prefixing already delivered cells, for loops that accumulate a row. */
  function Prepend(done: seq<Cell>, r: Result<Walked>): (p: Result<Walked>)
    ensures done == [] ==> p == r
  {
    match r
    case Err(e) => Err(e)
    case Ok(w) =>
      assert done == [] ==> done + w.cells == w.cells;
      Ok(Walked(done + w.cells, w.end))
  }

  lemma Unroll(w: Walk, done: seq<Cell>, i: nat, off: nat)
    requires i < w.count
    ensures Prepend(done, w.From(i, off)) ==
            if IsNull(w.nulls, i) then Prepend(done + [Null], w.From(i + 1, off))
            else match w.step(i, off)
              case Err(e) => Err(e)
              case Ok((cell, next)) => Prepend(done + [cell], w.From(i + 1, next))
  {
    if IsNull(w.nulls, i) {
      var rest := w.From(i + 1, off);
      assert rest.Ok? ==> done + ([Null] + rest.value.cells) == done + [Null] + rest.value.cells;
    } else if w.step(i, off).Ok? {
      var (cell, next) := w.step(i, off).value;
      var rest := w.From(i + 1, next);
      assert rest.Ok? ==> done + ([cell] + rest.value.cells) == done + [cell] + rest.value.cells;
    }
  }

  /** Walks over the same columns whose steps succeed alike succeed alike. */
  lemma {:induction false} WalksAgree(a: Walk, b: Walk, i: nat, off: nat)
    requires a.count == b.count && a.nulls == b.nulls && i <= a.count
    requires forall k: nat, o: nat :: i <= k < a.count ==>
               if a.step(k, o).Ok? then b.step(k, o) == a.step(k, o) else b.step(k, o).Err?
    ensures if a.From(i, off).Ok? then b.From(i, off) == a.From(i, off) else b.From(i, off).Err?
    decreases a.count - i
  {
    if i == a.count {
    } else if IsNull(a.nulls, i) {
      WalksAgree(a, b, i + 1, off);
    } else {
      var step := a.step(i, off);
      if step.Ok? {
        assert b.step(i, off) == step;
        WalksAgree(a, b, i + 1, step.value.1);
      } else {
        assert b.step(i, off).Err?;
      }
    }
  }

  /** Walks that take the same steps have the same outcome. */
  lemma {:induction false} SameSteps(a: Walk, b: Walk, i: nat, off: nat)
    requires a.count == b.count && a.nulls == b.nulls && i <= a.count
    requires forall k: nat, o: nat :: i <= k < a.count ==> a.step(k, o) == b.step(k, o)
    ensures a.From(i, off) == b.From(i, off)
    decreases a.count - i
  {
    if i < a.count {
      if IsNull(a.nulls, i) {
        SameSteps(a, b, i + 1, off);
      } else if a.step(i, off).Ok? {
        SameSteps(a, b, i + 1, a.step(i, off).value.1);
      }
    }
  }

  // ── Value checks are independent of the walk ────────────────────────────

  /** The check a reader makes on each payload it delivers, by column. */
  type Accept = (nat, seq<byte>) -> Option<PgError>

  function AcceptAll(): Accept { (i, b) => None }

  predicate Passes(accept: Accept, col: nat, c: Cell) { c.At? ==> accept(col, c.bytes).None? }

  ghost predicate AllPass(accept: Accept, cells: seq<Cell>, from: nat) {
    forall k :: 0 <= k < |cells| ==> Passes(accept, from + k, cells[k])
  }

  lemma AllPassCons(accept: Accept, c: Cell, rest: seq<Cell>, i: nat)
    ensures AllPass(accept, [c] + rest, i) <==> Passes(accept, i, c) && AllPass(accept, rest, i + 1)
  {
    var all := [c] + rest;
    assert all[0] == c;
    if AllPass(accept, all, i) {
      forall k | 0 <= k < |rest| ensures Passes(accept, i + 1 + k, rest[k]) {
        assert all[k + 1] == rest[k];
      }
    }
  }

  /** `checked` runs like `free` but also checks the payloads it delivers. */
  ghost predicate ChecksOnly(free: Walk, checked: Walk, accept: Accept) {
    && free.count == checked.count && free.nulls == checked.nulls
    && forall k: nat, o: nat :: k < free.count ==>
         var s := free.step(k, o);
         if s.Ok? && Passes(accept, k, s.value.0) then checked.step(k, o) == s else checked.step(k, o).Err?
  }

  /** A walk with value checks succeeds exactly when the unchecked walk does and every
      delivered payload passes; the cells are then the same. */
  lemma {:induction false} ChecksFactor(free: Walk, checked: Walk, accept: Accept, i: nat, off: nat)
    requires ChecksOnly(free, checked, accept) && i <= free.count
    ensures var r := free.From(i, off);
            if r.Ok? && AllPass(accept, r.value.cells, i) then checked.From(i, off) == r
            else checked.From(i, off).Err?
    decreases free.count - i
  {
    if i == free.count {
    } else if IsNull(free.nulls, i) {
      ChecksFactor(free, checked, accept, i + 1, off);
      var rest := free.From(i + 1, off);
      if rest.Ok? { AllPassCons(accept, Null, rest.value.cells, i); }
    } else {
      var step := free.step(i, off);
      assert checked.step(i, off) == step || checked.step(i, off).Err?;
      if step.Ok? {
        var (cell, next) := step.value;
        ChecksFactor(free, checked, accept, i + 1, next);
        var rest := free.From(i + 1, next);
        if rest.Ok? { AllPassCons(accept, cell, rest.value.cells, i); }
      }
    }
  }

  /** Where checks can only report `e`, that is how a walk fails that the unchecked walk
      completes. */
  lemma {:induction false} ChecksReport(free: Walk, checked: Walk, e: PgError, i: nat, off: nat)
    requires checked.count == free.count && checked.nulls == free.nulls && i <= free.count
    requires forall k: nat, o: nat :: k < free.count && free.step(k, o).Ok? ==>
               checked.step(k, o) == free.step(k, o) || checked.step(k, o) == Err(e)
    requires free.From(i, off).Ok?
    ensures checked.From(i, off) == free.From(i, off) || checked.From(i, off) == Err(e)
    decreases free.count - i
  {
    if i < free.count {
      ChecksReport(free, checked, e, i + 1, if IsNull(free.nulls, i) then off else free.step(i, off).value.1);
    }
  }

  // ── Projection commutes with the walk ───────────────────────────────────

  function AllWanted(n: nat): (w: seq<bool>)
    ensures |w| == n
    ensures forall i :: 0 <= i < n ==> w[i]
  {
    seq(n, i => true)
  }

  /** What a walk wanting `wanted` sees of a fully delivered row. */
  ghost predicate Restricts(cells: seq<Cell>, full: seq<Cell>, wanted: seq<bool>, from: nat) {
    && |cells| == |wanted| - from <= |full|
    && forall k :: 0 <= k < |cells| ==>
         cells[k] == if wanted[from + k] || full[k].Null? then full[k] else Skipped
  }

  lemma RestrictsCons(c: Cell, rest: seq<Cell>, f: Cell, full: seq<Cell>, wanted: seq<bool>, i: nat)
    requires i < |wanted| && Restricts(rest, full, wanted, i + 1)
    requires c == if wanted[i] || f.Null? then f else Skipped
    ensures Restricts([c] + rest, [f] + full, wanted, i)
  {
    var cells, all := [c] + rest, [f] + full;
    forall k | 0 <= k < |cells|
      ensures cells[k] == if wanted[i + k] || all[k].Null? then all[k] else Skipped
    {
      if k > 0 { assert cells[k] == rest[k - 1] && all[k] == full[k - 1]; }
    }
  }

  /** `part` visits the first `|wanted|` columns of `full` and passes over the unwanted. */
  ghost predicate StepsProject(full: Walk, part: Walk, wanted: seq<bool>) {
    && part.count == |wanted| <= full.count && part.nulls == full.nulls
    && forall k: nat, o: nat :: k < |wanted| && full.step(k, o).Ok? ==>
         && full.step(k, o).value.0.At?
         && part.step(k, o) == Ok((if wanted[k] then full.step(k, o).value.0 else Skipped,
                                   full.step(k, o).value.1))
  }

  /** Whenever every column can be delivered, a walk that delivers only some of them,
      and stops early, succeeds and delivers the same cells. */
  lemma {:induction false} ProjectionCommutes(full: Walk, part: Walk, wanted: seq<bool>, i: nat, off: nat)
    requires StepsProject(full, part, wanted) && i <= |wanted|
    requires full.From(i, off).Ok?
    ensures var p := part.From(i, off);
            p.Ok? && Restricts(p.value.cells, full.From(i, off).value.cells, wanted, i)
    decreases |wanted| - i
  {
    if i == |wanted| {
    } else if IsNull(full.nulls, i) {
      ProjectionCommutes(full, part, wanted, i + 1, off);
      RestrictsCons(Null, part.From(i + 1, off).value.cells,
                    Null, full.From(i + 1, off).value.cells, wanted, i);
    } else {
      var (cell, next) := full.step(i, off).value;
      assert part.step(i, off).Ok?;
      ProjectionCommutes(full, part, wanted, i + 1, next);
      RestrictsCons(part.step(i, off).value.0, part.From(i + 1, next).value.cells,
                    cell, full.From(i + 1, next).value.cells, wanted, i);
    }
  }

  ghost predicate NoneSkipped(cells: seq<Cell>) {
    forall k :: 0 <= k < |cells| ==> !cells[k].Skipped?
  }

  lemma {:induction false} NothingSkipped(w: Walk, i: nat, off: nat)
    requires forall k: nat, o: nat :: k < w.count && w.step(k, o).Ok? ==> w.step(k, o).value.0.At?
    requires i <= w.count && w.From(i, off).Ok?
    ensures NoneSkipped(w.From(i, off).value.cells)
    decreases w.count - i
  {
    if i < w.count {
      NothingSkipped(w, i + 1, if IsNull(w.nulls, i) then off else w.step(i, off).value.1);
    }
  }

  // ── Extents ──────────────────────────────────────────────────────────────

  /** The payload is a slice of the data area at or after `off`. */
  predicate Slice(c: Cell, data: seq<byte>, off: nat) {
    c.At? ==>
      && off <= c.start && c.start + |c.bytes| <= |data|
      && c.bytes == data[c.start..c.start + |c.bytes|]
  }

  ghost predicate Slices(cells: seq<Cell>, data: seq<byte>, off: nat) {
    forall k :: 0 <= k < |cells| ==> Slice(cells[k], data, off)
  }

  ghost predicate Ordered(cells: seq<Cell>) {
    forall j, k :: 0 <= j < k < |cells| && cells[j].At? && cells[k].At? ==>
      cells[j].start + |cells[j].bytes| <= cells[k].start
  }

  ghost function NonNull(cells: seq<Cell>): nat {
    if cells == [] then 0 else (if cells[0].Null? then 0 else 1) + NonNull(cells[1..])
  }

  /** Steps deliver slices that end by the next offset, which moves forward. */
  ghost predicate StepsSlice(w: Walk, data: seq<byte>) {
    forall k: nat, o: nat :: k < w.count && w.step(k, o).Ok? ==>
      var (c, next) := w.step(k, o).value;
      o < next && !c.Null? && Slice(c, data, o) && (c.At? ==> c.start + |c.bytes| <= next)
  }

  lemma ConsOrdered(c: Cell, rest: seq<Cell>, data: seq<byte>, off: nat, next: nat)
    requires off <= next && Slices(rest, data, next) && Ordered(rest)
    requires Slice(c, data, off) && (c.At? ==> c.start + |c.bytes| <= next)
    ensures Slices([c] + rest, data, off) && Ordered([c] + rest)
  {
    var all := [c] + rest;
    forall k | 0 <= k < |all| ensures Slice(all[k], data, off) {
      if k > 0 { assert all[k] == rest[k - 1]; }
    }
    forall j, k | 0 <= j < k < |all| && all[j].At? && all[k].At?
      ensures all[j].start + |all[j].bytes| <= all[k].start
    {
      assert all[k] == rest[k - 1] && Slice(rest[k - 1], data, next);
      if j > 0 { assert all[j] == rest[j - 1]; }
    }
  }

  /** Payloads are slices of the tuple, in column order and without overlap, and each
      non-NULL column moves the offset forward. */
  lemma {:induction false} CellsAreDisjointSlices(w: Walk, data: seq<byte>, i: nat, off: nat)
    requires StepsSlice(w, data) && i <= w.count && w.From(i, off).Ok?
    ensures var r := w.From(i, off).value;
            Slices(r.cells, data, off) && Ordered(r.cells) && off + NonNull(r.cells) <= r.end
    decreases w.count - i
  {
    if i == w.count {
    } else if IsNull(w.nulls, i) {
      CellsAreDisjointSlices(w, data, i + 1, off);
      var rest := w.From(i + 1, off).value.cells;
      ConsOrdered(Null, rest, data, off, off);
      assert ([Null] + rest)[1..] == rest;
    } else {
      var (cell, next) := w.step(i, off).value;
      CellsAreDisjointSlices(w, data, i + 1, next);
      var rest := w.From(i + 1, next).value.cells;
      ConsOrdered(cell, rest, data, off, next);
      assert ([cell] + rest)[1..] == rest;
    }
  }
}
