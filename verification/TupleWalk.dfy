/** The two readers' walks over one tuple, and the facts about their steps. */
module TupleWalk {
  import opened Base
  import opened Codec
  import opened HeapTuples
  import opened Deform

  /** The readers differ in how a fixed-width value past the end of the data fails. */
  datatype Reader = Rows | Pages

  /** Everything one walk depends on. Columns `0..|wanted|` are visited; `wanted[i]` says
      whether column `i` is delivered or passed over. */
  datatype Plan = Plan(reader: Reader, accept: Accept, layouts: seq<ColLayout>, wanted: seq<bool>,
                       nulls: seq<byte>, data: seq<byte>)
  {
    function Start(i: nat, off: nat): nat
      requires i < |layouts|
    {
      match reader
      case Rows => AlignInRows(layouts[i], data, off)
      case Pages => AlignInPages(layouts[i], data, off)
    }

    /** The value of column `i` at aligned offset `at`. */
    function Take(i: nat, at: nat): Result<Piece>
      requires i < |layouts|
    {
      if reader.Pages? && FixedSize(layouts[i]) > 0 then ExtractFixedBytes(data, at, FixedSize(layouts[i]))
      else ExtractColumnBytes(layouts[i].len, data, at)
    }

    function Visit(i: nat, off: nat): Result<(Cell, nat)> {
      if i >= |wanted| || i >= |layouts| then Err(Panic)
      else
        var at := Start(i, off);
        SizesAgree(layouts[i], data, at);
        if wanted[i] then
          var p :- Take(i, at);
          var bytes := data[p.start..p.start + p.len];
          match accept(i, bytes)
          case Some(e) => Err(e)
          case None => Ok((At(p.start, bytes), at + p.consumed))
        else
          var size :- SkipDatum(layouts[i].len, data, at);
          Ok((Skipped, at + size))
    }

    function ToWalk(): Walk {
      Walk(|wanted|, nulls, (i, off) => Visit(i, off))
    }

    /** The outcome of the whole walk. */
    function Run(): Result<Walked> { ToWalk().From(0, 0) }

    predicate Full() { wanted == AllWanted(|layouts|) }
  }

  /** `walk` is the walk of `plan`. Loops take the walk as a ghost parameter and mention
      `Here(i, off)` only where a step must be unfolded. */
  ghost predicate Follows(walk: Walk, plan: Plan) {
    && walk.count == |plan.wanted| && walk.nulls == plan.nulls
    && forall i: nat, off: nat {:trigger Here(i, off)} :: Here(i, off) ==> walk.step(i, off) == plan.Visit(i, off)
  }

  // ── The page walk refines the row walk ──────────────────────────────────

  lemma VisitsAgree(p: Plan, i: nat, off: nat)
    requires i < |p.wanted| <= |p.layouts|
    ensures var rows := p.(reader := Rows).Visit(i, off);
            var pages := p.(reader := Pages).Visit(i, off);
            if rows.Ok? then pages == rows else pages.Err?
  {
    AlignmentRulesAgree(p.layouts[i], p.data, off);
  }

  /** The zero-copy page walk and the row walk succeed on the same tuples, with the
      same NULLs, offsets, lengths and bytes, whatever is projected and however
      values are checked. They differ in the error reported for a short buffer. */
  lemma PagesRefineRows(p: Plan)
    requires |p.wanted| <= |p.layouts|
    ensures var rows := p.(reader := Rows).Run();
            var pages := p.(reader := Pages).Run();
            if rows.Ok? then pages == rows else pages.Err?
  {
    var a, b := p.(reader := Rows).ToWalk(), p.(reader := Pages).ToWalk();
    forall k: nat, o: nat | k < a.count
      ensures if a.step(k, o).Ok? then b.step(k, o) == a.step(k, o) else b.step(k, o).Err?
    {
      VisitsAgree(p, k, o);
    }
    WalksAgree(a, b, 0, 0);
  }

  /** What an unchecked walk delivers, filtered by the checks of `p`. */
  lemma RunFactors(p: Plan)
    ensures var free := p.(accept := AcceptAll()).Run();
            if free.Ok? && AllPass(p.accept, free.value.cells, 0) then p.Run() == free else p.Run().Err?
  {
    var free, checked := p.(accept := AcceptAll()).ToWalk(), p.ToWalk();
    forall k: nat, o: nat | k < free.count
      ensures var s := free.step(k, o);
              if s.Ok? && Passes(p.accept, k, s.value.0) then checked.step(k, o) == s else checked.step(k, o).Err?
    {
      CheckedVisit(p, k, o);
    }
    ChecksFactor(free, checked, p.accept, 0, 0);
  }

  lemma CheckedVisit(p: Plan, i: nat, off: nat)
    ensures var s := p.(accept := AcceptAll()).Visit(i, off);
            if s.Ok? && Passes(p.accept, i, s.value.0) then p.Visit(i, off) == s else p.Visit(i, off).Err?
  {
    if i < |p.wanted| && i < |p.layouts| {
      var u := p.(accept := AcceptAll());
      var at := p.Start(i, off);
      assert u.Start(i, off) == at && u.Take(i, at) == p.Take(i, at);
    }
  }

  /** Two plans that visit the same columns alike. */
  ghost predicate AlikeSoFar(p: Plan, q: Plan) {
    && p.reader == q.reader && p.wanted == q.wanted && p.nulls == q.nulls && p.data == q.data
    && |p.wanted| <= |p.layouts| && |p.wanted| <= |q.layouts|
    && forall i: nat :: i < |p.wanted| ==> p.layouts[i] == q.layouts[i]
  }

  ghost predicate SameChecks(p: Plan, q: Plan) {
    forall i: nat, b :: i < |p.wanted| ==> p.accept(i, b) == q.accept(i, b)
  }

  lemma SameRun(p: Plan, q: Plan)
    requires AlikeSoFar(p, q) && SameChecks(p, q)
    ensures p.Run() == q.Run()
  {
    var a, b := p.ToWalk(), q.ToWalk();
    forall k: nat, o: nat | k < a.count ensures a.step(k, o) == b.step(k, o) {
      assert p.Start(k, o) == q.Start(k, o) && p.Take(k, p.Start(k, o)) == q.Take(k, p.Start(k, o));
    }
    SameSteps(a, b, 0, 0);
  }

  lemma RunReports(p: Plan, e: PgError)
    requires p.(accept := AcceptAll()).Run().Ok?
    requires forall i: nat, b :: p.accept(i, b).Some? ==> p.accept(i, b).value == e
    ensures p.Run() == p.(accept := AcceptAll()).Run() || p.Run() == Err(e)
  {
    var free, checked := p.(accept := AcceptAll()).ToWalk(), p.ToWalk();
    forall k: nat, o: nat | k < free.count && free.step(k, o).Ok?
      ensures checked.step(k, o) == free.step(k, o) || checked.step(k, o) == Err(e)
    {
      ReportedVisit(p, e, k, o);
    }
    ChecksReport(free, checked, e, 0, 0);
  }

  lemma ReportedVisit(p: Plan, e: PgError, i: nat, off: nat)
    requires p.(accept := AcceptAll()).Visit(i, off).Ok?
    requires forall k: nat, b :: p.accept(k, b).Some? ==> p.accept(k, b).value == e
    ensures p.Visit(i, off) == p.(accept := AcceptAll()).Visit(i, off) || p.Visit(i, off) == Err(e)
  {
    var u := p.(accept := AcceptAll());
    var at := p.Start(i, off);
    assert u.Start(i, off) == at && u.Take(i, at) == p.Take(i, at);
  }

  lemma ProjectedVisit(p: Plan, wanted: seq<bool>, i: nat, off: nat)
    requires p.Full() && i < |wanted| <= |p.layouts| && p.Visit(i, off).Ok?
    ensures p.Visit(i, off).value.0.At?
    ensures p.(wanted := wanted).Visit(i, off) ==
            Ok((if wanted[i] then p.Visit(i, off).value.0 else Skipped, p.Visit(i, off).value.1))
  {
    var q := p.(wanted := wanted);
    var at := p.Start(i, off);
    assert q.Start(i, off) == at && q.Take(i, at) == p.Take(i, at);
    SizesAgree(p.layouts[i], p.data, at);
  }

  lemma ProjectedRun(p: Plan, wanted: seq<bool>)
    requires p.Full() && |wanted| <= |p.layouts| && p.Run().Ok?
    ensures var r := p.(wanted := wanted).Run();
            r.Ok? && Restricts(r.value.cells, p.Run().value.cells, wanted, 0)
  {
    var full, part := p.ToWalk(), p.(wanted := wanted).ToWalk();
    forall k: nat, o: nat | k < |wanted| && full.step(k, o).Ok?
      ensures full.step(k, o).value.0.At?
      ensures part.step(k, o) == Ok((if wanted[k] then full.step(k, o).value.0 else Skipped,
                                     full.step(k, o).value.1))
    {
      ProjectedVisit(p, wanted, k, o);
    }
    ProjectionCommutes(full, part, wanted, 0, 0);
  }

  lemma SlicedVisit(p: Plan, i: nat, off: nat)
    requires p.Visit(i, off).Ok?
    ensures var (c, next) := p.Visit(i, off).value;
            && off < next && !c.Null? && Slice(c, p.data, off) && (c.At? ==> c.start + |c.bytes| <= next)
            && (p.wanted[i] <==> c.At?)
  {
    SizesAgree(p.layouts[i], p.data, p.Start(i, off));
  }

  /** Every reader's payloads are disjoint slices of the data area in column order. */
  lemma RunSlices(p: Plan)
    requires p.Run().Ok?
    ensures var r := p.Run().value;
            Slices(r.cells, p.data, 0) && Ordered(r.cells) && NonNull(r.cells) <= r.end
  {
    var w := p.ToWalk();
    forall k: nat, o: nat | k < w.count && w.step(k, o).Ok?
      ensures var (c, next) := w.step(k, o).value;
              o < next && !c.Null? && Slice(c, p.data, o) && (c.At? ==> c.start + |c.bytes| <= next)
    {
      SlicedVisit(p, k, o);
    }
    CellsAreDisjointSlices(w, p.data, 0, 0);
  }

  lemma FullRunSkipsNothing(p: Plan)
    requires p.Full() && p.Run().Ok?
    ensures NoneSkipped(p.Run().value.cells)
  {
    var w := p.ToWalk();
    forall k: nat, o: nat | k < w.count && w.step(k, o).Ok? ensures w.step(k, o).value.0.At? {
      SlicedVisit(p, k, o);
    }
    NothingSkipped(w, 0, 0);
  }

  /** How a step fails: a fixed-width value past the end is an error for the row readers and
      panics the page loop, unless it is passed over; any other failure is an error. */
  lemma VisitFailures(p: Plan, i: nat, off: nat)
    requires p.accept == AcceptAll() && i < |p.wanted| <= |p.layouts|
    ensures var r, at, len := p.Visit(i, off), p.Start(i, off), p.layouts[i].len;
            && (len.Fixed? ==>
                  if !p.wanted[i] then r == Ok((Skipped, at + len.n))
                  else if at + len.n <= |p.data| then r == Ok((At(at, p.data[at..at + len.n]), at + len.n))
                  else r == Err(if p.reader.Pages? then Panic else DecodeError))
            && (len.Varlena? && r.Err? ==> r.error == DecodeError)
  {
    SizesAgree(p.layouts[i], p.data, p.Start(i, off));
    VarlenaHeaderAccepts(p.data, p.Start(i, off));
  }
}
