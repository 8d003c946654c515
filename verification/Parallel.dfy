/** Chunked parallel conversion of pages (src/file/reader.rs:505-557), for any conversion. */
module Parallel {
  import opened Base

  type Convert<!P, !T> = P -> Result<T>

  /** The plain loop: every result in page order, or the first error. */
  function ConvertAll<P, T>(pages: seq<P>, convert: Convert<P, T>): Result<seq<T>> {
    if pages == [] then Ok([])
    else
      var first :- convert(pages[0]);
      var rest :- ConvertAll(pages[1..], convert);
      Ok([first] + rest)
  }

  /** Result i is the conversion of page i. */
  lemma {:induction false} ConvertedAt<P, T>(pages: seq<P>, convert: Convert<P, T>, i: nat)
    requires ConvertAll(pages, convert).Ok?
    ensures |ConvertAll(pages, convert).value| == |pages|
    ensures i < |pages| ==> convert(pages[i]) == Ok(ConvertAll(pages, convert).value[i])
  {
    if pages != [] {
      ConvertedAt(pages[1..], convert, if i > 0 then i - 1 else 0);
    }
  }

  function Append<T>(a: Result<seq<T>>, b: Result<seq<T>>): Result<seq<T>> {
    if a.Err? then a else if b.Err? then b else Ok(a.value + b.value)
  }

  lemma {:induction false} ConvertAllSplits<P, T>(a: seq<P>, b: seq<P>, convert: Convert<P, T>)
    ensures ConvertAll(a + b, convert) == Append(ConvertAll(a, convert), ConvertAll(b, convert))
  {
    if a == [] {
      assert a + b == b;
      assert ConvertAll(b, convert).Ok? ==> [] + ConvertAll(b, convert).value == ConvertAll(b, convert).value;
    } else {
      assert (a + b)[1..] == a[1..] + b;
      ConvertAllSplits(a[1..], b, convert);
      if ConvertAll(a + b, convert).Ok? {
        var (x, y) := (ConvertAll(a[1..], convert).value, ConvertAll(b, convert).value);
        assert [convert(a[0]).value] + (x + y) == [convert(a[0]).value] + x + y;
      }
    }
  }

  method ConvertChunk<P, T>(chunk: seq<P>, convert: Convert<P, T>) returns (r: Result<seq<T>>)
    ensures r == ConvertAll(chunk, convert)
  {
    var batches := [];
    ghost var all := ConvertAll(chunk, convert);
    assert chunk[0..] == chunk && (all.Ok? ==> [] + all.value == all.value);
    for i := 0 to |chunk|
      invariant ConvertAll(chunk, convert) == Append(Ok(batches), ConvertAll(chunk[i..], convert))
    {
      var batch := convert(chunk[i]);
      if batch.Err? {
        return Err(batch.error);
      }
      assert chunk[i..][1..] == chunk[i + 1..];
      ghost var rest := ConvertAll(chunk[i + 1..], convert);
      assert rest.Ok? ==> batches + ([batch.value] + rest.value) == batches + [batch.value] + rest.value;
      batches := batches + [batch.value];
    }
    assert batches + [] == batches;
    return Ok(batches);
  }

  // ── Chunks ───────────────────────────────────────────────────────────────

  /** `pages.chunks(size)` */
  function Chunks<P>(pages: seq<P>, size: nat): (c: seq<seq<P>>)
    requires size > 0
    decreases |pages|
  {
    if pages == [] then [] else if |pages| <= size then [pages] else [pages[..size]] + Chunks(pages[size..], size)
  }

  function DivCeil(n: nat, d: nat): nat
    requires d > 0
  {
    (n + d - 1) / d
  }

  predicate Sequential<P>(pages: seq<P>, numThreads: nat) {
    Min(numThreads, |pages|) <= 1 || |pages| <= 2
  }

  /** How many pages each thread converts; all of them without threads. */
  function ChunkSize<P>(pages: seq<P>, numThreads: nat): (size: nat)
    requires pages != []
    ensures size > 0
  {
    if Sequential(pages, numThreads) then |pages|
    else
      CeilCovers(|pages|, Min(numThreads, |pages|));
      DivCeil(|pages|, Min(numThreads, |pages|))
  }

  /** Threads are used for three pages or more, and each but the last gets the least number of
      pages with which that many threads suffice. */
  lemma ChunkSizeIs<P>(pages: seq<P>, numThreads: nat)
    requires pages != []
    ensures var (n, size) := (|pages|, ChunkSize(pages, numThreads));
            if n <= 2 || numThreads <= 1 then size == n
            else var t := Min(numThreads, n); n <= size * t && (size - 1) * t < n
  {
    if |pages| > 2 && numThreads > 1 {
      var t := Min(numThreads, |pages|);
      CeilCovers(|pages|, t);
      CeilIsLeast(|pages|, t);
    }
  }

  lemma CeilIsLeast(n: nat, d: nat)
    requires 0 < d
    ensures (DivCeil(n, d) - 1) * d < n || n == 0
  {
    assert (n + d - 1) / d * d + (n + d - 1) % d == n + d - 1;
    assert ((n + d - 1) / d - 1) * d == (n + d - 1) / d * d - d;
  }

  /** The chunks that run on threads of their own, or the one that does not. */
  function ChunksFor<P>(pages: seq<P>, numThreads: nat): seq<seq<P>> {
    if pages == [] then [] else Chunks(pages, ChunkSize(pages, numThreads))
  }

  function Concat<P>(chunks: seq<seq<P>>): seq<P> {
    if chunks == [] then [] else chunks[0] + Concat(chunks[1..])
  }

  lemma OneFewer(n: nat, size: nat, threads: nat)
    requires size < n <= size * threads
    ensures threads > 0 && n - size <= size * (threads - 1)
  {
  }

  lemma {:induction false} ChunksCover<P>(pages: seq<P>, size: nat, threads: nat)
    requires size > 0 && |pages| <= size * threads
    ensures Concat(Chunks(pages, size)) == pages && |Chunks(pages, size)| <= threads
    decreases |pages|
  {
    if |pages| > size {
      OneFewer(|pages|, size, threads);
      ChunksCover(pages[size..], size, threads - 1);
    } else if pages != [] {
      assert threads > 0;
      assert Concat([pages]) == pages + [];
    }
  }

  lemma CeilCovers(n: nat, d: nat)
    requires 0 < d <= n
    ensures DivCeil(n, d) > 0 && n <= DivCeil(n, d) * d
  {
    assert (n + d - 1) / d * d + (n + d - 1) % d == n + d - 1;
    var q := (n + d - 1) / d;
    assert q * d >= n;
    assert q > 0 by {
      assert 0 * d == 0;
    }
  }

  /** No page is lost, repeated or moved, and no more threads run than asked for. */
  lemma ChunksPartition<P>(pages: seq<P>, numThreads: nat)
    ensures Concat(ChunksFor(pages, numThreads)) == pages
    ensures |ChunksFor(pages, numThreads)| <= Max(numThreads, 1)
  {
    if pages == [] {
    } else if Sequential(pages, numThreads) {
      assert Concat([pages]) == pages + [];
    } else {
      var threads := Min(numThreads, |pages|);
      CeilCovers(|pages|, threads);
      ChunksCover(pages, DivCeil(|pages|, threads), threads);
    }
  }

  // ── Threads ──────────────────────────────────────────────────────────────

  function ThreadIds(n: nat): (ids: set<nat>)
    ensures forall k: nat :: k in ids <==> k < n
  {
    if n == 0 then {} else ThreadIds(n - 1) + {n - 1}
  }

  /** Every chunk's thread runs to its end, in whatever order they are scheduled. */
  method RunThreads<P, T>(chunks: seq<seq<P>>, convert: Convert<P, T>) returns (results: seq<Result<seq<T>>>)
    ensures results == ChunkResults(chunks, convert)
  {
    results := seq(|chunks|, _ => Ok([]));
    var running := ThreadIds(|chunks|);
    while running != {}
      invariant |results| == |chunks| && forall k :: k in running ==> 0 <= k < |chunks|
      invariant forall k: nat :: k < |chunks| && k !in running ==> results[k] == ConvertAll(chunks[k], convert)
    {
      var k :| k in running;
      var r := ConvertChunk(chunks[k], convert);
      results := results[k := r];
      running := running - {k};
    }
  }

  function ChunkResults<P, T>(chunks: seq<seq<P>>, convert: Convert<P, T>): (r: seq<Result<seq<T>>>)
    ensures |r| == |chunks| && forall k :: 0 <= k < |r| ==> r[k] == ConvertAll(chunks[k], convert)
  {
    if chunks == [] then [] else [ConvertAll(chunks[0], convert)] + ChunkResults(chunks[1..], convert)
  }

  function Joined<T>(results: seq<Result<seq<T>>>): Result<seq<T>> {
    if results == [] then Ok([]) else Append(results[0], Joined(results[1..]))
  }

  /** Joining the chunks in order is converting all their pages. */
  lemma {:induction false} JoinedIsConvertAll<P, T>(chunks: seq<seq<P>>, convert: Convert<P, T>)
    ensures Joined(ChunkResults(chunks, convert)) == ConvertAll(Concat(chunks), convert)
  {
    if chunks != [] {
      var results := ChunkResults(chunks, convert);
      assert results[1..] == ChunkResults(chunks[1..], convert);
      ConvertAllSplits(chunks[0], Concat(chunks[1..]), convert);
      JoinedIsConvertAll(chunks[1..], convert);
    }
  }

  ghost predicate Panics<T>(r: Result<seq<T>>) { r.Err? && r.error == Panic }

  ghost predicate ThreadPanics<P, T>(chunks: seq<seq<P>>, convert: Convert<P, T>) {
    exists r :: r in ChunkResults(chunks, convert) && Panics(r)
  }

  // ── What that means for the pages ───────────────────────────────────────

  /** Page `i` fails, and the pages from `from` up to it convert. */
  ghost predicate FailsFirst<P, T>(pages: seq<P>, convert: Convert<P, T>, from: nat, i: nat) {
    from <= i < |pages| && convert(pages[i]).Err? && forall j :: from <= j < i ==> convert(pages[j]).Ok?
  }

  /** The plain loop returns the error of the first page that fails. */
  lemma {:induction false} ConvertAllFails<P, T>(pages: seq<P>, convert: Convert<P, T>) returns (i: nat)
    ensures match ConvertAll(pages, convert)
            case Ok(_) => forall j :: 0 <= j < |pages| ==> convert(pages[j]).Ok?
            case Err(e) => FailsFirst(pages, convert, 0, i) && convert(pages[i]).error == e
  {
    i := 0;
    if pages != [] && convert(pages[0]).Ok? {
      var rest := pages[1..];
      i := ConvertAllFails(rest, convert);
      assert forall j :: 0 < j < |pages| ==> pages[j] == rest[j - 1];
      i := i + 1;
    }
  }

  /** Where the chunk of page `i` begins. */
  function ChunkStart(size: nat, i: nat): (r: nat)
    requires size > 0
    ensures r <= i
  {
    i - i % size
  }

  lemma ChunkStartFirst(size: nat, i: nat)
    requires i < size
    ensures ChunkStart(size, i) == 0
  {
  }

  lemma ChunkStartNext(size: nat, i: nat)
    requires size > 0
    ensures ChunkStart(size, size + i) == size + ChunkStart(size, i)
  {
    var q := i / size;
    assert i == q * size + i % size;
    Remainder(size, q + 1, i % size);
  }

  lemma Remainder(size: nat, q: nat, r: nat)
    requires r < size
    ensures (q * size + r) % size == r
  {
    var x, d := q * size + r, (q * size + r) / size - q;
    assert x == x / size * size + x % size && x / size * size == q * size + d * size;
    SmallMultiple(d, size);
  }

  lemma SmallMultiple(d: int, size: nat)
    requires 0 - size < d * size < size
    ensures d == 0
  {
  }

  /** Page `i` panics, and the earlier pages of its chunk convert. */
  ghost predicate PanicsFirst<P, T>(pages: seq<P>, convert: Convert<P, T>, size: nat, i: nat)
    requires size > 0
  {
    FailsFirst(pages, convert, ChunkStart(size, i), i) && convert(pages[i]).error == Panic
  }

  ghost predicate SomePanicsFirst<P, T>(pages: seq<P>, convert: Convert<P, T>, size: nat)
    requires size > 0
  {
    exists i: nat :: PanicsFirst(pages, convert, size, i)
  }

  /** In the first chunk ... */
  lemma PanicInFirst<P, T>(pages: seq<P>, convert: Convert<P, T>, size: nat, chunk: seq<P>)
    requires size > 0 && chunk == pages[..Min(size, |pages|)]
    ensures Panics(ConvertAll(chunk, convert)) ==> SomePanicsFirst(pages, convert, size)
    ensures forall i: nat :: i < |chunk| && PanicsFirst(pages, convert, size, i) ==> Panics(ConvertAll(chunk, convert))
  {
    var f := ConvertAllFails(chunk, convert);
    if Panics(ConvertAll(chunk, convert)) {
      ChunkStartFirst(size, f);
      assert PanicsFirst(pages, convert, size, f);
    }
    forall i: nat | i < |chunk| && PanicsFirst(pages, convert, size, i) ensures Panics(ConvertAll(chunk, convert)) {
      ChunkStartFirst(size, i);
      assert chunk[i] == pages[i] && (f < |chunk| ==> chunk[f] == pages[f]);
    }
  }

  /** ... and in the others. */
  lemma PanicInRest<P, T>(pages: seq<P>, convert: Convert<P, T>, size: nat, rest: seq<P>)
    requires 0 < size <= |pages| && rest == pages[size..]
    ensures forall i: nat :: PanicsFirst(rest, convert, size, i) <==> PanicsFirst(pages, convert, size, size + i)
  {
    forall i: nat ensures PanicsFirst(rest, convert, size, i) <==> PanicsFirst(pages, convert, size, size + i) {
      ChunkStartNext(size, i);
      ShiftedFailure(pages, convert, size, rest, ChunkStart(size, i), i);
    }
  }

  lemma ShiftedFailure<P, T>(pages: seq<P>, convert: Convert<P, T>, size: nat, rest: seq<P>, from: nat, i: nat)
    requires size <= |pages| && rest == pages[size..]
    ensures FailsFirst(rest, convert, from, i) <==> FailsFirst(pages, convert, size + from, size + i)
    ensures i < |rest| ==> rest[i] == pages[size + i]
  {
    if FailsFirst(pages, convert, size + from, size + i) {
      assert forall j :: from <= j < i ==> rest[j] == pages[size + j];
    }
  }

  lemma PanicSplits<P, T>(pages: seq<P>, convert: Convert<P, T>, size: nat, chunk: seq<P>, rest: seq<P>)
    requires 0 < size <= |pages| && chunk == pages[..size] && rest == pages[size..]
    ensures SomePanicsFirst(pages, convert, size) <==>
            Panics(ConvertAll(chunk, convert)) || SomePanicsFirst(rest, convert, size)
  {
    PanicInFirst(pages, convert, size, chunk);
    PanicInRest(pages, convert, size, rest);
    if SomePanicsFirst(pages, convert, size) {
      var i: nat :| PanicsFirst(pages, convert, size, i);
      if i >= size {
        assert i == size + (i - size);
        assert PanicsFirst(rest, convert, size, i - size);
      }
    }
    if SomePanicsFirst(rest, convert, size) {
      var i: nat :| PanicsFirst(rest, convert, size, i);
      assert PanicsFirst(pages, convert, size, size + i);
    }
  }

  /** A thread panics exactly when some page panics and the earlier pages of its chunk convert. */
  lemma {:induction false} ThreadPanicsIff<P, T>(pages: seq<P>, convert: Convert<P, T>, size: nat)
    requires size > 0
    ensures ThreadPanics(Chunks(pages, size), convert) <==> SomePanicsFirst(pages, convert, size)
    decreases |pages|
  {
    var chunks := Chunks(pages, size);
    if pages != [] {
      var first := chunks[0];
      var results := ChunkResults(chunks, convert);
      assert results == [ConvertAll(first, convert)] + ChunkResults(chunks[1..], convert);
      if |pages| <= size {
        assert pages == pages[..|pages|];
        PanicInFirst(pages, convert, size, pages);
      } else {
        ThreadPanicsIff(pages[size..], convert, size);
        PanicSplits(pages, convert, size, first, pages[size..]);
      }
    }
  }

  /** The parallel result: the plain loop's, unless some thread panics. */
  ghost function ParallelResult<P, T>(pages: seq<P>, convert: Convert<P, T>, numThreads: nat): Result<seq<T>> {
    if pages != [] && SomePanicsFirst(pages, convert, ChunkSize(pages, numThreads)) then Err(Panic)
    else ConvertAll(pages, convert)
  }

  /** Page `f` is the first to fail, without a panic, and page `i` of a later chunk panics
      before any other page of that chunk fails. */
  ghost predicate PanicHides<P, T>(pages: seq<P>, convert: Convert<P, T>, size: nat, f: nat, i: nat)
    requires size > 0
  {
    && FailsFirst(pages, convert, 0, f) && convert(pages[f]).error != Panic
    && f < ChunkStart(size, i) && PanicsFirst(pages, convert, size, i)
  }

  /** The parallel result differs from the plain loop's exactly when a later panic hides the
      error of the first page that fails. */
  lemma ParallelDiffersIff<P, T>(pages: seq<P>, convert: Convert<P, T>, numThreads: nat)
    requires pages != []
    ensures ParallelResult(pages, convert, numThreads) != ConvertAll(pages, convert) <==>
            exists f: nat, i: nat :: PanicHides(pages, convert, ChunkSize(pages, numThreads), f, i)
  {
    var size := ChunkSize(pages, numThreads);
    var f := ConvertAllFails(pages, convert);
    if ParallelResult(pages, convert, numThreads) != ConvertAll(pages, convert) {
      var i: nat :| PanicsFirst(pages, convert, size, i);
      assert convert(pages[i]).Err?;
      assert PanicHides(pages, convert, size, f, i);
    }
  }

  lemma {:induction false} JoinedErrors<T>(results: seq<Result<seq<T>>>)
    requires Joined(results).Ok?
    ensures forall k :: 0 <= k < |results| ==> results[k].Ok?
  {
    if results != [] {
      JoinedErrors(results[1..]);
    }
  }

  /** Joins every thread, then collects their batches in chunk order. */
  method JoinThreads<T>(results: seq<Result<seq<T>>>) returns (r: Result<seq<T>>)
    ensures r == if exists x :: x in results && Panics(x) then Err(Panic) else Joined(results)
  {
    for k := 0 to |results|
      invariant forall i :: 0 <= i < k ==> !Panics(results[i])
    {
      if results[k].Err? && results[k].error == Panic {
        assert results[k] in results;
        return Err(Panic);  // join().unwrap()
      }
    }
    var batches := [];
    assert Joined(results).Ok? ==> [] + Joined(results).value == Joined(results).value;
    for k := 0 to |results|
      invariant Joined(results) == Append(Ok(batches), Joined(results[k..]))
    {
      assert results[k..][1..] == results[k + 1..];
      if results[k].Err? {
        return Err(results[k].error);
      }
      ghost var rest := Joined(results[k + 1..]);
      assert rest.Ok? ==> batches + (results[k].value + rest.value) == batches + results[k].value + rest.value;
      batches := batches + results[k].value;
    }
    assert batches + [] == batches;
    return Ok(batches);
  }

  method ConvertPagesParallel<P, T>(pages: seq<P>, convert: Convert<P, T>, numThreads: nat) returns (r: Result<seq<T>>)
    ensures r == ParallelResult(pages, convert, numThreads)
  {
    if pages == [] {
      return Ok([]);
    }
    ChunksPartition(pages, numThreads);
    JoinedIsConvertAll(ChunksFor(pages, numThreads), convert);
    ThreadPanicsIff(pages, convert, ChunkSize(pages, numThreads));
    var effectiveThreads := Min(numThreads, |pages|);
    if effectiveThreads <= 1 || |pages| <= 2 {
      r := ConvertChunk(pages, convert);
      return;
    }
    CeilCovers(|pages|, effectiveThreads);
    var chunks := Chunks(pages, DivCeil(|pages|, effectiveThreads));
    var results := RunThreads(chunks, convert);
    r := JoinThreads(results);
  }
}
