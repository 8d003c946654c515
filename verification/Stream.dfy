/** The buffered batch stream over a relation (src/file/reader.rs:308-503), for any way of
    converting a page under a snapshot. */
module Stream {
  import opened Base
  import opened Relation
  import opened BulkRead

  const DEFAULT_PAGES_PER_BATCH := 128

  /** A page's batch, or None where converting it panics. */
  type PageConverter<!S, !T> = (Option<S>, seq<byte>) -> Option<T>

  /** What each page of a relation converts to. */
  type Conversions<T> = seq<Option<T>>

  ghost function ConversionsOf<S, T>(segs: Segments, convert: PageConverter<S, T>, snapshot: Option<S>): (c: Conversions<T>)
    ensures |c| == NumPages(segs)
    ensures forall b :: 0 <= b < |c| ==> c[b] == convert(snapshot, PageAt(segs, b))
  {
    seq(NumPages(segs), b requires 0 <= b < NumPages(segs) => convert(snapshot, PageAt(segs, b)))
  }

  ghost predicate AllConvert<T>(batches: Conversions<T>, a: nat, b: nat) {
    (a < b ==> b <= |batches|) && forall i :: a <= i < b ==> batches[i].Some?
  }

  /** The conversions of pages `a, ..., b - 1`, in order. */
  ghost function Pages<T>(batches: Conversions<T>, a: nat, b: nat): (r: seq<T>)
    requires AllConvert(batches, a, b)
    ensures |r| == SatSub(b, a)
  {
    if a >= b then [] else Pages(batches, a, b - 1) + [batches[b - 1].value]
  }

  lemma {:induction false} PageOf<T>(batches: Conversions<T>, a: nat, b: nat, i: nat)
    requires AllConvert(batches, a, b) && i < SatSub(b, a)
    ensures Pages(batches, a, b)[i] == batches[a + i].value
  {
    if a + i < b - 1 {
      PageOf(batches, a, b - 1, i);
    }
  }

  lemma {:induction false} PagesConcatenate<T>(batches: Conversions<T>, a: nat, b: nat, c: nat)
    requires a <= b <= c && AllConvert(batches, a, c)
    ensures Pages(batches, a, b) + Pages(batches, b, c) == Pages(batches, a, c)
  {
    if b < c {
      PagesConcatenate(batches, a, b, c - 1);
      assert Pages(batches, a, b) + (Pages(batches, b, c - 1) + [batches[c - 1].value]) ==
             Pages(batches, a, b) + Pages(batches, b, c - 1) + [batches[c - 1].value];
    }
  }

  /** Of the pages from `start` up to `end`, those before `next` have been read: what was
      yielded, then the buffer, are their conversions in order. */
  ghost predicate Progress<T>(batches: Conversions<T>, start: nat, next: nat, end: nat, yielded: seq<T>, buffer: seq<T>) {
    && start <= next && (next > start ==> next <= end)
    && AllConvert(batches, start, next)
    && yielded + buffer == Pages(batches, start, next)
  }

  lemma ReadOn<T>(batches: Conversions<T>, start: nat, next: nat, end: nat, yielded: seq<T>, buffer: seq<T>, n: nat)
    requires Progress(batches, start, next, end, yielded, buffer)
    requires AllConvert(batches, next, next + n) && (n > 0 ==> next + n <= end)
    ensures Progress(batches, start, next + n, end, yielded, buffer + Pages(batches, next, next + n))
  {
    PagesConcatenate(batches, start, next, next + n);
    assert yielded + (buffer + Pages(batches, next, next + n)) == yielded + buffer + Pages(batches, next, next + n);
  }

  /** What a stream over pages [a, b) yields: the conversions of those that exist. */
  ghost function Range<T>(batches: Conversions<T>, a: nat, b: nat): seq<T>
    requires AllConvert(batches, a, Min(b, |batches|))
  {
    Pages(batches, a, Min(b, |batches|))
  }

  /** Streams over adjacent ranges yield together what one stream over both does. */
  lemma RangesConcatenate<T>(batches: Conversions<T>, a: nat, b: nat, c: nat)
    requires a <= b <= c && AllConvert(batches, a, Min(c, |batches|))
    ensures Range(batches, a, b) + Range(batches, b, c) == Range(batches, a, c)
  {
    if b <= |batches| {
      PagesConcatenate(batches, a, b, Min(c, |batches|));
    }
  }

  lemma PageOfBulk(segs: Segments, start: nat, n: nat, i: nat)
    requires i < n && start + n <= NumPages(segs)
    ensures PagesFrom(segs, start, n)[i * PAGE_SIZE..(i + 1) * PAGE_SIZE] == PageAt(segs, start + i)
  {
  }

  /** `batches` is what the pages of `segs` convert to. The quantifier keeps this folded. */
  ghost predicate ConvertsTo<S, T>(batches: Conversions<T>, segs: Segments, convert: PageConverter<S, T>,
                                   snapshot: Option<S>)
  {
    forall u: nat {:trigger Here(u, 0)} :: Here(u, 0) ==> batches == ConversionsOf(segs, convert, snapshot)
  }

  class RecordBatchStream<S, T> {
    const reader: TableFileReader
    const convert: PageConverter<S, T>
    var pagesPerBatch: nat
    var nextPageIndex: nat
    var maxPageIndex: Option<nat>
    var buffer: seq<T>
    var exhausted: bool
    var snapshot: Option<S>
    ghost var batches: Conversions<T>
    ghost var start: nat
    ghost var yielded: seq<T>

    /** One past the last page this stream is to yield. */
    ghost function End(): nat
      reads this
    {
      if maxPageIndex.Some? then Min(maxPageIndex.value, |batches|) else |batches|
    }

    ghost predicate Backed()
      reads this, reader
    {
      reader.Valid() && ConvertsTo(batches, reader.kernel.segs, convert, snapshot)
    }

    /** An exhausted stream over a faithful kernel has no page left. */
    ghost predicate Valid()
      reads this, reader
    {
      && Backed() && pagesPerBatch > 0
      && Progress(batches, start, nextPageIndex, End(), yielded, buffer)
      && (exhausted && reader.kernel.faithful ==> End() <= nextPageIndex)
    }

    constructor (reader: TableFileReader, convert: PageConverter<S, T>)
      requires reader.Valid()
      ensures Valid() && Fresh() && this.reader == reader && this.convert == convert
      ensures start == 0 && maxPageIndex == None && snapshot == None && pagesPerBatch == 128
    {
      this.reader, this.convert := reader, convert;
      pagesPerBatch, nextPageIndex, maxPageIndex := DEFAULT_PAGES_PER_BATCH, 0, None;
      buffer, exhausted, snapshot := [], false, None;
      start, yielded := 0, [];
      batches := ConversionsOf(reader.kernel.segs, convert, None);
    }

    /** Nothing has been read yet. */
    ghost predicate Fresh()
      reads this
    {
      nextPageIndex == start && buffer == [] && yielded == [] && !exhausted
    }

    method WithPagesPerBatch(n: nat)
      requires Valid()
      modifies this`pagesPerBatch
      ensures Valid() && pagesPerBatch == if n == 0 then 128 else n
    {
      pagesPerBatch := if n == 0 then DEFAULT_PAGES_PER_BATCH else n;
    }

    /** Restricts the stream to pages [start, end). */
    method WithPageRange(start: nat, end: nat)
      requires Valid() && Fresh()
      modifies this`nextPageIndex, this`maxPageIndex, this`start
      ensures Valid() && Fresh() && this.start == start && maxPageIndex == Some(end)
    {
      nextPageIndex := start;
      maxPageIndex := Some(end);
      this.start := start;
    }

    method WithSnapshot(snapshot: S)
      requires Valid() && Fresh()
      modifies this`snapshot, this`batches
      ensures Valid() && Fresh() && this.snapshot == Some(snapshot)
    {
      this.snapshot := Some(snapshot);
      batches := ConversionsOf(reader.kernel.segs, convert, Some(snapshot));
    }

    method ConvertOne(bytes: seq<byte>, pagesRead: nat, i: nat) returns (batch: Option<T>)
      requires Backed() && i < pagesRead && nextPageIndex + pagesRead <= |batches|
      requires bytes == PagesFrom(reader.kernel.segs, nextPageIndex, pagesRead)
      ensures batch == batches[nextPageIndex + i]
    {
      assert Here(0, 0);
      PageOfBulk(reader.kernel.segs, nextPageIndex, pagesRead, i);
      batch := convert(snapshot, bytes[i * PAGE_SIZE..(i + 1) * PAGE_SIZE]);
    }

    /** Converts the pages of one bulk read into the buffer, up to one that panics. */
    method ConvertPages(bytes: seq<byte>, pagesRead: nat) returns (e: Option<PgError>)
      requires Backed() && nextPageIndex + pagesRead <= |batches|
      requires bytes == PagesFrom(reader.kernel.segs, nextPageIndex, pagesRead)
      modifies this`buffer
      ensures AllConvert(batches, nextPageIndex, nextPageIndex + pagesRead) <==> e.None?
      ensures e.None? ==> buffer == old(buffer) + Pages(batches, nextPageIndex, nextPageIndex + pagesRead)
      ensures e.Some? ==> e.value == Panic
    {
      for i := 0 to pagesRead
        invariant AllConvert(batches, nextPageIndex, nextPageIndex + i)
        invariant buffer == old(buffer) + Pages(batches, nextPageIndex, nextPageIndex + i)
      {
        var batch := ConvertOne(bytes, pagesRead, i);
        if batch.None? {
          return Some(Panic);
        }
        buffer := buffer + [batch.value];
      }
      return None;
    }

    /** One bulk read of up to `want` pages, converted into the buffer. */
    method LoadPages(want: nat) returns (pagesRead: nat, e: Option<PgError>)
      requires Backed()
      modifies this`buffer, reader
      ensures Backed() && pagesRead <= want && (pagesRead > 0 ==> nextPageIndex + pagesRead <= |batches|)
      ensures reader.kernel.faithful ==> pagesRead == Min(want, SatSub(|batches|, nextPageIndex))
      ensures AllConvert(batches, nextPageIndex, nextPageIndex + pagesRead) <==> e.None?
      ensures e.None? ==> buffer == old(buffer) + Pages(batches, nextPageIndex, nextPageIndex + pagesRead)
      ensures e.Some? ==> e.value == Panic
    {
      assert Here(0, 0);
      var bytes;
      bytes, pagesRead := reader.ReadPagesBulk(nextPageIndex, want);
      if pagesRead == 0 {
        return 0, None;
      }
      e := ConvertPages(bytes, pagesRead);
    }

    /** How many pages to read next. */
    function Want(): nat
      reads this
    {
      if maxPageIndex.Some? then Min(pagesPerBatch, SatSub(maxPageIndex.value, nextPageIndex)) else pagesPerBatch
    }

    method ReadBatch() returns (e: Option<PgError>)
      requires Valid() && Want() > 0
      modifies this`nextPageIndex, this`buffer, this`exhausted, reader
      ensures Filled(old(nextPageIndex), e)
      ensures reader.kernel.faithful && e.None? ==> ReadUpTo(old(nextPageIndex))
    {
      var want := Want();
      var pagesRead;
      pagesRead, e := LoadPages(want);
      if e.Some? {
        return e;
      }
      ReadOn(batches, start, nextPageIndex, End(), yielded, old(buffer), pagesRead);
      nextPageIndex := nextPageIndex + pagesRead;
      if pagesRead < want {
        exhausted := true;
      }
    }

    /** After filling the buffer from page `from`: more pages or none left; or a page panicked. */
    ghost predicate Filled(from: nat, e: Option<PgError>)
      reads this, reader
    {
      match e
      case None => Valid() && nextPageIndex >= from && (exhausted || nextPageIndex > from)
      case Some(error) => error == Panic && !AllConvert(batches, from, End())
    }

    /** From page `from` on, as many pages as a batch has, or all that are left. */
    ghost predicate ReadUpTo(from: nat)
      reads this
    {
      nextPageIndex == from + Min(pagesPerBatch, SatSub(End(), from))
    }

    /** Reads and converts the next batch of pages. */
    method FillBuffer() returns (e: Option<PgError>)
      requires Valid()
      modifies this`nextPageIndex, this`buffer, this`exhausted, reader
      ensures Filled(old(nextPageIndex), e)
      ensures reader.kernel.faithful && !old(exhausted) && e.None? ==> ReadUpTo(old(nextPageIndex))
    {
      if exhausted {
        return None;
      }
      if Want() == 0 {
        exhausted := true;
        return None;
      }
      e := ReadBatch();
    }

    /** `buffer.drain(..)` */
    method DrainBuffer() returns (all: seq<T>)
      requires Valid()
      modifies this`buffer, this`yielded
      ensures Valid() && all == old(buffer) && buffer == [] && yielded == old(yielded) + all
    {
      all := buffer;
      assert yielded + buffer + [] == yielded + buffer;
      yielded := yielded + buffer;
      buffer := [];
    }

    /** One batch of pages, all at once: what a blocking task does. */
    method FillAndDrain() returns (all: seq<T>, e: Option<PgError>)
      requires Valid() && buffer == []
      modifies this`nextPageIndex, this`buffer, this`exhausted, this`yielded, reader
      ensures match e
              case None => Valid() && buffer == [] && yielded == old(yielded) + all && (all == [] ==> exhausted)
              case Some(error) => error == Panic && !AllConvert(batches, start, End())
    {
      all := [];
      e := FillBuffer();
      if e.None? {
        all := DrainBuffer();
      }
    }

    /** Serves the buffer, refilling it when it is empty. Over a faithful kernel, the k-th
        call yields the conversion of page `start + k`, whatever the batch size, and then
        None for good. */
    method Next() returns (r: Option<Result<T>>)
      requires Valid()
      modifies this`nextPageIndex, this`buffer, this`exhausted, this`yielded, reader
      ensures match r
              case None => Valid() && exhausted && buffer == [] && yielded == old(yielded)
              case Some(Ok(batch)) => Valid() && yielded == old(yielded) + [batch]
              case Some(Err(e)) => e == Panic && !AllConvert(batches, start, End())
      ensures old(exhausted && buffer == []) ==> r == None && unchanged(this, reader)
      ensures reader.kernel.faithful && AllConvert(batches, start, End()) ==>
                r == Upcoming(batches, start + |old(yielded)|, End())
    {
      if buffer == [] {
        if exhausted {
          return None;
        }
        var e := FillBuffer();
        if e.Some? {
          return Some(Err(e.value));
        }
        if buffer == [] {
          return None;
        }
      }
      NextInBuffer(batches, start, nextPageIndex, End(), yielded, buffer);
      r := Some(Ok(buffer[0]));
      yielded := yielded + [buffer[0]];
      buffer := buffer[1..];
    }
  }

  /** The conversion of page `i`, if it is before `end`. */
  ghost function Upcoming<T>(batches: Conversions<T>, i: nat, end: nat): Option<Result<T>>
    requires AllConvert(batches, i, end)
  {
    if i < end then Some(Ok(batches[i].value)) else None
  }

  lemma NextInBuffer<T>(batches: Conversions<T>, start: nat, next: nat, end: nat, yielded: seq<T>, buffer: seq<T>)
    requires Progress(batches, start, next, end, yielded, buffer) && buffer != []
    ensures start + |yielded| < next && batches[start + |yielded|] == Some(buffer[0])
    ensures Progress(batches, start, next, end, yielded + [buffer[0]], buffer[1..])
  {
    PageOf(batches, start, next, |yielded|);
    assert yielded + [buffer[0]] + buffer[1..] == yielded + buffer;
  }

  /** `for result in &mut stream { all.push(result?) }`: one full run. */
  method Drain<S, T>(stream: RecordBatchStream<S, T>) returns (r: Result<seq<T>>)
    requires stream.Valid() && stream.Fresh()
    modifies stream, stream.reader
    ensures stream.start == old(stream.start) && stream.maxPageIndex == old(stream.maxPageIndex)
    ensures stream.batches == old(stream.batches)
    ensures r.Ok? ==>
              && stream.Valid() && stream.exhausted && stream.buffer == []
              && AllConvert(stream.batches, stream.start, stream.start + |r.value|)
              && r.value == Pages(stream.batches, stream.start, stream.start + |r.value|)
    ensures stream.reader.kernel.faithful ==>
              if AllConvert(stream.batches, stream.start, stream.End()) then
                r == Ok(Range(stream.batches, stream.start, stream.End()))
              else r == Err(Panic)
  {
    var all: seq<T> := [];
    while true
      invariant stream.Valid() && all == stream.yielded
      invariant stream.start == old(stream.start) && stream.maxPageIndex == old(stream.maxPageIndex)
      invariant stream.batches == old(stream.batches)
      decreases Max(stream.End() - stream.start, 0) - |all|
    {
      var result := stream.Next();
      if result.None? {
        return Ok(all);
      }
      if result.value.Err? {
        return Err(result.value.error);
      }
      all := all + [result.value.value];
      assert |all| <= stream.nextPageIndex - stream.start;
    }
  }

  /** A stream over pages [a, b), configured as asked. */
  method OpenRange<S, T>(reader: TableFileReader, convert: PageConverter<S, T>, snapshot: Option<S>,
                         pagesPerBatch: nat, a: nat, b: nat)
    returns (stream: RecordBatchStream<S, T>)
    requires reader.Valid()
    ensures fresh(stream) && stream.Valid() && stream.Fresh() && stream.reader == reader
    ensures stream.start == a && stream.maxPageIndex == Some(b)
    ensures stream.batches == ConversionsOf(reader.kernel.segs, convert, snapshot)
  {
    stream := new RecordBatchStream(reader, convert);
    stream.WithPagesPerBatch(pagesPerBatch);
    stream.WithPageRange(a, b);
    if snapshot.Some? {
      stream.WithSnapshot(snapshot.value);
    }
    assert Here(0, 0);
  }

  /** One run over pages [a, b): the result does not depend on the batch size. */
  method ReadRange<S, T>(reader: TableFileReader, convert: PageConverter<S, T>, snapshot: Option<S>,
                         pagesPerBatch: nat, a: nat, b: nat)
    returns (r: Result<seq<T>>)
    requires reader.Valid()
    modifies reader
    ensures reader.kernel.faithful ==>
              var batches := ConversionsOf(reader.kernel.segs, convert, snapshot);
              if AllConvert(batches, a, Min(b, |batches|)) then r == Ok(Range(batches, a, b)) else r == Err(Panic)
  {
    var stream := OpenRange(reader, convert, snapshot, pagesPerBatch, a, b);
    r := Drain(stream);
  }

  method ReadAllToBatches<S, T>(reader: TableFileReader, convert: PageConverter<S, T>) returns (r: Result<seq<T>>)
    requires reader.Valid()
    modifies reader
    ensures reader.kernel.faithful ==>
              var batches := ConversionsOf(reader.kernel.segs, convert, None);
              if AllConvert(batches, 0, |batches|) then r == Ok(Pages(batches, 0, |batches|)) else r == Err(Panic)
  {
    var stream := new RecordBatchStream(reader, convert);
    assert Here(0, 0);
    r := Drain(stream);
  }
}
