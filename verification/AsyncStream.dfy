/** The async wrapper: one blocking task per batch of pages (src/file/reader.rs:662-775). */
module AsyncStream {
  import opened Base
  import opened Relation
  import opened BulkRead
  import opened Stream

  class AsyncBatchStream<S, T> {
    /** The synchronous stream, while a task has not lost it by panicking. */
    var inner: Option<RecordBatchStream<S, T>>
    var buffer: seq<T>
    var exhausted: bool
    ghost const stream: RecordBatchStream<S, T>
    ghost var yielded: seq<T>

    /** Between calls the inner stream's buffer is empty: what it handed out was yielded, or
        waits in this buffer. This stream ends no earlier than the inner one. */
    ghost predicate Valid()
      reads this, stream, stream.reader
    {
      && (inner.None? ==> exhausted && buffer == [])
      && (inner.Some? ==>
            && inner.value == stream && stream.Valid() && stream.buffer == []
            && yielded + buffer == stream.yielded && (exhausted ==> stream.exhausted && buffer == []))
    }

    ghost predicate Fresh()
      reads this, stream
    {
      inner.Some? && buffer == [] && yielded == [] && !exhausted && stream.Fresh()
    }

    constructor (reader: TableFileReader, convert: PageConverter<S, T>)
      requires reader.Valid()
      ensures Valid() && Fresh() && fresh(stream) && stream.reader == reader && stream.convert == convert
      ensures stream.start == 0 && stream.maxPageIndex == None && stream.snapshot == None
    {
      var s := new RecordBatchStream(reader, convert);
      inner, stream := Some(s), s;
      buffer, exhausted, yielded := [], false, [];
    }

    method WithPagesPerBatch(n: nat)
      requires Valid()
      modifies stream`pagesPerBatch
      ensures Valid()
      ensures inner.Some? ==> stream.pagesPerBatch == if n == 0 then 128 else n
    {
      if inner.Some? {
        inner.value.WithPagesPerBatch(n);
      }
    }

    method WithPageRange(start: nat, end: nat)
      requires Valid() && Fresh()
      modifies stream`nextPageIndex, stream`maxPageIndex, stream`start
      ensures Valid() && Fresh() && stream.start == start && stream.maxPageIndex == Some(end)
    {
      inner.value.WithPageRange(start, end);
    }

    method WithSnapshot(snapshot: S)
      requires Valid() && Fresh()
      modifies stream`snapshot, stream`batches
      ensures Valid() && Fresh() && stream.snapshot == Some(snapshot)
    {
      inner.value.WithSnapshot(snapshot);
    }

    /** Over a faithful kernel, the k-th call yields what the k-th call of the synchronous
        stream does. A panicking page becomes one error, and the end. */
    method NextBatch() returns (r: Option<Result<T>>)
      requires Valid()
      modifies this, stream, stream.reader
      ensures Valid()
      ensures stream.batches == old(stream.batches) && stream.start == old(stream.start)
      ensures stream.maxPageIndex == old(stream.maxPageIndex)
      ensures match r
              case None => exhausted && buffer == [] && yielded == old(yielded)
              case Some(Ok(batch)) => yielded == old(yielded) + [batch]
              case Some(Err(e)) => && exhausted && e == DecodeError
                                   && !AllConvert(stream.batches, stream.start, stream.End())
      ensures old(exhausted && buffer == []) ==> r == None && unchanged(this, stream, stream.reader)
      ensures old(inner.Some?) && stream.reader.kernel.faithful
              && AllConvert(stream.batches, stream.start, stream.End()) ==>
                inner.Some? && r == Upcoming(stream.batches, stream.start + |old(yielded)|, stream.End())
    {
      if buffer != [] {
        r := PopFront();
        return;
      }
      if exhausted {
        return None;
      }
      var e := Refill();
      if e.Some? {
        return Some(Err(e.value));
      }
      if buffer == [] {
        return None;
      }
      r := PopFront();
    }

    /** The blocking task takes the inner stream, fills and drains its buffer, and gives it
        back. */
    method Refill() returns (e: Option<PgError>)
      requires Valid() && !exhausted && buffer == []
      modifies this`inner, this`buffer, this`exhausted
      modifies stream`nextPageIndex, stream`buffer, stream`exhausted, stream`yielded, stream.reader
      ensures Valid() && (exhausted ==> buffer == [])
      ensures match e
              case None => inner.Some? && (buffer == [] ==> exhausted)
              case Some(error) => inner.None? && error == DecodeError
                                  && !AllConvert(stream.batches, stream.start, stream.End())
    {
      var task := inner.value;
      inner := None;
      var batches, panic := task.FillAndDrain();
      if panic.Some? {
        exhausted := true;  // the task's stream is gone
        return Some(DecodeError);
      }
      buffer := batches;
      inner := Some(task);
      exhausted := task.exhausted && buffer == [];
      return None;
    }

    method PopFront() returns (r: Option<Result<T>>)
      requires Valid() && buffer != []
      modifies this`buffer, this`yielded
      ensures Valid() && r == Some(Ok(old(buffer[0]))) && yielded == old(yielded) + [r.value.value]
      ensures stream.start + |old(yielded)| < stream.End()
      ensures stream.batches[stream.start + |old(yielded)|] == Some(old(buffer[0]))
    {
      NextInBuffer(stream.batches, stream.start, stream.nextPageIndex, stream.End(), yielded, buffer);
      r := Some(Ok(buffer[0]));
      assert yielded + [buffer[0]] + buffer[1..] == yielded + buffer;
      yielded := yielded + [buffer[0]];
      buffer := buffer[1..];
    }
  }

  /** What `n` calls on a stream over pages [start, end) return. */
  ghost function Calls<T>(batches: Conversions<T>, start: nat, end: nat, n: nat): (r: seq<Option<Result<T>>>)
    requires AllConvert(batches, start, end)
    ensures |r| == n && forall k :: 0 <= k < n ==> r[k] == Upcoming(batches, start + k, end)
  {
    if n == 0 then [] else Calls(batches, start, end, n - 1) + [Upcoming(batches, start + n - 1, end)]
  }

  /** Any number of calls on the synchronous stream ... */
  method SyncCalls<S, T>(stream: RecordBatchStream<S, T>, n: nat) returns (r: seq<Option<Result<T>>>)
    requires stream.Valid() && stream.Fresh() && stream.reader.kernel.faithful
    requires AllConvert(stream.batches, stream.start, stream.End())
    modifies stream, stream.reader
    ensures r == old(Calls(stream.batches, stream.start, stream.End(), n))
  {
    r := [];
    for k := 0 to n
      invariant stream.Valid() && stream.batches == old(stream.batches)
      invariant stream.start == old(stream.start) && stream.maxPageIndex == old(stream.maxPageIndex)
      invariant |stream.yielded| == Min(k, Max(stream.End() - stream.start, 0))
      invariant r == old(Calls(stream.batches, stream.start, stream.End(), k))
    {
      var x := stream.Next();
      r := r + [x];
    }
  }

  /** ... and on the async one return the same. */
  method AsyncCalls<S, T>(async: AsyncBatchStream<S, T>, n: nat) returns (r: seq<Option<Result<T>>>)
    requires async.Valid() && async.Fresh() && async.stream.reader.kernel.faithful
    requires AllConvert(async.stream.batches, async.stream.start, async.stream.End())
    modifies async, async.stream, async.stream.reader
    ensures r == old(Calls(async.stream.batches, async.stream.start, async.stream.End(), n))
  {
    ghost var stream := async.stream;
    r := [];
    for k := 0 to n
      invariant async.Valid() && async.inner.Some? && stream.batches == old(stream.batches)
      invariant stream.start == old(stream.start) && stream.maxPageIndex == old(stream.maxPageIndex)
      invariant |async.yielded| == Min(k, Max(stream.End() - stream.start, 0))
      invariant r == old(Calls(stream.batches, stream.start, stream.End(), k))
    {
      var x := async.NextBatch();
      r := r + [x];
    }
  }
}
