/** Bulk reads through a cached segment descriptor (src/file/reader.rs:33-259). */
module BulkRead {
  import opened Base
  import opened Relation

  /** An open descriptor, and the segment it was opened from. */
  datatype File = File(segno: nat)

  /** The kernel over an unchanged relation. A faithful one opens every segment there is and
      reads in full; any other may fail or read short at any call. */
  class Kernel {
    const segs: Segments
    const faithful: bool

    constructor (segs: Segments, faithful: bool)
      ensures this.segs == segs && this.faithful == faithful
    {
      this.segs := segs;
      this.faithful := faithful;
    }

    method Open(segno: nat) returns (f: Option<File>)
      ensures f.Some? ==> segno < |segs| && f.value == File(segno)
      ensures faithful ==> (f.Some? <==> segno < |segs|)
    {
      var works :| faithful ==> works;
      return if works && segno < |segs| then Some(File(segno)) else None;
    }

    /** Fills `buf` from `at` with up to `length` bytes from `offset` of the file; -1 is an error. */
    method Pread(f: File, buf: array<byte>, at: nat, length: nat, offset: nat) returns (n: int)
      requires f.segno < |segs| && at + length <= buf.Length
      modifies buf
      ensures -1 <= n <= Min(length, SatSub(|segs[f.segno]|, offset))
      ensures faithful ==> n == Min(length, SatSub(|segs[f.segno]|, offset))
      ensures buf[..at] == old(buf[..at])
      ensures n >= 0 ==> buf[..at + n] == old(buf[..at]) + segs[f.segno][Min(offset, |segs[f.segno]|)..][..n]
    {
      var seg := segs[f.segno];
      var most := Min(length, SatSub(|seg|, offset));
      n :| -1 <= n <= most && (faithful ==> n == most);
      forall k | 0 <= k < n {
        buf[at + k] := seg[offset + k];
      }
    }
  }

  class TableFileReader {
    const kernel: Kernel
    var segmentCache: Option<(nat, File)>

    /** A cached descriptor belongs to the segment it is cached for. */
    ghost predicate Valid()
      reads this
    {
      && Relation.Valid(kernel.segs)
      && (segmentCache.Some? ==>
            var (segno, file) := segmentCache.value; segno < |kernel.segs| && file == File(segno))
    }

    constructor (kernel: Kernel)
      requires Relation.Valid(kernel.segs)
      ensures Valid() && this.kernel == kernel && segmentCache == None
    {
      this.kernel := kernel;
      segmentCache := None;
    }

    /** The descriptor for a segment, cached or opened; None when there is none to open. */
    method Descriptor(segno: nat) returns (f: Option<File>)
      requires Valid()
      modifies this
      ensures Valid()
      ensures f.Some? ==> segno < |kernel.segs| && f.value == File(segno)
      ensures kernel.faithful ==> (f.Some? <==> segno < |kernel.segs|)
    {
      if segmentCache.None? || segmentCache.value.0 != segno {
        f := kernel.Open(segno);
        if f.None? {
          return None;
        }
        segmentCache := Some((segno, f.value));
      }
      return Some(segmentCache.value.1);
    }

    /** Reads from one segment, opening it if need be; 0 or -1 when nothing was read. */
    method ReadSegment(segno: nat, offset: nat, length: nat, buf: array<byte>, at: nat) returns (n: int)
      requires Valid() && at + length <= buf.Length
      modifies this, buf
      ensures Valid() && n <= length && buf[..at] == old(buf[..at])
      ensures n > 0 ==> segno < |kernel.segs| && offset + n <= |kernel.segs[segno]|
                        && buf[..at + n] == old(buf[..at]) + kernel.segs[segno][offset..][..n]
      ensures kernel.faithful ==> Max(n, 0) == Min(length, BytesAfter(kernel.segs, segno, offset))
    {
      var fd := Descriptor(segno);
      if fd.None? {
        return 0;
      }
      n := kernel.Pread(fd.value, buf, at, length, offset);
    }

    /** One round of the bulk loop: what one segment still has of pages `pageIdx..endPage`
        goes to `buf`; `stop` when a read fell short. */
    method ReadOnce(pageIdx: nat, endPage: nat, buf: array<byte>, bufOffset: nat)
      returns (pagesRead: nat, stop: bool)
      requires Valid() && pageIdx < endPage && bufOffset + (endPage - pageIdx) * PAGE_SIZE <= buf.Length
      modifies this, buf
      ensures Valid() && pagesRead <= endPage - pageIdx && (!stop ==> pagesRead > 0)
      ensures buf[..bufOffset + pagesRead * PAGE_SIZE] ==
              old(buf[..bufOffset]) + PagesFrom(kernel.segs, pageIdx, pagesRead)
      ensures ArePages(PagesFrom(kernel.segs, pageIdx, pagesRead), kernel.segs, pageIdx, pagesRead)
      ensures kernel.faithful && stop ==> NumPages(kernel.segs) <= pageIdx + pagesRead
    {
      var segmentNum := pageIdx / PAGES_PER_SEGMENT;
      var pageInSegment := pageIdx % PAGES_PER_SEGMENT;
      var offsetInSegment := pageInSegment * PAGE_SIZE;
      var pagesToRead := Min(endPage - pageIdx, PAGES_PER_SEGMENT - pageInSegment);
      var readBytes := pagesToRead * PAGE_SIZE;
      var n := ReadSegment(segmentNum, offsetInSegment, readBytes, buf, bufOffset);
      pagesRead := Max(n, 0) / PAGE_SIZE;
      stop := n < readBytes;
      PagesRead(kernel.segs, pageIdx, pagesToRead, Max(n, 0));
      if n > 0 {
        WholePages(old(buf[..bufOffset]), kernel.segs[segmentNum][offsetInSegment..], n, pagesRead * PAGE_SIZE);
        assert buf[..bufOffset + pagesRead * PAGE_SIZE] == buf[..bufOffset + n][..bufOffset + pagesRead * PAGE_SIZE];
      }
    }

    /** The loop: round by round, until all pages are read or a read falls short. */
    method ReadLoop(start: nat, endPage: nat, buf: array<byte>) returns (pageIdx: nat)
      requires Valid() && start <= endPage && buf.Length == (endPage - start) * PAGE_SIZE
      modifies this, buf
      ensures Valid() && start <= pageIdx <= endPage
      ensures ArePages(buf[..(pageIdx - start) * PAGE_SIZE], kernel.segs, start, pageIdx - start)
      ensures kernel.faithful ==> pageIdx == endPage || NumPages(kernel.segs) <= pageIdx
    {
      var bufOffset := 0;
      pageIdx := start;
      var stop := false;
      while pageIdx < endPage && !stop
        invariant Valid() && start <= pageIdx <= endPage && bufOffset == (pageIdx - start) * PAGE_SIZE
        invariant ArePages(buf[..bufOffset], kernel.segs, start, pageIdx - start)
        invariant kernel.faithful && stop ==> NumPages(kernel.segs) <= pageIdx
        decreases endPage - pageIdx, !stop
      {
        var pagesRead;
        pagesRead, stop := ReadOnce(pageIdx, endPage, buf, bufOffset);
        PagesJoin(kernel.segs, start, pageIdx - start, pagesRead);
        bufOffset := bufOffset + pagesRead * PAGE_SIZE;
        pageIdx := pageIdx + pagesRead;
      }
    }

    /** Whole pages from `start` on: whatever the kernel does, a prefix of the `count` asked
        for; all of them that exist when reads are faithful. */
    method ReadPagesBulk(start: nat, count: nat) returns (bytes: seq<byte>, pages: nat)
      requires Valid()
      modifies this
      ensures Valid()
      ensures pages <= count && bytes == PagesFrom(kernel.segs, start, pages)
      ensures pages > 0 ==> start + pages <= NumPages(kernel.segs)
      ensures kernel.faithful ==> pages == Min(count, SatSub(NumPages(kernel.segs), start))
    {
      if count == 0 {
        return [], 0;
      }
      var buf := new byte[count * PAGE_SIZE](_ => 0);
      var pageIdx := ReadLoop(start, start + count, buf);
      pages := pageIdx - start;
      bytes := buf[..pages * PAGE_SIZE];
    }
  }

  /** Over any sequence of bulk reads, a cached descriptor changes nothing: every result is
      that of a reader which opens its segments anew for each call. */
  method CacheIsTransparent(reader: TableFileReader, requests: seq<(nat, nat)>)
    returns (cached: seq<(seq<byte>, nat)>, reopened: seq<(seq<byte>, nat)>)
    requires reader.Valid()
    modifies reader
    ensures reader.Valid() && |cached| == |reopened| == |requests|
    ensures reader.kernel.faithful ==> cached == reopened
  {
    cached, reopened := [], [];
    for i := 0 to |requests|
      invariant reader.Valid() && |cached| == |reopened| == i
      invariant reader.kernel.faithful ==> cached == reopened
    {
      var (start, count) := requests[i];
      var bytes, pages := reader.ReadPagesBulk(start, count);
      var fresh' := new TableFileReader(reader.kernel);
      var bytes', pages' := fresh'.ReadPagesBulk(start, count);
      cached, reopened := cached + [(bytes, pages)], reopened + [(bytes', pages')];
    }
  }

  /** The bytes of pages `start, ..., start + n - 1` of the flat file, if it has them. */
  ghost function PagesFrom(segs: Segments, start: nat, n: nat): seq<byte> {
    PagesOf(Flat(segs), start, n)
  }

  function PagesOf(flat: seq<byte>, start: nat, n: nat): (b: seq<byte>)
    ensures n == 0 ==> b == []
    ensures n > 0 && start + n <= |flat| / PAGE_SIZE ==> |b| == n * PAGE_SIZE
  {
    if (start + n) * PAGE_SIZE <= |flat| then flat[start * PAGE_SIZE..(start + n) * PAGE_SIZE] else []
  }

  /** `bytes` are pages `start, ..., start + n - 1`, all of which exist. */
  ghost predicate ArePages(bytes: seq<byte>, segs: Segments, start: nat, n: nat) {
    bytes == PagesFrom(segs, start, n) && |bytes| == n * PAGE_SIZE && (n > 0 ==> start + n <= NumPages(segs))
  }

  lemma PagesJoin(segs: Segments, start: nat, n: nat, more: nat)
    requires ArePages(PagesFrom(segs, start, n), segs, start, n)
    requires ArePages(PagesFrom(segs, start + n, more), segs, start + n, more)
    ensures ArePages(PagesFrom(segs, start, n) + PagesFrom(segs, start + n, more), segs, start, n + more)
  {
    if more > 0 {
      var flat := Flat(segs);
      var a, b, c := start * PAGE_SIZE, (start + n) * PAGE_SIZE, (start + n + more) * PAGE_SIZE;
      assert flat[a..b] + flat[b..c] == flat[a..c];
    }
  }

  ghost function BytesAfter(segs: Segments, s: nat, offset: nat): nat {
    if s < |segs| then SatSub(|segs[s]|, offset) else 0
  }

  /** What `n` bytes read for up to `most` pages from `page` on amount to. */
  lemma PagesRead(segs: Segments, page: nat, most: nat, n: nat)
    requires Relation.Valid(segs) && n <= most * PAGE_SIZE && most <= PAGES_PER_SEGMENT - page % PAGES_PER_SEGMENT
    ensures var (s, at, k) := (page / PAGES_PER_SEGMENT, page % PAGES_PER_SEGMENT * PAGE_SIZE, n / PAGE_SIZE);
            && (k > 0 && n <= BytesAfter(segs, s, at) ==>
                  page + k <= NumPages(segs) && PagesFrom(segs, page, k) == segs[s][at..][..k * PAGE_SIZE])
            && (n < most * PAGE_SIZE && n == BytesAfter(segs, s, at) ==> NumPages(segs) <= page + k)
  {
    var (s, at, k) := (page / PAGES_PER_SEGMENT, page % PAGES_PER_SEGMENT * PAGE_SIZE, n / PAGE_SIZE);
    PageInSegment(segs, page, k * PAGE_SIZE);
  }

  /** Dropping a torn page at the end of a read. */
  lemma WholePages(before: seq<byte>, file: seq<byte>, n: nat, whole: nat)
    requires whole <= n <= |file|
    ensures (before + file[..n])[..|before| + whole] == before + file[..whole]
  {
  }
}
