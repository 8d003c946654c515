/** A relation on disk: 1 GiB segment files behind one flat sequence of pages
    (src/file/reader.rs:60-170). */
module Relation {
  import opened Base

  const PAGES_PER_SEGMENT := 0x2_0000
  const SEGMENT_SIZE := 0x4000_0000  // PAGES_PER_SEGMENT * PAGE_SIZE

  /** The contents of segment files 0, 1, 2, ... */
  type Segments = seq<seq<byte>>

  /** As the server keeps them: full up to the last one in use, and empty after it. */
  ghost predicate Valid(segs: Segments) {
    forall s :: 0 <= s < |segs| ==>
      && |segs[s]| <= SEGMENT_SIZE
      && (s + 1 < |segs| && segs[s + 1] != [] ==> |segs[s]| == SEGMENT_SIZE)
  }

  ghost function Flat(segs: Segments): seq<byte> {
    if segs == [] then [] else segs[0] + Flat(segs[1..])
  }

  ghost function NumPages(segs: Segments): nat { |Flat(segs)| / PAGE_SIZE }

  ghost function PageAt(segs: Segments, page: nat): seq<byte>
    requires page < NumPages(segs)
  {
    Flat(segs)[page * PAGE_SIZE..(page + 1) * PAGE_SIZE]
  }

  /** Segment `s` sits at `s` GiB of the flat file. */
  lemma {:induction false} SegmentInFlat(segs: Segments, s: nat)
    requires Valid(segs) && s < |segs| && segs[s] != []
    ensures s * 0x4000_0000 + |segs[s]| <= |Flat(segs)|
    ensures Flat(segs)[s * 0x4000_0000..s * 0x4000_0000 + |segs[s]|] == segs[s]
  {
    if s > 0 {
      SegmentsBeforeAreFull(segs, s, 0);
      SegmentInFlat(segs[1..], s - 1);
      var (rest, at) := (Flat(segs[1..]), (s - 1) * SEGMENT_SIZE);
      assert (segs[0] + rest)[SEGMENT_SIZE + at..SEGMENT_SIZE + at + |segs[s]|] == rest[at..at + |segs[s]|];
    }
  }

  lemma {:induction false} SegmentsBeforeAreFull(segs: Segments, s: nat, k: nat)
    requires Valid(segs) && k < s < |segs| && segs[s] != []
    ensures |segs[k]| == SEGMENT_SIZE
    decreases s - k
  {
    if k + 1 < s {
      SegmentsBeforeAreFull(segs, s, k + 1);
    }
  }

  lemma {:induction false} EmptySegments(segs: Segments)
    requires Valid(segs) && (segs != [] ==> segs[0] == [])
    ensures Flat(segs) == []
  {
    if |segs| > 1 {
      EmptySegments(segs[1..]);
    }
  }

  /** The flat file ends in the first segment that is short or missing. */
  lemma {:induction false} FlatEnds(segs: Segments, s: nat)
    requires Valid(segs) && (s < |segs| ==> |segs[s]| < SEGMENT_SIZE)
    ensures |Flat(segs)| <= s * SEGMENT_SIZE + if s < |segs| then |segs[s]| else 0
    decreases s
  {
    if segs != [] {
      if s == 0 {
        EmptySegments(segs[1..]);
      } else {
        FlatEnds(segs[1..], s - 1);
      }
    }
  }

  /** Where get_page_file_and_offset sends a page: its segment, and the offset in it. */
  lemma PageInSegment(segs: Segments, page: nat, length: nat)
    requires Valid(segs)
    ensures page / PAGES_PER_SEGMENT == page / 131_072 && page % PAGES_PER_SEGMENT == page % 131_072
    ensures var (s, at) := (page / PAGES_PER_SEGMENT, page % PAGES_PER_SEGMENT * PAGE_SIZE);
            && at + 8192 <= SEGMENT_SIZE == 0x4000_0000
            && (s < |segs| && 0 < length <= |segs[s]| - at ==>
                  && page * PAGE_SIZE + length <= |Flat(segs)|
                  && Flat(segs)[page * PAGE_SIZE..page * PAGE_SIZE + length] == segs[s][at..at + length])
            && (s >= |segs| ==> |Flat(segs)| <= page * PAGE_SIZE)
            && (s < |segs| && |segs[s]| < SEGMENT_SIZE ==>
                  |Flat(segs)| <= page * PAGE_SIZE + SatSub(|segs[s]|, at))
  {
    var (s, at) := (page / PAGES_PER_SEGMENT, page % PAGES_PER_SEGMENT * PAGE_SIZE);
    assert page * PAGE_SIZE == s * SEGMENT_SIZE + at;
    if s < |segs| && 0 < length <= |segs[s]| - at {
      SegmentInFlat(segs, s);
      SliceOfSlice(Flat(segs), s * SEGMENT_SIZE, |segs[s]|, at, length);
    }
    if s >= |segs| || |segs[s]| < SEGMENT_SIZE {
      FlatEnds(segs, s);
    }
  }

  datatype SegmentSize = SegmentSize(bytes: nat, pages: nat)

  /** A full segment has all its pages; after a short one the relation has ended. */
  lemma NextSegment(segs: Segments, segno: nat)
    requires Valid(segs) && segno < |segs|
    ensures |Flat(segs[segno..])| == |segs[segno]| + |Flat(segs[segno + 1..])|
    ensures if |segs[segno]| / PAGE_SIZE < PAGES_PER_SEGMENT then Flat(segs[segno + 1..]) == []
            else |segs[segno]| == SEGMENT_SIZE
  {
    assert segs[segno..][0] == segs[segno] && segs[segno..][1..] == segs[segno + 1..];
    if |segs[segno]| / PAGE_SIZE < PAGES_PER_SEGMENT {
      EmptySegments(segs[segno + 1..]);
    }
  }

  lemma WholeSegments(segno: nat, bytes: nat)
    ensures (segno * SEGMENT_SIZE + bytes) / PAGE_SIZE == segno * PAGES_PER_SEGMENT + bytes / PAGE_SIZE
  {
  }

  /** Walks segments 0, 1, 2, ... until one is short or missing. */
  method SegmentSizes(segs: Segments) returns (out: seq<SegmentSize>)
    ensures |out| <= |segs|
    ensures forall s :: 0 <= s < |out| ==> out[s] == SegmentSize(|segs[s]|, |segs[s]| / PAGE_SIZE)
    ensures forall s :: 0 <= s < |out| - 1 ==> out[s].pages >= PAGES_PER_SEGMENT
    ensures |out| < |segs| ==> out != [] && out[|out| - 1].pages < PAGES_PER_SEGMENT
    ensures Valid(segs) ==> Total(out) == NumPages(segs)
  {
    out := [];
    var segno := 0;
    while segno < |segs|
      invariant segno == |out| <= |segs|
      invariant forall s :: 0 <= s < segno ==> out[s] == SegmentSize(|segs[s]|, |segs[s]| / PAGE_SIZE)
      invariant forall s :: 0 <= s < segno ==> out[s].pages >= PAGES_PER_SEGMENT
      invariant Valid(segs) ==> Total(out) == segno * PAGES_PER_SEGMENT
      invariant Valid(segs) ==> |Flat(segs)| == segno * SEGMENT_SIZE + |Flat(segs[segno..])|
    {
      var pages := |segs[segno]| / PAGE_SIZE;
      TotalAppend(out, SegmentSize(|segs[segno]|, pages));
      if Valid(segs) {
        NextSegment(segs, segno);
        WholeSegments(segno, |segs[segno]|);
      }
      out := out + [SegmentSize(|segs[segno]|, pages)];
      if pages < PAGES_PER_SEGMENT {
        return;
      }
      segno := segno + 1;
    }
    assert segs[segno..] == [];
    WholeSegments(segno, 0);
  }

  function Total(sizes: seq<SegmentSize>): nat {
    if sizes == [] then 0 else sizes[0].pages + Total(sizes[1..])
  }

  lemma {:induction false} TotalAppend(sizes: seq<SegmentSize>, last: SegmentSize)
    ensures Total(sizes + [last]) == Total(sizes) + last.pages
  {
    if sizes != [] {
      assert (sizes + [last])[1..] == sizes[1..] + [last];
      TotalAppend(sizes[1..], last);
    }
  }

  ghost function PagesUpToShort(segs: Segments): nat {
    if segs == [] then 0
    else if |segs[0]| / PAGE_SIZE < PAGES_PER_SEGMENT then |segs[0]| / PAGE_SIZE
    else |segs[0]| / PAGE_SIZE + PagesUpToShort(segs[1..])
  }

  /** mdnblocks: whole pages of the segments up to the first short one, and for a relation as
      the server keeps it, of the whole flat file, a torn trailing page excluded. */
  method CountPages(segs: Segments) returns (n: nat)
    ensures n == PagesUpToShort(segs)
    ensures Valid(segs) ==> n == NumPages(segs)
  {
    var sizes := SegmentSizes(segs);
    n := 0;
    for s := 0 to |sizes|
      invariant n + Total(sizes[s..]) == Total(sizes)
    {
      assert sizes[s..][1..] == sizes[s + 1..];
      n := n + sizes[s].pages;
    }
    SizesTotal(segs, sizes);
  }

  lemma {:induction false} SizesTotal(segs: Segments, sizes: seq<SegmentSize>)
    requires |sizes| <= |segs|
    requires forall s :: 0 <= s < |sizes| ==> sizes[s].pages == |segs[s]| / PAGE_SIZE
    requires forall s :: 0 <= s < |sizes| - 1 ==> sizes[s].pages >= PAGES_PER_SEGMENT
    requires |sizes| < |segs| ==> sizes != [] && sizes[|sizes| - 1].pages < PAGES_PER_SEGMENT
    ensures Total(sizes) == PagesUpToShort(segs)
  {
    if segs != [] {
      if |sizes| == 1 {
        assert sizes[1..] == [];
        if |segs| == 1 { assert segs[1..] == []; }
      } else {
        SizesTotal(segs[1..], sizes[1..]);
      }
    }
  }
}
