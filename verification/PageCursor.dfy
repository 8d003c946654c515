/** The sequential page cursor (src/file/reader.rs:178-193, 261-306). */
module PageCursor {
  import opened Base
  import opened Relation
  import opened Page

  /** A buffered reader over one segment file, `pos` bytes in. */
  datatype Cursor = Cursor(segno: nat, pos: nat)

  /** A whole page is left in the cursor's segment. */
  predicate HasPage(segs: Segments, c: Cursor) { c.segno < |segs| && c.pos + PAGE_SIZE <= |segs[c.segno]| }

  /** The page the cursor stands at, counted over the relation. */
  function BlockOf(c: Cursor): nat { c.segno * PAGES_PER_SEGMENT + c.pos / PAGE_SIZE }

  function CursorAt(page: nat): Cursor {
    Cursor(page / PAGES_PER_SEGMENT, page % PAGES_PER_SEGMENT * PAGE_SIZE)
  }

  /** Just after `page`. */
  function CursorAfter(page: nat): Cursor {
    var c := CursorAt(page);
    c.(pos := c.pos + PAGE_SIZE)
  }

  /** The page that asking for `page` really serves: the next one in the open segment, and
      only without one the page asked for. */
  ghost function Served(segs: Segments, cursor: Option<Cursor>, page: nat): Option<nat> {
    if cursor.Some? && HasPage(segs, cursor.value) then Some(BlockOf(cursor.value))
    else if page < NumPages(segs) then Some(page)
    else None
  }

  /** A page exists exactly when a cursor placed at it has a whole page. */
  lemma CursorFindsPage(segs: Segments, page: nat)
    requires Relation.Valid(segs)
    ensures HasPage(segs, CursorAt(page)) <==> page < NumPages(segs)
    ensures HasPage(segs, CursorAt(page)) ==>
              var c := CursorAt(page); segs[c.segno][c.pos..c.pos + PAGE_SIZE] == PageAt(segs, page)
    ensures BlockOf(CursorAt(page)) == page
  {
    PageInSegment(segs, page, PAGE_SIZE);
  }

  class PageReader {
    const segs: Segments
    var instance: Option<Cursor>

    /** An open cursor stands at a page boundary, unless no whole page is left for it. */
    ghost predicate Valid()
      reads this
    {
      && Relation.Valid(segs)
      && (instance.Some? ==> instance.value.segno < |segs|)
      && (instance.Some? && HasPage(segs, instance.value) ==> instance.value.pos % PAGE_SIZE == 0)
    }

    constructor (segs: Segments)
      requires Relation.Valid(segs)
      ensures Valid() && this.segs == segs && instance == None
    {
      this.segs := segs;
      instance := None;
    }

    /** get_reader: opens the page's segment and seeks to the page. */
    method GetReader(page: nat) returns (c: Option<Cursor>)
      requires Relation.Valid(segs)
      ensures c == if page / PAGES_PER_SEGMENT < |segs| then Some(CursorAt(page)) else None
      ensures c.Some? ==> CursorAt(page).pos % PAGE_SIZE == 0 && BlockOf(CursorAt(page)) == page
      ensures HasPage(segs, CursorAt(page)) <==> page < NumPages(segs)
    {
      CursorFindsPage(segs, page);
      var segno := page / PAGES_PER_SEGMENT;
      return if segno < |segs| then Some(Cursor(segno, page % PAGES_PER_SEGMENT * PAGE_SIZE)) else None;
    }

    /** read_exact: a whole page, or an error that leaves the position wherever reading stopped. */
    method ReadExact(c: Cursor) returns (buffer: Option<seq<byte>>, after: Cursor)
      requires c.segno < |segs|
      ensures HasPage(segs, c) ==> buffer == Some(segs[c.segno][c.pos..c.pos + PAGE_SIZE])
                                   && after == c.(pos := c.pos + PAGE_SIZE)
      ensures !HasPage(segs, c) ==> buffer == None && after.segno == c.segno && c.pos <= after.pos
    {
      if HasPage(segs, c) {
        return Some(segs[c.segno][c.pos..c.pos + PAGE_SIZE]), c.(pos := c.pos + PAGE_SIZE);
      }
      var pos: nat :| c.pos <= pos;
      return None, c.(pos := pos);
    }

    /** Reads on from a cursor, which becomes the open one. */
    method ReadPage(c: Cursor) returns (buffer: Option<seq<byte>>)
      requires Relation.Valid(segs) && c.segno < |segs| && (HasPage(segs, c) ==> c.pos % PAGE_SIZE == 0)
      modifies this
      ensures Valid() && instance.Some?
      ensures HasPage(segs, c) ==>
                && BlockOf(c) < NumPages(segs) && buffer == Some(PageAt(segs, BlockOf(c)))
                && instance == Some(CursorAfter(BlockOf(c)))
      ensures !HasPage(segs, c) ==> buffer == None && !HasPage(segs, instance.value)
    {
      CursorIsAtPage(segs, c);
      var after;
      buffer, after := ReadExact(c);
      instance := Some(after);
    }

    /** Reads the next page of the open segment, whatever `page` is; opens `page`'s segment
        when none is open or the open one has no whole page left. */
    method GetPageByIndex(page: nat) returns (r: Result<HeapPage>)
      requires Valid()
      modifies this
      ensures Valid()
      ensures match Served(segs, old(instance), page)
              case Some(b) => b < NumPages(segs) && r == ParsedPage(PageAt(segs, b)) && instance == Some(CursorAfter(b))
              case None =>
                && r == Err(if old(instance) == None && page / PAGES_PER_SEGMENT >= |segs| then Panic else Generic)
                && (instance.None? ==> r.error == Panic) && (instance.Some? ==> !HasPage(segs, instance.value))
    {
      if instance.None? {
        instance := GetReader(page);
        if instance.None? {
          return Err(Panic);
        }
      }
      var buffer := ReadPage(instance.value);
      if buffer.None? {
        var reader := GetReader(page);
        if reader.None? {
          return Err(Generic);
        }
        buffer := ReadPage(reader.value);
        if buffer.None? {
          return Err(Generic);
        }
      }
      r := ParseBytes(buffer.value);
    }
  }

  /** A cursor at a page boundary stands at the page it is about to serve. */
  lemma CursorIsAtPage(segs: Segments, c: Cursor)
    requires Relation.Valid(segs)
    ensures HasPage(segs, c) && c.pos % PAGE_SIZE == 0 ==>
              && BlockOf(c) < NumPages(segs) && CursorAt(BlockOf(c)) == c
              && segs[c.segno][c.pos..c.pos + PAGE_SIZE] == PageAt(segs, BlockOf(c))
  {
    if HasPage(segs, c) && c.pos % PAGE_SIZE == 0 {
      var k := c.pos / PAGE_SIZE;
      assert c.pos == k * PAGE_SIZE && k < PAGES_PER_SEGMENT;
      assert CursorAt(BlockOf(c)) == c;
      CursorFindsPage(segs, BlockOf(c));
    }
  }

  /** After serving page `b`, the cursor has another page in its segment exactly when page
      `b + 1` exists and opens no new segment. */
  lemma CursorAfterPage(segs: Segments, b: nat)
    requires Relation.Valid(segs) && b < NumPages(segs)
    ensures var c := CursorAfter(b);
            && (HasPage(segs, c) <==> b + 1 < NumPages(segs) && (b + 1) % PAGES_PER_SEGMENT != 0)
            && (HasPage(segs, c) ==> BlockOf(c) == b + 1)
  {
    CursorFindsPage(segs, b);
    CursorFindsPage(segs, b + 1);
    if (b + 1) % PAGES_PER_SEGMENT != 0 {
      assert CursorAfter(b) == CursorAt(b + 1);
    } else {
      assert CursorAfter(b).pos == SEGMENT_SIZE;
    }
  }

  /** Asking for pages 0, 1, 2, ... is random access, across segment boundaries: page
      `b + 1` is served after page `b` as long as it exists. */
  lemma SequentialIsRandomAccess(segs: Segments, b: nat)
    requires Relation.Valid(segs) && b < NumPages(segs)
    ensures Served(segs, None, 0) == Some(0)
    ensures Served(segs, Some(CursorAfter(b)), b + 1) == if b + 1 < NumPages(segs) then Some(b + 1) else None
  {
    CursorAfterPage(segs, b);
  }

  /** Any other order is not: after page `b`, page `i` is served exactly when it exists and
      is the next one, or `b` was the last whole page of its segment. */
  lemma ServesIff(segs: Segments, b: nat, i: nat)
    requires Relation.Valid(segs) && b < NumPages(segs)
    ensures Served(segs, Some(CursorAfter(b)), i) == Some(i) <==>
            i < NumPages(segs) && (i == b + 1 || (b + 1) % PAGES_PER_SEGMENT == 0 || b + 1 == NumPages(segs))
  {
    CursorAfterPage(segs, b);
  }
}
