/** The slot-by-slot row iterator (src/file/reader.rs:559-660). */
module RowIter {
  import opened Base
  import opened HeapTuples
  import opened Relation
  import opened Page
  import opened PageCursor

  datatype ItemPointer = ItemPointer(blkid: BlockId, posid: nat)

  const U16_MAX := 0xFFFF

  /** `wrapping_add(1)` on a u16. */
  function WrappingIncrement(posid: nat): (next: nat)
    ensures posid < 0x1_0000 ==> next == (posid + 1) % 0x1_0000
  {
    if posid == U16_MAX then 0 else posid + 1
  }

  /** What the iterator yields: a row, or Err(Panic) where the program panics. */
  type Item = Result<HeapTuple>

  type ParsedPages = nat -> Result<HeapPage>

  /** The page numbers a relation has, parsed. */
  ghost function PagesIn(segs: Segments): ParsedPages {
    (b: nat) => if b < NumPages(segs) then ParsedPage(PageAt(segs, b)) else Err(Generic)
  }

  type RowReader = (HeapPage, nat) -> Item

  function ReadRow(): RowReader { (page: HeapPage, k: nat) => GetRowData(page, k) }

  /** The rows `read` accepts on a page from slot `k` on, in slot order. */
  function Accepted(read: RowReader, page: HeapPage, k: nat): seq<Item>
    decreases |page.items| - k
  {
    if k >= |page.items| then []
    else (if read(page, k).Ok? then [read(page, k)] else []) + Accepted(read, page, k + 1)
  }

  /** The rows of pages `b, ..., n - 1`, up to a page that panics. */
  function RowsFrom(pages: ParsedPages, n: nat, read: RowReader, b: nat): seq<Item>
    decreases n - b
  {
    if b >= n then []
    else if pages(b).Err? then [Err(Panic)]
    else Accepted(read, pages(b).value, 0) + RowsFrom(pages, n, read, b + 1)
  }

  /** Every row of a relation; one without even a first segment panics. */
  ghost function AllRows(segs: Segments): seq<Item> {
    if segs == [] then [Err(Panic)] else RowsFrom(PagesIn(segs), NumPages(segs), ReadRow(), 0)
  }

  /** The iteration ends: in None, or in the panic that is all there is left. */
  ghost predicate Final(r: Option<Item>, rest: seq<Item>) {
    match r
    case None => rest == []
    case Some(item) => rest == [item] && item.Err?
  }

  /** Asking for page `b` serves it, as long as it exists. */
  ghost predicate Sequential(reader: PageReader, b: nat)
    reads reader
  {
    Served(reader.segs, reader.instance, b) == if b < NumPages(reader.segs) then Some(b) else None
  }

  /** `pages` are the pages of `segs`; folded like ReaderAt. */
  ghost predicate Backs(pages: ParsedPages, pageCount: nat, segs: Segments) {
    forall b: nat {:trigger Here(b, 0)} :: Here(b, 0) ==>
      pageCount == NumPages(segs) && (b < pageCount ==> pages(b) == ParsedPage(PageAt(segs, b)))
  }

  ghost predicate StaysOnPage(read: RowReader) {
    forall page: HeapPage, k: nat :: k >= |page.items| ==> read(page, k).Err?
  }

  lemma SlotVisited(read: RowReader, page: HeapPage, k: nat, rest: seq<Item>)
    requires StaysOnPage(read)
    ensures Accepted(read, page, k) + rest ==
            (if read(page, k).Ok? then [read(page, k)] else []) + (Accepted(read, page, k + 1) + rest)
  {
  }

  class PageRowIter {
    const reader: PageReader
    const read: RowReader
    ghost const pages: ParsedPages
    ghost const pageCount: nat
    var row: Option<ItemPointer>
    var page: Option<HeapPage>
    ghost var block: nat  // of the current page

    /** The slot to visit next on the current page. */
    function Slot(): nat
      reads this
    {
      if row.Some? then WrappingIncrement(row.value.posid) else 0
    }

    /** `pages` are the reader's pages, and asking it for page `next` serves that. The
        quantifier keeps this folded. */
    ghost predicate ReaderAt(next: nat)
      reads reader
    {
      && Backs(pages, pageCount, reader.segs)
      && forall b: nat {:trigger Here(b, 0)} :: Here(b, 0) ==>
           reader.Valid() && Sequential(reader, next) && (next > 0 ==> reader.instance.Some?)
    }

    /** The current page is one of the relation, the one after it is next to be read, and the
        last slot visited is on it; U16_MAX stands before slot 0. */
    ghost predicate Consistent()
      reads this, reader
    {
      && ReaderAt(if page.Some? then block + 1 else 0)
      && pageCount < 0x1_0000_0000 && StaysOnPage(read)
      && (page.None? ==> row.None?)
      && (page.Some? ==> block < pageCount && |page.value.items| < U16_MAX)
      && (if row.Some? then row.value.blkid.Valid() && row.value.blkid.BlockNumber() == block else block == 0)
      && (row.Some? ==> row.value.posid == U16_MAX || row.value.posid < Max(|page.value.items|, 1))
    }

    ghost predicate Valid()
      reads this, reader
    {
      Consistent() && (row.Some? ==> row.value.posid != U16_MAX)
    }

    /** The items from page `b` on. */
    ghost function From(b: nat): seq<Item> {
      if b == 0 && reader.segs == [] then [Err(Panic)] else RowsFrom(pages, pageCount, read, b)
    }

    ghost function Remaining(): seq<Item>
      reads this
    {
      if page.None? then From(0) else Accepted(read, page.value, Slot()) + From(block + 1)
    }

    constructor (reader: PageReader)
      requires reader.Valid() && reader.instance.None? && NumPages(reader.segs) < 0x1_0000_0000
      ensures Valid() && this.reader == reader && read == ReadRow() && Remaining() == AllRows(reader.segs)
    {
      this.reader := reader;
      read := ReadRow();
      pages, pageCount := PagesIn(reader.segs), NumPages(reader.segs);
      row, page, block := None, None, 0;
    }

    /** Reads page `b`, the first or the next one; None unless that ends the iteration. */
    method Fetch(b: nat) returns (end: Option<Option<Item>>)
      requires Valid() && b == (if page.Some? then block + 1 else 0)
      modifies this`page, reader
      ensures match end
              case None => && page.Some? && |page.value.items| < U16_MAX && b < pageCount
                           && From(b) == Accepted(read, page.value, 0) + From(b + 1)
                           && ReaderAt(b + 1) && reader.segs != []
              case Some(r) => && Final(r, From(b)) && (r.None? ==> page == old(page) && Valid())
    {
      assert Here(b, 0);
      var got := reader.GetPageByIndex(b);
      if got.Err? {
        if b < pageCount {
          PageParsesIff(PageAt(reader.segs, b));
        }
        return Some(if got.error == Panic then Some(Err(Panic)) else None);
      }
      page := Some(got.value);
      SequentialIsRandomAccess(reader.segs, b);
      return None;
    }

    /** Pages and slots left. */
    ghost function Measure(): (int, nat)
      reads this
    {
      if page.None? then (pageCount + 1, 0)
      else (pageCount - block, SatSub(Max(|page.value.items|, 1), Slot()))
    }

    /** The page just read becomes the current one, at its first slot. */
    method EnterPage(b: nat)
      requires ReaderAt(b + 1) && b < pageCount < 0x1_0000_0000 && StaysOnPage(read)
      requires page.Some? && |page.value.items| < U16_MAX
      modifies this`row, this`block
      ensures Consistent() && row.Some? && block == b && Slot() == 0
    {
      row := Some(ItemPointer(ToBlockId(b), U16_MAX));
      block := b;
    }

    /** Moves to before slot 0 of the next page. */
    method NextPage() returns (end: Option<Option<Item>>)
      requires Valid() && row.Some? && |page.value.items| <= Slot()
      modifies this, reader
      ensures match end
              case None => && Consistent() && page.Some? && Remaining() == old(Remaining()) && Slot() == 0
                           && Measure().0 < old(Measure().0)
              case Some(r) => Final(r, old(Remaining())) && (r.None? ==> Valid() && Remaining() == [])
    {
      var next := row.value.blkid.BlockNumber() + 1;
      assert Remaining() == From(next);
      end := Fetch(next);
      if end.None? {
        EnterPage(next);
      }
    }

    method FirstPage() returns (end: Option<Option<Item>>)
      requires Valid() && page.None?
      modifies this`page, reader
      ensures match end
              case None => && Consistent() && page.Some? && Remaining() == old(Remaining()) && Slot() == 0
                           && Measure().0 < old(Measure().0)
              case Some(r) => Final(r, old(Remaining())) && (r.None? ==> Valid() && Remaining() == [])
    {
      end := Fetch(0);
    }

    /** Reads the first page, or the next one when the current page is finished. */
    method TurnPage() returns (end: Option<Option<Item>>)
      requires Valid()
      modifies this, reader
      ensures match end
              case None =>
                && Consistent() && page.Some? && Remaining() == old(Remaining())
                && Slot() < Max(|page.value.items|, 1)
                && (Measure().0 < old(Measure().0) || Measure() == old(Measure()))
              case Some(r) => Final(r, old(Remaining())) && (r.None? ==> Valid() && Remaining() == [])
    {
      if page.None? {
        end := FirstPage();
        return;
      }
      if row.Some? && |page.value.items| <= row.value.posid + 1 {
        end := NextPage();
        return;
      }
      return None;
    }

    /** Moves to the next slot. */
    method Advance() returns (posid: nat)
      requires Consistent() && page.Some? && Slot() < Max(|page.value.items|, 1)
      modifies this`row
      ensures Valid() && posid == old(Slot()) && Slot() == posid + 1 && block == old(block)
    {
      row := if row.None? then Some(ItemPointer(BlockId(0, 0), 0))
             else Some(row.value.(posid := WrappingIncrement(row.value.posid)));
      return row.value.posid;
    }

    method Visit() returns (data: Item)
      requires Consistent() && page.Some? && Slot() < Max(|page.value.items|, 1)
      modifies this`row
      ensures Valid() && Measure().0 == old(Measure().0) && Measure().1 < old(Measure().1)
      ensures old(Remaining()) == (if data.Ok? then [data] else []) + Remaining()
    {
      ghost var rest := From(block + 1);
      SlotVisited(read, page.value, Slot(), rest);
      assert Remaining() == Accepted(read, page.value, Slot()) + rest;
      var posid := Advance();
      assert Remaining() == Accepted(read, page.value, posid + 1) + rest;
      data := read(page.value, posid);
    }

    /** The next row get_row_data accepts: every slot of every page is visited once, in
        (block, slot) order. */
    method Next() returns (r: Option<Item>)
      requires Valid()
      modifies this, reader
      ensures old(Remaining()) == [] <==> r.None?
      ensures r.Some? ==> r.value == old(Remaining())[0]
      ensures r.None? || r.value.Ok? ==> Valid()
      ensures r.None? ==> Remaining() == []
      ensures r.Some? && r.value.Ok? ==> Remaining() == old(Remaining())[1..]
    {
      while true
        invariant Valid() && Remaining() == old(Remaining())
        decreases Measure().0, Measure().1
      {
        var end := TurnPage();
        if end.Some? {
          return end.value;
        }
        var data := Visit();
        match data {
          case Ok(tuple) => return Some(Ok(tuple));
          case Err(DeadTupleLinePointer) => continue;
          case Err(_) =>  // logged
        }
      }
    }
  }
}
