/** A heap page as the server lays it out, and that parsing finds every tuple in it
    (src/heap/page.rs). */
module PageImage {
  import opened Base
  import opened Codec
  import opened HeapTuples
  import opened HeapLayout
  import opened TupleImage
  import opened Page
  import opened PageRoundTrip

  const PAGE_HEADER_SIZE := 24

  /** What a line pointer leads to: nothing, or a tuple and the bytes up to the next one. */
  datatype Slot = Unused | Used(tuple: seq<byte>, padding: seq<byte>)

  function SlotBytes(slot: Slot): seq<byte> { if slot.Unused? then [] else slot.tuple + slot.padding }

  /** The tuples of slots `0, ..., n - 1`, the first slot's last. */
  function AreaTo(raws: seq<Slot>, n: nat): seq<byte>
    requires n <= |raws|
  {
    if n == 0 then [] else SlotBytes(raws[n - 1]) + AreaTo(raws, n - 1)
  }

  lemma AreaNext(raws: seq<Slot>, k: nat)
    requires k < |raws|
    ensures AreaTo(raws, k + 1) == SlotBytes(raws[k]) + AreaTo(raws, k)
  {
  }

  /** They end at the end of the page. */
  function Area(raws: seq<Slot>): seq<byte> { AreaTo(raws, |raws|) }

  predicate FitsPage(raws: seq<Slot>) {
    PAGE_HEADER_SIZE + 4 * |raws| + |Area(raws)| <= PAGE_SIZE
  }

  function OffsetOf(raws: seq<Slot>, k: nat): int
    requires k < |raws|
  {
    PAGE_SIZE - |AreaTo(raws, k + 1)|
  }

  lemma {:induction false} AreaGrows(raws: seq<Slot>, m: nat, n: nat)
    requires m <= n <= |raws|
    ensures |AreaTo(raws, m)| <= |AreaTo(raws, n)|
    decreases n
  {
    if m < n {
      AreaGrows(raws, m, n - 1);
    }
  }

  lemma TupleIsShorter(slot: Slot, area: seq<byte>)
    requires slot.Used?
    ensures |slot.tuple| <= |SlotBytes(slot) + area|
  {
  }

  /** Every tuple fits in the area of the slots up to its own, and that on the page. */
  lemma AreaBounds(raws: seq<Slot>, k: nat)
    requires k < |raws|
    ensures |AreaTo(raws, k + 1)| <= |Area(raws)|
    ensures raws[k].Used? ==> |raws[k].tuple| <= |AreaTo(raws, k + 1)|
  {
    AreaGrows(raws, k + 1, |raws|);
    AreaNext(raws, k);
    if raws[k].Used? {
      TupleIsShorter(raws[k], AreaTo(raws, k));
    }
  }

  /** What lies before the first `m` slots' part of the first `n` slots' area. */
  function Before(raws: seq<Slot>, n: nat, m: nat): seq<byte>
    requires m <= n <= |raws|
  {
    if m == n then [] else SlotBytes(raws[n - 1]) + Before(raws, n - 1, m)
  }

  lemma Associative(a: seq<byte>, b: seq<byte>, c: seq<byte>)
    ensures (a + b) + c == a + (b + c)
    ensures [] + c == c
  {
  }

  lemma {:induction false} AreaFrom(raws: seq<Slot>, n: nat, m: nat)
    requires m <= n <= |raws|
    ensures AreaTo(raws, n) == Before(raws, n, m) + AreaTo(raws, m)
  {
    if m < n {
      AreaFrom(raws, n - 1, m);
      Associative(SlotBytes(raws[n - 1]), Before(raws, n - 1, m), AreaTo(raws, m));
    } else {
      Associative([], [], AreaTo(raws, n));
    }
  }

  lemma TupleAfter(page: seq<byte>, at: nat, before: seq<byte>, slot: Slot, others: seq<byte>, area: seq<byte>)
    returns (start: nat)
    requires area == before + (SlotBytes(slot) + others) && slot.Used? && Holds(page, at, area)
    ensures start == at + |area| - |SlotBytes(slot) + others|
    ensures Holds(page, start, slot.tuple)
  {
    start := at + |before|;
    HoldsSplit(page, at, before, SlotBytes(slot) + others);
    HoldsSplit(page, start, SlotBytes(slot), others);
    HoldsSplit(page, start, slot.tuple, slot.padding);
  }

  /** The tuple of slot `k` is there. */
  lemma TupleInArea(page: seq<byte>, at: nat, raws: seq<Slot>, k: nat) returns (start: nat)
    requires k < |raws| && raws[k].Used? && Holds(page, at, Area(raws)) == true
    ensures start == at + |Area(raws)| - |AreaTo(raws, k + 1)|
    ensures Holds(page, start, raws[k].tuple) == true
  {
    AreaFrom(raws, |raws|, k + 1);
    AreaNext(raws, k);
    start := TupleAfter(page, at, Before(raws, |raws|, k + 1), raws[k], AreaTo(raws, k), Area(raws));
  }

  /** The line pointer of an unused slot, or of a tuple at offset `at`. */
  ghost predicate PointsTo(lp: ItemId, at: int, raw: Slot) {
    if raw.Unused? then lp.word / 0x8000 % 4 != 1
    else lp.word / 0x8000 % 4 == 1 && lp.Off() == at && lp.Len() == |raw.tuple|
  }

  function PointerFor(raws: seq<Slot>, k: nat): (word: nat)
    requires FitsPage(raws) && k < |raws|
    ensures word < 0x1_0000_0000 && PointsTo(ItemId(word), OffsetOf(raws, k), raws[k])
  {
    match raws[k]
    case Unused => 0
    case Used(raw, _) =>
      AreaBounds(raws, k);
      ItemIdFields(OffsetOf(raws, k), 1, |raw|);
      OffsetOf(raws, k) + 0x8000 * 1 + 0x2_0000 * |raw|
  }

  function PointersFor(raws: seq<Slot>): (words: seq<nat>)
    requires FitsPage(raws)
    ensures |words| == |raws| && AreWords(words)
    ensures forall k :: 0 <= k < |raws| ==> words[k] == PointerFor(raws, k)
  {
    seq(|raws|, k requires 0 <= k < |raws| => PointerFor(raws, k))
  }

  predicate AreWords(words: seq<nat>) { forall k :: 0 <= k < |words| ==> words[k] < 0x1_0000_0000 }

  function EncodeWords(words: seq<nat>, n: nat): (b: seq<byte>)
    requires AreWords(words) && n <= |words|
    ensures |b| == 4 * n
  {
    if n == 0 then [] else EncodeWords(words, n - 1) + LE32(words[n - 1])
  }

  lemma {:induction false} WordAt(page: seq<byte>, from: nat, words: seq<nat>, n: nat, k: nat)
    requires AreWords(words) && k < n <= |words| && Holds(page, from, EncodeWords(words, n))
    ensures from + 4 * k + 4 <= |page| && U32(page, from + 4 * k) == words[k]
    decreases n
  {
    var last := LE32(words[n - 1]);
    HoldsSplit(page, from, EncodeWords(words, n - 1), last);
    if k < n - 1 {
      WordAt(page, from, words, n - 1, k);
    } else {
      WordReadsBack(page, from + 4 * k, last);
    }
  }

  /** The 24 bytes of a header: pd_lower ends the line pointers, the rest is free. */
  predicate IsHeaderFor(header: seq<byte>, n: nat) {
    |header| == PAGE_HEADER_SIZE && U16(header, 12) == PAGE_HEADER_SIZE + 4 * n
  }

  function FreeSpace(raws: seq<Slot>): nat
    requires FitsPage(raws)
  {
    PAGE_SIZE - PAGE_HEADER_SIZE - 4 * |raws| - |Area(raws)|
  }

  function EncodePage(header: seq<byte>, raws: seq<Slot>, free: seq<byte>): (b: seq<byte>)
    requires FitsPage(raws) && IsHeaderFor(header, |raws|) && |free| == FreeSpace(raws)
    ensures |b| == PAGE_SIZE
  {
    header + EncodeWords(PointersFor(raws), |raws|) + free + Area(raws)
  }

  /** Header, line pointers and tuples are where they should be. */
  lemma PageParts(header: seq<byte>, raws: seq<Slot>, free: seq<byte>)
    requires FitsPage(raws) && IsHeaderFor(header, |raws|) && |free| == FreeSpace(raws)
    ensures var page := EncodePage(header, raws, free);
            && Holds(page, 0, header) && Holds(page, PAGE_HEADER_SIZE, EncodeWords(PointersFor(raws), |raws|))
            && Holds(page, PAGE_SIZE - |Area(raws)|, Area(raws))
  {
    FourParts(EncodePage(header, raws, free), header, EncodeWords(PointersFor(raws), |raws|), free, Area(raws));
  }

  lemma FourParts(all: seq<byte>, a: seq<byte>, b: seq<byte>, c: seq<byte>, d: seq<byte>)
    requires all == a + b + c + d
    ensures Holds(all, 0, a) && Holds(all, |a|, b) && Holds(all, |all| - |d|, d)
  {
    assert all[0..0 + |a + b + c + d|] == all;
    HoldsSplit(all, 0, a + b + c, d);
    HoldsSplit(all, 0, a + b, c);
    HoldsSplit(all, 0, a, b);
  }

  lemma HeaderWord(page: seq<byte>, header: seq<byte>, n: nat)
    requires IsHeaderFor(header, n) && Holds(page, 0, header)
    ensures U16(page, 12) == PAGE_HEADER_SIZE + 4 * n
  {
    HoldsAt(page, 0, header, 12);
    HoldsAt(page, 0, header, 13);
  }

  lemma ItemsParse(page: seq<byte>, n: nat)
    requires |page| == PAGE_SIZE && U16(page, 12) == PAGE_HEADER_SIZE + 4 * n <= PAGE_SIZE
    ensures var p := ParsedPage(page);
            && p.Ok? && p.value.data == page && |p.value.items| == n
            && forall k :: 0 <= k < n ==> p.value.items[k] == ItemId(U32(page, PAGE_HEADER_SIZE + 4 * k))
  {
    assert NumLinePointers(U16(page, 12)) == n;
  }

  lemma PointersParse(page: seq<byte>, words: seq<nat>)
    requires |page| == PAGE_SIZE && U16(page, 12) == PAGE_HEADER_SIZE + 4 * |words| <= PAGE_SIZE
    requires AreWords(words) && Holds(page, PAGE_HEADER_SIZE, EncodeWords(words, |words|))
    ensures var p := ParsedPage(page);
            && p.Ok? && p.value.data == page && |p.value.items| == |words|
            && forall k :: 0 <= k < |words| ==> p.value.items[k] == ItemId(words[k])
  {
    ItemsParse(page, |words|);
    forall k | 0 <= k < |words| ensures ParsedPage(page).value.items[k] == ItemId(words[k]) {
      WordAt(page, PAGE_HEADER_SIZE, words, |words|, k);
    }
  }

  /** An encoded page parses, with one line pointer per slot. */
  lemma ParseInvertsPage(header: seq<byte>, raws: seq<Slot>, free: seq<byte>)
    requires FitsPage(raws) && IsHeaderFor(header, |raws|) && |free| == FreeSpace(raws)
    ensures var bytes := EncodePage(header, raws, free);
            var page := ParsedPage(bytes);
            && page.Ok? && page.value.data == bytes && |page.value.items| == |raws|
            && forall k :: 0 <= k < |raws| ==> LeadsTo(page.value.items[k], bytes, raws[k])
  {
    var bytes := EncodePage(header, raws, free);
    PageParts(header, raws, free);
    HeaderWord(bytes, header, |raws|);
    PointersParse(bytes, PointersFor(raws));
    forall k | 0 <= k < |raws| ensures LeadsTo(ItemId(PointerFor(raws, k)), bytes, raws[k]) {
      PointerLeads(ItemId(PointerFor(raws, k)), bytes, raws, k);
    }
  }

  /** What the line pointer of a used or unused slot leads to. */
  ghost predicate LeadsTo(lp: ItemId, data: seq<byte>, raw: Slot) {
    if raw.Unused? then lp.word / 0x8000 % 4 != 1
    else lp.word / 0x8000 % 4 == 1 && Get(data, lp.Off(), lp.Off() + lp.Len()) == Some(raw.tuple)
  }

  lemma TupleLeads(lp: ItemId, data: seq<byte>, raw: Slot, at: nat)
    requires raw.Used? && PointsTo(lp, at, raw) && Holds(data, at, raw.tuple)
    ensures LeadsTo(lp, data, raw)
  {
  }

  lemma PointerLeads(lp: ItemId, data: seq<byte>, raws: seq<Slot>, k: nat)
    requires FitsPage(raws) && k < |raws| && PointsTo(lp, OffsetOf(raws, k), raws[k])
    requires Holds(data, PAGE_SIZE - |Area(raws)|, Area(raws)) == true
    ensures LeadsTo(lp, data, raws[k])
  {
    if raws[k].Used? {
      var at := TupleInArea(data, PAGE_SIZE - |Area(raws)|, raws, k);
      TupleLeads(lp, data, raws[k], at);
    }
  }

  // ── Pages of stored rows ─────────────────────────────────────────────────

  /** The slot of a stored row, with any padding, or of no row. */
  ghost predicate StoresRow(raw: Slot, layouts: seq<ColLayout>, slot: Option<StoredRow>) {
    match slot
    case None => raw.Unused?
    case Some(s) => s.Fits(layouts) && raw.Used? && raw.tuple == EncodeTuple(s.meta, layouts, s.row)
  }

  ghost predicate StoresRows(raws: seq<Slot>, layouts: seq<ColLayout>, slots: seq<Option<StoredRow>>) {
    |raws| == |slots| && forall k :: 0 <= k < |slots| ==> StoresRow(raws[k], layouts, slots[k])
  }

  /** `bytes` is a page of these rows as the server lays it out, whatever else its header,
      padding and free space hold. */
  ghost predicate IsPageOf(bytes: seq<byte>, layouts: seq<ColLayout>, slots: seq<Option<StoredRow>>) {
    exists header, raws, free ::
      && FitsPage(raws) && IsHeaderFor(header, |raws|) && |free| == FreeSpace(raws)
      && StoresRows(raws, layouts, slots) && bytes == EncodePage(header, raws, free)
  }

  lemma SlotIsHeld(page: HeapPage, layouts: seq<ColLayout>, slot: Option<StoredRow>, raw: Slot, k: nat)
    requires k < |page.items| && LeadsTo(page.items[k], page.data, raw) && StoresRow(raw, layouts, slot)
    ensures SlotHolds(page, layouts, slot, k)
  {
  }

  /** A page laid out from stored rows parses, and holds them. */
  lemma PageOfRowsHolds(bytes: seq<byte>, layouts: seq<ColLayout>, slots: seq<Option<StoredRow>>)
    requires IsPageOf(bytes, layouts, slots)
    ensures ParsedPage(bytes).Ok? && PageHolds(ParsedPage(bytes).value, layouts, slots)
  {
    var header, raws, free :|
      && FitsPage(raws) && IsHeaderFor(header, |raws|) && |free| == FreeSpace(raws)
      && StoresRows(raws, layouts, slots) && bytes == EncodePage(header, raws, free);
    ParseInvertsPage(header, raws, free);
    forall k | 0 <= k < |slots| ensures SlotHolds(ParsedPage(bytes).value, layouts, slots[k], k) {
      SlotIsHeld(ParsedPage(bytes).value, layouts, slots[k], raws[k], k);
    }
  }

  // ── Small pages ──────────────────────────────────────────────────────────

  function PlainHeader(n: nat): (header: seq<byte>)
    requires PAGE_HEADER_SIZE + 4 * n <= PAGE_SIZE
    ensures IsHeaderFor(header, n)
  {
    var lower := LE16(PAGE_HEADER_SIZE + 4 * n);
    var header := Zeros(12) + lower + Zeros(10);
    assert header[12] == lower[0] && header[13] == lower[1];
    header
  }

  function ImageOf(raws: seq<Slot>): (bytes: seq<byte>)
    requires FitsPage(raws)
    ensures |bytes| == PAGE_SIZE
  {
    EncodePage(PlainHeader(|raws|), raws, Zeros(FreeSpace(raws)))
  }

  lemma ImageIsPageOf(raws: seq<Slot>, layouts: seq<ColLayout>, slots: seq<Option<StoredRow>>)
    requires FitsPage(raws) && StoresRows(raws, layouts, slots)
    ensures IsPageOf(ImageOf(raws), layouts, slots)
  {
  }

  function EmptyPage(): seq<byte> { ImageOf([]) }

  lemma EmptyPageIsPage(layouts: seq<ColLayout>)
    ensures IsPageOf(EmptyPage(), layouts, [])
  {
    ImageIsPageOf([], layouts, []);
  }

  predicate FitsAlone(layouts: seq<ColLayout>, s: StoredRow)
    requires s.Fits(layouts)
  {
    |EncodeTuple(s.meta, layouts, s.row)| <= PAGE_SIZE - PAGE_HEADER_SIZE - 4
  }

  function RawOf(layouts: seq<ColLayout>, s: StoredRow): Slot
    requires s.Fits(layouts)
  {
    Used(EncodeTuple(s.meta, layouts, s.row), [])
  }

  lemma OneSlotFits(raw: Slot)
    requires |SlotBytes(raw)| <= PAGE_SIZE - PAGE_HEADER_SIZE - 4
    ensures FitsPage([raw])
  {
    assert AreaTo([raw], 1) == SlotBytes(raw) + AreaTo([raw], 0);
  }

  /** A page with a single row. */
  function OneRowPage(layouts: seq<ColLayout>, s: StoredRow): seq<byte>
    requires s.Fits(layouts) && FitsAlone(layouts, s)
  {
    OneSlotFits(RawOf(layouts, s));
    ImageOf([RawOf(layouts, s)])
  }

  lemma OneRowPageIsPage(layouts: seq<ColLayout>, s: StoredRow)
    requires s.Fits(layouts) && FitsAlone(layouts, s)
    ensures IsPageOf(OneRowPage(layouts, s), layouts, [Some(s)])
  {
    OneSlotFits(RawOf(layouts, s));
    ImageIsPageOf([RawOf(layouts, s)], layouts, [Some(s)]);
  }

  /** A row of one short value does. */
  lemma ShortRowFits(l: ColLayout, s: StoredRow)
    requires s.Fits([l]) && |s.row| == 1 && |EncodeValue(l, s.row[0], 0)| <= 1000
    ensures FitsAlone([l], s)
  {
    HeaderForFits(s.meta, s.row);
    OneColumn(l, s.row);
  }

  lemma OneColumn(l: ColLayout, row: seq<Value>)
    requires RowFits([l], row) && |row| == 1
    ensures EncodeRow([l], row) == EncodeValue(l, row[0], 0)
  {
    var enc := RowEncoder([l], row);
    assert LayOut(enc, 1, 1, 0 + |enc(0, 0)|) == [];
  }
}
