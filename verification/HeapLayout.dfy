/** The on-disk layout of a row as an encoder, and what the walk recovers from it. */
module HeapLayout {
  import opened Base
  import opened Codec
  import opened HeapTuples
  import opened Deform
  import opened TupleWalk

  /** How a value is stored: fixed width; behind a 1-byte header; behind a 4-byte header,
      plain or compressed; or as an 18-byte out-of-line pointer. */
  datatype Form = FixedWidth | Short | Plain | Compressed | External

  datatype Value = VNull | Stored(form: Form, bytes: seq<byte>)

  /** The sizes each form can hold. */
  predicate Storable(v: Value) {
    v.Stored? &&
    match v.form
    case FixedWidth => true
    case Short => |v.bytes| <= 126
    case Plain => |v.bytes| + 4 < 0x4000_0000
    case Compressed => |v.bytes| + 4 < 0x4000_0000
    case External => |v.bytes| == 16
  }

  predicate Fits(l: Layout, v: Value) {
    v.VNull? || (Storable(v) && if v.form.FixedWidth? then l.len == Fixed(|v.bytes|) else l.len.Varlena?)
  }

  predicate RowFits(layouts: seq<ColLayout>, row: seq<Value>) {
    |row| == |layouts| && forall i :: 0 <= i < |row| ==> Fits(layouts[i], row[i])
  }

  function Zeros(n: nat): (z: seq<byte>)
    ensures |z| == n
    ensures forall k :: 0 <= k < n ==> z[k] == 0
  {
    if n == 0 then [] else [0] + Zeros(n - 1)
  }

  predicate Aligned(form: Form) { !form.Short? && !form.External? }

  /** Fixed-width and 4-byte-header values are aligned; the others sit where they fall. */
  function Padding(l: Layout, v: Value, off: nat): (n: nat)
    requires l.align in {1, 2, 4, 8}
  {
    if v.Stored? && Aligned(v.form) then AlignUp(off, l.align) - off else 0
  }

  function Header(v: Value): seq<byte>
    requires Storable(v)
  {
    match v.form
    case FixedWidth => []
    case Short => [2 * (|v.bytes| + 1) + 1]
    case Plain => LE32(4 * (|v.bytes| + 4))
    case Compressed => LE32(4 * (|v.bytes| + 4) + 2)
    case External => [1, 18]
  }

  function Image(pad: nat, header: seq<byte>, body: seq<byte>): (b: seq<byte>)
    ensures |b| == pad + |header| + |body|
  {
    Zeros(pad) + header + body
  }

  function EncodeValue(l: Layout, v: Value, off: nat): seq<byte>
    requires l.align in {1, 2, 4, 8} && Fits(l, v)
  {
    if v.VNull? then [] else Image(Padding(l, v, off), Header(v), v.bytes)
  }

  /** The bytes of column `k` when the previous column ended at offset `o`. */
  type Encoder = (nat, nat) -> seq<byte>

  function RowEncoder(layouts: seq<ColLayout>, row: seq<Value>): Encoder
    requires RowFits(layouts, row)
  {
    (k: nat, o: nat) => if k < |row| then EncodeValue(layouts[k], row[k], o) else []
  }

  /** Columns `i..count` laid out one after the other from `off`. */
  function LayOut(enc: Encoder, count: nat, i: nat, off: nat): seq<byte>
    requires i <= count
    decreases count - i
  {
    if i == count then []
    else enc(i, off) + LayOut(enc, count, i + 1, off + |enc(i, off)|)
  }

  /** The data area of a tuple holding `row`. */
  function EncodeRow(layouts: seq<ColLayout>, row: seq<Value>): seq<byte>
    requires RowFits(layouts, row)
  {
    LayOut(RowEncoder(layouts, row), |row|, 0, 0)
  }

  // ── The walk inverts the layout ─────────────────────────────────────────

  /** What a reader delivers for a stored value: compressed payloads as they are,
      nothing for an out-of-line pointer. */
  function Delivered(v: Value): seq<byte>
    requires v.Stored?
  {
    if v.form.External? then [] else v.bytes
  }

  ghost predicate NullsMatch(nulls: seq<byte>, row: seq<Value>) {
    forall i :: 0 <= i < |row| ==> (IsNull(nulls, i) <==> row[i].VNull?)
  }

  /** A row as readers see it: absent, or a payload. */
  function Seen(row: seq<Value>): (s: seq<Option<seq<byte>>>)
    ensures |s| == |row|
  {
    seq(|row|, k requires 0 <= k < |row| => if row[k].VNull? then None else Some(Delivered(row[k])))
  }

  predicate Shows(c: Cell, v: Option<seq<byte>>) {
    match v
    case None => c.Null?
    case Some(b) => c.At? && c.bytes == b
  }

  ghost predicate Recovers(cells: seq<Cell>, seen: seq<Option<seq<byte>>>, from: nat) {
    |cells| == |seen| - from && forall k :: 0 <= k < |cells| ==> Shows(cells[k], seen[from + k])
  }

  /** Bytes `off..` of `data` begin with `enc`. */
  ghost predicate Holds(data: seq<byte>, off: nat, enc: seq<byte>) {
    off + |enc| <= |data| && data[off..off + |enc|] == enc
  }

  lemma HoldsAt(data: seq<byte>, off: nat, enc: seq<byte>, k: nat)
    requires Holds(data, off, enc) && k < |enc|
    ensures data[off + k] == enc[k]
  {
    assert data[off..off + |enc|][k] == enc[k];
  }

  lemma HoldsSplit(data: seq<byte>, off: nat, a: seq<byte>, b: seq<byte>)
    ensures Holds(data, off, a + b) ==> Holds(data, off, a) && Holds(data, off + |a|, b)
  {
    if Holds(data, off, a + b) {
      var s := data[off..off + |a + b|];
      assert a == s[..|a|] == data[off..off + |a|];
      assert b == s[|a|..] == data[off + |a|..off + |a| + |b|];
    }
  }

  /** Header and body of `v` are at `at`. */
  ghost predicate PartsAt(v: Value, data: seq<byte>, at: nat)
    requires Storable(v)
  {
    Holds(data, at, Header(v)) && Holds(data, at + |Header(v)|, v.bytes)
  }

  lemma ImageParts(data: seq<byte>, off: nat, pad: nat, header: seq<byte>, body: seq<byte>)
    requires Holds(data, off, Image(pad, header, body))
    ensures Holds(data, off, Zeros(pad)) && Holds(data, off + pad, header)
            && Holds(data, off + pad + |header|, body)
  {
    HoldsSplit(data, off, Zeros(pad) + header, body);
    HoldsSplit(data, off, Zeros(pad), header);
  }

  /** The byte a header begins with tells short, external and 4-byte forms apart. */
  lemma HeaderByte(v: Value)
    requires Storable(v) && !v.form.FixedWidth?
    ensures |Header(v)| > 0
    ensures if v.form.External? then Header(v)[0] == 1
            else if v.form.Short? then Header(v)[0] % 2 == 1 && Header(v)[0] > 1
            else Header(v)[0] % 2 == 0
  {
  }

  /** The peek at the first byte finds the padding, if any, and nothing else. */
  lemma PeekFindsPadding(l: ColLayout, v: Value, data: seq<byte>, off: nat)
    requires Fits(l, v) && v.Stored?
    requires Holds(data, off, Zeros(Padding(l, v, off))) && Holds(data, off + Padding(l, v, off), Header(v))
    ensures AlignInRows(l, data, off) == off + Padding(l, v, off)
  {
    if !v.form.FixedWidth? {
      HeaderByte(v);
      if Padding(l, v, off) > 0 {
        HoldsAt(data, off, Zeros(Padding(l, v, off)), 0);
      } else {
        HoldsAt(data, off, Header(v), 0);
      }
    }
  }

  /** A reader aligns to the header of an encoded value. */
  lemma EncodedValueIsFound(l: ColLayout, v: Value, data: seq<byte>, off: nat)
    requires Fits(l, v) && v.Stored? && Holds(data, off, EncodeValue(l, v, off))
    ensures var at := AlignInRows(l, data, off);
            PartsAt(v, data, at) && at + |Header(v)| + |v.bytes| == off + |EncodeValue(l, v, off)|
  {
    var pad := Padding(l, v, off);
    ImageParts(data, off, pad, Header(v), v.bytes);
    PeekFindsPadding(l, v, data, off);
  }

  lemma WordReadsBack(data: seq<byte>, at: nat, h: seq<byte>)
    requires |h| == 4 && Holds(data, at, h)
    ensures U32(data, at) == U32(h, 0)
  {
    HoldsAt(data, at, h, 0);
    HoldsAt(data, at, h, 1);
    HoldsAt(data, at, h, 2);
    HoldsAt(data, at, h, 3);
  }

  lemma LongHeaderReads(data: seq<byte>, at: nat, n: nat, tag: nat)
    requires at + 4 <= |data| && tag in {0, 2} && n >= 4
    requires U32(data, at) == 4 * n + tag
    ensures ReadVarlenaHeader(data, at) == Ok((at + 4, n - 4))
  {
    var low: int := data[at];
    assert (4 * n + tag) % 2 == 0 && low % 2 == 0;
    assert (4 * n + tag) % 4 == tag && (4 * n + tag) / 4 == n;
  }

  lemma ShortHeaderReads(data: seq<byte>, at: nat, n: nat)
    requires at < |data| && n <= 126 && data[at] == 2 * (n + 1) + 1
    ensures ReadVarlenaHeader(data, at) == Ok((at + 1, n))
  {
    assert (2 * (n + 1) + 1) / 2 == n + 1 && (2 * (n + 1) + 1) % 2 == 1;
  }

  lemma ExternalHeaderReads(data: seq<byte>, at: nat)
    requires at + 1 < |data| && data[at] == 1 && data[at + 1] == 18
    ensures ReadVarlenaHeader(data, at) == Ok((at + 18, 0))
  {
  }

  /** Reading the header back gives the place and size of the body. */
  lemma HeaderReadsBack(v: Value, data: seq<byte>, at: nat)
    requires Storable(v) && !v.form.FixedWidth? && PartsAt(v, data, at)
    ensures ReadVarlenaHeader(data, at) ==
            if v.form.External? then Ok((at + 18, 0)) else Ok((at + |Header(v)|, |v.bytes|))
  {
    match v.form
    case Short =>
      HoldsAt(data, at, Header(v), 0);
      ShortHeaderReads(data, at, |v.bytes|);
    case Plain =>
      WordReadsBack(data, at, Header(v));
      LongHeaderReads(data, at, |v.bytes| + 4, 0);
    case Compressed =>
      WordReadsBack(data, at, Header(v));
      LongHeaderReads(data, at, |v.bytes| + 4, 2);
    case External =>
      HoldsAt(data, at, Header(v), 0);
      HoldsAt(data, at, Header(v), 1);
      ExternalHeaderReads(data, at);
  }

  /** The piece a reader extracts from a value whose header is at `at`. */
  function PieceOf(v: Value, at: nat): Piece
    requires Storable(v)
  {
    Piece(at + |Header(v)| + |v.bytes| - |Delivered(v)|, |Delivered(v)|, |Header(v)| + |v.bytes|)
  }

  lemma ExtractInvertsValue(l: ColLayout, v: Value, data: seq<byte>, at: nat)
    requires Storable(v) && Fits(l, v) && PartsAt(v, data, at)
    ensures ExtractColumnBytes(l.len, data, at) == Ok(PieceOf(v, at))
  {
    if v.form.FixedWidth? {
      ExtractFixed(data, at, |v.bytes|);
    } else {
      HeaderReadsBack(v, data, at);
      ExtractVarlena(data, at, if v.form.External? then at + 18 else at + |Header(v)|, |Delivered(v)|);
    }
  }

  lemma ExtractFixed(data: seq<byte>, at: nat, n: nat)
    requires at + n <= |data|
    ensures ExtractColumnBytes(Fixed(n), data, at) == Ok(Piece(at, n, n))
  {
  }

  lemma ExtractVarlena(data: seq<byte>, at: nat, start: nat, len: nat)
    requires ReadVarlenaHeader(data, at) == Ok((start, len)) && at <= start && start + len <= |data|
    ensures ExtractColumnBytes(Varlena, data, at) == Ok(Piece(start, len, start + len - at))
  {
  }

  lemma PieceDelivers(v: Value, data: seq<byte>, at: nat)
    requires Storable(v) && PartsAt(v, data, at)
    ensures var p := PieceOf(v, at);
            p.start + p.len <= |data| && data[p.start..p.start + p.len] == Delivered(v)
  {
  }

  lemma VisitWanted(p: Plan, i: nat, off: nat, q: Piece)
    requires p.reader.Rows? && p.accept == AcceptAll() && i < |p.wanted| <= |p.layouts| && p.wanted[i]
    requires ExtractColumnBytes(p.layouts[i].len, p.data, p.Start(i, off)) == Ok(q)
    ensures q.start + q.len <= |p.data|
    ensures p.Visit(i, off) == Ok((At(q.start, p.data[q.start..q.start + q.len]), p.Start(i, off) + q.consumed))
  {
    SizesAgree(p.layouts[i], p.data, p.Start(i, off));
  }

  lemma VisitInvertsValue(p: Plan, v: Value, i: nat, off: nat)
    requires p.reader.Rows? && p.accept == AcceptAll()
    requires i < |p.wanted| <= |p.layouts| && p.wanted[i]
    requires Storable(v) && Fits(p.layouts[i], v) && PartsAt(v, p.data, p.Start(i, off))
    ensures var at := p.Start(i, off);
            p.Visit(i, off) == Ok((At(PieceOf(v, at).start, Delivered(v)), at + |Header(v)| + |v.bytes|))
  {
    var at := p.Start(i, off);
    ExtractInvertsValue(p.layouts[i], v, p.data, at);
    PieceDelivers(v, p.data, at);
    VisitWanted(p, i, off, PieceOf(v, at));
  }

  lemma RecoversCons(c: Cell, rest: seq<Cell>, seen: seq<Option<seq<byte>>>, i: nat)
    requires i < |seen| && Recovers(rest, seen, i + 1) && Shows(c, seen[i])
    ensures Recovers([c] + rest, seen, i)
  {
    var cells := [c] + rest;
    forall k | 0 <= k < |cells| ensures Shows(cells[k], seen[i + k]) {
      if k > 0 { assert cells[k] == rest[k - 1]; }
    }
  }

  /** Steps of `w` invert the bytes of each column wherever they sit in `data`. */
  ghost predicate StepsInvert(w: Walk, enc: Encoder, seen: seq<Option<seq<byte>>>, data: seq<byte>) {
    && w.count == |seen|
    && (forall k :: 0 <= k < |seen| ==> (IsNull(w.nulls, k) <==> seen[k].None?))
    && (forall k: nat, o: nat :: k < |seen| && seen[k].None? ==> enc(k, o) == [])
    && (forall k: nat, o: nat :: k < |seen| && seen[k].Some? && Holds(data, o, enc(k, o)) ==>
         && w.step(k, o).Ok? && Shows(w.step(k, o).value.0, seen[k])
         && w.step(k, o).value.1 == o + |enc(k, o)|)
  }

  lemma {:induction false} WalkInvertsLayout(w: Walk, enc: Encoder, seen: seq<Option<seq<byte>>>,
                                             data: seq<byte>, i: nat, off: nat)
    requires StepsInvert(w, enc, seen, data) && i <= |seen|
    requires Holds(data, off, LayOut(enc, |seen|, i, off))
    ensures var r := w.From(i, off);
            && r.Ok? && Recovers(r.value.cells, seen, i)
            && r.value.end == off + |LayOut(enc, |seen|, i, off)|
    decreases |seen| - i
  {
    if i < |seen| {
      var v := enc(i, off);
      HoldsSplit(data, off, v, LayOut(enc, |seen|, i + 1, off + |v|));
      WalkInvertsLayout(w, enc, seen, data, i + 1, off + |v|);
      var rest := w.From(i + 1, off + |v|).value.cells;
      RecoversCons(if seen[i].None? then Null else w.step(i, off).value.0, rest, seen, i);
    }
  }

  lemma RowStepsInvert(p: Plan, row: seq<Value>)
    requires p.reader.Rows? && p.Full() && p.accept == AcceptAll() && RowFits(p.layouts, row) && NullsMatch(p.nulls, row)
    ensures StepsInvert(p.ToWalk(), RowEncoder(p.layouts, row), Seen(row), p.data)
  {
    var w, enc, seen := p.ToWalk(), RowEncoder(p.layouts, row), Seen(row);
    forall k: nat, o: nat | k < |row| && seen[k].Some? && Holds(p.data, o, enc(k, o))
      ensures w.step(k, o).Ok? && Shows(w.step(k, o).value.0, seen[k])
              && w.step(k, o).value.1 == o + |enc(k, o)|
    {
      EncodedValueIsFound(p.layouts[k], row[k], p.data, o);
      VisitInvertsValue(p, row[k], k, o);
    }
  }

  lemma RowsInvertLayout(p: Plan, row: seq<Value>)
    requires p.reader.Rows? && p.Full() && p.accept == AcceptAll() && RowFits(p.layouts, row) && NullsMatch(p.nulls, row)
    requires Holds(p.data, 0, EncodeRow(p.layouts, row))
    ensures p.Run().Ok? && Recovers(p.Run().value.cells, Seen(row), 0)
            && p.Run().value.end == |EncodeRow(p.layouts, row)|
  {
    RowStepsInvert(p, row);
    WalkInvertsLayout(p.ToWalk(), RowEncoder(p.layouts, row), Seen(row), p.data, 0, 0);
  }

  /** For every schema and every row of values and NULLs, walking any data area that
      starts with the row's encoding gives back exactly the row's NULLs and payloads,
      and ends exactly where the encoding ends. */
  lemma DeformInvertsLayout(p: Plan, row: seq<Value>, tail: seq<byte>)
    requires p.Full() && p.accept == AcceptAll() && RowFits(p.layouts, row) && NullsMatch(p.nulls, row)
    requires p.data == EncodeRow(p.layouts, row) + tail
    ensures p.Run().Ok? && Recovers(p.Run().value.cells, Seen(row), 0)
    ensures p.Run().value.end == |EncodeRow(p.layouts, row)|
  {
    var rows := p.(reader := Rows);
    assert p.data[0..|EncodeRow(p.layouts, row)|] == EncodeRow(p.layouts, row);
    RowsInvertLayout(rows, row);
    if p.reader.Rows? {
      assert p == rows;
    } else {
      assert p == p.(reader := Pages);
      PagesRefineRows(p);
    }
  }

  // ── The layout is a prefix code ──────────────────────────────────────────

  lemma HeadersEqual(a: Value, b: Value, data: seq<byte>, at: nat)
    requires Storable(a) && Storable(b) && !a.form.FixedWidth? && !b.form.FixedWidth?
    requires Holds(data, at, Header(a)) && Holds(data, at, Header(b))
    ensures a.form == b.form && |a.bytes| == |b.bytes|
  {
    HeaderByte(a);
    HeaderByte(b);
    HoldsAt(data, at, Header(a), 0);
    HoldsAt(data, at, Header(b), 0);
    if a.form.Plain? || a.form.Compressed? {
      WordReadsBack(data, at, Header(a));
      WordReadsBack(data, at, Header(b));
    }
  }

  lemma SameBytes(data: seq<byte>, at: nat, a: seq<byte>, b: seq<byte>)
    requires |a| == |b| && Holds(data, at, a) && Holds(data, at, b)
    ensures a == b
  {
  }

  /** No two values, in any storage form, can have their headers at the same place. */
  lemma ValueIsUnique(l: ColLayout, a: Value, b: Value, data: seq<byte>, at: nat)
    requires Storable(a) && Storable(b) && Fits(l, a) && Fits(l, b)
    requires PartsAt(a, data, at) && PartsAt(b, data, at)
    ensures a == b
  {
    if !a.form.FixedWidth? {
      HeadersEqual(a, b, data, at);
    }
    SameBytes(data, at + |Header(a)|, a.bytes, b.bytes);
  }

  lemma RowStepsUnique(layouts: seq<ColLayout>, a: seq<Value>, b: seq<Value>, data: seq<byte>, k: nat, o: nat)
    requires RowFits(layouts, a) && RowFits(layouts, b) && k < |a|
    requires a[k].VNull? <==> b[k].VNull?
    requires Holds(data, o, RowEncoder(layouts, a)(k, o)) && Holds(data, o, RowEncoder(layouts, b)(k, o))
    ensures a[k] == b[k]
  {
    if !a[k].VNull? {
      EncodedValueIsFound(layouts[k], a[k], data, o);
      EncodedValueIsFound(layouts[k], b[k], data, o);
      ValueIsUnique(layouts[k], a[k], b[k], data, AlignInRows(layouts[k], data, o));
    }
  }

  lemma LayOutSplit(enc: Encoder, count: nat, data: seq<byte>, i: nat, off: nat)
    requires i < count && Holds(data, off, LayOut(enc, count, i, off))
    ensures Holds(data, off, enc(i, off))
            && Holds(data, off + |enc(i, off)|, LayOut(enc, count, i + 1, off + |enc(i, off)|))
  {
    HoldsSplit(data, off, enc(i, off), LayOut(enc, count, i + 1, off + |enc(i, off)|));
  }

  /** Two encoders whose bytes determine `same` at each column do so along the row. */
  lemma {:induction false} LayoutsUnique(ea: Encoder, eb: Encoder, same: nat -> bool, data: seq<byte>,
                                         count: nat, i: nat, off: nat)
    requires i <= count
    requires Holds(data, off, LayOut(ea, count, i, off)) && Holds(data, off, LayOut(eb, count, i, off))
    requires forall k: nat, o: nat :: k < count && Holds(data, o, ea(k, o)) && Holds(data, o, eb(k, o)) ==>
               same(k) && ea(k, o) == eb(k, o)
    ensures forall k: nat :: i <= k < count ==> same(k)
    decreases count - i
  {
    if i < count {
      LayOutSplit(ea, count, data, i, off);
      LayOutSplit(eb, count, data, i, off);
      LayoutsUnique(ea, eb, same, data, count, i + 1, off + |ea(i, off)|);
    }
  }

  lemma RowsEqual(layouts: seq<ColLayout>, a: seq<Value>, b: seq<Value>, data: seq<byte>, same: nat -> bool)
    requires RowFits(layouts, a) && RowFits(layouts, b)
    requires forall k :: 0 <= k < |layouts| ==> (a[k].VNull? <==> b[k].VNull?)
    requires Holds(data, 0, EncodeRow(layouts, a)) && Holds(data, 0, EncodeRow(layouts, b))
    requires forall k: nat :: k < |a| && a[k] == b[k] ==> same(k)
    ensures forall k: nat :: 0 <= k < |a| ==> same(k)
  {
    var ea, eb := RowEncoder(layouts, a), RowEncoder(layouts, b);
    forall k: nat, o: nat | k < |a| && Holds(data, o, ea(k, o)) && Holds(data, o, eb(k, o))
      ensures same(k) && ea(k, o) == eb(k, o)
    {
      RowStepsUnique(layouts, a, b, data, k, o);
    }
    LayoutsUnique(ea, eb, same, data, |a|, 0, 0);
  }

  /** Given the NULL flags, the bytes determine the row: payloads, storage forms and
      out-of-line pointers, whatever follows in the buffer. */
  lemma LayoutIsUniquelyDecodable(layouts: seq<ColLayout>, a: seq<Value>, b: seq<Value>,
                                  tailA: seq<byte>, tailB: seq<byte>)
    requires RowFits(layouts, a) && RowFits(layouts, b)
    requires forall k :: 0 <= k < |layouts| ==> (a[k].VNull? <==> b[k].VNull?)
    requires EncodeRow(layouts, a) + tailA == EncodeRow(layouts, b) + tailB
    ensures a == b && tailA == tailB
  {
    var bytesA, bytesB := EncodeRow(layouts, a), EncodeRow(layouts, b);
    var data := bytesA + tailA;
    assert bytesA == data[0..0 + |bytesA|] && bytesB == data[0..0 + |bytesB|];
    var same := (k: nat) => k < |a| && k < |b| && a[k] == b[k];
    RowsEqual(layouts, a, b, data, same);
    forall k | 0 <= k < |a| ensures a[k] == b[k] {
      var n: nat := k;
      assert same(n);
    }
    assert a == b;
    assert tailA == data[|bytesA|..] == tailB;
  }
}
