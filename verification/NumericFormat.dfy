/** The two on-disk header forms of a finite NUMERIC, and that parsing inverts them. */
module NumericFormat {
  import opened Base
  import opened Numeric

  predicate IsDigits(d: seq<int>) { forall i :: 0 <= i < |d| ==> 0 <= d[i] < NBASE }

  function EncodeDigits(d: seq<int>): (b: seq<byte>)
    requires IsDigits(d)
    ensures |b| == 2 * |d|
  {
    if d == [] then [] else LE16(d[0]) + EncodeDigits(d[1..])
  }

  lemma {:induction false} DigitsReadBack(d: seq<int>)
    requires IsDigits(d)
    ensures Digits(EncodeDigits(d)) == d
  {
    if d != [] {
      var first, rest := LE16(d[0]), EncodeDigits(d[1..]);
      var b := first + rest;
      DigitsReadBack(d[1..]);
      forall i | 0 <= i < |d| ensures Digits(b)[i] == d[i] {
        if i == 0 {
          assert b[0] == first[0] && b[1] == first[1];
        } else {
          assert b[2 * i] == rest[2 * (i - 1)] && b[2 * i + 1] == rest[2 * (i - 1) + 1];
          assert Digits(rest)[i - 1] == d[1..][i - 1];
        }
      }
    }
  }

  predicate ShortForm(h: Header) { h.dscale < 0x40 && -0x40 <= h.weight < 0x40 }

  predicate LongForm(h: Header) { h.dscale < 0x4000 && -0x8000 <= h.weight < 0x8000 }

  function Bit(b: bool): nat { if b then 1 else 0 }

  /** 10 in the top bits, sign, dscale, then the weight in 7-bit two's complement. */
  function ShortWord(h: Header): (w: nat)
    requires ShortForm(h)
    ensures w < 0xC000
  {
    0x8000 + 0x2000 * Bit(h.neg) + 0x80 * h.dscale + (if h.weight < 0 then h.weight + 0x80 else h.weight)
  }

  function EncodeShort(h: Header): seq<byte>
    requires ShortForm(h) && IsDigits(h.digits)
  {
    LE16(ShortWord(h)) + EncodeDigits(h.digits)
  }

  function LongWord(h: Header): (w: nat)
    requires LongForm(h)
    ensures w < 0x8000
  {
    0x4000 * Bit(h.neg) + h.dscale
  }

  function EncodeLong(h: Header): seq<byte>
    requires LongForm(h) && IsDigits(h.digits)
  {
    LE16(LongWord(h)) + LE16(if h.weight < 0 then h.weight + 0x1_0000 else h.weight) + EncodeDigits(h.digits)
  }

  lemma ShortWordFields(h: Header)
    requires ShortForm(h)
    ensures var w := ShortWord(h);
            && w / 0x4000 == 2 && w / 0x8000 == 1
            && w / 0x80 % 0x40 == h.dscale
            && (HasBit(w, 0x2000) <==> h.neg)
            && (if HasBit(w, 0x40) then w % 0x40 - 0x40 else w % 0x40) == h.weight
  {
    var w := ShortWord(h);
    var low := if h.weight < 0 then h.weight + 0x80 else h.weight;
    assert w / 0x80 == 0x100 + 0x40 * Bit(h.neg) + h.dscale;
    assert w / 0x2000 == 4 + Bit(h.neg);
    assert w / 0x40 == 2 * (0x100 + 0x40 * Bit(h.neg) + h.dscale) + low / 0x40;
  }

  /** Sign, scale, weight and digits survive the short form ... */
  lemma ParseInvertsShort(h: Header)
    requires ShortForm(h) && IsDigits(h.digits)
    ensures ParseHeader(EncodeShort(h)) == Some(h)
  {
    var word, digits := LE16(ShortWord(h)), EncodeDigits(h.digits);
    var b := EncodeShort(h);
    assert b[0] == word[0] && b[1] == word[1];
    assert b[2..] == digits;
    ShortWordFields(h);
    DigitsReadBack(h.digits);
  }

  /** ... and the long form. */
  lemma ParseInvertsLong(h: Header)
    requires LongForm(h) && IsDigits(h.digits)
    ensures ParseHeader(EncodeLong(h)) == Some(h)
  {
    var word, digits := LE16(LongWord(h)), EncodeDigits(h.digits);
    var weight := LE16(if h.weight < 0 then h.weight + 0x1_0000 else h.weight);
    var b := EncodeLong(h);
    assert b[0] == word[0] && b[1] == word[1] && b[2] == weight[0] && b[3] == weight[1];
    assert b[4..] == digits;
    LongWordFields(h);
    DigitsReadBack(h.digits);
  }

  lemma LongWordFields(h: Header)
    requires LongForm(h)
    ensures var w := LongWord(h);
            w % 0x4000 == h.dscale && w / 0x4000 == Bit(h.neg) && w / 0x8000 == 0
  {
  }

  /** As PostgreSQL writes it: the short form where it fits. */
  function Encode(h: Header): seq<byte>
    requires LongForm(h) && IsDigits(h.digits)
  {
    if ShortForm(h) then EncodeShort(h) else EncodeLong(h)
  }

  lemma ParseInvertsEncode(h: Header)
    requires LongForm(h) && IsDigits(h.digits)
    ensures ParseHeader(Encode(h)) == Some(h)
  {
    if ShortForm(h) {
      ParseInvertsShort(h);
    } else {
      ParseInvertsLong(h);
    }
  }

  /** A byte too many, which is half a digit, is ignored. */
  lemma OddByteIsIgnored(bytes: seq<byte>, last: byte)
    requires |bytes| % 2 == 0 && ParseHeader(bytes).Some?
    ensures ParseHeader(bytes + [last]) == ParseHeader(bytes)
  {
    var more := bytes + [last];
    assert more[0] == bytes[0] && more[1] == bytes[1];
    if U16(bytes, 0) / 0x8000 == 1 {
      assert more[2..] == bytes[2..] + [last];
      HalfDigit(bytes[2..], last);
    } else {
      assert more[2] == bytes[2] && more[3] == bytes[3] && more[4..] == bytes[4..] + [last];
      HalfDigit(bytes[4..], last);
    }
  }

  lemma HalfDigit(bytes: seq<byte>, last: byte)
    requires |bytes| % 2 == 0
    ensures Digits(bytes + [last]) == Digits(bytes)
  {
    forall i | 0 <= i < |bytes| / 2 ensures Digits(bytes + [last])[i] == Digits(bytes)[i] {
    }
  }

  /** Exactly the payloads whose top two header bits are set are not finite, apart from
      those too short for their header. */
  lemma SpecialsAreNotFinite(bytes: seq<byte>)
    ensures ParseHeader(bytes).None? <==>
            |bytes| < 2 || U16(bytes, 0) >= 0xC000 || (|bytes| < 4 && U16(bytes, 0) < 0x8000)
  {
  }
}
