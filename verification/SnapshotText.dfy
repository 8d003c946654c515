/** Parsing snapshots from the server's text form (src/heap/snapshot.rs:18-36). */
module SnapshotText {
  import opened Base
  import opened Snapshot

  const U32_LIMIT := 0x1_0000_0000

  /** `char::is_whitespace` */
  predicate IsSpace(c: char) {
    var k := c as int;
    || 0x9 <= k <= 0xD || k == 0x20 || k == 0x85 || k == 0xA0 || k == 0x1680 || 0x2000 <= k <= 0x200A
    || k == 0x2028 || k == 0x2029 || k == 0x202F || k == 0x205F || k == 0x3000
  }

  /** The 25 characters of the Unicode property White_Space. */
  lemma SpacesAre(c: char)
    ensures IsSpace(c) <==>
            c as int in {9, 10, 11, 12, 13, 32, 133, 160, 5760, 8192, 8193, 8194, 8195, 8196, 8197, 8198, 8199, 8200,
                         8201, 8202, 8232, 8233, 8239, 8287, 12288}
  {
  }

  function TrimStart(s: string): string { if s != [] && IsSpace(s[0]) then TrimStart(s[1..]) else s }

  function TrimEnd(s: string): string { if s != [] && IsSpace(s[|s| - 1]) then TrimEnd(s[..|s| - 1]) else s }

  function Trim(s: string): string { TrimEnd(TrimStart(s)) }

  predicate IsDigit(c: char) { '0' <= c <= '9' }

  /** The number read so far, unless a character is no digit or the number leaves u32. */
  function Digits(s: string): Option<nat> {
    if s == [] then Some(0)
    else
      var c := s[|s| - 1];
      match Digits(s[..|s| - 1])
      case None => None
      case Some(v) =>
        if !IsDigit(c) || v * 10 + (c - '0') as nat >= U32_LIMIT then None else Some(v * 10 + (c - '0') as nat)
  }

  /** `parse::<u32>()`: digits after an optional plus sign. */
  function ParseU32(s: string): Option<nat> {
    var digits := if s != [] && s[0] == '+' then s[1..] else s;
    if digits == [] then None else Digits(digits)
  }

  function SplitOnce(s: string, c: char): (r: Option<(string, string)>)
    ensures r.Some? ==> |r.value.1| < |s|
  {
    if s == [] then None
    else if s[0] == c then Some(([], s[1..]))
    else match SplitOnce(s[1..], c)
      case None => None
      case Some((a, b)) => Some(([s[0]] + a, b))
  }

  function Split(s: string, c: char): seq<string>
    decreases |s|
  {
    match SplitOnce(s, c)
    case None => [s]
    case Some((a, b)) => [a] + Split(b, c)
  }

  function SplitN3(s: string, c: char): seq<string> {
    match SplitOnce(s, c)
    case None => [s]
    case Some((a, rest)) =>
      match SplitOnce(rest, c)
      case None => [a, rest]
      case Some((b, last)) => [a, b, last]
  }

  /** The entries that parse, in order; any other is dropped. */
  function ParseEach(entries: seq<string>): seq<nat> {
    if entries == [] then []
    else
      var rest := ParseEach(entries[1..]);
      match ParseU32(Trim(entries[0]))
      case None => rest
      case Some(xid) => [xid] + rest
  }

  function Parse(s: string): Option<PgSnapshot> { ParseParts(SplitN3(s, ':')) }

  function ParseParts(parts: seq<string>): Option<PgSnapshot> {
    if |parts| < 2 then None
    else
      match ParseU32(Trim(parts[0]))
      case None => None
      case Some(xmin) =>
        match ParseU32(Trim(parts[1]))
        case None => None
        case Some(xmax) => Some(PgSnapshot(xmin, xmax, if |parts| == 3 then ParseList(parts[2]) else []))
  }

  function ParseList(list: string): seq<nat> {
    if Trim(list) != [] then ParseEach(Split(list, ',')) else []
  }

  // ── The server's side ────────────────────────────────────────────────────

  function Decimal(n: nat): (s: string)
    ensures s != [] && forall i :: 0 <= i < |s| ==> IsDigit(s[i])
  {
    (if n < 10 then [] else Decimal(n / 10)) + ['0' + (n % 10) as char]
  }

  function Join(entries: seq<string>): string {
    if entries == [] then [] else if |entries| == 1 then entries[0] else entries[0] + [','] + Join(entries[1..])
  }

  function Text(xmin: nat, xmax: nat, entries: seq<string>): string {
    Decimal(xmin) + [':'] + Decimal(xmax) + [':'] + Join(entries)
  }

  function Decimals(xids: seq<nat>): (e: seq<string>)
    ensures |e| == |xids| && forall i :: 0 <= i < |e| ==> e[i] == Decimal(xids[i])
  {
    if xids == [] then [] else [Decimal(xids[0])] + Decimals(xids[1..])
  }

  function Render(s: PgSnapshot): string { Text(s.xmin, s.xmax, Decimals(s.xip)) }

  // ── Round trips ──────────────────────────────────────────────────────────

  lemma {:induction false} DecimalReadsBack(n: nat)
    ensures Digits(Decimal(n)) == if n < U32_LIMIT then Some(n) else None
  {
    if n >= 10 {
      DecimalReadsBack(n / 10);
      var s := Decimal(n);
      assert s[..|s| - 1] == Decimal(n / 10);
    }
  }

  lemma DecimalParses(n: nat)
    ensures ParseU32(Trim(Decimal(n))) == if n < U32_LIMIT then Some(n) else None
  {
    DecimalReadsBack(n);
    var s := Decimal(n);
    DigitIsNoSpace(s[0]);
    DigitIsNoSpace(s[|s| - 1]);
  }

  lemma DigitIsNoSpace(c: char)
    requires IsDigit(c)
    ensures !IsSpace(c) && c != '+'
  {
  }

  lemma {:induction false} SplitOnceAt(a: string, c: char, b: string)
    requires c !in a
    ensures SplitOnce(a + [c] + b, c) == Some((a, b))
    ensures SplitOnce(a, c) == None
  {
    if a == [] {
      assert a + [c] + b == [c] + b;
    } else {
      assert (a + [c] + b)[1..] == a[1..] + [c] + b;
      SplitOnceAt(a[1..], c, b);
      assert [a[0]] + a[1..] == a;
    }
  }

  lemma {:induction false} SplitInvertsJoin(entries: seq<string>)
    requires entries != [] && forall i :: 0 <= i < |entries| ==> ',' !in entries[i]
    ensures Split(Join(entries), ',') == entries
  {
    SplitOnceAt(entries[0], ',', Join(entries[1..]));
    if |entries| > 1 {
      SplitInvertsJoin(entries[1..]);
    }
  }

  lemma {:induction false} TrimStartKeeps(s: string, c: char)
    requires c in s && !IsSpace(c)
    ensures c in TrimStart(s)
  {
    if IsSpace(s[0]) {
      TrimStartKeeps(s[1..], c);
    }
  }

  lemma {:induction false} TrimEndKeeps(s: string, c: char)
    requires c in s && !IsSpace(c)
    ensures c in TrimEnd(s)
  {
    if IsSpace(s[|s| - 1]) {
      TrimEndKeeps(s[..|s| - 1], c);
    }
  }

  /** A list that is blank has no entry that parses. */
  lemma BlankListIsEmpty(entries: seq<string>)
    requires Trim(Join(entries)) == []
    ensures ParseEach(entries) == []
  {
    if |entries| > 1 {
      TrimStartKeeps(Join(entries), ',');
      TrimEndKeeps(TrimStart(Join(entries)), ',');
    } else if |entries| == 1 {
      assert ParseEach(entries[1..]) == [];
    }
  }

  lemma NoDelimiter(n: nat)
    ensures ':' !in Decimal(n) && ',' !in Decimal(n)
  {
  }

  lemma ThreeFields(a: string, b: string, c: string)
    requires ':' !in a && ':' !in b
    ensures SplitN3(a + [':'] + b + [':'] + c, ':') == [a, b, c]
  {
    assert a + [':'] + b + [':'] + c == a + [':'] + (b + [':'] + c);
    SplitOnceAt(a, ':', b + [':'] + c);
    SplitOnceAt(b, ':', c);
  }

  lemma ListParses(entries: seq<string>)
    requires forall i :: 0 <= i < |entries| ==> ',' !in entries[i]
    ensures ParseList(Join(entries)) == ParseEach(entries)
  {
    if Trim(Join(entries)) == [] {
      BlankListIsEmpty(entries);
    } else if entries != [] {
      SplitInvertsJoin(entries);
    }
  }

  lemma PartsParse(xmin: nat, xmax: nat, list: string)
    ensures ParseParts([Decimal(xmin), Decimal(xmax), list]) ==
            if xmin < U32_LIMIT && xmax < U32_LIMIT then Some(PgSnapshot(xmin, xmax, ParseList(list))) else None
  {
    DecimalParses(xmin);
    DecimalParses(xmax);
  }

  /** Between two decimal fields and a list of comma-free entries, the fields are read back
      and the list keeps exactly the entries that are numbers. */
  lemma TextParses(xmin: nat, xmax: nat, entries: seq<string>)
    requires forall i :: 0 <= i < |entries| ==> ',' !in entries[i]
    ensures Parse(Text(xmin, xmax, entries)) ==
            if xmin < U32_LIMIT && xmax < U32_LIMIT then Some(PgSnapshot(xmin, xmax, ParseEach(entries))) else None
  {
    NoDelimiter(xmin);
    NoDelimiter(xmax);
    ThreeFields(Decimal(xmin), Decimal(xmax), Join(entries));
    PartsParse(xmin, xmax, Join(entries));
    ListParses(entries);
  }

  lemma {:induction false} DecimalsParse(xids: seq<nat>)
    requires forall i :: 0 <= i < |xids| ==> xids[i] < U32_LIMIT
    ensures ParseEach(Decimals(xids)) == xids
    ensures forall i :: 0 <= i < |xids| ==> ',' !in Decimals(xids)[i]
  {
    if xids != [] {
      NoDelimiter(xids[0]);
      DecimalParses(xids[0]);
      DecimalsParse(xids[1..]);
      assert Decimals(xids)[1..] == Decimals(xids[1..]);
    }
  }

  /** Every snapshot of 32-bit ids is read back from its text. */
  lemma ParseInvertsRender(s: PgSnapshot)
    requires s.xmin < U32_LIMIT && s.xmax < U32_LIMIT && forall i :: 0 <= i < |s.xip| ==> s.xip[i] < U32_LIMIT
    ensures Parse(Render(s)) == Some(s)
  {
    DecimalsParse(s.xip);
    TextParses(s.xmin, s.xmax, Decimals(s.xip));
  }

  /** Without a list there is none, and without a colon there is no snapshot. */
  lemma ShortTexts(xmin: nat, xmax: nat, text: string)
    ensures Parse(Decimal(xmin) + [':'] + Decimal(xmax)) ==
            if xmin < 0x1_0000_0000 && xmax < 0x1_0000_0000 then Some(PgSnapshot(xmin, xmax, [])) else None
    ensures ':' !in text ==> Parse(text) == None
  {
    TwoFields(Decimal(xmin), Decimal(xmax));
    NoDelimiter(xmin);
    NoDelimiter(xmax);
    DecimalParses(xmin);
    DecimalParses(xmax);
    OneField(text);
  }

  lemma TwoFields(a: string, b: string)
    ensures ':' !in a && ':' !in b ==> SplitN3(a + [':'] + b, ':') == [a, b]
  {
    if ':' !in a && ':' !in b {
      SplitOnceAt(a, ':', b);
      SplitOnceAt(b, ':', []);
    }
  }

  lemma OneField(text: string)
    ensures ':' !in text ==> SplitN3(text, ':') == [text]
  {
    if ':' !in text {
      SplitOnceAt(text, ':', []);
    }
  }

  predicate IsBlank(s: string) { forall i :: 0 <= i < |s| ==> s[i] in {' ', '\t', '\n', '\r'} }

  lemma {:induction false} TrimStartBlank(blank: string, s: string)
    requires IsBlank(blank) && (s != [] ==> !IsSpace(s[0]))
    ensures TrimStart(blank + s) == s
  {
    if blank == [] {
      assert blank + s == s;
    } else {
      assert (blank + s)[1..] == blank[1..] + s;
      TrimStartBlank(blank[1..], s);
    }
  }

  lemma {:induction false} TrimEndBlank(s: string, blank: string)
    requires IsBlank(blank) && (s != [] ==> !IsSpace(s[|s| - 1]))
    ensures TrimEnd(s + blank) == s
  {
    if blank == [] {
      assert s + blank == s;
    } else {
      var n := |blank| - 1;
      assert (s + blank)[..|s| + n] == s + blank[..n] && (s + blank)[|s| + n] == blank[n];
      TrimEndBlank(s, blank[..n]);
    }
  }

  /** Blanks around a number and a plus sign before it are ignored. */
  lemma PaddedNumberParses(before: string, n: nat, after: string)
    requires IsBlank(before) && IsBlank(after)
    ensures ParseU32(Trim(before + Decimal(n) + after)) == if n < 0x1_0000_0000 then Some(n) else None
    ensures ParseU32(['+'] + Decimal(n)) == ParseU32(Decimal(n))
  {
    var s := Decimal(n);
    DigitIsNoSpace(s[0]);
    DigitIsNoSpace(s[|s| - 1]);
    assert before + s + after == before + (s + after) && (s + after)[0] == s[0];
    TrimStartBlank(before, s + after);
    TrimEndBlank(s, after);
    DecimalReadsBack(n);
  }

  /** Only digits, after at most one plus sign, are read as a number. */
  lemma {:induction false} OnlyDigitsParse(s: string)
    ensures Digits(s).Some? ==> forall i :: 0 <= i < |s| ==> IsDigit(s[i])
  {
    if s != [] {
      OnlyDigitsParse(s[..|s| - 1]);
    }
  }

  lemma NumbersAreDigits(s: string)
    requires ParseU32(s).Some?
    ensures s != [] && s != ['+'] && ParseU32(s).value < 0x1_0000_0000
    ensures forall i :: 0 <= i < |s| ==> '0' <= s[i] <= '9' || (i == 0 && s[0] == '+')
  {
    var digits := if s[0] == '+' then s[1..] else s;
    OnlyDigitsParse(digits);
    if s[0] == '+' {
      forall i | 0 < i < |s| ensures IsDigit(s[i]) {
        assert s[i] == digits[i - 1];
      }
    }
  }

  /** A transaction between xmin and xmax is seen exactly when no entry reads as its id: an
      entry that does not parse makes its transaction visible. */
  lemma VisibleIffNotRead(xmin: nat, xmax: nat, entries: seq<string>, xid: nat)
    requires 2 < xid && xmin <= xid < xmax < 0x1_0000_0000
    requires forall i :: 0 <= i < |entries| ==> ',' !in entries[i]
    ensures Parse(Text(xmin, xmax, entries)).Some?
    ensures Parse(Text(xmin, xmax, entries)).value.XminVisible(xid) <==>
            forall i :: 0 <= i < |entries| ==> ParseU32(Trim(entries[i])) != Some(xid)
  {
    TextParses(xmin, xmax, entries);
    InParseEach(entries, xid);
  }

  lemma {:induction false} InParseEach(entries: seq<string>, xid: nat)
    ensures xid in ParseEach(entries) <==> exists i :: 0 <= i < |entries| && ParseU32(Trim(entries[i])) == Some(xid)
  {
    if entries != [] {
      InParseEach(entries[1..], xid);
      if xid in ParseEach(entries[1..]) {
        var i :| 0 <= i < |entries[1..]| && ParseU32(Trim(entries[1..][i])) == Some(xid);
        assert entries[i + 1] == entries[1..][i];
      }
      forall i | 0 < i < |entries| && ParseU32(Trim(entries[i])) == Some(xid) ensures xid in ParseEach(entries[1..]) {
        assert entries[1..][i - 1] == entries[i];
      }
    }
  }
}
