/** Schemas from catalogue rows, and their projection (src/types/schema.rs:25-87). */
module Schema {
  import opened Base
  import opened Codec
  import opened Builder

  datatype PgAttribute =
    PgAttribute(attnum: int, isDropped: bool, typeId: Option<PgTypeId>, typmod: int, notNull: bool)

  predicate Live(a: PgAttribute) { !a.isDropped && a.attnum > 0 }

  function LiveOnes(attrs: seq<PgAttribute>): (r: seq<PgAttribute>)
    ensures forall a :: a in r <==> a in attrs && Live(a)
  {
    if attrs == [] then [] else (if Live(attrs[0]) then [attrs[0]] else []) + LiveOnes(attrs[1..])
  }

  function Insert(a: PgAttribute, s: seq<PgAttribute>): (r: seq<PgAttribute>)
    ensures forall x :: x in r <==> x == a || x in s
  {
    if s == [] then [a]
    else if a.attnum <= s[0].attnum then [a] + s
    else [s[0]] + Insert(a, s[1..])
  }

  /** `sort_by_key(|a| a.attnum)` */
  function SortByAttnum(s: seq<PgAttribute>): (r: seq<PgAttribute>)
    ensures forall x :: x in r <==> x in s
  {
    if s == [] then [] else Insert(s[0], SortByAttnum(s[1..]))
  }

  /** A type that is not known is read as text. */
  function ColumnFrom(a: PgAttribute): PgColumn {
    PgColumn(if a.typeId.Some? then a.typeId.value else Text, a.typmod, !a.notNull)
  }

  /** The attributes behind the schema's columns, in column order. */
  function SchemaAttributes(attrs: seq<PgAttribute>): seq<PgAttribute> { SortByAttnum(LiveOnes(attrs)) }

  function FromAttributes(attrs: seq<PgAttribute>): (cols: seq<PgColumn>)
    ensures |cols| == |SchemaAttributes(attrs)|
    ensures forall k :: 0 <= k < |cols| ==> cols[k] == ColumnFrom(SchemaAttributes(attrs)[k])
  {
    seq(|SchemaAttributes(attrs)|, k requires 0 <= k < |SchemaAttributes(attrs)| => ColumnFrom(SchemaAttributes(attrs)[k]))
  }

  /** Field by field: an attribute's type where it is known and text where it is not, its
      type modifier, and NULLs unless it is NOT NULL. */
  lemma ColumnsAreAttributes(attrs: seq<PgAttribute>, k: nat)
    requires k < |FromAttributes(attrs)|
    ensures |FromAttributes(attrs)| == |SchemaAttributes(attrs)|
    ensures var (col, a) := (FromAttributes(attrs)[k], SchemaAttributes(attrs)[k]);
            && (col.nullable <==> !a.notNull) && col.typmod == a.typmod
            && (a.typeId.Some? ==> col.typeId == a.typeId.value) && (a.typeId.None? ==> col.typeId == Text)
  {
  }

  /** The attributes that are neither dropped nor system columns, each as often as it occurs,
      in ascending order. */
  lemma SchemaIsLiveAttributes(attrs: seq<PgAttribute>)
    ensures multiset(SchemaAttributes(attrs)) == multiset(UserColumns(attrs))
    ensures forall a :: a in SchemaAttributes(attrs) <==> a in attrs && !a.isDropped && a.attnum > 0
    ensures Ascending(SchemaAttributes(attrs))
  {
    LiveOnesAreUserColumns(attrs);
    SortAscends(LiveOnes(attrs));
  }

  function UserColumns(attrs: seq<PgAttribute>): seq<PgAttribute> {
    if attrs == [] then []
    else if attrs[|attrs| - 1].isDropped || attrs[|attrs| - 1].attnum <= 0 then UserColumns(attrs[..|attrs| - 1])
    else UserColumns(attrs[..|attrs| - 1]) + [attrs[|attrs| - 1]]
  }

  lemma {:induction false} LiveOnesSplit(a: seq<PgAttribute>, b: seq<PgAttribute>)
    ensures LiveOnes(a + b) == LiveOnes(a) + LiveOnes(b)
  {
    if a == [] {
      assert a + b == b;
    } else {
      assert (a + b)[1..] == a[1..] + b;
      LiveOnesSplit(a[1..], b);
    }
  }

  lemma {:induction false} LiveOnesAreUserColumns(attrs: seq<PgAttribute>)
    ensures LiveOnes(attrs) == UserColumns(attrs)
  {
    if attrs != [] {
      var init, last := attrs[..|attrs| - 1], attrs[|attrs| - 1];
      assert attrs == init + [last];
      LiveOnesSplit(init, [last]);
      LiveOnesAreUserColumns(init);
      assert [last][1..] == [];
    }
  }

  ghost predicate Ascending(s: seq<PgAttribute>) {
    forall i, j :: 0 <= i < j < |s| ==> s[i].attnum <= s[j].attnum
  }

  lemma {:induction false} InsertAscends(a: PgAttribute, s: seq<PgAttribute>)
    requires Ascending(s)
    ensures Ascending(Insert(a, s))
  {
    if s != [] && a.attnum > s[0].attnum {
      InsertAscends(a, s[1..]);
      FirstAscends(s[0], Insert(a, s[1..]), a, s[1..]);
    }
  }

  lemma FirstAscends(first: PgAttribute, rest: seq<PgAttribute>, a: PgAttribute, s: seq<PgAttribute>)
    requires Ascending(rest) && Ascending([first] + s) && first.attnum <= a.attnum
    requires forall x :: x in rest ==> x == a || x in s
    ensures Ascending([first] + rest)
  {
    forall j | 0 <= j < |rest| ensures first.attnum <= rest[j].attnum {
      assert rest[j] in rest;
      if rest[j] != a {
        var i :| 0 <= i < |s| && s[i] == rest[j];
        assert ([first] + s)[0] == first && ([first] + s)[i + 1] == s[i];
      }
    }
  }

  lemma {:induction false} InsertAdds(a: PgAttribute, s: seq<PgAttribute>)
    ensures multiset(Insert(a, s)) == multiset(s) + multiset{a}
  {
    if s != [] && a.attnum > s[0].attnum {
      InsertAdds(a, s[1..]);
      assert s == [s[0]] + s[1..];
    }
  }

  lemma {:induction false} SortAscends(s: seq<PgAttribute>)
    ensures Ascending(SortByAttnum(s)) && multiset(SortByAttnum(s)) == multiset(s)
  {
    if s != [] {
      SortAscends(s[1..]);
      InsertAscends(s[0], SortByAttnum(s[1..]));
      InsertAdds(s[0], SortByAttnum(s[1..]));
      assert s == [s[0]] + s[1..];
    }
  }

  ghost predicate HasNumber(attrs: seq<PgAttribute>, n: int) { exists a :: a in attrs && a.attnum == n }

  ghost predicate Distinct(attrs: seq<PgAttribute>) {
    forall i, j :: 0 <= i < j < |attrs| ==> attrs[i].attnum != attrs[j].attnum
  }

  /** The rows pg_attribute has for one relation: attribute numbers are unique, and user
      columns, dropped or not, are numbered 1, 2, 3, ... */
  ghost predicate OfOneRelation(attrs: seq<PgAttribute>) {
    Distinct(attrs) && forall m: int, n: int :: 0 < m < n && HasNumber(attrs, n) ==> HasNumber(attrs, m)
  }

  ghost predicate Increasing(s: seq<PgAttribute>) {
    s == [] || ((forall x :: x in s[1..] ==> s[0].attnum < x.attnum) && Increasing(s[1..]))
  }

  lemma {:induction false} InsertKeepsIncreasing(a: PgAttribute, s: seq<PgAttribute>)
    requires Increasing(s) && forall x :: x in s ==> x.attnum != a.attnum
    ensures Increasing(Insert(a, s))
  {
    if s != [] && a.attnum > s[0].attnum {
      InsertKeepsIncreasing(a, s[1..]);
      assert Insert(a, s)[1..] == Insert(a, s[1..]);
    } else {
      assert Insert(a, s)[1..] == s;
    }
  }

  lemma {:induction false} SortIsIncreasing(attrs: seq<PgAttribute>)
    requires Distinct(attrs)
    ensures Increasing(SchemaAttributes(attrs))
  {
    if attrs != [] {
      SortIsIncreasing(attrs[1..]);
      if Live(attrs[0]) {
        assert LiveOnes(attrs)[1..] == LiveOnes(attrs[1..]);
        InsertKeepsIncreasing(attrs[0], SchemaAttributes(attrs[1..]));
      } else {
        assert LiveOnes(attrs) == LiveOnes(attrs[1..]);
      }
    }
  }

  lemma {:induction false} IncreasingAt(s: seq<PgAttribute>, i: nat, j: nat)
    requires Increasing(s) && i < j < |s|
    ensures s[i].attnum < s[j].attnum
  {
    if i > 0 {
      IncreasingAt(s[1..], i - 1, j - 1);
    } else {
      assert s[j] == s[1..][j - 1];
    }
  }

  /** Numbers grow at least as fast as positions. */
  lemma {:induction false} PositionsBelowNumbers(s: seq<PgAttribute>, i: nat, j: nat)
    requires Increasing(s) && i <= j < |s|
    ensures s[j].attnum - s[i].attnum >= j - i
    decreases j - i
  {
    if i < j {
      IncreasingAt(s, j - 1, j);
      PositionsBelowNumbers(s, i, j - 1);
    }
  }

  /** No dropped column comes before number `n`. */
  ghost predicate NoneDroppedBefore(attrs: seq<PgAttribute>, n: int) {
    forall a :: a in attrs && 0 < a.attnum < n ==> !a.isDropped
  }

  lemma PositionIff(attrs: seq<PgAttribute>, k: nat)
    requires OfOneRelation(attrs) && k < |SchemaAttributes(attrs)|
    ensures var a := SchemaAttributes(attrs)[k];
            && a in attrs && Live(a)
            && (a.attnum == k + 1 <==> NoneDroppedBefore(attrs, a.attnum))
  {
    var s := SchemaAttributes(attrs);
    SortIsIncreasing(attrs);
    var a := s[k];
    assert a in s && s[0] in s;
    if a.attnum == k + 1 {
      forall d | d in attrs && 0 < d.attnum < a.attnum ensures !d.isDropped {
        NumbersFillPositions(s, k, d.attnum - 1);
        assert s[d.attnum - 1] in attrs;
        assert d == s[d.attnum - 1];
      }
    }
    if NoneDroppedBefore(attrs, a.attnum) {
      NumbersLeaveNoGap(attrs, k);
    }
  }

  lemma NumbersFillPositions(s: seq<PgAttribute>, k: nat, j: nat)
    requires Increasing(s) && j <= k < |s| && s[k].attnum == k + 1 && s[0].attnum > 0
    ensures s[j].attnum == j + 1
  {
    PositionsBelowNumbers(s, 0, j);
    PositionsBelowNumbers(s, j, k);
  }

  /** With nothing dropped before it, the numbers up to column `k` leave no gap. */
  lemma {:induction false} NumbersLeaveNoGap(attrs: seq<PgAttribute>, k: nat)
    requires OfOneRelation(attrs) && k < |SchemaAttributes(attrs)|
    requires NoneDroppedBefore(attrs, SchemaAttributes(attrs)[k].attnum)
    ensures SchemaAttributes(attrs)[k].attnum == k + 1
  {
    var s := SchemaAttributes(attrs);
    SortIsIncreasing(attrs);
    assert s[k] in s && s[0] in s;
    PositionsBelowNumbers(s, 0, k);
    if s[k].attnum > k + 1 {
      assert HasNumber(attrs, s[k].attnum);
      assert HasNumber(attrs, k + 1);
      var b :| b in attrs && b.attnum == k + 1;
      assert b in s;
      var j :| 0 <= j < |s| && s[j] == b;
      if j < k {
        IncreasingAt(s, j, k);
        NumbersLeaveNoGap(attrs, j);
      } else if j > k {
        IncreasingAt(s, k, j);
      }
    }
  }

  /** Column `k` of the schema is attribute `k + 1`, and so value `k` of a stored tuple,
      exactly when no dropped column precedes it: the decoders' use of schema positions as
      tuple positions needs every dropped column to come after the live ones. */
  lemma SchemaPositionIsTuplePositionIff(attrs: seq<PgAttribute>, k: nat)
    requires OfOneRelation(attrs) && k < |FromAttributes(attrs)|
    ensures var a := SchemaAttributes(attrs)[k];
            && a in attrs && Live(a) && FromAttributes(attrs)[k] == ColumnFrom(a)
            && (a.attnum == k + 1 <==> NoneDroppedBefore(attrs, a.attnum))
  {
    PositionIff(attrs, k);
  }

  // ── Projection ───────────────────────────────────────────────────────────

  /** Indexing out of range panics. */
  function Project(cols: seq<PgColumn>, indices: seq<nat>): Result<seq<PgColumn>> {
    if indices == [] then Ok([])
    else if indices[0] >= |cols| then Err(Panic)
    else
      var rest :- Project(cols, indices[1..]);
      Ok([cols[indices[0]]] + rest)
  }

  lemma {:induction false} ProjectPicks(cols: seq<PgColumn>, indices: seq<nat>)
    ensures Project(cols, indices).Ok? <==> forall j :: 0 <= j < |indices| ==> indices[j] < |cols|
    ensures Project(cols, indices).Err? ==> Project(cols, indices).error == Panic
    ensures Project(cols, indices).Ok? ==>
              && |Project(cols, indices).value| == |indices|
              && forall j :: 0 <= j < |indices| ==> Project(cols, indices).value[j] == cols[indices[j]]
  {
    if indices != [] {
      ProjectPicks(cols, indices[1..]);
    }
  }

  /** Projecting a projection is projecting once. */
  lemma {:induction false} ProjectionsCompose(cols: seq<PgColumn>, p: seq<nat>, q: seq<nat>, pq: seq<nat>)
    requires Project(cols, p).Ok? && |pq| == |q|
    requires forall j :: 0 <= j < |q| ==> q[j] < |p| && pq[j] == p[q[j]]
    ensures Project(cols, pq).Ok? && Project(Project(cols, p).value, q) == Project(cols, pq)
  {
    if q != [] {
      ProjectPicks(cols, p);
      ProjectionsCompose(cols, p, q[1..], pq[1..]);
    }
  }
}
