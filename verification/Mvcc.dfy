/** The tuple filter of to_record_batch against PostgreSQL's MVCC test, as laid out in
    docs/design/DESIGN.md:1243-1318. */
module Mvcc {
  import opened Base
  import opened HeapTuples
  import opened Snapshot

  /** xmax is absent or flagged invalid. */
  predicate Undeleted(h: TupleHeader) { HasBit(h.infomask, HEAP_XMAX_INVALID) || h.xmax == 0 }

  /** The tuples to_record_batch keeps. */
  predicate Kept(h: TupleHeader, snapshot: Option<PgSnapshot>) {
    Undeleted(h) && (snapshot.Some? ==> snapshot.value.XminVisible(h.xmin))
  }

  // ── HeapTupleSatisfiesMVCC, with the flag bits of t_infomask ─────────────

  /** HEAP_XMIN_COMMITTED (0x0100) and HEAP_XMIN_INVALID (0x0200). */
  predicate Frozen(h: TupleHeader) { HasBit(h.infomask, 0x0100) && HasBit(h.infomask, 0x0200) }

  /** By hint bits, or failing them by the commit log. */
  predicate InserterCommitted(h: TupleHeader, clog: nat -> Status) {
    Frozen(h) || (!HasBit(h.infomask, 0x0200) && (HasBit(h.infomask, 0x0100) || clog(h.xmin) == Committed))
  }

  predicate InserterSeen(h: TupleHeader, s: PgSnapshot, clog: nat -> Status) {
    InserterCommitted(h, clog) && (Frozen(h) || (h.xmin !in s.xip && h.xmin < s.xmax))
  }

  /** HEAP_XMAX_INVALID (0x0800), HEAP_XMAX_LOCK_ONLY (0x0080), HEAP_XMAX_IS_MULTI (0x1000),
      whose multixact `multi` resolves, and HEAP_XMAX_COMMITTED (0x0400). */
  predicate NotDeletedFor(h: TupleHeader, s: PgSnapshot, clog: nat -> Status, multi: nat -> bool) {
    if h.xmax == 0 || HasBit(h.infomask, 0x0800) then true
    else if HasBit(h.infomask, 0x0080) then true
    else if HasBit(h.infomask, 0x1000) then multi(h.xmax)
    else if !HasBit(h.infomask, 0x0400) && clog(h.xmax) != Committed then true
    else h.xmax in s.xip || h.xmax >= s.xmax
  }

  predicate SatisfiesMvcc(h: TupleHeader, s: PgSnapshot, clog: nat -> Status, multi: nat -> bool) {
    InserterSeen(h, s, clog) && NotDeletedFor(h, s, clog, multi)
  }

  predicate WellFormed(s: PgSnapshot) {
    FIRST_NORMAL_XID <= s.xmin <= s.xmax && forall xid :: xid in s.xip ==> s.xmin <= xid < s.xmax
  }

  /** A kept row is a visible row exactly when its inserter committed, which the filter
      never checks. */
  lemma KeptIsVisibleIffInserterCommitted(h: TupleHeader, s: PgSnapshot, clog: nat -> Status, multi: nat -> bool)
    requires WellFormed(s) && Kept(h, Some(s))
    ensures SatisfiesMvcc(h, s, clog, multi) <==> InserterCommitted(h, clog)
  {
  }

  /** No xmax is recorded, or bit 0x0800 of t_infomask says that it is invalid. */
  predicate NoXmax(h: TupleHeader) { h.xmax == 0 || h.infomask / 0x0800 % 2 == 1 }

  /** Which tuples are kept, in terms of their header fields. */
  lemma KeptIff(h: TupleHeader, s: PgSnapshot)
    ensures Kept(h, None) <==> NoXmax(h)
    ensures Kept(h, Some(s)) <==>
            NoXmax(h) && (h.xmin <= 2 || h.xmin < s.xmin || (h.xmin < s.xmax && h.xmin !in s.xip))
  {
  }

  /** A visible row is kept exactly when no valid xmax is recorded and, if it is frozen, its
      xmin passes the snapshot test, which a frozen row need not. Locked rows are dropped,
      and rows deleted by an aborted, running or later transaction, and rows frozen after the
      snapshot was taken. */
  lemma VisibleIsKeptIffUndeleted(h: TupleHeader, s: PgSnapshot, clog: nat -> Status, multi: nat -> bool)
    requires SatisfiesMvcc(h, s, clog, multi)
    ensures Kept(h, Some(s)) <==>
            && (h.xmax == 0 || h.infomask / 0x0800 % 2 == 1)
            && (Frozen(h) ==> h.xmin <= 2 || h.xmin < s.xmin || (h.xmin < s.xmax && h.xmin !in s.xip))
  {
  }

  /** A row of transaction 30, frozen since a snapshot of transactions below 20, is visible
      yet dropped. */
  lemma FrozenRowIsDropped(clog: nat -> Status, multi: nat -> bool)
    ensures var h := TupleHeader(30, 0, 0, 0, 0, 1, 1, 0x0300, 24);
            var s := PgSnapshot(20, 20, []);
            SatisfiesMvcc(h, s, clog, multi) && h.xmax == 0 && !Kept(h, Some(s))
  {
  }

  /** A row of a committed transaction, locked but never deleted, is visible yet dropped. */
  lemma LockedRowIsDropped(clog: nat -> Status, multi: nat -> bool)
    ensures var h := TupleHeader(10, 11, 0, 0, 0, 1, 1, 0x0180, 24);
            var s := PgSnapshot(20, 20, []);
            SatisfiesMvcc(h, s, clog, multi) && !Kept(h, Some(s))
  {
  }

  /** A row whose deletion was rolled back and has been flagged so is visible and kept. */
  lemma RolledBackDeleteIsKept(clog: nat -> Status, multi: nat -> bool)
    ensures var h := TupleHeader(10, 11, 0, 0, 0, 1, 1, 0x0900, 24);
            var s := PgSnapshot(20, 20, []);
            SatisfiesMvcc(h, s, clog, multi) && Kept(h, Some(s)) && Kept(h, None)
  {
  }

  /** A row deleted by a committed transaction is neither, whether or not its deletion is
      flagged committed; one whose xmax is a multixact is as visible as that says. */
  lemma CommittedDeleteIsGone(clog: nat -> Status, multi: nat -> bool)
    ensures var h := TupleHeader(10, 11, 0, 0, 0, 1, 1, 0x0500, 24);
            var s := PgSnapshot(20, 20, []);
            !SatisfiesMvcc(h, s, clog, multi) && !Kept(h, Some(s))
    ensures clog(11) == Committed ==>
              !SatisfiesMvcc(TupleHeader(10, 11, 0, 0, 0, 1, 1, 0x0100, 24), PgSnapshot(20, 20, []), clog, multi)
    ensures SatisfiesMvcc(TupleHeader(10, 11, 0, 0, 0, 1, 1, 0x1100, 24), PgSnapshot(20, 20, []), clog, multi)
            <==> multi(11)
  {
  }

  // ── Over whole runs ──────────────────────────────────────────────────────

  function Clog(sys: System): nat -> Status {
    (xid: nat) => if sys.Assigned(xid) then sys.StatusOf(xid) else Running
  }

  /** The hint bits a tuple carries are true of its inserter. */
  predicate HintsAgree(h: TupleHeader, clog: nat -> Status) {
    && (HasBit(h.infomask, 0x0100) ==> clog(h.xmin) == Committed)
    && (HasBit(h.infomask, 0x0200) && !Frozen(h) ==> clog(h.xmin) != Committed)
  }

  lemma InserterCommittedByClog(h: TupleHeader, clog: nat -> Status)
    requires HintsAgree(h, clog)
    ensures InserterCommitted(h, clog) <==> clog(h.xmin) == Committed
  {
  }

  /** In every run of the server: a row kept under any snapshot taken, however much later its
      page is read, was inserted by a transaction that had finished when the snapshot was
      taken, and is visible to that snapshot exactly when it had committed. */
  lemma KeptRowsAreSoundInRuns(steps: seq<Step>, i: nat, h: TupleHeader, multi: nat -> bool)
    requires Run(INITIAL, steps) && i < |After(INITIAL, steps).history| && h.xmin >= FIRST_NORMAL_XID
    requires HintsAgree(h, Clog(After(INITIAL, steps)))
    requires Kept(h, Some(After(INITIAL, steps).history[i].snapshot))
    ensures var sys := After(INITIAL, steps);
            var t := sys.history[i];
            && t.at.Finished(h.xmin)
            && (SatisfiesMvcc(h, t.snapshot, Clog(sys), multi) <==> t.at.HasCommitted(h.xmin))
  {
    var sys := After(INITIAL, steps);
    var t := sys.history[i];
    RunKeepsInv(INITIAL, steps);
    VisibleMeansFinished(steps, i, h.xmin);
    KeptIsVisibleIffInserterCommitted(h, t.snapshot, Clog(sys), multi);
    InserterCommittedByClog(h, Clog(sys));
    assert t.at.StatusOf(h.xmin) == sys.StatusOf(h.xmin);
  }
}
