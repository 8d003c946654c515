/** Transaction snapshots (src/heap/snapshot.rs) and what their visibility test means. */
module Snapshot {
  import opened Base

  const FROZEN_XID := 2

  datatype PgSnapshot = PgSnapshot(xmin: nat, xmax: nat, xip: seq<nat>) {
    predicate XminVisible(xid: nat) {
      if xid <= FROZEN_XID then true
      else if xid < xmin then true
      else if xid >= xmax then false
      else xid !in xip
    }
  }

  // ── Whole runs of begin, commit, abort and take-snapshot ────────────────

  datatype Status = Running | Committed | Aborted

  const FIRST_NORMAL_XID := FROZEN_XID + 1

  /** Transactions FIRST_NORMAL_XID, ... in the order they began, without wraparound, and
      the snapshots taken so far, each with the statuses at that moment. */
  datatype System = System(status: seq<Status>, history: seq<Taken>) {
    function NextXid(): nat { FIRST_NORMAL_XID + |status| }

    predicate Assigned(xid: nat) { FIRST_NORMAL_XID <= xid < NextXid() }

    function StatusOf(xid: nat): Status
      requires Assigned(xid)
    {
      status[xid - FIRST_NORMAL_XID]
    }

    predicate Finished(xid: nat) { Assigned(xid) && StatusOf(xid) != Running }

    predicate HasCommitted(xid: nat) { Assigned(xid) && StatusOf(xid) == Committed }
  }

  datatype Taken = Taken(snapshot: PgSnapshot, at: System)

  /** What the server promises of a snapshot: everything below xmin is finished, nothing
      from xmax on is, and xip lists exactly the running transactions in between. */
  ghost predicate Describes(s: PgSnapshot, sys: System) {
    && FIRST_NORMAL_XID <= s.xmin <= s.xmax <= sys.NextXid()
    && (forall xid: nat :: FIRST_NORMAL_XID <= xid < s.xmin ==> sys.Finished(xid))
    && (forall xid: nat :: s.xmax <= xid ==> !sys.Finished(xid))
    && (forall xid :: xid in s.xip ==> s.xmin <= xid < s.xmax)
    && (forall xid: nat :: s.xmin <= xid < s.xmax ==> (xid in s.xip <==> !sys.Finished(xid)))
  }

  /** Running transactions from `from` on, in order. */
  function RunningFrom(sys: System, from: nat): (r: seq<nat>)
    requires FIRST_NORMAL_XID <= from <= sys.NextXid()
    ensures forall xid :: xid in r <==> from <= xid < sys.NextXid() && !sys.Finished(xid)
    ensures forall xid :: xid in r ==> r[0] <= xid
    decreases sys.NextXid() - from
  {
    if from == sys.NextXid() then []
    else
      var rest := RunningFrom(sys, from + 1);
      if sys.Finished(from) then rest else [from] + rest
  }

  /** The snapshot a server takes: oldest running, next to assign, all running. */
  function SnapshotOf(sys: System): (s: PgSnapshot)
    ensures Describes(s, sys)
  {
    var running := RunningFrom(sys, FIRST_NORMAL_XID);
    assert running != [] ==> running[0] in running;
    PgSnapshot(if running == [] then sys.NextXid() else running[0], sys.NextXid(), running)
  }

  datatype Step = Begin | Finish(xid: nat, outcome: Status) | Take(snapshot: PgSnapshot)

  ghost predicate Enabled(sys: System, step: Step) {
    match step
    case Begin => true
    case Finish(xid, outcome) => sys.Assigned(xid) && sys.StatusOf(xid) == Running && outcome != Running
    case Take(s) => Describes(s, sys)
  }

  ghost function Next(sys: System, step: Step): System
    requires Enabled(sys, step)
  {
    match step
    case Begin => sys.(status := sys.status + [Running])
    case Finish(xid, outcome) => sys.(status := sys.status[xid - FIRST_NORMAL_XID := outcome])
    case Take(s) => sys.(history := sys.history + [Taken(s, sys)])
  }

  ghost predicate Run(sys: System, steps: seq<Step>)
    decreases |steps|
  {
    steps == [] || (Enabled(sys, steps[0]) && Run(Next(sys, steps[0]), steps[1..]))
  }

  ghost function After(sys: System, steps: seq<Step>): System
    requires Run(sys, steps)
    decreases |steps|
  {
    if steps == [] then sys else After(Next(sys, steps[0]), steps[1..])
  }

  const INITIAL := System([], [])

  /** Every snapshot described the system it was taken of, and the system has only moved on. */
  ghost predicate Inv(sys: System) {
    forall i :: 0 <= i < |sys.history| ==>
      var t := sys.history[i];
      Describes(t.snapshot, t.at) && Later(t.at, sys)
      && forall j :: 0 <= j < i ==> Later(sys.history[j].at, t.at)
  }

  /** `b` is `a` after some steps: outcomes are final and snapshots are kept. */
  ghost predicate Later(a: System, b: System) {
    && |a.status| <= |b.status| && a.history <= b.history
    && forall k :: 0 <= k < |a.status| ==> (a.status[k] != Running ==> b.status[k] == a.status[k])
  }

  lemma StepKeepsInv(sys: System, step: Step)
    requires Inv(sys) && Enabled(sys, step)
    ensures Inv(Next(sys, step)) && Later(sys, Next(sys, step))
  {
    var next := Next(sys, step);
    forall i | 0 <= i < |next.history|
      ensures Describes(next.history[i].snapshot, next.history[i].at) && Later(next.history[i].at, next)
      ensures forall j :: 0 <= j < i ==> Later(next.history[j].at, next.history[i].at)
    {
      if i < |sys.history| {
        assert next.history[i] == sys.history[i];
      }
    }
  }

  lemma {:induction false} RunKeepsInv(sys: System, steps: seq<Step>)
    requires Inv(sys) && Run(sys, steps)
    ensures Inv(After(sys, steps))
    decreases |steps|
  {
    if steps != [] {
      StepKeepsInv(sys, steps[0]);
      RunKeepsInv(Next(sys, steps[0]), steps[1..]);
    }
  }

  /** In every reachable state, for every snapshot taken and every normal xid, assigned or
      not: visible means finished when the snapshot was taken, so it means committed exactly
      when the transaction did not abort before the snapshot. */
  lemma VisibleMeansFinished(steps: seq<Step>, i: nat, xid: nat)
    requires Run(INITIAL, steps) && i < |After(INITIAL, steps).history| && xid >= FIRST_NORMAL_XID
    ensures var t := After(INITIAL, steps).history[i];
            && (t.snapshot.XminVisible(xid) <==> t.at.Finished(xid))
            && ((t.snapshot.XminVisible(xid) <==> t.at.HasCommitted(xid)) <==>
                !(t.at.Assigned(xid) && t.at.StatusOf(xid) == Aborted))
  {
    RunKeepsInv(INITIAL, steps);
  }

  /** Once visible, visible in every later snapshot of the run. */
  lemma VisibilityIsMonotone(steps: seq<Step>, i: nat, j: nat, xid: nat)
    requires Run(INITIAL, steps) && i <= j < |After(INITIAL, steps).history|
    requires After(INITIAL, steps).history[i].snapshot.XminVisible(xid)
    ensures After(INITIAL, steps).history[j].snapshot.XminVisible(xid)
  {
    if xid >= FIRST_NORMAL_XID {
      RunKeepsInv(INITIAL, steps);
      VisibleMeansFinished(steps, i, xid);
      VisibleMeansFinished(steps, j, xid);
    }
  }
}
