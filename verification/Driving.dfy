/**
  A node object taken through a whole history: batches applied, snapshots built and
  installed, and after every crash or failed batch a new object made from the database.
  What the objects hold is the history as `NodeRuns.After` gives it.
 */
module Driving {
  import opened Basics
  import KernelSnapshot
  import opened Replica
  import opened Node
  import opened NodeRuns
  import ReplicaProperties
  import opened StateMachine

  /** The stored snapshot repeats no request id. */
  ghost predicate StoredDistinct(t: Table) {
    t.snapshot.Some? && t.snapshot.value.data.Framed? ==> Distinct(t.snapshot.value.data.payload.dedup)
  }

  /** The object, its database and its audit log hold `m`. */
  ghost predicate Shows(sm: ValoriStateMachine, m: Machine)
    reads sm, sm.audit, sm.db
  {
    && sm.db != null && sm.Valid() && StoredDistinct(m.table)
    && sm.View() == m.mem && sm.db.View() == m.table && sm.audit.View() == m.sink
  }

  ghost predicate DonorDistinct(act: Act) {
    act.InstallFrom? ==> Distinct(act.donor.core.dedup)
  }

  /** Every node on the log is such a donor. */
  lemma {:induction false} OnLogDistinct(dim: nat, log: seq<Entry>, donor: Memory)
    requires OnLog(dim, log, donor)
    ensures DonorDistinct(InstallFrom(donor))
  {
    hide Run, Fresh, Distinct, Build, Unpack;
    ReplicaProperties.DedupWindow(dim, log[..Pos(donor)]);
  }

  /** Start a node from what its database holds. */
  method Boots(audit: AuditLog, db: Database, dim: nat, ghost m: Machine) returns (r: Result<ValoriStateMachine>)
    requires db.View() == m.table && audit.View() == m.sink && StoredDistinct(m.table)
    ensures r.Success? <==> Restart(m.table, dim).Some?
    ensures r.Success? ==> fresh(r.value) && r.value.audit == audit && r.value.db == db && Shows(r.value, m.(mem := Restart(m.table, dim).value))
  {
    hide Distinct, Elements;
    r := WithDb(audit, db, dim);
  }

  method DoBatch(sm: ValoriStateMachine, dim: nat, log: seq<Entry>, clock: seq<nat>, ghost m: Machine) returns (r: Result<ValoriStateMachine>)
    requires Shows(sm, m)
    modifies sm, sm.audit, sm.db
    ensures var after := Exec(dim, log, m, Batch(clock));
      && (r.Success? <==> after.Some?)
      && (r.Success? ==> (r.value == sm || fresh(r.value)) && r.value.audit == sm.audit && r.value.db == sm.db && Shows(r.value, after.value))
  {
    hide ApplyAll, Restart, Distinct, Elements, WrittenBy, Reached;
    var entries := Next(log, sm.View(), clock);
    var result := sm.Apply(entries, clock[..|entries|]);
    if result.Failure? {
      sm.audit.budget := 0;
      r := Boots(sm.audit, sm.db, dim, Machine(m.mem, m.table, sm.audit.View(), [], 0));
    } else {
      r := Success(sm);
    }
  }

  /** The batch is processed, and then everything in memory is lost. */
  method DoCrash(sm: ValoriStateMachine, dim: nat, log: seq<Entry>, clock: seq<nat>, budget: nat, ghost m: Machine) returns (r: Result<ValoriStateMachine>)
    requires Shows(sm, m)
    modifies sm, sm.audit, sm.db
    ensures var after := Exec(dim, log, m, Crash(clock, budget));
      && (r.Success? <==> after.Some?)
      && (r.Success? ==> fresh(r.value) && r.value.audit == sm.audit && r.value.db == sm.db && Shows(r.value, after.value))
  {
    hide ApplyAll, Restart, Distinct, Elements, WrittenBy, Reached;
    var entries := Next(log, sm.View(), clock);
    var _ := sm.ApplyEntries(entries, clock[..|entries|]);
    sm.audit.budget := budget;
    r := Boots(sm.audit, sm.db, dim, Machine(m.mem, m.table, sm.audit.View(), [], 0));
  }

  /** A snapshot of `donor` arrives, if it is ahead of what is applied. */
  method DoInstall(sm: ValoriStateMachine, donor: Memory, ghost dim: nat, ghost log: seq<Entry>, ghost m: Machine)
    requires Shows(sm, m) && Distinct(donor.core.dedup)
    modifies sm, sm.db
    ensures Shows(sm, Exec(dim, log, m, InstallFrom(donor)).value)
  {
    hide Distinct, Elements, KernelSnapshot.Accept;
    if Pos(sm.View()) < Pos(donor) {
      var _ := sm.InstallSnapshot(Build(donor));
    }
  }

  /** One act of a history, by the object. */
  method Do(sm: ValoriStateMachine, dim: nat, log: seq<Entry>, act: Act, ghost m: Machine) returns (r: Result<ValoriStateMachine>)
    requires Shows(sm, m) && DonorDistinct(act)
    modifies sm, sm.audit, sm.db
    ensures var after := Exec(dim, log, m, act);
      && (r.Success? <==> after.Some?)
      && (r.Success? ==> (r.value == sm || fresh(r.value)) && r.value.audit == sm.audit && r.value.db == sm.db && Shows(r.value, after.value))
  {
    hide Feed, Reboot, Distinct, Elements;
    match act
    case Batch(clock) => r := DoBatch(sm, dim, log, clock, m);
    case Crash(clock, budget) => r := DoCrash(sm, dim, log, clock, budget, m);
    case TakeSnapshot =>
      var _ := sm.BuildSnapshot();
      r := Success(sm);
    case InstallFrom(donor) =>
      DoInstall(sm, donor, dim, log, m);
      r := Success(sm);
  }

  /** Once a restart was refused there is no node. */
  lemma {:induction false} NoneAfter(dim: nat, budget: nat, log: seq<Entry>, acts: seq<Act>, k: nat)
    requires k <= |acts| && After(dim, budget, log, acts[..k]).None?
    ensures After(dim, budget, log, acts).None?
  {
    hide Exec, Boot;
    if k == |acts| {
      assert acts[..k] == acts;
    } else {
      var n := |acts| - 1;
      assert acts[..n][..k] == acts[..k];
      NoneAfter(dim, budget, log, acts[..n], k);
    }
  }

  /** Any history at all, from an empty database and audit log: the node ends as the
      history says, or is refused a restart exactly where the history says so. */
  method Drive(audit: AuditLog, db: Database, dim: nat, log: seq<Entry>, acts: seq<Act>) returns (r: Result<ValoriStateMachine>)
    requires audit.records == [] && db.View() == Table(None, None, None)
    requires forall k :: 0 <= k < |acts| ==> DonorDistinct(acts[k])
    modifies audit, db
    ensures var m := After(dim, old(audit.budget), log, acts);
      && (r.Success? <==> m.Some?)
      && (r.Success? ==> r.value.audit == audit && r.value.db == db && Shows(r.value, m.value))
  {
    hide Exec, DonorDistinct, Distinct, Elements;
    ghost var budget := audit.budget;
    ghost var m := Boot(dim, budget);
    r := Boots(audit, db, dim, m);
    for k := 0 to |acts|
      invariant r.Success? && fresh(r.value) && r.value.audit == audit && r.value.db == db
      invariant After(dim, budget, log, acts[..k]) == Some(m) && Shows(r.value, m)
    {
      assert acts[..k + 1][..k] == acts[..k];
      r := Do(r.value, dim, log, acts[k], m);
      if r.Failure? {
        NoneAfter(dim, budget, log, acts, k + 1);
        return;
      }
      m := Exec(dim, log, m, acts[k]).value;
    }
    assert acts[..|acts|] == acts;
  }
}
