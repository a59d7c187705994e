/**
  Particular histories, showing that the conditions on the audit log and the
  membership are not idle: each of them fails on a short schedule over a real log.
 */
module Schedules {
  import opened Basics
  import Kernel
  import opened KernelSnapshot
  import opened Replica
  import opened Node
  import opened NodeRuns
  import opened Histories
  import opened AuditTrail

  // ---- what single acts do ------------------------------------------------

  /** An audit log with room takes every write. */
  lemma {:induction false} RoomEnough(m: Memory, sink: Sink, entries: seq<Entry>, clock: seq<nat>)
    requires |entries| == |clock| <= sink.budget
    ensures var p := ApplyAll(m, sink, entries, clock); !p.failed && p.sink.budget + |entries| >= sink.budget
  {
    if entries != [] {
      var n := |entries| - 1;
      RoomEnough(m, sink, entries[..n], clock[..n]);
      OneWrite(ApplyAll(m, sink, entries[..n], clock[..n]), entries[n], clock[n]);
      hide ApplyOne;
    }
  }

  lemma {:induction false} OneWrite(p: Progress, e: Entry, now: nat)
    requires p.sink.budget > 0
    ensures var q := ApplyOne(p, e, now); !q.failed && q.sink.budget + 1 >= p.sink.budget
  {
    hide Apply;
  }

  /** Feeding entries with room in the audit log. */
  ghost predicate FedAll(dim: nat, log: seq<Entry>, m: Machine, clock: seq<nat>, p: Progress) {
    var to := Pos(m.mem) + |clock|;
    && !p.failed && to <= |log| && Pos(p.mem) == to && Mark(p.mem) == Reached(p) == Max(to, Replay(m.mem)) && Replay(p.mem) <= Mark(p.mem)
    && p.sink.records == m.sink.records + Owed(dim, log, Mark(m.mem), Mark(p.mem))
    && p.sink.budget + |clock| >= m.sink.budget
    && p.mem.membership == Fold(m.mem.membership, log[Pos(m.mem)..to])
  }

  lemma {:induction false} FeedRoom(dim: nat, log: seq<Entry>, m: Machine, clock: seq<nat>)
    requires Committed(log) && Positions(dim, log, m) && Pos(m.mem) + |clock| <= |log| && |clock| <= m.sink.budget
    ensures FedAll(dim, log, m, clock, Feed(log, m, clock))
  {
    hide Positions, Run, Fresh, Owed, Fold, ApplyAll, FeedWritten, OwedAt, Tracks, Apply;
    FeedTakes(log, m, clock);
    FeedFed(dim, log, m, clock);
    hide Feed;
    TracksMark(dim, log, Feed(log, m, clock).mem, Pos(m.mem) + |clock|);
  }

  lemma {:induction false} FeedTakes(log: seq<Entry>, m: Machine, clock: seq<nat>)
    requires Pos(m.mem) + |clock| <= |log| && |clock| <= m.sink.budget
    ensures |Next(log, m.mem, clock)| == |clock|
    ensures var p := Feed(log, m, clock); !p.failed && p.sink.budget + |clock| >= m.sink.budget
  {
    hide ApplyAll, Pos;
    var entries := Next(log, m.mem, clock);
    assert |entries| == |clock| && clock[..|entries|] == clock;
    RoomEnough(m.mem, m.sink, entries, clock);
  }

  /** What a batch with room leaves. */
  ghost predicate Batched(dim: nat, log: seq<Entry>, m: Machine, n: nat, after: Machine) {
    var to := Pos(m.mem) + n;
    && Inv(dim, log, after) && to <= |log|
    && Pos(after.mem) == to == Count(after.table.lastApplied) && Mark(after.mem) == Max(to, Replay(m.mem)) && Replay(after.mem) <= Mark(after.mem)
    && after.table.snapshot == m.table.snapshot
    && after.sink.records == m.sink.records + Owed(dim, log, Mark(m.mem), Mark(after.mem))
    && after.sink.budget + n >= m.sink.budget
    && after.mem.membership == Fold(m.mem.membership, log[Pos(m.mem)..to]) == TableMembership(after.table)
  }

  lemma {:induction false} BatchEffect(dim: nat, log: seq<Entry>, m: Machine, clock: seq<nat>)
    requires Committed(log) && Inv(dim, log, m) && Pos(m.mem) + |clock| <= |log| && |clock| <= m.sink.budget
    ensures var out := Exec(dim, log, m, Batch(clock)); out.Some? && Batched(dim, log, m, |clock|, out.value)
  {
    FeedRoom(dim, log, m, clock);
    BatchInv(dim, log, m, clock);
    hide Inv, Owed, Fold, Feed, FeedWritten, Reached;
  }

  /** What a crash with room leaves, `n` entries past the mark. */
  ghost predicate Crashed(dim: nat, log: seq<Entry>, m: Machine, n: nat, budget: nat, after: Machine) {
    var to := Max(Pos(m.mem) + n, Replay(m.mem));
    && Inv(dim, log, after)
    && Pos(after.mem) == SnapshotCount(m.table) && Replay(after.mem) == Count(m.table.lastApplied)
    && Mark(after.mem) == DiskMark(m.table) && after.table == m.table
    && after.sink.records == m.sink.records + Owed(dim, log, Mark(m.mem), to)
    && after.sink.budget == budget && after.high == Max(m.high, to)
    && after.mem.membership == TableMembership(m.table)
  }

  lemma {:induction false} CrashEffect(dim: nat, log: seq<Entry>, m: Machine, clock: seq<nat>, budget: nat)
    requires Committed(log) && Inv(dim, log, m) && Pos(m.mem) + |clock| <= |log| && |clock| <= m.sink.budget && Restorable(dim, log, m.table)
    ensures var out := Exec(dim, log, m, Crash(clock, budget)); out.Some? && Crashed(dim, log, m, |clock|, budget, out.value)
  {
    FeedRoom(dim, log, m, clock);
    RebootInv(dim, log, m, clock, budget);
    RebootMemory(dim, log, m);
    hide Inv, Owed, Fold, Feed, FeedWritten, Reached, Restart, Restorable, SnapshotCount, TableMembership, DiskMark, Mark, Tracks;
  }

  lemma {:induction false} AfterPush(dim: nat, budget: nat, log: seq<Entry>, front: seq<Act>, act: Act)
    ensures var m := After(dim, budget, log, front);
      After(dim, budget, log, front + [act]) == if m.None? then None else Exec(dim, log, m.value, act)
  {
    hide Exec;
    assert (front + [act])[..|front|] == front;
  }

  lemma {:induction false} AfterTwo(dim: nat, budget: nat, log: seq<Entry>, front: seq<Act>, m: Machine, a: Act, b: Act)
    requires After(dim, budget, log, front) == Some(m) && Exec(dim, log, m, a).Some?
    ensures After(dim, budget, log, front + [a, b]) == Exec(dim, log, Exec(dim, log, m, a).value, b)
  {
    hide Exec;
    AfterPush(dim, budget, log, front, a);
    AfterPush(dim, budget, log, front + [a], b);
    assert front + [a] + [b] == front + [a, b];
  }

  lemma {:induction false} NoSnapshotRestorable(dim: nat, log: seq<Entry>, t: Table)
    requires t.snapshot.None?
    ensures Restorable(dim, log, t) && SnapshotCount(t) == 0
  {
  }

  // ---- a real log ---------------------------------------------------------

  /** The first entry of a log is the initial membership; inserts follow. */
  function InsertAt(i: nat, vector: seq<int>, key: Option<RequestId>): Entry {
    Entry(LogId(1, 1, i), Normal(Request(Kernel.AutoInsertRecord(vector, None, 0), key, 0, 0)))
  }

  function MemberAt(i: nat, config: Config): Entry {
    Entry(LogId(1, 1, i), Membership(config))
  }

  function Inserted(vector: seq<int>, key: Option<RequestId>): AuditRecord {
    AuditRecord(Kernel.AutoInsertRecord(vector, None, 0), key)
  }

  /** A kernel of the right dimension takes the insert. */
  lemma {:induction false} InsertAccepted(core: Core, i: nat, vector: seq<int>, key: Option<RequestId>)
    requires core.kernel.dim == None || core.kernel.dim == Some(|vector|)
    requires key.Some? ==> key.value !in core.dedup
    ensures var s := Apply(core, InsertAt(i, vector, key));
      && s.audited == Some(Inserted(vector, key)) && s.core.kernel.dim == Some(|vector|)
      && s.core.dedup == Remember(core.dedup, key)
  {
    hide Hash, Remember;
  }

  function Log3(config: Config, vector: seq<int>, a: Option<RequestId>, b: Option<RequestId>): seq<Entry> {
    [MemberAt(0, config), InsertAt(1, vector, a), InsertAt(2, vector, b)]
  }

  lemma {:induction false} Log3Runs(dim: nat, config: Config, vector: seq<int>, a: Option<RequestId>, b: Option<RequestId>)
    requires (dim == 0 || dim == |vector|) && (a.None? || a != b)
    ensures var log, c0 := Log3(config, vector, a, b), Fresh(dim);
      && Apply(Run(c0, log[..0]).core, log[0]).audited == None
      && Apply(Run(c0, log[..1]).core, log[1]).audited == Some(Inserted(vector, a))
      && Apply(Run(c0, log[..2]).core, log[2]).audited == Some(Inserted(vector, b))
  {
    var log, c0 := Log3(config, vector, a, b), Fresh(dim);
    assert log[..0] == [] && Run(c0, log[..0]).core == c0;
    FirstIsSilent(c0, config);
    InsertAccepted(c0, 1, vector, a);
    RememberFirst(a);
    var c1 := Apply(c0, log[1]).core;
    assert c0.dedup == [] && c1.dedup == Remember([], a);
    hide Apply, Run, Remember;
    RunAt(c0, log, 0);
    RunAt(c0, log, 1);
    InsertAccepted(c1, 2, vector, b);
  }

  lemma {:induction false} RememberFirst(a: Option<RequestId>)
    ensures Remember([], a) == if a.Some? then [a.value] else []
  {
  }

  lemma {:induction false} FirstIsSilent(core: Core, config: Config)
    ensures var s := Apply(core, MemberAt(0, config)); s.audited == None && s.core == core
  {
  }

  lemma {:induction false} ThreeOwed(dim: nat, log: seq<Entry>, r: AuditRecord, s: AuditRecord)
    requires |log| == 3
    requires Apply(Run(Fresh(dim), log[..0]).core, log[0]).audited == None
    requires Apply(Run(Fresh(dim), log[..1]).core, log[1]).audited == Some(r)
    requires Apply(Run(Fresh(dim), log[..2]).core, log[2]).audited == Some(s)
    ensures Owed(dim, log, 0, 2) == [r] && Owed(dim, log, 0, 3) == [r, s] && Owed(dim, log, 2, 3) == [s]
  {
    hide *;
    OwedOne(dim, log, 0);
    OwedOne(dim, log, 1);
    OwedOne(dim, log, 2);
    OwedJoin(dim, log, 0, 1, 2);
    OwedJoin(dim, log, 0, 2, 3);
  }

  /** The two inserts of that log are owed, at positions 1 and 2. */
  lemma {:induction false} Log3Owes(dim: nat, config: Config, vector: seq<int>, a: Option<RequestId>, b: Option<RequestId>)
    requires (dim == 0 || dim == |vector|) && (a.None? || a != b)
    ensures var log := Log3(config, vector, a, b);
      && Committed(log) && |log| == 3
      && Owed(dim, log, 0, 2) == [Inserted(vector, a)] && Owed(dim, log, 0, 3) == [Inserted(vector, a), Inserted(vector, b)]
      && Owed(dim, log, 2, 3) == [Inserted(vector, b)]
  {
    var log := Log3(config, vector, a, b);
    assert Committed(log) && |log| == 3;
    hide *;
    Log3Runs(dim, config, vector, a, b);
    ThreeOwed(dim, log, Inserted(vector, a), Inserted(vector, b));
  }

  // ---- the audit log ------------------------------------------------------

  /** A crash between processing `n` entries and writing the mark: all that they owe is
      written twice. */
  lemma {:induction false} MidBatchCrash(dim: nat, log: seq<Entry>, c1: seq<nat>, c2: seq<nat>)
    requires Committed(log) && |c1| == |c2| <= |log|
    ensures var acts, n := [Crash(c1, |c2|), Batch(c2)], |c1|;
      var m := After(dim, n, log, acts);
      m.Some? && Mark(m.value.mem) == n && m.value.sink.records == Owed(dim, log, 0, n) + Owed(dim, log, 0, n)
  {
    hide *;
    var n, boot := |c1|, Boot(dim, |c1|);
    var crash, batch := Crash(c1, n), Batch(c2);
    BootStands(dim, n, log);
    CrashEffect(dim, log, boot, c1, n);
    var back := Exec(dim, log, boot, crash).value;
    BootCrashed(dim, log, boot, n, n, back);
    BatchEffect(dim, log, back, c2);
    BatchedMeans(dim, log, back, n, Exec(dim, log, back, batch).value);
    AfterTwo(dim, n, log, [], boot, crash, batch);
    assert [] + [crash, batch] == [crash, batch];
    MaxBoth(n);
  }

  lemma {:induction false} MaxBoth(n: nat)
    ensures Max(n, 0) == n == Max(0, n)
  {
  }

  lemma {:induction false} BatchedMeans(dim: nat, log: seq<Entry>, m: Machine, n: nat, after: Machine)
    requires Batched(dim, log, m, n, after) && Pos(m.mem) == 0
    ensures Inv(dim, log, after) && Mark(after.mem) == Max(n, Replay(m.mem)) && Count(after.table.lastApplied) == n
    ensures after.table.snapshot == m.table.snapshot && after.sink.records == m.sink.records + Owed(dim, log, Mark(m.mem), Mark(after.mem))
  {
    hide Inv, Owed, Mark, Fold, TableMembership;
  }

  /** Exactly once fails on a real log: the insert is in the audit log twice. */
  lemma {:induction false} MidBatchCrashRepeats(dim: nat, config: Config, vector: seq<int>, a: Option<RequestId>, b: Option<RequestId>, t: nat)
    requires (dim == 0 || dim == |vector|) && (a.None? || a != b)
    ensures var log, r := Log3(config, vector, a, b), Inserted(vector, a);
      var m := After(dim, 2, log, [Crash([t, t], 2), Batch([t, t])]);
      m.Some? && m.value.sink.records == [r, r] && Owed(dim, log, 0, Mark(m.value.mem)) == [r]
  {
    hide *;
    Log3Owes(dim, config, vector, a, b);
    MidBatchCrash(dim, Log3(config, vector, a, b), [t, t], [t, t]);
  }

  /** The node after `acts`, which has no snapshot: its mark on disk, its mark in memory
      and its audit log. */
  ghost predicate Stands(dim: nat, budget: nat, log: seq<Entry>, acts: seq<Act>, disk: nat, mark: nat, records: seq<AuditRecord>) {
    var m := After(dim, budget, log, acts);
    && m.Some? && Inv(dim, log, m.value) && m.value.table.snapshot.None?
    && Count(m.value.table.lastApplied) == disk && Mark(m.value.mem) == mark && m.value.sink.records == records
  }

  /** A crash between batches and a batch from the start of the log: silent up to the
      mark that was on disk, and the mark on disk is then where the batch ends. */
  lemma {:induction false} CrashThenBatch(
      dim: nat, budget: nat, log: seq<Entry>, acts: seq<Act>, disk: nat, mark: nat, records: seq<AuditRecord>, clock: seq<nat>)
    requires Committed(log) && Stands(dim, budget, log, acts, disk, mark, records) && |clock| <= |log|
    ensures Stands(dim, budget, log, acts + [Crash([], |clock|), Batch(clock)], |clock|, Max(|clock|, disk),
      records + Owed(dim, log, disk, Max(|clock|, disk)))
  {
    hide *;
    StandsFacts(dim, budget, log, acts, disk, mark, records);
    var n, m := |clock|, After(dim, budget, log, acts).value;
    NoSnapshotRestorable(dim, log, m.table);
    FloorBelow(dim, log, m);
    CrashEffect(dim, log, m, [], n);
    var back := Exec(dim, log, m, Crash([], n)).value;
    CrashedIdle(dim, log, m, n, back);
    BatchEffect(dim, log, back, clock);
    BatchedMeans(dim, log, back, n, Exec(dim, log, back, Batch(clock)).value);
    AfterTwo(dim, budget, log, acts, m, Crash([], n), Batch(clock));
    NowStands(dim, budget, log, acts + [Crash([], n), Batch(clock)], n, Max(n, disk), records + Owed(dim, log, disk, Max(n, disk)));
  }

  lemma {:induction false} NowStands(dim: nat, budget: nat, log: seq<Entry>, acts: seq<Act>, disk: nat, mark: nat, records: seq<AuditRecord>)
    requires var m := After(dim, budget, log, acts);
      && m.Some? && Inv(dim, log, m.value) && m.value.table.snapshot.None?
      && Count(m.value.table.lastApplied) == disk && Mark(m.value.mem) == mark && m.value.sink.records == records
    ensures Stands(dim, budget, log, acts, disk, mark, records)
  {
    hide After, Inv, Mark;
  }

  lemma {:induction false} StandsFacts(dim: nat, budget: nat, log: seq<Entry>, acts: seq<Act>, disk: nat, mark: nat, records: seq<AuditRecord>)
    requires Stands(dim, budget, log, acts, disk, mark, records)
    ensures var m := After(dim, budget, log, acts);
      && m.Some? && Inv(dim, log, m.value) && m.value.table.snapshot.None? && Pos(m.value.mem) <= |log|
      && Count(m.value.table.lastApplied) == disk && Mark(m.value.mem) == mark && m.value.sink.records == records
  {
    hide After;
  }

  /** A crash between batches, with no snapshot on disk. */
  lemma {:induction false} CrashedIdle(dim: nat, log: seq<Entry>, m: Machine, budget: nat, after: Machine)
    requires Crashed(dim, log, m, 0, budget, after) && m.table.snapshot.None?
    ensures Inv(dim, log, after) && Pos(after.mem) == 0 && Replay(after.mem) == Mark(after.mem) == Count(m.table.lastApplied)
    ensures after.table == m.table && after.sink == Sink(m.sink.records, budget)
  {
    assert Max(Pos(m.mem), Replay(m.mem)) == Mark(m.mem) && DiskMark(m.table) == Count(m.table.lastApplied);
    OwedNone(dim, log, Mark(m.mem));
    hide Inv, Owed, Mark, TableMembership, DiskMark;
  }

  lemma {:induction false} FirstBatch(dim: nat, log: seq<Entry>, clock: seq<nat>)
    requires Committed(log) && |clock| <= |log|
    ensures var n := |clock|; Stands(dim, n, log, [Batch(clock)], n, n, Owed(dim, log, 0, n))
  {
    hide *;
    var n, boot := |clock|, Boot(dim, |clock|);
    BootStands(dim, n, log);
    BatchEffect(dim, log, boot, clock);
    BatchedMeans(dim, log, boot, n, Exec(dim, log, boot, Batch(clock)).value);
    AfterPush(dim, n, log, [], Batch(clock));
    assert [] + [Batch(clock)] == [Batch(clock)];
    assert [] + Owed(dim, log, 0, n) == Owed(dim, log, 0, n);
    MaxBoth(n);
    NowStands(dim, n, log, [Batch(clock)], n, n, Owed(dim, log, 0, n));
  }

  /** A batch that ends short of the replay mark writes the mark on disk back, so two
      crashes between batches write the rest again. */
  lemma {:induction false} CatchUpCrash(dim: nat, log: seq<Entry>, c1: seq<nat>, c2: seq<nat>, c3: seq<nat>)
    requires Committed(log) && |c2| <= |c1| == |c3| <= |log|
    ensures var n, j := |c1|, |c2|;
      Stands(dim, n, log, [Batch(c1)] + [Crash([], j), Batch(c2)] + [Crash([], n), Batch(c3)], n, n, Owed(dim, log, 0, n) + Owed(dim, log, j, n))
  {
    var n, j := |c1|, |c2|;
    var owed := Owed(dim, log, 0, n);
    OwedNone(dim, log, n);
    hide Stands, Owed;
    FirstBatch(dim, log, c1);
    CrashThenBatch(dim, n, log, [Batch(c1)], n, n, owed, c2);
    assert owed + [] == owed;
    CrashThenBatch(dim, n, log, [Batch(c1)] + [Crash([], j), Batch(c2)], j, n, owed, c3);
  }

  /** Two accepted inserts, crashes only between batches: the second is audited twice. */
  lemma {:induction false} CatchUpCrashRepeats(dim: nat, config: Config, vector: seq<int>, a: Option<RequestId>, b: Option<RequestId>, t: nat)
    requires (dim == 0 || dim == |vector|) && (a.None? || a != b)
    ensures var log, r, s := Log3(config, vector, a, b), Inserted(vector, a), Inserted(vector, b);
      var m := After(dim, 3, log, [Batch([t, t, t]), Crash([], 2), Batch([t, t]), Crash([], 3), Batch([t, t, t])]);
      m.Some? && m.value.sink.records == [r, s, s] && Owed(dim, log, 0, Mark(m.value.mem)) == [r, s]
  {
    hide *;
    var log, c3, c2 := Log3(config, vector, a, b), [t, t, t], [t, t];
    Log3Owes(dim, config, vector, a, b);
    CatchUpCrash(dim, log, c3, c2, c3);
    var acts := [Batch(c3)] + [Crash([], 2), Batch(c2)] + [Crash([], 3), Batch(c3)];
    StandsFacts(dim, 3, log, acts, 3, 3, Owed(dim, log, 0, 3) + Owed(dim, log, 2, 3));
    assert acts == [Batch(c3), Crash([], 2), Batch(c2), Crash([], 3), Batch(c3)];
  }


  // ---- installed snapshots ------------------------------------------------

  /** A node that has applied exactly the first `n` entries and never stopped. */
  function NodeAt(dim: nat, log: seq<Entry>, n: nat): Memory
    requires n <= |log|
  {
    Memory(Run(Fresh(dim), log[..n]).core, LogIdAt(log, n), MembershipAt(log, n), None, map[], None)
  }

  lemma {:induction false} NodeIsOnLog(dim: nat, log: seq<Entry>, n: nat)
    requires Committed(log) && n <= |log| && Faithful(Run(Fresh(dim), log[..n]).core.kernel)
    ensures var donor := NodeAt(dim, log, n);
      OnLog(dim, log, donor) && Pos(donor) == n && Unpack(Build(donor).data) == Some(donor.core)
  {
    hide Run, Fresh, Faithful, Unpack, MembershipAt, Build;
    SnapshotRestores(dim, log, NodeAt(dim, log, n), n);
  }

  /** What installing a snapshot taken at `n` leaves. */
  ghost predicate Installed(dim: nat, log: seq<Entry>, m: Machine, n: nat, after: Machine) {
    && Inv(dim, log, after) && Restorable(dim, log, after.table)
    && Pos(after.mem) == SnapshotCount(after.table) == n <= |log| && Mark(after.mem) == Max(n, Replay(m.mem))
    && after.high == Max(m.high, Mark(after.mem)) && after.sink == m.sink
    && after.table.lastApplied == m.table.lastApplied && after.table.membership == m.table.membership
  }

  lemma {:induction false} InstalledMeans(dim: nat, log: seq<Entry>, m: Machine, n: nat, after: Machine)
    requires Installed(dim, log, m, n, after) && Replay(m.mem) == m.high == 0
    ensures Inv(dim, log, after) && Restorable(dim, log, after.table) && Pos(after.mem) == Mark(after.mem) == SnapshotCount(after.table) == after.high == n
    ensures after.sink == m.sink && after.table.lastApplied == m.table.lastApplied && TableMembership(after.table) == TableMembership(m.table)
  {
    hide Inv, Restorable, Mark, Pos, SnapshotCount;
  }

  lemma {:induction false} InstallEffect(dim: nat, log: seq<Entry>, m: Machine, n: nat)
    requires Committed(log) && Inv(dim, log, m) && Pos(m.mem) < n <= |log| && Faithful(Run(Fresh(dim), log[..n]).core.kernel)
    ensures var act := InstallFrom(NodeAt(dim, log, n));
      var out := Exec(dim, log, m, act);
      SoundHere(dim, log, Some(m), act) && out.Some? && Installed(dim, log, m, n, out.value)
  {
    var donor := NodeAt(dim, log, n);
    NodeIsOnLog(dim, log, n);
    assert Installs(m, donor) by { hide Run, Fresh, Build, Unpack; }
    InstallInv(dim, log, m, donor);
    hide Exec, Run, Fresh, Faithful, Unpack, OnLog, MembershipAt, Build, NodeAt, Installs, Audited, Positions, SnapshotCount;
    InstallMemory(dim, log, m, donor);
    ExecInstalls(dim, log, m, donor);
    StandsAtSnapshot(dim, log, Exec(dim, log, m, InstallFrom(donor)).value, n);
  }

  lemma {:induction false} ExecInstalls(dim: nat, log: seq<Entry>, m: Machine, donor: Memory)
    ensures Exec(dim, log, m, InstallFrom(donor)).Some?
  {
    hide Installs, Build;
  }

  lemma {:induction false} StandsAtSnapshot(dim: nat, log: seq<Entry>, m: Machine, n: nat)
    requires SnapshotCount(m.table) == n <= |log| && Faithful(Run(Fresh(dim), log[..n]).core.kernel)
    ensures Restorable(dim, log, m.table)
  {
    hide Faithful, Run, Fresh;
  }

  lemma {:induction false} SoundOne(dim: nat, budget: nat, log: seq<Entry>, act: Act)
    requires SoundHere(dim, log, Some(Boot(dim, budget)), act)
    ensures Sound(dim, budget, log, [act]) && After(dim, budget, log, [act]) == Exec(dim, log, Boot(dim, budget), act)
  {
    hide SoundHere, Boot, Exec;
    assert [act][..0] == [];
  }

  lemma {:induction false} BootStands(dim: nat, budget: nat, log: seq<Entry>)
    ensures var boot := Boot(dim, budget);
      && Inv(dim, log, boot) && Pos(boot.mem) == Replay(boot.mem) == Mark(boot.mem) == boot.high == DiskMark(boot.table) == 0
      && boot.sink == Sink([], budget) && boot.table == Table(None, None, None) && Restorable(dim, log, boot.table)
      && SnapshotCount(boot.table) == 0 && TableMembership(boot.table) == Stored(None, None) && After(dim, budget, log, []) == Some(boot)
  {
    BootInv(dim, budget, log);
    hide Fresh;
  }

  /** A fresh node that installs a snapshot at `n` is at `n` with an empty audit log. */
  lemma {:induction false} FreshInstall(dim: nat, budget: nat, log: seq<Entry>, n: nat)
    requires Committed(log) && 0 < n <= |log| && Faithful(Run(Fresh(dim), log[..n]).core.kernel)
    ensures var acts := [InstallFrom(NodeAt(dim, log, n))];
      var m := After(dim, budget, log, acts);
      && Sound(dim, budget, log, acts) && m.Some? && Installed(dim, log, Boot(dim, budget), n, m.value)
  {
    BootStands(dim, budget, log);
    hide Installed, Exec, SoundHere, Sound, After, Inv, Run, Fresh, Faithful, NodeAt, Boot, Restorable;
    InstallEffect(dim, log, Boot(dim, budget), n);
    SoundOne(dim, budget, log, InstallFrom(NodeAt(dim, log, n)));
  }

  /** The kernel after the first insert of a real log can be carried by the codec. */
  lemma {:induction false} FirstInsertFaithful(dim: nat, config: Config, vector: seq<int>, a: Option<RequestId>, b: Option<RequestId>)
    requires (dim == 0 || dim == |vector|) && 0 < |vector| <= MAX_DIM
    ensures var log := Log3(config, vector, a, b);
      Faithful(Run(Fresh(dim), log[..2]).core.kernel)
  {
    var log, c0 := Log3(config, vector, a, b), Fresh(dim);
    assert log[..0] == [] && Run(c0, log[..0]).core == c0;
    FirstIsSilent(c0, config);
    RunAt(c0, log, 0);
    RunAt(c0, log, 1);
    InsertedKernel(c0, 1, vector, a);
    OneRecordFaithful(vector);
    hide Run, Apply, Fresh, Faithful;
  }

  function OneRecord(vector: seq<int>): Kernel.State {
    Kernel.State(Some(|vector|), 1, [Some(Kernel.Record(vector, None, 0, false, false, false, 0, None, None))], [], [], map[0 := 0], map[], map[])
  }

  lemma {:induction false} InsertedKernel(core: Core, i: nat, vector: seq<int>, key: Option<RequestId>)
    requires (core.kernel == Kernel.WithDim(0) || core.kernel == Kernel.WithDim(|vector|)) && core.dedup == []
    ensures Apply(core, InsertAt(i, vector, key)).core.kernel == OneRecord(vector)
  {
    hide Hash, Remember;
    var out := Kernel.Apply(core.kernel, Kernel.AutoInsertRecord(vector, None, 0), 0).state;
    assert out.records == OneRecord(vector).records && out.heads == map[0 := 0];
  }

  lemma {:induction false} OneRecordFaithful(vector: seq<int>)
    requires 0 < |vector| <= MAX_DIM
    ensures Faithful(OneRecord(vector))
  {
  }

  /** The audit log does miss events: a fresh node brought up by a snapshot has applied
      the insert and has no record of it. */
  lemma {:induction false} InstallSkips(dim: nat, budget: nat, config: Config, vector: seq<int>, a: Option<RequestId>, b: Option<RequestId>)
    requires (dim == 0 || dim == |vector|) && 0 < |vector| <= MAX_DIM && (a.None? || a != b)
    ensures var log := Log3(config, vector, a, b);
      var acts := [InstallFrom(NodeAt(dim, log, 2))];
      var m := After(dim, budget, log, acts);
      && Sound(dim, budget, log, acts) && m.Some? && Pos(m.value.mem) == 2
      && m.value.sink.records == [] && Owed(dim, log, 0, 2) == [Inserted(vector, a)]
  {
    hide *;
    var log := Log3(config, vector, a, b);
    Log3Owes(dim, config, vector, a, b);
    FirstInsertFaithful(dim, config, vector, a, b);
    BootStands(dim, budget, log);
    FreshInstall(dim, budget, log, 2);
    InstalledMeans(dim, log, Boot(dim, budget), 2, After(dim, budget, log, [InstallFrom(NodeAt(dim, log, 2))]).value);
  }

  lemma {:induction false} Log3Membership(config: Config, vector: seq<int>, a: Option<RequestId>, b: Option<RequestId>)
    ensures var log := Log3(config, vector, a, b);
      Committed(log) && |log| == 3 && MembershipAt(log, 2) == Stored(Some(log[0].logId), Some(config))
  {
    var log := Log3(config, vector, a, b);
    var two := log[..2];
    assert two[..1] == [log[0]] && two[1] == log[1] && two[..1][0] == log[0];
    assert Fold(Stored(None, None), two) == Fold(Stored(None, None), two[..1]);
  }

  /** The membership is lost: the same node crashes before any batch, and is back at its
      old position without the membership the snapshot brought. */
  lemma {:induction false} InstallLosesMembership(dim: nat, budget: nat, config: Config, vector: seq<int>, a: Option<RequestId>, b: Option<RequestId>)
    requires (dim == 0 || dim == |vector|) && 0 < |vector| <= MAX_DIM
    ensures var log := Log3(config, vector, a, b);
      var m := After(dim, budget, log, [InstallFrom(NodeAt(dim, log, 2)), Crash([], budget)]);
      && m.Some? && Pos(m.value.mem) == m.value.high == 2
      && m.value.mem.membership == Stored(None, None) && MembershipAt(log, 2) == Stored(Some(log[0].logId), Some(config))
  {
    hide *;
    var log := Log3(config, vector, a, b);
    Log3Membership(config, vector, a, b);
    FirstInsertFaithful(dim, config, vector, a, b);
    BootStands(dim, budget, log);
    FreshInstall(dim, budget, log, 2);
    var install, crash := InstallFrom(NodeAt(dim, log, 2)), Crash([], budget);
    var m := After(dim, budget, log, [install]).value;
    InstalledMeans(dim, log, Boot(dim, budget), 2, m);
    CrashEffect(dim, log, m, [], budget);
    CrashedMeans(dim, log, m, budget, Exec(dim, log, m, crash).value);
    AfterPush(dim, budget, log, [install], crash);
    assert [install] + [crash] == [install, crash];
  }

  lemma {:induction false} CrashedMeans(dim: nat, log: seq<Entry>, m: Machine, budget: nat, after: Machine)
    requires Crashed(dim, log, m, 0, budget, after) && Mark(m.mem) == Pos(m.mem) == m.high
    ensures Pos(after.mem) == SnapshotCount(m.table) && after.high == m.high && after.mem.membership == TableMembership(m.table)
  {
    hide Inv, Owed, SnapshotCount, TableMembership, DiskMark;
  }

  /** The stretch an install skips counts from the furthest position ever dealt with, not
      from the mark: what a lost incarnation wrote without marking it is in the audit log.
      Here the mark before the install is 0 and yet nothing is missing. */
  lemma {:induction false} UnmarkedWritesCount(dim: nat, log: seq<Entry>, clock: seq<nat>)
    requires Committed(log) && 0 < |clock| <= |log| && Faithful(Run(Fresh(dim), log[..|clock|]).core.kernel)
    ensures var n := |clock|;
      var before := After(dim, n, log, [Crash(clock, 0)]);
      var m := After(dim, n, log, [Crash(clock, 0), InstallFrom(NodeAt(dim, log, n))]);
      && before.Some? && Mark(before.value.mem) == 0 && before.value.high == n
      && m.Some? && Pos(m.value.mem) == n && m.value.sink.records == Owed(dim, log, 0, n)
  {
    hide *;
    var n, boot := |clock|, Boot(dim, |clock|);
    BootStands(dim, n, log);
    var crash, install := Crash(clock, 0), InstallFrom(NodeAt(dim, log, n));
    CrashEffect(dim, log, boot, clock, 0);
    var back := Exec(dim, log, boot, crash).value;
    BootCrashed(dim, log, boot, n, 0, back);
    InstallEffect(dim, log, back, n);
    InstalledAfter(dim, log, back, n, Exec(dim, log, back, install).value);
    AfterPush(dim, n, log, [], crash);
    assert [] + [crash] == [crash];
    AfterTwo(dim, n, log, [], boot, crash, install);
    assert [] + [crash, install] == [crash, install];
  }

  lemma {:induction false} BootCrashed(dim: nat, log: seq<Entry>, boot: Machine, n: nat, budget: nat, back: Machine)
    requires Crashed(dim, log, boot, n, budget, back) && boot.sink.records == [] && boot.table.lastApplied == None
    requires Pos(boot.mem) == Replay(boot.mem) == Mark(boot.mem) == boot.high == SnapshotCount(boot.table) == DiskMark(boot.table) == 0
    ensures Inv(dim, log, back) && Pos(back.mem) == Mark(back.mem) == Replay(back.mem) == 0 && back.high == n
    ensures back.sink.records == Owed(dim, log, 0, n) && back.sink.budget == budget
  {
    hide Inv, Owed, SnapshotCount, TableMembership, DiskMark, Mark, Pos, Replay;
    assert [] + Owed(dim, log, 0, n) == Owed(dim, log, 0, n);
  }

  lemma {:induction false} InstalledAfter(dim: nat, log: seq<Entry>, m: Machine, n: nat, after: Machine)
    requires Installed(dim, log, m, n, after)
    ensures Pos(after.mem) == n && after.sink == m.sink
  {
    hide Inv, Restorable;
  }
}
