/**
  The promises of the state machine over whole histories of a node.
 */
module Histories {
  import opened Basics
  import KernelInvariants
  import opened KernelSnapshot
  import ReplicaProperties
  import opened Replica
  import opened Node
  import opened NodeRuns

  /** The history restarts only from snapshots of faithful states and installs only
      snapshots of faithful states of nodes on the same log. */
  ghost predicate Sound(dim: nat, budget: nat, log: seq<Entry>, acts: seq<Act>) {
    forall k :: 0 <= k < |acts| ==> SoundHere(dim, log, After(dim, budget, log, acts[..k]), acts[k])
  }

  ghost predicate SoundHere(dim: nat, log: seq<Entry>, m: Option<Machine>, act: Act) {
    m.Some? ==>
      && (Restarts(log, m.value, act) ==> Restorable(dim, log, m.value.table))
      && (act.InstallFrom? && Installs(m.value, act.donor) ==> OnLog(dim, log, act.donor))
  }

  lemma {:induction false} SoundFront(dim: nat, budget: nat, log: seq<Entry>, acts: seq<Act>)
    requires Sound(dim, budget, log, acts) && acts != []
    ensures Sound(dim, budget, log, acts[..|acts| - 1])
    ensures SoundHere(dim, log, After(dim, budget, log, acts[..|acts| - 1]), acts[|acts| - 1])
  {
    hide SoundHere;
    var front := acts[..|acts| - 1];
    forall k | 0 <= k < |front| ensures SoundHere(dim, log, After(dim, budget, log, front[..k]), front[k]) {
      assert front[..k] == acts[..k];
    }
  }

  lemma {:induction false} SoundPrefix(dim: nat, budget: nat, log: seq<Entry>, acts: seq<Act>, k: nat)
    requires Sound(dim, budget, log, acts) && k <= |acts|
    ensures Sound(dim, budget, log, acts[..k])
  {
    hide SoundHere, After;
    forall j | 0 <= j < k ensures SoundHere(dim, log, After(dim, budget, log, acts[..k][..j]), acts[..k][j]) {
      assert acts[..k][..j] == acts[..j];
    }
  }

  lemma {:induction false} AfterLast(dim: nat, budget: nat, log: seq<Entry>, acts: seq<Act>)
    requires acts != []
    ensures var m := After(dim, budget, log, acts[..|acts| - 1]);
      After(dim, budget, log, acts) == if m.None? then None else Exec(dim, log, m.value, acts[|acts| - 1])
  {
    hide Exec;
  }

  /** No restart in such a history is refused, and every state it reaches keeps `Inv`. */
  lemma {:induction false} HistoryInv(dim: nat, budget: nat, log: seq<Entry>, acts: seq<Act>)
    requires Committed(log) && Sound(dim, budget, log, acts)
    ensures var m := After(dim, budget, log, acts); m.Some? && Inv(dim, log, m.value)
  {
    if acts == [] {
      BootInv(dim, budget, log);
    } else {
      hide Inv, Exec, Boot, SoundHere, Sound;
      var front, act := acts[..|acts| - 1], acts[|acts| - 1];
      SoundFront(dim, budget, log, acts);
      HistoryInv(dim, budget, log, front);
      ActInv(dim, log, After(dim, budget, log, front).value, act);
    }
  }

  lemma {:induction false} BootInv(dim: nat, budget: nat, log: seq<Entry>)
    ensures Inv(dim, log, Boot(dim, budget))
  {
    hide Fresh;
    assert log[..0] == [];
  }

  lemma {:induction false} ActInv(dim: nat, log: seq<Entry>, m: Machine, act: Act)
    requires Committed(log) && Inv(dim, log, m) && SoundHere(dim, log, Some(m), act)
    ensures var after := Exec(dim, log, m, act); after.Some? && Inv(dim, log, after.value)
  {
    hide Inv, Feed, Reboot, Build, Installs, Restorable;
    match act
    case Batch(clock) => BatchInv(dim, log, m, clock);
    case TakeSnapshot => SnapshotInv(dim, log, m);
    case InstallFrom(donor) => InstallInv(dim, log, m, donor);
    case Crash(clock, b) => RebootInv(dim, log, m, clock, b);
  }

  // ---- the state is a replay ----------------------------------------------

  /** Whatever happened before, installed snapshots included, the replicated state is the replay of the log up to
      `last_applied` by a node that never stopped, and so is every further answer. */
  lemma {:induction false} HistoryIsReplay(dim: nat, budget: nat, log: seq<Entry>, acts: seq<Act>, clock: seq<nat>)
    requires Committed(log) && Sound(dim, budget, log, acts)
    ensures var m := After(dim, budget, log, acts);
      && m.Some? && Pos(m.value.mem) <= |log|
      && m.value.mem.core == Run(Fresh(dim), log[..Pos(m.value.mem)]).core
      && var a, p := Pos(m.value.mem), Feed(log, m.value, clock);
         !p.failed && a + |clock| <= |log| ==>
           && p.replies == Run(Fresh(dim), log).replies[a..a + |clock|]
           && p.mem.core == Run(Fresh(dim), log[..a + |clock|]).core
  {
    hide After, Run, Fresh, Audited, SnapshotOk, Feed, FeedWritten, Owed, Fold;
    HistoryInv(dim, budget, log, acts);
    FeedFed(dim, log, After(dim, budget, log, acts).value, clock);
  }

  /** The node is there and holds the replay of the log up to `last_applied`. */
  ghost predicate ReplaysHere(dim: nat, log: seq<Entry>, m: Option<Machine>) {
    m.Some? && Pos(m.value.mem) <= |log| && m.value.mem.core == Run(Fresh(dim), log[..Pos(m.value.mem)]).core
  }

  ghost predicate ReplaysThroughout(dim: nat, budget: nat, log: seq<Entry>, acts: seq<Act>) {
    forall k :: 0 <= k <= |acts| ==> ReplaysHere(dim, log, After(dim, budget, log, acts[..k]))
  }

  /** Snapshots are installed from nodes on the same log, whatever their state. */
  ghost predicate DonorsTrack(dim: nat, budget: nat, log: seq<Entry>, acts: seq<Act>) {
    forall k :: 0 <= k < |acts| ==> DonorTracks(dim, log, After(dim, budget, log, acts[..k]), acts[k])
  }

  ghost predicate DonorTracks(dim: nat, log: seq<Entry>, m: Option<Machine>, act: Act) {
    m.Some? && act.InstallFrom? && Installs(m.value, act.donor) ==> Tracks(dim, log, act.donor, Pos(act.donor))
  }

  lemma {:induction false} RestartNeeds(dim: nat, log: seq<Entry>, m: Machine, mem: Memory)
    requires Committed(log) && Positions(dim, log, m)
    requires Restart(m.table, dim) == Some(mem) && Pos(mem) <= |log| && mem.core == Run(Fresh(dim), log[..Pos(mem)]).core
    ensures Restorable(dim, log, m.table)
  {
    hide Run, Fresh, Unpack, Restorable, Positions;
    assert Pos(mem) == SnapshotCount(m.table);
    RestartRestoresIff(dim, log, m);
  }

  lemma {:induction false} InstallNeeds(dim: nat, log: seq<Entry>, m: Machine, donor: Memory)
    requires Installs(m, donor) && Tracks(dim, log, donor, Pos(donor))
    requires ReplaysHere(dim, log, Exec(dim, log, m, InstallFrom(donor)))
    ensures OnLog(dim, log, donor)
  {
    hide Run, Fresh, Unpack, Faithful, Pack;
    SnapshotRestores(dim, log, donor, Pos(donor));
  }

  /** An act that leaves the replay of the log is one of a sound history. */
  lemma {:induction false} ReplayNeeds(dim: nat, log: seq<Entry>, m: Machine, act: Act)
    requires Committed(log) && Inv(dim, log, m) && DonorTracks(dim, log, Some(m), act)
    requires ReplaysHere(dim, log, Exec(dim, log, m, act))
    ensures SoundHere(dim, log, Some(m), act)
  {
    hide Run, Fresh, Feed, FeedWritten, Restart, Reached, Restorable, OnLog, Installs, Build, Tracks, Audited;
    if Restarts(log, m, act) { RestartNeeds(dim, log, m, Exec(dim, log, m, act).value.mem); }
    if act.InstallFrom? && Installs(m, act.donor) { InstallNeeds(dim, log, m, act.donor); }
  }

  lemma {:induction false} ThroughoutFront(dim: nat, budget: nat, log: seq<Entry>, acts: seq<Act>)
    requires acts != [] && ReplaysThroughout(dim, budget, log, acts) && DonorsTrack(dim, budget, log, acts)
    ensures var front := acts[..|acts| - 1];
      && ReplaysThroughout(dim, budget, log, front) && DonorsTrack(dim, budget, log, front)
      && DonorTracks(dim, log, After(dim, budget, log, front), acts[|acts| - 1]) && ReplaysHere(dim, log, After(dim, budget, log, acts))
  {
    hide ReplaysHere, DonorTracks, After;
    var n := |acts| - 1;
    var front := acts[..n];
    forall k | 0 <= k <= n ensures ReplaysHere(dim, log, After(dim, budget, log, front[..k])) { assert front[..k] == acts[..k]; }
    forall k | 0 <= k < n ensures DonorTracks(dim, log, After(dim, budget, log, front[..k]), front[k]) { assert front[..k] == acts[..k]; }
    assert acts[..n + 1] == acts;
  }

  lemma {:induction false} SoundPush(dim: nat, budget: nat, log: seq<Entry>, acts: seq<Act>)
    requires acts != [] && Sound(dim, budget, log, acts[..|acts| - 1])
    requires SoundHere(dim, log, After(dim, budget, log, acts[..|acts| - 1]), acts[|acts| - 1])
    ensures Sound(dim, budget, log, acts)
  {
    hide SoundHere, After;
    var front := acts[..|acts| - 1];
    forall k | 0 <= k < |acts| ensures SoundHere(dim, log, After(dim, budget, log, acts[..k]), acts[k]) {
      if k < |front| {
        assert front[..k] == acts[..k];
        assert SoundHere(dim, log, After(dim, budget, log, front[..k]), front[k]);
      }
    }
  }

  lemma {:induction false} ReplaysMeanSound(dim: nat, budget: nat, log: seq<Entry>, acts: seq<Act>)
    requires Committed(log) && DonorsTrack(dim, budget, log, acts) && ReplaysThroughout(dim, budget, log, acts)
    ensures Sound(dim, budget, log, acts)
  {
    if acts != [] {
      hide *;
      var front, act := acts[..|acts| - 1], acts[|acts| - 1];
      ThroughoutFront(dim, budget, log, acts);
      ReplaysMeanSound(dim, budget, log, front);
      HistoryInv(dim, budget, log, front);
      AfterLast(dim, budget, log, acts);
      ReplayNeeds(dim, log, After(dim, budget, log, front).value, act);
      SoundPush(dim, budget, log, acts);
    }
  }

  /** Soundness of a history is not more than is needed: with snapshots installed from
      nodes on the same log, the node is at every point there and holds the replay of
      the log, if and only if every restart and every install is from a snapshot of a
      faithful state. */
  lemma {:induction false} ReplaysIff(dim: nat, budget: nat, log: seq<Entry>, acts: seq<Act>)
    requires Committed(log) && DonorsTrack(dim, budget, log, acts)
    ensures ReplaysThroughout(dim, budget, log, acts) <==> Sound(dim, budget, log, acts)
  {
    hide After, Run, Fresh, Sound, DonorsTrack, Audited, SnapshotOk;
    if ReplaysThroughout(dim, budget, log, acts) { ReplaysMeanSound(dim, budget, log, acts); }
    if Sound(dim, budget, log, acts) {
      forall k | 0 <= k <= |acts| ensures ReplaysHere(dim, log, After(dim, budget, log, acts[..k])) {
        SoundPrefix(dim, budget, log, acts, k);
        HistoryInv(dim, budget, log, acts[..k]);
      }
    }
  }

  // ---- what a batch leaves beside the replicated state --------------------

  ghost predicate Stamped(before: map<nat, nat>, after: map<nat, nat>, replies: seq<Reply>, clock: seq<nat>) {
    && |replies| == |clock|
    && (forall k :: 0 <= k < |replies| && replies[k].recordId.Some? ==>
          replies[k].recordId.value in after && after[replies[k].recordId.value] == clock[k])
    && (forall i :: (forall k :: 0 <= k < |replies| ==> replies[k].recordId != Some(i)) ==>
          (i in after <==> i in before) && (i in after ==> after[i] == before[i]))
  }

  /** A completed batch stamps each record it allocated with the clock reading of its
      entry, and no other. */
  lemma {:induction false} BatchStamps(m: Memory, sink: Sink, entries: seq<Entry>, clock: seq<nat>)
    requires |clock| == |entries| && !ApplyAll(m, sink, entries, clock).failed
    ensures var p := ApplyAll(m, sink, entries, clock); Stamped(m.createdAt, p.mem.createdAt, p.replies, clock)
  {
    hide *;
    if entries == [] {
      NothingStamped(m, sink);
    } else {
      var n := |entries| - 1;
      var front, p := ApplyAll(m, sink, entries[..n], clock[..n]), ApplyAll(m, sink, entries, clock);
      BatchLast(m, sink, entries, clock);
      BatchStamps(m, sink, entries[..n], clock[..n]);
      BatchCore(m, sink, entries[..n], clock[..n]);
      BatchCore(m, sink, entries, clock);
      StampShape(front, entries[n], clock[n]);
      LastRises(m.core, entries);
      StampPush(m.createdAt, front.mem.createdAt, front.replies, clock[..n], p.replies[n], clock[n], p.mem.createdAt);
      assert clock == clock[..n] + [clock[n]] && p.replies == front.replies + [p.replies[n]];
    }
  }

  lemma {:induction false} NothingStamped(m: Memory, sink: Sink)
    ensures var p := ApplyAll(m, sink, [], []); Stamped(m.createdAt, p.mem.createdAt, p.replies, [])
  {
  }

  lemma {:induction false} LastRises(core: Core, entries: seq<Entry>)
    requires entries != []
    ensures var n, replies := |entries| - 1, Run(core, entries).replies;
      forall k :: 0 <= k < n ==> ReplicaProperties.Rising(replies[..n][k].recordId, replies[n].recordId)
  {
    hide Run;
    ReplicaProperties.RepliesMatch(core, entries);
  }

  lemma {:induction false} BatchLast(m: Memory, sink: Sink, entries: seq<Entry>, clock: seq<nat>)
    requires |clock| == |entries| && entries != [] && !ApplyAll(m, sink, entries, clock).failed
    ensures var n := |entries| - 1;
      var front := ApplyAll(m, sink, entries[..n], clock[..n]);
      !front.failed && ApplyAll(m, sink, entries, clock) == ApplyOne(front, entries[n], clock[n])
  {
    hide ApplyOne;
  }

  lemma {:induction false} StampShape(p: Progress, e: Entry, now: nat)
    requires !ApplyOne(p, e, now).failed
    ensures var q := ApplyOne(p, e, now);
      && |q.replies| == |p.replies| + 1 && q.replies[..|p.replies|] == p.replies
      && q.mem.createdAt == if q.replies[|p.replies|].recordId.Some? then p.mem.createdAt[q.replies[|p.replies|].recordId.value := now] else p.mem.createdAt
  {
    hide Apply;
  }

  lemma {:induction false} StampPush(before: map<nat, nat>, mid: map<nat, nat>, replies: seq<Reply>, clock: seq<nat>, last: Reply, now: nat, after: map<nat, nat>)
    requires Stamped(before, mid, replies, clock)
    requires after == if last.recordId.Some? then mid[last.recordId.value := now] else mid
    requires forall k :: 0 <= k < |replies| ==> ReplicaProperties.Rising(replies[k].recordId, last.recordId)
    ensures Stamped(before, after, replies + [last], clock + [now])
  {
    var all := replies + [last];
    forall i | forall k :: 0 <= k < |all| ==> all[k].recordId != Some(i) ensures (i in after <==> i in before) && (i in after ==> after[i] == before[i]) {
      assert all[|replies|] == last;
      forall k | 0 <= k < |replies| ensures replies[k].recordId != Some(i) { assert all[k] == replies[k]; }
    }
    forall k | 0 <= k < |all| && all[k].recordId.Some? ensures all[k].recordId.value in after && after[all[k].recordId.value] == (clock + [now])[k] {
      if k < |replies| { assert ReplicaProperties.Rising(replies[k].recordId, last.recordId); }
    }
  }

  /** A batch whose audit write failed has answered the entries before, and has already
      done to the kernel and the dedup queue what the failing entry says, but not to
      the corpus; the restart throws all of it away. */
  lemma {:induction false} FailedBatchLeaves(m: Memory, sink: Sink, entries: seq<Entry>, clock: seq<nat>)
    requires |clock| == |entries| && ApplyAll(m, sink, entries, clock).failed
    ensures var p := ApplyAll(m, sink, entries, clock);
      var k := |p.replies|;
      && k < |entries| && p.sink.budget == 0 && p.mem.lastApplied == Some(entries[k].logId)
      && var before, after := Run(m.core, entries[..k]), Run(m.core, entries[..k + 1]);
      && p.replies == before.replies && after.audited[k].Some?
      && p.mem.core.kernel == after.core.kernel && p.mem.core.dedup == after.core.dedup && p.mem.core.corpus == before.core.corpus
      && p.mem.core.registry == (if entries[k].payload.req.event.AutoCreateNamespace? then after.core.registry else before.core.registry)
  {
    hide Apply;
    var n := |entries| - 1;
    var front := ApplyAll(m, sink, entries[..n], clock[..n]);
    if front.failed {
      FailedBatchLeaves(m, sink, entries[..n], clock[..n]);
      var k := |front.replies|;
      assert entries[..n][..k] == entries[..k] && entries[..n][..k + 1] == entries[..k + 1];
    } else {
      BatchCore(m, sink, entries[..n], clock[..n]);
      assert entries[..n + 1] == entries;
      ReplicaProperties.ApplyDedup(front.mem.core, entries[n]);
      InterruptedNames(front.mem.core, entries[n]);
    }
  }

  lemma {:induction false} InterruptedNames(core: Core, e: Entry)
    requires Apply(core, e).audited.Some?
    ensures e.payload.Normal? && Target(core.registry, e.payload.req).0 == if e.payload.req.event.AutoCreateNamespace? then Apply(core, e).core.registry else core.registry
  {
    hide Hash, IndexText, Remember;
  }

  // ---- restart ------------------------------------------------------------

  /** Crash a node at any point between batches and let it catch up to where it
      was: the replicated state is the one it lost, and nothing is audited again. */
  lemma {:induction false} RestartRefines(dim: nat, log: seq<Entry>, m: Machine, budget: nat, clock: seq<nat>)
    requires Committed(log) && Inv(dim, log, m) && Restorable(dim, log, m.table)
    requires |clock| == Pos(m.mem) - SnapshotCount(m.table)
    ensures var back := Exec(dim, log, m, Crash([], budget));
      && back.Some?
      && var p := Feed(log, back.value, clock);
         !p.failed && p.mem.core == m.mem.core && p.mem.lastApplied == m.mem.lastApplied && p.sink.records == m.sink.records
  {
    hide Positions, Audited, Feed, Exec, Fed, Restorable, FeedWritten;
    var back := Exec(dim, log, m, Crash([], budget));
    CrashShape(dim, log, m, budget);
    ActInv(dim, log, m, Crash([], budget));
    FeedFed(dim, log, back.value, clock);
    CaughtUp(dim, log, m, back.value, clock);
  }

  lemma {:induction false} CrashShape(dim: nat, log: seq<Entry>, m: Machine, budget: nat)
    requires Committed(log) && Positions(dim, log, m) && Restorable(dim, log, m.table)
    ensures var back := Exec(dim, log, m, Crash([], budget));
      && back.Some? && back.value.sink.records == m.sink.records
      && Pos(back.value.mem) == SnapshotCount(m.table) && Replay(back.value.mem) == Count(m.table.lastApplied)
  {
    hide Restart, Tracks, SnapshotOk, Mark, Restorable, Positions;
    assert Feed(log, m, []) == Progress(m.mem, m.sink, [], false);
    RebootMemory(dim, log, m);
  }

  lemma {:induction false} CaughtUp(dim: nat, log: seq<Entry>, m: Machine, back: Machine, clock: seq<nat>)
    requires Committed(log) && Positions(dim, log, m) && Positions(dim, log, back)
    requires back.sink.records == m.sink.records
    requires Pos(back.mem) == SnapshotCount(m.table) && Replay(back.mem) == Count(m.table.lastApplied)
    requires |clock| == Pos(m.mem) - Pos(back.mem)
    requires Fed(dim, log, back.mem, back.sink, |Next(log, back.mem, clock)|, Feed(log, back, clock))
    ensures var p := Feed(log, back, clock);
      !p.failed && p.mem.core == m.mem.core && p.mem.lastApplied == m.mem.lastApplied && p.sink.records == m.sink.records
  {
    hide Run, Fresh, Owed, Fold, SnapshotOk, ApplyAll, SnapshotCount;
    var entries := Next(log, back.mem, clock);
    assert |entries| == |clock| && clock[..|entries|] == clock;
    CatchUpSilent(back.mem, back.sink, entries, clock);
  }

  /** Entries at or below the replay mark are applied without touching the sink. */
  lemma {:induction false} CatchUpSilent(m: Memory, sink: Sink, entries: seq<Entry>, clock: seq<nat>)
    requires |entries| == |clock| && m.replayUntil.Some? == (Replay(m) > 0)
    requires forall i :: 0 <= i < |entries| ==> entries[i].logId.index < Replay(m)
    ensures var p := ApplyAll(m, sink, entries, clock); !p.failed && p.sink == sink && p.mem.replayUntil == m.replayUntil
  {
    if entries != [] {
      hide Apply;
      var n := |entries| - 1;
      CatchUpSilent(m, sink, entries[..n], clock[..n]);
    }
  }

  // ---- replicas -----------------------------------------------------------

  /** What a batch does to the replicated state and answers depends on that state
      and the entries alone, not on clocks, timestamps, sinks or replay marks. */
  lemma {:induction false} BatchCore(m: Memory, sink: Sink, entries: seq<Entry>, clock: seq<nat>)
    requires |entries| == |clock|
    ensures var p, t := ApplyAll(m, sink, entries, clock), Run(m.core, entries);
      !p.failed ==> p.mem.core == t.core && p.replies == t.replies
  {
    if entries != [] {
      hide Apply;
      var n := |entries| - 1;
      BatchCore(m, sink, entries[..n], clock[..n]);
    }
  }

  predicate Clocked(batches: seq<(seq<Entry>, seq<nat>)>) {
    forall k :: 0 <= k < |batches| ==> |batches[k].0| == |batches[k].1|
  }

  /** Feed a node batch by batch, each batch with its own clock readings. */
  function FeedBatches(m: Memory, sink: Sink, batches: seq<(seq<Entry>, seq<nat>)>): Progress
    requires Clocked(batches)
  {
    if batches == [] then Progress(m, sink, [], false)
    else
      var n := |batches| - 1;
      var f := FeedBatches(m, sink, batches[..n]);
      if f.failed then f
      else
        var p := ApplyAll(f.mem, f.sink, batches[n].0, batches[n].1);
        p.(replies := f.replies + p.replies)
  }

  function Entries(batches: seq<(seq<Entry>, seq<nat>)>): seq<Entry> {
    if batches == [] then [] else Entries(batches[..|batches| - 1]) + batches[|batches| - 1].0
  }

  lemma {:induction false} FeedBatchesCore(m: Memory, sink: Sink, batches: seq<(seq<Entry>, seq<nat>)>)
    requires Clocked(batches)
    ensures var f, t := FeedBatches(m, sink, batches), Run(m.core, Entries(batches));
      !f.failed ==> f.mem.core == t.core && f.replies == t.replies
  {
    if batches != [] {
      hide ApplyAll, Run, Clocked;
      var n := |batches| - 1;
      ClockedFront(batches);
      FeedBatchesCore(m, sink, batches[..n]);
      BatchAfter(m.core, FeedBatches(m, sink, batches[..n]), Entries(batches[..n]), batches[n].0, batches[n].1);
    }
  }

  lemma {:induction false} ClockedFront(batches: seq<(seq<Entry>, seq<nat>)>)
    requires Clocked(batches) && batches != []
    ensures Clocked(batches[..|batches| - 1]) && |batches[|batches| - 1].0| == |batches[|batches| - 1].1|
  {
  }

  lemma {:induction false} BatchAfter(core: Core, f: Progress, done: seq<Entry>, entries: seq<Entry>, clock: seq<nat>)
    requires |entries| == |clock|
    requires !f.failed ==> f.mem.core == Run(core, done).core && f.replies == Run(core, done).replies
    ensures var p, t := ApplyAll(f.mem, f.sink, entries, clock), Run(core, done + entries);
      !f.failed && !p.failed ==> p.mem.core == t.core && f.replies + p.replies == t.replies
  {
    hide ApplyAll, Run;
    BatchCore(f.mem, f.sink, entries, clock);
    RunJoin(core, done, entries);
  }

  /** Two replicas equal on the replicated state, fed the same entries under any two
      batchings, clocks, sinks and replay marks, end equal on it and answer alike. */
  lemma {:induction false} ReplicasAgree(
      m1: Memory, s1: Sink, b1: seq<(seq<Entry>, seq<nat>)>, m2: Memory, s2: Sink, b2: seq<(seq<Entry>, seq<nat>)>)
    requires Clocked(b1) && Clocked(b2)
    requires m1.core == m2.core && Entries(b1) == Entries(b2)
    ensures var f1, f2 := FeedBatches(m1, s1, b1), FeedBatches(m2, s2, b2);
      !f1.failed && !f2.failed ==> f1.mem.core == f2.mem.core && f1.replies == f2.replies
  {
    FeedBatchesCore(m1, s1, b1);
    FeedBatchesCore(m2, s2, b2);
  }

  // ---- leader-sent snapshots ----------------------------------------------

  /** Installing a snapshot of the state after `p` on a node in any state, then
      applying `s`. If that state is faithful it is applying `p` and `s`: the same state,
      replies and later decisions. If it is not, the snapshot is refused or installs
      another state. */
  lemma {:induction false} SnapshotPlusSuffix(dim: nat, p: seq<Entry>, s: seq<Entry>, m: Memory, receiver: Memory, sink: Sink, clock: seq<nat>)
    requires Tracks(dim, p, m, |p|) && |clock| == |s|
    ensures var installed := Install(receiver, Build(m));
      var fed, full := ApplyAll(installed, sink, s, clock), Run(Fresh(dim), p + s);
      && (Faithful(m.core.kernel) ==>
            && Unpack(Build(m).data).Some? && installed.core == m.core
            && (!fed.failed ==> fed.mem.core == full.core && fed.replies == full.replies[|p|..]))
      && (!Faithful(m.core.kernel) ==> Unpack(Build(m).data).None? || installed.core != m.core)
  {
    hide Unpack, Faithful, Encode, Hash, Run, ApplyAll;
    SnapshotRestores(dim, p, m, |p|);
    assert p[..|p|] == p;
    RunJoin(Fresh(dim), p, s);
    BatchCore(Install(receiver, Build(m)), sink, s, clock);
  }

  /** Exactly which snapshots of reachable states are refused, which install the
      state they were taken of, and that a refusal changes nothing. */
  lemma {:induction false} InstallOutcome(dim: nat, log: seq<Entry>, m: Memory, a: nat, receiver: Memory)
    requires Tracks(dim, log, m, a)
    ensures Unpack(Build(m).data).None? <==> !(Decodable(m.core.kernel) && HashStable(m.core.kernel))
    ensures Unpack(Build(m).data).None? ==> Install(receiver, Build(m)) == receiver
    ensures Unpack(Build(m).data).Some? ==>
      && Install(receiver, Build(m)).core == m.core.(kernel := Restored(m.core.kernel))
      && Install(receiver, Build(m)).membership == m.membership && Install(receiver, Build(m)).createdAt == m.createdAt
      && Install(receiver, Build(m)).lastApplied == m.lastApplied && Install(receiver, Build(m)).replayUntil == receiver.replayUntil
      && (Install(receiver, Build(m)).core == m.core <==> Faithful(m.core.kernel))
  {
    ReachableValid(dim, log, m, a);
    hide Accept, Encode, Hash, Faithful, Decodable, HashStable, Restored, Tracks;
    AcceptEncode(m.core.kernel);
  }

  /** The same for a restart, with what else comes back: timestamps and position from the
      snapshot, membership and replay mark from the table. */
  lemma {:induction false} RestartOutcome(dim: nat, log: seq<Entry>, m: Memory, a: nat, t: Table)
    requires Tracks(dim, log, m, a) && t.snapshot == Some(Build(m))
    ensures Restart(t, dim).None? <==> !(Decodable(m.core.kernel) && HashStable(m.core.kernel))
    ensures Restart(t, dim).Some? ==>
      && Restart(t, dim).value.core == m.core.(kernel := Restored(m.core.kernel))
      && Restart(t, dim).value.createdAt == m.createdAt && Restart(t, dim).value.lastApplied == m.lastApplied
      && Restart(t, dim).value.snapshot == t.snapshot
      && (Restart(t, dim).value.replayUntil.Some? <==> t.lastApplied.Some?)
      && (t.lastApplied.Some? ==> Restart(t, dim).value.replayUntil == Some(t.lastApplied.value.index))
      && (t.membership.Some? ==> Restart(t, dim).value.membership == t.membership.value)
    ensures Build(m).meta.id == (if a == 0 then 0 else log[a - 1].logId.index, Hash(m.core.kernel))
  {
    ReachableValid(dim, log, m, a);
    hide Accept, Encode, Hash, Faithful, Decodable, HashStable, Restored;
    AcceptEncode(m.core.kernel);
  }

  lemma {:induction false} ReachableValid(dim: nat, log: seq<Entry>, m: Memory, a: nat)
    requires Tracks(dim, log, m, a)
    ensures KernelInvariants.Valid(m.core.kernel)
  {
    ReplicaProperties.RunValid(Fresh(dim), log[..a]);
    hide Run;
  }
}
