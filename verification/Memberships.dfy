/**
  Where a node's cluster membership ends up. It is persisted apart from the snapshot,
  with the applied mark, so a restart can combine an old membership with a newer
  snapshot; the entries in between are then never read again.
 */
module Memberships {
  import opened Basics
  import opened KernelSnapshot
  import opened Replica
  import opened Node
  import opened NodeRuns
  import opened Histories

  // ---- membership entries -------------------------------------------------

  predicate IsMembership(log: seq<Entry>, i: nat) {
    i < |log| && log[i].payload.Membership?
  }

  /** No membership entry in positions `lo` to `hi`. */
  ghost predicate NoneBetween(log: seq<Entry>, lo: nat, hi: nat) {
    forall i: nat :: lo <= i < hi ==> !IsMembership(log, i)
  }

  function StoredAt(log: seq<Entry>, i: nat): Stored
    requires IsMembership(log, i)
  {
    Stored(Some(log[i].logId), Some(log[i].payload.config))
  }

  lemma {:induction false} FoldNone(log: seq<Entry>, m: Stored, lo: nat, hi: nat)
    requires lo <= hi <= |log| && NoneBetween(log, lo, hi)
    ensures Fold(m, log[lo..hi]) == m
    decreases hi
  {
    if lo < hi {
      FoldNone(log, m, lo, hi - 1);
      assert log[lo..hi][..hi - 1 - lo] == log[lo..hi - 1] && log[lo..hi][hi - 1 - lo] == log[hi - 1];
      assert !IsMembership(log, hi - 1);
    }
  }

  /** The last membership entry of a stretch that has one decides. */
  lemma {:induction false} FoldLast(log: seq<Entry>, m: Stored, lo: nat, hi: nat) returns (p: nat)
    requires lo <= hi <= |log| && !NoneBetween(log, lo, hi)
    ensures lo <= p < hi && IsMembership(log, p) && NoneBetween(log, p + 1, hi) && Fold(m, log[lo..hi]) == StoredAt(log, p)
    decreases hi
  {
    var e := log[lo..hi][hi - 1 - lo];
    assert log[lo..hi][..hi - 1 - lo] == log[lo..hi - 1] && e == log[hi - 1];
    if IsMembership(log, hi - 1) {
      p := hi - 1;
    } else {
      p := FoldLast(log, m, lo, hi - 1);
    }
  }

  /** A membership that came from the log. */
  ghost predicate Genuine(log: seq<Entry>, st: Stored) {
    Count(st.logId) <= |log| && st == MembershipAt(log, Count(st.logId))
  }

  lemma {:induction false} MembershipGenuine(log: seq<Entry>, n: nat)
    requires Committed(log) && n <= |log|
    ensures Genuine(log, MembershipAt(log, n)) && Count(MembershipAt(log, n).logId) <= n
    ensures NoneBetween(log, Count(MembershipAt(log, n).logId), n)
  {
    assert log[..n] == log[0..n];
    if NoneBetween(log, 0, n) {
      FoldNone(log, Stored(None, None), 0, n);
      assert log[..0] == [];
    } else {
      var p := FoldLast(log, Stored(None, None), 0, n);
      StoredGenuine(log, p);
    }
  }

  lemma {:induction false} StoredGenuine(log: seq<Entry>, p: nat)
    requires Committed(log) && IsMembership(log, p)
    ensures Genuine(log, StoredAt(log, p)) && Count(StoredAt(log, p).logId) == p + 1
  {
    assert log[..p + 1][p] == log[p];
  }

  /** A genuine membership other than the default names the entry that set it. */
  lemma {:induction false} GenuineEntry(log: seq<Entry>, st: Stored)
    requires Committed(log) && Genuine(log, st) && Count(st.logId) > 0
    ensures IsMembership(log, Count(st.logId) - 1)
  {
    var c := Count(st.logId);
    assert log[..c] == log[0..c];
    if NoneBetween(log, 0, c) {
      FoldNone(log, Stored(None, None), 0, c);
    } else {
      var p := FoldLast(log, Stored(None, None), 0, c);
    }
  }

  lemma {:induction false} FoldGenuine(log: seq<Entry>, st: Stored, lo: nat, hi: nat)
    requires Committed(log) && lo <= hi <= |log| && Genuine(log, st)
    ensures Genuine(log, Fold(st, log[lo..hi]))
  {
    if NoneBetween(log, lo, hi) {
      FoldNone(log, st, lo, hi);
    } else {
      var p := FoldLast(log, st, lo, hi);
      StoredGenuine(log, p);
    }
  }

  // ---- reading on ---------------------------------------------------------

  /** Reading the log on from `a` to `to` will end with the right membership: the one
      held is the newest before `a`, or a newer one is read on the way. */
  ghost predicate Newest(log: seq<Entry>, st: Stored, a: nat, to: nat) {
    || (Count(st.logId) <= a && NoneBetween(log, Count(st.logId), a))
    || !NoneBetween(log, a, to)
  }

  lemma {:induction false} NewestIff(log: seq<Entry>, st: Stored, a: nat, to: nat)
    requires Committed(log) && Genuine(log, st) && a <= to <= |log|
    ensures Fold(st, log[a..to]) == MembershipAt(log, to) <==> Newest(log, st, a, to)
  {
    assert log[..to] == log[..a] + log[a..to];
    FoldJoin(Stored(None, None), log[..a], log[a..to]);
    hide Fold;
    if NoneBetween(log, a, to) {
      FoldNone(log, st, a, to);
      FoldNone(log, MembershipAt(log, a), a, to);
      SameIff(log, st, a);
    } else {
      DecidedLater(log, st, MembershipAt(log, a), a, to);
    }
  }

  /** A genuine membership is the one in force at `a` if and only if it is not newer and
      nothing newer comes before `a`. */
  lemma {:induction false} SameIff(log: seq<Entry>, st: Stored, a: nat)
    requires Committed(log) && Genuine(log, st) && a <= |log|
    ensures st == MembershipAt(log, a) <==> Count(st.logId) <= a && NoneBetween(log, Count(st.logId), a)
  {
    MembershipGenuine(log, a);
    var c, now := Count(st.logId), MembershipAt(log, a);
    hide MembershipAt;
    if c <= a && NoneBetween(log, c, a) {
      if Count(now.logId) > c { GenuineEntry(log, now); }
      if c > Count(now.logId) { GenuineEntry(log, st); }
      assert Count(now.logId) == c;
    }
  }

  lemma {:induction false} DecidedLater(log: seq<Entry>, a: Stored, b: Stored, lo: nat, hi: nat)
    requires lo <= hi <= |log| && !NoneBetween(log, lo, hi)
    ensures Fold(a, log[lo..hi]) == Fold(b, log[lo..hi])
  {
    var p := FoldLast(log, a, lo, hi);
    var q := FoldLast(log, b, lo, hi);
    assert p == q by {
      assert p < q ==> !IsMembership(log, q);
      assert q < p ==> !IsMembership(log, p);
    }
  }

  // ---- every history ------------------------------------------------------

  /** Whatever happens to them, the memberships in memory and on disk came from the log. */
  ghost predicate AllGenuine(log: seq<Entry>, m: Machine) {
    Genuine(log, m.mem.membership) && Genuine(log, TableMembership(m.table))
  }

  /** So did those of the nodes that snapshots were installed from. */
  ghost predicate DonorsGenuine(log: seq<Entry>, acts: seq<Act>) {
    forall k :: 0 <= k < |acts| && acts[k].InstallFrom? ==> Genuine(log, acts[k].donor.membership)
  }

  lemma {:induction false} ActGenuine(dim: nat, log: seq<Entry>, m: Machine, act: Act)
    requires Committed(log) && Inv(dim, log, m) && AllGenuine(log, m) && SoundHere(dim, log, Some(m), act)
    requires act.InstallFrom? ==> Genuine(log, act.donor.membership)
    ensures var after := Exec(dim, log, m, act); after.Some? && AllGenuine(log, after.value)
  {
    ActInv(dim, log, m, act);
    match act
    case Batch(clock) => BatchGenuine(dim, log, m, clock);
    case TakeSnapshot => SnapshotGenuine(dim, log, m);
    case InstallFrom(donor) => InstallGenuine(dim, log, m, donor);
    case Crash(clock, b) => CrashIsReboot(dim, log, m, clock, b); RebootGenuine(dim, log, m, clock, b);
  }

  lemma {:induction false} BatchGenuine(dim: nat, log: seq<Entry>, m: Machine, clock: seq<nat>)
    requires Committed(log) && Inv(dim, log, m) && AllGenuine(log, m) && Exec(dim, log, m, Batch(clock)).Some?
    requires Feed(log, m, clock).failed ==> Restorable(dim, log, m.table)
    ensures AllGenuine(log, Exec(dim, log, m, Batch(clock)).value)
  {
    hide Feed, Genuine, Fold, Next, Positions, Audited, Reboot, Restorable, TableMembership;
    if Feed(log, m, clock).failed {
      RebootGenuine(dim, log, m, clock, 0);
    } else {
      BatchShape(dim, log, m, clock);
      hide Exec;
      FoldGenuine(log, m.mem.membership, Pos(m.mem), Pos(m.mem) + |Next(log, m.mem, clock)|);
    }
  }

  lemma {:induction false} RebootGenuine(dim: nat, log: seq<Entry>, m: Machine, clock: seq<nat>, budget: nat)
    requires Committed(log) && Inv(dim, log, m) && AllGenuine(log, m) && Restorable(dim, log, m.table)
    ensures var after := Reboot(dim, log, m, clock, budget); after.Some? && AllGenuine(log, after.value)
  {
    hide Feed, FeedWritten, Genuine, Positions, Audited, Restart, Restorable, TableMembership, Reached;
    RebootMemory(dim, log, m);
  }

  lemma {:induction false} SnapshotGenuine(dim: nat, log: seq<Entry>, m: Machine)
    requires AllGenuine(log, m)
    ensures AllGenuine(log, Exec(dim, log, m, TakeSnapshot).value)
  {
    hide Genuine, Build;
  }

  lemma {:induction false} InstallGenuine(dim: nat, log: seq<Entry>, m: Machine, donor: Memory)
    requires Committed(log) && Inv(dim, log, m) && AllGenuine(log, m) && (Installs(m, donor) ==> OnLog(dim, log, donor)) && Genuine(log, donor.membership)
    ensures AllGenuine(log, Exec(dim, log, m, InstallFrom(donor)).value)
  {
    hide Genuine, Positions, Audited, OnLog, Build, Installs;
    if Installs(m, donor) { InstallMemory(dim, log, m, donor); }
  }

  lemma {:induction false} CrashIsReboot(dim: nat, log: seq<Entry>, m: Machine, clock: seq<nat>, budget: nat)
    ensures Exec(dim, log, m, Crash(clock, budget)) == Reboot(dim, log, m, clock, budget)
  {
    hide Reboot;
  }

  lemma {:induction false} HistoryGenuine(dim: nat, budget: nat, log: seq<Entry>, acts: seq<Act>)
    requires Committed(log) && Sound(dim, budget, log, acts) && DonorsGenuine(log, acts)
    ensures var m := After(dim, budget, log, acts); m.Some? && Inv(dim, log, m.value) && AllGenuine(log, m.value)
  {
    HistoryInv(dim, budget, log, acts);
    if acts == [] {
      BootGenuine(dim, budget, log);
    } else {
      var front, act := acts[..|acts| - 1], acts[|acts| - 1];
      assert DonorsGenuine(log, front) && (act.InstallFrom? ==> Genuine(log, act.donor.membership));
      hide *;
      SoundFront(dim, budget, log, acts);
      HistoryGenuine(dim, budget, log, front);
      AfterLast(dim, budget, log, acts);
      ActGenuine(dim, log, After(dim, budget, log, front).value, act);
    }
  }

  lemma {:induction false} BootGenuine(dim: nat, budget: nat, log: seq<Entry>)
    ensures var m := After(dim, budget, log, []); m.Some? && AllGenuine(log, m.value)
  {
    assert log[..0] == [];
  }

  /** Feeding entries reads the membership on. */
  lemma {:induction false} FedMembership(dim: nat, log: seq<Entry>, m: Machine, clock: seq<nat>)
    requires Committed(log) && Inv(dim, log, m) && Pos(m.mem) + |clock| <= |log| && !Feed(log, m, clock).failed
    ensures var p, to := Feed(log, m, clock), Pos(m.mem) + |clock|;
      Pos(p.mem) == to && p.mem.membership == Fold(m.mem.membership, log[Pos(m.mem)..to])
  {
    hide Feed, Run, Fresh, Owed, Fold, Positions, Audited, Tracks, FeedWritten, OwedAt;
    FeedFed(dim, log, m, clock);
    TracksMark(dim, log, Feed(log, m, clock).mem, Pos(m.mem) + |clock|);
  }

  /** After any history at all, lost memberships included: a node that reads on to `to`
      has the membership the log says if and only if the one it held was the newest
      where it stood, or a newer one is on the way. */
  lemma {:induction false} MembershipIff(dim: nat, budget: nat, log: seq<Entry>, acts: seq<Act>, clock: seq<nat>)
    requires Committed(log) && Sound(dim, budget, log, acts) && DonorsGenuine(log, acts)
    ensures var m := After(dim, budget, log, acts);
      && m.Some?
      && var p, a, to := Feed(log, m.value, clock), Pos(m.value.mem), Pos(m.value.mem) + |clock|;
         to <= |log| && !p.failed ==>
           Pos(p.mem) == to && (p.mem.membership == MembershipAt(log, to) <==> Newest(log, m.value.mem.membership, a, to))
  {
    hide *;
    HistoryGenuine(dim, budget, log, acts);
    var m := After(dim, budget, log, acts).value;
    GenuineParts(log, m);
    if Pos(m.mem) + |clock| <= |log| && !Feed(log, m, clock).failed {
      FedMembership(dim, log, m, clock);
      NewestIff(log, m.mem.membership, Pos(m.mem), Pos(m.mem) + |clock|);
    }
  }

  /** Recovery: one membership entry read puts the membership right, whatever was lost. */
  lemma {:induction false} MembershipRecovers(dim: nat, budget: nat, log: seq<Entry>, acts: seq<Act>, clock: seq<nat>)
    requires Committed(log) && Sound(dim, budget, log, acts) && DonorsGenuine(log, acts)
    ensures var m := After(dim, budget, log, acts);
      && m.Some?
      && var p, a, to := Feed(log, m.value, clock), Pos(m.value.mem), Pos(m.value.mem) + |clock|;
         to <= |log| && !p.failed && !NoneBetween(log, a, to) ==> p.mem.membership == MembershipAt(log, to)
  {
    MembershipIff(dim, budget, log, acts, clock);
    hide After, Feed, MembershipAt;
  }

  /** After any history, crash at any point and read on from the snapshot on disk to
      `to`: the membership is the one the log says if and only if the one on disk is the
      newest before the snapshot, or a newer one is read on the way. */
  lemma {:induction false} MembershipSurvivesIff(dim: nat, budget: nat, log: seq<Entry>, acts: seq<Act>, crash: seq<nat>, room: nat, clock: seq<nat>)
    requires Committed(log) && Sound(dim, budget, log, acts) && DonorsGenuine(log, acts)
    requires var m := After(dim, budget, log, acts); m.Some? ==> Restorable(dim, log, m.value.table)
    ensures var m := After(dim, budget, log, acts);
      && m.Some?
      && var back := Exec(dim, log, m.value, Crash(crash, room));
      && back.Some? && Pos(back.value.mem) == SnapshotCount(m.value.table)
      && var p, n, to := Feed(log, back.value, clock), SnapshotCount(m.value.table), SnapshotCount(m.value.table) + |clock|;
         to <= |log| && !p.failed ==>
           Pos(p.mem) == to && (p.mem.membership == MembershipAt(log, to) <==> Newest(log, TableMembership(m.value.table), n, to))
  {
    hide *;
    HistoryGenuine(dim, budget, log, acts);
    var m := After(dim, budget, log, acts).value;
    CrashIsReboot(dim, log, m, crash, room);
    RebootInv(dim, log, m, crash, room);
    RebootShape(dim, log, m, crash, room);
    var back := Reboot(dim, log, m, crash, room).value;
    GenuineParts(log, m);
    if Pos(back.mem) + |clock| <= |log| && !Feed(log, back, clock).failed {
      FedMembership(dim, log, back, clock);
      NewestIff(log, back.mem.membership, Pos(back.mem), Pos(back.mem) + |clock|);
    }
  }

  lemma {:induction false} GenuineParts(log: seq<Entry>, m: Machine)
    requires AllGenuine(log, m)
    ensures Genuine(log, m.mem.membership) && Genuine(log, TableMembership(m.table))
  {
    hide Genuine, TableMembership;
  }

  lemma {:induction false} RebootShape(dim: nat, log: seq<Entry>, m: Machine, clock: seq<nat>, budget: nat)
    requires Committed(log) && Inv(dim, log, m) && Restorable(dim, log, m.table)
    ensures var back := Reboot(dim, log, m, clock, budget);
      back.Some? && back.value.mem.membership == TableMembership(m.table) && Pos(back.value.mem) == SnapshotCount(m.table)
  {
    RebootMemory(dim, log, m);
    hide Inv, Feed, FeedWritten, Reached, Restorable, Unpack, Fresh;
  }

  // ---- histories that keep the membership ---------------------------------

  /** Memory and table both hold memberships that settle by `high`. */
  ghost predicate Membered(log: seq<Entry>, m: Machine) {
    && AllGenuine(log, m)
    && Settles(log, m.mem.membership, Pos(m.mem), m.high)
    && Settles(log, TableMembership(m.table), Count(m.table.lastApplied), m.high)
  }

  /** The act loses no membership: what a restart finds on disk settles, and an installed
      snapshot brings the one the log says. */
  ghost predicate KeepsHere(log: seq<Entry>, m: Option<Machine>, act: Act) {
    && (m.Some? && Restarts(log, m.value, act) ==>
          Newest(log, TableMembership(m.value.table), SnapshotCount(m.value.table), Max(m.value.high, Reached(Feed(log, m.value, act.clock)))))
    && (act.InstallFrom? && Pos(act.donor) <= |log| ==> act.donor.membership == MembershipAt(log, Pos(act.donor)))
  }

  ghost predicate KeepsMembership(dim: nat, budget: nat, log: seq<Entry>, acts: seq<Act>) {
    forall k :: 0 <= k < |acts| ==> KeepsHere(log, After(dim, budget, log, acts[..k]), acts[k])
  }

  lemma {:induction false} KeepsFront(dim: nat, budget: nat, log: seq<Entry>, acts: seq<Act>)
    requires KeepsMembership(dim, budget, log, acts) && acts != []
    ensures KeepsMembership(dim, budget, log, acts[..|acts| - 1])
    ensures KeepsHere(log, After(dim, budget, log, acts[..|acts| - 1]), acts[|acts| - 1])
  {
    hide KeepsHere, After;
    var front := acts[..|acts| - 1];
    forall k | 0 <= k < |front| ensures KeepsHere(log, After(dim, budget, log, front[..k]), front[k]) {
      assert front[..k] == acts[..k];
    }
  }

  lemma {:induction false} FoldSettles(log: seq<Entry>, st: Stored, a: nat, to: nat, high: nat)
    requires Settles(log, st, a, high) && a <= to <= high
    ensures Settles(log, Fold(st, log[a..to]), to, high)
  {
    hide Fold;
    assert log[a..high] == log[a..to] + log[to..high];
    FoldJoin(st, log[a..to], log[to..high]);
  }

  lemma {:induction false} BootMembered(dim: nat, budget: nat, log: seq<Entry>)
    ensures Membered(log, Boot(dim, budget))
  {
    assert log[..0] == [] && log[0..0] == [];
  }

  lemma {:induction false} LeavesMembered(log: seq<Entry>, m: Machine, to: nat, after: Machine)
    requires Committed(log) && Membered(log, m) && BatchLeaves(log, m, to, after) && Mark(after.mem) <= after.high <= |log|
    ensures Membered(log, after)
  {
    hide Settles, Genuine, Fold, TableMembership;
    var a, st := Pos(m.mem), m.mem.membership;
    FoldGenuine(log, st, a, to);
    SettlesOn(log, st, a, m.high, after.high);
    FoldSettles(log, st, a, to, after.high);
  }

  lemma {:induction false} BatchMembered(dim: nat, log: seq<Entry>, m: Machine, clock: seq<nat>)
    requires Committed(log) && Inv(dim, log, m) && Membered(log, m) && !Feed(log, m, clock).failed
    ensures Membered(log, Exec(dim, log, m, Batch(clock)).value)
  {
    hide Exec, Feed, Settles, Genuine, Fold, Next, Positions, WrittenFor, Owes, Membered;
    BatchShape(dim, log, m, clock);
    BatchInv(dim, log, m, clock);
    LeavesMembered(log, m, Pos(m.mem) + |Next(log, m.mem, clock)|, Exec(dim, log, m, Batch(clock)).value);
  }

  lemma {:induction false} InstalledMembered(log: seq<Entry>, m: Machine, n: nat, after: Machine)
    requires Committed(log) && Membered(log, m) && m.high <= after.high <= |log| && n <= after.high
    requires Pos(after.mem) == n && after.mem.membership == MembershipAt(log, n)
    requires after.table == m.table.(snapshot := after.table.snapshot)
    ensures Membered(log, after)
  {
    var st, high := TableMembership(m.table), after.high;
    assert TableMembership(after.table) == st;
    hide Genuine, TableMembership, Fold;
    MembershipGenuine(log, n);
    SettlesOn(log, st, Count(m.table.lastApplied), m.high, high);
    assert log[..high] == log[..n] + log[n..high];
    FoldJoin(Stored(None, None), log[..n], log[n..high]);
  }

  lemma {:induction false} InstallMembered(dim: nat, log: seq<Entry>, m: Machine, donor: Memory)
    requires Committed(log) && Inv(dim, log, m) && Membered(log, m) && (Installs(m, donor) ==> OnLog(dim, log, donor))
    requires Pos(donor) <= |log| ==> donor.membership == MembershipAt(log, Pos(donor))
    ensures Membered(log, Exec(dim, log, m, InstallFrom(donor)).value)
  {
    if Installs(m, donor) {
      var after, n := Exec(dim, log, m, InstallFrom(donor)).value, Pos(donor);
      hide Exec, OnLog, Positions, Genuine, Installs, Settles, WrittenFor, Owes, Membered, MembershipAt, SnapshotCount;
      InstallMemory(dim, log, m, donor);
      InstallInv(dim, log, m, donor);
      InstalledMembered(log, m, n, after);
    }
  }

  lemma {:induction false} RestartMembered(dim: nat, log: seq<Entry>, m: Machine, clock: seq<nat>, budget: nat)
    requires Committed(log) && Inv(dim, log, m) && Membered(log, m) && Restorable(dim, log, m.table)
    requires Newest(log, TableMembership(m.table), SnapshotCount(m.table), Max(m.high, Reached(Feed(log, m, clock))))
    ensures var after := Reboot(dim, log, m, clock, budget); after.Some? && Membered(log, after.value)
  {
    RebootMemory(dim, log, m);
    RebootInv(dim, log, m, clock, budget);
    var after := Reboot(dim, log, m, clock, budget).value;
    var st := TableMembership(m.table);
    assert m.high <= after.high <= |log| && SnapshotCount(m.table) <= after.high && after.table == m.table;
    assert after.high == Max(m.high, Reached(Feed(log, m, clock)));
    hide Inv, Reboot, Restart, Restorable, Genuine, Newest, TableMembership, SnapshotCount, Pos, Mark, Feed, Reached, MembershipAt, Fold;
    SettlesOn(log, st, Count(m.table.lastApplied), m.high, after.high);
    NewestIff(log, st, SnapshotCount(m.table), after.high);
  }

  lemma {:induction false} SnapshotMembered(dim: nat, log: seq<Entry>, m: Machine)
    requires Membered(log, m)
    ensures Membered(log, Exec(dim, log, m, TakeSnapshot).value)
  {
    hide Settles, Genuine, Build;
  }

  lemma {:induction false} ActMembered(dim: nat, log: seq<Entry>, m: Machine, act: Act)
    requires Committed(log) && Inv(dim, log, m) && Membered(log, m) && SoundHere(dim, log, Some(m), act) && KeepsHere(log, Some(m), act)
    ensures var after := Exec(dim, log, m, act); after.Some? && Membered(log, after.value)
  {
    hide Inv, Membered, Feed, FeedWritten, Restart, Restorable, Newest, Reached, Installs;
    match act
    case Batch(clock) =>
      if Feed(log, m, clock).failed { RestartMembered(dim, log, m, clock, 0); } else { BatchMembered(dim, log, m, clock); }
    case TakeSnapshot => SnapshotMembered(dim, log, m);
    case InstallFrom(donor) => InstallMembered(dim, log, m, donor);
    case Crash(clock, b) => RestartMembered(dim, log, m, clock, b);
  }

  lemma {:induction false} HistoryMembered(dim: nat, budget: nat, log: seq<Entry>, acts: seq<Act>)
    requires Committed(log) && Sound(dim, budget, log, acts) && KeepsMembership(dim, budget, log, acts)
    ensures var m := After(dim, budget, log, acts); m.Some? && Inv(dim, log, m.value) && Membered(log, m.value)
  {
    HistoryInv(dim, budget, log, acts);
    if acts == [] {
      BootMembered(dim, budget, log);
    } else {
      hide *;
      SoundFront(dim, budget, log, acts);
      KeepsFront(dim, budget, log, acts);
      HistoryMembered(dim, budget, log, acts[..|acts| - 1]);
      AfterLast(dim, budget, log, acts);
      ActMembered(dim, log, After(dim, budget, log, acts[..|acts| - 1]).value, acts[|acts| - 1]);
    }
  }

  /** In such a history, once a node is as far as it has ever been, its membership is
      the one the log says. */
  lemma {:induction false} MembershipSettles(dim: nat, budget: nat, log: seq<Entry>, acts: seq<Act>)
    requires Committed(log) && Sound(dim, budget, log, acts) && KeepsMembership(dim, budget, log, acts)
    ensures var m := After(dim, budget, log, acts);
      && m.Some? && Pos(m.value.mem) <= m.value.high
      && (Pos(m.value.mem) == m.value.high ==> m.value.mem.membership == MembershipAt(log, Pos(m.value.mem)))
  {
    HistoryMembered(dim, budget, log, acts);
    var m := After(dim, budget, log, acts).value;
    hide After, Inv, Genuine;
    assert log[m.high..m.high] == [];
  }

  // ---- after an installed snapshot ----------------------------------------

  ghost predicate OnlyBatches(dim: nat, budget: nat, log: seq<Entry>, acts: seq<Act>, from: nat) {
    forall k :: from <= k < |acts| ==> BatchHere(log, After(dim, budget, log, acts[..k]), acts[k])
  }

  ghost predicate BatchHere(log: seq<Entry>, m: Option<Machine>, act: Act) {
    m.Some? && act.Batch? && !Feed(log, m.value, act.clock).failed
  }

  lemma {:induction false} OnlyBatchesFront(dim: nat, budget: nat, log: seq<Entry>, acts: seq<Act>, from: nat)
    requires OnlyBatches(dim, budget, log, acts, from) && from < |acts|
    ensures OnlyBatches(dim, budget, log, acts[..|acts| - 1], from)
    ensures BatchHere(log, After(dim, budget, log, acts[..|acts| - 1]), acts[|acts| - 1])
  {
    hide BatchHere, After;
    var front := acts[..|acts| - 1];
    forall k | from <= k < |front| ensures BatchHere(log, After(dim, budget, log, front[..k]), front[k]) {
      assert front[..k] == acts[..k];
      assert BatchHere(log, After(dim, budget, log, acts[..k]), acts[k]);
    }
  }

  /** Since a snapshot at `n` was installed from a node with the membership of the log:
      memory is right, and so is the table once a batch has been applied. */
  ghost predicate SinceInstall(log: seq<Entry>, m: Machine, n: nat, batched: bool) {
    && SnapshotCount(m.table) == n <= Pos(m.mem) <= |log| && m.mem.membership == MembershipAt(log, Pos(m.mem))
    && (batched ==> Count(m.table.lastApplied) == Pos(m.mem) && TableMembership(m.table) == m.mem.membership)
  }

  lemma {:induction false} BatchSince(dim: nat, log: seq<Entry>, m: Machine, act: Act, n: nat, batched: bool)
    requires Committed(log) && Inv(dim, log, m) && BatchHere(log, Some(m), act) && SinceInstall(log, m, n, batched)
    ensures var after := Exec(dim, log, m, act); after.Some? && SinceInstall(log, after.value, n, true)
  {
    hide *;
    BatchRuns(log, m, act);
    InvPositions(dim, log, m);
    BatchShape(dim, log, m, act.clock);
    BatchInv(dim, log, m, act.clock);
    LeavesSince(log, m, Pos(m.mem) + |Next(log, m.mem, act.clock)|, Exec(dim, log, m, act).value, n, batched);
  }

  lemma {:induction false} BatchRuns(log: seq<Entry>, m: Machine, act: Act)
    requires BatchHere(log, Some(m), act)
    ensures act.Batch? && act == Batch(act.clock) && !Feed(log, m, act.clock).failed
  {
    hide Feed;
  }

  lemma {:induction false} LeavesSince(log: seq<Entry>, m: Machine, to: nat, after: Machine, n: nat, batched: bool)
    requires BatchLeaves(log, m, to, after) && SinceInstall(log, m, n, batched)
    ensures SinceInstall(log, after, n, true)
  {
    hide Fold, Mark, Replay, MembershipAt;
    MembershipOn(log, Pos(m.mem), to);
  }

  lemma {:induction false} MembershipOn(log: seq<Entry>, a: nat, to: nat)
    ensures a <= to <= |log| ==> MembershipAt(log, to) == Fold(MembershipAt(log, a), log[a..to])
  {
    if a <= to <= |log| {
      hide Fold;
      assert log[..to] == log[..a] + log[a..to];
      FoldJoin(Stored(None, None), log[..a], log[a..to]);
    }
  }

  lemma {:induction false} InvPositions(dim: nat, log: seq<Entry>, m: Machine)
    requires Inv(dim, log, m)
    ensures Positions(dim, log, m)
  {
  }

  lemma {:induction false} BatchesSince(dim: nat, budget: nat, log: seq<Entry>, acts: seq<Act>, from: nat, n: nat)
    requires Committed(log) && Sound(dim, budget, log, acts) && from <= |acts| && OnlyBatches(dim, budget, log, acts, from)
    requires var m := After(dim, budget, log, acts[..from]); m.Some? && SinceInstall(log, m.value, n, false)
    ensures var m := After(dim, budget, log, acts); m.Some? && SinceInstall(log, m.value, n, from < |acts|)
  {
    hide *;
    if from == |acts| {
      assert acts[..from] == acts;
    } else {
      var front, act := acts[..|acts| - 1], acts[|acts| - 1];
      SoundFront(dim, budget, log, acts);
      OnlyBatchesFront(dim, budget, log, acts, from);
      assert front[..from] == acts[..from];
      BatchesSince(dim, budget, log, front, from, n);
      HistoryInv(dim, budget, log, front);
      AfterLast(dim, budget, log, acts);
      BatchSince(dim, log, After(dim, budget, log, front).value, act, n, from < |front|);
    }
  }

  lemma {:induction false} InstalledAt(dim: nat, budget: nat, log: seq<Entry>, acts: seq<Act>, at: nat)
    requires Committed(log) && Sound(dim, budget, log, acts) && at < |acts| && acts[at].InstallFrom?
    requires var m := After(dim, budget, log, acts[..at]); m.Some? && Installs(m.value, acts[at].donor)
    requires Pos(acts[at].donor) <= |log| ==> acts[at].donor.membership == MembershipAt(log, Pos(acts[at].donor))
    ensures var before, m, n := After(dim, budget, log, acts[..at]), After(dim, budget, log, acts[..at + 1]), Pos(acts[at].donor);
      && m.Some? && SinceInstall(log, m.value, n, false)
      && TableMembership(m.value.table) == TableMembership(before.value.table)
      && n <= |log| && Faithful(Run(Fresh(dim), log[..n]).core.kernel)
  {
    hide *;
    var before, donor := acts[..at], acts[at].donor;
    assert acts[..at + 1][..at] == before && acts[..at + 1][at] == acts[at];
    SoundPrefix(dim, budget, log, acts, at);
    SoundAt(dim, budget, log, acts, at);
    HistoryInv(dim, budget, log, before);
    var m := After(dim, budget, log, before).value;
    AfterLast(dim, budget, log, acts[..at + 1]);
    DonorFaithful(dim, log, m, donor);
    InvPositions(dim, log, m);
    InstallMemory(dim, log, m, donor);
    ActInv(dim, log, m, acts[at]);
    InstalledSince(log, m, donor, Exec(dim, log, m, acts[at]).value);
  }

  lemma {:induction false} InstalledSince(log: seq<Entry>, m: Machine, donor: Memory, after: Machine)
    requires Pos(after.mem) == Pos(donor) == SnapshotCount(after.table) <= |log|
    requires after.mem.membership == donor.membership == MembershipAt(log, Pos(donor))
    requires after.table == m.table.(snapshot := after.table.snapshot)
    ensures SinceInstall(log, after, Pos(donor), false) && TableMembership(after.table) == TableMembership(m.table)
  {
    hide MembershipAt;
  }

  lemma {:induction false} SoundAt(dim: nat, budget: nat, log: seq<Entry>, acts: seq<Act>, k: nat)
    requires Sound(dim, budget, log, acts) && k < |acts| && acts[k].InstallFrom?
    requires var m := After(dim, budget, log, acts[..k]); m.Some? && Installs(m.value, acts[k].donor)
    ensures SoundHere(dim, log, After(dim, budget, log, acts[..k]), acts[k]) && OnLog(dim, log, acts[k].donor)
  {
    hide OnLog, Restarts, After, Restorable, Installs;
    assert SoundHere(dim, log, After(dim, budget, log, acts[..k]), acts[k]);
  }

  lemma {:induction false} DonorFaithful(dim: nat, log: seq<Entry>, m: Machine, donor: Memory)
    requires OnLog(dim, log, donor) && Installs(m, donor)
    ensures Pos(donor) <= |log| && Faithful(Run(Fresh(dim), log[..Pos(donor)]).core.kernel)
  {
    hide Run, Fresh, Faithful, Unpack, Build;
  }

  lemma {:induction false} StillRestorable(dim: nat, log: seq<Entry>, m: Machine, n: nat)
    requires SnapshotCount(m.table) == n <= |log| && Faithful(Run(Fresh(dim), log[..n]).core.kernel)
    ensures Restorable(dim, log, m.table)
  {
    hide Faithful, Run, Fresh, SnapshotCount;
  }

  /** The membership on disk is right at its own mark, so reading on past it is too. */
  lemma {:induction false} MarkedIsNewest(log: seq<Entry>, n: nat, d: nat, to: nat)
    requires Committed(log) && n <= d <= to <= |log|
    ensures Newest(log, MembershipAt(log, d), n, to)
  {
    MembershipGenuine(log, d);
    var c := Count(MembershipAt(log, d).logId);
    if c > 0 { GenuineEntry(log, MembershipAt(log, d)); }
    hide MembershipAt;
  }

  /** Install a snapshot at `n` from a node with the membership of the log, apply any
      batches, crash at any point and read on to `to`. With one batch or more the
      membership is right wherever `to` is at or past the mark on disk. With none, the
      one on disk is still the one from before the install, and the result is right if
      and only if that was the newest before `n` or a newer one is read after `n`. What
      happened before the install does not matter. */
  lemma {:induction false} InstalledMembershipSurvivesIff(
      dim: nat, budget: nat, log: seq<Entry>, acts: seq<Act>, at: nat, crash: seq<nat>, room: nat, clock: seq<nat>)
    requires Committed(log) && Sound(dim, budget, log, acts) && DonorsGenuine(log, acts)
    requires at < |acts| && acts[at].InstallFrom? && OnlyBatches(dim, budget, log, acts, at + 1)
    requires var m := After(dim, budget, log, acts[..at]); m.Some? && Installs(m.value, acts[at].donor)
    requires Pos(acts[at].donor) <= |log| ==> acts[at].donor.membership == MembershipAt(log, Pos(acts[at].donor))
    ensures var before, m, n := After(dim, budget, log, acts[..at]), After(dim, budget, log, acts), Pos(acts[at].donor);
      && m.Some?
      && var back := Exec(dim, log, m.value, Crash(crash, room));
      && back.Some? && Pos(back.value.mem) == n
      && var p, to := Feed(log, back.value, clock), n + |clock|;
         to <= |log| && !p.failed ==>
           && (at + 1 < |acts| ==> n <= Count(m.value.table.lastApplied) && (Count(m.value.table.lastApplied) <= to ==> p.mem.membership == MembershipAt(log, to)))
           && (at + 1 == |acts| ==>
                 (p.mem.membership == MembershipAt(log, to) <==> Newest(log, TableMembership(before.value.table), n, to)))
  {
    hide *;
    InstalledAt(dim, budget, log, acts, at);
    var n := Pos(acts[at].donor);
    BatchesSince(dim, budget, log, acts, at + 1, n);
    var m := After(dim, budget, log, acts).value;
    SinceMeans(log, m, n, at + 1 < |acts|);
    StillRestorable(dim, log, m, n);
    MembershipSurvivesIff(dim, budget, log, acts, crash, room, clock);
    var d, to := Count(m.table.lastApplied), n + |clock|;
    if at + 1 < |acts| && d <= to <= |log| { MarkedIsNewest(log, n, d, to); }
    if at + 1 == |acts| { assert acts[..at + 1] == acts; }
  }

  lemma {:induction false} SinceMeans(log: seq<Entry>, m: Machine, n: nat, batched: bool)
    requires SinceInstall(log, m, n, batched)
    ensures SnapshotCount(m.table) == n
    ensures batched ==> n <= Count(m.table.lastApplied) && TableMembership(m.table) == MembershipAt(log, Count(m.table.lastApplied))
  {
    hide MembershipAt;
  }
}
