/**
  What the audit log holds after any history of a node: which accepted events are in
  it, which are in it twice, and which a snapshot from another node has skipped.
 */
module AuditTrail {
  import opened Basics
  import opened Replica
  import opened Node
  import opened NodeRuns
  import opened Histories

  predicate Takes(m: Machine, act: Act) {
    act.InstallFrom? && Installs(m, act.donor)
  }

  /** How far the act writes the audit log. */
  function WroteTo(log: seq<Entry>, m: Machine, act: Act): nat {
    match act
    case Batch(clock) => Reached(Feed(log, m, clock))
    case Crash(clock, _) => Reached(Feed(log, m, clock))
    case _ => Mark(m.mem)
  }

  /** What one act does to the audit log and to the mark. */
  ghost predicate Writes(dim: nat, log: seq<Entry>, m: Machine, act: Act, after: Machine) {
    var from, to := Mark(m.mem), WroteTo(log, m, act);
    && from <= to <= |log| && from <= m.high <= |log|
    && after.sink.records == m.sink.records + Owed(dim, log, from, to)
    && after.written == m.written + OwedAt(dim, log, from, to)
    && after.high == Max(m.high, if Takes(m, act) then Pos(act.donor) else to) <= |log|
    && SnapshotCount(m.table) <= Pos(m.mem) <= from && DiskMark(m.table) <= from
    && SnapshotCount(m.table) <= SnapshotCount(after.table)
    && (Takes(m, act) ==> SnapshotCount(after.table) == Pos(act.donor) && to == from)
    && Mark(after.mem) == if Restarts(log, m, act) then DiskMark(m.table) else if Takes(m, act) then Max(from, Pos(act.donor)) else to
  }

  lemma {:induction false} ActWrites(dim: nat, log: seq<Entry>, m: Machine, act: Act)
    requires Committed(log) && Inv(dim, log, m) && SoundHere(dim, log, Some(m), act)
    ensures var after := Exec(dim, log, m, act); after.Some? && Inv(dim, log, after.value) && Writes(dim, log, m, act, after.value)
  {
    ActInv(dim, log, m, act);
    OwedNone(dim, log, Mark(m.mem));
    match act
    case Batch(clock) => FedWrites(dim, log, m, act);
    case TakeSnapshot => SnapshotWrites(dim, log, m);
    case InstallFrom(donor) => InstallWrites(dim, log, m, donor);
    case Crash(clock, b) => FedWrites(dim, log, m, act);
  }

  lemma {:induction false} FedWrites(dim: nat, log: seq<Entry>, m: Machine, act: Act)
    requires Committed(log) && Inv(dim, log, m) && SoundHere(dim, log, Some(m), act) && (act.Batch? || act.Crash?)
    requires Exec(dim, log, m, act).Some?
    ensures Writes(dim, log, m, act, Exec(dim, log, m, act).value)
  {
    hide Feed, FeedWritten, FedMemory, Restart, Restorable, Audited, Positions, Owed, OwedAt, Pos, DiskMark, Mark;
    FeedFed(dim, log, m, act.clock);
    FloorBelow(dim, log, m);
    NotFailedReaches(Feed(log, m, act.clock));
    if Restarts(log, m, act) { RebootMemory(dim, log, m); }
  }

  lemma {:induction false} NotFailedReaches(p: Progress)
    ensures !p.failed ==> Reached(p) == Mark(p.mem)
  {
  }

  lemma {:induction false} FloorBelow(dim: nat, log: seq<Entry>, m: Machine)
    requires Inv(dim, log, m)
    ensures SnapshotCount(m.table) <= Pos(m.mem) <= Mark(m.mem) <= m.high <= |log| && DiskMark(m.table) <= Mark(m.mem) && Replay(m.mem) <= Mark(m.mem)
  {
    hide Tracks, SnapshotOk, WrittenFor, Owes, SnapshotCount;
  }

  lemma {:induction false} SnapshotWrites(dim: nat, log: seq<Entry>, m: Machine)
    requires Inv(dim, log, m) && Owed(dim, log, Mark(m.mem), Mark(m.mem)) == []
    ensures Writes(dim, log, m, TakeSnapshot, Exec(dim, log, m, TakeSnapshot).value)
  {
    FloorBelow(dim, log, m);
    hide Inv, Owed, Owes;
  }

  lemma {:induction false} InstallWrites(dim: nat, log: seq<Entry>, m: Machine, donor: Memory)
    requires Committed(log) && Inv(dim, log, m) && (Installs(m, donor) ==> OnLog(dim, log, donor)) && Owed(dim, log, Mark(m.mem), Mark(m.mem)) == []
    ensures Writes(dim, log, m, InstallFrom(donor), Exec(dim, log, m, InstallFrom(donor)).value)
  {
    FloorBelow(dim, log, m);
    assert OwedAt(dim, log, Mark(m.mem), Mark(m.mem)) == [];
    hide Owed, OwedAt, OnLog, Positions, Installs, Mark, Pos, Audited, Replay, Build, DiskMark;
    if Installs(m, donor) {
      InstalledWrites(dim, log, m, donor);
    }
  }

  lemma {:induction false} InstalledWrites(dim: nat, log: seq<Entry>, m: Machine, donor: Memory)
    requires Committed(log) && Inv(dim, log, m) && OnLog(dim, log, donor) && Installs(m, donor)
    requires Owed(dim, log, Mark(m.mem), Mark(m.mem)) == [] && OwedAt(dim, log, Mark(m.mem), Mark(m.mem)) == []
    ensures Writes(dim, log, m, InstallFrom(donor), Exec(dim, log, m, InstallFrom(donor)).value)
  {
    var act := InstallFrom(donor);
    var after := Exec(dim, log, m, act).value;
    assert Pos(m.mem) < Pos(donor) && Takes(m, act) && !Restarts(log, m, act) && WroteTo(log, m, act) == Mark(m.mem);
    assert Positions(dim, log, m);
    hide *;
    FloorBelow(dim, log, m);
    InstallMemory(dim, log, m, donor);
    InstallMarks(m, donor, after);
    NowWrites(dim, log, m, act, after);
  }

  lemma {:induction false} InstallMarks(m: Machine, donor: Memory, after: Machine)
    requires Pos(m.mem) < Pos(donor) && Mark(after.mem) == Max(Pos(donor), Replay(m.mem)) && after.high == Max(m.high, Mark(after.mem))
    requires Mark(m.mem) <= m.high
    ensures Mark(after.mem) == Max(Mark(m.mem), Pos(donor)) && after.high == Max(m.high, Pos(donor))
  {
  }

  lemma {:induction false} NowWrites(dim: nat, log: seq<Entry>, m: Machine, act: Act, after: Machine)
    requires var from := Mark(m.mem);
      && Takes(m, act) && !Restarts(log, m, act) && WroteTo(log, m, act) == from
      && Owed(dim, log, from, from) == [] && OwedAt(dim, log, from, from) == []
      && SnapshotCount(m.table) <= Pos(m.mem) <= from <= m.high <= |log| && DiskMark(m.table) <= from
      && after.sink == m.sink && after.written == m.written
      && after.high == Max(m.high, Pos(act.donor)) && Pos(act.donor) <= |log| && Mark(after.mem) == Max(from, Pos(act.donor))
      && SnapshotCount(after.table) == Pos(act.donor) > Pos(m.mem)
    ensures Writes(dim, log, m, act, after)
  {
    hide Owed, OwedAt, Restarts, WroteTo, Mark, Pos, DiskMark, SnapshotCount, Installs;
    assert m.sink.records + [] == m.sink.records && m.written + [] == m.written;
  }

  // ---- complete -----------------------------------------------------------

  /** Every event owed by anything the node has gone past is in the audit log. */
  ghost predicate Filled(dim: nat, log: seq<Entry>, m: Machine) {
    forall i: nat :: Owes(dim, log, i) && i < m.high ==> i in m.written
  }

  /** An act that installs a snapshot skips the stretch from the furthest position ever
      dealt with to the snapshot; that stretch owes nothing. */
  ghost predicate SkipsNothingHere(dim: nat, log: seq<Entry>, m: Option<Machine>, act: Act) {
    m.Some? && Takes(m.value, act) ==> Owed(dim, log, m.value.high, Pos(act.donor)) == []
  }

  ghost predicate SkipsNothing(dim: nat, budget: nat, log: seq<Entry>, acts: seq<Act>) {
    forall k :: 0 <= k < |acts| ==> SkipsNothingHere(dim, log, After(dim, budget, log, acts[..k]), acts[k])
  }

  lemma {:induction false} SkipsFront(dim: nat, budget: nat, log: seq<Entry>, acts: seq<Act>)
    requires acts != []
    ensures var front := acts[..|acts| - 1];
      SkipsNothing(dim, budget, log, acts) <==>
      SkipsNothing(dim, budget, log, front) && SkipsNothingHere(dim, log, After(dim, budget, log, front), acts[|acts| - 1])
  {
    hide SkipsNothingHere, After;
    var n := |acts| - 1;
    var front := acts[..n];
    assert forall k :: 0 <= k <= n ==> front[..k] == acts[..k];
    assert front[..n] == front;
    if SkipsNothing(dim, budget, log, acts) {
      forall k | 0 <= k < n ensures SkipsNothingHere(dim, log, After(dim, budget, log, front[..k]), front[k]) {
        assert SkipsNothingHere(dim, log, After(dim, budget, log, acts[..k]), acts[k]);
      }
    }
    if SkipsNothing(dim, budget, log, front) && SkipsNothingHere(dim, log, After(dim, budget, log, front), acts[n]) {
      forall k | 0 <= k <= n ensures SkipsNothingHere(dim, log, After(dim, budget, log, acts[..k]), acts[k]) {
        if k < n { assert SkipsNothingHere(dim, log, After(dim, budget, log, front[..k]), front[k]); }
      }
    }
  }

  /** A hole in the audit log is never filled later, and only an install makes one. */
  lemma {:induction false} FilledStep(dim: nat, log: seq<Entry>, m: Machine, act: Act, after: Machine)
    requires Audited(dim, log, m) && Writes(dim, log, m, act, after)
    ensures Filled(dim, log, after) <==> Filled(dim, log, m) && SkipsNothingHere(dim, log, Some(m), act)
  {
    var from, to := Mark(m.mem), WroteTo(log, m, act);
    OwedAtSpec(dim, log, from, to);
    if Takes(m, act) { OwedNothing(dim, log, m.high, Pos(act.donor)); }
    hide Owes, Owed, OwedAt, Mark, Pos, WroteTo, Installs, DiskMark, SnapshotCount, WrittenFor;
    if Filled(dim, log, after) {
      forall i: nat | Owes(dim, log, i) && i < m.high ensures i in m.written {
        assert i in after.written;
      }
      if Takes(m, act) && m.high <= Pos(act.donor) {
        forall i | m.high <= i < Pos(act.donor) ensures !Owes(dim, log, i) { assert i in after.written ==> i in m.written; }
      }
    }
    if Filled(dim, log, m) && SkipsNothingHere(dim, log, Some(m), act) {
      forall i: nat | Owes(dim, log, i) && i < after.high ensures i in after.written {
        if i < m.high { assert i in m.written; } else { assert !Takes(m, act) ==> i in OwedAt(dim, log, from, to); }
      }
    }
  }

  lemma {:induction false} FilledIff(dim: nat, budget: nat, log: seq<Entry>, acts: seq<Act>)
    requires Committed(log) && Sound(dim, budget, log, acts)
    ensures var m := After(dim, budget, log, acts);
      m.Some? && Inv(dim, log, m.value) && (Filled(dim, log, m.value) <==> SkipsNothing(dim, budget, log, acts))
  {
    HistoryInv(dim, budget, log, acts);
    if acts != [] {
      hide Exec, Boot, SoundHere, Sound, Filled, SkipsNothing, SkipsNothingHere, Writes, Positions, Audited;
      var front, act := acts[..|acts| - 1], acts[|acts| - 1];
      SoundFront(dim, budget, log, acts);
      SkipsFront(dim, budget, log, acts);
      FilledIff(dim, budget, log, front);
      var m := After(dim, budget, log, front).value;
      ActWrites(dim, log, m, act);
      FilledStep(dim, log, m, act, Exec(dim, log, m, act).value);
    }
  }

  /** Every record in the audit log is one the log owes, at its position; and every event
      the log accepts at or below `last_applied` is there if and only if no installed
      snapshot skipped a stretch that owes something. */
  lemma {:induction false} AuditCompleteIff(dim: nat, budget: nat, log: seq<Entry>, acts: seq<Act>)
    requires Committed(log) && Sound(dim, budget, log, acts)
    ensures var m := After(dim, budget, log, acts);
      && m.Some? && WrittenFor(dim, log, m.value.sink.records, m.value.written)
      && ((forall i: nat :: Owes(dim, log, i) && i < Pos(m.value.mem) ==> i in m.value.written) <==> SkipsNothing(dim, budget, log, acts))
  {
    FilledIff(dim, budget, log, acts);
    var m := After(dim, budget, log, acts).value;
    FloorBelow(dim, log, m);
    hide After, Owes, SkipsNothing, Positions, WrittenFor, Pos, Mark, SnapshotCount;
    if forall i: nat :: Owes(dim, log, i) && i < Pos(m.mem) ==> i in m.written {
      forall i: nat | Owes(dim, log, i) && i < m.high ensures i in m.written {
        assert i !in m.written ==> i < SnapshotCount(m.table);
      }
    }
  }

  // ---- in order -----------------------------------------------------------

  /** `a` can be had from `b` by leaving elements out. */
  predicate Within<T(==)>(a: seq<T>, b: seq<T>)
    decreases |b|
  {
    || a == []
    || (b != [] &&
        (|| Within(a, b[..|b| - 1])
         || (a[|a| - 1] == b[|b| - 1] && Within(a[..|a| - 1], b[..|b| - 1]))))
  }

  lemma {:induction false} WithinMore<T>(a: seq<T>, b: seq<T>, c: seq<T>)
    requires Within(a, b)
    ensures Within(a, b + c)
    decreases |c|
  {
    if c == [] {
      assert b + c == b;
    } else {
      WithinMore(a, b, c[..|c| - 1]);
      assert (b + c)[..|b + c| - 1] == b + c[..|c| - 1];
    }
  }

  lemma {:induction false} WithinBoth<T>(a: seq<T>, b: seq<T>, c: seq<T>)
    requires Within(a, b)
    ensures Within(a + c, b + c)
    decreases |c|
  {
    if c == [] {
      assert a + c == a && b + c == b;
    } else {
      var n := |c| - 1;
      WithinBoth(a, b, c[..n]);
      assert (a + c)[..|a + c| - 1] == a + c[..n] && (b + c)[..|b + c| - 1] == b + c[..n];
    }
  }

  lemma {:induction false} WithinLess<T>(a: seq<T>, c: seq<T>, b: seq<T>)
    requires Within(a + c, b)
    ensures Within(a, b)
    decreases |b|, |c|
  {
    if c == [] {
      assert a + c == a;
    } else if a != [] {
      var d := a + c;
      assert d[..|d| - 1] == a + c[..|c| - 1];
      if Within(d, b[..|b| - 1]) {
        WithinLess(a, c, b[..|b| - 1]);
      } else {
        WithinLess(a, c[..|c| - 1], b[..|b| - 1]);
      }
    }
  }

  lemma {:induction false} CoverOne(dim: nat, log: seq<Entry>, all: seq<AuditRecord>, to: nat, lo: nat, hi: nat)
    requires lo <= to <= |log| && lo <= hi <= |log| && Within(Owed(dim, log, 0, to), all)
    ensures Within(Owed(dim, log, 0, Max(to, hi)), all + Owed(dim, log, lo, hi))
  {
    hide Owed, Within;
    if hi <= to {
      WithinMore(Owed(dim, log, 0, to), all, Owed(dim, log, lo, hi));
    } else {
      OwedJoin(dim, log, 0, to, hi);
      OwedJoin(dim, log, lo, to, hi);
      WithinMore(Owed(dim, log, 0, to), all, Owed(dim, log, lo, to));
      WithinBoth(Owed(dim, log, 0, to), all + Owed(dim, log, lo, to), Owed(dim, log, to, hi));
      assert all + Owed(dim, log, lo, to) + Owed(dim, log, to, hi) == all + (Owed(dim, log, lo, to) + Owed(dim, log, to, hi));
    }
  }

  lemma {:induction false} InOrderStep(dim: nat, log: seq<Entry>, m: Machine, act: Act, after: Machine)
    requires Writes(dim, log, m, act, after) && SkipsNothingHere(dim, log, Some(m), act)
    requires Within(Owed(dim, log, 0, m.high), m.sink.records)
    ensures Within(Owed(dim, log, 0, after.high), after.sink.records)
  {
    hide Owed, OwedAt, Within, Mark, Pos, WroteTo, Installs, DiskMark, SnapshotCount;
    CoverOne(dim, log, m.sink.records, m.high, Mark(m.mem), WroteTo(log, m, act));
    if Takes(m, act) && m.high <= Pos(act.donor) {
      OwedJoin(dim, log, 0, m.high, Pos(act.donor));
      assert Owed(dim, log, 0, m.high) + [] == Owed(dim, log, 0, m.high);
    }
  }

  lemma {:induction false} InOrder(dim: nat, budget: nat, log: seq<Entry>, acts: seq<Act>)
    requires Committed(log) && Sound(dim, budget, log, acts) && SkipsNothing(dim, budget, log, acts)
    ensures var m := After(dim, budget, log, acts);
      m.Some? && Inv(dim, log, m.value) && Within(Owed(dim, log, 0, m.value.high), m.value.sink.records)
  {
    HistoryInv(dim, budget, log, acts);
    if acts == [] {
      OwedNone(dim, log, 0);
    } else {
      hide Exec, Boot, SoundHere, Sound, SkipsNothing, SkipsNothingHere, Writes, Inv, Within, Owed;
      var front, act := acts[..|acts| - 1], acts[|acts| - 1];
      SoundFront(dim, budget, log, acts);
      SkipsFront(dim, budget, log, acts);
      InOrder(dim, budget, log, front);
      var m := After(dim, budget, log, front).value;
      ActWrites(dim, log, m, act);
      InOrderStep(dim, log, m, act, Exec(dim, log, m, act).value);
    }
  }

  /** Whatever the batches, crashes, failing audit writes and restarts: every event the
      log accepts at or below `last_applied` is in the audit log, in log order, unless
      an installed snapshot skipped some. */
  lemma {:induction false} NothingLost(dim: nat, budget: nat, log: seq<Entry>, acts: seq<Act>)
    requires Committed(log) && Sound(dim, budget, log, acts) && SkipsNothing(dim, budget, log, acts)
    ensures var m := After(dim, budget, log, acts);
      m.Some? && Within(Owed(dim, log, 0, Pos(m.value.mem)), m.value.sink.records)
  {
    InOrder(dim, budget, log, acts);
    var m := After(dim, budget, log, acts).value;
    FloorBelow(dim, log, m);
    hide After, Owed, Within, Inv, SkipsNothing, Sound;
    OwedJoin(dim, log, 0, Pos(m.mem), m.high);
    WithinLess(Owed(dim, log, 0, Pos(m.mem)), Owed(dim, log, Pos(m.mem), m.high), m.sink.records);
  }

  // ---- exactly once -------------------------------------------------------

  /** What a restart will write again: the events accepted between the mark on disk and
      the furthest entry the lost incarnation had processed. */
  function Repeated(dim: nat, log: seq<Entry>, m: Machine, act: Act): seq<AuditRecord> {
    if Restarts(log, m, act) then Owed(dim, log, DiskMark(m.table), Reached(Feed(log, m, act.clock))) else []
  }

  /** What an install passes over: the events accepted between the mark and the snapshot. */
  function Skipped(dim: nat, log: seq<Entry>, m: Machine, act: Act): seq<AuditRecord> {
    if Takes(m, act) then Owed(dim, log, Mark(m.mem), Pos(act.donor)) else []
  }

  function Repeats(dim: nat, budget: nat, log: seq<Entry>, acts: seq<Act>): nat {
    if acts == [] then 0
    else
      var front := acts[..|acts| - 1];
      var m := After(dim, budget, log, front);
      Repeats(dim, budget, log, front) + if m.Some? then |Repeated(dim, log, m.value, acts[|acts| - 1])| else 0
  }

  function Skips(dim: nat, budget: nat, log: seq<Entry>, acts: seq<Act>): nat {
    if acts == [] then 0
    else
      var front := acts[..|acts| - 1];
      var m := After(dim, budget, log, front);
      Skips(dim, budget, log, front) + if m.Some? then |Skipped(dim, log, m.value, acts[|acts| - 1])| else 0
  }

  /** At every restart of the history, nothing was accepted between the mark on disk and
      the furthest entry processed. */
  ghost predicate RepeatsNothing(dim: nat, budget: nat, log: seq<Entry>, acts: seq<Act>) {
    forall k :: 0 <= k < |acts| ==> RepeatsNothingHere(dim, log, After(dim, budget, log, acts[..k]), acts[k])
  }

  ghost predicate RepeatsNothingHere(dim: nat, log: seq<Entry>, m: Option<Machine>, act: Act) {
    m.Some? ==> Repeated(dim, log, m.value, act) == []
  }

  lemma {:induction false} RepeatsFront(dim: nat, budget: nat, log: seq<Entry>, acts: seq<Act>)
    requires acts != []
    ensures var front, act := acts[..|acts| - 1], acts[|acts| - 1];
      RepeatsNothing(dim, budget, log, acts) <==>
        RepeatsNothing(dim, budget, log, front) && RepeatsNothingHere(dim, log, After(dim, budget, log, front), act)
  {
    hide RepeatsNothingHere, After;
    var n := |acts| - 1;
    var front := acts[..n];
    assert forall k :: 0 <= k < n ==> front[..k] == acts[..k];
    if RepeatsNothing(dim, budget, log, acts) {
      forall k | 0 <= k < n ensures RepeatsNothingHere(dim, log, After(dim, budget, log, front[..k]), front[k]) {
        assert RepeatsNothingHere(dim, log, After(dim, budget, log, acts[..k]), acts[k]);
      }
      assert RepeatsNothingHere(dim, log, After(dim, budget, log, acts[..n]), acts[n]);
    }
    if RepeatsNothing(dim, budget, log, front) && RepeatsNothingHere(dim, log, After(dim, budget, log, front), acts[n]) {
      forall k | 0 <= k <= n ensures RepeatsNothingHere(dim, log, After(dim, budget, log, acts[..k]), acts[k]) {
        if k < n { assert RepeatsNothingHere(dim, log, After(dim, budget, log, front[..k]), front[k]); }
      }
    }
  }

  lemma {:induction false} RepeatsZeroIff(dim: nat, budget: nat, log: seq<Entry>, acts: seq<Act>)
    ensures Repeats(dim, budget, log, acts) == 0 <==> RepeatsNothing(dim, budget, log, acts)
  {
    if acts != [] {
      var front, act := acts[..|acts| - 1], acts[|acts| - 1];
      RepeatsFront(dim, budget, log, acts);
      hide RepeatsNothing, RepeatsNothingHere, Repeated, After;
      RepeatsZeroIff(dim, budget, log, front);
      RepeatsHere(dim, log, After(dim, budget, log, front), act);
    }
  }

  lemma {:induction false} RepeatsHere(dim: nat, log: seq<Entry>, m: Option<Machine>, act: Act)
    ensures RepeatsNothingHere(dim, log, m, act) <==> m.Some? ==> |Repeated(dim, log, m.value, act)| == 0
  {
    hide Repeated;
  }

  /** The balance of one act. */
  lemma {:induction false} BalanceStep(dim: nat, log: seq<Entry>, m: Machine, act: Act, after: Machine)
    requires Writes(dim, log, m, act, after)
    ensures |after.sink.records| + |Owed(dim, log, 0, Mark(m.mem))| + |Skipped(dim, log, m, act)| ==
      |m.sink.records| + |Owed(dim, log, 0, Mark(after.mem))| + |Repeated(dim, log, m, act)|
    ensures m.sink.records == Owed(dim, log, 0, Mark(m.mem)) && Skipped(dim, log, m, act) == [] && Repeated(dim, log, m, act) == [] ==>
      after.sink.records == Owed(dim, log, 0, Mark(after.mem))
  {
    var from, to := Mark(m.mem), WroteTo(log, m, act);
    assert Restarts(log, m, act) ==> to == Reached(Feed(log, m, act.clock)) && !Takes(m, act);
    OwedNone(dim, log, from);
    hide Owed, OwedAt, Mark, Pos, WroteTo, Installs, DiskMark, SnapshotCount, Feed, Reached;
    OwedJoin(dim, log, 0, from, to);
    if Restarts(log, m, act) {
      OwedJoin(dim, log, 0, DiskMark(m.table), to);
    } else if Takes(m, act) && from <= Pos(act.donor) {
      OwedJoin(dim, log, 0, from, Pos(act.donor));
    } else if Takes(m, act) {
      OwedBackwards(dim, log, from, Pos(act.donor));
    }
  }

  lemma {:induction false} OwedBackwards(dim: nat, log: seq<Entry>, lo: nat, hi: nat)
    requires hi < lo
    ensures Owed(dim, log, lo, hi) == []
  {
  }

  // ---- on positions -------------------------------------------------------

  /** The audit log is, position by position, what is owed by everything the node has
      gone past: each once, in log order, nothing missing. */
  ghost predicate Once(dim: nat, log: seq<Entry>, m: Machine) {
    m.written == OwedAt(dim, log, 0, m.high)
  }

  function Min(a: nat, b: nat): nat {
    if a < b then a else b
  }

  /** The act writes no record for a position the node had gone past before. */
  ghost predicate RewritesNothingHere(dim: nat, log: seq<Entry>, m: Option<Machine>, act: Act) {
    m.Some? ==> OwedAt(dim, log, Mark(m.value.mem), Min(WroteTo(log, m.value, act), m.value.high)) == []
  }

  ghost predicate RewritesNothing(dim: nat, budget: nat, log: seq<Entry>, acts: seq<Act>) {
    forall k :: 0 <= k < |acts| ==> RewritesNothingHere(dim, log, After(dim, budget, log, acts[..k]), acts[k])
  }

  lemma {:induction false} RewritesFront(dim: nat, budget: nat, log: seq<Entry>, acts: seq<Act>)
    requires acts != []
    ensures var front := acts[..|acts| - 1];
      RewritesNothing(dim, budget, log, acts) <==>
      RewritesNothing(dim, budget, log, front) && RewritesNothingHere(dim, log, After(dim, budget, log, front), acts[|acts| - 1])
  {
    hide RewritesNothingHere, After;
    var n := |acts| - 1;
    var front := acts[..n];
    assert forall k :: 0 <= k <= n ==> front[..k] == acts[..k];
    assert front[..n] == front;
    if RewritesNothing(dim, budget, log, acts) {
      forall k | 0 <= k < n ensures RewritesNothingHere(dim, log, After(dim, budget, log, front[..k]), front[k]) {
        assert RewritesNothingHere(dim, log, After(dim, budget, log, acts[..k]), acts[k]);
      }
    }
    if RewritesNothing(dim, budget, log, front) && RewritesNothingHere(dim, log, After(dim, budget, log, front), acts[n]) {
      forall k | 0 <= k <= n ensures RewritesNothingHere(dim, log, After(dim, budget, log, acts[..k]), acts[k]) {
        if k < n { assert RewritesNothingHere(dim, log, After(dim, budget, log, front[..k]), front[k]); }
      }
    }
  }

  lemma {:induction false} OwedAtRises(dim: nat, log: seq<Entry>, lo: nat, hi: nat)
    requires lo <= hi <= |log|
    ensures forall i, j :: 0 <= i < j < |OwedAt(dim, log, lo, hi)| ==> OwedAt(dim, log, lo, hi)[i] < OwedAt(dim, log, lo, hi)[j]
    ensures forall i :: 0 <= i < |OwedAt(dim, log, lo, hi)| ==> lo <= OwedAt(dim, log, lo, hi)[i] < hi
    decreases hi
  {
    hide Owes;
    if lo < hi { OwedAtRises(dim, log, lo, hi - 1); }
  }

  /** A stretch has no owed position exactly when it owes nothing. */
  lemma {:induction false} OwedAtNothing(dim: nat, log: seq<Entry>, lo: nat, hi: nat)
    requires lo <= hi <= |log|
    ensures OwedAt(dim, log, lo, hi) == [] <==> Owed(dim, log, lo, hi) == []
  {
    OwedAtValues(dim, log, lo, hi);
    hide OwedAt, Owed, Owes, Run;
  }

  /** Writing again what is already written spoils the order for good. */
  lemma {:induction false} RewriteShows(dim: nat, log: seq<Entry>, m: Machine, mid: nat)
    requires Audited(dim, log, m) && SnapshotCount(m.table) <= Mark(m.mem) <= mid <= m.high
    requires m.written + OwedAt(dim, log, Mark(m.mem), mid) == OwedAt(dim, log, 0, m.high)
    ensures OwedAt(dim, log, Mark(m.mem), mid) == []
  {
    var again, all := OwedAt(dim, log, Mark(m.mem), mid), OwedAt(dim, log, 0, m.high);
    OwedAtRises(dim, log, 0, m.high);
    OwedAtSpec(dim, log, Mark(m.mem), mid);
    hide OwedAt, Owes, Mark, SnapshotCount, WrittenFor;
    if again != [] {
      assert again[0] in again;
      NotAgain(m.written, again, all);
    }
  }

  lemma {:induction false} NotAgain(a: seq<nat>, b: seq<nat>, all: seq<nat>)
    requires all == a + b && b != [] && forall i, j :: 0 <= i < j < |all| ==> all[i] < all[j]
    ensures b[0] !in a
  {
    assert all[|a|] == b[0] && forall i :: 0 <= i < |a| ==> all[i] == a[i];
  }

  /** What an act writes, cut at the furthest entry dealt with before it. */
  lemma {:induction false} WrittenCut(dim: nat, log: seq<Entry>, m: Machine, from: nat, to: nat, high: nat)
    requires from <= to <= |log| && from <= m.high <= high <= |log| && high == Max(m.high, to)
    ensures var mid := Min(to, m.high);
      && from <= mid <= m.high
      && OwedAt(dim, log, from, to) == OwedAt(dim, log, from, mid) + OwedAt(dim, log, mid, to)
      && OwedAt(dim, log, 0, high) == OwedAt(dim, log, 0, m.high) + OwedAt(dim, log, mid, to)
  {
    var mid := Min(to, m.high);
    hide OwedAt;
    OwedAtJoin(dim, log, from, mid, to);
    OwedAtJoin(dim, log, 0, m.high, high);
    OwedAtEmpty(dim, log, to);
    OwedAtEmpty(dim, log, m.high);
  }

  lemma {:induction false} OnceWritten(dim: nat, log: seq<Entry>, m: Machine, act: Act, after: Machine)
    requires Audited(dim, log, m) && Writes(dim, log, m, act, after) && !Takes(m, act)
    ensures Once(dim, log, after) <==> Once(dim, log, m) && RewritesNothingHere(dim, log, Some(m), act)
  {
    var from, to := Mark(m.mem), WroteTo(log, m, act);
    hide OwedAt, Owed, Mark, WroteTo, DiskMark, SnapshotCount, Audited, Takes, Pos, Min;
    WrittenCut(dim, log, m, from, to, after.high);
    var mid := Min(to, m.high);
    var all, again, added := OwedAt(dim, log, 0, m.high), OwedAt(dim, log, from, mid), OwedAt(dim, log, mid, to);
    AppendIff(m.written, again, added, all);
    if m.written + again == all { RewriteShows(dim, log, m, mid); }
  }

  lemma {:induction false} AppendIff<T>(a: seq<T>, b: seq<T>, c: seq<T>, all: seq<T>)
    ensures a + (b + c) == all + c <==> a + b == all
    ensures b == [] ==> a + b == a
  {
    assert a + (b + c) == a + b + c;
    if a + b + c == all + c { CutSuffix(a + b, all, c); }
  }

  lemma {:induction false} OwedAtEmpty(dim: nat, log: seq<Entry>, i: nat)
    ensures OwedAt(dim, log, i, i) == []
  {
  }

  lemma {:induction false} CutSuffix<T>(a: seq<T>, b: seq<T>, c: seq<T>)
    requires a + c == b + c
    ensures a == b
  {
    assert |a| == |b|;
    assert a == (a + c)[..|a|] && b == (b + c)[..|b|];
  }

  /** Going past a stretch without writing leaves each owed position written once if and
      only if the stretch owes nothing. */
  lemma {:induction false} PassedIff(dim: nat, log: seq<Entry>, written: seq<nat>, high: nat, n: nat)
    requires high <= n <= |log| && forall j :: 0 <= j < |written| ==> written[j] < high
    ensures written == OwedAt(dim, log, 0, n) <==> written == OwedAt(dim, log, 0, high) && Owed(dim, log, high, n) == []
  {
    hide Owed, OwedAt, Owes, WrittenFor;
    OwedAtNothing(dim, log, high, n);
    OwedAtJoin(dim, log, 0, high, n);
    OwedAtSpec(dim, log, high, n);
    var done, skipped := OwedAt(dim, log, 0, high), OwedAt(dim, log, high, n);
    if skipped != [] {
      assert skipped[0] in skipped && (done + skipped)[|done|] == skipped[0];
      assert skipped[0] !in written;
    } else {
      assert done + skipped == done;
    }
  }

  lemma {:induction false} WrittenBelow(dim: nat, log: seq<Entry>, m: Machine)
    requires Audited(dim, log, m)
    ensures Mark(m.mem) <= m.high && forall j :: 0 <= j < |m.written| ==> m.written[j] < m.high
  {
    hide Mark, WrittenFor, Owes, SnapshotCount;
    forall j | 0 <= j < |m.written| ensures m.written[j] < m.high { assert m.written[j] in m.written; }
  }

  lemma {:induction false} OnceSkipped(dim: nat, log: seq<Entry>, m: Machine, act: Act, after: Machine)
    requires Audited(dim, log, m) && Writes(dim, log, m, act, after) && Takes(m, act)
    ensures RewritesNothingHere(dim, log, Some(m), act)
    ensures Once(dim, log, after) <==> Once(dim, log, m) && SkipsNothingHere(dim, log, Some(m), act)
  {
    var n := Pos(act.donor);
    hide Mark, WroteTo, DiskMark, SnapshotCount, Takes, Pos, Owed, OwedAt, Audited, Feed, Reached;
    WrittenBelow(dim, log, m);
    OwedAtEmpty(dim, log, Mark(m.mem));
    assert m.written + [] == m.written;
    if m.high <= n {
      PassedIff(dim, log, m.written, m.high, n);
    } else {
      OwedBackwards(dim, log, m.high, n);
    }
  }

  lemma {:induction false} OnceIff(dim: nat, budget: nat, log: seq<Entry>, acts: seq<Act>)
    requires Committed(log) && Sound(dim, budget, log, acts)
    ensures var m := After(dim, budget, log, acts);
      && m.Some? && Inv(dim, log, m.value)
      && (Once(dim, log, m.value) <==> SkipsNothing(dim, budget, log, acts) && RewritesNothing(dim, budget, log, acts))
  {
    HistoryInv(dim, budget, log, acts);
    if acts != [] {
      hide *;
      var front, act := acts[..|acts| - 1], acts[|acts| - 1];
      SoundFront(dim, budget, log, acts);
      SkipsFront(dim, budget, log, acts);
      RewritesFront(dim, budget, log, acts);
      OnceIff(dim, budget, log, front);
      AfterLast(dim, budget, log, acts);
      var m := After(dim, budget, log, front).value;
      ActWrites(dim, log, m, act);
      InvAudited(dim, log, m);
      OnceStep(dim, log, m, act, Exec(dim, log, m, act).value);
    }
  }

  lemma {:induction false} InvAudited(dim: nat, log: seq<Entry>, m: Machine)
    requires Inv(dim, log, m)
    ensures Audited(dim, log, m)
  {
  }

  lemma {:induction false} OnceStep(dim: nat, log: seq<Entry>, m: Machine, act: Act, after: Machine)
    requires Audited(dim, log, m) && Writes(dim, log, m, act, after)
    ensures Once(dim, log, after) <==>
      Once(dim, log, m) && SkipsNothingHere(dim, log, Some(m), act) && RewritesNothingHere(dim, log, Some(m), act)
  {
    hide Writes, Audited, Once, RewritesNothingHere;
    if Takes(m, act) { OnceSkipped(dim, log, m, act, after); } else { OnceWritten(dim, log, m, act, after); }
  }

  /** Over every history. On positions: the audit log is exactly what is owed by
      everything the node has gone past, each once and in log order, if and only if no
      install of the schedule skipped a stretch that owes something and no act wrote
      again for a position already gone past. In numbers: it holds what the log owes,
      plus what restarts repeated, less what installs skipped. On records, if no install
      skipped anything: they are exactly the owed events if and only if at every restart
      nothing was accepted between the mark on disk and the furthest entry processed. */
  lemma {:induction false} ExactlyOnceIff(dim: nat, budget: nat, log: seq<Entry>, acts: seq<Act>)
    requires Committed(log) && Sound(dim, budget, log, acts)
    ensures var m, skips := After(dim, budget, log, acts), Skips(dim, budget, log, acts);
      && m.Some? && WrittenFor(dim, log, m.value.sink.records, m.value.written)
      && (m.value.written == OwedAt(dim, log, 0, m.value.high) <==>
          SkipsNothing(dim, budget, log, acts) && RewritesNothing(dim, budget, log, acts))
      && |m.value.sink.records| + skips == |Owed(dim, log, 0, Mark(m.value.mem))| + Repeats(dim, budget, log, acts)
      && (skips == 0 ==>
            (m.value.sink.records == Owed(dim, log, 0, Mark(m.value.mem)) <==> RepeatsNothing(dim, budget, log, acts)))
  {
    OnceIff(dim, budget, log, acts);
    hide After, Skips, Repeats, RepeatsNothing, Owed, OwedAt, Positions, WrittenFor, SkipsNothing, RewritesNothing, Sound, Mark, Owes;
    Balance(dim, budget, log, acts);
    RepeatsZeroIff(dim, budget, log, acts);
  }

  lemma {:induction false} Balance(dim: nat, budget: nat, log: seq<Entry>, acts: seq<Act>)
    requires Committed(log) && Sound(dim, budget, log, acts)
    ensures var m, skips, repeats := After(dim, budget, log, acts), Skips(dim, budget, log, acts), Repeats(dim, budget, log, acts);
      && m.Some? && Inv(dim, log, m.value)
      && |m.value.sink.records| + skips == |Owed(dim, log, 0, Mark(m.value.mem))| + repeats
      && (skips == 0 && repeats == 0 ==> m.value.sink.records == Owed(dim, log, 0, Mark(m.value.mem)))
  {
    HistoryInv(dim, budget, log, acts);
    if acts == [] {
      OwedNone(dim, log, 0);
    } else {
      hide Exec, Boot, SoundHere, Sound, Writes, Inv, Owed, Skipped, Repeated, Mark;
      var front, act := acts[..|acts| - 1], acts[|acts| - 1];
      SoundFront(dim, budget, log, acts);
      Balance(dim, budget, log, front);
      var m := After(dim, budget, log, front).value;
      ActWrites(dim, log, m, act);
      BalanceStep(dim, log, m, act, Exec(dim, log, m, act).value);
    }
  }

  // ---- quiet crashes ------------------------------------------------------

  /** Crashes fall between batches, after the node has caught up with its own
      mark, and no audit write fails. */
  ghost predicate QuietCrashes(dim: nat, budget: nat, log: seq<Entry>, acts: seq<Act>) {
    forall k :: 0 <= k < |acts| ==> QuietHere(log, After(dim, budget, log, acts[..k]), acts[k])
  }

  ghost predicate QuietHere(log: seq<Entry>, m: Option<Machine>, act: Act) {
    m.Some? ==>
      && (act.Crash? ==> act.clock == [] && Replay(m.value.mem) <= Pos(m.value.mem))
      && (act.Batch? ==> !Feed(log, m.value, act.clock).failed)
  }

  lemma {:induction false} QuietRepeatsNothing(dim: nat, log: seq<Entry>, m: Machine, act: Act)
    requires Inv(dim, log, m) && QuietHere(log, Some(m), act)
    ensures Repeated(dim, log, m, act) == []
  {
    hide Tracks, SnapshotOk, Audited, Owed;
    if act.Crash? {
      assert Feed(log, m, []) == Progress(m.mem, m.sink, [], false);
      OwedNone(dim, log, Pos(m.mem));
    }
  }

  /** Under quiet crashes, and if installs skip nothing, every accepted event is audited
      exactly once, in log order. */
  lemma {:induction false} QuietCrashesExactlyOnce(dim: nat, budget: nat, log: seq<Entry>, acts: seq<Act>)
    requires Committed(log) && Sound(dim, budget, log, acts) && QuietCrashes(dim, budget, log, acts)
    requires Skips(dim, budget, log, acts) == 0
    ensures var m := After(dim, budget, log, acts);
      m.Some? && m.value.sink.records == Owed(dim, log, 0, Mark(m.value.mem))
  {
    ExactlyOnceIff(dim, budget, log, acts);
    hide After, Owed, Repeated, QuietHere, Skips, SoundHere, Inv;
    forall k | 0 <= k < |acts| ensures RepeatsNothingHere(dim, log, After(dim, budget, log, acts[..k]), acts[k]) {
      SoundPrefix(dim, budget, log, acts, k);
      HistoryInv(dim, budget, log, acts[..k]);
      assert QuietHere(log, After(dim, budget, log, acts[..k]), acts[k]);
      QuietRepeatsNothing(dim, log, After(dim, budget, log, acts[..k]).value, acts[k]);
    }
  }
}
