/**
  Whole histories of one node over a committed log: batches, snapshots taken and
  snapshots installed from another node, crashes in the middle of a batch, failing
  audit writes and restarts, in any order. Here are the acts, the invariants, and
  that every act keeps them.
 */
module NodeRuns {
  import opened Basics
  import opened KernelSnapshot
  import opened Replica
  import opened Node
  import ReplicaProperties

  /** `clock` holds one wall-clock reading per entry taken from the log. A crash
      happens after the entries of a batch were processed and before the applied
      mark was written; `budget` is what the audit log takes after the restart. `donor`
      is the node an installed snapshot was built on. */
  datatype Act = Batch(clock: seq<nat>) | TakeSnapshot | InstallFrom(donor: Memory) | Crash(clock: seq<nat>, budget: nat)

  /** `written` and `high` are history: the log position each audit record was written
      for, and the furthest position any incarnation has dealt with. */
  datatype Machine = Machine(mem: Memory, table: Table, sink: Sink, written: seq<nat>, high: nat)

  ghost predicate Committed(log: seq<Entry>) {
    forall i :: 0 <= i < |log| ==> log[i].logId.index == i
  }

  function Count(l: Option<LogId>): nat {
    if l.Some? then l.value.index + 1 else 0
  }

  /** Entries applied so far. */
  function Pos(m: Memory): nat {
    Count(m.lastApplied)
  }

  function Replay(m: Memory): nat {
    if m.replayUntil.Some? then m.replayUntil.value + 1 else 0
  }

  function Max(a: nat, b: nat): nat {
    if a < b then b else a
  }

  /** How far the audit log accounts for the log on behalf of this incarnation. */
  function Mark(m: Memory): nat {
    Max(Pos(m), Replay(m))
  }

  // ---- one act ------------------------------------------------------------

  /** The next `|clock|` entries, or as many as there are. */
  function Next(log: seq<Entry>, m: Memory, clock: seq<nat>): seq<Entry> {
    if Pos(m) + |clock| <= |log| then log[Pos(m)..Pos(m) + |clock|] else []
  }

  function Feed(log: seq<Entry>, m: Machine, clock: seq<nat>): Progress {
    var entries := Next(log, m.mem, clock);
    ApplyAll(m.mem, m.sink, entries, clock[..|entries|])
  }

  /** How far a batch got; an entry whose audit write failed does not count. */
  function Reached(p: Progress): nat {
    if p.failed && Pos(p.mem) > 0 then Pos(p.mem) - 1 else Mark(p.mem)
  }

  /** The positions of the entries at which the audit log grew. */
  function WrittenBy(m: Memory, sink: Sink, entries: seq<Entry>, clock: seq<nat>): seq<nat>
    requires |entries| == |clock|
  {
    if entries == [] then []
    else
      var n := |entries| - 1;
      var before, after := ApplyAll(m, sink, entries[..n], clock[..n]), ApplyAll(m, sink, entries, clock);
      WrittenBy(m, sink, entries[..n], clock[..n]) + if |before.sink.records| < |after.sink.records| then [entries[n].logId.index] else []
  }

  function FeedWritten(log: seq<Entry>, m: Machine, clock: seq<nat>): seq<nat> {
    var entries := Next(log, m.mem, clock);
    WrittenBy(m.mem, m.sink, entries, clock[..|entries|])
  }

  /** A snapshot is handed over only if it is ahead of what is applied, and is taken
      only if it checks out. */
  predicate Installs(m: Machine, donor: Memory) {
    Pos(m.mem) < Pos(donor) && Unpack(Build(donor).data).Some?
  }

  /** Volatile memory is lost; a refused restart leaves no node. */
  function Reboot(dim: nat, log: seq<Entry>, m: Machine, clock: seq<nat>, budget: nat): Option<Machine> {
    var p, mem := Feed(log, m, clock), Restart(m.table, dim);
    if mem.None? then None
    else Some(Machine(mem.value, m.table, p.sink.(budget := budget), m.written + FeedWritten(log, m, clock), Max(m.high, Reached(p))))
  }

  function Exec(dim: nat, log: seq<Entry>, m: Machine, a: Act): Option<Machine> {
    match a
    case Batch(clock) =>
      var p := Feed(log, m, clock);
      if p.failed then Reboot(dim, log, m, clock, 0)
      else Some(Machine(p.mem, PersistApplied(m.table, p.mem), p.sink, m.written + FeedWritten(log, m, clock), Max(m.high, Reached(p))))
    case TakeSnapshot =>
      var s := Build(m.mem);
      Some(m.(mem := m.mem.(snapshot := Some(s)), table := m.table.(snapshot := Some(s))))
    case InstallFrom(donor) =>
      if !Installs(m, donor) then Some(m)
      else
        var s := Build(donor);
        var mem := Install(m.mem, s);
        Some(m.(mem := mem, table := m.table.(snapshot := Some(s)), high := Max(m.high, Mark(mem))))
    case Crash(clock, budget) => Reboot(dim, log, m, clock, budget)
  }

  /** Whether the act ends in a restart. */
  predicate Restarts(log: seq<Entry>, m: Machine, act: Act) {
    act.Crash? || (act.Batch? && Feed(log, m, act.clock).failed)
  }

  function Boot(dim: nat, budget: nat): Machine {
    Machine(Empty(dim), Table(None, None, None), Sink([], budget), [], 0)
  }

  function After(dim: nat, budget: nat, log: seq<Entry>, acts: seq<Act>): Option<Machine> {
    if acts == [] then Some(Boot(dim, budget))
    else
      var m := After(dim, budget, log, acts[..|acts| - 1]);
      if m.None? then None else Exec(dim, log, m.value, acts[|acts| - 1])
  }

  // ---- what the log owes --------------------------------------------------

  function Records(audited: seq<Option<AuditRecord>>): seq<AuditRecord> {
    if audited == [] then []
    else
      var last := audited[|audited| - 1];
      Records(audited[..|audited| - 1]) + if last.Some? then [last.value] else []
  }

  /** The events the log accepts in positions `lo` to `hi`, by a run that never stops. */
  function Owed(dim: nat, log: seq<Entry>, lo: nat, hi: nat): seq<AuditRecord> {
    if lo <= hi <= |log| then Records(Run(Fresh(dim), log).audited[lo..hi]) else []
  }

  predicate Owes(dim: nat, log: seq<Entry>, i: nat) {
    i < |log| && Run(Fresh(dim), log).audited[i].Some?
  }

  /** The positions of those events. */
  function OwedAt(dim: nat, log: seq<Entry>, lo: nat, hi: nat): seq<nat> {
    if hi <= lo || hi > |log| then []
    else OwedAt(dim, log, lo, hi - 1) + if Owes(dim, log, hi - 1) then [hi - 1] else []
  }

  /** Record `j` is what the log owes at position `written[j]`. */
  ghost predicate WrittenFor(dim: nat, log: seq<Entry>, records: seq<AuditRecord>, written: seq<nat>) {
    && |records| == |written|
    && forall j :: 0 <= j < |written| ==> Owes(dim, log, written[j]) && records[j] == Run(Fresh(dim), log).audited[written[j]].value
  }

  lemma {:induction false} RecordsJoin(a: seq<Option<AuditRecord>>, b: seq<Option<AuditRecord>>)
    ensures Records(a + b) == Records(a) + Records(b)
  {
    if b == [] {
      assert a + b == a;
    } else {
      assert (a + b)[..|a + b| - 1] == a + b[..|b| - 1];
      RecordsJoin(a, b[..|b| - 1]);
    }
  }

  lemma {:induction false} OwedJoin(dim: nat, log: seq<Entry>, lo: nat, mid: nat, hi: nat)
    requires lo <= mid <= hi <= |log|
    ensures Owed(dim, log, lo, hi) == Owed(dim, log, lo, mid) + Owed(dim, log, mid, hi)
  {
    var audited := Run(Fresh(dim), log).audited;
    assert audited[lo..hi] == audited[lo..mid] + audited[mid..hi];
    RecordsJoin(audited[lo..mid], audited[mid..hi]);
  }

  lemma {:induction false} OwedOne(dim: nat, log: seq<Entry>, i: nat)
    requires i < |log|
    ensures var a := Apply(Run(Fresh(dim), log[..i]).core, log[i]).audited;
      Owed(dim, log, i, i + 1) == if a.Some? then [a.value] else []
  {
    hide Apply;
    RunAt(Fresh(dim), log, i);
    var a := Run(Fresh(dim), log).audited[i];
    assert Run(Fresh(dim), log).audited[i..i + 1] == [a];
    assert [a][..0] == [] && Records([a]) == Records([]) + if a.Some? then [a.value] else [];
  }

  lemma {:induction false} OwedNone(dim: nat, log: seq<Entry>, i: nat)
    ensures Owed(dim, log, i, i) == []
  {
  }

  lemma {:induction false} WrittenJoin(dim: nat, log: seq<Entry>, a: seq<AuditRecord>, x: seq<nat>, b: seq<AuditRecord>, y: seq<nat>)
    requires WrittenFor(dim, log, a, x) && WrittenFor(dim, log, b, y)
    ensures WrittenFor(dim, log, a + b, x + y)
  {
    hide Run, Fresh;
  }

  lemma {:induction false} OwedAtOne(dim: nat, log: seq<Entry>, i: nat)
    requires i < |log|
    ensures WrittenFor(dim, log, Owed(dim, log, i, i + 1), if Owes(dim, log, i) then [i] else [])
  {
    hide Run, Fresh, Owed, Apply;
    RunAt(Fresh(dim), log, i);
    OwedOne(dim, log, i);
  }

  lemma {:induction false} OwedAtValues(dim: nat, log: seq<Entry>, lo: nat, hi: nat)
    requires lo <= hi <= |log|
    ensures WrittenFor(dim, log, Owed(dim, log, lo, hi), OwedAt(dim, log, lo, hi))
    decreases hi
  {
    hide Run, Fresh, Owed, Owes;
    if lo == hi {
      OwedNone(dim, log, lo);
    } else {
      hide WrittenFor;
      OwedAtValues(dim, log, lo, hi - 1);
      OwedJoin(dim, log, lo, hi - 1, hi);
      OwedAtOne(dim, log, hi - 1);
      WrittenJoin(dim, log, Owed(dim, log, lo, hi - 1), OwedAt(dim, log, lo, hi - 1), Owed(dim, log, hi - 1, hi),
                  if Owes(dim, log, hi - 1) then [hi - 1] else []);
    }
  }

  lemma {:induction false} OwedAtSpec(dim: nat, log: seq<Entry>, lo: nat, hi: nat)
    requires lo <= hi <= |log|
    ensures WrittenFor(dim, log, Owed(dim, log, lo, hi), OwedAt(dim, log, lo, hi))
    ensures forall i :: i in OwedAt(dim, log, lo, hi) <==> lo <= i < hi && Owes(dim, log, i)
  {
    hide *;
    OwedAtValues(dim, log, lo, hi);
    forall i: nat ensures i in OwedAt(dim, log, lo, hi) <==> lo <= i < hi && Owes(dim, log, i) { OwedAtIn(dim, log, lo, hi, i); }
  }

  lemma {:induction false} OwedAtIn(dim: nat, log: seq<Entry>, lo: nat, hi: nat, i: nat)
    requires lo <= hi <= |log|
    ensures i in OwedAt(dim, log, lo, hi) <==> lo <= i < hi && Owes(dim, log, i)
    decreases hi
  {
    hide Owes;
    if lo < hi {
      OwedAtIn(dim, log, lo, hi - 1, i);
      assert i in OwedAt(dim, log, lo, hi) <==> i in OwedAt(dim, log, lo, hi - 1) || (i == hi - 1 && Owes(dim, log, hi - 1));
    }
  }

  /** A stretch owes nothing if and only if none of its positions does. */
  lemma {:induction false} OwedNothing(dim: nat, log: seq<Entry>, lo: nat, hi: nat)
    ensures Owed(dim, log, lo, hi) == [] <==> lo > hi || hi > |log| || forall i :: lo <= i < hi ==> !Owes(dim, log, i)
  {
    if lo <= hi <= |log| {
      OwedAtSpec(dim, log, lo, hi);
      hide Owed, OwedAt, Owes;
      if i :| lo <= i < hi && Owes(dim, log, i) { assert i in OwedAt(dim, log, lo, hi); }
      if Owed(dim, log, lo, hi) != [] { assert OwedAt(dim, log, lo, hi)[0] in OwedAt(dim, log, lo, hi); }
    }
  }

  // ---- membership ---------------------------------------------------------

  /** The membership in force after `entries`, starting from `m`. */
  function Fold(m: Stored, entries: seq<Entry>): Stored {
    if entries == [] then m
    else
      var e := entries[|entries| - 1];
      if e.payload.Membership? then Stored(Some(e.logId), Some(e.payload.config)) else Fold(m, entries[..|entries| - 1])
  }

  function MembershipAt(log: seq<Entry>, n: nat): Stored {
    if n <= |log| then Fold(Stored(None, None), log[..n]) else Stored(None, None)
  }

  lemma {:induction false} FoldJoin(m: Stored, a: seq<Entry>, b: seq<Entry>)
    ensures Fold(m, a + b) == Fold(Fold(m, a), b)
  {
    if b == [] {
      assert a + b == a;
    } else {
      assert (a + b)[..|a + b| - 1] == a + b[..|b| - 1];
      FoldJoin(m, a, b[..|b| - 1]);
    }
  }

  /** Either some entry decides the membership or none does. */
  lemma {:induction false} FoldDecides(m: Stored, n: Stored, entries: seq<Entry>)
    ensures Fold(m, entries) == Fold(n, entries) || (Fold(m, entries) == m && Fold(n, entries) == n)
  {
    if entries != [] { FoldDecides(m, n, entries[..|entries| - 1]); }
  }

  /** Reading the log on from `a` settles the membership by position `high`. */
  ghost predicate Settles(log: seq<Entry>, m: Stored, a: nat, high: nat) {
    a <= high <= |log| && Fold(m, log[a..high]) == MembershipAt(log, high)
  }

  lemma {:induction false} SettlesOn(log: seq<Entry>, m: Stored, a: nat, high: nat, to: nat)
    requires Settles(log, m, a, high) && high <= to <= |log|
    ensures Settles(log, m, a, to)
  {
    hide Fold;
    assert log[a..to] == log[a..high] + log[high..to] && log[..to] == log[..high] + log[high..to];
    FoldJoin(m, log[a..high], log[high..to]);
    FoldJoin(Stored(None, None), log[..high], log[high..to]);
  }

  lemma {:induction false} SettlesBack(log: seq<Entry>, m: Stored, a: nat, from: nat, high: nat)
    requires Settles(log, m, a, high) && from <= a
    ensures Settles(log, m, from, high)
  {
    hide Fold;
    assert log[from..high] == log[from..a] + log[a..high];
    FoldJoin(m, log[from..a], log[a..high]);
    FoldDecides(m, Fold(m, log[from..a]), log[a..high]);
    assert log[..high] == log[..from] + log[from..high];
    FoldJoin(Stored(None, None), log[..from], log[from..high]);
    FoldDecides(m, MembershipAt(log, from), log[from..high]);
    assert log[..high] == log[..a] + log[a..high];
    FoldJoin(Stored(None, None), log[..a], log[a..high]);
  }

  function TableMembership(t: Table): Stored {
    if t.membership.Some? then t.membership.value else Stored(None, None)
  }

  // ---- one stretch of entries ---------------------------------------------

  /** Memory that has seen exactly the first `a` entries. */
  ghost predicate Tracks(dim: nat, log: seq<Entry>, m: Memory, a: nat) {
    && a <= |log|
    && m.core == Run(Fresh(dim), log[..a]).core
    && m.lastApplied == (if a == 0 then None else Some(log[a - 1].logId))
    && Replay(m) <= |log|
  }

  lemma {:induction false} TracksMark(dim: nat, log: seq<Entry>, m: Memory, a: nat)
    requires Committed(log) && Tracks(dim, log, m, a)
    ensures Pos(m) == a && Mark(m) == Max(a, Replay(m))
  {
    hide Run, Fresh;
  }

  /** What a stretch of entries adds to the audit log, complete or cut short. */
  ghost predicate FedSink(dim: nat, log: seq<Entry>, m: Memory, sink: Sink, p: Progress) {
    && Mark(m) <= Reached(p) <= |log|
    && p.sink.records == sink.records + Owed(dim, log, Mark(m), Reached(p))
  }

  /** What a complete stretch of `n` entries leaves in memory, and its replies. */
  ghost predicate FedMemory(dim: nat, log: seq<Entry>, m: Memory, n: nat, p: Progress) {
    var a := Pos(m);
    && a + n <= |log| && Tracks(dim, log, p.mem, a + n)
    && Mark(p.mem) == Max(a + n, Replay(m))
    && p.mem.membership == Fold(m.membership, log[a..a + n])
    && p.mem.snapshot == m.snapshot
    && p.replies == Run(Fresh(dim), log).replies[a..a + n]
  }

  ghost predicate Fed(dim: nat, log: seq<Entry>, m: Memory, sink: Sink, n: nat, p: Progress) {
    FedSink(dim, log, m, sink, p) && (!p.failed ==> FedMemory(dim, log, m, n, p))
  }

  /** One entry: the memory moves on by one, the audit log by what is owed. */
  lemma {:induction false} StepMemory(dim: nat, log: seq<Entry>, p: Progress, i: nat, now: nat)
    requires Committed(log) && i < |log| && Tracks(dim, log, p.mem, i)
    ensures var q := ApplyOne(p, log[i], now);
      && (!q.failed ==>
            && Tracks(dim, log, q.mem, i + 1) && Mark(q.mem) == Max(i + 1, Replay(p.mem))
            && q.mem.membership == Fold(p.mem.membership, [log[i]])
            && q.mem.snapshot == p.mem.snapshot
            && q.replies == p.replies + [Run(Fresh(dim), log).replies[i]])
  {
    hide Apply, Run, Fresh;
    RunAt(Fresh(dim), log, i);
    assert [log[i]][..0] == [];
  }

  lemma {:induction false} StepSink(dim: nat, log: seq<Entry>, p: Progress, i: nat, now: nat)
    requires Committed(log) && i < |log| && Tracks(dim, log, p.mem, i)
    ensures var q := ApplyOne(p, log[i], now);
      && Reached(q) == (if q.failed then i else Max(i + 1, Replay(p.mem)))
      && Mark(p.mem) <= Reached(q) <= |log|
      && q.sink.records == p.sink.records + Owed(dim, log, Mark(p.mem), Reached(q))
  {
    hide Apply, Run, Fresh, Records;
    OwedOne(dim, log, i);
    assert Pos(p.mem) == i;
    OwedNone(dim, log, Mark(p.mem));
  }

  lemma {:induction false} FedSinkOne(dim: nat, log: seq<Entry>, m: Memory, sink: Sink, i: nat, p: Progress, now: nat)
    requires Committed(log) && i < |log| && Tracks(dim, log, p.mem, i)
    requires FedSink(dim, log, m, sink, p) && Reached(p) == Mark(p.mem)
    ensures FedSink(dim, log, m, sink, ApplyOne(p, log[i], now))
  {
    hide Owed, Tracks, ApplyOne, Reached, Mark;
    StepSink(dim, log, p, i, now);
    OwedJoin(dim, log, Mark(m), Reached(p), Reached(ApplyOne(p, log[i], now)));
  }

  lemma {:induction false} FedMemoryOne(dim: nat, log: seq<Entry>, m: Memory, n: nat, p: Progress, now: nat)
    requires Committed(log) && Pos(m) + n < |log| && FedMemory(dim, log, m, n, p)
    ensures var q := ApplyOne(p, log[Pos(m) + n], now); !q.failed ==> FedMemory(dim, log, m, n + 1, q)
  {
    hide Run, Fresh, ApplyOne, Fold, Tracks, Mark;
    var a, i := Pos(m), Pos(m) + n;
    TracksMark(dim, log, p.mem, i);
    StepMemory(dim, log, p, i, now);
    assert log[a..i + 1] == log[a..i] + [log[i]];
    FoldJoin(m.membership, log[a..i], [log[i]]);
    var replies := Run(Fresh(dim), log).replies;
    assert replies[a..i + 1] == replies[a..i] + [replies[i]];
  }

  lemma {:induction false} FedOne(dim: nat, log: seq<Entry>, m: Memory, sink: Sink, n: nat, p: Progress, now: nat)
    requires Committed(log) && Pos(m) + n < |log|
    requires Fed(dim, log, m, sink, n, p) && !p.failed
    ensures Fed(dim, log, m, sink, n + 1, ApplyOne(p, log[Pos(m) + n], now))
  {
    hide Run, Fresh, Fold, ApplyOne, Owed, Tracks, Mark, Pos;
    FedMemoryOne(dim, log, m, n, p, now);
    hide FedMemory, FedSink;
    FedSinkOne(dim, log, m, sink, Pos(m) + n, p, now);
  }

  lemma {:induction false} FeedStretch(dim: nat, log: seq<Entry>, m: Memory, sink: Sink, n: nat, clock: seq<nat>)
    requires Committed(log) && Tracks(dim, log, m, Pos(m)) && Pos(m) + n <= |log| && |clock| == n
    ensures Fed(dim, log, m, sink, n, ApplyAll(m, sink, log[Pos(m)..Pos(m) + n], clock))
  {
    hide Run, Fresh, ApplyOne, Owed;
    var a := Pos(m);
    if n == 0 {
      assert log[a..a] == [];
      OwedNone(dim, log, Mark(m));
    } else {
      assert log[a..a + n][..n - 1] == log[a..a + n - 1];
      FeedStretch(dim, log, m, sink, n - 1, clock[..n - 1]);
      var p := ApplyAll(m, sink, log[a..a + n - 1], clock[..n - 1]);
      if !p.failed { FedOne(dim, log, m, sink, n - 1, p, clock[n - 1]); }
    }
  }

  // ---- where the audit log grew -------------------------------------------

  lemma {:induction false} StepWritten(dim: nat, log: seq<Entry>, p: Progress, i: nat, now: nat)
    requires Committed(log) && i < |log| && Tracks(dim, log, p.mem, i)
    ensures var q := ApplyOne(p, log[i], now);
      && |p.sink.records| <= |q.sink.records|
      && OwedAt(dim, log, Mark(p.mem), Reached(q)) == if |p.sink.records| < |q.sink.records| then [i] else []
  {
    hide ApplyOne, Run, Fresh, Owed, OwedAt, Owes, Tracks, Reached, Mark, Replay, Pos;
    var q := ApplyOne(p, log[i], now);
    StepSink(dim, log, p, i, now);
    TracksMark(dim, log, p.mem, i);
    StretchAt(dim, log, Mark(p.mem), Reached(q), i);
  }

  /** The positions owed of a stretch that is at most position `i`. */
  lemma {:induction false} StretchAt(dim: nat, log: seq<Entry>, lo: nat, hi: nat, i: nat)
    requires i < |log| && lo <= hi <= |log| && (lo < hi ==> lo == i && hi == i + 1)
    ensures OwedAt(dim, log, lo, hi) == if Owed(dim, log, lo, hi) != [] then [i] else []
  {
    OwedAtValues(dim, log, lo, hi);
    hide Run, Fresh, Owed, Owes;
    if lo < hi { assert OwedAt(dim, log, i, i) == []; }
  }

  lemma {:induction false} OwedAtJoin(dim: nat, log: seq<Entry>, lo: nat, mid: nat, hi: nat)
    requires lo <= mid <= hi <= |log|
    ensures OwedAt(dim, log, lo, hi) == OwedAt(dim, log, lo, mid) + OwedAt(dim, log, mid, hi)
    decreases hi
  {
    hide Owes;
    if mid < hi { OwedAtJoin(dim, log, lo, mid, hi - 1); }
  }

  /** The audit log grew at exactly the positions that were owed a record. */
  lemma {:induction false} WrittenStretch(dim: nat, log: seq<Entry>, m: Memory, sink: Sink, n: nat, clock: seq<nat>)
    requires Committed(log) && Tracks(dim, log, m, Pos(m)) && Pos(m) + n <= |log| && |clock| == n
    ensures var entries := log[Pos(m)..Pos(m) + n];
      WrittenBy(m, sink, entries, clock) == OwedAt(dim, log, Mark(m), Reached(ApplyAll(m, sink, entries, clock)))
  {
    hide Run, Fresh, ApplyOne, Owed, Owes, Reached, Fold;
    var a := Pos(m);
    FeedStretch(dim, log, m, sink, n, clock);
    if n == 0 {
      assert log[a..a] == [];
      WrittenNone(dim, log, m, sink);
    } else {
      var front, entries := log[a..a + n - 1], log[a..a + n];
      assert entries[..n - 1] == front && entries[n - 1] == log[a + n - 1];
      WrittenStretch(dim, log, m, sink, n - 1, clock[..n - 1]);
      FeedStretch(dim, log, m, sink, n - 1, clock[..n - 1]);
      WrittenLast(dim, log, m, sink, n, clock, ApplyAll(m, sink, front, clock[..n - 1]));
    }
  }

  lemma {:induction false} WrittenNone(dim: nat, log: seq<Entry>, m: Memory, sink: Sink)
    ensures OwedAt(dim, log, Mark(m), Reached(ApplyAll(m, sink, [], []))) == []
  {
  }

  lemma {:induction false} WrittenLast(dim: nat, log: seq<Entry>, m: Memory, sink: Sink, n: nat, clock: seq<nat>, p: Progress)
    requires Committed(log) && 0 < n == |clock| && Pos(m) + n <= |log| && Fed(dim, log, m, sink, n - 1, p)
    ensures var q := if p.failed then p else ApplyOne(p, log[Pos(m) + n - 1], clock[n - 1]);
      OwedAt(dim, log, Mark(m), Reached(q)) ==
      OwedAt(dim, log, Mark(m), Reached(p)) + if |p.sink.records| < |q.sink.records| then [Pos(m) + n - 1] else []
  {
    hide Run, Fresh, ApplyOne, Owed, Owes, Fold, OwedAt;
    if !p.failed {
      var i := Pos(m) + n - 1;
      assert Tracks(dim, log, p.mem, i) && Reached(p) == Mark(p.mem);
      hide Tracks, Reached, Mark;
      StepWritten(dim, log, p, i, clock[n - 1]);
      StepSink(dim, log, p, i, clock[n - 1]);
      OwedAtJoin(dim, log, Mark(m), Reached(p), Reached(ApplyOne(p, log[i], clock[n - 1])));
    }
  }

  // ---- what every history keeps -------------------------------------------

  function LogIdAt(log: seq<Entry>, n: nat): Option<LogId> {
    if 0 < n <= |log| then Some(log[n - 1].logId) else None
  }

  function SnapshotCount(t: Table): nat {
    if t.snapshot.Some? then Count(t.snapshot.value.meta.lastLogId) else 0
  }

  /** The stored snapshot was taken after exactly `n` entries, and restores the state
      there if and only if the codec can carry that state. */
  ghost predicate SnapshotOk(dim: nat, log: seq<Entry>, s: Option<Snapshot>, n: nat) {
    && n <= |log|
    && (s.None? ==> n == 0)
    && (s.Some? ==>
          && s.value.meta.lastLogId == LogIdAt(log, n)
          && (Unpack(s.value.data) == Some(Run(Fresh(dim), log[..n]).core) <==> Faithful(Run(Fresh(dim), log[..n]).core.kernel)))
  }

  /** The snapshot on disk, if there is one, is of a faithful state. */
  ghost predicate Restorable(dim: nat, log: seq<Entry>, t: Table) {
    t.snapshot.Some? && SnapshotCount(t) <= |log| ==> Faithful(Run(Fresh(dim), log[..SnapshotCount(t)]).core.kernel)
  }

  /** Where a restart resumes writing to the audit log: past the applied mark on disk,
      and past the snapshot on disk. */
  function DiskMark(t: Table): nat {
    Max(SnapshotCount(t), Count(t.lastApplied))
  }

  /** The replicated state depends on the position alone; the mark on disk is never
      ahead of the node, and behind it only while the node stands at its snapshot. */
  ghost predicate Positions(dim: nat, log: seq<Entry>, m: Machine) {
    var a, d := Pos(m.mem), Count(m.table.lastApplied);
    && Tracks(dim, log, m.mem, a)
    && d <= |log| && m.table.lastApplied == LogIdAt(log, d)
    && SnapshotOk(dim, log, m.table.snapshot, SnapshotCount(m.table))
    && SnapshotCount(m.table) <= a && d <= Mark(m.mem)
    && (a <= d || a == SnapshotCount(m.table))
  }

  /** Every audit record is owed to the log at its position, and what the node has gone
      past without a record lies below the snapshot on disk. */
  ghost predicate Audited(dim: nat, log: seq<Entry>, m: Machine) {
    && WrittenFor(dim, log, m.sink.records, m.written)
    && Mark(m.mem) <= m.high <= |log|
    && (forall i :: i in m.written ==> i < m.high)
    && (forall i: nat :: Owes(dim, log, i) && i < m.high && i !in m.written ==> i < SnapshotCount(m.table))
  }

  ghost predicate Inv(dim: nat, log: seq<Entry>, m: Machine) {
    Positions(dim, log, m) && Audited(dim, log, m)
  }

  // ---- the acts keep the invariant ----------------------------------------

  lemma {:induction false} FeedFed(dim: nat, log: seq<Entry>, m: Machine, clock: seq<nat>)
    requires Committed(log) && Positions(dim, log, m)
    ensures var p := Feed(log, m, clock);
      && Fed(dim, log, m.mem, m.sink, |Next(log, m.mem, clock)|, p)
      && FeedWritten(log, m, clock) == OwedAt(dim, log, Mark(m.mem), Reached(p))
  {
    hide Run, Fresh, ApplyAll, Fed, SnapshotOk, Mark, WrittenBy, OwedAt, Reached;
    var a, n := Pos(m.mem), |Next(log, m.mem, clock)|;
    assert Tracks(dim, log, m.mem, a) && a <= |log|;
    hide Positions, Tracks, Pos;
    assert Next(log, m.mem, clock) == log[a..a + n];
    FeedStretch(dim, log, m.mem, m.sink, n, clock[..n]);
    WrittenStretch(dim, log, m.mem, m.sink, n, clock[..n]);
  }

  /** Writing on from the mark leaves no new hole. */
  lemma {:induction false} ExtendAudited(dim: nat, log: seq<Entry>, m: Machine, to: nat, after: Machine)
    requires Audited(dim, log, m) && Mark(m.mem) <= to <= |log|
    requires after.sink.records == m.sink.records + Owed(dim, log, Mark(m.mem), to)
    requires after.written == m.written + OwedAt(dim, log, Mark(m.mem), to)
    requires after.high == Max(m.high, to) && Mark(after.mem) <= after.high && SnapshotCount(m.table) <= SnapshotCount(after.table)
    ensures Audited(dim, log, after)
  {
    hide Owed, OwedAt, Owes, Run, Fresh, Mark, SnapshotCount;
    var lo := Mark(m.mem);
    OwedAtSpec(dim, log, lo, to);
    WrittenJoin(dim, log, m.sink.records, m.written, Owed(dim, log, lo, to), OwedAt(dim, log, lo, to));
    hide WrittenFor;
    forall i: nat | Owes(dim, log, i) && i < after.high && i !in after.written ensures i < SnapshotCount(after.table) {
      assert i in OwedAt(dim, log, lo, to) ==> i in after.written;
      assert i in m.written ==> i in after.written;
    }
  }

  lemma {:induction false} BatchPositions(dim: nat, log: seq<Entry>, m: Machine, n: nat, p: Progress, after: Machine)
    requires Committed(log) && Positions(dim, log, m) && FedMemory(dim, log, m.mem, n, p)
    requires after.mem == p.mem && after.table == PersistApplied(m.table, p.mem)
    ensures Positions(dim, log, after) && Pos(p.mem) == Pos(m.mem) + n
  {
    hide Run, Fresh, Unpack, Fold;
    TracksMark(dim, log, p.mem, Pos(m.mem) + n);
  }

  /** Where a batch that does not fail leaves the node. */
  ghost predicate BatchLeaves(log: seq<Entry>, m: Machine, to: nat, after: Machine) {
    && Pos(m.mem) <= to <= |log| && Pos(after.mem) == Count(after.table.lastApplied) == to
    && after.mem.membership == TableMembership(after.table) == Fold(m.mem.membership, log[Pos(m.mem)..to])
    && Mark(after.mem) == Max(to, Replay(m.mem)) && after.high == Max(m.high, Mark(after.mem))
    && after.table.snapshot == m.table.snapshot
  }

  lemma {:induction false} BatchShape(dim: nat, log: seq<Entry>, m: Machine, clock: seq<nat>)
    requires Committed(log) && Positions(dim, log, m) && !Feed(log, m, clock).failed
    ensures BatchLeaves(log, m, Pos(m.mem) + |Next(log, m.mem, clock)|, Exec(dim, log, m, Batch(clock)).value)
  {
    hide Positions, Feed, Run, Fresh, Owed, Fold, FeedWritten, OwedAt, Tracks, Next, Reboot;
    FeedFed(dim, log, m, clock);
    var p, to := Feed(log, m, clock), Pos(m.mem) + |Next(log, m.mem, clock)|;
    TracksMark(dim, log, p.mem, to);
    assert Reached(p) == Mark(p.mem) == Max(to, Replay(m.mem));
  }

  lemma {:induction false} RebootMemory(dim: nat, log: seq<Entry>, m: Machine)
    requires Committed(log) && Positions(dim, log, m) && Restorable(dim, log, m.table)
    ensures var mem := Restart(m.table, dim);
      && mem.Some? && Tracks(dim, log, mem.value, SnapshotCount(m.table))
      && Pos(mem.value) == SnapshotCount(m.table) && Replay(mem.value) == Count(m.table.lastApplied)
      && Mark(mem.value) == DiskMark(m.table) <= Mark(m.mem)
      && mem.value.membership == TableMembership(m.table)
  {
    hide Fresh, Unpack, Apply, Faithful;
    assert log[..0] == [];
  }

  /** A restart that resumes the replay of the log is exactly one from a faithful snapshot. */
  lemma {:induction false} RestartRestoresIff(dim: nat, log: seq<Entry>, m: Machine)
    requires Committed(log) && Positions(dim, log, m)
    ensures var mem := Restart(m.table, dim);
      mem.Some? && mem.value.core == Run(Fresh(dim), log[..SnapshotCount(m.table)]).core <==> Restorable(dim, log, m.table)
  {
    hide Fresh, Unpack, Apply, Faithful, Tracks, Mark;
    assert log[..0] == [];
  }

  lemma {:induction false} RebootPositions(dim: nat, log: seq<Entry>, m: Machine, after: Machine)
    requires Committed(log) && Positions(dim, log, m) && Restorable(dim, log, m.table)
    requires after.table == m.table && Restart(m.table, dim) == Some(after.mem)
    ensures Positions(dim, log, after)
  {
    hide Restart, Tracks, SnapshotOk, SnapshotCount, Restorable;
    RebootMemory(dim, log, m);
  }

  lemma {:induction false} RebootInv(dim: nat, log: seq<Entry>, m: Machine, clock: seq<nat>, budget: nat)
    requires Committed(log) && Inv(dim, log, m) && Restorable(dim, log, m.table)
    ensures var after := Reboot(dim, log, m, clock, budget); after.Some? && Inv(dim, log, after.value)
  {
    hide Audited, Restart, Feed, FeedWritten, Reached, FedMemory, Positions, Owed, OwedAt, Restorable;
    FeedFed(dim, log, m, clock);
    RebootMemory(dim, log, m);
    var p, after := Feed(log, m, clock), Reboot(dim, log, m, clock, budget).value;
    RebootPositions(dim, log, m, after);
    ExtendAudited(dim, log, m, Reached(p), after);
  }

  lemma {:induction false} BatchInv(dim: nat, log: seq<Entry>, m: Machine, clock: seq<nat>)
    requires Committed(log) && Inv(dim, log, m) && (Feed(log, m, clock).failed ==> Restorable(dim, log, m.table))
    ensures var after := Exec(dim, log, m, Batch(clock)); after.Some? && Inv(dim, log, after.value)
  {
    FeedFed(dim, log, m, clock);
    hide Positions, Audited, Feed, FeedWritten, FedMemory, Owed, OwedAt, Reboot, Restorable;
    var n, p := |Next(log, m.mem, clock)|, Feed(log, m, clock);
    if p.failed {
      RebootInv(dim, log, m, clock, 0);
    } else {
      var after := Exec(dim, log, m, Batch(clock)).value;
      BatchPositions(dim, log, m, n, p, after);
      ExtendAudited(dim, log, m, Reached(p), after);
    }
  }

  lemma {:induction false} SnapshotInv(dim: nat, log: seq<Entry>, m: Machine)
    requires Committed(log) && Inv(dim, log, m)
    ensures Inv(dim, log, Exec(dim, log, m, TakeSnapshot).value)
  {
    hide Build, Positions, Audited;
    var after := Exec(dim, log, m, TakeSnapshot).value;
    SnapshotPositions(dim, log, m, after);
    HigherSnapshot(dim, log, m, after);
  }

  lemma {:induction false} HigherSnapshot(dim: nat, log: seq<Entry>, m: Machine, after: Machine)
    requires Audited(dim, log, m) && SnapshotCount(m.table) <= SnapshotCount(after.table)
    requires after.sink == m.sink && after.written == m.written && after.high == m.high
    requires after.mem.lastApplied == m.mem.lastApplied && after.mem.replayUntil == m.mem.replayUntil
    ensures Audited(dim, log, after)
  {
    hide WrittenFor, Owes, SnapshotCount;
  }

  lemma {:induction false} SnapshotPositions(dim: nat, log: seq<Entry>, m: Machine, after: Machine)
    requires Committed(log) && Positions(dim, log, m)
    requires after.mem == m.mem.(snapshot := Some(Build(m.mem))) && after.table == m.table.(snapshot := Some(Build(m.mem)))
    ensures Positions(dim, log, after) && SnapshotCount(m.table) <= SnapshotCount(after.table)
  {
    SnapshotRestores(dim, log, m.mem, Pos(m.mem));
    hide Run, Fresh, Unpack, Faithful, Pack;
  }

  /** A snapshot of a reachable state restores that state if and only if the
      kernel state is faithful. */
  lemma {:induction false} SnapshotRestores(dim: nat, log: seq<Entry>, m: Memory, a: nat)
    requires Tracks(dim, log, m, a)
    ensures Build(m).meta.lastLogId == m.lastApplied
    ensures Unpack(Build(m).data) == Some(m.core) <==> Faithful(m.core.kernel)
  {
    ReplicaProperties.RunValid(Fresh(dim), log[..a]);
    AcceptEncode(m.core.kernel);
    hide Accept, Encode, Hash, Faithful, Run;
  }

  /** A node on the same log whose snapshot, if it can be installed at all, is of a
      faithful state. */
  ghost predicate OnLog(dim: nat, log: seq<Entry>, donor: Memory) {
    && Tracks(dim, log, donor, Pos(donor))
    && (Unpack(Build(donor).data).Some? ==> Faithful(donor.core.kernel))
  }

  /** What an installed snapshot leaves: everything of the donor but the replay mark. */
  lemma {:induction false} InstallMemory(dim: nat, log: seq<Entry>, m: Machine, donor: Memory)
    requires Committed(log) && Positions(dim, log, m) && OnLog(dim, log, donor) && Installs(m, donor)
    ensures var after := Exec(dim, log, m, InstallFrom(donor)).value;
      && Positions(dim, log, after) && Pos(after.mem) == Pos(donor) == SnapshotCount(after.table) <= |log|
      && Mark(after.mem) == Max(Pos(donor), Replay(m.mem)) && after.mem.membership == donor.membership
      && after.table == m.table.(snapshot := after.table.snapshot) && after.sink == m.sink && after.written == m.written
      && after.high == Max(m.high, Mark(after.mem))
  {
    hide Run, Fresh, Unpack, Faithful, Pack, SnapshotOk;
    InstalledCore(dim, log, m, donor);
    InstallsPositions(dim, log, m, donor, Exec(dim, log, m, InstallFrom(donor)).value);
  }

  lemma {:induction false} InstallsPositions(dim: nat, log: seq<Entry>, m: Machine, donor: Memory, after: Machine)
    requires Committed(log) && Positions(dim, log, m) && Pos(m.mem) < Pos(donor) <= |log|
    requires donor.lastApplied == LogIdAt(log, Pos(donor)) && SnapshotOk(dim, log, after.table.snapshot, Pos(donor))
    requires after.mem.core == Run(Fresh(dim), log[..Pos(donor)]).core && after.mem.lastApplied == donor.lastApplied
    requires after.mem.replayUntil == m.mem.replayUntil && after.table.lastApplied == m.table.lastApplied
    requires SnapshotCount(after.table) == Pos(donor)
    ensures Positions(dim, log, after)
  {
    hide Run, Fresh, SnapshotOk;
  }

  lemma {:induction false} InstalledCore(dim: nat, log: seq<Entry>, m: Machine, donor: Memory)
    requires OnLog(dim, log, donor) && Installs(m, donor)
    ensures var n := Pos(donor);
      && n <= |log| && donor.lastApplied == LogIdAt(log, n) && Unpack(Build(donor).data) == Some(Run(Fresh(dim), log[..n]).core)
      && SnapshotOk(dim, log, Some(Build(donor)), n)
  {
    SnapshotRestores(dim, log, donor, Pos(donor));
    hide Run, Fresh, Unpack, Faithful, Pack;
  }

  lemma {:induction false} InstallInv(dim: nat, log: seq<Entry>, m: Machine, donor: Memory)
    requires Committed(log) && Inv(dim, log, m) && (Installs(m, donor) ==> OnLog(dim, log, donor))
    ensures Inv(dim, log, Exec(dim, log, m, InstallFrom(donor)).value)
  {
    if Installs(m, donor) {
      InstallMemory(dim, log, m, donor);
      assert SnapshotCount(m.table) <= Pos(m.mem) && Replay(m.mem) <= Mark(m.mem);
      hide Positions, Exec, WrittenFor, Owes;
    }
  }
}
