/**
  The two Raft log stores. `MemoryStore` keeps the log in an ordered map,
  `RedbStore` in tables that change only by committed transactions. Both are
  proved against the same functions on a `Log` value, so a client cannot tell
  them apart, and the disk never shows a half-done operation.
 */
module LogStore {
  import opened Basics
  import opened Replica

  const U64_MAX: nat := 0xFFFF_FFFF_FFFF_FFFF

  datatype Vote = Vote(term: nat, node: nat, committed: bool)

  datatype Log = Log(entries: map<nat, Entry>, lastPurged: Option<LogId>, vote: Option<Vote>, committed: Option<LogId>)

  const EMPTY := Log(map[], None, None, None)

  /** Log ids order by leader (term, then node) and then by index. */
  predicate Before(a: LogId, b: LogId) {
    a.term < b.term || (a.term == b.term && (a.node < b.node || (a.node == b.node && a.index < b.index)))
  }

  // ---- the contract -------------------------------------------------------

  function Appended(l: Log, batch: seq<Entry>): Log {
    if batch == [] then l
    else
      var e := batch[|batch| - 1];
      var front := Appended(l, batch[..|batch| - 1]);
      front.(entries := front.entries[e.logId.index := e])
  }

  function Truncated(l: Log, id: LogId): Log {
    l.(entries := map i | i in l.entries && i < id.index :: l.entries[i])
  }

  /** The purge floor only ever rises. */
  function Floor(current: Option<LogId>, id: LogId): Option<LogId> {
    if current.None? || Before(current.value, id) then Some(id) else current
  }

  function Purged(l: Log, id: LogId): Log {
    l.(entries := map i | i in l.entries && i > id.index :: l.entries[i], lastPurged := Floor(l.lastPurged, id))
  }

  /** The entries with index from `lo` up to `hi`, in order. */
  function Between(entries: map<nat, Entry>, lo: nat, hi: nat): seq<Entry>
    decreases hi
  {
    if hi <= lo then []
    else Between(entries, lo, hi - 1) + if hi - 1 in entries then [entries[hi - 1]] else []
  }

  predicate IsLast(entries: map<nat, Entry>, k: nat) {
    k in entries && forall i :: i in entries ==> i <= k
  }

  datatype LogState = LogState(lastPurged: Option<LogId>, last: Option<LogId>)

  ghost predicate Reports(l: Log, s: LogState) {
    && s.lastPurged == l.lastPurged
    && if l.entries == map[] then s.last == l.lastPurged
       else exists k :: IsLast(l.entries, k) && s.last == Some(l.entries[k].logId)
  }

  /** The largest key of a non-empty map. */
  method LastKey(entries: map<nat, Entry>) returns (k: nat)
    requires entries != map[]
    ensures IsLast(entries, k)
  {
    k :| k in entries;
    var rest := entries.Keys;
    while rest != {}
      invariant k in entries && rest <= entries.Keys
      invariant forall i :: i in entries && i !in rest ==> i <= k
      decreases |rest|
    {
      var i :| i in rest;
      rest := rest - {i};
      if k < i { k := i; }
    }
  }

  method ReadBetween(entries: map<nat, Entry>, lo: nat, hi: nat) returns (out: seq<Entry>)
    requires lo <= hi
    ensures out == Between(entries, lo, hi)
  {
    out := [];
    for i := lo to hi
      invariant out == Between(entries, lo, i)
    {
      if i in entries { out := out + [entries[i]]; }
    }
  }

  // ---- what the operations mean, index by index ---------------------------

  /** Log ids compare by term, then by node, then by index. */
  lemma {:induction false} BeforeIs(a: LogId, b: LogId)
    ensures a.term != b.term ==> (Before(a, b) <==> a.term < b.term)
    ensures a.term == b.term && a.node != b.node ==> (Before(a, b) <==> a.node < b.node)
    ensures a.term == b.term && a.node == b.node ==> (Before(a, b) <==> a.index < b.index)
    ensures Before(a, b) || Before(b, a) <==> a != b
  {
  }

  /** Entry `k` is the last of the batch with its index. */
  predicate LastAt(batch: seq<Entry>, k: int) {
    0 <= k < |batch| && forall j :: k < j < |batch| ==> batch[j].logId.index != batch[k].logId.index
  }

  ghost predicate Names(batch: seq<Entry>, i: nat) {
    exists k :: 0 <= k < |batch| && batch[k].logId.index == i
  }

  predicate SameAt(a: map<nat, Entry>, b: map<nat, Entry>, i: nat) {
    (i in a <==> i in b) && (i in a ==> a[i] == b[i])
  }

  lemma {:induction false} AppendedElsewhere(l: Log, batch: seq<Entry>, i: nat)
    requires !Names(batch, i)
    ensures SameAt(Appended(l, batch).entries, l.entries, i)
  {
    if batch != [] {
      var n := |batch| - 1;
      assert batch[n].logId.index != i;
      assert forall k :: 0 <= k < n ==> batch[..n][k] == batch[k];
      AppendedElsewhere(l, batch[..n], i);
    }
  }

  lemma {:induction false} AppendedLast(l: Log, batch: seq<Entry>, k: nat)
    requires LastAt(batch, k)
    ensures var t := Appended(l, batch).entries; batch[k].logId.index in t && t[batch[k].logId.index] == batch[k]
  {
    var n := |batch| - 1;
    if k < n {
      assert batch[n].logId.index != batch[k].logId.index;
      assert LastAt(batch[..n], k);
      AppendedLast(l, batch[..n], k);
    }
  }

  lemma {:induction false} AppendedRest(l: Log, batch: seq<Entry>)
    ensures Appended(l, batch) == l.(entries := Appended(l, batch).entries)
  {
    if batch != [] { AppendedRest(l, batch[..|batch| - 1]); }
  }

  /** Appending puts every entry at its index, the last one winning, and touches no other. */
  lemma {:induction false} AppendedAt(l: Log, batch: seq<Entry>)
    ensures var t := Appended(l, batch);
      && t == l.(entries := t.entries)
      && (forall k :: LastAt(batch, k) ==> batch[k].logId.index in t.entries && t.entries[batch[k].logId.index] == batch[k])
      && (forall i: nat :: !Names(batch, i) ==> SameAt(t.entries, l.entries, i))
  {
    hide *;
    AppendedRest(l, batch);
    var t := Appended(l, batch);
    forall k | LastAt(batch, k) ensures 0 <= k < |batch| && batch[k].logId.index in t.entries && t.entries[batch[k].logId.index] == batch[k] {
      LastIsSlot(batch, k);
      AppendedLast(l, batch, k);
    }
    forall i: nat | !Names(batch, i) ensures SameAt(t.entries, l.entries, i) { AppendedElsewhere(l, batch, i); }
  }

  lemma {:induction false} LastIsSlot(batch: seq<Entry>, k: int)
    requires LastAt(batch, k)
    ensures 0 <= k < |batch|
  {
  }

  /** Truncating at `id` removes its index and everything above, and nothing below. */
  lemma {:induction false} TruncatedAt(l: Log, id: LogId)
    ensures var t := Truncated(l, id);
      && t == l.(entries := t.entries)
      && (forall i :: i >= id.index ==> i !in t.entries)
      && (forall i :: 0 <= i < id.index ==> SameAt(t.entries, l.entries, i))
  {
  }

  /** Purging at `id` removes its index and everything below, and nothing above; the floor
      is then the later of the old one and `id`. */
  lemma {:induction false} PurgedAt(l: Log, id: LogId)
    ensures var t := Purged(l, id);
      && t == l.(entries := t.entries, lastPurged := t.lastPurged)
      && (forall i :: 0 <= i <= id.index ==> i !in t.entries)
      && (forall i :: i > id.index ==> SameAt(t.entries, l.entries, i))
      && t.lastPurged.Some? && !Before(t.lastPurged.value, id) && (t.lastPurged == Some(id) || t.lastPurged == l.lastPurged)
      && (l.lastPurged.Some? ==> !Before(t.lastPurged.value, l.lastPurged.value))
  {
  }

  /** The indices from `lo` up to `hi` that are stored, in order. */
  function Stored(entries: map<nat, Entry>, lo: nat, hi: nat): seq<nat>
    decreases hi
  {
    if hi <= lo then [] else Stored(entries, lo, hi - 1) + if hi - 1 in entries then [hi - 1] else []
  }

  /** A range read returns exactly the stored entries of the range, once each and in
      index order. */
  lemma {:induction false} BetweenExactly(entries: map<nat, Entry>, lo: nat, hi: nat)
    ensures var at, out := Stored(entries, lo, hi), Between(entries, lo, hi);
      && |out| == |at|
      && (forall k :: 0 <= k < |at| ==> lo <= at[k] < hi && at[k] in entries && out[k] == entries[at[k]])
      && (forall j, k :: 0 <= j < k < |at| ==> at[j] < at[k])
      && (forall i :: lo <= i < hi && i in entries ==> i in at)
    decreases hi
  {
    if lo < hi {
      BetweenExactly(entries, lo, hi - 1);
      var at, front := Stored(entries, lo, hi), Stored(entries, lo, hi - 1);
      forall i | lo <= i < hi && i in entries ensures i in at {
        if i < hi - 1 { assert i in front; } else { assert at[|front|] == i; }
      }
    }
  }

  // ---- in memory ----------------------------------------------------------

  /** Purging removes what lies below `index + 1`, in 64-bit arithmetic. */
  function PurgedInMemory(l: Log, id: LogId): Log {
    var cut := (id.index + 1) % (U64_MAX + 1);
    l.(entries := map i | i in l.entries && i >= cut :: l.entries[i], lastPurged := Floor(l.lastPurged, id))
  }

  /** The two purges agree unless the index is the largest there is. */
  lemma {:induction false} PurgesAgreeIff(l: Log, id: LogId)
    requires id.index <= U64_MAX && forall i :: i in l.entries ==> i <= U64_MAX
    ensures PurgedInMemory(l, id) == Purged(l, id) <==> id.index < U64_MAX || l.entries == map[]
  {
    if id.index == U64_MAX {
      assert Purged(l, id).entries == map[];
      assert PurgedInMemory(l, id).entries == l.entries;
    } else {
      assert PurgedInMemory(l, id).entries == Purged(l, id).entries;
    }
  }

  class MemoryStore {
    var log: map<nat, Entry>
    var lastPurged: Option<LogId>
    var vote: Option<Vote>
    var committed: Option<LogId>

    function View(): Log reads this { Log(log, lastPurged, vote, committed) }

    constructor ()
      ensures View() == EMPTY
    {
      log, lastPurged, vote, committed := map[], None, None, None;
    }

    method SaveVote(v: Vote)
      modifies this`vote
      ensures View() == old(View()).(vote := Some(v))
    {
      vote := Some(v);
    }

    method SaveCommitted(id: Option<LogId>)
      modifies this`committed
      ensures View() == old(View()).(committed := id)
    {
      committed := id;
    }

    method Append(batch: seq<Entry>)
      modifies this`log
      ensures View() == Appended(old(View()), batch)
    {
      for k := 0 to |batch|
        invariant View() == Appended(old(View()), batch[..k])
      {
        log := log[batch[k].logId.index := batch[k]];
        assert batch[..k + 1][..k] == batch[..k];
      }
      assert batch[..|batch|] == batch;
    }

    method Truncate(id: LogId)
      modifies this`log
      ensures View() == Truncated(old(View()), id)
    {
      log := map i | i in log && i < id.index :: log[i];
    }

    method Purge(id: LogId)
      modifies this`log, this`lastPurged
      ensures View() == PurgedInMemory(old(View()), id)
    {
      if lastPurged.None? || Before(lastPurged.value, id) { lastPurged := Some(id); }
      var cut := (id.index + 1) % (U64_MAX + 1);
      log := map i | i in log && i >= cut :: log[i];
    }

    method GetLogState() returns (s: LogState)
      ensures Reports(View(), s)
    {
      if log == map[] { return LogState(lastPurged, lastPurged); }
      var k := LastKey(log);
      s := LogState(lastPurged, Some(log[k].logId));
    }

    method Read(lo: nat, hi: nat) returns (out: seq<Entry>)
      requires lo <= hi
      ensures out == Between(View().entries, lo, hi)
    {
      out := ReadBetween(log, lo, hi);
    }
  }

  // ---- on disk ------------------------------------------------------------

  /** The `logs` and `meta` tables. A stored committed id may itself be absent. */
  datatype Tables = Tables(logs: map<nat, Entry>, lastPurged: Option<LogId>, vote: Option<Vote>, committed: Option<Option<LogId>>)

  function Opened(t: Tables): Log {
    Log(t.logs, t.lastPurged, t.vote, if t.committed.Some? then t.committed.value else None)
  }

  /** A database with at most one write transaction in flight. `history` is what the
      disk held after each step, so what a crash at any moment would leave. */
  class Database {
    var disk: Tables
    var pending: Option<Tables>
    ghost var history: seq<Tables>

    ghost predicate Idle() reads this { pending.None? && history != [] && history[|history| - 1] == disk }

    constructor ()
      ensures Idle() && disk == Tables(map[], None, None, None)
    {
      disk, pending := Tables(map[], None, None, None), None;
      history := [Tables(map[], None, None, None)];
    }

    method BeginWrite()
      requires pending.None?
      modifies this
      ensures disk == old(disk) && pending == Some(disk) && history == old(history) + [disk]
    {
      pending := Some(disk);
      history := history + [disk];
    }

    method Write(t: Tables)
      requires pending.Some?
      modifies this
      ensures disk == old(disk) && pending == Some(t) && history == old(history) + [disk]
    {
      pending := Some(t);
      history := history + [disk];
    }

    method Commit()
      requires pending.Some?
      modifies this
      ensures disk == old(pending).value && pending.None? && history == old(history) + [disk]
    {
      disk, pending := pending.value, None;
      history := history + [disk];
    }
  }

  /** Everything the disk held since `before` is one of the two states. */
  ghost predicate Atomic(before: seq<Tables>, after: seq<Tables>, was: Tables, now: Tables) {
    && |before| < |after| && before == after[..|before|] && after[|after| - 1] == now
    && forall k :: |before| <= k < |after| ==> after[k] == was || after[k] == now
  }

  class RedbStore {
    const db: Database

    ghost predicate Valid() reads this, db { db.Idle() }

    function View(): Log reads this, db { Opened(db.disk) }

    constructor (db: Database)
      requires db.Idle()
      ensures this.db == db
    {
      this.db := db;
    }

    method WriteMeta(t: Tables)
      requires Valid() && t.logs == db.disk.logs
      modifies db
      ensures Valid() && db.disk == t && Atomic(old(db.history), db.history, old(db.disk), db.disk)
    {
      db.BeginWrite();
      db.Write(t);
      db.Commit();
    }

    method SaveVote(v: Vote)
      requires Valid()
      modifies db
      ensures Valid() && View() == old(View()).(vote := Some(v))
      ensures Atomic(old(db.history), db.history, old(db.disk), db.disk)
    {
      WriteMeta(db.disk.(vote := Some(v)));
    }

    method SaveCommitted(id: Option<LogId>)
      requires Valid()
      modifies db
      ensures Valid() && View() == old(View()).(committed := id)
      ensures Atomic(old(db.history), db.history, old(db.disk), db.disk)
    {
      WriteMeta(db.disk.(committed := Some(id)));
    }

    /** One transaction for the whole batch; it is acknowledged after the commit. */
    method Append(batch: seq<Entry>)
      requires Valid()
      modifies db
      ensures Valid() && View() == Appended(old(View()), batch)
      ensures Atomic(old(db.history), db.history, old(db.disk), db.disk)
    {
      db.BeginWrite();
      ghost var began := db.history;
      for k := 0 to |batch|
        invariant db.disk == old(db.disk) && db.pending.Some?
        invariant Opened(db.pending.value) == Appended(old(View()), batch[..k])
        invariant |began| <= |db.history| && began == db.history[..|began|]
        invariant forall j :: |began| <= j < |db.history| ==> db.history[j] == db.disk
      {
        assert batch[..k + 1][..k] == batch[..k];
        var t := db.pending.value;
        db.Write(t.(logs := t.logs[batch[k].logId.index := batch[k]]));
      }
      assert batch[..|batch|] == batch;
      db.Commit();
    }

    method Truncate(id: LogId)
      requires Valid()
      modifies db
      ensures Valid() && View() == Truncated(old(View()), id)
      ensures Atomic(old(db.history), db.history, old(db.disk), db.disk)
    {
      db.BeginWrite();
      var t := db.pending.value;
      db.Write(t.(logs := map i | i in t.logs && i < id.index :: t.logs[i]));
      db.Commit();
    }

    /** The floor and the removal go in one transaction. */
    method Purge(id: LogId)
      requires Valid()
      modifies db
      ensures Valid() && View() == Purged(old(View()), id)
      ensures Atomic(old(db.history), db.history, old(db.disk), db.disk)
    {
      var current := db.disk.lastPurged;
      var floor := if current.None? || Before(current.value, id) then id else current.value;
      db.BeginWrite();
      var t := db.pending.value;
      db.Write(t.(lastPurged := Some(floor)));
      t := db.pending.value;
      db.Write(t.(logs := map i | i in t.logs && i > id.index :: t.logs[i]));
      db.Commit();
    }

    method GetLogState() returns (s: LogState)
      requires Valid()
      ensures Reports(View(), s)
    {
      var t := db.disk;
      if t.logs == map[] { return LogState(t.lastPurged, t.lastPurged); }
      var k := LastKey(t.logs);
      s := LogState(t.lastPurged, Some(t.logs[k].logId));
    }

    method Read(lo: nat, hi: nat) returns (out: seq<Entry>)
      requires Valid() && lo <= hi
      ensures out == Between(View().entries, lo, hi)
    {
      out := ReadBetween(db.disk.logs, lo, hi);
    }
  }

  // ---- the stores side by side --------------------------------------------

  datatype Op =
    | Append(batch: seq<Entry>)
    | Truncate(id: LogId)
    | Purge(id: LogId)
    | SaveVote(v: Vote)
    | SaveCommitted(c: Option<LogId>)

  function Do(l: Log, op: Op): Log {
    match op
    case Append(batch) => Appended(l, batch)
    case Truncate(id) => Truncated(l, id)
    case Purge(id) => Purged(l, id)
    case SaveVote(v) => l.(vote := Some(v))
    case SaveCommitted(c) => l.(committed := c)
  }

  function DoAll(l: Log, ops: seq<Op>): Log {
    if ops == [] then l else Do(DoAll(l, ops[..|ops| - 1]), ops[|ops| - 1])
  }

  /** The same with the in-memory purge. */
  function DoInMemory(l: Log, op: Op): Log {
    if op.Purge? then PurgedInMemory(l, op.id) else Do(l, op)
  }

  function DoAllInMemory(l: Log, ops: seq<Op>): Log {
    if ops == [] then l else DoInMemory(DoAllInMemory(l, ops[..|ops| - 1]), ops[|ops| - 1])
  }

  /** Indices are 64-bit. */
  ghost predicate Bounded(ops: seq<Op>) {
    forall k :: 0 <= k < |ops| ==> BoundedOp(ops[k])
  }

  ghost predicate BoundedOp(op: Op) {
    && (op.Purge? ==> op.id.index <= U64_MAX)
    && (op.Append? ==> forall i :: 0 <= i < |op.batch| ==> op.batch[i].logId.index <= U64_MAX)
  }

  ghost predicate BoundedLog(l: Log) {
    forall i :: i in l.entries ==> i <= U64_MAX
  }

  /** The operation does not purge a non-empty log at the largest index there is. */
  predicate NoFullPurge(l: Log, op: Op) {
    op.Purge? ==> op.id.index < U64_MAX || l.entries == map[]
  }

  ghost predicate NoFullPurges(l: Log, ops: seq<Op>) {
    forall k :: 0 <= k < |ops| ==> NoFullPurge(DoAll(l, ops[..k]), ops[k])
  }

  lemma {:induction false} DoBounded(l: Log, op: Op)
    requires BoundedLog(l) && BoundedOp(op)
    ensures BoundedLog(Do(l, op))
    ensures DoInMemory(l, op) == Do(l, op) <==> NoFullPurge(l, op)
  {
    if op.Append? { AppendedKeys(l, op.batch); }
    if op.Purge? { PurgesAgreeIff(l, op.id); }
  }

  predicate SameLog(l: Log, ops: seq<Op>) {
    DoAllInMemory(l, ops) == DoAll(l, ops)
  }

  ghost predicate SameThroughout(l: Log, ops: seq<Op>) {
    forall k :: 0 <= k <= |ops| ==> SameLog(l, ops[..k])
  }

  lemma {:induction false} SameFront(l: Log, ops: seq<Op>)
    requires ops != []
    ensures SameThroughout(l, ops) <==> SameThroughout(l, ops[..|ops| - 1]) && SameLog(l, ops)
  {
    hide SameLog;
    var front := ops[..|ops| - 1];
    assert forall k :: 0 <= k <= |front| ==> front[..k] == ops[..k];
    assert ops[..|ops|] == ops;
    if SameThroughout(l, ops) {
      forall k | 0 <= k <= |front| ensures SameLog(l, front[..k]) { assert SameLog(l, ops[..k]); }
      assert SameLog(l, ops[..|ops|]);
    }
    if SameThroughout(l, front) && SameLog(l, ops) {
      forall k | 0 <= k <= |ops| ensures SameLog(l, ops[..k]) { if k <= |front| { assert SameLog(l, front[..k]); } }
    }
  }

  lemma {:induction false} NoFullPurgesFront(l: Log, ops: seq<Op>)
    requires ops != []
    ensures var front := ops[..|ops| - 1];
      NoFullPurges(l, ops) <==> NoFullPurges(l, front) && NoFullPurge(DoAll(l, front), ops[|ops| - 1])
  {
    hide NoFullPurge, DoAll;
    var n := |ops| - 1;
    var front := ops[..n];
    assert forall k :: 0 <= k <= n ==> front[..k] == ops[..k];
    assert front[..n] == front;
    if NoFullPurges(l, ops) {
      forall k | 0 <= k < n ensures NoFullPurge(DoAll(l, front[..k]), front[k]) { assert NoFullPurge(DoAll(l, ops[..k]), ops[k]); }
      assert NoFullPurge(DoAll(l, ops[..n]), ops[n]);
    }
    if NoFullPurges(l, front) && NoFullPurge(DoAll(l, front), ops[n]) {
      forall k | 0 <= k <= n ensures NoFullPurge(DoAll(l, ops[..k]), ops[k]) { if k < n { assert NoFullPurge(DoAll(l, front[..k]), front[k]); } }
    }
  }

  lemma {:induction false} BoundedFront(ops: seq<Op>)
    requires Bounded(ops) && ops != []
    ensures Bounded(ops[..|ops| - 1]) && BoundedOp(ops[|ops| - 1])
  {
    hide BoundedOp;
  }

  lemma {:induction false} SameStep(l: Log, ops: seq<Op>)
    requires ops != [] && BoundedLog(DoAll(l, ops[..|ops| - 1])) && BoundedOp(ops[|ops| - 1]) && SameLog(l, ops[..|ops| - 1])
    ensures SameLog(l, ops) <==> NoFullPurge(DoAll(l, ops[..|ops| - 1]), ops[|ops| - 1])
  {
    DoBounded(DoAll(l, ops[..|ops| - 1]), ops[|ops| - 1]);
    hide BoundedLog, BoundedOp, Do, DoInMemory, NoFullPurge;
  }

  lemma {:induction false} AllBounded(l: Log, ops: seq<Op>)
    requires BoundedLog(l) && Bounded(ops)
    ensures BoundedLog(DoAll(l, ops))
  {
    if ops != [] {
      hide BoundedLog, Bounded, BoundedOp, Do;
      BoundedFront(ops);
      AllBounded(l, ops[..|ops| - 1]);
      DoBounded(DoAll(l, ops[..|ops| - 1]), ops[|ops| - 1]);
    }
  }

  /** The stores hold the same log after every operation of the sequence if and only if
      it never purges a non-empty log at the largest index. */
  lemma {:induction false} StoresAgreeIff(l: Log, ops: seq<Op>)
    requires BoundedLog(l) && Bounded(ops)
    ensures SameThroughout(l, ops) <==> NoFullPurges(l, ops)
    ensures SameThroughout(l, ops) ==> SameLog(l, ops)
  {
    if ops == [] {
    } else {
      hide *;
      BoundedFront(ops);
      StoresAgreeIff(l, ops[..|ops| - 1]);
      SameFront(l, ops);
      NoFullPurgesFront(l, ops);
      AllBounded(l, ops[..|ops| - 1]);
      if SameLog(l, ops[..|ops| - 1]) { SameStep(l, ops); }
    }
  }

  /** A log state says the same thing about the same log. */
  lemma {:induction false} ReportsUnique(l: Log, a: LogState, b: LogState)
    requires Reports(l, a) && Reports(l, b)
    ensures a == b
  {
    if l.entries != map[] {
      var j :| IsLast(l.entries, j) && a.last == Some(l.entries[j].logId);
      var k :| IsLast(l.entries, k) && b.last == Some(l.entries[k].logId);
      assert j == k;
    }
  }

  /** The same operation on both stores. */
  method DoBoth(mem: MemoryStore, redb: RedbStore, op: Op)
    requires redb.Valid()
    modifies mem, redb.db
    ensures redb.Valid() && mem.View() == DoInMemory(old(mem.View()), op) && redb.View() == Do(old(redb.View()), op)
  {
    hide Appended, Truncated, Purged, PurgedInMemory;
    match op
    case Append(batch) =>
      mem.Append(batch);
      redb.Append(batch);
    case Truncate(id) =>
      mem.Truncate(id);
      redb.Truncate(id);
    case Purge(id) =>
      mem.Purge(id);
      redb.Purge(id);
    case SaveVote(v) =>
      mem.SaveVote(v);
      redb.SaveVote(v);
    case SaveCommitted(c) =>
      mem.SaveCommitted(c);
      redb.SaveCommitted(c);
  }

  /** Drive both stores with any operations. Each holds what its own operations make of
      the log; unless a non-empty log was purged at the largest index they hold the same,
      and every range read and log state they return is then the same. */
  method DriveBoth(mem: MemoryStore, redb: RedbStore, ops: seq<Op>, lo: nat, hi: nat) returns (a: (seq<Entry>, LogState), b: (seq<Entry>, LogState))
    requires redb.Valid() && mem.View() == redb.View() && lo <= hi
    requires Bounded(ops) && BoundedLog(mem.View())
    modifies mem, redb.db
    ensures redb.Valid() && mem.View() == DoAllInMemory(old(mem.View()), ops) && redb.View() == DoAll(old(mem.View()), ops)
    ensures NoFullPurges(old(mem.View()), ops) ==> mem.View() == redb.View()
    ensures mem.View() == redb.View() ==> a == b && |mem.log| == |redb.db.disk.logs|
  {
    ghost var start := mem.View();
    StoresAgreeIff(start, ops);
    hide Bounded, BoundedLog, NoFullPurges, SameThroughout, Do, DoInMemory, Between, IsLast, Reports;
    for k := 0 to |ops|
      invariant redb.Valid() && mem.View() == DoAllInMemory(start, ops[..k]) && redb.View() == DoAll(start, ops[..k])
    {
      assert ops[..k + 1][..k] == ops[..k];
      DoBoth(mem, redb, ops[k]);
    }
    assert ops[..|ops|] == ops;
    a, b := ReadBoth(mem, redb, lo, hi);
  }

  method ReadBoth(mem: MemoryStore, redb: RedbStore, lo: nat, hi: nat) returns (a: (seq<Entry>, LogState), b: (seq<Entry>, LogState))
    requires redb.Valid() && lo <= hi
    ensures a.0 == Between(mem.View().entries, lo, hi) && b.0 == Between(redb.View().entries, lo, hi)
    ensures Reports(mem.View(), a.1) && Reports(redb.View(), b.1)
    ensures mem.View() == redb.View() ==> a == b && |mem.log| == |redb.db.disk.logs|
  {
    hide Between, IsLast, Reports;
    var ra := mem.Read(lo, hi);
    var rb := redb.Read(lo, hi);
    var sa := mem.GetLogState();
    var sb := redb.GetLogState();
    if mem.View() == redb.View() { ReportsUnique(mem.View(), sa, sb); }
    a, b := (ra, sa), (rb, sb);
  }

  lemma {:induction false} AppendedKeys(l: Log, batch: seq<Entry>)
    ensures Appended(l, batch) == l.(entries := Appended(l, batch).entries)
    ensures forall i :: i in Appended(l, batch).entries ==> i in l.entries || exists k :: 0 <= k < |batch| && batch[k].logId.index == i
  {
    if batch != [] { AppendedKeys(l, batch[..|batch| - 1]); }
  }

  // ---- the shape of the log -----------------------------------------------

  /** The first index above the purge floor. */
  function First(l: Log): nat {
    if l.lastPurged.Some? then l.lastPurged.value.index + 1 else 0
  }

  /** The stored indices are one gap-free stretch just above the purge floor, and
      every entry sits at its own index. */
  ghost predicate Shaped(l: Log) {
    && (forall i :: i in l.entries ==> First(l) <= i && l.entries[i].logId.index == i)
    && (forall i, j :: i in l.entries && First(l) <= j <= i ==> j in l.entries)
  }

  /** What openraft promises its log store: batches continue the log, truncation stays
      above the floor, and purged ids are ordered by index as they are by leader. */
  ghost predicate Legal(l: Log, op: Op) {
    match op
    case Append(batch) =>
      forall k :: 0 <= k < |batch| ==> ContinuesAt(l, batch[k].logId.index - k) && batch[k].logId.index >= k
    case Truncate(id) => First(l) <= id.index
    case Purge(id) =>
      l.lastPurged.Some? ==>
        if Before(l.lastPurged.value, id) then l.lastPurged.value.index <= id.index else id.index <= l.lastPurged.value.index
    case SaveVote(_) => true
    case SaveCommitted(_) => true
  }

  /** `n` is the index right after the last one, stored or purged. */
  ghost predicate ContinuesAt(l: Log, n: int) {
    First(l) <= n && n !in l.entries && forall i :: First(l) <= i < n ==> i in l.entries
  }

  lemma {:induction false} AppendShaped(l: Log, batch: seq<Entry>)
    requires Shaped(l) && Legal(l, Append(batch))
    ensures Shaped(Appended(l, batch)) && Appended(l, batch).lastPurged == l.lastPurged
    ensures batch != [] ==> ContinuesAt(Appended(l, batch), batch[|batch| - 1].logId.index + 1)
  {
    if batch != [] {
      hide Shaped, ContinuesAt;
      var n := |batch| - 1;
      AppendShaped(l, batch[..n]);
      assert ContinuesAt(l, batch[n].logId.index - n);
      if n > 0 { SameEnd(l, batch[n - 1].logId.index - (n - 1), batch[n].logId.index - n); }
      PutShaped(Appended(l, batch[..n]), batch[n]);
    }
  }

  lemma {:induction false} SameEnd(l: Log, m: int, n: int)
    requires ContinuesAt(l, m) && ContinuesAt(l, n)
    ensures m == n
  {
  }

  lemma {:induction false} PutShaped(l: Log, e: Entry)
    requires Shaped(l) && ContinuesAt(l, e.logId.index)
    ensures var next := l.(entries := l.entries[e.logId.index := e]); Shaped(next) && ContinuesAt(next, e.logId.index + 1)
  {
  }

  /** Every legal operation keeps the shape, and the purge floor never falls. */
  lemma {:induction false} DoShaped(l: Log, op: Op)
    requires Shaped(l) && Legal(l, op)
    ensures Shaped(Do(l, op)) && First(l) <= First(Do(l, op))
    ensures l.lastPurged.Some? ==> Do(l, op).lastPurged.Some? && !Before(Do(l, op).lastPurged.value, l.lastPurged.value)
  {
    match op
    case Append(batch) => AppendShaped(l, batch);
    case _ =>
  }

  ghost predicate AllLegal(l: Log, ops: seq<Op>) {
    forall k :: 0 <= k < |ops| ==> Legal(DoAll(l, ops[..k]), ops[k])
  }

  /** Once a conflicting entry has been cut off, the log can be continued at its index. */
  lemma {:induction false} TruncateContinues(l: Log, id: LogId)
    requires Shaped(l) && Legal(l, Truncate(id)) && (id.index in l.entries || ContinuesAt(l, id.index))
    ensures ContinuesAt(Do(l, Truncate(id)), id.index)
  {
  }

  /** Appending a batch continues the log right after its last entry, and leaves what was
      there. */
  lemma {:induction false} AppendContinues(l: Log, batch: seq<Entry>)
    requires Shaped(l) && Legal(l, Append(batch)) && batch != []
    ensures var t := Do(l, Append(batch));
      && ContinuesAt(t, batch[|batch| - 1].logId.index + 1)
      && (forall i :: i in l.entries ==> i in t.entries && t.entries[i] == l.entries[i])
      && (forall k :: 0 <= k < |batch| ==> batch[k].logId.index in t.entries && t.entries[batch[k].logId.index] == batch[k])
  {
    AppendShaped(l, batch);
    AppendedAt(l, batch);
    hide Appended, Shaped;
    forall k | 0 <= k < |batch| ensures ContinuesAt(l, batch[k].logId.index - k) && batch[k].logId.index == batch[0].logId.index + k {
      assert ContinuesAt(l, batch[0].logId.index - 0);
      SameEnd(l, batch[k].logId.index - k, batch[0].logId.index);
    }
    forall k | 0 <= k < |batch| ensures LastAt(batch, k) { }
    forall i | i in l.entries ensures SameAt(Appended(l, batch).entries, l.entries, i) { BelowEnd(l, i, batch[0].logId.index); }
  }

  lemma {:induction false} BelowEnd(l: Log, i: nat, n: nat)
    requires Shaped(l) && ContinuesAt(l, n) && i in l.entries
    ensures i < n
  {
  }

  lemma {:induction false} LegalFront(ops: seq<Op>)
    requires AllLegal(EMPTY, ops) && ops != []
    ensures var front, op := ops[..|ops| - 1], ops[|ops| - 1];
      AllLegal(EMPTY, front) && Legal(DoAll(EMPTY, front), op) && DoAll(EMPTY, ops) == Do(DoAll(EMPTY, front), op)
  {
    hide Do, Legal;
    assert forall k :: 0 <= k < |ops| - 1 ==> ops[..|ops| - 1][..k] == ops[..k];
  }

  /** Over any legal sequence of operations the log keeps its shape. */
  lemma {:induction false} RunShaped(ops: seq<Op>)
    requires AllLegal(EMPTY, ops)
    ensures Shaped(DoAll(EMPTY, ops))
    ensures forall k :: 0 <= k <= |ops| ==> First(DoAll(EMPTY, ops[..k])) <= First(DoAll(EMPTY, ops))
  {
    if ops == [] {
    } else {
      var n := |ops| - 1;
      var front := ops[..n];
      hide *;
      LegalFront(ops);
      RunShaped(front);
      DoShaped(DoAll(EMPTY, front), ops[n]);
      forall k | 0 <= k <= |ops| ensures First(DoAll(EMPTY, ops[..k])) <= First(DoAll(EMPTY, ops)) {
        if k <= n {
          assert front[..k] == ops[..k];
        } else {
          assert ops[..k] == ops;
        }
      }
    }
  }
}
