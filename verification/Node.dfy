/**
  One cluster node as a value: the volatile state machine, the redb metadata
  table it persists to, and the audit log. Each operation of the state machine
  is given here as a function; `StateMachine` proves its methods against them.
 */
module Node {
  import opened Basics
  import Kernel
  import opened KernelSnapshot
  import Registry
  import opened Replica

  /** A membership with the log id that set it; the default has neither. */
  datatype Stored = Stored(logId: Option<LogId>, config: Option<Config>)

  datatype SnapshotPayload = SnapshotPayload(
    kernel: Image,
    dedup: seq<RequestId>,
    stateHash: StateHash,
    createdAt: map<nat, nat>,
    corpus: map<nat, Bytes>,
    registry: Registry.Registry)

  /** Snapshot bytes: either they decode to a payload or they do not. */
  datatype Blob = Garbage | Framed(payload: SnapshotPayload)

  datatype Meta = Meta(lastLogId: Option<LogId>, membership: Stored, id: (nat, StateHash))

  datatype Snapshot = Snapshot(meta: Meta, data: Blob)

  datatype Memory = Memory(
    core: Core,
    lastApplied: Option<LogId>,
    membership: Stored,
    replayUntil: Option<nat>,
    createdAt: map<nat, nat>,
    snapshot: Option<Snapshot>)

  /** The `sm_meta` table. */
  datatype Table = Table(lastApplied: Option<LogId>, membership: Option<Stored>, snapshot: Option<Snapshot>)

  /** The audit log, and how many more writes it takes before failing. */
  datatype Sink = Sink(records: seq<AuditRecord>, budget: nat)

  function Empty(dim: nat): Memory {
    Memory(Fresh(dim), None, Stored(None, None), None, map[], None)
  }

  // ---- apply --------------------------------------------------------------

  predicate InReplay(m: Memory, index: nat) {
    m.replayUntil.Some? && index <= m.replayUntil.value
  }

  /** The entry gets as far as the kernel. */
  predicate Attempts(core: Core, e: Entry) {
    e.payload.Normal? && e.payload.req.schemaVersion <= CURRENT_SCHEMA_VERSION && !IsDuplicate(core, e.payload.req)
  }

  /** The core when the audit write of an accepted entry fails. */
  function Interrupted(core: Core, req: Request, kernel: Kernel.State): Core {
    core.(kernel := kernel, dedup := Remember(core.dedup, req.requestId), registry := Target(core.registry, req).0)
  }

  datatype Progress = Progress(mem: Memory, sink: Sink, replies: seq<Reply>, failed: bool)

  /** One entry, at wall-clock time `now`. */
  function ApplyOne(p: Progress, e: Entry, now: nat): Progress {
    var s := Apply(p.mem.core, e);
    var index := e.logId.index;
    var marked := p.mem.(
      lastApplied := Some(e.logId),
      membership := if e.payload.Membership? then Stored(Some(e.logId), Some(e.payload.config)) else p.mem.membership,
      replayUntil := if Attempts(p.mem.core, e) && !InReplay(p.mem, index) then None else p.mem.replayUntil);
    if s.audited.Some? && !InReplay(p.mem, index) && p.sink.budget == 0 then
      Progress(marked.(core := Interrupted(p.mem.core, e.payload.req, s.core.kernel)), p.sink, p.replies, true)
    else
      Progress(
        marked.(core := s.core, createdAt := if s.reply.recordId.Some? then p.mem.createdAt[s.reply.recordId.value := now] else p.mem.createdAt),
        if s.audited.Some? && !InReplay(p.mem, index) then Sink(p.sink.records + [s.audited.value], p.sink.budget - 1) else p.sink,
        p.replies + [s.reply],
        false)
  }

  function ApplyAll(m: Memory, sink: Sink, entries: seq<Entry>, clock: seq<nat>): Progress
    requires |entries| == |clock|
  {
    if entries == [] then Progress(m, sink, [], false)
    else
      var n := |entries| - 1;
      var p := ApplyAll(m, sink, entries[..n], clock[..n]);
      if p.failed then p else ApplyOne(p, entries[n], clock[n])
  }

  function PersistApplied(t: Table, m: Memory): Table {
    t.(lastApplied := m.lastApplied, membership := Some(m.membership))
  }

  // ---- snapshots ----------------------------------------------------------

  function Pack(m: Memory): SnapshotPayload {
    SnapshotPayload(Encode(m.core.kernel), m.core.dedup, Hash(m.core.kernel), m.createdAt, m.core.corpus, m.core.registry)
  }

  function Build(m: Memory): Snapshot {
    Snapshot(Meta(m.lastApplied, m.membership, (if m.lastApplied.Some? then m.lastApplied.value.index else 0, Hash(m.core.kernel))), Framed(Pack(m)))
  }

  /** The core a snapshot restores, or a refusal. */
  function Unpack(data: Blob): Option<Core> {
    if data.Garbage? then None
    else
      var kernel := Accept(data.payload.kernel, data.payload.stateHash);
      if kernel.None? then None
      else Some(Core(kernel.value, data.payload.dedup, data.payload.registry, data.payload.corpus))
  }

  /** `install_snapshot`; a refusal leaves the memory as it was. */
  function Install(m: Memory, s: Snapshot): Memory {
    var core := Unpack(s.data);
    if core.None? then m
    else m.(core := core.value, lastApplied := s.meta.lastLogId, membership := s.meta.membership,
            createdAt := s.data.payload.createdAt, snapshot := Some(s))
  }

  function IndexOf(l: Option<LogId>): Option<nat> {
    if l.Some? then Some(l.value.index) else None
  }

  /** `with_db`: rebuild a node from its table, or refuse. */
  function Restart(t: Table, dim: nat): Option<Memory> {
    var membership := if t.membership.Some? then t.membership.value else Stored(None, None);
    if t.snapshot.None? then
      Some(Memory(Fresh(dim), None, membership, IndexOf(t.lastApplied), map[], None))
    else
      var core := Unpack(t.snapshot.value.data);
      if core.None? then None
      else Some(Memory(core.value, t.snapshot.value.meta.lastLogId, membership, IndexOf(t.lastApplied),
                       t.snapshot.value.data.payload.createdAt, t.snapshot))
  }
}
