/**
  The replicated part of the Raft state machine as a pure step function: what
  one committed entry does to the kernel, the dedup queue, the collection
  registry and the text corpus, what it answers, and what it owes the audit log.
 */
module Replica {
  import opened Basics
  import Kernel
  import opened KernelSnapshot
  import Registry

  const CURRENT_SCHEMA_VERSION: nat := 0
  const MAX_DEDUP_ENTRIES: nat := 1048576

  type RequestId = nat
  type Config = nat

  datatype LogId = LogId(term: nat, node: nat, index: nat)
  datatype Request = Request(event: Kernel.Event, requestId: Option<RequestId>, schemaVersion: nat, ns: nat)
  datatype Payload = Blank | Membership(config: Config) | Normal(req: Request)
  datatype Entry = Entry(logId: LogId, payload: Payload)

  datatype Rejection =
    | SchemaTooNew(version: nat)
    | NamespaceLimit
    | NamespaceMissing(name: string)
    | Refused(err: Kernel.Error)

  datatype Reply = Reply(
    logIndex: nat,
    stateHash: StateHash,
    deduplicated: bool,
    rejected: Option<Rejection>,
    recordId: Option<nat>,
    nodeId: Option<nat>,
    edgeId: Option<nat>,
    namespaceId: Option<nat>)

  datatype AuditRecord = AuditRecord(event: Kernel.Event, requestId: Option<RequestId>)

  datatype Core = Core(kernel: Kernel.State, dedup: seq<RequestId>, registry: Registry.Registry, corpus: map<nat, Bytes>)

  /** `audited` is what an accepted event owes the audit log. */
  datatype Step = Step(core: Core, reply: Reply, audited: Option<AuditRecord>)

  function Fresh(dim: nat): Core {
    Core(Kernel.WithDim(dim), [], Registry.New(), map[])
  }

  // ---- the dedup window ---------------------------------------------------

  function LastN<T>(s: seq<T>, n: nat): seq<T> {
    if |s| <= n then s else s[|s| - n..]
  }

  function Remember(dedup: seq<RequestId>, id: Option<RequestId>): seq<RequestId> {
    if id.Some? && id.value !in dedup then LastN(dedup + [id.value], MAX_DEDUP_ENTRIES) else dedup
  }

  // ---- text ---------------------------------------------------------------

  function IndexText(corpus: map<nat, Bytes>, id: nat, event: Kernel.Event): map<nat, Bytes> {
    if event.AutoInsertRecord? && event.metadata.Some? && ValidUtf8(event.metadata.value)
    then corpus[id := event.metadata.value] else corpus
  }

  // ---- one entry ----------------------------------------------------------

  function Plain(core: Core, index: nat, deduplicated: bool, rejected: Option<Rejection>): Step {
    Step(core, Reply(index, Hash(core.kernel), deduplicated, rejected, None, None, None, None), None)
  }

  predicate AllocatesRecord(e: Kernel.Event) {
    e.AutoInsertRecord? || e.AutoInsertRecordEncrypted?
  }

  /** The registry and the namespace an event is applied to, before the kernel sees it. */
  function Target(registry: Registry.Registry, req: Request): (Registry.Registry, Option<nat>) {
    match req.event
    case AutoCreateNamespace(name) => Registry.Create(registry, name)
    case DropNamespace(name) => (registry, Registry.Resolve(registry, name))
    case _ => (registry, Some(req.ns))
  }

  function NoTarget(e: Kernel.Event): Rejection {
    if e.DropNamespace? then NamespaceMissing(e.name) else NamespaceLimit
  }

  /** The registry once the kernel has answered: a refused create is undone, an
      accepted drop takes effect. */
  function Settle(registry: Registry.Registry, e: Kernel.Event, accepted: bool): Registry.Registry {
    if (e.AutoCreateNamespace? && !accepted) || (e.DropNamespace? && accepted)
    then Registry.Remove(registry, e.name) else registry
  }

  /** Carry an attempt through, given what the kernel answered. */
  function Finish(core: Core, index: nat, req: Request, target: (Registry.Registry, Option<nat>), out: Kernel.Outcome, hash: StateHash): Step {
    var rejected := if target.1.None? then Some(NoTarget(req.event))
                    else if out.err.Some? then Some(Refused(out.err.value)) else None;
    var ok := rejected.None?;
    var rid := |core.kernel.records|;
    var after := Core(out.state,
                      if ok then Remember(core.dedup, req.requestId) else core.dedup,
                      Settle(target.0, req.event, ok),
                      if ok && AllocatesRecord(req.event) then IndexText(core.corpus, rid, req.event) else core.corpus);
    var reply := Reply(index, hash, false, rejected,
                       if ok && AllocatesRecord(req.event) then Some(rid) else None,
                       if ok && req.event.AutoCreateNode? then Some(|core.kernel.nodes|) else None,
                       if ok && req.event.AutoCreateEdge? then Some(|core.kernel.edges|) else None,
                       if ok && req.event.AutoCreateNamespace? then target.1 else None);
    Step(after, reply, if ok then Some(AuditRecord(req.event, req.requestId)) else None)
  }

  function Attempt(core: Core, index: nat, req: Request): Step {
    var target := Target(core.registry, req);
    var out := if target.1.None? then Kernel.Outcome(core.kernel, None) else Kernel.Apply(core.kernel, req.event, target.1.value);
    Finish(core, index, req, target, out, Hash(out.state))
  }

  predicate IsDuplicate(core: Core, req: Request) {
    req.requestId.Some? && req.requestId.value in core.dedup
  }

  function Apply(core: Core, e: Entry): Step {
    match e.payload
    case Blank => Plain(core, e.logId.index, false, None)
    case Membership(_) => Plain(core, e.logId.index, false, None)
    case Normal(req) =>
      if req.schemaVersion > CURRENT_SCHEMA_VERSION then Plain(core, e.logId.index, false, Some(SchemaTooNew(req.schemaVersion)))
      else if IsDuplicate(core, req) then Plain(core, e.logId.index, true, None)
      else Attempt(core, e.logId.index, req)
  }

  // ---- many entries -------------------------------------------------------

  datatype Trace = Trace(core: Core, replies: seq<Reply>, audited: seq<Option<AuditRecord>>)

  function Run(core: Core, entries: seq<Entry>): (t: Trace)
    ensures |t.replies| == |entries| == |t.audited|
  {
    if entries == [] then Trace(core, [], [])
    else
      var t := Run(core, entries[..|entries| - 1]);
      var s := Apply(t.core, entries[|entries| - 1]);
      Trace(s.core, t.replies + [s.reply], t.audited + [s.audited])
  }

  /** Running two stretches one after the other is running them joined. */
  lemma {:induction false} RunJoin(core: Core, a: seq<Entry>, b: seq<Entry>)
    ensures var t := Run(core, a);
      var u := Run(t.core, b);
      Run(core, a + b) == Trace(u.core, t.replies + u.replies, t.audited + u.audited)
  {
    hide Apply;
    if b == [] {
      assert a + b == a;
    } else {
      var n := |b| - 1;
      RunJoin(core, a, b[..n]);
      assert (a + b)[..|a + b| - 1] == a + b[..n];
    }
  }

  /** Everything a run says about entry `i` is one step from the run before it. */
  lemma {:induction false} RunAt(core: Core, entries: seq<Entry>, i: nat)
    requires i < |entries|
    ensures var s := Apply(Run(core, entries[..i]).core, entries[i]);
      && Run(core, entries).replies[i] == s.reply
      && Run(core, entries).audited[i] == s.audited
      && Run(core, entries[..i + 1]).core == s.core
  {
    hide Apply;
    assert entries[..i + 1][..i] == entries[..i];
    RunJoin(core, entries[..i + 1], entries[i + 1..]);
    assert entries == entries[..i + 1] + entries[i + 1..];
  }
}
