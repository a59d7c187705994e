/**
  The state machine as the source keeps it: an object whose fields are updated
  in place, a dedup set beside the dedup queue, a shared database and an audit
  sink. Every method is proved against its function in `Node`.
 */
module StateMachine {
  import opened Basics
  import Kernel
  import opened KernelSnapshot
  import Registry
  import opened Replica
  import opened Node

  class AuditLog {
    var records: seq<AuditRecord>
    var budget: nat

    function View(): Sink reads this { Sink(records, budget) }

    method Record(r: AuditRecord) returns (ok: bool)
      modifies this
      ensures ok <==> old(budget) > 0
      ensures View() == if ok then Sink(old(records) + [r], old(budget) - 1) else old(View())
    {
      ok := budget > 0;
      if ok { records, budget := records + [r], budget - 1; }
    }
  }

  class Database {
    var lastApplied: Option<LogId>
    var membership: Option<Stored>
    var snapshot: Option<Snapshot>

    function View(): Table reads this { Table(lastApplied, membership, snapshot) }
  }

  datatype Result<T> = Success(value: T) | Failure

  lemma {:induction false} InElements<T>(s: seq<T>, x: T)
    ensures x in Elements(s) <==> x in s
  {
  }

  lemma {:induction false} PushNew<T>(s: seq<T>, x: T)
    requires Distinct(s) && x !in Elements(s)
    ensures Distinct(s + [x]) && Elements(s + [x]) == Elements(s) + {x}
  {
  }

  lemma {:induction false} PopOldest<T>(s: seq<T>)
    requires Distinct(s) && s != []
    ensures Distinct(s[1..]) && Elements(s[1..]) == Elements(s) - {s[0]}
  {
    assert s == [s[0]] + s[1..];
  }

  lemma {:induction false} RememberNothing(dedup: seq<RequestId>)
    ensures Remember(dedup, None) == dedup
  {
  }

  // ---- one request, as values ---------------------------------------------

  /** What asking the kernel leaves: the kernel, the registry with a new name already in
      it, and the verdict. */
  ghost predicate Asked(kernel: Kernel.State, registry: Registry.Registry, req: Request,
                        target: Option<nat>, rejected: Option<Rejection>, after: Kernel.State, resolved: Registry.Registry) {
    && (resolved, target) == Target(registry, req)
    && (target.None? ==> after == kernel && rejected == Some(NoTarget(req.event)))
    && (target.Some? ==>
          var out := Kernel.Apply(kernel, req.event, target.value);
          after == out.state && rejected == if out.err.Some? then Some(Refused(out.err.value)) else None)
  }

  /** What handling a request leaves: a failed audit write keeps what had been done so
      far; otherwise everything is as the step function says. */
  ghost predicate Handled(before: Memory, sink: Sink, req: Request, index: nat, now: nat, after: Memory, written: Sink, reply: Result<Reply>) {
    var s, write := Attempt(before.core, index, req), !InReplay(before, index);
    var mark := if write then None else before.replayUntil;
    && (reply.Failure? <==> s.audited.Some? && write && sink.budget == 0)
    && (reply.Failure? ==> written == sink && after == before.(core := Interrupted(before.core, req, s.core.kernel), replayUntil := mark))
    && (reply.Success? ==>
          && reply.value == s.reply
          && after == before.(core := s.core, replayUntil := mark,
                              createdAt := if s.reply.recordId.Some? then before.createdAt[s.reply.recordId.value := now] else before.createdAt)
          && written == if s.audited.Some? && write then Sink(sink.records + [s.audited.value], sink.budget - 1) else sink)
  }

  lemma {:induction false} HandledFailed(
      before: Memory, sink: Sink, req: Request, index: nat, now: nat, target: Option<nat>, kernel: Kernel.State, resolved: Registry.Registry, after: Memory)
    requires Asked(before.core.kernel, before.core.registry, req, target, None, kernel, resolved)
    requires !InReplay(before, index) && sink.budget == 0
    requires after == before.(core := Core(kernel, Remember(before.core.dedup, req.requestId), resolved, before.core.corpus), replayUntil := None)
    ensures Handled(before, sink, req, index, now, after, sink, Failure)
  {
    hide Kernel.Apply, Hash, Target, NoTarget, IndexText, Remember, Settle;
  }

  lemma {:induction false} HandledDone(
      before: Memory, sink: Sink, req: Request, index: nat, now: nat, target: Option<nat>, rejected: Option<Rejection>, resolved: Registry.Registry,
      after: Memory, written: Sink, reply: Reply)
    requires Asked(before.core.kernel, before.core.registry, req, target, rejected, after.core.kernel, resolved)
    requires var ok, write, k := rejected.None?, !InReplay(before, index), before.core.kernel;
      && (ok && write ==> sink.budget > 0)
      && after == before.(
           core := Core(after.core.kernel,
                        if ok then Remember(before.core.dedup, req.requestId) else before.core.dedup,
                        Settle(resolved, req.event, ok),
                        if ok && AllocatesRecord(req.event) then IndexText(before.core.corpus, |k.records|, req.event) else before.core.corpus),
           replayUntil := if write then None else before.replayUntil,
           createdAt := if ok && AllocatesRecord(req.event) then before.createdAt[|k.records| := now] else before.createdAt)
      && written == (if ok && write then Sink(sink.records + [AuditRecord(req.event, req.requestId)], sink.budget - 1) else sink)
      && reply == Reply(index, Hash(after.core.kernel), false, rejected,
                        if ok && AllocatesRecord(req.event) then Some(|k.records|) else None,
                        if ok && req.event.AutoCreateNode? then Some(|k.nodes|) else None,
                        if ok && req.event.AutoCreateEdge? then Some(|k.edges|) else None,
                        if ok && req.event.AutoCreateNamespace? then target else None)
    ensures Handled(before, sink, req, index, now, after, written, Success(reply))
  {
    hide Kernel.Apply, Hash, Target, NoTarget, IndexText, Remember, Settle;
  }

  class ValoriStateMachine {
    var kernel: Kernel.State
    var lastApplied: Option<LogId>
    var membership: Stored
    var dedupSet: set<RequestId>
    var dedupOrder: seq<RequestId>
    var currentSnapshot: Option<Snapshot>
    var createdAt: map<nat, nat>
    var corpus: map<nat, Bytes>
    var registry: Registry.Registry
    var replayUntil: Option<nat>
    const audit: AuditLog
    const db: Database?

    /** The dedup set is exactly the contents of the queue, which repeats nothing. */
    ghost predicate Valid() reads this {
      dedupSet == Elements(dedupOrder) && Distinct(dedupOrder)
    }

    function View(): Memory reads this {
      Memory(Core(kernel, dedupOrder, registry, corpus), lastApplied, membership, replayUntil, createdAt, currentSnapshot)
    }

    constructor New(audit: AuditLog, dim: nat)
      ensures Valid() && View() == Node.Empty(dim) && this.audit == audit && db == null
    {
      kernel, lastApplied, membership := Kernel.WithDim(dim), None, Stored(None, None);
      dedupSet, dedupOrder, currentSnapshot := {}, [], None;
      createdAt, corpus, registry, replayUntil := map[], map[], Registry.New(), None;
      this.audit, db := audit, null;
    }

    constructor From(audit: AuditLog, db: Database, core: Core, lastApplied: Option<LogId>, membership: Stored,
                     replayUntil: Option<nat>, createdAt: map<nat, nat>, snapshot: Option<Snapshot>)
      ensures View() == Memory(core, lastApplied, membership, replayUntil, createdAt, snapshot)
      ensures this.audit == audit && this.db == db && dedupSet == Elements(dedupOrder)
    {
      kernel, registry, corpus := core.kernel, core.registry, core.corpus;
      dedupSet, dedupOrder := Elements(core.dedup), core.dedup;
      this.lastApplied, this.membership, this.replayUntil := lastApplied, membership, replayUntil;
      this.createdAt, currentSnapshot := createdAt, snapshot;
      this.audit, this.db := audit, db;
    }

    method RememberRequest(id: RequestId)
      requires Valid()
      modifies this`dedupSet, this`dedupOrder
      ensures Valid()
      ensures View() == old(View()).(core := old(View()).core.(dedup := Remember(old(dedupOrder), Some(id))))
    {
      hide Distinct, Elements;
      assert id in dedupSet <==> id in dedupOrder by { InElements(dedupOrder, id); }
      if id !in dedupSet {
        PushNew(dedupOrder, id);
        dedupSet, dedupOrder := dedupSet + {id}, dedupOrder + [id];
        ghost var all := dedupOrder;
        while |dedupOrder| > MAX_DEDUP_ENTRIES
          invariant Valid() && |dedupOrder| <= |all| && dedupOrder == all[|all| - |dedupOrder|..]
          invariant |all| <= MAX_DEDUP_ENTRIES ==> dedupOrder == all
          invariant |all| > MAX_DEDUP_ENTRIES ==> |dedupOrder| >= MAX_DEDUP_ENTRIES
          invariant View() == old(View()).(core := old(View()).core.(dedup := dedupOrder))
        {
          PopOldest(dedupOrder);
          var oldest := dedupOrder[0];
          dedupOrder := dedupOrder[1..];
          dedupSet := dedupSet - {oldest};
        }
      }
    }

    method PersistApplied()
      modifies db
      ensures db != null ==> db.View() == Node.PersistApplied(old(db.View()), View())
    {
      if db != null { db.lastApplied, db.membership := lastApplied, Some(membership); }
    }

    method PersistSnapshot()
      modifies db
      ensures db != null ==> db.View() == if currentSnapshot.Some? then old(db.View()).(snapshot := currentSnapshot) else old(db.View())
    {
      if db != null && currentSnapshot.Some? { db.snapshot := currentSnapshot; }
    }

    /** Resolve or register the namespace the event is for. A new name is
        registered before the kernel has agreed to it. */
    method ResolveTarget(req: Request) returns (target: Option<nat>)
      modifies this`registry
      ensures (registry, target) == Target(old(registry), req)
    {
      match req.event
      case AutoCreateNamespace(name) =>
        var created := Registry.Create(registry, name);
        registry, target := created.0, created.1;
      case DropNamespace(name) => target := Registry.Resolve(registry, name);
      case _ => target := Some(req.ns);
    }

    /** Remember, audit and index an event the kernel has accepted. */
    method Accepted(req: Request, rid: nat, inReplay: bool, now: nat) returns (ok: bool)
      requires Valid()
      modifies this`dedupSet, this`dedupOrder, this`createdAt, this`corpus, audit
      ensures Valid() && dedupOrder == Remember(old(dedupOrder), req.requestId)
      ensures ok <==> inReplay || old(audit.budget) > 0
      ensures audit.View() == if ok && !inReplay then Sink(old(audit.records) + [AuditRecord(req.event, req.requestId)], old(audit.budget) - 1) else old(audit.View())
      ensures createdAt == if ok && AllocatesRecord(req.event) then old(createdAt)[rid := now] else old(createdAt)
      ensures corpus == if ok && AllocatesRecord(req.event) then IndexText(old(corpus), rid, req.event) else old(corpus)
    {
      RememberNothing(dedupOrder);
      if req.requestId.Some? { RememberRequest(req.requestId.value); }
      ok := true;
      if !inReplay { ok := audit.Record(AuditRecord(req.event, req.requestId)); }
      if ok && AllocatesRecord(req.event) {
        createdAt := createdAt[rid := now];
        corpus := IndexText(corpus, rid, req.event);
      }
    }

    /** Ask the kernel, once the namespace is settled; what it says is in `rejected`. */
    method AskKernel(req: Request) returns (target: Option<nat>, rejected: Option<Rejection>)
      modifies this`kernel, this`registry
      ensures Asked(old(kernel), old(registry), req, target, rejected, kernel, registry)
    {
      hide Kernel.Apply, Target, NoTarget;
      target := ResolveTarget(req);
      rejected := Some(NoTarget(req.event));
      if target.Some? {
        var out := Kernel.Apply(kernel, req.event, target.value);
        kernel := out.state;
        rejected := if out.err.Some? then Some(Refused(out.err.value)) else None;
      }
    }

    /** A request that passed the version gate and the dedup check. */
    method ApplyRequest(req: Request, index: nat, now: nat) returns (reply: Result<Reply>)
      requires Valid() && !IsDuplicate(View().core, req)
      modifies this`kernel, this`dedupSet, this`dedupOrder, this`createdAt, this`corpus, this`registry, this`replayUntil, audit
      ensures Valid()
      ensures Handled(old(View()), old(audit.View()), req, index, now, View(), audit.View(), reply)
    {
      hide Handled, Asked, Kernel.Apply, Hash, Target, NoTarget, IndexText, Remember, Settle, Distinct, Elements;
      ghost var before, sink := View(), audit.View();
      var rid, nid, eid := |kernel.records|, |kernel.nodes|, |kernel.edges|;
      var target, rejected := AskKernel(req);
      ghost var resolved := registry;
      var inReplay := replayUntil.Some? && index <= replayUntil.value;
      if !inReplay { replayUntil := None; }
      if rejected.None? {
        var ok := Accepted(req, rid, inReplay, now);
        if !ok {
          HandledFailed(before, sink, req, index, now, target, kernel, resolved, View());
          return Failure;
        }
      }
      registry := Settle(registry, req.event, rejected.None?);
      reply := Success(Reply(index, Hash(kernel), false, rejected,
                             if rejected.None? && AllocatesRecord(req.event) then Some(rid) else None,
                             if rejected.None? && req.event.AutoCreateNode? then Some(nid) else None,
                             if rejected.None? && req.event.AutoCreateEdge? then Some(eid) else None,
                             if rejected.None? && req.event.AutoCreateNamespace? then target else None));
      HandledDone(before, sink, req, index, now, target, rejected, resolved, View(), audit.View(), reply.value);
    }

    method ApplyEntry(e: Entry, now: nat, ghost sofar: seq<Reply>) returns (reply: Result<Reply>)
      requires Valid()
      modifies this, audit
      ensures Valid()
      ensures var p := ApplyOne(Progress(old(View()), old(audit.View()), sofar, false), e, now);
        && View() == p.mem && audit.View() == p.sink
        && p.failed == reply.Failure?
        && p.replies == if reply.Success? then sofar + [reply.value] else sofar
    {
      hide Kernel.Apply, Hash, ValidUtf8, Finish;
      lastApplied := Some(e.logId);
      match e.payload
      case Blank =>
        reply := Success(Reply(e.logId.index, Hash(kernel), false, None, None, None, None, None));
      case Membership(config) =>
        membership := Stored(Some(e.logId), Some(config));
        reply := Success(Reply(e.logId.index, Hash(kernel), false, None, None, None, None, None));
      case Normal(req) =>
        if req.schemaVersion > CURRENT_SCHEMA_VERSION {
          reply := Success(Reply(e.logId.index, Hash(kernel), false, Some(SchemaTooNew(req.schemaVersion)), None, None, None, None));
        } else if req.requestId.Some? && req.requestId.value in dedupSet {
          reply := Success(Reply(e.logId.index, Hash(kernel), true, None, None, None, None, None));
        } else {
          reply := ApplyRequest(req, e.logId.index, now);
        }
    }

    /** The entries of a batch in order. An audit write that fails stops the batch. */
    method ApplyEntries(entries: seq<Entry>, clock: seq<nat>) returns (result: Result<seq<Reply>>)
      requires Valid() && |entries| == |clock|
      modifies this, audit
      ensures Valid()
      ensures var p := ApplyAll(old(View()), old(audit.View()), entries, clock);
        && View() == p.mem && audit.View() == p.sink
        && result == (if p.failed then Failure else Success(p.replies))
    {
      hide ApplyOne, Distinct, Elements;
      var replies: seq<Reply> := [];
      for k := 0 to |entries|
        invariant Valid()
        invariant ApplyAll(old(View()), old(audit.View()), entries[..k], clock[..k]) == Progress(View(), audit.View(), replies, false)
      {
        assert entries[..k + 1][..k] == entries[..k] && clock[..k + 1][..k] == clock[..k];
        var reply := ApplyEntry(entries[k], clock[k], replies);
        if reply.Failure? {
          FailureStops(old(View()), old(audit.View()), entries, clock, k + 1);
          return Failure;
        }
        replies := replies + [reply.value];
      }
      assert entries[..|entries|] == entries && clock[..|entries|] == clock;
      result := Success(replies);
    }

    /** `apply`: the whole batch, then one write of the applied mark, which a batch that
        failed leaves where it was. */
    method Apply(entries: seq<Entry>, clock: seq<nat>) returns (result: Result<seq<Reply>>)
      requires Valid() && |entries| == |clock|
      modifies this, audit, db
      ensures Valid()
      ensures var p := ApplyAll(old(View()), old(audit.View()), entries, clock);
        && View() == p.mem && audit.View() == p.sink
        && result == (if p.failed then Failure else Success(p.replies))
        && (db != null ==> db.View() == if p.failed then old(db.View()) else Node.PersistApplied(old(db.View()), p.mem))
    {
      hide ApplyAll, Distinct, Elements;
      result := ApplyEntries(entries, clock);
      if result.Success? { PersistApplied(); }
    }

    method BuildSnapshot() returns (s: Snapshot)
      modifies this`currentSnapshot, db
      ensures s == Node.Build(old(View())) && View() == old(View()).(snapshot := Some(s))
      ensures db != null ==> db.View() == old(db.View()).(snapshot := Some(s))
    {
      var payload := SnapshotPayload(Encode(kernel), dedupOrder, Hash(kernel), createdAt, corpus, registry);
      var meta := Meta(lastApplied, membership, (if lastApplied.Some? then lastApplied.value.index else 0, payload.stateHash));
      s := Snapshot(meta, Framed(payload));
      currentSnapshot := Some(s);
      PersistSnapshot();
    }

    /** A refused snapshot changes nothing, in memory or on disk. The incoming
        dedup queue is taken as it is. */
    method InstallSnapshot(s: Snapshot) returns (ok: bool)
      modifies this, db
      ensures ok <==> Unpack(s.data).Some?
      ensures View() == Node.Install(old(View()), s)
      ensures db != null ==> db.View() == if ok then old(db.View()).(snapshot := Some(s)) else old(db.View())
      ensures ok ==> (Valid() <==> Distinct(s.data.payload.dedup))
      ensures !ok ==> unchanged(this)
    {
      hide Decode, Hash;
      if s.data.Garbage? { return false; }
      var payload := s.data.payload;
      var state := Decode(payload.kernel);
      if state.None? || Hash(state.value) != payload.stateHash { return false; }
      kernel, lastApplied, membership := state.value, s.meta.lastLogId, s.meta.membership;
      dedupSet, dedupOrder := Elements(payload.dedup), payload.dedup;
      createdAt, corpus, registry := payload.createdAt, payload.corpus, payload.registry;
      currentSnapshot := Some(s);
      PersistSnapshot();
      ok := true;
    }
  }

  /** Once an audit write has failed, the rest of the batch is not looked at. */
  lemma {:induction false} FailureStops(m: Memory, sink: Sink, entries: seq<Entry>, clock: seq<nat>, k: nat)
    requires |entries| == |clock| && k <= |entries|
    requires ApplyAll(m, sink, entries[..k], clock[..k]).failed
    ensures ApplyAll(m, sink, entries, clock) == ApplyAll(m, sink, entries[..k], clock[..k])
  {
    hide ApplyOne;
    if k == |entries| {
      assert entries[..k] == entries && clock[..k] == clock;
    } else {
      var n := |entries| - 1;
      assert entries[..n][..k] == entries[..k] && clock[..n][..k] == clock[..k];
      FailureStops(m, sink, entries[..n], clock[..n], k);
    }
  }

  /** `with_db`: read the table back, refusing a snapshot that does not check out. */
  method WithDb(audit: AuditLog, db: Database, dim: nat) returns (r: Result<ValoriStateMachine>)
    ensures r.Success? <==> Restart(db.View(), dim).Some?
    ensures r.Success? ==> fresh(r.value) && r.value.View() == Restart(db.View(), dim).value && r.value.audit == audit && r.value.db == db
    ensures r.Success? ==> (r.value.Valid() <==> db.snapshot.Some? ==> Distinct(db.snapshot.value.data.payload.dedup))
  {
    hide Decode, Hash;
    var membership := if db.membership.Some? then db.membership.value else Stored(None, None);
    var replayUntil := IndexOf(db.lastApplied);
    if db.snapshot.None? {
      var m := new ValoriStateMachine.From(audit, db, Fresh(dim), None, membership, replayUntil, map[], None);
      return Success(m);
    }
    var s := db.snapshot.value;
    if s.data.Garbage? { return Failure; }
    var state := Decode(s.data.payload.kernel);
    if state.None? || Hash(state.value) != s.data.payload.stateHash { return Failure; }
    var core := Core(state.value, s.data.payload.dedup, s.data.payload.registry, s.data.payload.corpus);
    var m := new ValoriStateMachine.From(audit, db, core, s.meta.lastLogId, membership, replayUntil, s.data.payload.createdAt, db.snapshot);
    return Success(m);
  }
}
