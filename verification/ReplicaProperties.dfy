/**
  What holds of every run of the replicated state machine: the dedup window,
  the ids it hands out, the registry, and what a retried request can do.
 */
module ReplicaProperties {
  import opened Basics
  import Kernel
  import KernelInvariants
  import KernelSnapshot
  import Registry
  import opened Replica

  // ---- kernel -------------------------------------------------------------

  lemma {:induction false} AttemptValid(core: Core, e: Entry)
    requires KernelInvariants.Valid(core.kernel)
    ensures KernelInvariants.Valid(Apply(core, e).core.kernel)
  {
    if e.payload.Normal? {
      var target := Target(core.registry, e.payload.req).1;
      if target.Some? { KernelInvariants.ApplyValid(core.kernel, e.payload.req.event, target.value); }
    }
  }

  /** Every reachable kernel state is well formed. */
  lemma {:induction false} RunValid(core: Core, entries: seq<Entry>)
    requires KernelInvariants.Valid(core.kernel)
    ensures KernelInvariants.Valid(Run(core, entries).core.kernel)
  {
    if entries != [] {
      RunValid(core, entries[..|entries| - 1]);
      AttemptValid(Run(core, entries[..|entries| - 1]).core, entries[|entries| - 1]);
    }
  }

  // ---- dedup window -------------------------------------------------------

  /** The request ids of accepted events, in the order they were accepted. */
  function AcceptedIds(audited: seq<Option<AuditRecord>>): seq<RequestId> {
    if audited == [] then []
    else
      var last := audited[|audited| - 1];
      AcceptedIds(audited[..|audited| - 1]) + if last.Some? && last.value.requestId.Some? then [last.value.requestId.value] else []
  }

  lemma {:induction false} FinishDedup(core: Core, index: nat, req: Request, target: (Registry.Registry, Option<nat>), out: Kernel.Outcome)
    ensures forall hash :: var s := Finish(core, index, req, target, out, hash);
      s.core.dedup == if s.audited.Some? then Remember(core.dedup, s.audited.value.requestId) else core.dedup
    ensures forall hash :: var s := Finish(core, index, req, target, out, hash);
      s.audited.Some? ==> s.audited.value == AuditRecord(req.event, req.requestId)
  {
  }

  /** An entry adds to the dedup queue exactly what it adds to the accepted ids,
      and an id in the queue is never accepted again. */
  lemma {:induction false} ApplyDedup(core: Core, e: Entry)
    ensures var s := Apply(core, e);
      && s.core.dedup == (if s.audited.Some? then Remember(core.dedup, s.audited.value.requestId) else core.dedup)
      && (s.audited.Some? && s.audited.value.requestId.Some? ==> s.audited.value.requestId.value !in core.dedup)
      && (s.audited.Some? ==> e.payload.Normal? && s.audited.value == AuditRecord(e.payload.req.event, e.payload.req.requestId))
  {
    if e.payload.Normal? {
      var target := Target(core.registry, e.payload.req);
      var out := if target.1.None? then Kernel.Outcome(core.kernel, None) else Kernel.Apply(core.kernel, e.payload.req.event, target.1.value);
      FinishDedup(core, e.logId.index, e.payload.req, target, out);
    }
  }

  lemma {:induction false} LastNPush<T>(ids: seq<T>, id: T, n: nat)
    requires n > 0
    ensures LastN(LastN(ids, n) + [id], n) == LastN(ids + [id], n)
    ensures Distinct(LastN(ids, n)) && id !in LastN(ids, n) ==> Distinct(LastN(ids + [id], n))
  {
    if |ids| >= n {
      assert LastN(ids, n) == ids[|ids| - n..];
      assert LastN(ids + [id], n) == ids[|ids| - n + 1..] + [id];
      assert (LastN(ids, n) + [id])[1..] == ids[|ids| - n + 1..] + [id];
    }
  }

  lemma {:induction false} WindowSlides(ids: seq<RequestId>, id: RequestId)
    requires Distinct(LastN(ids, MAX_DEDUP_ENTRIES)) && id !in LastN(ids, MAX_DEDUP_ENTRIES)
    ensures Remember(LastN(ids, MAX_DEDUP_ENTRIES), Some(id)) == LastN(ids + [id], MAX_DEDUP_ENTRIES)
    ensures Distinct(LastN(ids + [id], MAX_DEDUP_ENTRIES))
  {
    LastNPush(ids, id, MAX_DEDUP_ENTRIES);
    hide LastN, Distinct;
  }

  lemma {:induction false} AcceptedIdsPush(audited: seq<Option<AuditRecord>>, last: Option<AuditRecord>)
    ensures AcceptedIds(audited + [last]) == AcceptedIds(audited) + if last.Some? && last.value.requestId.Some? then [last.value.requestId.value] else []
  {
    assert (audited + [last])[..|audited|] == audited;
  }

  /** The dedup queue is exactly the longest allowed suffix of the accepted ids,
      and never holds an id twice. */
  lemma {:induction false} DedupWindow(dim: nat, entries: seq<Entry>)
    ensures var t := Run(Fresh(dim), entries);
      t.core.dedup == LastN(AcceptedIds(t.audited), MAX_DEDUP_ENTRIES) && Distinct(t.core.dedup)
  {
    if entries != [] {
      hide Apply, Fresh, Distinct, LastN, AcceptedIds;
      var front, e := entries[..|entries| - 1], entries[|entries| - 1];
      DedupWindow(dim, front);
      var t := Run(Fresh(dim), front);
      var s := Apply(t.core, e);
      ApplyDedup(t.core, e);
      AcceptedIdsPush(t.audited, s.audited);
      if s.audited.Some? && s.audited.value.requestId.Some? {
        WindowSlides(AcceptedIds(t.audited), s.audited.value.requestId.value);
      }
    }
  }

  /** In other words: the queue is the end of the sequence of accepted ids, all of it
      while there are at most 1048576 and that many of them afterwards. */
  lemma {:induction false} WindowIsSuffix(dim: nat, entries: seq<Entry>)
    ensures var t := Run(Fresh(dim), entries);
      var queue, ids := t.core.dedup, AcceptedIds(t.audited);
      && |queue| <= |ids| && queue == ids[|ids| - |queue|..]
      && |queue| == if |ids| <= 1048576 then |ids| else 1048576
  {
    DedupWindow(dim, entries);
    hide Run, Fresh, AcceptedIds, Distinct;
  }

  // ---- allocated ids ------------------------------------------------------

  ghost predicate Grown(a: Kernel.State, index: nat, s: Step) {
    && s.reply.logIndex == index
    && |a.records| <= |s.core.kernel.records| && |a.nodes| <= |s.core.kernel.nodes| && |a.edges| <= |s.core.kernel.edges|
    && (s.reply.recordId.Some? ==> s.reply.recordId.value == |a.records| < |s.core.kernel.records|)
    && (s.reply.nodeId.Some? ==> s.reply.nodeId.value == |a.nodes| < |s.core.kernel.nodes|)
    && (s.reply.edgeId.Some? ==> s.reply.edgeId.value == |a.edges| < |s.core.kernel.edges|)
  }

  /** Pools never shrink, and each allocation takes a fresh slot. */
  lemma {:induction false} ApplyGrows(core: Core, e: Entry)
    ensures Grown(core.kernel, e.logId.index, Apply(core, e))
  {
    if e.payload.Normal? {
      var req := e.payload.req;
      var target := Target(core.registry, req);
      if target.1.Some? {
        KernelInvariants.ApplyGrows(core.kernel, req.event, target.1.value);
        FinishGrows(core, e.logId.index, req, target, Kernel.Apply(core.kernel, req.event, target.1.value));
      }
    }
  }

  lemma {:induction false} FinishGrows(core: Core, index: nat, req: Request, target: (Registry.Registry, Option<nat>), out: Kernel.Outcome)
    requires target.1.Some?
    requires var k, t := core.kernel, out.state;
      && KernelInvariants.Grown(k, t)
      && (out.err.None? && AllocatesRecord(req.event) ==> |t.records| == |k.records| + 1)
      && (out.err.None? && req.event.AutoCreateNode? ==> |t.nodes| == |k.nodes| + 1)
      && (out.err.None? && req.event.AutoCreateEdge? ==> |t.edges| == |k.edges| + 1)
    ensures forall hash :: Grown(core.kernel, index, Finish(core, index, req, target, out, hash))
  {
  }

  lemma {:induction false} RunGrows(core: Core, entries: seq<Entry>, i: nat, j: nat)
    requires i <= j <= |entries|
    ensures var a, b := Run(core, entries[..i]).core.kernel, Run(core, entries[..j]).core.kernel;
      |a.records| <= |b.records| && |a.nodes| <= |b.nodes| && |a.edges| <= |b.edges|
    decreases j
  {
    if i < j {
      RunGrows(core, entries, i, j - 1);
      RunAt(core, entries, j - 1);
      ApplyGrows(Run(core, entries[..j - 1]).core, entries[j - 1]);
    }
  }

  ghost predicate Rising(a: Option<nat>, b: Option<nat>) {
    a.Some? && b.Some? ==> a.value < b.value
  }

  /** Replies answer entries one to one with the same log index, and the record,
      node and edge ids they hand out only rise, so none is handed out twice. */
  lemma {:induction false} RepliesMatch(core: Core, entries: seq<Entry>)
    ensures var replies := Run(core, entries).replies;
      && |replies| == |entries|
      && (forall i :: 0 <= i < |entries| ==> replies[i].logIndex == entries[i].logId.index)
      && (forall i, j :: 0 <= i < j < |entries| ==>
            Rising(replies[i].recordId, replies[j].recordId) && Rising(replies[i].nodeId, replies[j].nodeId) && Rising(replies[i].edgeId, replies[j].edgeId))
  {
    hide Apply, Run;
    forall i | 0 <= i < |entries| ensures Run(core, entries).replies[i].logIndex == entries[i].logId.index {
      RunAt(core, entries, i);
      ApplyGrows(Run(core, entries[..i]).core, entries[i]);
    }
    forall i, j | 0 <= i < j < |entries|
      ensures var r := Run(core, entries).replies;
        Rising(r[i].recordId, r[j].recordId) && Rising(r[i].nodeId, r[j].nodeId) && Rising(r[i].edgeId, r[j].edgeId)
    {
      RunAt(core, entries, i);
      RunAt(core, entries, j);
      ApplyGrows(Run(core, entries[..i]).core, entries[i]);
      ApplyGrows(Run(core, entries[..j]).core, entries[j]);
      RunGrows(core, entries, i + 1, j);
    }
  }

  // ---- the audit stream ---------------------------------------------------

  /** What reaches the audit log can be read off the replies: an event is owed if and
      only if its answer is neither a rejection nor a duplicate. */
  ghost predicate AnsweredAs(e: Entry, reply: Reply, audited: Option<AuditRecord>) {
    && (audited.Some? <==> e.payload.Normal? && reply.rejected.None? && !reply.deduplicated)
    && (audited.Some? ==> audited.value == AuditRecord(e.payload.req.event, e.payload.req.requestId))
    && (e.payload.Normal? && e.payload.req.schemaVersion > CURRENT_SCHEMA_VERSION ==> reply.rejected.Some?)
    && (reply.deduplicated ==> reply.recordId.None? && reply.nodeId.None? && reply.edgeId.None? && reply.namespaceId.None?)
  }

  lemma {:induction false} FinishAnswers(core: Core, e: Entry, target: (Registry.Registry, Option<nat>), out: Kernel.Outcome, hash: KernelSnapshot.StateHash)
    requires e.payload.Normal? && e.payload.req.schemaVersion <= CURRENT_SCHEMA_VERSION
    ensures var s := Finish(core, e.logId.index, e.payload.req, target, out, hash); AnsweredAs(e, s.reply, s.audited)
  {
  }

  lemma {:induction false} RunAnswers(core: Core, entries: seq<Entry>)
    ensures var t := Run(core, entries);
      forall i :: 0 <= i < |entries| ==> AnsweredAs(entries[i], t.replies[i], t.audited[i])
  {
    hide Run, Finish, Kernel.Apply, KernelSnapshot.Hash;
    forall i | 0 <= i < |entries|
      ensures var t := Run(core, entries); AnsweredAs(entries[i], t.replies[i], t.audited[i])
    {
      var e, before := entries[i], Run(core, entries[..i]).core;
      RunAt(core, entries, i);
      if e.payload.Normal? && e.payload.req.schemaVersion <= CURRENT_SCHEMA_VERSION {
        var target := Target(before.registry, e.payload.req);
        var out := if target.1.None? then Kernel.Outcome(before.kernel, None) else Kernel.Apply(before.kernel, e.payload.req.event, target.1.value);
        FinishAnswers(before, e, target, out, KernelSnapshot.Hash(out.state));
      }
    }
  }

  // ---- registry -----------------------------------------------------------

  /** An id is free once it has been handed out and no name has it any more. */
  predicate Retired(r: Registry.Registry, id: nat) {
    1 <= id < r.nextId && id !in r.names.Values
  }

  /** One entry keeps names and ids in step: a rejection changes nothing, and an
      id appears only by staying or by being new. */
  ghost predicate InStep(before: Registry.Registry, s: Step) {
    var after := s.core.registry;
    && Registry.Ok(after)
    && before.nextId <= after.nextId
    && (s.reply.rejected.Some? ==> after == before)
    && (forall id :: id in after.names.Values ==> id in before.names.Values || id >= before.nextId)
    && (s.reply.namespaceId.Some? ==>
          var id := s.reply.namespaceId.value; id == 0 || id >= before.nextId || id in before.names.Values)
  }

  lemma {:induction false} FinishRegistry(core: Core, index: nat, req: Request, out: Kernel.Outcome, hash: KernelSnapshot.StateHash)
    requires Registry.Ok(core.registry)
    requires req.event.AutoCreateNamespace? ==> out.err.None?
    ensures InStep(core.registry, Finish(core, index, req, Target(core.registry, req), out, hash))
  {
    var before, after := core.registry, Finish(core, index, req, Target(core.registry, req), out, hash).core.registry;
    forall id | id in after.names.Values ensures id in before.names.Values || id >= before.nextId {
      var n :| n in after.names && after.names[n] == id;
      if n in before.names { assert before.names[n] in before.names.Values; }
    }
    if req.event.AutoCreateNamespace? && req.event.name in before.names {
      assert before.names[req.event.name] in before.names.Values;
    }
  }

  lemma {:induction false} ApplyRegistry(core: Core, e: Entry)
    requires Registry.Ok(core.registry)
    ensures InStep(core.registry, Apply(core, e))
  {
    if e.payload.Normal? {
      var req := e.payload.req;
      var target := Target(core.registry, req);
      var out := if target.1.None? then Kernel.Outcome(core.kernel, None) else Kernel.Apply(core.kernel, req.event, target.1.value);
      FinishRegistry(core, e.logId.index, req, out, KernelSnapshot.Hash(out.state));
    }
  }

  /** An accepted drop retires the id it dropped. */
  lemma {:induction false} DropRetires(core: Core, e: Entry, name: string)
    requires Registry.Ok(core.registry)
    requires e.payload.Normal? && e.payload.req.event == Kernel.DropNamespace(name) && Apply(core, e).audited.Some?
    ensures name in core.registry.names
    ensures Retired(Apply(core, e).core.registry, core.registry.names[name])
  {
    var after := Apply(core, e).core.registry;
    assert after.names == core.registry.names - {name};
    assert forall n :: n in after.names ==> after.names[n] != core.registry.names[name];
  }

  /** Over every run the registry stays one to one, rejections leave it alone,
      and an id once retired is never resolved or handed out again. */
  lemma {:induction false} RegistryRun(core: Core, entries: seq<Entry>, i: nat, id: nat)
    requires Registry.Ok(core.registry) && i <= |entries|
    requires Retired(Run(core, entries[..i]).core.registry, id)
    ensures Registry.Ok(Run(core, entries).core.registry)
    ensures forall j :: i <= j <= |entries| ==> Retired(Run(core, entries[..j]).core.registry, id)
    ensures forall j :: i <= j < |entries| ==> Run(core, entries).replies[j].namespaceId != Some(id)
  {
    RegistryOk(core, entries);
    forall j | i <= j <= |entries| ensures Retired(Run(core, entries[..j]).core.registry, id) {
      StaysRetired(core, entries, i, j, id);
    }
    forall j | i <= j < |entries| ensures Run(core, entries).replies[j].namespaceId != Some(id) {
      StaysRetired(core, entries, i, j, id);
      RegistryOk(core, entries[..j]);
      RunAt(core, entries, j);
      ApplyRegistry(Run(core, entries[..j]).core, entries[j]);
    }
  }

  lemma {:induction false} RegistryOk(core: Core, entries: seq<Entry>)
    requires Registry.Ok(core.registry)
    ensures Registry.Ok(Run(core, entries).core.registry)
  {
    if entries != [] {
      RegistryOk(core, entries[..|entries| - 1]);
      ApplyRegistry(Run(core, entries[..|entries| - 1]).core, entries[|entries| - 1]);
    }
  }

  lemma {:induction false} StaysRetired(core: Core, entries: seq<Entry>, i: nat, j: nat, id: nat)
    requires Registry.Ok(core.registry) && i <= j <= |entries|
    requires Retired(Run(core, entries[..i]).core.registry, id)
    ensures Retired(Run(core, entries[..j]).core.registry, id)
    decreases j
  {
    if i < j {
      StaysRetired(core, entries, i, j - 1, id);
      RegistryOk(core, entries[..j - 1]);
      RunAt(core, entries, j - 1);
      ApplyRegistry(Run(core, entries[..j - 1]).core, entries[j - 1]);
    }
  }
}
