/**
  What a replica answers to a committed entry and what stands behind the answer: the
  ids it hands out are where things are stored, the name it registers resolves to the id
  it returned, and a rejection gives its reason and leaves the state alone.
 */
module Answers {
  import opened Basics
  import Kernel
  import KernelEffects
  import KernelInvariants
  import KernelSnapshot
  import opened Namespaces
  import Registry
  import opened Replica
  import ReplicaProperties

  /** The entry gets past the version gate and the dedup check. */
  predicate Tried(core: Core, e: Entry) {
    && e.payload.Normal? && e.payload.req.schemaVersion == 0
    && (e.payload.req.requestId.Some? ==> e.payload.req.requestId.value !in core.dedup)
  }

  /** The number of the namespace that the event is for, once it is settled. */
  function Home(core: Core, req: Request): nat {
    match req.event
    case AutoCreateNamespace(name) =>
      if name == "default" then 0 else if name in core.registry.names then core.registry.names[name] else core.registry.nextId
    case DropNamespace(name) => if name in core.registry.names then core.registry.names[name] else 0
    case _ => req.ns
  }

  lemma {:induction false} TargetIsHome(core: Core, req: Request)
    requires Registry.Ok(core.registry)
    ensures var target := Target(core.registry, req).1; target.Some? ==> target.value == Home(core, req)
    ensures Target(core.registry, req).1.None? <==>
      match req.event
      case AutoCreateNamespace(name) => name != "default" && name !in core.registry.names && core.registry.nextId >= 1024
      case DropNamespace(name) => name != "default" && name !in core.registry.names
      case _ => false
  {
  }

  lemma {:induction false} TriedIs(core: Core, e: Entry)
    ensures Tried(core, e) ==> Apply(core, e) == Attempt(core, e.logId.index, e.payload.req)
    ensures !Tried(core, e) ==> Apply(core, e).core == core && Apply(core, e).audited.None?
    ensures Accepts(core, e) ==> Tried(core, e)
  {
    hide Attempt, Takes, KernelSnapshot.Hash;
  }

  // ---- ids and texts ------------------------------------------------------

  predicate AddsRecord(e: Entry) {
    e.payload.Normal? && (e.payload.req.event.AutoInsertRecord? || e.payload.req.event.AutoInsertRecordEncrypted?)
  }

  /** The text an entry brings for the corpus. */
  function TextOf(e: Entry): Option<Bytes> {
    if e.payload.Normal? && e.payload.req.event.AutoInsertRecord? && e.payload.req.event.metadata.Some?
       && ValidUtf8(e.payload.req.event.metadata.value)
    then e.payload.req.event.metadata else None
  }

  /** Ids are given for accepted automatic events only, and are the next slot of the pool;
      the hash is that of the state afterwards; the text goes under the id given. */
  lemma {:induction false} StepAnswer(core: Core, e: Entry)
    ensures var s := Apply(core, e);
      && s.reply.logIndex == e.logId.index && s.reply.stateHash == KernelSnapshot.Hash(s.core.kernel)
      && s.reply.recordId == (if s.audited.Some? && AddsRecord(e) then Some(|core.kernel.records|) else None)
      && s.reply.nodeId == (if s.audited.Some? && e.payload.req.event.AutoCreateNode? then Some(|core.kernel.nodes|) else None)
      && s.reply.edgeId == (if s.audited.Some? && e.payload.req.event.AutoCreateEdge? then Some(|core.kernel.edges|) else None)
      && s.core.corpus == (if s.audited.Some? && TextOf(e).Some? then core.corpus[|core.kernel.records| := TextOf(e).value] else core.corpus)
  {
    hide Kernel.Apply, KernelSnapshot.Hash, Target, Settle, Remember, ValidUtf8;
  }

  /** An accepted entry does to the kernel what its event says, in the namespace it is for. */
  lemma {:induction false} AcceptedEffect(core: Core, e: Entry)
    requires Registry.Ok(core.registry) && Accepts(core, e)
    ensures KernelEffects.Effect(core.kernel, e.payload.req.event, Home(core, e.payload.req), Apply(core, e).core.kernel)
    ensures Apply(core, e).reply.rejected.None? && !Apply(core, e).reply.deduplicated
  {
    var req := e.payload.req;
    AcceptsIff(core, e);
    TriedIs(core, e);
    AttemptParts(core, e.logId.index, req);
    TargetIsHome(core, req);
    hide Apply, Accepts, Target, Home, Kernel.Apply, KernelEffects.Effect, KernelSnapshot.Hash, IndexText, Remember, Settle;
    KernelEffects.ApplyEffect(core.kernel, req.event, Home(core, req));
  }

  /** The record an accepted insert stored is at the id the answer gives. */
  lemma {:induction false} InsertIsFound(core: Core, e: Entry)
    requires Registry.Ok(core.registry) && Accepts(core, e) && e.payload.req.event.AutoInsertRecord?
    ensures var s, event := Apply(core, e), e.payload.req.event;
      && s.reply.recordId.Some? && !IsLive(core.kernel.records, s.reply.recordId.value)
      && IsLive(s.core.kernel.records, s.reply.recordId.value)
      && var r := s.core.kernel.records[s.reply.recordId.value].value;
      && r.vector == event.vector && r.metadata == event.metadata && r.tag == event.tag && r.ns == e.payload.req.ns
      && !r.softDeleted && !r.encrypted && !r.shredded
  {
    AcceptsIff(core, e);
    StepAnswer(core, e);
    AcceptedEffect(core, e);
    hide Apply, Accepts, Kernel.Apply, KernelSnapshot.Hash;
  }

  // ---- names --------------------------------------------------------------

  /** An accepted create answers the id its name resolves to from then on: zero if and
      only if the name is "default", the old id if there was one, and otherwise an id
      that no name had. No other name is affected. */
  lemma {:induction false} CreateAnswers(core: Core, e: Entry, name: string)
    requires Registry.Ok(core.registry) && Accepts(core, e) && e.payload.req.event == Kernel.AutoCreateNamespace(name)
    ensures var s := Apply(core, e);
      && s.reply.namespaceId.Some?
      && var id, before, after := s.reply.namespaceId.value, core.registry, s.core.registry;
      && Registry.Resolve(after, name) == Some(id)
      && (id == 0 <==> name == "default")
      && (name in before.names ==> id == before.names[name])
      && (name != "default" && name !in before.names ==> id !in before.names.Values && before.nextId <= id < after.nextId)
      && (forall n: string :: n != name ==> Registry.Resolve(after, n) == Registry.Resolve(before, n))
  {
    AcceptsIff(core, e);
    TriedIs(core, e);
    AttemptParts(core, e.logId.index, e.payload.req);
    CreateNames(core.registry, name);
    hide Kernel.Apply, KernelSnapshot.Hash, IndexText, Remember, Registry.Create, Registry.Resolve, Accepts;
  }

  lemma {:induction false} CreateNames(before: Registry.Registry, name: string)
    requires Registry.Ok(before)
    ensures var (after, id) := Registry.Create(before, name);
      id.Some? ==>
        && Registry.Resolve(after, name) == id
        && (id.value == 0 <==> name == "default")
        && (name in before.names ==> id.value == before.names[name])
        && (name != "default" && name !in before.names ==> id.value !in before.names.Values && before.nextId <= id.value < after.nextId)
        && (forall n: string :: n != name ==> Registry.Resolve(after, n) == Registry.Resolve(before, n))
  {
    assert before.nextId !in before.names.Values;
  }

  /** A name is answered by no other event, and a drop takes away its own name alone. */
  lemma {:induction false} NamesKept(core: Core, e: Entry)
    requires Registry.Ok(core.registry)
    ensures var s, before := Apply(core, e), core.registry;
      && (s.reply.namespaceId.Some? ==> Accepts(core, e) && e.payload.req.event.AutoCreateNamespace?)
      && (!Accepts(core, e) || !(e.payload.req.event.AutoCreateNamespace? || e.payload.req.event.DropNamespace?) ==> s.core.registry == before)
      && (Accepts(core, e) && e.payload.req.event.DropNamespace? ==>
            && Registry.Resolve(s.core.registry, e.payload.req.event.name) == None
            && forall n: string :: n != e.payload.req.event.name ==> Registry.Resolve(s.core.registry, n) == Registry.Resolve(before, n))
  {
    AcceptsIff(core, e);
    TriedIs(core, e);
    if e.payload.Normal? { AttemptParts(core, e.logId.index, e.payload.req); }
    hide Kernel.Apply, KernelSnapshot.Hash, IndexText, Remember, Takes;
  }

  // ---- rejections ---------------------------------------------------------

  /** An entry that is not accepted changes nothing, but for the one refusal that locks
      the dimension. */
  lemma {:induction false} RejectedKeeps(core: Core, e: Entry)
    requires Registry.Ok(core.registry) && !Accepts(core, e)
    ensures var after := Apply(core, e).core;
      if Tried(core, e) && KernelInvariants.LocksDimension(core.kernel, e.payload.req.event, e.payload.req.ns)
      then after == core.(kernel := core.kernel.(dim := Some(|e.payload.req.event.vector|)))
      else after == core
  {
    AcceptsIff(core, e);
    TriedIs(core, e);
    NamesKept(core, e);
    StepAnswer(core, e);
    ReplicaProperties.ApplyDedup(core, e);
    if Tried(core, e) {
      var req := e.payload.req;
      AttemptParts(core, e.logId.index, req);
      TargetIsHome(core, req);
      KernelInvariants.RefusalKeepsStateIff(core.kernel, req.event, Home(core, req));
      hide Apply, Attempt, Accepts, Target, Kernel.Apply, KernelSnapshot.Hash, KernelInvariants.LocksDimension, TextOf;
      LocksInPlace(core, req);
    }
  }

  lemma {:induction false} LocksInPlace(core: Core, req: Request)
    ensures KernelInvariants.LocksDimension(core.kernel, req.event, Home(core, req)) <==> KernelInvariants.LocksDimension(core.kernel, req.event, req.ns)
  {
  }

  /** Why an entry is rejected. */
  lemma {:induction false} RejectionReason(core: Core, e: Entry)
    requires Registry.Ok(core.registry)
    ensures var why := Apply(core, e).reply.rejected;
      && (forall v :: why == Some(SchemaTooNew(v)) <==> e.payload.Normal? && v == e.payload.req.schemaVersion && v > 0)
      && (forall n :: why == Some(NamespaceMissing(n)) <==>
            Tried(core, e) && e.payload.req.event == Kernel.DropNamespace(n) && n != "default" && n !in core.registry.names)
      && (why == Some(NamespaceLimit) <==>
            Tried(core, e) && e.payload.req.event.AutoCreateNamespace? && e.payload.req.event.name != "default"
            && e.payload.req.event.name !in core.registry.names && core.registry.nextId >= 1024)
      && (forall err :: why == Some(Refused(err)) ==> Tried(core, e) && Kernel.Apply(core.kernel, e.payload.req.event, Home(core, e.payload.req)).err == Some(err))
      && (why.None? <==> Accepts(core, e) || !e.payload.Normal? || Apply(core, e).reply.deduplicated)
  {
    AcceptsIff(core, e);
    if Tried(core, e) {
      TargetIsHome(core, e.payload.req);
      hide Kernel.Apply, KernelSnapshot.Hash, IndexText, Remember, Accepts, Target, Settle, Home;
    } else {
      hide Attempt, KernelSnapshot.Hash, Accepts;
    }
  }

  // ---- the corpus over a run ----------------------------------------------

  /** Entry `j` put its text under record `i`. */
  predicate Indexes(entries: seq<Entry>, replies: seq<Reply>, j: int, i: nat) {
    0 <= j < |entries| == |replies| && replies[j].recordId == Some(i) && TextOf(entries[j]).Some?
  }

  /** The corpus holds exactly the texts of the records that were accepted with one,
      each under the id its insert was answered with. */
  lemma {:induction false} CorpusIsTexts(dim: nat, entries: seq<Entry>)
    ensures var t := Run(Fresh(dim), entries);
      && (forall i :: i in t.core.corpus ==> exists j :: Indexes(entries, t.replies, j, i))
      && (forall i, j :: Indexes(entries, t.replies, j, i) ==> i in t.core.corpus && t.core.corpus[i] == TextOf(entries[j]).value)
  {
    if entries == [] {
    } else {
      hide *;
      var n := |entries| - 1;
      var front, e := entries[..n], entries[n];
      CorpusIsTexts(dim, front);
      var t, u := Run(Fresh(dim), front), Run(Fresh(dim), entries);
      LastStep(dim, entries);
      StepAnswer(t.core, e);
      ReplicaProperties.RepliesMatch(Fresh(dim), entries);
      assert |u.replies| == n + 1;
      forall i | 0 <= i < n ensures ReplicaProperties.Rising(u.replies[i].recordId, u.replies[n].recordId) { }
      CorpusStep(front, t, u, e, |t.core.kernel.records|, Apply(t.core, e).audited.Some?);
      assert front + [e] == entries;
    }
  }

  lemma {:induction false} LastStep(dim: nat, entries: seq<Entry>)
    requires entries != []
    ensures var n := |entries| - 1;
      var t, u := Run(Fresh(dim), entries[..n]), Run(Fresh(dim), entries);
      var s := Apply(t.core, entries[n]);
      |t.replies| == n && u.replies == t.replies + [s.reply] && u.core == s.core
  {
    hide Apply, Fresh;
  }

  lemma {:induction false} CorpusStep(front: seq<Entry>, t: Trace, u: Trace, e: Entry, slot: nat, accepted: bool)
    requires |t.replies| == |front| && |u.replies| == |front| + 1 && u.replies[..|front|] == t.replies
    requires u.replies[|front|].recordId == if accepted && AddsRecord(e) then Some(slot) else None
    requires u.core.corpus == if accepted && TextOf(e).Some? then t.core.corpus[slot := TextOf(e).value] else t.core.corpus
    requires forall i :: 0 <= i < |front| ==> ReplicaProperties.Rising(u.replies[i].recordId, u.replies[|front|].recordId)
    requires forall i :: i in t.core.corpus ==> exists j :: Indexes(front, t.replies, j, i)
    requires forall i, j :: Indexes(front, t.replies, j, i) ==> i in t.core.corpus && t.core.corpus[i] == TextOf(front[j]).value
    ensures var entries := front + [e];
      && (forall i :: i in u.core.corpus ==> exists j :: Indexes(entries, u.replies, j, i))
      && (forall i, j :: Indexes(entries, u.replies, j, i) ==> i in u.core.corpus && u.core.corpus[i] == TextOf(entries[j]).value)
  {
    var n, entries := |front|, front + [e];
    assert TextOf(e).Some? ==> AddsRecord(e);
    hide TextOf;
    forall i | i in u.core.corpus ensures exists j :: Indexes(entries, u.replies, j, i) {
      if i in t.core.corpus && !(accepted && TextOf(e).Some? && i == slot) {
        var j :| Indexes(front, t.replies, j, i);
        assert Indexes(entries, u.replies, j, i);
      } else {
        assert Indexes(entries, u.replies, n, i);
      }
    }
    forall i, j | Indexes(entries, u.replies, j, i) ensures i in u.core.corpus && u.core.corpus[i] == TextOf(entries[j]).value {
      if j < n {
        assert Indexes(front, t.replies, j, i);
        assert ReplicaProperties.Rising(u.replies[j].recordId, u.replies[n].recordId);
      }
    }
  }
}
