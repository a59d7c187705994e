/**
  The registry and the kernel together. The kernel keeps no list of namespaces:
  a namespace exists there only by the records and graph nodes in it, and a
  request names the namespace by number. So what can be kept in step is that
  everything lives in the default namespace or in a registered one.
 */
module Namespaces {
  import opened Basics
  import Kernel
  import KernelInvariants
  import KernelSnapshot
  import opened RecordLists
  import Registry
  import opened Replica
  import ReplicaProperties

  /** The namespace an event puts something into, given the one it is applied to. */
  function Places(e: Kernel.Event, ns: nat): Option<nat> {
    match e
    case InsertRecord(_, _, _, _) => Some(ns)
    case AutoInsertRecord(_, _, _) => Some(ns)
    case InsertRecordEncrypted(_, _, _, _) => Some(ns)
    case AutoInsertRecordEncrypted(own, _, _, _) => Some(own)
    case CreateNode(_, _, _) => Some(ns)
    case AutoCreateNode(_, _) => Some(ns)
    case _ => None
  }

  predicate HasNode(nodes: seq<Option<Kernel.GraphNode>>, ns: nat, i: int) {
    IsLive(nodes, i) && nodes[i].value.ns == ns
  }

  /** Something listed, or some graph node, is in namespace `ns`. */
  ghost predicate Occupied(s: Kernel.State, ns: nat) {
    (exists i :: Linked(s.records, ns, i)) || (exists i :: HasNode(s.nodes, ns, i))
  }

  lemma {:induction false} InsertLinks(s: Kernel.State, e: Kernel.Event, ns: nat)
    requires e.InsertRecord? || e.AutoInsertRecord? || e.InsertRecordEncrypted? || e.AutoInsertRecordEncrypted?
    ensures var out := Kernel.Apply(s, e, ns);
      && out.state.nodes == s.nodes
      && (forall n: nat, i :: Linked(out.state.records, n, i) <==> Linked(s.records, n, i) || (out.err.None? && i == |s.records| && Places(e, ns) == Some(n)))
  {
    hide Linked, Kernel.PushRecord;
    forall r: Kernel.Record, k: Kernel.State | k.records == s.records && !r.softDeleted ensures Pushed(k, r) { PushLinks(k, r); }
    if e.InsertRecord? || e.AutoInsertRecord? {
      assert Pushed(s.(dim := Some(|e.vector|)), Kernel.Record(e.vector, e.metadata, e.tag, false, false, false, ns, None, None));
    }
  }

  ghost predicate Pushed(s: Kernel.State, r: Kernel.Record) {
    var t := Kernel.PushRecord(s, r);
    t.nodes == s.nodes && forall n: nat, i :: Linked(t.records, n, i) <==> Linked(s.records, n, i) || (i == |s.records| && r.ns == n)
  }

  lemma {:induction false} PushLinks(s: Kernel.State, r: Kernel.Record)
    requires !r.softDeleted
    ensures Pushed(s, r)
  {
  }

  lemma {:induction false} RemoveLinks(s: Kernel.State, id: nat, soft: bool)
    ensures var t := Kernel.Remove(s, id, soft).state;
      t.nodes == s.nodes && forall n: nat, i :: Linked(t.records, n, i) ==> Linked(s.records, n, i)
  {
    if IsLive(s.records, id) {
      var r, t := s.records[id].value, Kernel.Remove(s, id, soft).state;
      UnlinkShape(s, r);
      var u := Kernel.Unlink(s, r);
      hide Kernel.Unlink;
      forall n: nat, i | Linked(t.records, n, i) ensures Linked(s.records, n, i) {
        assert Spliced(s.records[i], u.records[i], i, r.next, r.prev);
      }
    }
  }

  lemma {:induction false} DropLinks(s: Kernel.State, ns: nat)
    ensures var t := Kernel.Drop(s, ns).state;
      && (forall n: nat, i :: Linked(t.records, n, i) ==> Linked(s.records, n, i))
      && (forall n: nat, i :: HasNode(t.nodes, n, i) ==> HasNode(s.nodes, n, i))
  {
    hide Kernel.WipeList;
    KernelInvariants.WipeListKeeps(s.records, Kernel.Head(s, ns));
  }

  lemma {:induction false} OtherLinks(s: Kernel.State, e: Kernel.Event, ns: nat)
    requires !MovesRecords(e)
    ensures var out := Kernel.Apply(s, e, ns);
      && (forall n: nat, i :: Linked(out.state.records, n, i) ==> Linked(s.records, n, i))
      && (forall n: nat, i :: HasNode(out.state.nodes, n, i) ==> HasNode(s.nodes, n, i) || Places(e, ns) == Some(n))
      && (forall n: nat :: out.err.None? && Places(e, ns) == Some(n) ==> HasNode(out.state.nodes, n, |s.nodes|))
  {
  }

  /** An event occupies no namespace but the one it places something into, and
      an accepted one does occupy that. */
  lemma {:induction false} OccupancyStep(s: Kernel.State, e: Kernel.Event, ns: nat)
    ensures var out := Kernel.Apply(s, e, ns);
      && (forall n: nat :: Occupied(out.state, n) ==> Occupied(s, n) || (out.err.None? && Places(e, ns) == Some(n)))
      && (forall n: nat :: out.err.None? && Places(e, ns) == Some(n) ==> Occupied(out.state, n))
  {
    var out := Kernel.Apply(s, e, ns);
    if out.err.Some? && Places(e, ns).Some? { RefusedPlaces(s, e, ns); }
    hide Kernel.Insert, Kernel.InsertEncrypted, Kernel.Remove, Kernel.Drop, Kernel.NewNode, Kernel.NewEdge, Linked, HasNode;
    if e.InsertRecord? || e.AutoInsertRecord? || e.InsertRecordEncrypted? || e.AutoInsertRecordEncrypted? {
      InsertLinks(s, e, ns);
      if out.err.None? { assert Linked(out.state.records, Places(e, ns).value, |s.records|); }
    } else if e.DeleteRecord? {
      RemoveLinks(s, e.id, false);
    } else if e.SoftDeleteRecord? {
      RemoveLinks(s, e.id, true);
    } else if e.DropNamespace? {
      DropLinks(s, ns);
    } else {
      OtherLinks(s, e, ns);
    }
  }

  lemma {:induction false} RefusedPlaces(s: Kernel.State, e: Kernel.Event, ns: nat)
    requires Places(e, ns).Some? && Kernel.Apply(s, e, ns).err.Some?
    ensures Kernel.Apply(s, e, ns).state.records == s.records && Kernel.Apply(s, e, ns).state.nodes == s.nodes
  {
  }

  // ---- registry and kernel ------------------------------------------------

  predicate Known(r: Registry.Registry, ns: nat) {
    ns == 0 || ns in r.names.Values
  }

  /** Everything lives in the default namespace or in a registered one. */
  ghost predicate Housed(core: Core) {
    forall ns: nat :: Occupied(core.kernel, ns) ==> Known(core.registry, ns)
  }

  /** The entry places nothing into a namespace without a name. */
  predicate Addressed(core: Core, e: Entry) {
    e.payload.Normal? ==>
      var ns := Places(e.payload.req.event, e.payload.req.ns);
      ns.Some? ==> Known(core.registry, ns.value)
  }

  /** The parts of an attempt: the kernel's outcome and the settled registry. */
  lemma {:induction false} AttemptParts(core: Core, index: nat, req: Request)
    requires Registry.Ok(core.registry)
    ensures var s, target := Attempt(core, index, req), Target(core.registry, req);
      && (target.1.None? ==> s.audited.None? && s.core.kernel == core.kernel)
      && (target.1.Some? ==>
            && s.core.kernel == Kernel.Apply(core.kernel, req.event, target.1.value).state
            && (s.audited.Some? <==> Kernel.Apply(core.kernel, req.event, target.1.value).err.None?))
      && s.core.registry == if s.audited.Some? then Settle(target.0, req.event, true) else core.registry
  {
    if req.event.AutoCreateNamespace? { CreateAccepted(core, req); }
    hide Kernel.Apply, KernelSnapshot.Hash, IndexText, Remember;
    assert req.event.AutoCreateNamespace? && Target(core.registry, req).1.None? ==> req.event.name !in core.registry.names;
    if req.event.AutoCreateNamespace? && Target(core.registry, req).1.None? {
      assert core.registry.names - {req.event.name} == core.registry.names;
    }
  }

  lemma {:induction false} CreateAccepted(core: Core, req: Request)
    requires Registry.Ok(core.registry) && req.event.AutoCreateNamespace?
    ensures var target := Target(core.registry, req).1; target.Some? ==> Kernel.Apply(core.kernel, req.event, target.value).err.None?
  {
  }

  /** An accepted drop leaves its namespace empty if and only if its list leads to all
      its records. */
  lemma {:induction false} DropClearsIff(s: Kernel.State, name: string, ns: nat)
    requires Kernel.Apply(s, Kernel.DropNamespace(name), ns).err.None?
    ensures !Occupied(Kernel.Apply(s, Kernel.DropNamespace(name), ns).state, ns) <==> AllListed(s, ns)
  {
    var t := Kernel.Drop(s, ns).state;
    DropEmptiesIff(s, ns);
    hide Kernel.Drop, AllListed, Linked;
    forall i ensures !HasNode(t.nodes, ns, i) {
      assert HasNode(t.nodes, ns, i) ==> i in Kernel.NodesIn(t, ns);
    }
    assert forall i :: Linked(t.records, ns, i) ==> i >= 0 by { LinkedIsSlot(t.records, ns); }
  }

  lemma {:induction false} LinkedIsSlot(rs: Pool, ns: nat)
    ensures forall i :: Linked(rs, ns, i) ==> i >= 0
  {
  }

  lemma {:induction false} KnownAfterRemove(r: Registry.Registry, name: string, ns: nat)
    requires Known(r, ns) && name in r.names && ns != r.names[name]
    ensures Known(Registry.Remove(r, name), ns)
  {
    if ns != 0 {
      var n :| n in r.names && r.names[n] == ns;
      assert n in Registry.Remove(r, name).names && Registry.Remove(r, name).names[n] == ns;
    }
  }

  lemma {:induction false} KnownAfterCreate(r: Registry.Registry, name: string, ns: nat)
    requires Known(r, ns)
    ensures Known(Registry.Create(r, name).0, ns)
  {
    if ns != 0 {
      var n :| n in r.names && r.names[n] == ns;
      assert n in Registry.Create(r, name).0.names && Registry.Create(r, name).0.names[n] == ns;
    }
  }

  lemma {:induction false} UnknownAfterRemove(r: Registry.Registry, name: string)
    requires Registry.Ok(r) && name in r.names
    ensures !Known(Registry.Remove(r, name), r.names[name])
  {
  }

  lemma {:induction false} DropStep(core: Core, index: nat, req: Request)
    requires Housed(core) && Registry.Ok(core.registry)
    requires req.event.DropNamespace? && Attempt(core, index, req).audited.Some?
    ensures req.event.name in core.registry.names
    ensures Housed(Attempt(core, index, req).core) <==> AllListed(core.kernel, core.registry.names[req.event.name])
  {
    AttemptParts(core, index, req);
    var s, name := Attempt(core, index, req), req.event.name;
    DefaultNotDropped(core, index, req);
    var id := core.registry.names[name];
    OccupancyStep(core.kernel, req.event, id);
    DropClearsIff(core.kernel, name, id);
    UnknownAfterRemove(core.registry, name);
    hide Attempt, Kernel.Apply, Occupied, Known, AllListed;
    forall ns: nat | Occupied(s.core.kernel, ns) && ns != id ensures Known(s.core.registry, ns) {
      KnownAfterRemove(core.registry, name, ns);
    }
  }

  lemma {:induction false} DefaultNotDropped(core: Core, index: nat, req: Request)
    requires req.event.DropNamespace? && Attempt(core, index, req).audited.Some?
    ensures req.event.name in core.registry.names && Target(core.registry, req) == (core.registry, Some(core.registry.names[req.event.name]))
  {
    hide KernelSnapshot.Hash, Kernel.WipeList, IndexText, Remember;
  }

  lemma {:induction false} CreateStep(core: Core, index: nat, req: Request)
    requires Housed(core) && Registry.Ok(core.registry) && req.event.AutoCreateNamespace?
    ensures Housed(Attempt(core, index, req).core)
  {
    AttemptParts(core, index, req);
    var s, target := Attempt(core, index, req), Target(core.registry, req);
    if target.1.Some? { OccupancyStep(core.kernel, req.event, target.1.value); }
    hide Attempt, Kernel.Apply, Occupied, Known;
    forall ns: nat | Occupied(s.core.kernel, ns) ensures Known(s.core.registry, ns) {
      KnownAfterCreate(core.registry, req.event.name, ns);
    }
  }

  lemma {:induction false} PlainStep(core: Core, index: nat, req: Request)
    requires Housed(core) && Registry.Ok(core.registry) && !req.event.AutoCreateNamespace?
    requires req.event.DropNamespace? ==> Attempt(core, index, req).audited.None?
    ensures var s, places := Attempt(core, index, req), Places(req.event, req.ns);
      Housed(s.core) <==> (s.audited.Some? && places.Some? ==> Known(core.registry, places.value))
  {
    AttemptParts(core, index, req);
    var target := Target(core.registry, req).1;
    if target.Some? { OccupancyStep(core.kernel, req.event, target.value); }
    hide Attempt, Kernel.Apply, Occupied, Known;
  }

  // ---- what is accepted, as guards ----------------------------------------

  predicate DimFits(s: Kernel.State, size: nat) {
    s.dim.None? || s.dim.value == size
  }

  predicate MetadataFits(metadata: Option<Bytes>) {
    metadata.Some? ==> |metadata.value| <= Kernel.MAX_METADATA_SIZE
  }

  predicate Sealable(s: Kernel.State, ciphertext: Bytes) {
    s.dim.Some? && |ciphertext| <= Kernel.MAX_METADATA_SIZE + 28
  }

  /** The record a graph node is for is there, in the node's namespace. */
  predicate Attachable(s: Kernel.State, record: Option<nat>, ns: nat) {
    record.Some? ==> IsLive(s.records, record.value) && s.records[record.value].value.ns == ns
  }

  predicate Joinable(s: Kernel.State, from: nat, to: nat) {
    IsLive(s.nodes, from) && IsLive(s.nodes, to) && s.nodes[from].value.ns == s.nodes[to].value.ns
  }

  /** What the kernel asks of an event that names no namespace. */
  predicate Takes(s: Kernel.State, e: Kernel.Event, ns: nat) {
    match e
    case InsertRecord(id, vector, metadata, _) => ns < Kernel.MAX_NAMESPACES && id == |s.records| && DimFits(s, |vector|) && MetadataFits(metadata)
    case AutoInsertRecord(vector, metadata, _) => ns < Kernel.MAX_NAMESPACES && DimFits(s, |vector|) && MetadataFits(metadata)
    case InsertRecordEncrypted(id, _, ciphertext, _) => ns < Kernel.MAX_NAMESPACES && id == |s.records| && Sealable(s, ciphertext)
    case AutoInsertRecordEncrypted(own, _, ciphertext, _) => own < Kernel.MAX_NAMESPACES && Sealable(s, ciphertext)
    case DeleteRecord(id) => IsLive(s.records, id)
    case SoftDeleteRecord(id) => IsLive(s.records, id)
    case UpdateRecordMetadata(id, _) => IsLive(s.records, id)
    case CreateNode(id, _, record) => ns < Kernel.MAX_NAMESPACES && id == |s.nodes| && Attachable(s, record, ns)
    case AutoCreateNode(_, record) => ns < Kernel.MAX_NAMESPACES && Attachable(s, record, ns)
    case CreateEdge(id, from, to, _) => id == |s.edges| && Joinable(s, from, to)
    case AutoCreateEdge(from, to, _) => Joinable(s, from, to)
    case DeleteNode(id) => IsLive(s.nodes, id)
    case DeleteEdge(id) => IsLive(s.edges, id)
    case _ => true
  }

  /** What a replica asks of an entry: a request it understands and has not seen, a name
      that is known or still has an id to get, and what the kernel asks. */
  predicate Accepts(core: Core, e: Entry) {
    && e.payload.Normal?
    && var req, names := e.payload.req, core.registry.names;
    && req.schemaVersion <= CURRENT_SCHEMA_VERSION
    && (req.requestId.Some? ==> req.requestId.value !in core.dedup)
    && match req.event
       case AutoCreateNamespace(name) => name == "default" || name in names || core.registry.nextId < Registry.MAX_COLLECTIONS
       case DropNamespace(name) => name != "default" && name in names
       case _ => Takes(core.kernel, req.event, req.ns)
  }

  lemma {:induction false} TakesIff(s: Kernel.State, e: Kernel.Event, ns: nat)
    requires !e.AutoCreateNamespace? && !e.DropNamespace?
    ensures Kernel.Apply(s, e, ns).err.None? <==> Takes(s, e, ns)
  {
    hide Kernel.PushRecord, Kernel.Unlink, Kernel.DeleteNodes, Kernel.Shred;
  }

  lemma {:induction false} NamesIff(core: Core, req: Request)
    requires Registry.Ok(core.registry) && (req.event.AutoCreateNamespace? || req.event.DropNamespace?)
    ensures var target, names, name := Target(core.registry, req).1, core.registry.names, req.event.name;
      target.Some? && Kernel.Apply(core.kernel, req.event, target.value).err.None? <==>
        if req.event.DropNamespace? then name != "default" && name in names
        else name == "default" || name in names || core.registry.nextId < Registry.MAX_COLLECTIONS
  {
    hide Kernel.WipeList, Kernel.DeleteNodes, Kernel.NodesIn;
  }

  /** An entry is accepted, and owed to the audit log, if and only if those guards hold. */
  lemma {:induction false} AcceptsIff(core: Core, e: Entry)
    requires Registry.Ok(core.registry)
    ensures Apply(core, e).audited.Some? <==> Accepts(core, e)
  {
    hide Attempt, Kernel.Apply, KernelSnapshot.Hash, Takes;
    if e.payload.Normal? {
      var req := e.payload.req;
      AttemptParts(core, e.logId.index, req);
      if req.event.AutoCreateNamespace? || req.event.DropNamespace? {
        NamesIff(core, req);
      } else {
        TakesIff(core.kernel, req.event, req.ns);
      }
    }
  }

  // ---- one entry, and runs ------------------------------------------------

  /** A namespace the entry drops is emptied by it. */
  ghost predicate ClearsFully(core: Core, e: Entry) {
    e.payload.Normal? && e.payload.req.event.DropNamespace? && e.payload.req.event.name in core.registry.names ==>
      AllListed(core.kernel, core.registry.names[e.payload.req.event.name])
  }

  ghost predicate HousesHere(core: Core, e: Entry) {
    Accepts(core, e) ==> Addressed(core, e) && ClearsFully(core, e)
  }

  lemma {:induction false} AttemptHoused(core: Core, index: nat, req: Request)
    requires Housed(core) && Registry.Ok(core.registry)
    ensures var s, places := Attempt(core, index, req), Places(req.event, req.ns);
      Housed(s.core) <==> (s.audited.Some? ==>
        && (places.Some? ==> Known(core.registry, places.value))
        && (req.event.DropNamespace? && req.event.name in core.registry.names ==> AllListed(core.kernel, core.registry.names[req.event.name])))
  {
    hide Attempt, Known, Occupied, AllListed, Housed;
    if req.event.AutoCreateNamespace? {
      CreateStep(core, index, req);
    } else if req.event.DropNamespace? && Attempt(core, index, req).audited.Some? {
      DropStep(core, index, req);
    } else {
      PlainStep(core, index, req);
    }
  }

  /** One entry keeps everything housed if and only if, when it is accepted, what it
      places goes into a namespace that has a name and what it drops is all listed. */
  lemma {:induction false} HousedStepIff(core: Core, e: Entry)
    requires Housed(core) && Registry.Ok(core.registry)
    ensures Housed(Apply(core, e).core) <==> HousesHere(core, e)
  {
    AcceptsIff(core, e);
    hide Attempt, Known, Housed, AllListed, KernelSnapshot.Hash, Accepts;
    if e.payload.Normal? && e.payload.req.schemaVersion <= CURRENT_SCHEMA_VERSION && !IsDuplicate(core, e.payload.req) {
      AttemptHoused(core, e.logId.index, e.payload.req);
    }
  }

  /** The promise does fail: a fresh node accepts an insert into any numbered namespace,
      and then holds a record in a namespace that no name leads to. */
  lemma {:induction false} UnaddressedAccepted(dim: nat, logId: LogId, vector: seq<int>, ns: nat)
    requires (dim == 0 || dim == |vector|) && 0 < ns < Kernel.MAX_NAMESPACES
    ensures var e := Entry(logId, Normal(Request(Kernel.AutoInsertRecord(vector, None, 0), None, 0, ns)));
      var s := Apply(Fresh(dim), e);
      Housed(Fresh(dim)) && s.audited.Some? && Occupied(s.core.kernel, ns) && !Housed(s.core)
  {
    hide KernelSnapshot.Hash;
    var core := Fresh(dim);
    var e := Entry(logId, Normal(Request(Kernel.AutoInsertRecord(vector, None, 0), None, 0, ns)));
    var s := Apply(core, e);
    assert forall n: nat, i :: !Linked(core.kernel.records, n, i) && !HasNode(core.kernel.nodes, n, i);
    assert Linked(s.core.kernel.records, ns, 0);
    assert s.core.registry.names == map[] && !Known(s.core.registry, ns);
  }

  ghost predicate HousedThroughout(dim: nat, entries: seq<Entry>) {
    forall k :: 0 <= k <= |entries| ==> Housed(Run(Fresh(dim), entries[..k]).core)
  }

  ghost predicate HousesAll(dim: nat, entries: seq<Entry>) {
    forall k :: 0 <= k < |entries| ==> HousesHere(Run(Fresh(dim), entries[..k]).core, entries[k])
  }

  lemma {:induction false} FreshHoused(dim: nat)
    ensures Housed(Fresh(dim)) && Registry.Ok(Fresh(dim).registry)
  {
    assert forall n: nat, i :: !Linked(Fresh(dim).kernel.records, n, i) && !HasNode(Fresh(dim).kernel.nodes, n, i);
  }

  lemma {:induction false} ThroughoutFront(dim: nat, entries: seq<Entry>)
    requires entries != []
    ensures var front := entries[..|entries| - 1];
      && (HousedThroughout(dim, entries) <==> HousedThroughout(dim, front) && Housed(Run(Fresh(dim), entries).core))
      && (HousedThroughout(dim, front) ==> Housed(Run(Fresh(dim), front).core))
  {
    hide Housed, Run, Fresh;
    var n := |entries| - 1;
    var front := entries[..n];
    assert entries[..n + 1] == entries && front[..n] == front;
    assert forall k :: 0 <= k <= n ==> front[..k] == entries[..k];
    if HousedThroughout(dim, front) && Housed(Run(Fresh(dim), entries).core) {
      forall k | 0 <= k <= n + 1 ensures Housed(Run(Fresh(dim), entries[..k]).core) {
        if k <= n { assert Housed(Run(Fresh(dim), front[..k]).core); }
      }
    }
    if HousedThroughout(dim, entries) {
      forall k | 0 <= k <= n ensures Housed(Run(Fresh(dim), front[..k]).core) {
        assert Housed(Run(Fresh(dim), entries[..k]).core);
      }
      assert Housed(Run(Fresh(dim), entries[..n + 1]).core);
    }
    if HousedThroughout(dim, front) { assert Housed(Run(Fresh(dim), front[..n]).core); }
  }

  lemma {:induction false} HousesFront(dim: nat, entries: seq<Entry>)
    requires entries != []
    ensures var front := entries[..|entries| - 1];
      HousesAll(dim, entries) <==> HousesAll(dim, front) && HousesHere(Run(Fresh(dim), front).core, entries[|entries| - 1])
  {
    hide HousesHere, Run, Fresh;
    var n := |entries| - 1;
    var front := entries[..n];
    assert forall k :: 0 <= k <= n ==> front[..k] == entries[..k];
    if HousesAll(dim, entries) {
      forall k | 0 <= k < n ensures HousesHere(Run(Fresh(dim), front[..k]).core, front[k]) {
        assert HousesHere(Run(Fresh(dim), entries[..k]).core, entries[k]);
      }
      assert HousesHere(Run(Fresh(dim), entries[..n]).core, entries[n]);
    }
    if HousesAll(dim, front) && HousesHere(Run(Fresh(dim), front).core, entries[n]) {
      forall k | 0 <= k <= n ensures HousesHere(Run(Fresh(dim), entries[..k]).core, entries[k]) {
        if k < n { assert HousesHere(Run(Fresh(dim), front[..k]).core, front[k]); }
      }
    }
  }

  /** Over every run at all, everything stored is at every point in the default namespace
      or in one that a name leads to, if and only if every accepted entry is addressed
      and every accepted drop finds all the records of its namespace listed. */
  lemma {:induction false} HousedRunIff(dim: nat, entries: seq<Entry>)
    ensures HousedThroughout(dim, entries) <==> HousesAll(dim, entries)
  {
    FreshHoused(dim);
    if entries != [] {
      hide *;
      var n := |entries| - 1;
      var front := entries[..n];
      HousedRunIff(dim, front);
      ThroughoutFront(dim, entries);
      HousesFront(dim, entries);
      ReplicaProperties.RegistryOk(Fresh(dim), front);
      RunLast(dim, entries);
      if HousedThroughout(dim, front) { HousedStepIff(Run(Fresh(dim), front).core, entries[n]); }
    }
  }

  lemma {:induction false} RunLast(dim: nat, entries: seq<Entry>)
    requires entries != []
    ensures Run(Fresh(dim), entries).core == Apply(Run(Fresh(dim), entries[..|entries| - 1]).core, entries[|entries| - 1]).core
  {
    hide Apply, Fresh;
  }

  // ---- runs that remove nothing twice -------------------------------------

  ghost predicate TidyHere(core: Core, e: Entry) {
    e.payload.Normal? ==> !RemovesTwice(core.kernel, e.payload.req.event)
  }

  ghost predicate Tidy(dim: nat, entries: seq<Entry>) {
    forall k :: 0 <= k < |entries| ==> TidyHere(Run(Fresh(dim), entries[..k]).core, entries[k])
  }

  lemma {:induction false} ListsStep(core: Core, e: Entry)
    requires ListsExact(core.kernel) && Registry.Ok(core.registry) && TidyHere(core, e)
    ensures ListsExact(Apply(core, e).core.kernel)
  {
    hide Attempt, ListsExact, RemovesTwice, KernelSnapshot.Hash, Kernel.Apply;
    if e.payload.Normal? {
      var req := e.payload.req;
      AttemptParts(core, e.logId.index, req);
      var target := Target(core.registry, req).1;
      if target.Some? { ApplyExact(core.kernel, req.event, target.value); }
    }
  }

  lemma {:induction false} TidyFront(dim: nat, entries: seq<Entry>)
    requires Tidy(dim, entries) && entries != []
    ensures var front := entries[..|entries| - 1]; Tidy(dim, front) && TidyHere(Run(Fresh(dim), front).core, entries[|entries| - 1])
  {
    hide TidyHere, Run, Fresh;
    var front := entries[..|entries| - 1];
    forall k | 0 <= k < |front| ensures TidyHere(Run(Fresh(dim), front[..k]).core, front[k]) { assert front[..k] == entries[..k]; }
  }

  lemma {:induction false} TidyLists(dim: nat, entries: seq<Entry>)
    requires Tidy(dim, entries)
    ensures var core := Run(Fresh(dim), entries).core; ListsExact(core.kernel) && Registry.Ok(core.registry)
  {
    if entries == [] {
      FreshHoused(dim);
      HistoryExact(dim, []);
    } else {
      hide *;
      var n := |entries| - 1;
      TidyFront(dim, entries);
      TidyLists(dim, entries[..n]);
      RunLast(dim, entries);
      ListsStep(Run(Fresh(dim), entries[..n]).core, entries[n]);
      ReplicaProperties.ApplyRegistry(Run(Fresh(dim), entries[..n]).core, entries[n]);
    }
  }

  lemma {:induction false} ExactClears(core: Core, e: Entry)
    requires ListsExact(core.kernel) && Registry.Ok(core.registry)
    ensures ClearsFully(core, e)
  {
    hide ListsExact, AllListed;
    if e.payload.Normal? && e.payload.req.event.DropNamespace? && e.payload.req.event.name in core.registry.names {
      ExactListed(core.kernel, core.registry.names[e.payload.req.event.name]);
    }
  }

  /** In a run that removes nothing twice, lists are exact, drops clear all there is, and
      what is left of the condition is that every accepted entry is addressed. */
  lemma {:induction false} TidyRunIff(dim: nat, entries: seq<Entry>)
    requires Tidy(dim, entries)
    ensures HousedThroughout(dim, entries) <==>
      forall k :: 0 <= k < |entries| ==> (var core := Run(Fresh(dim), entries[..k]).core; Accepts(core, entries[k]) ==> Addressed(core, entries[k]))
  {
    HousedRunIff(dim, entries);
    hide Accepts, Addressed, ClearsFully, Run, Fresh, HousedThroughout, TidyHere;
    forall k | 0 <= k < |entries| ensures ClearsFully(Run(Fresh(dim), entries[..k]).core, entries[k]) {
      forall j | 0 <= j < k ensures TidyHere(Run(Fresh(dim), entries[..k][..j]).core, entries[..k][j]) { assert entries[..k][..j] == entries[..j]; }
      TidyLists(dim, entries[..k]);
      ExactClears(Run(Fresh(dim), entries[..k]).core, entries[k]);
    }
  }
}
