/**
  The event-sourced kernel: pools of records, graph nodes and graph edges, the
  per-namespace record lists, the locked vector dimension, encryption keys and
  the metadata sidecar, with one transition function `Apply`.

  Sidecar keys and values are texts, held as their UTF-8 bytes.
  Record lists are kept as the source keeps them, with `next`/`prev` links in
  the records. Node and edge lists hold no more than the pools determine and
  are left out of the state.
 */
module Kernel {
  import opened Basics

  const MAX_NAMESPACES: nat := 1024
  const MAX_METADATA_SIZE: nat := 65536

  type KeyId = nat

  datatype Record = Record(
    vector: seq<int>,
    metadata: Option<Bytes>,
    tag: nat,
    softDeleted: bool,
    encrypted: bool,
    shredded: bool,
    ns: nat,
    next: Option<nat>,
    prev: Option<nat>)

  datatype GraphNode = GraphNode(kind: nat, record: Option<nat>, ns: nat)

  datatype GraphEdge = GraphEdge(kind: nat, from: nat, to: nat)

  datatype State = State(
    dim: Option<nat>,
    version: nat,
    records: seq<Option<Record>>,
    nodes: seq<Option<GraphNode>>,
    edges: seq<Option<GraphEdge>>,
    heads: map<nat, nat>,
    keys: map<KeyId, seq<nat>>,
    meta: map<Bytes, Bytes>)

  datatype Event =
    | InsertRecord(id: nat, vector: seq<int>, metadata: Option<Bytes>, tag: nat)
    | DeleteRecord(id: nat)
    | SoftDeleteRecord(id: nat)
    | CreateNode(id: nat, kind: nat, record: Option<nat>)
    | CreateEdge(id: nat, from: nat, to: nat, kind: nat)
    | DeleteNode(id: nat)
    | DeleteEdge(id: nat)
    | InsertRecordEncrypted(id: nat, keyId: KeyId, ciphertext: Bytes, tag: nat)
    | ShredKey(keyId: KeyId)
    | AutoInsertRecord(vector: seq<int>, metadata: Option<Bytes>, tag: nat)
    | AutoCreateNode(kind: nat, record: Option<nat>)
    | AutoCreateEdge(from: nat, to: nat, kind: nat)
    | AutoInsertRecordEncrypted(ownNs: nat, keyId: KeyId, ciphertext: Bytes, tag: nat)
    | UpdateRecordMetadata(id: nat, metadata: Option<Bytes>)
    | SetMeta(key: Bytes, value: Bytes)
    | AutoCreateNamespace(name: string)
    | DropNamespace(name: string)

  datatype Error =
    | InvalidOperation
    | NotFound
    | MetadataTooLarge
    | DimensionMismatch(expected: nat, found: nat)

  /** `state` is what the kernel holds afterwards, on success and on refusal. */
  datatype Outcome = Outcome(state: State, err: Option<Error>)

  function WithDim(dim: nat): State {
    State(if dim > 0 then Some(dim) else None, 0, [], [], [], map[], map[], map[])
  }

  function Done(s: State): Outcome {
    Outcome(s.(version := s.version + 1), None)
  }

  function Refuse(s: State, e: Error): Outcome {
    Outcome(s, Some(e))
  }

  // ---- record lists -------------------------------------------------------

  function Head(s: State, ns: nat): Option<nat> {
    if ns in s.heads then Some(s.heads[ns]) else None
  }

  function SetHead(heads: map<nat, nat>, ns: nat, to: Option<nat>): map<nat, nat> {
    match to
    case Some(i) => heads[ns := i]
    case None => heads - {ns}
  }

  function SetNext(records: seq<Option<Record>>, i: nat, to: Option<nat>): seq<Option<Record>> {
    if IsLive(records, i) then records[i := Some(records[i].value.(next := to))] else records
  }

  function SetPrev(records: seq<Option<Record>>, i: nat, to: Option<nat>): seq<Option<Record>> {
    if IsLive(records, i) then records[i := Some(records[i].value.(prev := to))] else records
  }

  /** Append a record to the pool and push it on the front of its namespace list. */
  function PushRecord(s: State, r: Record): State {
    var front := Head(s, r.ns);
    var linked := if front.Some? then SetPrev(s.records, front.value, Some(|s.records|)) else s.records;
    s.(records := linked + [Some(r.(next := front, prev := None))], heads := s.heads[r.ns := |s.records|])
  }

  /** Take a record out of its list with the links it carries, stale or not. */
  function Unlink(s: State, r: Record): State {
    var s1 := match r.prev
              case Some(p) => s.(records := SetNext(s.records, p, r.next))
              case None => s.(heads := SetHead(s.heads, r.ns, r.next));
    match r.next
    case Some(n) => s1.(records := SetPrev(s1.records, n, r.prev))
    case None => s1
  }

  /** Follow the links from `cursor` and empty every slot met. */
  function WipeList(records: seq<Option<Record>>, cursor: Option<nat>): seq<Option<Record>>
    decreases LiveCount(records)
  {
    if cursor.None? || !IsLive(records, cursor.value) then records
    else
      LiveCountDrop(records, cursor.value);
      WipeList(records[cursor.value := None], records[cursor.value].value.next)
  }

  // ---- pools --------------------------------------------------------------

  function DropEdgesAt(edges: seq<Option<GraphEdge>>, gone: set<nat>): seq<Option<GraphEdge>> {
    seq(|edges|, i requires 0 <= i < |edges| =>
      if edges[i].Some? && (edges[i].value.from in gone || edges[i].value.to in gone) then None else edges[i])
  }

  function DropNodes(nodes: seq<Option<GraphNode>>, gone: set<nat>): seq<Option<GraphNode>> {
    seq(|nodes|, i requires 0 <= i < |nodes| => if i in gone then None else nodes[i])
  }

  function NodesIn(s: State, ns: nat): set<nat> {
    set i | 0 <= i < |s.nodes| && s.nodes[i].Some? && s.nodes[i].value.ns == ns
  }

  /** Remove graph nodes together with every edge that touches one of them. */
  function DeleteNodes(s: State, gone: set<nat>): State {
    s.(nodes := DropNodes(s.nodes, gone), edges := DropEdgesAt(s.edges, gone))
  }

  function Shred(records: seq<Option<Record>>, ids: seq<nat>): seq<Option<Record>> {
    seq(|records|, i requires 0 <= i < |records| =>
      if records[i].Some? && i in ids then Some(records[i].value.(shredded := true, metadata := None)) else records[i])
  }

  // ---- transitions --------------------------------------------------------

  /** Both insert events, once the claimed id has been checked. The dimension
      is locked before the metadata size is looked at. */
  function Insert(s: State, vector: seq<int>, metadata: Option<Bytes>, tag: nat, ns: nat): Outcome {
    if s.dim.Some? && |vector| != s.dim.value then Refuse(s, DimensionMismatch(s.dim.value, |vector|))
    else
      var locked := s.(dim := Some(|vector|));
      if metadata.Some? && |metadata.value| > MAX_METADATA_SIZE then Refuse(locked, MetadataTooLarge)
      else Done(PushRecord(locked, Record(vector, metadata, tag, false, false, false, ns, None, None)))
  }

  function InsertEncrypted(s: State, keyId: KeyId, ciphertext: Bytes, tag: nat, ns: nat): Outcome {
    if |ciphertext| > MAX_METADATA_SIZE + 28 then Refuse(s, MetadataTooLarge)
    else if s.dim.None? then Refuse(s, InvalidOperation)
    else
      var zero := seq(s.dim.value, _ => 0);
      var s1 := PushRecord(s, Record(zero, Some(ciphertext), tag, false, true, false, ns, None, None));
      var known := if keyId in s.keys then s.keys[keyId] else [];
      Done(s1.(keys := s1.keys[keyId := known + [|s.records|]]))
  }

  function NewNode(s: State, kind: nat, record: Option<nat>, ns: nat): Outcome {
    if record.Some? && !IsLive(s.records, record.value) then Refuse(s, NotFound)
    else if record.Some? && s.records[record.value].value.ns != ns then Refuse(s, InvalidOperation)
    else Done(s.(nodes := s.nodes + [Some(GraphNode(kind, record, ns))]))
  }

  function NewEdge(s: State, from: nat, to: nat, kind: nat): Outcome {
    if !IsLive(s.nodes, from) || !IsLive(s.nodes, to) then Refuse(s, NotFound)
    else if s.nodes[from].value.ns != s.nodes[to].value.ns then Refuse(s, InvalidOperation)
    else Done(s.(edges := s.edges + [Some(GraphEdge(kind, from, to))]))
  }

  function Remove(s: State, id: nat, soft: bool): Outcome {
    if !IsLive(s.records, id) then Refuse(s, NotFound)
    else
      var s1 := Unlink(s, s.records[id].value);
      Done(if soft then s1.(records := s1.records[id := Some(s1.records[id].value.(softDeleted := true))])
           else s1.(records := s1.records[id := None]))
  }

  function Drop(s: State, ns: nat): Outcome {
    if ns == 0 || ns >= MAX_NAMESPACES then Refuse(s, InvalidOperation)
    else
      var s1 := s.(records := WipeList(s.records, Head(s, ns)), heads := s.heads - {ns});
      Done(DeleteNodes(s1, NodesIn(s1, ns)))
  }

  /** `KernelState::apply_event_ns`. */
  function Apply(s: State, e: Event, ns: nat): Outcome {
    match e
    case InsertRecord(id, vector, metadata, tag) =>
      if ns >= MAX_NAMESPACES || |s.records| != id then Refuse(s, InvalidOperation)
      else Insert(s, vector, metadata, tag, ns)
    case AutoInsertRecord(vector, metadata, tag) =>
      if ns >= MAX_NAMESPACES then Refuse(s, InvalidOperation)
      else Insert(s, vector, metadata, tag, ns)
    case InsertRecordEncrypted(id, keyId, ciphertext, tag) =>
      if ns >= MAX_NAMESPACES || |s.records| != id then Refuse(s, InvalidOperation)
      else InsertEncrypted(s, keyId, ciphertext, tag, ns)
    case AutoInsertRecordEncrypted(ownNs, keyId, ciphertext, tag) =>
      if ownNs >= MAX_NAMESPACES then Refuse(s, InvalidOperation)
      else InsertEncrypted(s, keyId, ciphertext, tag, ownNs)
    case DeleteRecord(id) => Remove(s, id, false)
    case SoftDeleteRecord(id) => Remove(s, id, true)
    case CreateNode(id, kind, record) =>
      if ns >= MAX_NAMESPACES || |s.nodes| != id then Refuse(s, InvalidOperation)
      else NewNode(s, kind, record, ns)
    case AutoCreateNode(kind, record) =>
      if ns >= MAX_NAMESPACES then Refuse(s, InvalidOperation)
      else NewNode(s, kind, record, ns)
    case CreateEdge(id, from, to, kind) =>
      if |s.edges| != id then Refuse(s, InvalidOperation)
      else NewEdge(s, from, to, kind)
    case AutoCreateEdge(from, to, kind) => NewEdge(s, from, to, kind)
    case DeleteNode(id) =>
      if !IsLive(s.nodes, id) then Refuse(s, NotFound)
      else Done(DeleteNodes(s, {id}))
    case DeleteEdge(id) =>
      if !IsLive(s.edges, id) then Refuse(s, NotFound)
      else Done(s.(edges := s.edges[id := None]))
    case ShredKey(keyId) =>
      var ids := if keyId in s.keys then s.keys[keyId] else [];
      Done(s.(records := Shred(s.records, ids), keys := s.keys - {keyId}))
    case UpdateRecordMetadata(id, metadata) =>
      if !IsLive(s.records, id) then Refuse(s, NotFound)
      else Done(s.(records := s.records[id := Some(s.records[id].value.(metadata := metadata))]))
    case SetMeta(key, value) => Done(s.(meta := s.meta[key := value]))
    case AutoCreateNamespace(_) =>
      if ns >= MAX_NAMESPACES then Refuse(s, InvalidOperation) else Done(s)
    case DropNamespace(_) => Drop(s, ns)
  }
}
