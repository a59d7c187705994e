/**
  The kernel snapshot codec and the state hash. The encoder writes record slots
  with their holes but graph nodes and edges without them, stores absent and
  empty metadata alike, and leaves the encryption key table out. `DecodeEncode`
  says exactly what comes back, and `RoundTripIff` exactly when it is the state
  that went in.
 */
module KernelSnapshot {
  import opened Basics
  import opened Kernel
  import opened KernelInvariants

  const ACTIVE_FORMAT_ID: nat := 1
  const MAX_DIM: nat := 65536
  const MAX_RECORDS: nat := 10000000
  const MAX_NODES: nat := 50000000
  const MAX_EDGES: nat := 200000000
  const MAX_META_ENTRIES: nat := 1000000

  /** A record as written: its id, and metadata as a length-prefixed blob. */
  datatype RecordImage = RecordImage(id: nat, body: Record, blob: Bytes)

  /** The fields of a snapshot in the order they are written. */
  datatype Image = Image(
    format: nat,
    version: nat,
    dim: nat,
    records: seq<Option<RecordImage>>,
    nodes: seq<(nat, GraphNode)>,
    edges: seq<(nat, GraphEdge)>,
    heads: map<nat, nat>,
    meta: map<Bytes, Bytes>)

  // ---- pools without their holes ------------------------------------------

  /** The live slots with their ids, holes dropped. */
  function Live<T>(pool: seq<Option<T>>): seq<(nat, T)> {
    if pool == [] then []
    else
      var n := |pool| - 1;
      Live(pool[..n]) + if pool[n].Some? then [(n, pool[n].value)] else []
  }

  /** Put each item back at its id in `size` empty slots; an id out of range is refused. */
  function Place<T>(items: seq<(nat, T)>, size: nat): Option<seq<Option<T>>> {
    if items == [] then Some(seq(size, _ => None))
    else
      var n := |items| - 1;
      var front := Place(items[..n], size);
      if front.None? || items[n].0 >= |front.value| then None
      else Some(front.value[items[n].0 := Some(items[n].1)])
  }

  /** Every live slot is below the number of live slots: holes only at the end. */
  ghost predicate Tight<T>(pool: seq<Option<T>>) {
    forall i :: 0 <= i < |pool| && pool[i].Some? ==> i < LiveCount(pool)
  }

  lemma {:induction false} LiveLength<T>(pool: seq<Option<T>>)
    ensures |Live(pool)| == LiveCount(pool)
  {
    if pool != [] { LiveLength(pool[..|pool| - 1]); }
  }

  /** `placed` is as much of the pool as fits into `size` slots, or a refusal when a live
      slot does not fit. */
  ghost predicate PlacedAs<T>(pool: seq<Option<T>>, size: nat, placed: Option<seq<Option<T>>>) {
    if exists i :: size <= i < |pool| && pool[i].Some? then placed == None
    else placed.Some? && |placed.value| == size
         && forall i :: 0 <= i < size ==> placed.value[i] == if i < |pool| then pool[i] else None
  }

  /** Placing the live slots of a pool into `size` slots restores as much of the
      pool as fits, and is refused when a live slot does not fit. */
  lemma {:induction false} PlaceLive<T>(pool: seq<Option<T>>, size: nat)
    ensures PlacedAs(pool, size, Place(Live(pool), size))
  {
    if pool != [] {
      hide PlacedAs;
      var n := |pool| - 1;
      var front := pool[..n];
      PlaceLive(front, size);
      if pool[n].Some? {
        assert Live(pool)[..|Live(front)|] == Live(front);
        PlacedPush(front, size, Place(Live(front), size), pool[n]);
      } else {
        assert Live(pool) == Live(front);
        PlacedPush(front, size, Place(Live(front), size), pool[n]);
      }
      assert pool == front + [pool[n]];
    }
  }

  lemma {:induction false} PlacedPush<T>(front: seq<Option<T>>, size: nat, placed: Option<seq<Option<T>>>, last: Option<T>)
    requires PlacedAs(front, size, placed)
    ensures PlacedAs(front + [last], size,
      if last.None? then placed
      else if placed.None? || |front| >= |placed.value| then None else Some(placed.value[|front| := last]))
  {
    var pool := front + [last];
    assert forall i :: 0 <= i < |front| ==> pool[i] == front[i];
    if i :| size <= i < |front| && front[i].Some? { assert pool[i].Some?; }
    if last.Some? && |front| >= size { assert pool[|front|].Some?; }
  }

  /** Live slots and their ids determine a pool of known length. */
  lemma {:induction false} LiveInjective<T>(a: seq<Option<T>>, b: seq<Option<T>>)
    requires |a| == |b| && Live(a) == Live(b)
    ensures a == b
  {
    PlaceLive(a, |a|);
    PlaceLive(b, |b|);
  }

  /** Dropping trailing holes keeps the live slots. */
  lemma {:induction false} LiveOfTight<T>(pool: seq<Option<T>>, n: nat)
    requires n <= |pool| && forall i :: n <= i < |pool| ==> pool[i].None?
    ensures Live(pool[..n]) == Live(pool) && LiveCount(pool[..n]) == LiveCount(pool)
  {
    if n < |pool| {
      var front := pool[..|pool| - 1];
      LiveOfTight(front, n);
      assert front[..n] == pool[..n];
    } else {
      assert pool[..n] == pool;
    }
  }

  // ---- encode and decode --------------------------------------------------

  function EncodeRecord(i: nat, slot: Option<Record>): Option<RecordImage> {
    if slot.None? then None
    else Some(RecordImage(i, slot.value.(metadata := None), if slot.value.metadata.Some? then slot.value.metadata.value else []))
  }

  function EncodeRecords(pool: seq<Option<Record>>): seq<Option<RecordImage>> {
    seq(|pool|, i requires 0 <= i < |pool| => EncodeRecord(i, pool[i]))
  }

  /** `encode_state`. */
  function Encode(s: State): Image {
    Image(ACTIVE_FORMAT_ID, s.version, if s.dim.Some? then s.dim.value else 0,
          EncodeRecords(s.records), Live(s.nodes), Live(s.edges), s.heads, s.meta)
  }

  predicate RecordReadable(img: Image, i: nat, slot: Option<RecordImage>) {
    slot.Some? ==>
      && slot.value.id == i
      && |slot.value.body.vector| == img.dim
      && |slot.value.blob| <= MAX_METADATA_SIZE
      && slot.value.body.ns < MAX_NAMESPACES
  }

  function DecodeRecord(slot: Option<RecordImage>): Option<Record> {
    if slot.None? then None
    else Some(slot.value.body.(metadata := if slot.value.blob == [] then None else Some(slot.value.blob)))
  }

  predicate RecordsReadable(img: Image) {
    |img.records| <= MAX_RECORDS && forall i :: 0 <= i < |img.records| ==> RecordReadable(img, i, img.records[i])
  }

  function DecodeRecords(slots: seq<Option<RecordImage>>): seq<Option<Record>> {
    seq(|slots|, i requires 0 <= i < |slots| => DecodeRecord(slots[i]))
  }

  predicate NodesReadable(nodes: seq<(nat, GraphNode)>, records: seq<Option<Record>>) {
    && |nodes| <= MAX_NODES && Place(nodes, |nodes|).Some?
    && forall i :: 0 <= i < |nodes| ==>
         nodes[i].1.ns < MAX_NAMESPACES && (nodes[i].1.record.Some? ==> IsLive(records, nodes[i].1.record.value))
  }

  predicate EdgesReadable(edges: seq<(nat, GraphEdge)>, nodes: seq<Option<GraphNode>>) {
    && |edges| <= MAX_EDGES && Place(edges, |edges|).Some?
    && forall i :: 0 <= i < |edges| ==> IsLive(nodes, edges[i].1.from) && IsLive(nodes, edges[i].1.to)
  }

  predicate HeadsReadable(img: Image) {
    forall ns :: ns in img.heads ==> ns < MAX_NAMESPACES && img.heads[ns] < |img.records|
  }

  /** A text is read back if it fits and is well-formed UTF-8. */
  predicate TextReadable(b: Bytes) {
    |b| <= MAX_METADATA_SIZE && ValidUtf8(b)
  }

  predicate MetaReadable(meta: map<Bytes, Bytes>) {
    |meta| <= MAX_META_ENTRIES && forall k :: k in meta ==> TextReadable(k) && TextReadable(meta[k])
  }

  /** `decode_state` on an untrusted snapshot; `None` is a refusal. */
  function Decode(img: Image): Option<State> {
    if img.format != ACTIVE_FORMAT_ID || img.dim > MAX_DIM || !RecordsReadable(img) then None
    else if !NodesReadable(img.nodes, DecodeRecords(img.records)) then None
    else
      var nodes := Place(img.nodes, |img.nodes|).value;
      if !EdgesReadable(img.edges, nodes) || !HeadsReadable(img) || !MetaReadable(img.meta) then None
      else
        Some(State(if img.dim > 0 then Some(img.dim) else None, img.version, DecodeRecords(img.records),
                   nodes, Place(img.edges, |img.edges|).value, img.heads, map[], img.meta))
  }

  // ---- what survives ------------------------------------------------------

  /** The snapshot of `s` can be read back at all. */
  ghost predicate Decodable(s: State) {
    && (s.dim.Some? ==> s.dim.value <= MAX_DIM)
    && |s.records| <= MAX_RECORDS && LiveCount(s.nodes) <= MAX_NODES && LiveCount(s.edges) <= MAX_EDGES
    && MetadataFits(s) && NodeRecordsLive(s)
    && Tight(s.nodes) && Tight(s.edges)
    && MetaReadable(s.meta)
  }

  predicate MetadataFits(s: State) {
    forall i :: 0 <= i < |s.records| && s.records[i].Some? && s.records[i].value.metadata.Some? ==>
      |s.records[i].value.metadata.value| <= MAX_METADATA_SIZE
  }

  /** No graph node still refers to a record that was deleted. */
  predicate NodeRecordsLive(s: State) {
    forall i :: 0 <= i < |s.nodes| && s.nodes[i].Some? && s.nodes[i].value.record.Some? ==>
      IsLive(s.records, s.nodes[i].value.record.value)
  }

  function Normal(slot: Option<Record>): Option<Record> {
    if slot.Some? && slot.value.metadata == Some([]) then Some(slot.value.(metadata := None)) else slot
  }

  function NormalRecords(pool: seq<Option<Record>>): seq<Option<Record>> {
    seq(|pool|, i requires 0 <= i < |pool| => Normal(pool[i]))
  }

  /** What reading the snapshot of `s` back gives. */
  function Restored(s: State): State {
    LiveCountBound(s.nodes);
    LiveCountBound(s.edges);
    s.(dim := if s.dim == Some(0) then None else s.dim,
       records := NormalRecords(s.records),
       nodes := s.nodes[..LiveCount(s.nodes)],
       edges := s.edges[..LiveCount(s.edges)],
       keys := map[])
  }

  lemma {:induction false} PlaceBack<T>(pool: seq<Option<T>>)
    ensures |Live(pool)| == LiveCount(pool) <= |pool|
    ensures Place(Live(pool), |Live(pool)|) == if Tight(pool) then Some(pool[..LiveCount(pool)]) else None
  {
    LiveLength(pool);
    LiveCountBound(pool);
    PlaceLive(pool, LiveCount(pool));
    if Tight(pool) {
      assert Place(Live(pool), |Live(pool)|).value == pool[..LiveCount(pool)];
    }
  }

  /** Items of the live list are the live slots. */
  lemma {:induction false} LiveItems<T>(pool: seq<Option<T>>)
    ensures forall k :: 0 <= k < |Live(pool)| ==> IsLive(pool, Live(pool)[k].0) && pool[Live(pool)[k].0] == Some(Live(pool)[k].1)
    ensures forall i :: 0 <= i < |pool| && pool[i].Some? ==> (i, pool[i].value) in Live(pool)
  {
    if pool != [] {
      var front := pool[..|pool| - 1];
      LiveItems(front);
      assert forall i :: 0 <= i < |front| ==> front[i] == pool[i];
    }
  }

  lemma {:induction false} DecodedRecords(s: State)
    ensures DecodeRecords(Encode(s).records) == Restored(s).records
    ensures forall i :: IsLive(Restored(s).records, i) <==> IsLive(s.records, i)
  {
  }

  lemma {:induction false} EncodedRecords(s: State)
    requires Valid(s)
    ensures RecordsReadable(Encode(s)) <==> |s.records| <= MAX_RECORDS && MetadataFits(s)
  {
    var img := Encode(s);
    if RecordsReadable(img) {
      forall i | 0 <= i < |s.records| && s.records[i].Some? && s.records[i].value.metadata.Some?
        ensures |s.records[i].value.metadata.value| <= MAX_METADATA_SIZE
      {
        assert RecordReadable(img, i, img.records[i]);
      }
    }
  }

  lemma {:induction false} EncodedNodes(s: State)
    requires Valid(s)
    ensures NodesReadable(Encode(s).nodes, Restored(s).records) <==> LiveCount(s.nodes) <= MAX_NODES && Tight(s.nodes) && NodeRecordsLive(s)
  {
    PlaceBack(s.nodes);
    LiveItems(s.nodes);
    DecodedRecords(s);
    var nodes := Live(s.nodes);
    if NodesReadable(nodes, Restored(s).records) {
      forall i | 0 <= i < |s.nodes| && s.nodes[i].Some? && s.nodes[i].value.record.Some?
        ensures IsLive(s.records, s.nodes[i].value.record.value)
      {
        var k :| 0 <= k < |nodes| && nodes[k] == (i, s.nodes[i].value);
      }
    }
  }

  lemma {:induction false} EncodedEdges(s: State)
    requires Valid(s) && Tight(s.nodes)
    ensures LiveCount(s.nodes) <= |s.nodes|
    ensures EdgesReadable(Encode(s).edges, s.nodes[..LiveCount(s.nodes)]) <==> LiveCount(s.edges) <= MAX_EDGES && Tight(s.edges)
  {
    LiveCountBound(s.nodes);
    PlaceBack(s.edges);
    LiveItems(s.edges);
  }

  lemma {:induction false} EncodedHeads(s: State)
    requires Valid(s)
    ensures HeadsReadable(Encode(s))
  {
  }

  lemma {:induction false} DecodesIff(s: State)
    requires Valid(s)
    ensures Decode(Encode(s)).Some? <==> Decodable(s)
  {
    EncodedRecords(s);
    DecodedRecords(s);
    EncodedNodes(s);
    EncodedHeads(s);
    PlaceBack(s.nodes);
    if Tight(s.nodes) { EncodedEdges(s); }
  }

  lemma {:induction false} DecodedState(s: State)
    requires Tight(s.nodes) && Tight(s.edges) && Decode(Encode(s)).Some?
    ensures Decode(Encode(s)).value == Restored(s)
  {
    hide RecordsReadable, NodesReadable, EdgesReadable, HeadsReadable, MetaReadable;
    hide Place, Live, EncodeRecords, DecodeRecords, NormalRecords, LiveCount, Tight;
    DecodedRecords(s);
    PlaceBack(s.nodes);
    PlaceBack(s.edges);
  }

  /** Reading a snapshot back succeeds exactly on decodable states, and gives `Restored`. */
  lemma {:induction false} DecodeEncode(s: State)
    requires Valid(s)
    ensures Decode(Encode(s)) == if Decodable(s) then Some(Restored(s)) else None
  {
    DecodesIff(s);
    if Decodable(s) { DecodedState(s); }
  }

  /** Every link of a live record stays inside the pool. */
  predicate LinksInside(img: Image) {
    forall i :: 0 <= i < |img.records| && img.records[i].Some? ==>
      InPool(img.records[i].value.body.next, |img.records|) && InPool(img.records[i].value.body.prev, |img.records|)
  }

  lemma {:induction false} PlacedFrom<T>(items: seq<(nat, T)>, size: nat)
    requires Place(items, size).Some?
    ensures var p := Place(items, size).value;
      |p| == size && forall i :: 0 <= i < size && p[i].Some? ==> exists k :: 0 <= k < |items| && items[k] == (i, p[i].value)
  {
    if items != [] {
      var n := |items| - 1;
      PlacedFrom(items[..n], size);
      var p, q := Place(items, size).value, Place(items[..n], size).value;
      forall i | 0 <= i < size && p[i].Some? ensures exists k :: 0 <= k < |items| && items[k] == (i, p[i].value) {
        if i != items[n].0 {
          var k :| 0 <= k < n && items[..n][k] == (i, q[i].value);
          assert items[k] == (i, p[i].value);
        } else {
          assert items[n] == (i, p[i].value);
        }
      }
    }
  }

  /** Whatever image a node accepts, the state it then holds is well formed if and only if
      the links in the image stay inside the pool and a dimension comes with the
      records; everything else is checked when it is read. */
  lemma {:induction false} DecodedValidIff(img: Image)
    requires Decode(img).Some?
    ensures Valid(Decode(img).value) <==> LinksInside(img) && (img.dim > 0 || forall i :: 0 <= i < |img.records| ==> img.records[i].None?)
  {
    var s := Decode(img).value;
    PlacedFrom(img.nodes, |img.nodes|);
    PlacedFrom(img.edges, |img.edges|);
    hide Place;
    forall i | 0 <= i < |s.nodes| && s.nodes[i].Some? ensures s.nodes[i].value.ns < MAX_NAMESPACES && InPool(s.nodes[i].value.record, |s.records|) {
      var k :| 0 <= k < |img.nodes| && img.nodes[k] == (i, s.nodes[i].value);
    }
    forall i | 0 <= i < |s.edges| && s.edges[i].Some? ensures IsLive(s.nodes, s.edges[i].value.from) && IsLive(s.nodes, s.edges[i].value.to) {
      var k :| 0 <= k < |img.edges| && img.edges[k] == (i, s.edges[i].value);
    }
    forall i | 0 <= i < |s.records| ensures s.records[i].Some? <==> img.records[i].Some? { }
    if Valid(s) {
      forall i | 0 <= i < |img.records| && img.records[i].Some?
        ensures InPool(img.records[i].value.body.next, |img.records|) && InPool(img.records[i].value.body.prev, |img.records|) && img.dim > 0
      {
        assert RecordOk(s, s.records[i].value);
      }
    }
  }

  /** Nothing in `s` is lost by writing it and reading it back. */
  ghost predicate Faithful(s: State) {
    && Decodable(s)
    && Full(s.nodes) && Full(s.edges)
    && s.keys == map[] && s.dim != Some(0)
    && forall i :: 0 <= i < |s.records| && s.records[i].Some? ==> s.records[i].value.metadata != Some([])
  }

  /** A snapshot restores the very state it was taken of if and only if that state is faithful. */
  lemma {:induction false} RoundTripIff(s: State)
    requires Valid(s)
    ensures Decode(Encode(s)) == Some(s) <==> Faithful(s)
  {
    DecodeEncode(s);
    LiveCountFull(s.nodes);
    LiveCountFull(s.edges);
    LiveCountBound(s.nodes);
    LiveCountBound(s.edges);
    var t := Restored(s);
    if t == s {
      forall i | 0 <= i < |s.records| && s.records[i].Some? ensures s.records[i].value.metadata != Some([]) {
        assert t.records[i] == Normal(s.records[i]);
      }
    }
    if Faithful(s) {
      assert t.records == s.records;
    }
  }

  /** A state that is read back as another one: a graph node was created and deleted.
      Its slot is gone, so its id will be handed out again. */
  lemma {:induction false} DeletedNodeForgotten(dim: nat, kind: nat)
    requires 0 < dim <= MAX_DIM
    ensures var s := Apply(Apply(WithDim(dim), AutoCreateNode(kind, None), 0).state, DeleteNode(0), 0).state;
      |s.nodes| == 1 && Decode(Encode(s)) == Some(s.(nodes := []))
  {
    var s := Apply(Apply(WithDim(dim), AutoCreateNode(kind, None), 0).state, DeleteNode(0), 0).state;
    assert s == WithDim(dim).(version := 2, nodes := [None]) by { assert s.nodes == [None]; }
    hide Apply;
    assert s.nodes[..0] == [] && LiveCount(s.nodes) == 0;
    DecodeEncode(s);
    hide Decode, Encode;
    assert Restored(s) == s.(nodes := []);
  }

  // ---- the state hash -----------------------------------------------------

  datatype RecordView = RecordView(vector: seq<int>, metadata: Option<Bytes>, tag: nat, encrypted: bool)
  datatype NodeView = NodeView(kind: nat, record: Option<nat>)

  /** What the BLAKE3 state hash is computed over; the hash stands for this value. */
  datatype StateHash = StateHash(version: nat, records: seq<(nat, RecordView)>, nodes: seq<(nat, NodeView)>, edges: seq<(nat, GraphEdge)>)

  predicate Active(slot: Option<Record>) {
    slot.Some? && !slot.value.softDeleted && !slot.value.shredded
  }

  function ViewRecord(slot: Option<Record>): Option<RecordView> {
    if Active(slot) then Some(RecordView(slot.value.vector, slot.value.metadata, slot.value.tag, slot.value.encrypted)) else None
  }

  function ViewRecords(pool: seq<Option<Record>>): seq<Option<RecordView>> {
    seq(|pool|, i requires 0 <= i < |pool| => ViewRecord(pool[i]))
  }

  function ViewNodes(items: seq<(nat, GraphNode)>): seq<(nat, NodeView)> {
    seq(|items|, i requires 0 <= i < |items| => (items[i].0, NodeView(items[i].1.kind, items[i].1.record)))
  }

  /** `hash_state_blake3`. */
  function Hash(s: State): StateHash {
    StateHash(s.version, Live(ViewRecords(s.records)), ViewNodes(Live(s.nodes)), Live(s.edges))
  }

  // ---- when two states hash alike -----------------------------------------

  function SlotAt<T>(pool: seq<Option<T>>, i: nat): Option<T> {
    if i < |pool| then pool[i] else None
  }

  function PadTo<T>(pool: seq<Option<T>>, n: nat): seq<Option<T>>
    requires |pool| <= n
  {
    pool + seq(n - |pool|, _ => None)
  }

  lemma {:induction false} LivePadded<T>(pool: seq<Option<T>>, n: nat)
    requires |pool| <= n
    ensures Live(PadTo(pool, n)) == Live(pool)
  {
    LiveOfTight(PadTo(pool, n), |pool|);
    assert PadTo(pool, n)[..|pool|] == pool;
  }

  /** The live slots with their ids are the same if and only if every slot is. */
  lemma {:induction false} LiveAlike<T>(a: seq<Option<T>>, b: seq<Option<T>>)
    ensures Live(a) == Live(b) <==> forall i: nat :: SlotAt(a, i) == SlotAt(b, i)
  {
    var n := if |a| < |b| then |b| else |a|;
    LivePadded(a, n);
    LivePadded(b, n);
    hide Live;
    if Live(a) == Live(b) {
      LiveInjective(PadTo(a, n), PadTo(b, n));
      forall i: nat ensures SlotAt(a, i) == SlotAt(b, i) {
        if i < n { assert PadTo(a, n)[i] == SlotAt(a, i) && PadTo(b, n)[i] == SlotAt(b, i); }
      }
    }
    if forall i: nat :: SlotAt(a, i) == SlotAt(b, i) {
      forall i | 0 <= i < n ensures PadTo(a, n)[i] == PadTo(b, n)[i] {
        assert SlotAt(a, i) == SlotAt(b, i);
      }
      assert PadTo(a, n) == PadTo(b, n);
    }
  }

  function NodeViews(pool: seq<Option<GraphNode>>): seq<Option<NodeView>> {
    seq(|pool|, i requires 0 <= i < |pool| => if pool[i].Some? then Some(NodeView(pool[i].value.kind, pool[i].value.record)) else None)
  }

  lemma {:induction false} LiveNodeViews(pool: seq<Option<GraphNode>>)
    ensures ViewNodes(Live(pool)) == Live(NodeViews(pool))
  {
    if pool != [] {
      var front := pool[..|pool| - 1];
      LiveNodeViews(front);
      assert NodeViews(pool)[..|pool| - 1] == NodeViews(front);
    }
  }

  /** Slot `i` holds an active record in both states, with the same content, or in neither. */
  predicate SameActive(a: State, b: State, i: nat) {
    var x, y := SlotAt(a.records, i), SlotAt(b.records, i);
    var shown, shownToo := x.Some? && !x.value.softDeleted && !x.value.shredded, y.Some? && !y.value.softDeleted && !y.value.shredded;
    && (shown <==> shownToo)
    && (shown && shownToo ==>
          x.value.vector == y.value.vector && x.value.metadata == y.value.metadata && x.value.tag == y.value.tag && x.value.encrypted == y.value.encrypted)
  }

  /** Slot `i` holds a node in both states, of one kind and for one record, or in neither. */
  predicate SameNode(a: State, b: State, i: nat) {
    var x, y := SlotAt(a.nodes, i), SlotAt(b.nodes, i);
    x.Some? == y.Some? && (x.Some? ==> x.value.kind == y.value.kind && x.value.record == y.value.record)
  }

  /** Two states hash alike if and only if they have the same version, the same active
      records, the same nodes up to their namespaces, and the same edges, each under
      the same id. Namespaces, lists, keys and the sidecar are not covered. */
  lemma {:induction false} HashAlike(a: State, b: State)
    ensures Hash(a) == Hash(b) <==>
      && a.version == b.version
      && (forall i: nat :: SameActive(a, b, i))
      && (forall i: nat :: SameNode(a, b, i))
      && (forall i: nat :: SlotAt(a.edges, i) == SlotAt(b.edges, i))
  {
    LiveAlike(ViewRecords(a.records), ViewRecords(b.records));
    LiveNodeViews(a.nodes);
    LiveNodeViews(b.nodes);
    LiveAlike(NodeViews(a.nodes), NodeViews(b.nodes));
    LiveAlike(a.edges, b.edges);
    hide Live, ViewNodes;
    forall i: nat ensures SlotAt(ViewRecords(a.records), i) == SlotAt(ViewRecords(b.records), i) <==> SameActive(a, b, i) { }
    forall i: nat ensures SlotAt(NodeViews(a.nodes), i) == SlotAt(NodeViews(b.nodes), i) <==> SameNode(a, b, i) { }
    hide SlotAt, SameActive, SameNode, ViewRecords, NodeViews;
  }

  /** Decode and check the recorded hash, as snapshot install and restart both do. */
  function Accept(img: Image, hash: StateHash): Option<State> {
    var s := Decode(img);
    if s.Some? && Hash(s.value) == hash then s else None
  }

  /** No record that the hash covers has empty metadata. */
  predicate HashStable(s: State) {
    forall i :: 0 <= i < |s.records| && Active(s.records[i]) ==> s.records[i].value.metadata != Some([])
  }

  lemma {:induction false} RestoredHash(s: State)
    requires Tight(s.nodes) && Tight(s.edges)
    ensures Hash(Restored(s)) == Hash(s) <==> HashStable(s)
  {
    var t := Restored(s);
    LiveCountBound(s.nodes);
    LiveCountBound(s.edges);
    LiveOfTight(s.nodes, LiveCount(s.nodes));
    LiveOfTight(s.edges, LiveCount(s.edges));
    var a, b := ViewRecords(t.records), ViewRecords(s.records);
    if HashStable(s) {
      assert a == b;
    } else {
      var i :| 0 <= i < |s.records| && Active(s.records[i]) && s.records[i].value.metadata == Some([]);
      assert a[i] != b[i];
      if Live(a) == Live(b) { LiveInjective(a, b); }
    }
  }

  /** What a node that receives the snapshot of `s` ends up with: it refuses, or
      it restores `Restored(s)`, which differs from `s` unless `s` is faithful. */
  lemma {:induction false} AcceptEncode(s: State)
    requires Valid(s)
    ensures Accept(Encode(s), Hash(s)) == if Decodable(s) && HashStable(s) then Some(Restored(s)) else None
    ensures Accept(Encode(s), Hash(s)) == Some(s) <==> Faithful(s)
  {
    DecodeEncode(s);
    if Decodable(s) { RestoredHash(s); }
    RoundTripIff(s);
  }
}
