/**
  What each kernel event leaves behind, field by field, and why an event is refused.
 */
module KernelEffects {
  import opened Basics
  import opened Kernel
  import KernelInvariants
  import opened RecordLists

  /** The same record, or none, up to its place in a list. */
  predicate SameButLinks(a: Option<Record>, b: Option<Record>) {
    && a.Some? == b.Some?
    && (a.Some? ==>
          && b.value.vector == a.value.vector && b.value.metadata == a.value.metadata && b.value.tag == a.value.tag
          && b.value.softDeleted == a.value.softDeleted && b.value.encrypted == a.value.encrypted
          && b.value.shredded == a.value.shredded && b.value.ns == a.value.ns)
  }

  /** All slots but `n` keep their records. */
  ghost predicate OthersKept(rs: Pool, ts: Pool, n: int) {
    |rs| <= |ts| && forall i :: 0 <= i < |rs| && i != n ==> SameButLinks(rs[i], ts[i])
  }

  /** Nothing but the version, the records and their lists is touched. */
  predicate OnlyRecords(s: State, t: State) {
    t.dim == s.dim && t.nodes == s.nodes && t.edges == s.edges && t.keys == s.keys && t.meta == s.meta
  }

  /** Nothing but the version and the graph is touched. */
  predicate OnlyGraph(s: State, t: State) {
    t.dim == s.dim && t.records == s.records && t.heads == s.heads && t.keys == s.keys && t.meta == s.meta
  }

  /** Exactly one record more, in the next slot, fresh and with this content. */
  ghost predicate Stored(rs: Pool, ts: Pool, vector: seq<int>, metadata: Option<Bytes>, tag: nat, encrypted: bool, ns: nat) {
    var n := |rs|;
    && |ts| == n + 1 && OthersKept(rs, ts, n) && ts[n].Some?
    && var r := ts[n].value;
    && r.vector == vector && r.metadata == metadata && r.tag == tag && r.encrypted == encrypted && r.ns == ns
    && !r.softDeleted && !r.shredded
  }

  ghost predicate PlainStored(s: State, t: State, vector: seq<int>, metadata: Option<Bytes>, tag: nat, ns: nat) {
    && Stored(s.records, t.records, vector, metadata, tag, false, ns)
    && t.dim == Some(|vector|) && OnlyRecords(s, t.(dim := s.dim))
  }

  ghost predicate IsZero(v: seq<int>, size: nat) {
    |v| == size && forall j :: 0 <= j < size ==> v[j] == 0
  }

  /** The vector is zero in every place; the record is listed under its key. */
  ghost predicate SecretStored(s: State, t: State, keyId: KeyId, ciphertext: Bytes, tag: nat, ns: nat) {
    && s.dim.Some? && (exists zero :: Stored(s.records, t.records, zero, Some(ciphertext), tag, true, ns) && IsZero(zero, s.dim.value))
    && OnlyRecords(s, t.(keys := s.keys))
    && keyId in t.keys && t.keys[keyId] == (if keyId in s.keys then s.keys[keyId] else []) + [|s.records|]
    && t.keys - {keyId} == s.keys - {keyId}
  }

  ghost predicate NodeAdded(s: State, t: State, kind: nat, record: Option<nat>, ns: nat) {
    var n := |s.nodes|;
    && |t.nodes| == n + 1 && t.nodes[..n] == s.nodes && t.nodes[n].Some?
    && t.nodes[n].value.kind == kind && t.nodes[n].value.record == record && t.nodes[n].value.ns == ns
    && t.edges == s.edges && OnlyGraph(s, t)
  }

  ghost predicate EdgeAdded(s: State, t: State, from: nat, to: nat, kind: nat) {
    var n := |s.edges|;
    && |t.edges| == n + 1 && t.edges[..n] == s.edges && t.edges[n].Some?
    && t.edges[n].value.from == from && t.edges[n].value.to == to && t.edges[n].value.kind == kind
    && t.nodes == s.nodes && OnlyGraph(s, t)
  }

  /** Exactly the nodes in `gone` and the edges with an end in it have left the graph. */
  ghost predicate NodesGone(s: State, t: State, gone: iset<nat>) {
    && |t.nodes| == |s.nodes| && |t.edges| == |s.edges|
    && (forall i :: 0 <= i < |s.nodes| ==> t.nodes[i] == if i in gone then None else s.nodes[i])
    && (forall i :: 0 <= i < |s.edges| ==>
          t.edges[i] == if s.edges[i].Some? && (s.edges[i].value.from in gone || s.edges[i].value.to in gone) then None else s.edges[i])
  }

  ghost predicate Removed(s: State, t: State, id: nat) {
    && |t.records| == |s.records| && OthersKept(s.records, t.records, id) && id < |t.records| && t.records[id].None?
    && OnlyRecords(s, t)
  }

  ghost predicate SoftRemoved(s: State, t: State, id: nat) {
    && |t.records| == |s.records| && OthersKept(s.records, t.records, id) && IsLive(s.records, id)
    && SameButLinks(Some(s.records[id].value.(softDeleted := true)), t.records[id])
    && OnlyRecords(s, t)
  }

  /** The records listed under the key have lost their content, and the key is gone. */
  ghost predicate Shredded(s: State, t: State, keyId: KeyId) {
    && |t.records| == |s.records|
    && (forall i :: 0 <= i < |s.records| ==>
          t.records[i] == if s.records[i].Some? && keyId in s.keys && i in s.keys[keyId]
                          then Some(s.records[i].value.(metadata := None, shredded := true)) else s.records[i])
    && t.heads == s.heads && keyId !in t.keys && t.keys == s.keys - {keyId} && OnlyRecords(s, t.(keys := s.keys))
  }

  ghost predicate Reworded(s: State, t: State, id: nat, metadata: Option<Bytes>) {
    && IsLive(s.records, id) && |t.records| == |s.records|
    && (forall i :: 0 <= i < |s.records| && i != id ==> t.records[i] == s.records[i])
    && t.records[id] == Some(s.records[id].value.(metadata := metadata))
    && t.heads == s.heads && OnlyRecords(s, t)
  }

  /** Exactly the slots the namespace's list leads to are emptied, and its graph nodes go. */
  ghost predicate Dropped(s: State, t: State, ns: nat) {
    && |t.records| == |s.records|
    && (forall i: nat :: i < |s.records| ==>
          t.records[i] == if s.records[i].Some? && Met(s.records, Head(s, ns), i) then None else s.records[i])
    && t.heads == s.heads - {ns}
    && NodesGone(s, t, iset i: nat | i < |s.nodes| && s.nodes[i].Some? && s.nodes[i].value.ns == ns)
    && t.dim == s.dim && t.keys == s.keys && t.meta == s.meta
  }

  /** What an accepted event leaves of `s`. */
  ghost predicate Effect(s: State, e: Event, ns: nat, t: State) {
    && t.version == s.version + 1
    && match e
       case InsertRecord(_, vector, metadata, tag) => PlainStored(s, t, vector, metadata, tag, ns)
       case AutoInsertRecord(vector, metadata, tag) => PlainStored(s, t, vector, metadata, tag, ns)
       case InsertRecordEncrypted(_, keyId, ciphertext, tag) => SecretStored(s, t, keyId, ciphertext, tag, ns)
       case AutoInsertRecordEncrypted(own, keyId, ciphertext, tag) => SecretStored(s, t, keyId, ciphertext, tag, own)
       case DeleteRecord(id) => Removed(s, t, id)
       case SoftDeleteRecord(id) => SoftRemoved(s, t, id)
       case CreateNode(_, kind, record) => NodeAdded(s, t, kind, record, ns)
       case AutoCreateNode(kind, record) => NodeAdded(s, t, kind, record, ns)
       case CreateEdge(_, from, to, kind) => EdgeAdded(s, t, from, to, kind)
       case AutoCreateEdge(from, to, kind) => EdgeAdded(s, t, from, to, kind)
       case DeleteNode(id) => NodesGone(s, t, iset{id}) && OnlyGraph(s, t)
       case DeleteEdge(id) => id < |s.edges| && t.edges == s.edges[id := None] && t.nodes == s.nodes && OnlyGraph(s, t)
       case ShredKey(keyId) => Shredded(s, t, keyId)
       case UpdateRecordMetadata(id, metadata) => Reworded(s, t, id, metadata)
       case SetMeta(key, value) => key in t.meta && t.meta[key] == value && t.meta - {key} == s.meta - {key} && t == s.(version := t.version, meta := t.meta)
       case AutoCreateNamespace(_) => t == s.(version := t.version)
       case DropNamespace(_) => Dropped(s, t, ns)
  }

  lemma {:induction false} PushStores(s: State, r: Record)
    requires !r.softDeleted && !r.shredded
    ensures var t := PushRecord(s, r);
      Stored(s.records, t.records, r.vector, r.metadata, r.tag, r.encrypted, r.ns) && t == s.(records := t.records, heads := t.heads)
  {
  }

  lemma {:induction false} PlainEffect(s: State, e: Event, ns: nat)
    requires (e.InsertRecord? || e.AutoInsertRecord?) && Apply(s, e, ns).err.None?
    ensures Effect(s, e, ns, Apply(s, e, ns).state)
  {
    PushStores(s.(dim := Some(|e.vector|)), Record(e.vector, e.metadata, e.tag, false, false, false, ns, None, None));
    hide PushRecord, Stored;
  }

  lemma {:induction false} SecretEffect(s: State, e: Event, ns: nat)
    requires (e.InsertRecordEncrypted? || e.AutoInsertRecordEncrypted?) && Apply(s, e, ns).err.None?
    ensures Effect(s, e, ns, Apply(s, e, ns).state)
  {
    var zero := seq(s.dim.value, _ => 0);
    var home := if e.AutoInsertRecordEncrypted? then e.ownNs else ns;
    PushStores(s, Record(zero, Some(e.ciphertext), e.tag, false, true, false, home, None, None));
    hide PushRecord, Stored;
    var t := Apply(s, e, ns).state;
    assert Stored(s.records, t.records, zero, Some(e.ciphertext), e.tag, true, home) && IsZero(zero, s.dim.value);
    assert t.keys - {e.keyId} == s.keys - {e.keyId};
  }

  lemma {:induction false} LinkKeeps(rs: Pool, i: nat, to: Option<nat>)
    ensures |SetNext(rs, i, to)| == |SetPrev(rs, i, to)| == |rs|
    ensures OthersKept(rs, SetNext(rs, i, to), -1) && OthersKept(rs, SetPrev(rs, i, to), -1)
  {
  }

  lemma {:induction false} KeptOn(rs: Pool, ts: Pool, us: Pool)
    requires OthersKept(rs, ts, -1) && OthersKept(ts, us, -1)
    ensures OthersKept(rs, us, -1)
  {
    forall i | 0 <= i < |rs| ensures SameButLinks(rs[i], us[i]) { assert SameButLinks(rs[i], ts[i]) && SameButLinks(ts[i], us[i]); }
  }

  lemma {:induction false} NothingChanged(rs: Pool)
    ensures OthersKept(rs, rs, -1)
  {
  }

  lemma {:induction false} UnlinkKeeps(s: State, r: Record)
    ensures var t := Unlink(s, r);
      |t.records| == |s.records| && OthersKept(s.records, t.records, -1) && t == s.(records := t.records, heads := t.heads)
  {
    hide SetNext, SetPrev, SetHead, OthersKept;
    NothingChanged(s.records);
    var mid := if r.prev.Some? then SetNext(s.records, r.prev.value, r.next) else s.records;
    if r.prev.Some? { LinkKeeps(s.records, r.prev.value, r.next); }
    if r.next.Some? {
      LinkKeeps(mid, r.next.value, r.prev);
      KeptOn(s.records, mid, SetPrev(mid, r.next.value, r.prev));
    }
  }

  lemma {:induction false} RemoveEffect(s: State, e: Event, ns: nat)
    requires (e.DeleteRecord? || e.SoftDeleteRecord?) && Apply(s, e, ns).err.None?
    ensures Effect(s, e, ns, Apply(s, e, ns).state)
  {
    UnlinkKeeps(s, s.records[e.id].value);
    hide Unlink;
  }

  lemma {:induction false} GraphEffect(s: State, e: Event, ns: nat)
    requires e.CreateNode? || e.AutoCreateNode? || e.CreateEdge? || e.AutoCreateEdge? || e.DeleteNode? || e.DeleteEdge?
    requires Apply(s, e, ns).err.None?
    ensures Effect(s, e, ns, Apply(s, e, ns).state)
  {
  }

  lemma {:induction false} DropEffect(s: State, e: Event, ns: nat)
    requires e.DropNamespace? && Apply(s, e, ns).err.None?
    ensures Effect(s, e, ns, Apply(s, e, ns).state)
  {
    var t := Apply(s, e, ns).state;
    KernelInvariants.WipeListKeeps(s.records, Head(s, ns));
    hide WipeList, Met;
    forall i: nat | i < |s.records| && s.records[i].Some? ensures t.records[i].None? <==> Met(s.records, Head(s, ns), i) {
      WipeMet(s.records, Head(s, ns), i);
    }
  }

  lemma {:induction false} EditEffect(s: State, e: Event, ns: nat)
    requires e.ShredKey? || e.UpdateRecordMetadata? || e.SetMeta? || e.AutoCreateNamespace?
    requires Apply(s, e, ns).err.None?
    ensures Effect(s, e, ns, Apply(s, e, ns).state)
  {
    if e.SetMeta? { assert s.meta[e.key := e.value] - {e.key} == s.meta - {e.key}; }
  }

  /** Every accepted event has its effect and no other. */
  lemma {:induction false} ApplyEffect(s: State, e: Event, ns: nat)
    requires Apply(s, e, ns).err.None?
    ensures Effect(s, e, ns, Apply(s, e, ns).state)
  {
    hide Apply, Effect;
    match e
    case InsertRecord(_, _, _, _) => PlainEffect(s, e, ns);
    case AutoInsertRecord(_, _, _) => PlainEffect(s, e, ns);
    case InsertRecordEncrypted(_, _, _, _) => SecretEffect(s, e, ns);
    case AutoInsertRecordEncrypted(_, _, _, _) => SecretEffect(s, e, ns);
    case DeleteRecord(_) => RemoveEffect(s, e, ns);
    case SoftDeleteRecord(_) => RemoveEffect(s, e, ns);
    case DropNamespace(_) => DropEffect(s, e, ns);
    case ShredKey(_) => EditEffect(s, e, ns);
    case UpdateRecordMetadata(_, _) => EditEffect(s, e, ns);
    case SetMeta(_, _) => EditEffect(s, e, ns);
    case AutoCreateNamespace(_) => EditEffect(s, e, ns);
    case _ => GraphEffect(s, e, ns);
  }

  // ---- refusals -----------------------------------------------------------

  /** The namespace number or the id the event claims is not to be had. */
  predicate Unavailable(s: State, e: Event, ns: nat) {
    match e
    case InsertRecord(id, _, _, _) => ns >= 1024 || id != |s.records|
    case InsertRecordEncrypted(id, _, _, _) => ns >= 1024 || id != |s.records|
    case CreateNode(id, _, _) => ns >= 1024 || id != |s.nodes|
    case CreateEdge(id, _, _, _) => id != |s.edges|
    case AutoInsertRecord(_, _, _) => ns >= 1024
    case AutoCreateNode(_, _) => ns >= 1024
    case AutoCreateNamespace(_) => ns >= 1024
    case AutoInsertRecordEncrypted(own, _, _, _) => own >= 1024
    case DropNamespace(_) => ns == 0 || ns >= 1024
    case _ => false
  }

  /** Something the event refers to is not there. */
  predicate Missing(s: State, e: Event) {
    match e
    case DeleteRecord(id) => !IsLive(s.records, id)
    case SoftDeleteRecord(id) => !IsLive(s.records, id)
    case UpdateRecordMetadata(id, _) => !IsLive(s.records, id)
    case DeleteNode(id) => !IsLive(s.nodes, id)
    case DeleteEdge(id) => !IsLive(s.edges, id)
    case CreateNode(_, _, record) => record.Some? && !IsLive(s.records, record.value)
    case AutoCreateNode(_, record) => record.Some? && !IsLive(s.records, record.value)
    case CreateEdge(_, from, to, _) => !IsLive(s.nodes, from) || !IsLive(s.nodes, to)
    case AutoCreateEdge(from, to, _) => !IsLive(s.nodes, from) || !IsLive(s.nodes, to)
    case _ => false
  }

  /** The event would tie things of different namespaces together. */
  predicate Crossing(s: State, e: Event, ns: nat)
    requires !Missing(s, e)
  {
    match e
    case CreateNode(_, _, record) => record.Some? && s.records[record.value].value.ns != ns
    case AutoCreateNode(_, record) => record.Some? && s.records[record.value].value.ns != ns
    case CreateEdge(_, from, to, _) => s.nodes[from].value.ns != s.nodes[to].value.ns
    case AutoCreateEdge(from, to, _) => s.nodes[from].value.ns != s.nodes[to].value.ns
    case _ => false
  }

  predicate IsPlain(e: Event) { e.InsertRecord? || e.AutoInsertRecord? }

  predicate IsSecret(e: Event) { e.InsertRecordEncrypted? || e.AutoInsertRecordEncrypted? }

  predicate WrongLength(s: State, e: Event) {
    IsPlain(e) && s.dim.Some? && s.dim.value != |e.vector|
  }

  /** Metadata above 65536 bytes, or a ciphertext above that and its 28 bytes of overhead. */
  predicate TooLarge(e: Event) {
    || (IsPlain(e) && e.metadata.Some? && |e.metadata.value| > 65536)
    || (IsSecret(e) && |e.ciphertext| > 65564)
  }

  /** Which of its reasons an event is refused for, when several apply: an unavailable
      namespace or id first, then what is missing, then a wrong length, then the size,
      then what would cross namespaces or needs a dimension. */
  lemma {:induction false} RefusalReason(s: State, e: Event, ns: nat)
    ensures var err := Apply(s, e, ns).err;
      && (err == Some(NotFound) <==> !Unavailable(s, e, ns) && Missing(s, e))
      && (forall x, y :: err == Some(DimensionMismatch(x, y)) <==>
            !Unavailable(s, e, ns) && WrongLength(s, e) && x == s.dim.value && y == |e.vector|)
      && (err == Some(MetadataTooLarge) <==> !Unavailable(s, e, ns) && !WrongLength(s, e) && TooLarge(e))
      && (err == Some(InvalidOperation) <==>
            || Unavailable(s, e, ns)
            || (!Missing(s, e) && Crossing(s, e, ns))
            || (IsSecret(e) && !TooLarge(e) && s.dim.None?))
  {
    hide PushRecord, Unlink, DeleteNodes, WipeList, NodesIn, Shred;
  }
}
