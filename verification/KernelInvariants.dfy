/**
  What every kernel transition keeps, and where the kernel's own claims about
  refusals and namespace drops hold and fail.
 */
module KernelInvariants {
  import opened Basics
  import opened Kernel

  predicate InPool(link: Option<nat>, size: nat) {
    link.Some? ==> link.value < size
  }

  predicate RecordOk(s: State, r: Record) {
    && s.dim.Some? && |r.vector| == s.dim.value
    && r.ns < MAX_NAMESPACES
    && InPool(r.next, |s.records|) && InPool(r.prev, |s.records|)
  }

  ghost predicate Valid(s: State) {
    && (forall i :: 0 <= i < |s.records| && s.records[i].Some? ==> RecordOk(s, s.records[i].value))
    && (forall ns :: ns in s.heads ==> ns < MAX_NAMESPACES && s.heads[ns] < |s.records|)
    && (forall i :: 0 <= i < |s.nodes| && s.nodes[i].Some? ==> s.nodes[i].value.ns < MAX_NAMESPACES && InPool(s.nodes[i].value.record, |s.records|))
    && (forall i :: 0 <= i < |s.edges| && s.edges[i].Some? ==> IsLive(s.nodes, s.edges[i].value.from) && IsLive(s.nodes, s.edges[i].value.to))
  }

  lemma {:induction false} WipeListKeeps(records: seq<Option<Record>>, cursor: Option<nat>)
    ensures var w := WipeList(records, cursor);
      |w| == |records| && forall i :: 0 <= i < |w| ==> w[i] == records[i] || w[i] == None
    decreases LiveCount(records)
  {
    if cursor.Some? && IsLive(records, cursor.value) {
      LiveCountDrop(records, cursor.value);
      WipeListKeeps(records[cursor.value := None], records[cursor.value].value.next);
    }
  }

  lemma {:induction false} PushValid(s: State, r: Record)
    requires Valid(s) && s.dim.Some? && |r.vector| == s.dim.value && r.ns < MAX_NAMESPACES
    ensures Valid(PushRecord(s, r))
  {
  }

  lemma {:induction false} UnlinkValid(s: State, r: Record)
    requires Valid(s) && RecordOk(s, r)
    ensures Valid(Unlink(s, r)) && |Unlink(s, r).records| == |s.records|
    ensures Unlink(s, r) == s.(records := Unlink(s, r).records, heads := Unlink(s, r).heads)
  {
    var s1 := match r.prev
              case Some(p) => s.(records := SetNext(s.records, p, r.next))
              case None => s.(heads := SetHead(s.heads, r.ns, r.next));
    assert Valid(s1);
  }

  lemma {:induction false} RemoveValid(s: State, id: nat, soft: bool)
    requires Valid(s)
    ensures Valid(Remove(s, id, soft).state)
  {
    if IsLive(s.records, id) {
      UnlinkValid(s, s.records[id].value);
      var s1 := Unlink(s, s.records[id].value);
      var after := if soft then Some(s1.records[id].value.(softDeleted := true)) else None;
      assert Remove(s, id, soft) == Done(s1.(records := s1.records[id := after]));
    }
  }

  lemma {:induction false} DropValid(s: State, ns: nat)
    requires Valid(s)
    ensures Valid(Drop(s, ns).state)
  {
    WipeListKeeps(s.records, Head(s, ns));
  }

  lemma {:induction false} InsertValid(s: State, vector: seq<int>, metadata: Option<Bytes>, tag: nat, ns: nat)
    requires Valid(s) && ns < MAX_NAMESPACES
    ensures Valid(Insert(s, vector, metadata, tag, ns).state)
  {
    if !(s.dim.Some? && |vector| != s.dim.value) {
      var locked := s.(dim := Some(|vector|));
      assert Valid(locked);
      PushValid(locked, Record(vector, metadata, tag, false, false, false, ns, None, None));
    }
  }

  lemma {:induction false} InsertEncryptedValid(s: State, keyId: KeyId, ciphertext: Bytes, tag: nat, ns: nat)
    requires Valid(s) && ns < MAX_NAMESPACES
    ensures Valid(InsertEncrypted(s, keyId, ciphertext, tag, ns).state)
  {
    if s.dim.Some? {
      PushValid(s, Record(seq(s.dim.value, _ => 0), Some(ciphertext), tag, false, true, false, ns, None, None));
    }
  }

  lemma {:induction false} GraphValid(s: State, kind: nat, record: Option<nat>, from: nat, to: nat, ns: nat)
    requires Valid(s) && ns < MAX_NAMESPACES
    ensures Valid(NewNode(s, kind, record, ns).state)
    ensures Valid(NewEdge(s, from, to, kind).state)
  {
  }

  lemma {:induction false} EditValid(s: State, e: Event, ns: nat)
    requires Valid(s)
    requires e.DeleteNode? || e.DeleteEdge? || e.ShredKey? || e.UpdateRecordMetadata? || e.SetMeta? || e.AutoCreateNamespace?
    ensures Valid(Apply(s, e, ns).state)
  {
  }

  /** Every event, accepted or refused, keeps the kernel well formed. */
  lemma {:induction false} ApplyValid(s: State, e: Event, ns: nat)
    requires Valid(s)
    ensures Valid(Apply(s, e, ns).state)
  {
    hide Insert, InsertEncrypted, NewNode, NewEdge, Remove, Drop, Valid;
    match e
    case InsertRecord(_, v, m, t) => if ns < MAX_NAMESPACES { InsertValid(s, v, m, t, ns); }
    case AutoInsertRecord(v, m, t) => if ns < MAX_NAMESPACES { InsertValid(s, v, m, t, ns); }
    case InsertRecordEncrypted(_, k, c, t) => if ns < MAX_NAMESPACES { InsertEncryptedValid(s, k, c, t, ns); }
    case AutoInsertRecordEncrypted(own, k, c, t) => if own < MAX_NAMESPACES { InsertEncryptedValid(s, k, c, t, own); }
    case CreateNode(_, k, r) => if ns < MAX_NAMESPACES { GraphValid(s, k, r, 0, 0, ns); }
    case AutoCreateNode(k, r) => if ns < MAX_NAMESPACES { GraphValid(s, k, r, 0, 0, ns); }
    case CreateEdge(_, f, t, k) => GraphValid(s, k, None, f, t, 0);
    case AutoCreateEdge(f, t, k) => GraphValid(s, k, None, f, t, 0);
    case DropNamespace(_) => DropValid(s, ns);
    case DeleteRecord(id) => RemoveValid(s, id, false);
    case SoftDeleteRecord(id) => RemoveValid(s, id, true);
    case _ => EditValid(s, e, ns);
  }

  ghost predicate Grown(s: State, t: State) {
    |s.records| <= |t.records| && |s.nodes| <= |t.nodes| && |s.edges| <= |t.edges|
  }

  lemma {:induction false} UnlinkGrows(s: State, r: Record)
    ensures |Unlink(s, r).records| == |s.records| && Unlink(s, r).nodes == s.nodes && Unlink(s, r).edges == s.edges
  {
  }

  lemma {:induction false} DeleteNodesGrows(s: State)
    ensures forall gone :: |DropNodes(s.nodes, gone)| == |s.nodes| && |DropEdgesAt(s.edges, gone)| == |s.edges|
  {
  }

  lemma {:induction false} RemovalGrows(s: State, e: Event, ns: nat)
    requires e.DeleteRecord? || e.SoftDeleteRecord? || e.DropNamespace?
    ensures Grown(s, Apply(s, e, ns).state)
  {
    hide Unlink, WipeList, Head, DropNodes, DropEdgesAt, NodesIn;
    if e.DropNamespace? {
      WipeListKeeps(s.records, Head(s, ns));
      DeleteNodesGrows(s);
    } else if IsLive(s.records, e.id) {
      UnlinkGrows(s, s.records[e.id].value);
    }
  }

  lemma {:induction false} InsertGrows(s: State, e: Event, ns: nat)
    requires e.AutoInsertRecord? || e.InsertRecord? || e.AutoInsertRecordEncrypted? || e.InsertRecordEncrypted?
    ensures var out := Apply(s, e, ns);
      && out.state.nodes == s.nodes && out.state.edges == s.edges
      && |out.state.records| == if out.err.None? then |s.records| + 1 else |s.records|
  {
  }

  /** Pools never shrink, and an accepted automatic insert takes exactly one slot. */
  lemma {:induction false} ApplyGrows(s: State, e: Event, ns: nat)
    ensures var out := Apply(s, e, ns);
      && Grown(s, out.state)
      && (out.err.None? && (e.AutoInsertRecord? || e.AutoInsertRecordEncrypted?) ==> |out.state.records| == |s.records| + 1)
      && (out.err.None? && e.AutoCreateNode? ==> |out.state.nodes| == |s.nodes| + 1)
      && (out.err.None? && e.AutoCreateEdge? ==> |out.state.edges| == |s.edges| + 1)
  {
    hide Remove, Drop, SetPrev;
    DeleteNodesGrows(s);
    hide DropNodes, DropEdgesAt;
    if e.DeleteRecord? || e.SoftDeleteRecord? || e.DropNamespace? { RemovalGrows(s, e, ns); }
    else if e.AutoInsertRecord? || e.InsertRecord? || e.AutoInsertRecordEncrypted? || e.InsertRecordEncrypted? { InsertGrows(s, e, ns); }
  }

  /** The event is refused for its metadata size after it has locked the dimension. */
  predicate LocksDimension(s: State, e: Event, ns: nat) {
    && s.dim.None? && ns < MAX_NAMESPACES
    && (e.AutoInsertRecord? || (e.InsertRecord? && e.id == |s.records|))
    && e.metadata.Some? && |e.metadata.value| > MAX_METADATA_SIZE
  }

  /** A refused event leaves the kernel as it was, except in exactly one case:
      oversized metadata on an insert before any dimension is known. */
  lemma {:induction false} RefusalKeepsStateIff(s: State, e: Event, ns: nat)
    ensures Apply(s, e, ns).err.Some? && Apply(s, e, ns).state != s <==> LocksDimension(s, e, ns)
    ensures LocksDimension(s, e, ns) ==> Apply(s, e, ns).state == s.(dim := Some(|e.vector|))
  {
  }

  /** The case does occur: an empty kernel refuses such an insert and from then on
      accepts only vectors of the refused one's length. */
  lemma {:induction false} RefusalCanLock(vector: seq<int>, tag: nat)
    ensures var e := AutoInsertRecord(vector, Some(seq(MAX_METADATA_SIZE + 1, _ => 0)), tag);
      Apply(WithDim(0), e, 0) == Outcome(WithDim(0).(dim := Some(|vector|)), Some(MetadataTooLarge))
  {
  }
}
