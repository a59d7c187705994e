/**
  The per-namespace record lists threaded through the record pool. While no
  record is removed twice they list exactly the records of each namespace,
  newest first, so dropping a namespace empties it. Removing a soft-deleted
  record again replays stale links and can lose live records.
 */
module RecordLists {
  import opened Basics
  import opened Kernel
  import KernelInvariants

  type Pool = seq<Option<Record>>

  predicate Linked(rs: Pool, ns: nat, i: int) {
    IsLive(rs, i) && rs[i].value.ns == ns && !rs[i].value.softDeleted
  }

  /** `link` is the nearest linked record of `ns` below `i`, if there is one. */
  ghost predicate Below(rs: Pool, ns: nat, i: int, link: Option<nat>) {
    && (link.Some? ==> link.value < i && Linked(rs, ns, link.value))
    && forall j :: (link.Some? ==> link.value < j) && j < i ==> !Linked(rs, ns, j)
  }

  /** `link` is the nearest linked record of `ns` above `i`, if there is one. */
  ghost predicate Above(rs: Pool, ns: nat, i: int, link: Option<nat>) {
    && (link.Some? ==> i < link.value && Linked(rs, ns, link.value))
    && forall j :: i < j && (link.Some? ==> j < link.value) ==> !Linked(rs, ns, j)
  }

  ghost predicate LinkExact(rs: Pool, ns: nat, i: int) {
    Linked(rs, ns, i) ==> Below(rs, ns, i, rs[i].value.next) && Above(rs, ns, i, rs[i].value.prev)
  }

  ghost predicate LinksExact(rs: Pool, ns: nat) {
    forall i :: LinkExact(rs, ns, i)
  }

  /** Every namespace's list is exactly its linked records, newest first. */
  ghost predicate ListsExact(s: State) {
    forall ns: nat :: ListExact(s, ns)
  }

  ghost predicate ListExact(s: State, ns: nat) {
    Below(s.records, ns, |s.records|, Head(s, ns)) && LinksExact(s.records, ns)
  }

  predicate SameLinks(a: Option<Record>, b: Option<Record>) {
    a.Some? && b.Some? && a.value.next == b.value.next && a.value.prev == b.value.prev
  }

  /** A list is exact after a change that keeps its members and their links. */
  lemma {:induction false} FrameExact(s: State, t: State, ns: nat)
    requires ListExact(s, ns) && Head(t, ns) == Head(s, ns) && |s.records| <= |t.records|
    requires forall i :: Linked(t.records, ns, i) ==> Linked(s.records, ns, i)
    requires forall i :: Linked(s.records, ns, i) ==> Linked(t.records, ns, i) && SameLinks(s.records[i], t.records[i])
    ensures ListExact(t, ns)
  {
    forall i ensures LinkExact(t.records, ns, i)
    {
      assert LinkExact(s.records, ns, i);
    }
  }

  lemma {:induction false} PushSame(s: State, r: Record)
    requires ListExact(s, r.ns) && !r.softDeleted
    ensures ListExact(PushRecord(s, r), r.ns)
  {
    var rs, t, n := s.records, PushRecord(s, r), |s.records|;
    assert forall i :: i < n ==> (Linked(t.records, r.ns, i) <==> Linked(rs, r.ns, i));
    assert Linked(t.records, r.ns, n) && Head(t, r.ns) == Some(n);
    forall i ensures LinkExact(t.records, r.ns, i)
    {
      if i < n {
        assert LinkExact(rs, r.ns, i);
      }
    }
  }

  lemma {:induction false} PushOther(s: State, r: Record, ns: nat)
    requires ListExact(s, ns) && ListExact(s, r.ns) && ns != r.ns
    ensures ListExact(PushRecord(s, r), ns)
  {
    var t := PushRecord(s, r);
    forall i | Linked(s.records, ns, i) ensures Linked(t.records, ns, i) && SameLinks(s.records[i], t.records[i]) {
    }
    FrameExact(s, t, ns);
  }

  lemma {:induction false} PushExact(s: State, r: Record)
    requires ListsExact(s) && !r.softDeleted
    ensures ListsExact(PushRecord(s, r))
  {
    forall ns: nat ensures ListExact(PushRecord(s, r), ns) {
      assert ListExact(s, ns) && ListExact(s, r.ns);
      if ns == r.ns { PushSame(s, r); } else { PushOther(s, r, ns); }
    }
  }

  /** Slot `a` after the record with links `next` and `prev` was taken out from around it. */
  predicate Spliced(a: Option<Record>, b: Option<Record>, i: int, next: Option<nat>, prev: Option<nat>) {
    && a.Some? == b.Some?
    && (a.Some? ==>
          && b.value.ns == a.value.ns && b.value.softDeleted == a.value.softDeleted
          && b.value.next == (if prev == Some(i) then next else a.value.next)
          && b.value.prev == (if next == Some(i) then prev else a.value.prev))
  }

  ghost predicate SplicedPool(rs: Pool, ts: Pool, id: nat, next: Option<nat>, prev: Option<nat>) {
    && |ts| == |rs|
    && (forall i :: 0 <= i < |rs| && i != id ==> Spliced(rs[i], ts[i], i, next, prev))
  }

  lemma {:induction false} UnlinkShape(s: State, r: Record)
    ensures var t := Unlink(s, r);
      && |t.records| == |s.records|
      && t.heads == (if r.prev.None? then SetHead(s.heads, r.ns, r.next) else s.heads)
      && forall i :: 0 <= i < |s.records| ==> Spliced(s.records[i], t.records[i], i, r.next, r.prev)
  {
    var mid := if r.prev.Some? then SetNext(s.records, r.prev.value, r.next) else s.records;
    var end := if r.next.Some? then SetPrev(mid, r.next.value, r.prev) else mid;
    assert Unlink(s, r).records == end;
    forall i | 0 <= i < |s.records| ensures Spliced(s.records[i], end[i], i, r.next, r.prev) {
    }
  }

  lemma {:induction false} RemoveShape(s: State, id: nat, soft: bool, ns: nat)
    requires Linked(s.records, ns, id) && ListExact(s, ns)
    ensures var r, t := s.records[id].value, Remove(s, id, soft).state;
      && SplicedPool(s.records, t.records, id, r.next, r.prev)
      && !Linked(t.records, ns, id)
      && t.heads == if r.prev.None? then SetHead(s.heads, ns, r.next) else s.heads
  {
    var r := s.records[id].value;
    assert LinkExact(s.records, ns, id);
    UnlinkShape(s, r);
  }

  lemma {:induction false} SpliceExact(s: State, t: State, id: nat, ns: nat)
    requires Linked(s.records, ns, id) && ListExact(s, ns) && !Linked(t.records, ns, id)
    requires SplicedPool(s.records, t.records, id, s.records[id].value.next, s.records[id].value.prev)
    requires Head(t, ns) == if s.records[id].value.prev.None? then s.records[id].value.next else Head(s, ns)
    ensures ListExact(t, ns)
  {
    var rs := s.records;
    assert LinkExact(rs, ns, id);
    forall i ensures Linked(t.records, ns, i) <==> Linked(rs, ns, i) && i != id {
      if 0 <= i < |rs| && i != id { assert Spliced(rs[i], t.records[i], i, rs[id].value.next, rs[id].value.prev); }
    }
    forall i ensures LinkExact(t.records, ns, i)
    {
      if Linked(t.records, ns, i) { assert Spliced(rs[i], t.records[i], i, rs[id].value.next, rs[id].value.prev); }
      assert LinkExact(rs, ns, i);
    }
  }

  lemma {:induction false} RemoveOther(s: State, id: nat, soft: bool, ns: nat)
    requires IsLive(s.records, id) && ns != s.records[id].value.ns
    requires Linked(s.records, s.records[id].value.ns, id) && ListExact(s, s.records[id].value.ns) && ListExact(s, ns)
    ensures ListExact(Remove(s, id, soft).state, ns)
  {
    var r, t := s.records[id].value, Remove(s, id, soft).state;
    RemoveShape(s, id, soft, r.ns);
    assert LinkExact(s.records, r.ns, id);
    forall i ensures Linked(s.records, ns, i) <==> Linked(t.records, ns, i)
             ensures Linked(s.records, ns, i) ==> SameLinks(s.records[i], t.records[i])
    {
      if 0 <= i < |s.records| && i != id { assert Spliced(s.records[i], t.records[i], i, r.next, r.prev); }
    }
    FrameExact(s, t, ns);
  }

  /** Removing a linked record, softly or for good, splices its list. */
  lemma {:induction false} RemoveExact(s: State, id: nat, soft: bool)
    requires ListsExact(s) && IsLive(s.records, id) && !s.records[id].value.softDeleted
    ensures ListsExact(Remove(s, id, soft).state)
  {
    var own := s.records[id].value.ns;
    forall ns: nat ensures ListExact(Remove(s, id, soft).state, ns) {
      assert ListExact(s, ns) && ListExact(s, own);
      if ns == own {
        RemoveShape(s, id, soft, ns);
        SpliceExact(s, Remove(s, id, soft).state, id, ns);
      } else { RemoveOther(s, id, soft, ns); }
    }
  }

  /** Following exact links from the top empties exactly the linked records. */
  lemma {:induction false} WipeExact(rs: Pool, ns: nat, top: int, cursor: Option<nat>)
    requires top <= |rs| && Below(rs, ns, top, cursor)
    requires forall i :: i < top && Linked(rs, ns, i) ==> Below(rs, ns, i, rs[i].value.next)
    ensures |WipeList(rs, cursor)| == |rs|
    ensures forall i :: 0 <= i < |rs| ==> WipeList(rs, cursor)[i] == if i < top && Linked(rs, ns, i) then None else rs[i]
    decreases LiveCount(rs)
  {
    if cursor.Some? {
      var c := cursor.value;
      var rs1 := rs[c := None];
      LiveCountDrop(rs, c);
      assert Linked(rs, ns, c);
      assert forall i :: i < c ==> (Linked(rs1, ns, i) <==> Linked(rs, ns, i));
      WipeExact(rs1, ns, c, rs[c].value.next);
    }
  }

  /** Removing a namespace empties exactly its linked records and its graph nodes. */
  lemma {:induction false} DropEmpties(s: State, ns: nat)
    requires ListsExact(s) && 0 < ns < MAX_NAMESPACES
    ensures var t := Drop(s, ns).state;
      && |t.records| == |s.records|
      && (forall i :: 0 <= i < |s.records| ==> t.records[i] == if Linked(s.records, ns, i) then None else s.records[i])
      && NodesIn(t, ns) == {}
      && ListsExact(t)
  {
    var t := Drop(s, ns).state;
    assert ListExact(s, ns);
    forall i ensures Linked(s.records, ns, i) ==> Below(s.records, ns, i, s.records[i].value.next) {
      assert LinkExact(s.records, ns, i);
    }
    WipeExact(s.records, ns, |s.records|, Head(s, ns));
    forall k: nat ensures ListExact(t, k) {
      assert ListExact(s, k);
      if k == ns {
        forall i ensures LinkExact(t.records, ns, i) { }
      } else {
        FrameExact(s, t, k);
      }
    }
  }

  // ---- dropping, whatever the lists hold ----------------------------------

  /** Following the links from `cursor` through live slots, the slot met after `n` steps. */
  function Hop(rs: Pool, cursor: Option<nat>, n: nat): Option<nat>
    decreases n
  {
    if cursor.None? || !IsLive(rs, cursor.value) then None
    else if n == 0 then cursor
    else Hop(rs, rs[cursor.value].value.next, n - 1)
  }

  ghost predicate Met(rs: Pool, cursor: Option<nat>, i: nat) {
    exists n: nat :: Hop(rs, cursor, n) == Some(i)
  }

  /** A path through a pool with a hole is a path through the pool without it. */
  lemma {:induction false} HopFilled(rs: Pool, c: nat, cursor: Option<nat>, n: nat)
    requires c < |rs|
    ensures Hop(rs[c := None], cursor, n).Some? ==> Hop(rs, cursor, n) == Hop(rs[c := None], cursor, n)
    decreases n
  {
    if cursor.Some? && IsLive(rs[c := None], cursor.value) && n > 0 { HopFilled(rs, c, rs[cursor.value].value.next, n - 1); }
  }

  /** A path either keeps clear of slot `c` or passes through it. */
  lemma {:induction false} HopVia(rs: Pool, c: nat, cursor: Option<nat>, n: nat, i: nat)
    requires IsLive(rs, c) && i != c && Hop(rs, cursor, n) == Some(i)
    ensures Hop(rs[c := None], cursor, n) == Some(i) || exists k: nat :: k <= n && Hop(rs, Some(c), k) == Some(i)
    decreases n
  {
    if cursor == Some(c) {
    } else if n > 0 {
      HopVia(rs, c, rs[cursor.value].value.next, n - 1, i);
    }
  }

  /** What is met from `c` is met from its successor without passing `c` again. */
  lemma {:induction false} HopPast(rs: Pool, c: nat, n: nat, i: nat)
    requires IsLive(rs, c) && i != c && Hop(rs, Some(c), n) == Some(i)
    ensures Met(rs[c := None], rs[c].value.next, i)
  {
    HopVia(rs, c, rs[c].value.next, n - 1, i);
    if Hop(rs[c := None], rs[c].value.next, n - 1) != Some(i) {
      var k: nat :| k <= n - 1 && Hop(rs, Some(c), k) == Some(i);
      HopPast(rs, c, k, i);
    }
  }

  /** Wiping from `cursor` empties exactly the slots met from it, round a cycle or not. */
  lemma {:induction false} WipeMet(rs: Pool, cursor: Option<nat>, i: nat)
    requires IsLive(rs, i)
    ensures |WipeList(rs, cursor)| == |rs| && (WipeList(rs, cursor)[i].None? <==> Met(rs, cursor, i))
    decreases LiveCount(rs)
  {
    KernelInvariants.WipeListKeeps(rs, cursor);
    if cursor.Some? && IsLive(rs, cursor.value) {
      var c := cursor.value;
      var rest, next := rs[c := None], rs[c].value.next;
      LiveCountDrop(rs, c);
      KernelInvariants.WipeListKeeps(rest, next);
      if i == c {
        assert Hop(rs, cursor, 0) == Some(i);
      } else {
        WipeMet(rest, next, i);
        if Met(rest, next, i) {
          var n: nat :| Hop(rest, next, n) == Some(i);
          HopFilled(rs, c, next, n);
          assert Hop(rs, cursor, n + 1) == Some(i);
        }
        if Met(rs, cursor, i) {
          var n: nat :| Hop(rs, cursor, n) == Some(i);
          HopPast(rs, c, n, i);
        }
      }
    }
  }

  /** Every record of `ns` that is not soft-deleted is met from the head of its list. */
  ghost predicate AllListed(s: State, ns: nat) {
    forall i: nat :: Linked(s.records, ns, i) ==> Met(s.records, Head(s, ns), i)
  }

  /** In any state at all, removing a namespace leaves none of its records if and only
      if its list leads to all of them; no graph node of it is ever left. */
  lemma {:induction false} DropEmptiesIff(s: State, ns: nat)
    requires 0 < ns < MAX_NAMESPACES
    ensures (forall i: nat :: !Linked(Drop(s, ns).state.records, ns, i)) <==> AllListed(s, ns)
    ensures NodesIn(Drop(s, ns).state, ns) == {}
  {
    var t := Drop(s, ns).state;
    KernelInvariants.WipeListKeeps(s.records, Head(s, ns));
    hide WipeList, Met;
    forall i: nat | Linked(s.records, ns, i) ensures Linked(t.records, ns, i) <==> !Met(s.records, Head(s, ns), i) {
      WipeMet(s.records, Head(s, ns), i);
    }
    assert forall i: nat :: Linked(t.records, ns, i) ==> Linked(s.records, ns, i);
  }

  lemma {:induction false} ExactListed(s: State, ns: nat)
    requires ListsExact(s) && 0 < ns < MAX_NAMESPACES
    ensures AllListed(s, ns)
  {
    hide *;
    DropEmpties(s, ns);
    DropEmptiesIff(s, ns);
    GoneUnlinked(s, Drop(s, ns).state, ns);
  }

  lemma {:induction false} GoneUnlinked(s: State, t: State, ns: nat)
    requires |t.records| == |s.records|
    requires forall i :: 0 <= i < |s.records| ==> t.records[i] == if Linked(s.records, ns, i) then None else s.records[i]
    ensures forall i: nat :: !Linked(t.records, ns, i)
  {
  }

  // ---- every event --------------------------------------------------------

  /** The event removes a record that is already soft-deleted. */
  predicate RemovesTwice(s: State, e: Event) {
    (e.DeleteRecord? || e.SoftDeleteRecord?) && IsLive(s.records, e.id) && s.records[e.id].value.softDeleted
  }

  lemma {:induction false} EditExact(s: State, t: State)
    requires ListsExact(s) && t.heads == s.heads && |t.records| == |s.records|
    requires forall i :: 0 <= i < |s.records| ==> Spliced(s.records[i], t.records[i], i, None, None)
    ensures ListsExact(t)
  {
    forall ns: nat ensures ListExact(t, ns) {
      assert ListExact(s, ns);
      forall i ensures Linked(s.records, ns, i) <==> Linked(t.records, ns, i)
               ensures Linked(s.records, ns, i) ==> SameLinks(s.records[i], t.records[i])
      {
        if 0 <= i < |s.records| { assert Spliced(s.records[i], t.records[i], i, None, None); }
      }
      FrameExact(s, t, ns);
    }
  }

  lemma {:induction false} InsertExact(s: State, vector: seq<int>, metadata: Option<Bytes>, tag: nat, ns: nat)
    requires ListsExact(s)
    ensures ListsExact(Insert(s, vector, metadata, tag, ns).state)
  {
    var r := Record(vector, metadata, tag, false, false, false, ns, None, None);
    PushExact(s, r);
    EditExact(s, s.(dim := Some(|vector|)));
    EditExact(PushRecord(s, r), Done(PushRecord(s.(dim := Some(|vector|)), r)).state);
  }

  lemma {:induction false} InsertEncryptedExact(s: State, keyId: KeyId, ciphertext: Bytes, tag: nat, ns: nat)
    requires ListsExact(s)
    ensures ListsExact(InsertEncrypted(s, keyId, ciphertext, tag, ns).state)
  {
    if s.dim.Some? {
      var r := Record(seq(s.dim.value, _ => 0), Some(ciphertext), tag, false, true, false, ns, None, None);
      PushExact(s, r);
      EditExact(PushRecord(s, r), PushRecord(s, r).(version := s.version + 1,
        keys := s.keys[keyId := (if keyId in s.keys then s.keys[keyId] else []) + [|s.records|]]));
    }
  }

  predicate MovesRecords(e: Event) {
    || e.InsertRecord? || e.AutoInsertRecord? || e.InsertRecordEncrypted? || e.AutoInsertRecordEncrypted?
    || e.DeleteRecord? || e.SoftDeleteRecord? || e.DropNamespace?
  }

  lemma {:induction false} OtherExact(s: State, e: Event, ns: nat)
    requires ListsExact(s) && !MovesRecords(e)
    ensures ListsExact(Apply(s, e, ns).state)
  {
    var t := Apply(s, e, ns).state;
    forall i | 0 <= i < |s.records| ensures Spliced(s.records[i], t.records[i], i, None, None) {
    }
    EditExact(s, t);
  }

  /** Unless it removes a record twice, every event keeps every list exact. */
  lemma {:induction false} ApplyExact(s: State, e: Event, ns: nat)
    requires ListsExact(s) && !RemovesTwice(s, e)
    ensures ListsExact(Apply(s, e, ns).state)
  {
    match e
    case InsertRecord(_, v, m, t) => InsertExact(s, v, m, t, ns);
    case AutoInsertRecord(v, m, t) => InsertExact(s, v, m, t, ns);
    case InsertRecordEncrypted(_, k, c, t) => InsertEncryptedExact(s, k, c, t, ns);
    case AutoInsertRecordEncrypted(own, k, c, t) => InsertEncryptedExact(s, k, c, t, own);
    case DeleteRecord(id) => if IsLive(s.records, id) { RemoveExact(s, id, false); }
    case SoftDeleteRecord(id) => if IsLive(s.records, id) { RemoveExact(s, id, true); }
    case DropNamespace(_) => if 0 < ns < MAX_NAMESPACES { DropEmpties(s, ns); }
    case _ => OtherExact(s, e, ns);
  }

  // ---- removing twice -----------------------------------------------------

  /** The links a removed record still carries agree with the lists as they now are. */
  predicate StaleLinksAgree(s: State, r: Record) {
    && (r.prev.None? ==> Head(s, r.ns) == r.next)
    && (r.prev.Some? && IsLive(s.records, r.prev.value) && !s.records[r.prev.value].value.softDeleted ==>
          s.records[r.prev.value].value.next == r.next)
    && (r.next.Some? && IsLive(s.records, r.next.value) && !s.records[r.next.value].value.softDeleted ==>
          s.records[r.next.value].value.prev == r.prev)
  }

  lemma {:induction false} NearestUnique(rs: Pool, ns: nat, i: int, a: Option<nat>, b: Option<nat>)
    ensures Below(rs, ns, i, a) && Below(rs, ns, i, b) ==> a == b
    ensures Above(rs, ns, i, a) && Above(rs, ns, i, b) ==> a == b
  {
  }

  /** What removing a soft-deleted record again does to the linked records. */
  lemma {:induction false} TwiceShape(s: State, id: nat, soft: bool)
    requires IsLive(s.records, id) && s.records[id].value.softDeleted
    ensures var r, t := s.records[id].value, Remove(s, id, soft).state;
      && |t.records| == |s.records|
      && t.heads == (if r.prev.None? then SetHead(s.heads, r.ns, r.next) else s.heads)
      && forall i :: 0 <= i < |s.records| && i != id ==> Spliced(s.records[i], t.records[i], i, r.next, r.prev)
  {
    UnlinkShape(s, s.records[id].value);
  }

  lemma {:induction false} TwiceMembers(s: State, id: nat, soft: bool, ns: nat, i: int)
    requires IsLive(s.records, id) && s.records[id].value.softDeleted
    ensures Linked(Remove(s, id, soft).state.records, ns, i) <==> Linked(s.records, ns, i)
  {
    TwiceShape(s, id, soft);
    if 0 <= i < |s.records| && i != id {
      assert Spliced(s.records[i], Remove(s, id, soft).state.records[i], i, s.records[id].value.next, s.records[id].value.prev);
    }
  }

  lemma {:induction false} TwiceKeeps(s: State, id: nat, soft: bool)
    requires ListsExact(s) && IsLive(s.records, id) && s.records[id].value.softDeleted
    requires StaleLinksAgree(s, s.records[id].value)
    ensures ListsExact(Remove(s, id, soft).state)
  {
    var r, t := s.records[id].value, Remove(s, id, soft).state;
    TwiceShape(s, id, soft);
    forall ns: nat ensures ListExact(t, ns) {
      assert ListExact(s, ns);
      forall i ensures Linked(t.records, ns, i) <==> Linked(s.records, ns, i)
               ensures Linked(s.records, ns, i) ==> SameLinks(s.records[i], t.records[i])
      {
        TwiceMembers(s, id, soft, ns, i);
        if 0 <= i < |s.records| && i != id { assert Spliced(s.records[i], t.records[i], i, r.next, r.prev); }
      }
      FrameExact(s, t, ns);
    }
  }

  lemma {:induction false} TwiceBreaks(s: State, id: nat, soft: bool)
    requires ListsExact(s) && IsLive(s.records, id) && s.records[id].value.softDeleted
    requires ListsExact(Remove(s, id, soft).state)
    ensures StaleLinksAgree(s, s.records[id].value)
  {
    var r, t := s.records[id].value, Remove(s, id, soft).state;
    TwiceShape(s, id, soft);
    hide Remove;
    forall ns: nat, i ensures Linked(t.records, ns, i) <==> Linked(s.records, ns, i) {
      TwiceMembers(s, id, soft, ns, i);
    }
    assert ListExact(s, r.ns) && ListExact(t, r.ns);
    NearestUnique(s.records, r.ns, |s.records|, Head(s, r.ns), Head(t, r.ns));
    forall i | (r.prev == Some(i) || r.next == Some(i)) && IsLive(s.records, i) && !s.records[i].value.softDeleted
      ensures SameLinks(s.records[i], t.records[i])
    {
      var ns := s.records[i].value.ns;
      assert ListExact(s, ns) && ListExact(t, ns);
      assert LinkExact(s.records, ns, i) && LinkExact(t.records, ns, i) && Linked(s.records, ns, i);
      NearestUnique(s.records, ns, i, s.records[i].value.next, t.records[i].value.next);
      NearestUnique(s.records, ns, i, s.records[i].value.prev, t.records[i].value.prev);
    }
    if r.prev.Some? && 0 <= r.prev.value < |s.records| && r.prev.value != id { assert Spliced(s.records[r.prev.value], t.records[r.prev.value], r.prev.value, r.next, r.prev); }
    if r.next.Some? && 0 <= r.next.value < |s.records| && r.next.value != id { assert Spliced(s.records[r.next.value], t.records[r.next.value], r.next.value, r.next, r.prev); }
  }

  /** Removing a soft-deleted record again keeps the lists exact if and only if the
      links it still carries say what its live neighbours and the head already say. */
  lemma {:induction false} RemoveTwiceIff(s: State, id: nat, soft: bool)
    requires ListsExact(s) && IsLive(s.records, id) && s.records[id].value.softDeleted
    ensures ListsExact(Remove(s, id, soft).state) <==> StaleLinksAgree(s, s.records[id].value)
  {
    if StaleLinksAgree(s, s.records[id].value) { TwiceKeeps(s, id, soft); }
    else if ListsExact(Remove(s, id, soft).state) { TwiceBreaks(s, id, soft); }
  }

  function Replay(s: State, events: seq<(Event, nat)>): State {
    if events == [] then s
    else
      var last := events[|events| - 1];
      Apply(Replay(s, events[..|events| - 1]), last.0, last.1).state
  }

  /** Over any history that never removes a record twice, a namespace drop
      empties exactly the records its namespace lists. */
  lemma {:induction false} DropAfterHistory(dim: nat, events: seq<(Event, nat)>, ns: nat)
    requires forall k :: 0 <= k < |events| ==> !RemovesTwice(Replay(WithDim(dim), events[..k]), events[k].0)
    requires 0 < ns < MAX_NAMESPACES
    ensures ListsExact(Replay(WithDim(dim), events))
    ensures forall i :: !Linked(Drop(Replay(WithDim(dim), events), ns).state.records, ns, i)
  {
    HistoryExact(dim, events);
    DropEmpties(Replay(WithDim(dim), events), ns);
  }

  lemma {:induction false} HistoryExact(dim: nat, events: seq<(Event, nat)>)
    requires forall k :: 0 <= k < |events| ==> !RemovesTwice(Replay(WithDim(dim), events[..k]), events[k].0)
    ensures ListsExact(Replay(WithDim(dim), events))
  {
    if events == [] {
      forall ns: nat ensures ListExact(WithDim(dim), ns) {
        forall i ensures LinkExact(WithDim(dim).records, ns, i) { }
      }
    } else {
      var front := events[..|events| - 1];
      forall k | 0 <= k < |front| ensures !RemovesTwice(Replay(WithDim(dim), front[..k]), front[k].0) {
        assert front[..k] == events[..k];
      }
      HistoryExact(dim, front);
      ApplyExact(Replay(WithDim(dim), front), events[|events| - 1].0, events[|events| - 1].1);
    }
  }

  // ---- a live record lost -------------------------------------------------

  function Plain(vector: seq<int>, ns: nat): Record {
    Record(vector, None, 0, false, false, false, ns, None, None)
  }

  function Add(vector: seq<int>): Event {
    AutoInsertRecord(vector, None, 0)
  }

  /** A kernel that holds only records, all in namespace `ns`. */
  function Only(size: nat, version: nat, records: Pool, ns: nat, head: nat): State {
    State(Some(size), version, records, [], [], map[ns := head], map[], map[])
  }

  lemma {:induction false} AddFirst(dim: nat, u: seq<int>, ns: nat)
    requires (dim == 0 || dim == |u|) && ns < MAX_NAMESPACES
    ensures Apply(WithDim(dim), Add(u), ns) == Outcome(Only(|u|, 1, [Some(Plain(u, ns))], ns, 0), None)
  {
    assert map[][ns := 0] == map[ns := 0];
  }

  lemma {:induction false} AddSecond(u: seq<int>, v: seq<int>, ns: nat)
    requires |u| == |v| && ns < MAX_NAMESPACES
    ensures Apply(Only(|u|, 1, [Some(Plain(u, ns))], ns, 0), Add(v), ns) ==
      Outcome(Only(|u|, 2, [Some(Plain(u, ns).(prev := Some(1))), Some(Plain(v, ns).(next := Some(0)))], ns, 1), None)
  {
    var out := Apply(Only(|u|, 1, [Some(Plain(u, ns))], ns, 0), Add(v), ns).state;
    assert out.records == [Some(Plain(u, ns).(prev := Some(1))), Some(Plain(v, ns).(next := Some(0)))];
    assert out.heads == map[ns := 1];
  }

  /** The newer of two records, soft-deleted. */
  function Deleted(v: seq<int>, ns: nat): Option<Record> {
    Some(Plain(v, ns).(next := Some(0), softDeleted := true))
  }

  lemma {:induction false} DeleteSecond(u: seq<int>, v: seq<int>, ns: nat)
    ensures Apply(Only(|u|, 2, [Some(Plain(u, ns).(prev := Some(1))), Some(Plain(v, ns).(next := Some(0)))], ns, 1), SoftDeleteRecord(1), ns) ==
      Outcome(Only(|u|, 3, [Some(Plain(u, ns)), Deleted(v, ns)], ns, 0), None)
  {
    var out := Apply(Only(|u|, 2, [Some(Plain(u, ns).(prev := Some(1))), Some(Plain(v, ns).(next := Some(0)))], ns, 1), SoftDeleteRecord(1), ns).state;
    assert out.records == [Some(Plain(u, ns)), Deleted(v, ns)] && out.heads == map[ns := 0];
  }

  lemma {:induction false} AddThird(u: seq<int>, v: seq<int>, w: seq<int>, ns: nat)
    requires |u| == |w| && ns < MAX_NAMESPACES
    ensures Apply(Only(|u|, 3, [Some(Plain(u, ns)), Deleted(v, ns)], ns, 0), Add(w), ns) ==
      Outcome(Only(|u|, 4, [Some(Plain(u, ns).(prev := Some(2))), Deleted(v, ns), Some(Plain(w, ns).(next := Some(0)))], ns, 2), None)
  {
    var out := Apply(Only(|u|, 3, [Some(Plain(u, ns)), Deleted(v, ns)], ns, 0), Add(w), ns).state;
    assert out.records == [Some(Plain(u, ns).(prev := Some(2))), Deleted(v, ns), Some(Plain(w, ns).(next := Some(0)))];
    assert out.heads == map[ns := 2];
  }

  lemma {:induction false} DeleteAgain(u: seq<int>, v: seq<int>, w: seq<int>, ns: nat)
    ensures Apply(Only(|u|, 4, [Some(Plain(u, ns).(prev := Some(2))), Deleted(v, ns), Some(Plain(w, ns).(next := Some(0)))], ns, 2), SoftDeleteRecord(1), ns) ==
      Outcome(Only(|u|, 5, [Some(Plain(u, ns)), Deleted(v, ns), Some(Plain(w, ns).(next := Some(0)))], ns, 0), None)
  {
    var out := Apply(Only(|u|, 4, [Some(Plain(u, ns).(prev := Some(2))), Deleted(v, ns), Some(Plain(w, ns).(next := Some(0)))], ns, 2), SoftDeleteRecord(1), ns).state;
    assert out.records == [Some(Plain(u, ns)), Deleted(v, ns), Some(Plain(w, ns).(next := Some(0)))] && out.heads == map[ns := 0];
  }

  lemma {:induction false} ReplayPush(s: State, events: seq<(Event, nat)>, e: Event, ns: nat)
    ensures Replay(s, events + [(e, ns)]) == Apply(Replay(s, events), e, ns).state
  {
    hide Apply;
    assert (events + [(e, ns)])[..|events|] == events;
  }

  /** Two inserts, a soft delete of the second, a third insert, the same soft delete again. */
  function Twice(u: seq<int>, v: seq<int>, w: seq<int>, ns: nat): seq<(Event, nat)> {
    [] + [(Add(u), ns)] + [(Add(v), ns)] + [(SoftDeleteRecord(1), ns)] + [(Add(w), ns)] + [(SoftDeleteRecord(1), ns)]
  }

  lemma {:induction false} TwiceReaches(dim: nat, u: seq<int>, v: seq<int>, w: seq<int>, ns: nat)
    requires |u| == |v| == |w| && (dim == 0 || dim == |u|) && ns < MAX_NAMESPACES
    ensures Replay(WithDim(dim), Twice(u, v, w, ns)) ==
      Only(|u|, 5, [Some(Plain(u, ns)), Deleted(v, ns), Some(Plain(w, ns).(next := Some(0)))], ns, 0)
  {
    var e1: seq<(Event, nat)> := [] + [(Add(u), ns)];
    var e2 := e1 + [(Add(v), ns)];
    var e3 := e2 + [(SoftDeleteRecord(1), ns)];
    var e4 := e3 + [(Add(w), ns)];
    assert Replay(WithDim(dim), []) == WithDim(dim);
    hide Apply, Replay, Only, Plain, Deleted;
    ReplayPush(WithDim(dim), [], Add(u), ns);
    ReplayPush(WithDim(dim), e1, Add(v), ns);
    ReplayPush(WithDim(dim), e2, SoftDeleteRecord(1), ns);
    ReplayPush(WithDim(dim), e3, Add(w), ns);
    ReplayPush(WithDim(dim), e4, SoftDeleteRecord(1), ns);
    AddFirst(dim, u, ns);
    AddSecond(u, v, ns);
    DeleteSecond(u, v, ns);
    AddThird(u, v, w, ns);
    DeleteAgain(u, v, w, ns);
  }

  lemma {:induction false} DropAfterTwice(u: seq<int>, v: seq<int>, w: seq<int>, ns: nat, name: string)
    requires 0 < ns < MAX_NAMESPACES
    ensures var s := Only(|u|, 5, [Some(Plain(u, ns)), Deleted(v, ns), Some(Plain(w, ns).(next := Some(0)))], ns, 0);
      && Linked(s.records, ns, 2) && !ListsExact(s)
      && Apply(s, DropNamespace(name), ns).err.None? && Linked(Apply(s, DropNamespace(name), ns).state.records, ns, 2)
  {
    var s := Only(|u|, 5, [Some(Plain(u, ns)), Deleted(v, ns), Some(Plain(w, ns).(next := Some(0)))], ns, 0);
    assert Head(s, ns) == Some(0) && WipeList(s.records, Some(0)) == s.records[0 := None];
    assert !ListExact(s, ns) by { assert Linked(s.records, ns, 2) && 0 < 2 < |s.records|; }
  }

  /** Starting from an empty kernel, for any vectors and any namespace: after these five
      events a live record is in no list, and dropping the namespace leaves it behind. */
  lemma {:induction false} DropMissesLiveRecord(dim: nat, u: seq<int>, v: seq<int>, w: seq<int>, ns: nat, name: string)
    requires |u| == |v| == |w| && (dim == 0 || dim == |u|) && 0 < ns < MAX_NAMESPACES
    ensures var s := Replay(WithDim(dim), Twice(u, v, w, ns));
      && Linked(s.records, ns, 2) && !ListsExact(s)
      && Apply(s, DropNamespace(name), ns).err.None? && Linked(Apply(s, DropNamespace(name), ns).state.records, ns, 2)
  {
    hide *;
    TwiceReaches(dim, u, v, w, ns);
    DropAfterTwice(u, v, w, ns, name);
  }
}
