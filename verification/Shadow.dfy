/**
  The device's shadow kernel: a segment of write-ahead log arrives in chunks,
  is buffered, and every complete event in it is applied. How the segment was
  cut into chunks makes no difference.
 */
module Shadow {
  import opened Basics
  import Kernel
  import KernelEffects
  import RecordLists

  const HEADER_SIZE: nat := 16
  const DIM: nat := 128

  /** What decoding one event from the front of a buffer gives. */
  datatype Decoded = Complete(event: Kernel.Event, size: nat) | Incomplete | Malformed

  type Decoder = Bytes -> Decoded

  type Keys = map<Kernel.KeyId, seq<nat>>

  /** A decoded event has at least one byte, all of them in the buffer. */
  ghost predicate Progresses(decode: Decoder) {
    forall b: Bytes :: decode(b).Complete? ==> 0 < decode(b).size <= |b|
  }

  /** Bytes further on never change a verdict already reached. */
  ghost predicate PrefixStable(decode: Decoder) {
    forall b: Bytes, c: Bytes :: !decode(b).Incomplete? ==> decode(b + c) == decode(b)
  }

  /** The firmware build has no key table: it records no keys and cannot shred one. */
  function ApplyEvent(s: Kernel.State, e: Kernel.Event): Kernel.Outcome {
    if e.ShredKey? then Kernel.Refuse(s, Kernel.InvalidOperation)
    else
      var out := Kernel.Apply(s, e, 0);
      out.(state := out.state.(keys := s.keys))
  }

  predicate HeaderFits(b: Bytes) {
    |b| >= HEADER_SIZE && FromLe(b[8..12]) == DIM
  }

  /** `hashed` is what the running BLAKE3 hash has absorbed. */
  datatype Segment = Segment(kernel: Kernel.State, hashed: Bytes, active: bool, buffer: Bytes, headerDone: bool)

  datatype Result = Result(seg: Segment, ok: bool)

  function Start(s: Segment): Segment {
    s.(hashed := [], active := true, buffer := [], headerDone := false)
  }

  function Take(s: Segment, n: nat): Segment
    requires n <= |s.buffer|
  {
    s.(hashed := s.hashed + s.buffer[..n], buffer := s.buffer[n..])
  }

  /** Apply complete events until the buffer runs dry or one is refused. */
  ghost function Events(decode: Decoder, s: Segment): Result
    requires Progresses(decode)
    decreases |s.buffer|
  {
    if s.buffer == [] then Result(s, true)
    else
      match decode(s.buffer)
      case Incomplete => Result(s, true)
      case Malformed => Result(s, false)
      case Complete(e, n) =>
        var out := ApplyEvent(s.kernel, e);
        if out.err.Some? then Result(s.(kernel := out.state), false)
        else Events(decode, Take(s, n).(kernel := out.state))
  }

  ghost function Drain(decode: Decoder, s: Segment): Result
    requires Progresses(decode)
  {
    if s.headerDone then Events(decode, s)
    else if |s.buffer| < HEADER_SIZE then Result(s, true)
    else if !HeaderFits(s.buffer) then Result(s, false)
    else Events(decode, Take(s, HEADER_SIZE).(headerDone := true))
  }

  ghost function Chunk(decode: Decoder, s: Segment, chunk: Bytes): Result
    requires Progresses(decode)
  {
    if !s.active then Result(s, false) else Drain(decode, s.(buffer := s.buffer + chunk))
  }

  class ShadowKernel {
    const decode: Decoder
    var kernel: Kernel.State
    var hashed: Bytes
    var active: bool
    var buffer: Bytes
    var headerDone: bool

    function View(): Segment reads this { Segment(kernel, hashed, active, buffer, headerDone) }

    constructor (decode: Decoder, kernel: Kernel.State)
      ensures this.decode == decode && View() == Segment(kernel, [], false, [], false)
    {
      this.decode, this.kernel, hashed, active, buffer, headerDone := decode, kernel, [], false, [], false;
    }

    method StartSegment()
      modifies this
      ensures View() == Start(old(View()))
      ensures kernel == old(kernel) && hashed == [] && buffer == [] && active && !headerDone
    {
      hashed, active, buffer, headerDone := [], true, [], false;
    }

    method ApplyChunk(chunk: Bytes) returns (ok: bool)
      requires Progresses(decode)
      modifies this
      ensures Result(View(), ok) == Chunk(decode, old(View()), chunk)
      ensures !old(active) ==> !ok && View() == old(View())
    {
      hide Kernel.Apply;
      if !active { return false; }
      buffer := buffer + chunk;
      ghost var whole := Drain(decode, View());
      while true
        invariant active && Drain(decode, View()) == whole
        decreases |buffer|, !headerDone
      {
        if !headerDone {
          if |buffer| < HEADER_SIZE { return true; }
          if FromLe(buffer[8..12]) != DIM { return false; }
          hashed, buffer, headerDone := hashed + buffer[..HEADER_SIZE], buffer[HEADER_SIZE..], true;
        }
        if buffer == [] { return true; }
        match decode(buffer)
        case Incomplete => return true;
        case Malformed => return false;
        case Complete(e, n) =>
          var out := ApplyEvent(kernel, e);
          kernel := out.state;
          if out.err.Some? { return false; }
          hashed, buffer := hashed + buffer[..n], buffer[n..];
      }
    }
  }

  // ---- chunk invariance ---------------------------------------------------

  /** Draining `b` and then `b + c` from where that stopped is draining `b + c`. */
  ghost predicate Resumes(decode: Decoder, s: Segment, c: Bytes)
    requires Progresses(decode)
  {
    var part, whole := Drain(decode, s), Drain(decode, s.(buffer := s.buffer + c));
    if part.ok then whole == Drain(decode, part.seg.(buffer := part.seg.buffer + c))
    else whole == part.(seg := part.seg.(buffer := part.seg.buffer + c))
  }

  lemma {:induction false} TakeLonger(s: Segment, n: nat, c: Bytes)
    requires n <= |s.buffer|
    ensures Take(s.(buffer := s.buffer + c), n) == Take(s, n).(buffer := Take(s, n).buffer + c)
  {
    assert (s.buffer + c)[..n] == s.buffer[..n];
    assert (s.buffer + c)[n..] == s.buffer[n..] + c;
  }

  lemma {:induction false} EventsResume(decode: Decoder, s: Segment, c: Bytes)
    requires Progresses(decode) && PrefixStable(decode) && s.headerDone
    ensures Resumes(decode, s, c)
    decreases |s.buffer|
  {
    hide Kernel.Apply;
    if s.buffer == [] {
      assert s.buffer + c == c;
    } else if !decode(s.buffer).Incomplete? {
      assert decode(s.buffer + c) == decode(s.buffer);
      if decode(s.buffer).Complete? {
        var e, n := decode(s.buffer).event, decode(s.buffer).size;
        var out := ApplyEvent(s.kernel, e);
        if out.err.None? {
          var next := Take(s, n).(kernel := out.state);
          TakeLonger(s, n, c);
          EventsResume(decode, next, c);
        }
      }
    }
  }

  lemma {:induction false} DrainResumes(decode: Decoder, s: Segment, c: Bytes)
    requires Progresses(decode) && PrefixStable(decode)
    ensures Resumes(decode, s, c)
  {
    hide Events, Progresses, PrefixStable;
    var longer := s.(buffer := s.buffer + c);
    if s.headerDone {
      EventsResume(decode, s, c);
    } else if |s.buffer| >= HEADER_SIZE {
      assert longer.buffer[8..12] == s.buffer[8..12];
      if HeaderFits(s.buffer) {
        var body := Take(s, HEADER_SIZE).(headerDone := true);
        TakeLonger(s, HEADER_SIZE, c);
        EventsResume(decode, body, c);
      }
    }
  }

  lemma {:induction false} EventsKeepFlags(decode: Decoder, s: Segment)
    requires Progresses(decode)
    ensures Events(decode, s).seg.headerDone == s.headerDone && Events(decode, s).seg.active == s.active
    decreases |s.buffer|
  {
    hide Kernel.Apply;
    if s.buffer != [] && decode(s.buffer).Complete? {
      var out := ApplyEvent(s.kernel, decode(s.buffer).event);
      if out.err.None? { EventsKeepFlags(decode, Take(s, decode(s.buffer).size).(kernel := out.state)); }
    }
  }

  /** Feed chunk after chunk, stopping at the first that fails. */
  ghost function Chunks(decode: Decoder, s: Segment, chunks: seq<Bytes>): Result
    requires Progresses(decode)
  {
    if chunks == [] then Result(s, true)
    else
      var r := Chunks(decode, s, chunks[..|chunks| - 1]);
      if r.ok then Chunk(decode, r.seg, chunks[|chunks| - 1]) else r
  }

  /** Same verdict, kernel state and hash; on success the same leftover too. */
  predicate SameResult(a: Result, b: Result) {
    && a.ok == b.ok && a.seg.kernel == b.seg.kernel && a.seg.hashed == b.seg.hashed
    && (a.ok ==> a.seg == b.seg)
  }

  /** Any way of cutting a segment into chunks gives what feeding it whole gives. */
  lemma {:induction false} ChunkInvariance(decode: Decoder, s: Segment, chunks: seq<Bytes>)
    requires Progresses(decode) && PrefixStable(decode)
    ensures SameResult(Chunks(decode, Start(s), chunks), Chunk(decode, Start(s), Flatten(chunks)))
    ensures Chunks(decode, Start(s), chunks).seg.active
  {
    if chunks == [] {
    } else {
      hide Events, Kernel.Apply;
      var n := |chunks| - 1;
      var front, last := chunks[..n], chunks[n];
      ChunkInvariance(decode, s, front);
      var fed := Start(s).(buffer := Flatten(front));
      assert Start(s).buffer + Flatten(front) == Flatten(front) && Start(s).buffer + Flatten(chunks) == Flatten(front) + last;
      DrainResumes(decode, fed, last);
      KeepsActive(decode, Start(s).(buffer := Flatten(chunks)));
    }
  }

  lemma {:induction false} KeepsActive(decode: Decoder, s: Segment)
    requires Progresses(decode)
    ensures Drain(decode, s).seg.active == s.active
  {
    EventsKeepFlags(decode, s);
    if |s.buffer| >= HEADER_SIZE { EventsKeepFlags(decode, Take(s, HEADER_SIZE).(headerDone := true)); }
  }

  /** What was hashed and what is left over are together the bytes that came in; after a
      failure, those that came in up to the failing chunk. */
  predicate AccountsFor(r: Result, came: Bytes) {
    && r.seg.active
    && r.seg.hashed + r.seg.buffer <= came
    && (r.ok ==> r.seg.hashed + r.seg.buffer == came)
  }

  /** Nothing is dropped or hashed twice, however the segment is cut. */
  lemma {:induction false} BytesConserved(decode: Decoder, s: Segment, chunks: seq<Bytes>)
    requires Progresses(decode) && s.active
    ensures AccountsFor(Chunks(decode, s, chunks), s.hashed + s.buffer + Flatten(chunks))
  {
    if chunks == [] {
      assert s.hashed + s.buffer + Flatten(chunks) == s.hashed + s.buffer;
    } else {
      hide Chunk, AccountsFor;
      var n := |chunks| - 1;
      var came := s.hashed + s.buffer + Flatten(chunks[..n]);
      BytesConserved(decode, s, chunks[..n]);
      ChunkAccounts(decode, Chunks(decode, s, chunks[..n]), came, chunks[n]);
      assert came + chunks[n] == s.hashed + s.buffer + Flatten(chunks);
    }
  }

  lemma {:induction false} ChunkAccounts(decode: Decoder, r: Result, came: Bytes, chunk: Bytes)
    requires Progresses(decode) && AccountsFor(r, came)
    ensures AccountsFor(if r.ok then Chunk(decode, r.seg, chunk) else r, came + chunk)
  {
    hide Drain, Kernel.Apply;
    if r.ok {
      var fed := r.seg.(buffer := r.seg.buffer + chunk);
      DrainConserves(decode, fed);
      KeepsActive(decode, fed);
      assert fed.hashed + fed.buffer == came + chunk;
    }
  }

  lemma {:induction false} DrainConserves(decode: Decoder, s: Segment)
    requires Progresses(decode)
    ensures var r := Drain(decode, s); r.seg.hashed + r.seg.buffer == s.hashed + s.buffer
  {
    EventsConserve(decode, s);
    if |s.buffer| >= HEADER_SIZE {
      TakeConserves(s, HEADER_SIZE);
      EventsConserve(decode, Take(s, HEADER_SIZE).(headerDone := true));
    }
  }

  lemma {:induction false} TakeConserves(s: Segment, n: nat)
    requires n <= |s.buffer|
    ensures Take(s, n).hashed + Take(s, n).buffer == s.hashed + s.buffer
  {
    assert s.buffer == s.buffer[..n] + s.buffer[n..];
  }

  lemma {:induction false} EventsConserve(decode: Decoder, s: Segment)
    requires Progresses(decode)
    ensures var r := Events(decode, s); r.seg.hashed + r.seg.buffer == s.hashed + s.buffer
    decreases |s.buffer|
  {
    hide Kernel.Apply;
    if s.buffer != [] && decode(s.buffer).Complete? {
      var n, out := decode(s.buffer).size, ApplyEvent(s.kernel, decode(s.buffer).event);
      if out.err.None? {
        TakeConserves(s, n);
        EventsConserve(decode, Take(s, n).(kernel := out.state));
      }
    }
  }

  // ---- the kernel is a replay ---------------------------------------------

  /** The first `n` bytes are whole events. */
  ghost predicate Whole(decode: Decoder, b: Bytes, n: nat)
    requires Progresses(decode)
    decreases n
  {
    n == 0 || (decode(b).Complete? && decode(b).size <= n && Whole(decode, b[decode(b).size..], n - decode(b).size))
  }

  /** Those events, for namespace 0. */
  ghost function EventsIn(decode: Decoder, b: Bytes, n: nat): seq<(Kernel.Event, nat)>
    requires Progresses(decode) && Whole(decode, b, n)
    decreases n
  {
    if n == 0 then [] else [(decode(b).event, 0)] + EventsIn(decode, b[decode(b).size..], n - decode(b).size)
  }

  lemma {:induction false} ReplayFirst(s: Kernel.State, first: (Kernel.Event, nat), rest: seq<(Kernel.Event, nat)>)
    ensures RecordLists.Replay(s, [first] + rest) == RecordLists.Replay(Kernel.Apply(s, first.0, first.1).state, rest)
  {
    hide Kernel.Apply;
    var all := [first] + rest;
    if rest == [] {
      assert all == [first] && all[..0] == [];
    } else {
      var n := |rest| - 1;
      ReplayFirst(s, first, rest[..n]);
      assert all[..|all| - 1] == [first] + rest[..n];
    }
  }

  lemma {:induction false} RecordsApart(s: Kernel.State, r: Kernel.Record, keys: Keys)
    ensures Kernel.PushRecord(s.(keys := keys), r) == Kernel.PushRecord(s, r).(keys := keys)
    ensures Kernel.Unlink(s.(keys := keys), r) == Kernel.Unlink(s, r).(keys := keys)
    ensures Kernel.PushRecord(s, r).keys == s.keys && Kernel.Unlink(s, r).keys == s.keys
  {
    hide Kernel.SetNext, Kernel.SetPrev, Kernel.SetHead;
  }

  /** Equal but for the key table. */
  ghost predicate Apart(a: Kernel.Outcome, b: Kernel.Outcome) {
    a.err == b.err && a.state.(keys := map[]) == b.state.(keys := map[])
  }

  lemma {:induction false} PlainApart(s: Kernel.State, vector: seq<int>, metadata: Option<Bytes>, tag: nat, ns: nat, keys: Keys)
    ensures Apart(Kernel.Insert(s, vector, metadata, tag, ns), Kernel.Insert(s.(keys := keys), vector, metadata, tag, ns))
    ensures Kernel.Insert(s, vector, metadata, tag, ns).state.keys == s.keys
  {
    RecordsApart(s.(dim := Some(|vector|)), Kernel.Record(vector, metadata, tag, false, false, false, ns, None, None), keys);
    hide Kernel.PushRecord;
  }

  lemma {:induction false} SecretApart(s: Kernel.State, keyId: Kernel.KeyId, ciphertext: Bytes, tag: nat, ns: nat, keys: Keys)
    ensures Apart(Kernel.InsertEncrypted(s, keyId, ciphertext, tag, ns), Kernel.InsertEncrypted(s.(keys := keys), keyId, ciphertext, tag, ns))
    ensures var out := Kernel.InsertEncrypted(s, keyId, ciphertext, tag, ns); out.err.Some? ==> out.state.keys == s.keys
  {
    if s.dim.Some? {
      RecordsApart(s, Kernel.Record(seq(s.dim.value, _ => 0), Some(ciphertext), tag, false, true, false, ns, None, None), keys);
    }
    hide Kernel.PushRecord;
  }

  lemma {:induction false} InsertsApart(s: Kernel.State, e: Kernel.Event, keys: Keys)
    requires e.InsertRecord? || e.AutoInsertRecord? || e.InsertRecordEncrypted? || e.AutoInsertRecordEncrypted?
    ensures Apart(Kernel.Apply(s, e, 0), Kernel.Apply(s.(keys := keys), e, 0))
    ensures Kernel.Apply(s, e, 0).err.Some? ==> Kernel.Apply(s, e, 0).state.keys == s.keys
  {
    hide Kernel.Insert, Kernel.InsertEncrypted;
    match e
    case InsertRecord(_, v, m, t) => PlainApart(s, v, m, t, 0, keys);
    case AutoInsertRecord(v, m, t) => PlainApart(s, v, m, t, 0, keys);
    case InsertRecordEncrypted(_, k, c, t) => SecretApart(s, k, c, t, 0, keys);
    case AutoInsertRecordEncrypted(own, k, c, t) => SecretApart(s, k, c, t, own, keys);
  }

  lemma {:induction false} RemovalsApart(s: Kernel.State, e: Kernel.Event, keys: Keys)
    requires e.DeleteRecord? || e.SoftDeleteRecord? || e.DropNamespace?
    ensures Apart(Kernel.Apply(s, e, 0), Kernel.Apply(s.(keys := keys), e, 0))
    ensures Kernel.Apply(s, e, 0).err.Some? ==> Kernel.Apply(s, e, 0).state.keys == s.keys
  {
    if !e.DropNamespace? && IsLive(s.records, e.id) {
      RecordsApart(s, s.records[e.id].value, keys);
      UnlinkSize(s, s.records[e.id].value);
    }
    hide Kernel.Unlink, Kernel.WipeList, Kernel.DropNodes, Kernel.DropEdgesAt, Kernel.NodesIn;
  }

  lemma {:induction false} UnlinkSize(s: Kernel.State, r: Kernel.Record)
    ensures |Kernel.Unlink(s, r).records| == |s.records| && forall i :: IsLive(s.records, i) ==> IsLive(Kernel.Unlink(s, r).records, i)
  {
  }

  lemma {:induction false} NodeApart(s: Kernel.State, kind: nat, record: Option<nat>, keys: Keys)
    ensures Apart(Kernel.NewNode(s, kind, record, 0), Kernel.NewNode(s.(keys := keys), kind, record, 0))
    ensures Kernel.NewNode(s, kind, record, 0).state.keys == s.keys
  {
  }

  lemma {:induction false} EdgeApart(s: Kernel.State, kind: nat, from: nat, to: nat, keys: Keys)
    ensures Apart(Kernel.NewEdge(s, from, to, kind), Kernel.NewEdge(s.(keys := keys), from, to, kind))
    ensures Kernel.NewEdge(s, from, to, kind).state.keys == s.keys
  {
  }

  lemma {:induction false} CreatesApart(s: Kernel.State, e: Kernel.Event, keys: Keys)
    requires e.CreateNode? || e.AutoCreateNode? || e.CreateEdge? || e.AutoCreateEdge?
    ensures Apart(Kernel.Apply(s, e, 0), Kernel.Apply(s.(keys := keys), e, 0))
    ensures Kernel.Apply(s, e, 0).state.keys == s.keys
  {
    hide Kernel.NewNode, Kernel.NewEdge;
    match e
    case CreateNode(_, k, r) => NodeApart(s, k, r, keys);
    case AutoCreateNode(k, r) => NodeApart(s, k, r, keys);
    case CreateEdge(_, f, t, k) => EdgeApart(s, k, f, t, keys);
    case AutoCreateEdge(f, t, k) => EdgeApart(s, k, f, t, keys);
  }

  lemma {:induction false} DeletesApart(s: Kernel.State, e: Kernel.Event, keys: Keys)
    requires e.DeleteNode? || e.DeleteEdge?
    ensures Apart(Kernel.Apply(s, e, 0), Kernel.Apply(s.(keys := keys), e, 0))
    ensures Kernel.Apply(s, e, 0).state.keys == s.keys
  {
    hide Kernel.DropNodes, Kernel.DropEdgesAt;
  }

  lemma {:induction false} EditsApart(s: Kernel.State, e: Kernel.Event, keys: Keys)
    requires e.UpdateRecordMetadata? || e.SetMeta? || e.AutoCreateNamespace?
    ensures Apart(Kernel.Apply(s, e, 0), Kernel.Apply(s.(keys := keys), e, 0))
    ensures Kernel.Apply(s, e, 0).state.keys == s.keys
  {
  }

  /** What the key table holds makes no difference but to shredding. */
  lemma {:induction false} KeysApart(s: Kernel.State, e: Kernel.Event, keys: Keys)
    requires !e.ShredKey?
    ensures Apart(Kernel.Apply(s, e, 0), Kernel.Apply(s.(keys := keys), e, 0))
    ensures Kernel.Apply(s, e, 0).err.Some? ==> Kernel.Apply(s, e, 0).state.keys == s.keys
  {
    hide *;
    if e.InsertRecord? || e.AutoInsertRecord? || e.InsertRecordEncrypted? || e.AutoInsertRecordEncrypted? {
      InsertsApart(s, e, keys);
    } else if e.DeleteRecord? || e.SoftDeleteRecord? || e.DropNamespace? {
      RemovalsApart(s, e, keys);
    } else if e.CreateNode? || e.AutoCreateNode? || e.CreateEdge? || e.AutoCreateEdge? {
      CreatesApart(s, e, keys);
    } else if e.DeleteNode? || e.DeleteEdge? {
      DeletesApart(s, e, keys);
    } else {
      EditsApart(s, e, keys);
    }
  }

  /** The device stores an encrypted record like any kernel, and records no key for it. */
  lemma {:induction false} SecretOnDevice(s: Kernel.State, e: Kernel.Event)
    requires (e.InsertRecordEncrypted? || e.AutoInsertRecordEncrypted?) && ApplyEvent(s, e).err.None?
    ensures var t, ns := ApplyEvent(s, e).state, if e.InsertRecordEncrypted? then 0 else e.ownNs;
      && t.keys == s.keys && s.dim.Some?
      && exists zero :: KernelEffects.Stored(s.records, t.records, zero, Some(e.ciphertext), e.tag, true, ns) && KernelEffects.IsZero(zero, s.dim.value)
  {
    KernelEffects.ApplyEffect(s, e, 0);
    hide Kernel.Apply, KernelEffects.Stored, KernelEffects.IsZero;
  }

  /** The kernel keeps `before`, up to what refusing the event leaves; a device without a
      key table refuses every shredding. */
  ghost predicate RefusedAs(before: Kernel.State, e: Kernel.Event, after: Kernel.State) {
    if e.ShredKey? then after == before
    else Kernel.Apply(before, e, 0).err.Some? && after == Kernel.Apply(before, e, 0).state
  }

  /** Where draining stops, with `replayed` the kernel of the events taken so far. */
  ghost predicate StopsAt(decode: Decoder, kernel: Kernel.State, left: Bytes, ok: bool, replayed: Kernel.State) {
    if ok then kernel == replayed && (left == [] || decode(left).Incomplete?)
    else
      && left != [] && !decode(left).Incomplete?
      && (decode(left).Malformed? ==> kernel == replayed)
      && (decode(left).Complete? ==> RefusedAs(replayed, decode(left).event, kernel))
  }

  /** What draining buffer `b` leaves: `n` bytes taken, all whole events, and the kernel
      that `full` becomes by them, with the device's own key table. */
  ghost predicate DrainedTo(decode: Decoder, b: Bytes, hashed: Bytes, keys: Keys, full: Kernel.State, r: Result, n: nat)
    requires Progresses(decode)
  {
    && n <= |b| && r.seg.buffer == b[n..] && r.seg.hashed == hashed + b[..n] && Whole(decode, b, n)
    && StopsAt(decode, r.seg.kernel, b[n..], r.ok, RecordLists.Replay(full, EventsIn(decode, b, n)).(keys := keys))
  }

  lemma {:induction false} EventsReplay(decode: Decoder, s: Segment, full: Kernel.State) returns (n: nat)
    requires Progresses(decode) && s.kernel == full.(keys := s.kernel.keys)
    ensures DrainedTo(decode, s.buffer, s.hashed, s.kernel.keys, full, Events(decode, s), n)
    decreases |s.buffer|
  {
    hide RecordLists.Replay, Kernel.Apply, ApplyEvent, DrainedTo;
    n := 0;
    var r := Events(decode, s);
    if s.buffer != [] && decode(s.buffer).Complete? {
      var e, k := decode(s.buffer).event, decode(s.buffer).size;
      var out := ApplyEvent(s.kernel, e);
      EventOutcome(s.kernel, full, e);
      if out.err.None? {
        var next := Take(s, k).(kernel := out.state);
        var m := EventsReplay(decode, next, Kernel.Apply(full, e, 0).state);
        DrainedMore(decode, s.buffer, s.hashed, s.kernel.keys, full, r, m);
        n := k + m;
        return;
      }
    }
    NothingTaken(decode, s, full, r);
  }

  lemma {:induction false} NothingTaken(decode: Decoder, s: Segment, full: Kernel.State, r: Result)
    requires Progresses(decode) && s.kernel == full.(keys := s.kernel.keys)
    requires r.seg.buffer == s.buffer && r.seg.hashed == s.hashed && StopsAt(decode, r.seg.kernel, r.seg.buffer, r.ok, s.kernel)
    ensures DrainedTo(decode, s.buffer, s.hashed, s.kernel.keys, full, r, 0)
  {
    hide StopsAt;
    assert s.buffer[0..] == s.buffer && s.buffer[..0] == [] && s.hashed + [] == s.hashed;
    assert EventsIn(decode, s.buffer, 0) == [] && RecordLists.Replay(full, []) == full;
  }

  lemma {:induction false} EventOutcome(own: Kernel.State, full: Kernel.State, e: Kernel.Event)
    requires own == full.(keys := own.keys)
    ensures var out := ApplyEvent(own, e);
      && out.state.keys == own.keys
      && (out.err.Some? ==> RefusedAs(own, e, out.state))
      && (out.err.None? ==> !e.ShredKey? && out.state == Kernel.Apply(full, e, 0).state.(keys := own.keys))
  {
    if !e.ShredKey? {
      KeysApart(full, e, own.keys);
      KeysApart(own, e, own.keys);
    }
    hide Kernel.Apply;
  }

  lemma {:induction false} WholeMore(decode: Decoder, b: Bytes, m: nat)
    requires Progresses(decode) && decode(b).Complete? && Whole(decode, b[decode(b).size..], m)
    ensures var k := decode(b).size;
      0 < k <= |b| && Whole(decode, b, k + m) && EventsIn(decode, b, k + m) == [(decode(b).event, 0)] + EventsIn(decode, b[k..], m)
  {
  }

  lemma {:induction false} DrainedMore(decode: Decoder, b: Bytes, hashed: Bytes, keys: Keys, full: Kernel.State, r: Result, m: nat)
    requires Progresses(decode) && decode(b).Complete?
    requires DrainedTo(decode, b[decode(b).size..], hashed + b[..decode(b).size], keys, Kernel.Apply(full, decode(b).event, 0).state, r, m)
    ensures DrainedTo(decode, b, hashed, keys, full, r, decode(b).size + m)
  {
    var k := decode(b).size;
    hide Kernel.Apply, StopsAt, RecordLists.Replay, Whole, EventsIn, Progresses;
    WholeMore(decode, b, m);
    ReplayFirst(full, (decode(b).event, 0), EventsIn(decode, b[k..], m));
    TakeTwice(hashed, b, k, m);
  }

  lemma {:induction false} TakeTwice(h: Bytes, b: Bytes, k: nat, m: nat)
    requires k + m <= |b|
    ensures b[k..][m..] == b[k + m..] && h + b[..k] + b[k..][..m] == h + b[..k + m]
  {
    assert b[..k] + b[k..][..m] == b[..k + m];
  }

  /** What is left of a segment of which `came` has come in. Nothing is applied before a
      fitting header, and from then on the kernel is the replay of exactly the events in
      the bytes hashed after it, up to what a refused event leaves. */
  ghost predicate Replays(decode: Decoder, kernel: Kernel.State, came: Bytes, r: Result)
    requires Progresses(decode)
  {
    var n := |r.seg.hashed|;
    && n <= |came| && r.seg.hashed == came[..n]
    && (n == 0 ==> r.seg.kernel == kernel && (r.ok <==> |came| < 16) && (|came| >= 16 ==> FromLe(came[8..12]) != 128))
    && (n > 0 ==>
          && n >= 16 && FromLe(came[8..12]) == 128 && Whole(decode, came[16..], n - 16)
          && StopsAt(decode, r.seg.kernel, came[n..], r.ok, RecordLists.Replay(kernel, EventsIn(decode, came[16..], n - 16)).(keys := kernel.keys)))
  }

  lemma {:induction false} BodyReplays(decode: Decoder, came: Bytes, kernel: Kernel.State, r: Result, m: nat)
    requires Progresses(decode) && HeaderFits(came)
    requires DrainedTo(decode, came[HEADER_SIZE..], came[..HEADER_SIZE], kernel.keys, kernel, r, m)
    ensures Replays(decode, kernel, came, r)
  {
    hide StopsAt, Whole, EventsIn, RecordLists.Replay;
    TakeTwice([], came, HEADER_SIZE, m);
    assert [] + came[..HEADER_SIZE] == came[..HEADER_SIZE] && [] + came[..HEADER_SIZE + m] == came[..HEADER_SIZE + m];
  }

  lemma {:induction false} WholeReplays(decode: Decoder, s: Segment, came: Bytes)
    requires Progresses(decode)
    ensures Replays(decode, s.kernel, came, Chunk(decode, Start(s), came))
  {
    hide Events, StopsAt, Whole, EventsIn, RecordLists.Replay;
    assert Start(s).buffer + came == came;
    if HeaderFits(came) {
      var body := Take(Start(s).(buffer := came), HEADER_SIZE).(headerDone := true);
      assert body.hashed == came[..HEADER_SIZE];
      assert Chunk(decode, Start(s), came) == Events(decode, body);
      var m := EventsReplay(decode, body, s.kernel);
      hide Chunk, Replays, DrainedTo;
      BodyReplays(decode, came, s.kernel, Events(decode, body), m);
    }
  }

  lemma {:induction false} SameReplays(decode: Decoder, kernel: Kernel.State, came: Bytes, a: Result, b: Result)
    requires Progresses(decode) && SameResult(a, b) && Replays(decode, kernel, came, b)
    ensures Replays(decode, kernel, came, a)
  {
    hide StopsAt, Whole, EventsIn, RecordLists.Replay, HeaderFits;
  }

  /** A whole segment, however it was cut into chunks. */
  lemma {:induction false} SegmentReplays(decode: Decoder, s: Segment, chunks: seq<Bytes>)
    requires Progresses(decode) && PrefixStable(decode)
    ensures Replays(decode, s.kernel, Flatten(chunks), Chunks(decode, Start(s), chunks))
  {
    hide *;
    ChunkInvariance(decode, s, chunks);
    WholeReplays(decode, s, Flatten(chunks));
    SameReplays(decode, s.kernel, Flatten(chunks), Chunks(decode, Start(s), chunks), Chunk(decode, Start(s), Flatten(chunks)));
  }
}
