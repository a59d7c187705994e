/**
  The retrying client and the dedup window together: one idempotency key, sent
  again and again over a network that loses, delays and duplicates, takes effect
  at most once, and an answer of success means it took effect.
 */
module RetryingClient {
  import opened Basics
  import Kernel
  import opened Replica
  import KernelSnapshot
  import opened ReplicaProperties

  /** What comes back from one attempt. `at` is the log position of the copy that
      was answered; `moved` is the base the redirects ended at, if any were followed. */
  datatype Response =
    | Answer(code: nat, moved: Option<Option<string>>, readable: bool, at: nat)
    | ConnectionError
    | OtherFailure

  datatype Outcome = Returned(at: nat) | NotFound | NotAuthorized | Invalid | Broken | NoLeader

  datatype Sent = Sent(base: string, path: string, req: Request)

  predicate Retryable(r: Response) {
    r.ConnectionError? || (r.Answer? && (r.code == 307 || r.code == 503))
  }

  /** What a response that is not retried means to the caller. */
  function Verdict(r: Response): Outcome
    requires !Retryable(r)
  {
    if r.OtherFailure? then Broken
    else if r.code == 404 then NotFound
    else if r.code == 401 || r.code == 403 then NotAuthorized
    else if r.code == 400 || r.code == 409 || r.code == 413 || r.code == 422 then Invalid
    else if 400 <= r.code < 600 || !r.readable then Broken
    else Returned(r.at)
  }

  /** What an answer means by its status code: 307 and 503 are tried again, 404, 401 and
      403, and 400, 409, 413 and 422 are errors of their own, every other code from 400
      to 599 is a failure, and the rest returns if its body can be read. */
  lemma {:induction false} StatusCodes(r: Response)
    requires r.Answer?
    ensures Retryable(r) <==> r.code in {307, 503}
    ensures !Retryable(r) ==>
      && (Verdict(r) == NotFound <==> r.code == 404)
      && (Verdict(r) == NotAuthorized <==> r.code in {401, 403})
      && (Verdict(r) == Invalid <==> r.code in {400, 409, 413, 422})
      && (Verdict(r).Returned? <==> (r.code < 400 || r.code >= 600) && r.readable)
      && (Verdict(r).Returned? ==> Verdict(r).at == r.at)
      && Verdict(r) != NoLeader
  {
  }

  /** Without an answer: a lost connection is tried again, any other failure is not. */
  lemma {:induction false} NoAnswer(r: Response)
    requires !r.Answer?
    ensures if r.ConnectionError? then Retryable(r) else !Retryable(r) && Verdict(r) == Broken
  {
  }

  /** The known leader, unless there is none or its address is empty. */
  function LeaderOr(leader: Option<string>, base: string): string {
    if leader.Some? && leader.value != "" then leader.value else base
  }

  class Transport {
    const baseUrl: string
    const maxRetries: int
    var leaderUrl: Option<string>

    constructor (baseUrl: string, maxRetries: int)
      ensures this.baseUrl == baseUrl && this.maxRetries == maxRetries && leaderUrl == None
    {
      this.baseUrl, this.maxRetries, leaderUrl := baseUrl, maxRetries, None;
    }

    /** `network[k]` is what happens to attempt `k`. Every attempt carries the same
        request. The first response that is not retried decides the outcome; there are
        never more than `maxRetries + 1` attempts, and the leader is forgotten after
        each failed one. */
    method PostRpc(path: string, req: Request, network: seq<Response>) returns (outcome: Outcome, sent: seq<Sent>)
      requires |network| > maxRetries
      modifies this
      ensures |sent| <= if maxRetries < 0 then 0 else maxRetries + 1
      ensures forall k :: 0 <= k < |sent| ==> sent[k].req == req && sent[k].path == path
      ensures forall k :: 0 <= k < |sent| - 1 ==> Retryable(network[k])
      ensures forall k :: 0 <= k < |sent| ==>
        sent[k].base == if k == 0 && old(leaderUrl).Some? && old(leaderUrl).value != "" then old(leaderUrl).value else baseUrl
      ensures outcome.NoLeader? <==> forall k :: 0 <= k <= maxRetries ==> Retryable(network[k])
      ensures outcome.NoLeader? ==> |sent| == (if maxRetries < 0 then 0 else maxRetries + 1) && (|sent| > 0 ==> leaderUrl == None)
      ensures !outcome.NoLeader? ==>
        && sent != [] && !Retryable(network[|sent| - 1]) && outcome == Verdict(network[|sent| - 1])
        && var answer := network[|sent| - 1];
           leaderUrl == if answer.Answer? && (answer.code < 400 || answer.code >= 600) && answer.moved.Some? then answer.moved.value
                        else if |sent| > 1 then None else old(leaderUrl)
    {
      sent := [];
      var attempt := 0;
      while attempt <= maxRetries
        invariant attempt <= if maxRetries < 0 then 0 else maxRetries + 1
        invariant |sent| == attempt && leaderUrl == if attempt == 0 then old(leaderUrl) else None
        invariant forall k :: 0 <= k < attempt ==> Retryable(network[k])
        invariant forall k :: 0 <= k < attempt ==> sent[k].req == req && sent[k].path == path
        invariant forall k :: 0 <= k < attempt ==> sent[k].base == if k == 0 then LeaderOr(old(leaderUrl), baseUrl) else baseUrl
      {
        var base := LeaderOr(leaderUrl, baseUrl);
        sent := sent + [Sent(base, path, req)];
        var resp := network[attempt];
        if Retryable(resp) {
          leaderUrl := None;
          attempt := attempt + 1;
        } else {
          if resp.Answer? && (resp.code < 400 || resp.code >= 600) && resp.moved.Some? { leaderUrl := resp.moved.value; }
          return Verdict(resp), sent;
        }
      }
      return NoLeader, sent;
    }
  }

  // ---- the key in the log -------------------------------------------------

  predicate Carries(e: Entry, key: RequestId) {
    e.payload.Normal? && e.payload.req.requestId == Some(key)
  }

  /** Entry `i` of the run took effect. */
  predicate TookEffect(dim: nat, entries: seq<Entry>, i: nat)
    requires i < |entries|
  {
    Run(Fresh(dim), entries).audited[i].Some?
  }

  predicate Effective(dim: nat, entries: seq<Entry>, i: nat, key: RequestId)
    requires i < |entries|
  {
    Carries(entries[i], key) && TookEffect(dim, entries, i)
  }

  /** Keyed requests accepted at positions `i` up to `j`. */
  function KeyedBetween(dim: nat, entries: seq<Entry>, i: nat, j: nat): seq<RequestId>
    requires i <= j <= |entries|
  {
    AcceptedIds(Run(Fresh(dim), entries).audited[i..j])
  }

  lemma {:induction false} AcceptedIdsJoin(a: seq<Option<AuditRecord>>, b: seq<Option<AuditRecord>>)
    ensures AcceptedIds(a + b) == AcceptedIds(a) + AcceptedIds(b)
  {
    if b == [] {
      assert a + b == a;
    } else {
      assert (a + b)[..|a + b| - 1] == a + b[..|b| - 1];
      AcceptedIdsJoin(a, b[..|b| - 1]);
    }
  }

  lemma {:induction false} RunPrefix(core: Core, entries: seq<Entry>, i: nat)
    requires i <= |entries|
    ensures Run(core, entries[..i]).audited == Run(core, entries).audited[..i]
    ensures Run(core, entries[..i]).replies == Run(core, entries).replies[..i]
  {
    hide Run;
    RunJoin(core, entries[..i], entries[i..]);
    assert entries == entries[..i] + entries[i..];
  }

  /** A request that reaches the dedup check is answered as a duplicate if and only if
      its key is among the last `MAX_DEDUP_ENTRIES` accepted ones; a duplicate's answer
      carries no allocated id and the replicated state is untouched. */
  lemma {:induction false} DuplicateIff(dim: nat, entries: seq<Entry>, j: nat, key: RequestId)
    requires j < |entries| && Carries(entries[j], key) && entries[j].payload.req.schemaVersion <= CURRENT_SCHEMA_VERSION
    ensures var reply := Run(Fresh(dim), entries).replies[j];
      && (reply.deduplicated <==> key in LastN(KeyedBetween(dim, entries, 0, j), MAX_DEDUP_ENTRIES))
      && (reply.deduplicated ==>
            && reply.recordId.None? && reply.nodeId.None? && reply.edgeId.None? && reply.namespaceId.None?
            && Run(Fresh(dim), entries[..j + 1]).core == Run(Fresh(dim), entries[..j]).core
            && !TookEffect(dim, entries, j))
  {
    hide Run, Fresh, Attempt, KernelSnapshot.Hash, AcceptedIds, LastN;
    RunAt(Fresh(dim), entries, j);
    RunPrefix(Fresh(dim), entries, j);
    DedupWindow(dim, entries[..j]);
    assert Run(Fresh(dim), entries).audited[0..j] == Run(Fresh(dim), entries).audited[..j];
    AttemptIsNew(Run(Fresh(dim), entries[..j]).core, entries[j].logId.index, entries[j].payload.req);
  }

  lemma {:induction false} AttemptIsNew(core: Core, index: nat, req: Request)
    ensures !Attempt(core, index, req).reply.deduplicated
  {
    hide Kernel.Apply, KernelSnapshot.Hash;
  }

  lemma {:induction false} EffectIsNew(dim: nat, entries: seq<Entry>, i: nat)
    requires i < |entries| && TookEffect(dim, entries, i)
    ensures var a := Run(Fresh(dim), entries).audited[i].value;
      && entries[i].payload.Normal? && a.requestId == entries[i].payload.req.requestId
      && (a.requestId.Some? ==> a.requestId.value !in LastN(KeyedBetween(dim, entries, 0, i), MAX_DEDUP_ENTRIES))
  {
    hide Run, Fresh, Apply, AcceptedIds, LastN;
    RunAt(Fresh(dim), entries, i);
    RunPrefix(Fresh(dim), entries, i);
    DedupWindow(dim, entries[..i]);
    assert Run(Fresh(dim), entries).audited[0..i] == Run(Fresh(dim), entries).audited[..i];
    ApplyDedup(Run(Fresh(dim), entries[..i]).core, entries[i]);
  }

  lemma {:induction false} KeyedSplit(dim: nat, entries: seq<Entry>, i: nat, j: nat, key: RequestId)
    requires i < j <= |entries| && Effective(dim, entries, i, key)
    ensures KeyedBetween(dim, entries, 0, j) == KeyedBetween(dim, entries, 0, i) + [key] + KeyedBetween(dim, entries, i + 1, j)
  {
    EffectIsNew(dim, entries, i);
    hide Run, Fresh, LastN;
    var audited := Run(Fresh(dim), entries).audited;
    assert audited[0..i + 1] == audited[0..i] + [audited[i]] && audited[0..j] == audited[0..i + 1] + audited[i + 1..j];
    AcceptedIdsJoin(audited[0..i], [audited[i]]);
    AcceptedIdsJoin(audited[0..i + 1], audited[i + 1..j]);
    assert [audited[i]][..0] == [] && AcceptedIds([audited[i]]) == AcceptedIds([]) + [key];
  }

  /** Two copies of a key take effect only with a full window of other accepted keys
      between them. */
  lemma {:induction false} TwiceNeedsFullWindow(dim: nat, entries: seq<Entry>, i: nat, j: nat, key: RequestId)
    requires i < j < |entries| && Effective(dim, entries, i, key) && Effective(dim, entries, j, key)
    ensures |KeyedBetween(dim, entries, i + 1, j)| >= MAX_DEDUP_ENTRIES
  {
    hide Run, Fresh, LastN, KeyedBetween;
    EffectIsNew(dim, entries, j);
    KeyedSplit(dim, entries, i, j, key);
    KeyInWindow(KeyedBetween(dim, entries, 0, i), KeyedBetween(dim, entries, i + 1, j), key, MAX_DEDUP_ENTRIES);
  }

  lemma {:induction false} KeyInWindow(before: seq<RequestId>, after: seq<RequestId>, key: RequestId, n: nat)
    ensures key in LastN(before + [key] + after, n) || |after| >= n
  {
    var all := before + [key] + after;
    if |after| < n {
      assert all[|before|] == key;
      var w := LastN(all, n);
      assert w == all[|all| - |w|..] && |w| > |after|;
      assert w[|w| - |after| - 1] == key;
    }
  }

  /** Fewer than a window of other keyed requests are accepted between one effective
      copy and any later copy. */
  ghost predicate WithinWindow(dim: nat, entries: seq<Entry>, key: RequestId) {
    forall i, j :: 0 <= i < j < |entries| && Effective(dim, entries, i, key) && Carries(entries[j], key) ==>
      |KeyedBetween(dim, entries, i + 1, j)| < MAX_DEDUP_ENTRIES
  }

  lemma {:induction false} IdCameFrom(audited: seq<Option<AuditRecord>>, key: RequestId)
    requires key in AcceptedIds(audited)
    ensures exists i :: 0 <= i < |audited| && audited[i].Some? && audited[i].value.requestId == Some(key)
  {
    var n := |audited| - 1;
    if audited[n].Some? && audited[n].value.requestId == Some(key) {
    } else {
      IdCameFrom(audited[..n], key);
      var i :| 0 <= i < |audited[..n]| && audited[..n][i].Some? && audited[..n][i].value.requestId == Some(key);
      assert audited[i] == audited[..n][i];
    }
  }

  /** If the copy at position `at` was answered without a rejection, exactly one copy of
      the key takes effect in the whole log, at or before `at`. */
  lemma {:induction false} AnsweredMeansExactlyOnce(dim: nat, entries: seq<Entry>, key: RequestId, at: nat) returns (once: nat)
    requires WithinWindow(dim, entries, key)
    requires at < |entries| && Carries(entries[at], key) && Run(Fresh(dim), entries).replies[at].rejected.None?
    ensures once <= at && Effective(dim, entries, once, key)
    ensures forall i :: 0 <= i < |entries| && Effective(dim, entries, i, key) ==> i == once
  {
    hide Run, Fresh;
    if TookEffect(dim, entries, at) {
      once := at;
    } else {
      once := FirstEffect(dim, entries, key, at);
    }
    AtMostOnce(dim, entries, key);
  }

  // ---- the call and the log -----------------------------------------------

  /** The copies of the key in the log, however many and wherever the network let them
      in, are copies of this request. */
  ghost predicate CopiesOf(entries: seq<Entry>, req: Request) {
    forall i :: 0 <= i < |entries| && req.requestId.Some? && Carries(entries[i], req.requestId.value) ==> entries[i].payload == Normal(req)
  }

  /** An answer of success is given for a copy in the log that was not rejected. */
  ghost predicate Truthful(dim: nat, entries: seq<Entry>, req: Request, network: seq<Response>) {
    forall k :: 0 <= k < |network| && !Retryable(network[k]) && Verdict(network[k]).Returned? ==> Honest(dim, entries, req, network[k].at)
  }

  predicate Honest(dim: nat, entries: seq<Entry>, req: Request, at: nat) {
    at < |entries| && entries[at].payload == Normal(req) && Run(Fresh(dim), entries).replies[at].rejected.None?
  }

  /** The whole loop, end to end. Every attempt carries the keyed request. Whatever the
      outcome, at most one copy of it takes effect; if the call returns, exactly one does,
      no later than the copy that was answered. */
  method CallOnce(client: Transport, path: string, req: Request, network: seq<Response>, ghost dim: nat, ghost entries: seq<Entry>)
    returns (outcome: Outcome, sent: seq<Sent>, ghost once: nat)
    requires |network| > client.maxRetries && req.requestId.Some?
    requires CopiesOf(entries, req) && Truthful(dim, entries, req, network) && WithinWindow(dim, entries, req.requestId.value)
    modifies client
    ensures forall k :: 0 <= k < |sent| ==> sent[k].req == req && sent[k].path == path
    ensures forall i, j :: 0 <= i < j < |entries| ==>
      !(Effective(dim, entries, i, req.requestId.value) && Effective(dim, entries, j, req.requestId.value))
    ensures outcome.Returned? ==>
      && once <= outcome.at < |entries| && entries[once].payload == Normal(req)
      && forall i :: 0 <= i < |entries| ==> (Effective(dim, entries, i, req.requestId.value) <==> i == once)
  {
    hide Effective, WithinWindow, Run, Fresh;
    once := 0;
    outcome, sent := client.PostRpc(path, req, network);
    AtMostOnce(dim, entries, req.requestId.value);
    if outcome.Returned? {
      assert Honest(dim, entries, req, network[|sent| - 1].at);
      once := AnsweredMeansExactlyOnce(dim, entries, req.requestId.value, outcome.at);
      EffectiveCarries(dim, entries, once, req.requestId.value);
    }
  }

  lemma {:induction false} EffectiveCarries(dim: nat, entries: seq<Entry>, i: nat, key: RequestId)
    requires i < |entries| && Effective(dim, entries, i, key)
    ensures Carries(entries[i], key)
  {
  }

  lemma {:induction false} FirstEffect(dim: nat, entries: seq<Entry>, key: RequestId, at: nat) returns (once: nat)
    requires at < |entries| && Carries(entries[at], key) && Run(Fresh(dim), entries).replies[at].rejected.None? && !TookEffect(dim, entries, at)
    ensures once < at && Effective(dim, entries, once, key)
  {
    hide Run, Fresh, AcceptedIds, LastN;
    SilentReply(dim, entries, at);
    DuplicateIff(dim, entries, at, key);
    var before := Run(Fresh(dim), entries).audited[0..at];
    LastNIn(KeyedBetween(dim, entries, 0, at), MAX_DEDUP_ENTRIES, key);
    IdCameFrom(before, key);
    once :| 0 <= once < |before| && before[once].Some? && before[once].value.requestId == Some(key);
    assert Run(Fresh(dim), entries).audited[once] == before[once];
    EffectIsNew(dim, entries, once);
  }

  lemma {:induction false} LastNIn<T>(s: seq<T>, n: nat, x: T)
    ensures x in LastN(s, n) ==> x in s
  {
  }

  /** A keyed request that is neither rejected nor effective was a duplicate. */
  lemma {:induction false} SilentReply(dim: nat, entries: seq<Entry>, at: nat)
    requires at < |entries| && entries[at].payload.Normal?
    requires Run(Fresh(dim), entries).replies[at].rejected.None? && !TookEffect(dim, entries, at)
    ensures Run(Fresh(dim), entries).replies[at].deduplicated
    ensures entries[at].payload.req.schemaVersion <= CURRENT_SCHEMA_VERSION
  {
    hide Run, Fresh, Kernel.Apply, KernelSnapshot.Hash;
    RunAt(Fresh(dim), entries, at);
  }

  /** However often the key was sent, lost, delayed or duplicated, at most one copy
      takes effect. */
  lemma {:induction false} AtMostOnce(dim: nat, entries: seq<Entry>, key: RequestId)
    requires WithinWindow(dim, entries, key)
    ensures forall i, j :: 0 <= i < |entries| && 0 <= j < |entries| && Effective(dim, entries, i, key) && Effective(dim, entries, j, key) ==> i == j
  {
    hide KeyedBetween;
    forall i, j | 0 <= i < j < |entries| && Effective(dim, entries, i, key) && Effective(dim, entries, j, key) ensures false {
      TwiceNeedsFullWindow(dim, entries, i, j, key);
    }
  }
}
