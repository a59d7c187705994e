# Valori verification model

A Dafny model of the replicated vector kernel of Valori and of the tools around
it, with proofs of what they promise over whole runs. Each module models one
part of the system:

- `Kernel`, `KernelInvariants`, `KernelEffects`, `RecordLists`, `KernelSnapshot`:
  the event-sourced kernel with its record lists threaded through the pool, what
  each event does, the snapshot codec and the state hash.
- `Registry`, `Replica`, `ReplicaProperties`, `Namespaces`, `Answers`: what one
  committed log entry does to the replicated state and answers, and what every
  run of entries keeps.
- `Node`, `StateMachine`: one cluster node, first as values and functions, then
  as the object the source has (fields updated in place, a dedup set beside the
  queue, a database, an audit sink), every method proved against its function.
  `Driving` takes the object through whole histories.
- `NodeRuns`, `Histories`, `AuditTrail`, `Memberships`, `Schedules`: all schedules
  of batches, snapshots taken and installed, crashes in the middle of a batch,
  failing audit writes and restarts; what the audit log then holds, where the
  membership ends up, and short schedules on which the promises fail.
- `RetryingClient`: the retrying client together with the dedup window.
- `LogStore`: the in-memory and the transactional Raft log store.
- `Shadow`, `Transport`: the device's incremental log decoder and its framed
  serial transport over a ring buffer.
- `Text`, `Headings`, `Receipts`, `Chunking`: the tree index of a document, the
  receipt chain, and the text chunkers.
- `Walk`, `Dependencies`: the breadth-first graph walk, and the dependency tool.
- `Basics`, `Utf8`: shared vocabulary, and what the UTF-8 test accepts.

`dafny verify dfyconfig.toml` checks everything.

## Where the code and its promises part

These are proved, with the exact condition under which the promise holds.

- A rejected event is said to leave the kernel untouched. Oversized metadata on
  the first insert is rejected after the dimension has been locked
  (`KernelInvariants.RefusalKeepsStateIff`).
- A snapshot is said to restore the state. It loses trailing holes in the node
  and edge pools, the encryption key table, empty metadata and a zero
  dimension, and cannot be read back at all with holes elsewhere, oversized
  updated metadata, a sidecar text that is not UTF-8 or a node whose record was
  deleted (`KernelSnapshot.RoundTripIff`, `KernelSnapshot.AcceptEncode`). Theorems
  about histories therefore ask that a restart find a snapshot of a faithful state
  on disk and that an installed snapshot be of a faithful state of a node on the
  same log; what membership it brings does not matter but to the theorems about
  memberships. That is exactly when the node holds the replay of the log
  (`Histories.ReplaysIff`).
- A record can be soft-deleted or deleted again after a soft delete; the second
  removal replays stale links (`RecordLists.RemoveTwiceIff`) and can make a
  namespace drop miss a live record (`RecordLists.DropMissesLiveRecord`); a drop
  misses none exactly when the list leads to all (`RecordLists.DropEmptiesIff`).
- The applied mark is written during catch-up too and can go back, so audit
  records can repeat even if crashes fall between batches
  (`Schedules.CatchUpCrashRepeats`); how often is counted exactly, and each owed
  position is written once if and only if the schedule meets a condition on its
  acts (`AuditTrail.ExactlyOnceIff`).
- An installed snapshot skips the audit log (`Schedules.InstallSkips`); whether
  anything is missing is an if-and-only-if over the installs of the schedule
  (`AuditTrail.AuditCompleteIff`).
- An installed snapshot brings its membership, but only the snapshot is
  persisted (`Schedules.InstallLosesMembership`,
  `Memberships.InstalledMembershipSurvivesIff`); the next membership entry puts it
  right (`Memberships.MembershipRecovers`).
- The registry is said never to diverge from the kernel. The kernel keeps no
  list of namespaces and takes any namespace number below 1024
  (`Namespaces.UnaddressedAccepted`, `Namespaces.HousedRunIff`).
- The two log stores differ when purging at the largest 64-bit index, and only
  then (`LogStore.PurgesAgreeIff`, `LogStore.StoresAgreeIff`).
- The head of a receipt log is said to commit to the whole history. The ids in a
  receipt are joined with commas, so it does if no id holds a comma and no list is
  one empty id (`Receipts.HeadCommitsFields`), and every other list of ids has a
  log with the same head and other ids (`Receipts.HeadDoesNotCommit`).

## Model

| member | source | states |
|---|---|---|
| `Histories.HistoryInv` | crates/valori-consensus/src/state_machine.rs:562-828 | Over every history of batches, snapshots taken and installed, mid-batch crashes, failing audit writes and restarts: no restart is refused and every state reached keeps the node invariant, provided restarts use snapshots of faithful states and the snapshots installed are of faithful states of nodes on the same log. |
| `Histories.ReplaysIff` | crates/valori-consensus/src/state_machine.rs:320-472 | That proviso is exact: with snapshots installed from any nodes on the same log, the node is there and holds the replay of the log at every point of the history if and only if every restart and every install is from a snapshot of a faithful state. |
| `Histories.HistoryIsReplay` | crates/valori-consensus/src/state_machine.rs:370-454 | After any such history, installed snapshots included, the kernel, dedup queue, registry and corpus are those of a node that replayed the log up to `last_applied` without ever stopping, and so are all further replies. |
| `Histories.RestartRefines` | crates/valori-consensus/src/state_machine.rs:370-454 | A node crashed between batches and caught up to its old position has the replicated state it lost, the same `last_applied`, and has audited nothing again. |
| `Histories.CatchUpSilent` | crates/valori-consensus/src/state_machine.rs:743-759 | Entries at or below the replay mark never touch the audit sink and never clear the mark. |
| `Histories.ReplicasAgree` | crates/valori-consensus/src/state_machine.rs:562-828 | Two nodes equal on the replicated state, with any clocks, timestamps, sinks and replay marks, fed the same entries under any two batch splits, end equal on it and give equal reply sequences. |
| `Histories.BatchCore` | crates/valori-consensus/src/state_machine.rs:562-828 | What a batch does to the replicated state and answers is the pure run of its entries. |
| `Histories.BatchStamps` | crates/valori-consensus/src/state_machine.rs:760-768 | A completed batch stamps each record it allocated with the clock reading of its entry, and touches no other timestamp. |
| `Histories.FailedBatchLeaves` | crates/valori-consensus/src/state_machine.rs:755-759 | A batch whose audit write failed has answered the entries before it, and kernel and dedup queue are already as after the failing entry, a new name is registered, but its text is not indexed and a dropped name is still there. |
| `Histories.SnapshotPlusSuffix` | crates/valori-consensus/src/state_machine.rs:840-883 | Installing a snapshot taken after `p` on a node in any state and applying `s` gives the state and replies of applying `p + s` when the snapshot was of a faithful state; when it was not, it is refused or installs another state. |
| `Histories.InstallOutcome` | crates/valori-consensus/src/state_machine.rs:840-883 | For snapshots of reachable states: exactly which are refused, that a refusal changes nothing, what an accepted one brings (state, membership, timestamps, position, but no replay mark), and that it restores the very state if and only if that state is faithful. |
| `Histories.RestartOutcome` | crates/valori-consensus/src/state_machine.rs:370-454 | The same for a restart from the table: timestamps and position come from the snapshot, membership and replay mark from the table; and the id a snapshot is given. |
| `AuditTrail.AuditCompleteIff` | crates/valori-consensus/src/state_machine.rs:743-759 | Over every history each audit record is one the log owes at its position, and every event accepted up to `last_applied` is there if and only if no installed snapshot skipped a stretch that owes something, counted from the furthest position the node had ever dealt with. |
| `AuditTrail.NothingLost` | crates/valori-consensus/src/state_machine.rs:743-759 | Over every history whose installs skip nothing owed (in particular without installs), every event the log accepts up to `last_applied` is in the audit log, in log order. |
| `AuditTrail.ExactlyOnceIff` | crates/valori-consensus/src/state_machine.rs:320-472 | Over every history: the positions written are exactly those owed up to the furthest dealt with, each once and in log order, if and only if no install skipped a stretch that owes something and no act wrote again for a position already gone past. Conservation: records plus what installs skipped equal what the log owes plus what restarts repeated. On records, if installs skip nothing: they are the owed sequence if and only if at every restart nothing was accepted between the mark on disk and the furthest entry processed. |
| `AuditTrail.OnceStep` | crates/valori-consensus/src/state_machine.rs:743-759 | One act keeps the positions written exactly the owed ones if and only if it skips nothing owed and writes nothing again. |
| `AuditTrail.QuietCrashesExactlyOnce` | crates/valori-consensus/src/state_machine.rs:320-472 | When crashes fall between batches and only after catch-up has passed the replay mark, no audit write fails and installs skip nothing, every accepted event is audited exactly once, in log order. |
| `AuditTrail.ActWrites` | crates/valori-consensus/src/state_machine.rs:824-827 | What each act adds to the audit log and where it leaves the mark, the mark a restart resumes from, and the furthest position dealt with. |
| `AuditTrail.FilledStep` | crates/valori-consensus/src/state_machine.rs:840-883 | A hole in the audit log is never filled later, and only an install makes one. |
| `Memberships.MembershipIff` | crates/valori-consensus/src/state_machine.rs:344-350 | After any history, lost memberships included, a node that reads on to `to` has the membership the log says if and only if the one it held was the newest where it stood or a newer one was read on the way. |
| `Memberships.MembershipRecovers` | crates/valori-consensus/src/state_machine.rs:587-598 | Recovery: one membership entry read puts the membership right, whatever was lost before. |
| `Memberships.MembershipSurvivesIff` | crates/valori-consensus/src/state_machine.rs:344-350 | After any history, crash at any point and catch up to `to`: the membership is the one the log says if and only if the one on disk is the newest before the snapshot on disk or a newer one is read on the way. |
| `Memberships.InstalledMembershipSurvivesIff` | crates/valori-consensus/src/state_machine.rs:840-883 | The same after an installed snapshot at `n`: with at least one batch since, right wherever the catch-up ends at or past the mark on disk; with none, right if and only if the membership on disk from before the install was the newest before `n` or a newer one is read after `n`. Nothing is asked of what came before the install. |
| `Memberships.MembershipSettles` | crates/valori-consensus/src/state_machine.rs:344-350 | Over every history in which what each restart finds on disk settles and installed snapshots bring the right membership, a node as far as it has ever been has the last membership in the log. |
| `Memberships.NewestIff` | crates/valori-consensus/src/state_machine.rs:587-598 | A membership that came from the log, read on from `a` to `to`, ends right exactly under that condition on log positions. |
| `Schedules.MidBatchCrash` | crates/valori-consensus/src/state_machine.rs:743-759 | On every log, a crash after `n` entries and before the mark writes everything they owe twice. |
| `Schedules.MidBatchCrashRepeats` | crates/valori-consensus/src/state_machine.rs:743-759 | On a real log (initial membership, then inserts) the accepted insert is in the audit log twice and owed once. |
| `Schedules.CatchUpCrash` | crates/valori-consensus/src/state_machine.rs:824-827 | On every log, a catch-up batch that stops short writes the mark on disk back, so two crashes between batches write the rest again. |
| `Schedules.CatchUpCrashRepeats` | crates/valori-consensus/src/state_machine.rs:824-827 | On a real log with two accepted inserts and crashes only between batches the second insert is audited twice. |
| `Schedules.InstallSkips` | crates/valori-consensus/src/state_machine.rs:840-883 | On a real log a fresh node brought up by a snapshot has applied an insert the audit log has no record of. |
| `Schedules.InstallLosesMembership` | crates/valori-consensus/src/state_machine.rs:840-883 | The same node, crashed before any batch, is back at its position without the membership the snapshot brought. |
| `Schedules.UnmarkedWritesCount` | crates/valori-consensus/src/state_machine.rs:743-759 | Why a skipped stretch counts from the furthest position and not from the mark: with the mark at 0 before the install, nothing is missing if a lost incarnation had written it. |
| `NodeRuns.FeedStretch` | crates/valori-consensus/src/state_machine.rs:562-828 | One stretch of entries, whole or cut short by a failing audit write: what it leaves in memory and exactly which owed events it adds to the audit log. |
| `NodeRuns.WrittenStretch` | crates/valori-consensus/src/state_machine.rs:743-759 | The audit log grows at exactly the positions that were owed a record. |
| `NodeRuns.BatchInv` | crates/valori-consensus/src/state_machine.rs:562-828 | A batch, complete or failed, keeps the node invariant. |
| `NodeRuns.RebootInv` | crates/valori-consensus/src/state_machine.rs:320-472 | A crash in the middle of a batch followed by `with_db` keeps the node invariant. |
| `NodeRuns.RestartRestoresIff` | crates/valori-consensus/src/state_machine.rs:370-454 | A restart resumes the replay of the log if and only if the snapshot on disk, if any, is of a faithful state. |
| `NodeRuns.SnapshotInv` | crates/valori-consensus/src/state_machine.rs:900-948 | Building a snapshot, of any state, keeps the node invariant. |
| `NodeRuns.InstallInv` | crates/valori-consensus/src/state_machine.rs:840-883 | Installing a snapshot of a faithful state that a node on the same log built, with whatever membership, keeps the node invariant. |
| `NodeRuns.SnapshotRestores` | crates/valori-consensus/src/state_machine.rs:900-948 | The snapshot of a reachable state unpacks to that state if and only if the kernel in it is faithful. |
| `StateMachine.ValoriStateMachine.Apply` | crates/valori-consensus/src/state_machine.rs:562-828 | The whole batch: memory, audit log, replies and the one write of the applied mark are those of the step function; a failed audit write stops the batch and leaves the mark alone. The dedup set stays exactly the queue. |
| `StateMachine.ValoriStateMachine.ApplyEntries` | crates/valori-consensus/src/state_machine.rs:562-823 | The batch loop without that write, which is what a crash before it leaves. |
| `StateMachine.ValoriStateMachine.ApplyRequest` | crates/valori-consensus/src/state_machine.rs:646-820 | One request past the dedup check: pre-allocated ids, speculative registry insert, kernel apply, replay test, audit, undo or removal in the registry, reply; and the state left behind when the audit write fails. |
| `StateMachine.ValoriStateMachine.RememberRequest` | crates/valori-consensus/src/state_machine.rs:185-194 | The queue is the old queue with the new id, cut to the last `MAX_DEDUP_ENTRIES`; the set remains its contents. |
| `StateMachine.ValoriStateMachine.InstallSnapshot` | crates/valori-consensus/src/state_machine.rs:840-883 | Accepts exactly the snapshots that decode and hash to the recorded hash; a refusal changes nothing in memory or on disk. |
| `StateMachine.ValoriStateMachine.BuildSnapshot` | crates/valori-consensus/src/state_machine.rs:900-948 | The snapshot carries the whole replicated state; it is kept and persisted. |
| `StateMachine.WithDb` | crates/valori-consensus/src/state_machine.rs:320-472 | The node rebuilt from the table, or a refusal exactly when the stored snapshot does not check out. |
| `StateMachine.FailureStops` | crates/valori-consensus/src/state_machine.rs:755-759 | After a failed audit write the rest of the batch has no effect. |
| `Driving.Drive` | crates/valori-consensus/src/state_machine.rs:320-948 | The object driven through any history from an empty database, with a new object from the database after every crash or failed batch: its memory, database and audit log are those of the history, and it is refused a restart exactly where the history has none. Donors repeat no request id. |
| `Driving.Do` | crates/valori-consensus/src/state_machine.rs:320-948 | One act by the object is one step of the history. |
| `Driving.OnLogDistinct` | crates/valori-consensus/src/state_machine.rs:185-194 | Every node on the log is a donor that repeats no request id. |
| `Replica.RunJoin` | crates/valori-consensus/src/state_machine.rs:562-828 | Running two stretches one after the other is running them joined, replies and audit stream included. |
| `ReplicaProperties.DedupWindow` | crates/valori-consensus/src/state_machine.rs:185-194 | In every reachable state the dedup queue is the longest allowed suffix of the accepted request ids in acceptance order, without repetition. |
| `ReplicaProperties.WindowIsSuffix` | crates/valori-consensus/src/state_machine.rs:185-194 | The queue is the end of the sequence of accepted ids, all of it up to 1048576 and that many afterwards. |
| `ReplicaProperties.ApplyDedup` | crates/valori-consensus/src/state_machine.rs:630-645 | An entry adds to the queue exactly what it adds to the accepted ids, and an id in the queue is never accepted again. |
| `ReplicaProperties.RunAnswers` | crates/valori-consensus/src/state_machine.rs:570-823 | Over any run an event is owed to the audit log if and only if its reply is neither a rejection nor a duplicate; too-new entries are rejected; duplicates carry no ids. |
| `ReplicaProperties.RepliesMatch` | crates/valori-consensus/src/state_machine.rs:646-672 | Replies match entries one to one with the same log index, and allocated record, node and edge ids strictly rise, so none is given twice. |
| `ReplicaProperties.RunValid` | crates/valori-kernel/src/state/kernel.rs:309-681 | Every run keeps the kernel well formed. |
| `ReplicaProperties.ApplyRegistry` | crates/valori-consensus/src/state_machine.rs:681-736 | One entry keeps names and ids one to one, a rejection leaves the registry as it was, and an id appears only by staying or by being new. |
| `ReplicaProperties.DropRetires` | crates/valori-consensus/src/state_machine.rs:793-809 | An accepted drop names a registered collection and retires its id. |
| `ReplicaProperties.RegistryRun` | crates/valori-metadata/src/collection.rs:66-86 | Over every run the registry stays injective and an id once retired is never resolved or handed out again. |
| `Answers.AcceptedEffect` | crates/valori-consensus/src/state_machine.rs:681-736 | An accepted entry has on the kernel exactly the effect of its event, in the namespace it is for. |
| `Answers.InsertIsFound` | crates/valori-consensus/src/state_machine.rs:646-672 | The record of an accepted insert, with the vector, metadata, tag and namespace asked for, is at the id the reply gives, where there was none. |
| `Answers.StepAnswer` | crates/valori-consensus/src/state_machine.rs:646-823 | Ids are answered for accepted automatic events only and are the next slot of the pool; the hash answered is that of the state afterwards. |
| `Answers.CreateAnswers` | crates/valori-metadata/src/collection.rs:66-80 | An accepted create answers the id its name resolves to afterwards: zero if and only if the name is "default", the old id if there was one, otherwise one no name had; all other names keep theirs. |
| `Answers.NamesKept` | crates/valori-consensus/src/state_machine.rs:785-809 | No other event answers a namespace id or changes the registry but a drop, which takes away its own name alone. |
| `Answers.RejectedKeeps` | crates/valori-consensus/src/state_machine.rs:785-823 | An entry that is not accepted leaves kernel, queue, registry and corpus as they were, but for the one refusal that locks the dimension. |
| `Answers.RejectionReason` | crates/valori-consensus/src/state_machine.rs:613-736 | Which reason a rejection gives: the schema version, the missing name, the full registry, or the kernel error. |
| `Answers.CorpusIsTexts` | crates/valori-consensus/src/state_machine.rs:766-775 | Over every run the corpus holds exactly the texts of the accepted inserts that came with one in UTF-8, each under the id its insert was answered with. |
| `Utf8.ValidIff` | crates/valori-kernel/src/snapshot/decode.rs:135-139 | The UTF-8 test passes exactly the encodings of sequences of Unicode scalar values. |
| `Namespaces.OccupancyStep` | crates/valori-kernel/src/state/kernel.rs:309-681 | An event occupies no namespace but the one it places something into, and an accepted one does occupy that. |
| `Namespaces.AcceptsIff` | crates/valori-consensus/src/state_machine.rs:570-823 | An entry is accepted, and owed to the audit log, if and only if guards on the state before it hold: schema version, not a duplicate, namespace number or name, id, dimension, sizes, live targets in one namespace. |
| `Namespaces.HousedStepIff` | crates/valori-consensus/src/state_machine.rs:714-735 | One entry keeps everything stored inside the default or a registered namespace if and only if, when those guards accept it, what it places goes into such a namespace and what it drops is all listed; the request names its namespace by number and the kernel keeps no list to check it against. |
| `Namespaces.UnaddressedAccepted` | crates/valori-consensus/src/state_machine.rs:722-735 | A fresh node accepts an insert into any numbered namespace and then holds a record no name leads to. |
| `Namespaces.HousedRunIff` | crates/valori-consensus/src/state_machine.rs:785-809 | Over every run at all, everything stored is at every point in the default or a named namespace if and only if every accepted entry is so. |
| `Namespaces.TidyRunIff` | crates/valori-consensus/src/state_machine.rs:785-809 | In a run that removes nothing twice that is exactly every accepted entry being addressed to a namespace with a name. |
| `Namespaces.TidyLists` | crates/valori-kernel/src/state/kernel.rs:309-681 | In such a run record lists stay exact. |
| `RetryingClient.Transport.PostRpc` | python/valoricore/remote.py:98-150 | At most `max_retries + 1` attempts, all with the same request; the first response that is not retried decides the outcome; the leader is forgotten after each failed attempt and learnt from redirects. |
| `RetryingClient.StatusCodes` | python/valoricore/remote.py:112-138 | Which status codes are tried again, which are which error, and which return. |
| `RetryingClient.NoAnswer` | python/valoricore/remote.py:139-147 | A lost connection is tried again, any other failure is raised. |
| `RetryingClient.DuplicateIff` | crates/valori-consensus/src/state_machine.rs:630-645 | A keyed request is answered as a duplicate if and only if its key is among the last `MAX_DEDUP_ENTRIES` accepted ones; the replicated state is then untouched. |
| `RetryingClient.TwiceNeedsFullWindow` | crates/valori-consensus/src/state_machine.rs:185-194 | Two copies of one key take effect only if a full window of other accepted keys lies between them. |
| `RetryingClient.AtMostOnce` | crates/valori-consensus/src/state_machine.rs:630-645 | However often the key was sent, lost, delayed or duplicated, at most one copy takes effect while its copies stay within the window. |
| `RetryingClient.CallOnce` | python/valoricore/remote.py:98-150 | The whole loop against the log: whatever the outcome, at most one copy of the keyed request takes effect while its copies stay within the window; if the call returns, exactly one does, no later than the copy that was answered. |
| `RetryingClient.AnsweredMeansExactlyOnce` | crates/valori-consensus/src/state_machine.rs:630-645 | If a copy of the key was answered without a rejection, exactly one copy takes effect in the whole log, at or before it. |
| `KernelInvariants.ApplyValid` | crates/valori-kernel/src/state/kernel.rs:309-681 | Every event, accepted or refused, keeps the kernel well formed: vector lengths, namespaces, links inside the pools, edges between live nodes. |
| `KernelInvariants.ApplyGrows` | crates/valori-kernel/src/state/kernel.rs:309-681 | Pools never shrink and an accepted automatic insert takes exactly one new slot. |
| `KernelEffects.ApplyEffect` | crates/valori-kernel/src/state/kernel.rs:309-681 | What each accepted event leaves, field by field: the new record, node or edge has what the event says, the other slots change in their links alone, a delete takes the edges that touch the node, shredding takes the content of exactly the records under the key, a drop empties exactly what its list leads to; nothing else changes and the version rises by one. |
| `KernelEffects.RefusalReason` | crates/valori-kernel/src/state/kernel.rs:309-681 | Which error a refused event gets, and which comes first when several apply. |
| `KernelInvariants.RefusalKeepsStateIff` | crates/valori-kernel/src/state/kernel.rs:325-340 | A refused event changes the state in exactly one case: oversized metadata on an insert before any dimension is known, which locks the dimension and changes nothing else. The source says a rejection leaves state untouched. |
| `KernelInvariants.RefusalCanLock` | crates/valori-kernel/src/state/kernel.rs:325-340 | That case on an empty kernel, for every vector. |
| `RecordLists.ApplyExact` | crates/valori-kernel/src/state/kernel.rs:309-681 | Unless it removes a record twice, every event keeps every namespace list exactly the linked records of that namespace, newest first, in both directions. |
| `RecordLists.RemoveExact` | crates/valori-kernel/src/state/kernel.rs:362-385 | The first removal of a record, hard or soft, keeps every list exact. |
| `RecordLists.DropEmpties` | crates/valori-kernel/src/state/kernel.rs:576-618 | On exact lists a namespace drop clears every record of the namespace and keeps all other lists exact. |
| `RecordLists.WipeMet` | crates/valori-kernel/src/state/kernel.rs:585-597 | Following the links from any slot empties exactly the slots met, round a cycle or not. |
| `RecordLists.DropEmptiesIff` | crates/valori-kernel/src/state/kernel.rs:576-618 | In any state a namespace drop leaves none of its records if and only if its list leads to all of them, and never a graph node. |
| `RecordLists.DropAfterHistory` | crates/valori-kernel/src/state/kernel.rs:576-618 | After any history without a second removal, a drop leaves nothing linked in its namespace. |
| `RecordLists.RemoveTwiceIff` | crates/valori-kernel/src/state/kernel.rs:683-710 | Removing a soft-deleted record again keeps the lists exact if and only if the links it still carries agree with the lists as they now are. |
| `RecordLists.TwiceReaches` | crates/valori-kernel/src/state/kernel.rs:372-385 | For any three vectors of the right length and any namespace: two inserts, a soft delete, an insert and the same soft delete again lead from an empty kernel to a state whose list misses a live record. |
| `RecordLists.DropMissesLiveRecord` | crates/valori-kernel/src/state/kernel.rs:576-618 | From an empty kernel through that history to the drop: it is accepted and leaves the live record behind. |
| `KernelSnapshot.PlaceLive` | crates/valori-kernel/src/snapshot/decode.rs:154-453 | Writing live slots with their ids and placing them back restores as much of a pool as fits and is refused when a live slot does not fit. |
| `KernelSnapshot.DecodeEncode` | crates/valori-kernel/src/snapshot/decode.rs:154-453 | Reading a snapshot back succeeds exactly on decodable states and gives exactly `Restored`. |
| `KernelSnapshot.DecodedValidIff` | crates/valori-kernel/src/snapshot/decode.rs:154-453 | Whatever image is accepted, the state read from it is well formed if and only if the links in it stay inside the pool and a dimension comes with the records. |
| `KernelSnapshot.RoundTripIff` | crates/valori-kernel/src/snapshot/encode.rs:89-230 | `decode(encode(s)) == s` if and only if `s` is faithful: decodable, no holes among nodes or edges, no encryption keys, no empty metadata, dimension not zero. |
| `KernelSnapshot.DeletedNodeForgotten` | crates/valori-kernel/src/snapshot/encode.rs:89-230 | A two-event history whose snapshot reads back without the deleted node's slot, so its id is handed out again. |
| `KernelSnapshot.RestoredHash` | crates/valori-kernel/src/snapshot/blake3.rs:73-159 | The state hash survives the round trip if and only if no record it covers has empty metadata. |
| `KernelSnapshot.HashAlike` | crates/valori-kernel/src/snapshot/blake3.rs:73-159 | Two states hash alike if and only if they have the same version, active records, live nodes (but for their namespace) and live edges, under the same ids. |
| `KernelSnapshot.AcceptEncode` | crates/valori-consensus/src/state_machine.rs:840-870 | What a receiver of the snapshot of a well-formed state ends up with: a refusal exactly when it is not decodable or its hash moves, `Restored` otherwise, and the state itself if and only if it is faithful. |
| `LogStore.DriveBoth` | crates/valori-consensus/src/log_store_redb.rs:133-254 | For every sequence of append, truncate, purge, save_vote and save_committed each store holds what its own operations make of the log; unless a non-empty log was purged at the largest index both hold the same, and then return equal range reads, log states and entry counts. |
| `LogStore.StoresAgreeIff` | crates/valori-consensus/src/log_store.rs:150-161 | The stores hold the same log after every operation of a sequence if and only if it never purges a non-empty log at the largest 64-bit index. |
| `LogStore.PurgesAgreeIff` | crates/valori-consensus/src/log_store.rs:150-161 | The two purges agree if and only if the index is not the largest 64-bit number or the log is empty. |
| `LogStore.AppendedAt` | crates/valori-consensus/src/log_store.rs:122-141 | Index by index: every entry of the batch is at its index, the last one winning, and no other index is touched. |
| `LogStore.TruncatedAt` | crates/valori-consensus/src/log_store.rs:143-148 | Nothing at or above the index is left and everything below is as it was. |
| `LogStore.PurgedAt` | crates/valori-consensus/src/log_store.rs:150-161 | Nothing at or below the index is left, everything above is as it was, and the floor is the later of the old one and the id. |
| `LogStore.TruncateContinues` | crates/valori-consensus/src/log_store.rs:143-148 | After a legal truncate at a stored index the log can be continued at that very index. |
| `LogStore.AppendContinues` | crates/valori-consensus/src/log_store.rs:122-141 | After a legal append the log continues right after the batch and holds all it held. |
| `LogStore.BetweenExactly` | crates/valori-consensus/src/log_store_redb.rs:133-146 | A range read returns exactly the stored entries of the range, once each and in index order. |
| `LogStore.BeforeIs` | crates/valori-consensus/src/log_store.rs:150-161 | Log ids compare by term, then node, then index. |
| `LogStore.MemoryStore.Append` | crates/valori-consensus/src/log_store.rs:122-141 | The batch written entry by entry, later entries winning. |
| `LogStore.MemoryStore.Purge` | crates/valori-consensus/src/log_store.rs:150-161 | Removes below `index + 1` in 64-bit arithmetic and never lowers the floor. |
| `LogStore.RedbStore.Append` | crates/valori-consensus/src/log_store_redb.rs:197-220 | The same result in one transaction: at every moment the disk is in the state before or the state after, and after it once acknowledged. |
| `LogStore.RedbStore.Truncate` | crates/valori-consensus/src/log_store_redb.rs:222-231 | Keeps the entries below the index, atomically. |
| `LogStore.RedbStore.Purge` | crates/valori-consensus/src/log_store_redb.rs:233-254 | Removes up to the index and raises the floor, atomically. |
| `LogStore.RedbStore.SaveVote` | crates/valori-consensus/src/log_store_redb.rs:175-182 | Stores the vote and nothing else, atomically. |
| `LogStore.RedbStore.SaveCommitted` | crates/valori-consensus/src/log_store_redb.rs:184-195 | Stores the committed id and nothing else, atomically. |
| `LogStore.RedbStore.GetLogState` | crates/valori-consensus/src/log_store_redb.rs:152-169 | Reports the purge floor and the largest stored id, or the floor on an empty log. |
| `LogStore.DoShaped` | crates/valori-consensus/src/log_store.rs:122-161 | Every operation openraft may issue keeps the stored indices one gap-free stretch just above a purge floor that never falls. |
| `LogStore.RunShaped` | crates/valori-consensus/src/log_store.rs:122-161 | The same over every legal sequence of operations from an empty store. |
| `Shadow.ShadowKernel.ApplyChunk` | embedded/src/shadow.rs:37-78 | The loop terminates and leaves what draining the extended buffer leaves: verdict, kernel, hash input, flags and leftover. |
| `Shadow.ShadowKernel.StartSegment` | embedded/src/shadow.rs:27-32 | A new segment starts with an empty buffer and hash and no header seen. |
| `Shadow.ChunkInvariance` | embedded/src/shadow.rs:37-78 | For every prefix-stable decoder that consumes at least one byte, feeding a segment in any chunking gives the verdict, kernel state and hash of feeding it whole, and on success the same leftover. |
| `Shadow.SegmentReplays` | embedded/src/wal.rs:37-54 | However the segment is cut: nothing is applied before a fitting header, and then the kernel is the replay of exactly the events in the bytes hashed after it, up to what a refused event leaves, with the key table it had. |
| `Shadow.KeysApart` | crates/valori-kernel/src/state/kernel.rs:622-676 | Without a key table every event but shredding does the same and is refused for the same reasons. |
| `Shadow.SecretOnDevice` | crates/valori-kernel/src/state/kernel.rs:620-666 | An encrypted insert stores its record and leaves the key table alone. |
| `Shadow.DrainResumes` | embedded/src/wal.rs:37-54 | Draining part of the input and then the rest from where that stopped is draining all of it. |
| `Shadow.BytesConserved` | embedded/src/shadow.rs:34-78 | Bytes hashed and bytes left over are together exactly the bytes that came in, up to a failing chunk. |
| `Transport.RxBuf.Push` | embedded/src/transport.rs:63-70 | A FIFO of 511 bytes in 512 slots; a push beyond that is dropped. |
| `Transport.RxBuf.Pop` | embedded/src/transport.rs:72-77 | Takes the oldest byte. |
| `Transport.RxBuf.Len` | embedded/src/transport.rs:79-81 | The modular formula is the number of bytes held. |
| `Transport.SendFramed` | embedded/src/transport.rs:33-38 | Writes sync word, type, little-endian length and payload. |
| `Transport.RecvInto` | embedded/src/transport.rs:91-93 | Waits for `n` bytes without losing or reordering any. |
| `Transport.DrainInto` | embedded/src/transport.rs:95-97 | Takes exactly the next `n` bytes, and zeros where the ring runs out. |
| `Transport.RecvPacket` | embedded/src/transport.rs:121-152 | One packet, a bad sync word or an overflow, consuming exactly the bytes each of them consumes. |
| `Transport.FrameRoundTrip` | embedded/src/transport.rs:33-38 | A frame that fits comes back as the packet sent, whatever follows it. |
| `Transport.FrameIs` | embedded/src/transport.rs:33-38 | A frame byte by byte: 55 AA 55 AA, the type, the length with its lowest byte first, the payload. |
| `Transport.ParseIs` | embedded/src/transport.rs:121-152 | What any stream is taken for, byte by byte: when it is a bad sync, an overflow or a packet, of which kind by its type byte, and how much is consumed. |
| `Transport.RecvAll` | embedded/src/transport.rs:121-152 | Receiving concatenated frames of at most 511 bytes returns the payloads sent, in order, and leaves nothing. |
| `Headings.FromMarkdown` | examples/tree_rag_spike/tree_rag.py:90-135 | Headings outside code fences with their ids, titles, levels, line ranges, texts and summaries, and the forest over them. |
| `Headings.NodeIdsDistinct` | examples/tree_rag_spike/tree_rag.py:110-110 | Zero-padded ids of different sections differ, past 9999 too. |
| `Headings.NothingUntitled` | examples/tree_rag_spike/tree_rag.py:283-289 | Every heading found has a title and every section a summary; a first sentence keeps to the limit. |
| `Headings.FindHeadings` | examples/tree_rag_spike/tree_rag.py:91-103 | The loop finds `Found`. |
| `Headings.FoundExactly` | examples/tree_rag_spike/tree_rag.py:91-103 | A heading is found if and only if its line is a marked line, no fence, with an even number of fences before it, and it has that line's level and title; headings come in line order. |
| `Headings.FoundByMarks` | examples/tree_rag_spike/tree_rag.py:91-103 | A heading is found if and only if a line outside the code blocks, stripped, is one to six # marks, one white-space character and a text: the level is the number of marks, the title the text stripped. |
| `Headings.BuildForest` | examples/tree_rag_spike/tree_rag.py:105-135 | The stack loop gives each heading the nearest earlier heading of strictly smaller level as parent, and child lists and roots are the inverse of that in document order. |
| `Headings.Breadcrumb` | examples/tree_rag_spike/tree_rag.py:138-143 | Following parents ends, and the titles are joined outermost first. |
| `Headings.TrailIsOpen` | examples/tree_rag_spike/tree_rag.py:138-143 | The trail is the chain of nearest smaller levels; positions and levels strictly rise along it. |
| `Headings.StructureMapIsDocumentOrder` | examples/tree_rag_spike/tree_rag.py:145-153 | Preorder of the table of contents is document order, each heading once. |
| `Headings.SectionsTile` | examples/tree_rag_spike/tree_rag.py:109-122 | Section line ranges tile the document from the first heading to the last line. |
| `Headings.SectionIs` | examples/tree_rag_spike/tree_rag.py:109-122 | What a section holds: an id of at least four digits that stands for its number, the heading's title, level and line, the stripped lines up to the next heading, and its first sentence or else its title as summary. |
| `Headings.FirstSentenceIs` | examples/tree_rag_spike/tree_rag.py:283-289 | The first sentence is the shortest start of the non-blank lines put together that ends in a mark before white space or the end, cut to 160 characters and stripped. |
| `Text.StripIff` | examples/tree_rag_spike/tree_rag.py:95-95 | Stripping gives the one text without white space at its ends from which the line comes by adding white space around it. |
| `Receipts.ReceiptLog.Append` | examples/tree_rag_spike/receipt.py:122-140 | The new receipt holds the hashes of its query, evidence and answer and seals the current head, and the log verifies exactly when it did before. |
| `Receipts.ReceiptLog.VerifyChain` | examples/tree_rag_spike/receipt.py:142-157 | True exactly for logs in which every receipt seals the one before it. |
| `Receipts.HeadCommits` | examples/tree_rag_spike/receipt.py:142-157 | With a collision-free hash that never yields the genesis value, two verified logs with the same head are equally long and have sealed the same texts all the way down. |
| `Receipts.SealIff` | examples/tree_rag_spike/receipt.py:85-93 | What a sealed text determines, whatever the ids hold: two seals are equal if and only if previous hash, the three hashes, the ranges and the joined ids are. |
| `Receipts.SealShape` | examples/tree_rag_spike/receipt.py:86-93 | The sealed text itself, field by field. |
| `Receipts.RangeTextsAre` | examples/tree_rag_spike/receipt.py:85-85 | A range is written as its two numbers in decimal, without leading zeros, with a dash between. |
| `Receipts.CanonicalIff` | examples/tree_rag_spike/receipt.py:89-89 | A list of ids without commas other than the list of one empty id is the only such list with its joined text; every other list shares its joined text with one. |
| `Receipts.SealedFields` | examples/tree_rag_spike/receipt.py:85-93 | For such ids the sealed text determines every sealed field and is determined by them. |
| `Receipts.NodeIdsCanonical` | examples/tree_rag_spike/tree_rag.py:110-110 | The ids the tree index hands out are such ids. |
| `Receipts.HeadCommitsFields` | examples/tree_rag_spike/receipt.py:142-157 | Two verified logs with the same head and such ids agree on every sealed field of every receipt. |
| `Receipts.HeadDoesNotCommit` | examples/tree_rag_spike/receipt.py:142-157 | For every other list of ids there are two verified logs with the same head that cite different ids. |
| `Receipts.CommaIsAmbiguous` | examples/tree_rag_spike/receipt.py:89-89 | Two verified logs with the same head: one id with a comma against two ids. |
| `Receipts.SeparatorIsAmbiguous` | examples/tree_rag_spike/receipt.py:85-93 | With the separator inside a hash the seal does not tell it from the ids. |
| `Receipts.VerifyReceipt` | examples/tree_rag_spike/tree_rag.py:238-247 | True exactly when every cited section exists and the evidence hashes to the recorded value. |
| `Receipts.EvidenceIs` | examples/tree_rag_spike/tree_rag.py:206-217 | The evidence is each cited breadcrumb in brackets, a line end and the text, with a blank line between sections. |
| `Receipts.VerifiesIff` | examples/tree_rag_spike/tree_rag.py:238-247 | A receipt made from one index verifies against another if and only if that has all cited sections and yields the same evidence. |
| `Receipts.EvidenceDiffers` | examples/tree_rag_spike/tree_rag.py:206-217 | Changing one cited text always changes the joined evidence. |
| `Receipts.TamperEvident` | examples/tree_rag_spike/tree_rag.py:204-247 | A receipt verifies on the index it was made from, and with one cited text replaced it verifies if and only if the text is unchanged. |
| `Walk.BreadthFirst` | python/valoricore/remote.py:538-553 | Returns exactly the nodes within min(max_depth, 10) edges, each once, in non-decreasing distance. |
| `Walk.BallIsPaths` | python/valoricore/remote.py:538-553 | The distance used there is the length of a shortest path. |
| `Dependencies.TopoOrder` | scripts/kernel-deps.py:108-128 | Always a permutation of the members; dependencies come first if and only if the normal edges are acyclic; each position holds the smallest name that could come there until none could, and whoever is left follows as listed. |
| `Dependencies.LeastOrder` | scripts/kernel-deps.py:108-128 | Hence the order is the lexicographically least of all that put dependencies first. |
| `Dependencies.OrderIsUnique` | scripts/kernel-deps.py:108-128 | And it does not depend on how the members are listed. |
| `Dependencies.ReverseDependents` | scripts/kernel-deps.py:131-147 | Exactly the crates that reach the target, each labelled normal if and only if some normal edge goes from it into the target or another crate returned, and otherwise with the kind of such an edge. |
| `Chunking.SplitBySentences` | python/valoricore/chunking.py:4-40 | Chunks respect the limit, hold the text in order but for white space, contain no delimiter but at the end, and are cut only where a sentence ends or the limit is used up. |
| `Chunking.Sentences` | python/valoricore/chunking.py:14-27 | Every sentence is a stripped stretch of the text, all but the last end with a delimiter, and nothing but white space is lost. |
| `Chunking.HardSplit` | python/valoricore/chunking.py:35-38 | Piece k is the k-th window of the sentence, stripped, and the windows cover it. |
| `Chunking.ParagraphChunker` | python/valoricore/chunking.py:42-58 | The same bounds and conservation; if every paragraph fits, the chunks are exactly the stripped paragraphs. |
| `Chunking.SplitKeeps` | python/valoricore/chunking.py:47-47 | Splitting at blank lines takes out nothing but line ends. |
| `Chunking.SplitExactly` | python/valoricore/chunking.py:47-47 | Joined by blank lines the paragraphs are the text again, none has one inside, and each cut is as far left as it can be. |

## Left out

- Consensus itself (elections, quorum, replication timing), networking, TLS and shard dispatch: a committed, ordered log is the input.
- Search, vector arithmetic and the search indexes (HNSW, IVF, brute force): they are rebuilt from the pools and are no part of the replicated transitions.
- Byte formats of serde, bincode and the snapshot file: an image or payload is a value with the fields the code writes, in that order; bytes that do not decode are one value, `Garbage`.
- BLAKE3: the state hash stands for the value it is computed over, and the receipt hash is a function parameter, collision-free only where a theorem says so.
- The node and edge lists threaded through the graph pools: their content is determined by the pools, so only the record lists, where removal can go wrong, are kept.
- 32-bit ids and the 64-bit version counter are unbounded numbers; 64-bit log indexes are bounded only where the two purges differ.
- The event's second ciphertext field and the node and edge kind enumerations: carried, never decided on.
- Wall-clock values: every reading is a parameter, and no theorem about replicated state depends on it.
- The order in which hash maps and sets are iterated: loops over them pick elements in any order.
- Installed snapshots behind what is applied: openraft does not hand them over, so the schedules pass over them; `Histories.SnapshotPlusSuffix` installs on a node in any state.
- A half-written snapshot: persisting it is one transaction, so a crash during an install is a crash before it.
- Histories.HistoryInv: asks that each restart find a snapshot of a faithful state on disk and that each snapshot installed be built by a node on the same log in a faithful state (exact among nodes on the same log, by `ReplaysIff`); the same holds for the theorems of `AuditTrail` and `Memberships` that build on it.
- AuditTrail.ExactlyOnceIff: its clause on records, unlike those on positions and numbers, is for histories whose installs skip nothing, because a skipped event and a repeated equal one cancel out in the sequence of records.
- Memberships.MembershipIff: asks that the membership of a node a snapshot is installed from came from the log, right or stale; the theorems built on it do too.
- Driving.Drive: donors repeat no request id, because the source takes a queue with repetitions as it is and its set and queue then part; nodes on the log never do.
- LogStore.MemoryStore.Read: ranges are given by two bounds; inclusive, exclusive and open bounds are turned into them by the caller.
- LogStore.DriveBoth: starts from stores that hold the same log, with indexes that fit 64 bits.
- Transport.RecvInto: at most 511 bytes, and enough bytes to come, because the source never returns otherwise. The source polls the data register without waiting for it to fill; the model has each read yield the next byte sent.
- Chunking.HardSplit: a limit of at least one; `SplitBySentences` and `ParagraphChunker` ask for that only on texts that are not blank, where the source loops forever otherwise.
- Shadow.ShadowKernel.ApplyChunk: the event decoder is a parameter that consumes at least one byte of its buffer; bincode is not modelled.
- Headings.FromMarkdown: takes the lines of the text; ranking, storage and model calls are not modelled.
- Dependencies.TopoOrder: takes the normal edges between members; reading them from the package metadata is not modelled.
- RetryingClient.CallOnce: that a node answers success only for a copy of the request that is in the log and was not rejected is an assumption on the network.
- RetryingClient.Transport.PostRpc: the network is a parameter that says what happens to each attempt; back-off delays are not modelled.
- Device boot recovery, flash and checkpoints, and the packet loop, which builds a new shadow kernel for every packet.
- Embedding providers, command-line tools, the user interface, desktop shell, benchmarks and demos.
