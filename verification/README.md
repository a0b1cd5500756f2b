# A verified model of the collaborative editing core

This project models the replicated text document of the sync engine and everything that
relies on its convergence, and proves what each part promises:

- the **RGA sequence CRDT**: a doubly linked list with a sentinel root, tombstones, a string-keyed
  index, counters, snapshots and tombstone collection;
- the **operation log**: deduplication and a bounded causal buffer in front of a replica;
- the **browser replica**: Lamport-clocked local edits, position mapping and a text diff that turns
  into operations;
- **undo and redo** by inverse operations;
- the **event store**: an append-only log with snapshots, rollbacks as events, reconstruction of a
  revision and bounded loading;
- the **protocol**: the worker's apply/append/update steps, the client's message handlers, the
  unacknowledged queue, the per-session priority queue, and the whole system as a step machine.

Every part that the program changes in place is a class with the same fields and loops
(`RgaDocument`, `OperationLog`, `ClientRgaDocument`, `HistoryManager`, `EventStore`, `Worker`,
`OfflineQueue`, `Session`, `CollaborativeDoc`). Its methods are proved equal to a function on plain
values, and the theorems are about those functions. `dafny verify dfyconfig.toml` checks everything.

## How the proof goes

A list is *shaped* when every node's anchor (the `after` of its INSERT) is the nearest node on its
left with a smaller uid. The scan of `applyInsert` keeps that true for the new node, and, because
it stops in front of a smaller uid, for every other node as well (`Shape.InsertKeepsShape`). A
shaped list is determined by its uids and their anchors: it is the list obtained by taking the uids
in ascending order and putting each directly behind its anchor (`Shape.ShapedIsCanonical`). So the
list of a replica is a function of the *set* of operations that took effect on it
(`Convergence.RepresentsIsUnique`), and convergence needs no pairwise swapping of operations. The
causal buffer, the cache, the clients and the whole system are then all described by one predicate,
`Convergence.Represents(doc, ops)`.

The files, in the order they build on each other: `Uids`, `Rga`, `MessageSchema`, `Shape`,
`Convergence`, `Gc`, `LinkedNodes`, `RgaDocument`, `CausalDelivery`, `OperationLog`, `LocalEdits`,
`TextDiff`, `ClientRga`, `History`, `Pruning`, `EventStore`, `OperationHandler`, `Undo`, `HistoryManager`,
`OfflineQueue`, `SessionQueue`, `CollaborativeDoc`, `SyncSystem`, `SyncSteps`,
`SyncConvergence`, `Rejoins`.

## Hypotheses

- An operation set is well formed (`Convergence.WellFormedOps`) when it has one INSERT per uid, each
  above its anchor, and no operation names the root. For operations made by clients this is proved
  (`LocalEdits.GeneratedInsertIsAboveAnchor`, `SyncSteps.EveryRunKeepsInv`); it is assumed only
  where operations come from outside.
- There is one live replica per site id. A site may join again, as after a page reload, once nothing of
  its own is outside the log. In the step system it then joins from a cached document that has all its
  tombstones; what a collection in between changes is the entry on rejoining below.
- The convergence results assume that no operation names the root. The message schema admits none that
  does (`MessageSchema.RootIsNotNamed`); the methods themselves take such operations too.

## Where the code falls short of what it is for

Each entry names a lemma that says exactly when the code does what is expected of it, and one that
exhibits an input on the failing side.

- **Joining while an INSERT is in flight.** The join snapshot is the worker's cached document, which
  already shows operations whose append is outstanding. A newcomer that types behind such a node and
  is appended first leaves a log out of causal order; replaying that log loses its character. A join
  is safe for everything that can follow if and only if no INSERT is in flight
  (`SyncConvergence.JoinIsSafeIff`; `SyncConvergence.UnclearJoinExample`).
- **Broadcasts that cross.** A client drops a broadcast that arrives before what it builds on, and
  nothing retries it. When everything is logged and a client gets each entry it has not seen once, it
  agrees with the log in the end if and only if every broadcast arrives after the node it names
  (`SyncConvergence.DeliveryOrderIff`). One session publishes in order, but a newcomer that joins between
  an append and its publication can be published first (`SyncConvergence.CrossedBroadcastExample`).
  Delivery in log order always gets there (`SyncConvergence.InOrderDeliveryCatchesUp`).
- **Undoing a batch that deletes its own insertion** makes text appear that was not there before. The
  text returns if and only if the batch deletes none of its own nodes (`Undo.UndoRestoresTextIff`;
  `Undo.ErasedTypingExample`).
- **Undoing the deletion of the first node.** The copy is anchored at the root, and the message schema
  refuses the root's site id. The server admits every operation of an undo if and only if the batch
  did not delete the node that is first in the list (`Undo.UndoIsAdmittedIff`;
  `Undo.UndoOfFirstExample`).
- **A rollback whose snapshot is gone** is skipped by replay. Reconstruction is right at every revision
  if and only if every event has a snapshot, is harmless behind the snapshot in front of it, or is a
  ROLLBACK that restored what was shown anyway (`History.ReconstructionExact`, and
  `History.WholeReconstructionExact` for snapshots without collected tombstones;
  `Pruning.LostRollbackExample`). Pruning keeps the ten most recent snapshots only (`README.md:86`,
  `src/server/jobs/snapshot-compactor.ts:90-111`, which also collects before it saves, lines 51-58); an
  older revision is replayed from the start of the log, its ROLLBACKs skipped (`Pruning.Forgets`).
- **Reloading the page with unacknowledged operations stored** restarts the client sequence numbers,
  so that one ACK can remove two operations of which only one is logged. While the replay guard remembers
  nonces, no run can lose an edit if and only if every stored operation is logged and its nonce
  remembered (`OfflineQueues.NothingLostWithinWindowIff`); nonces expire, and over any length of time it
  is so if and only if the stored queue is empty (`OfflineQueues.NothingLostIff`). The losing runs are
  `OfflineQueues.Overwriting` (`OfflineQueues.UnloggedLoses`) and `OfflineQueues.Misled`
  (`OfflineQueues.ForgottenLoses`).
- **Collecting tombstones.** A later operation does not reveal a collection if and only if it neither
  brings a collected node back nor is anchored at one, and no surviving node with a larger uid comes
  first right of where it lands (`Gc.HarmlessIff`, `Gc.CollectionSeenIff`, and
  `Gc.CollectionIsInvisibleIff` over whole continuations; `Gc.LateInsertExample`).
- **Loading a long delta.** At most 10000 events behind the latest snapshot are loaded, and the cached
  document lacks the rest. Loading reaches the end of the log if and only if no more than that follow
  (`History.LoadedReachesEndIff`; `History.CutShortExample`).
- **Rejoining after a collection.** A site that joins again starts its clock at the largest uid of the
  snapshot. If uids of its own above that were collected, it issues them a second time, and everybody who
  kept the tombstones ignores what it types. It may join again if and only if none of its collected uids is
  above the clock it starts with (`Rejoins.RejoinIsSafeIff`; `Rejoins.ReissueExample`).
- **An operation that reaches the worker before what it names** is stored without having been applied.
  Whatever else goes through before its append, the worker's cached document and a replay of its log
  agree if and only if the node it names was in the log when it was stored
  (`OperationHandlers.StoringIsSafeIff`, and `OperationHandlers.OvertakenAgreesIff` for one continuation;
  `OperationHandlers.StoredGapExample`).

## Model

| member | source | states |
|---|---|---|
| Uids.CompareIsTotal | src/shared/types/operation.ts:27-32 | comparing gives 0 only for equal uids and is antisymmetric |
| Uids.LessTransitive | src/shared/types/operation.ts:27-32 | clock first, site id second is transitive |
| Uids.StringLessIff | src/shared/types/operation.ts:29-30 | site ids compare by their characters: a string is below its extensions, and otherwise the first difference decides |
| Uids.LessIff | src/shared/types/operation.ts:27-32 | the smaller clock is below; at equal clocks the shorter prefix, or the smaller character at the first difference |
| Uids.TotalOrder | src/shared/types/operation.ts:18-25 | compareUID is a strict total order over all uids, ties by site id included |
| Uids.UidKeyInjective | src/shared/types/operation.ts:37-39 | two uids share the index key "clock:siteId" only when they are the same uid |
| Rga.IndexOf | src/crdt/rga-document.ts:282-284 | finds the node with a uid exactly when the list has one |
| Rga.ScanRight | src/crdt/rga-document.ts:113-120 | stops at the first gap whose right neighbour is not above the new uid, having passed only larger ones |
| Rga.ReplayWellFormed | src/crdt/rga-document.ts:100-159 | whatever is applied, uids in the list stay distinct and none is the root's |
| Rga.AppliedIffKnown | src/crdt/rga-document.ts:182-196 | an operation is refused exactly when the list lacks the node it names or it is a ROLLBACK; a refusal and a second INSERT of a node change nothing |
| Rga.LiveCountOfInsert | src/crdt/rga-document.ts:138-139 | an insertion adds one visible node, as the length counter assumes |
| Rga.LiveCountOfDelete | src/crdt/rga-document.ts:154-157 | a deletion removes one visible node, and none when the node already was a tombstone |
| Rga.TextOfLive | src/crdt/rga-document.ts:205-213 | the text is what the visible nodes spell in order |
| Rga.PositionsAreABijection | src/client/crdt/client-rga.ts:127-152 | positions 1..length and visible nodes are in bijection, and the two lookups are inverse to each other |
| MessageSchema.RootIsNotNamed | src/server/security/input-sanitizer.ts:8-49 | no admitted message names the root, neither as target nor as anchor |
| MessageSchema.SchemaExamples | src/server/security/input-sanitizer.ts:9-49 | one code point is admitted, newline and tab included; no other control character, no empty or longer value, no site id that is not a UUID, no ROLLBACK |
| Shape.InsertedAnchor | src/crdt/rga-document.ts:104-135 | the new node's nearest smaller left neighbour is the node the INSERT named |
| Shape.OldAnchorKept | src/crdt/rga-document.ts:113-135 | inserting moves no other node's nearest smaller left neighbour |
| Shape.InsertKeepsShape | src/crdt/rga-document.ts:104-139 | the canonical shape is kept by applyInsert for all nodes |
| Shape.ShapedIsCanonical | src/crdt/rga-document.ts:93-96 | a list with the canonical shape is the reference order computed from its uids and anchors alone |
| Shape.ShapeIsUnique | src/crdt/rga-document.ts:93-96 | two lists over the same uids with the same anchors are equal |
| Convergence.StepRepresents | src/crdt/rga-document.ts:182-196 | applying an operation adds it to the set the list stands for; an operation that cannot be applied changes nothing |
| Convergence.AppliedIffDepsMet | src/crdt/rga-document.ts:104-111 | an operation is applied just when the nodes it needs are inserted or it was applied before |
| Convergence.EffectOf | src/crdt/rga-document.ts:104-111 | the state after one operation, told from its dependencies alone |
| Convergence.RepresentsIsUnique | src/shared/types/operation.ts:22-23 | replicas on which the same operations took effect hold the same list, tombstones and values included |
| Convergence.ReplicasAgreeIff | src/shared/types/operation.ts:22-23 | replicas hold the same list if and only if the same operations took effect on them |
| Convergence.ReplayRepresents | src/crdt/rga-document.ts:182-196 | after any arrival sequence the list is the canonical state of what took effect |
| Convergence.CausalReplayRepresents | src/crdt/rga-document.ts:182-196 | in causal order every operation takes effect |
| Convergence.ContinuationRepresents | src/crdt/rga-document.ts:182-196 | operations that continue a causally ordered log take effect on every list that shows at least that log |
| Convergence.StrongConvergence | tests/unit/crdt/convergence.test.ts:113-164 | any two causal orders of the same operations, with any repetitions, end in the same list |
| Convergence.ConvergenceOfEffects | src/crdt/rga-document.ts:87-96 | without any causal order, replicas agree as soon as the same operations took effect |
| Convergence.AgreementIffSameEffects | src/crdt/rga-document.ts:87-96 | after any two arrival sequences replicas agree if and only if the same operations took effect |
| Convergence.ReplayIsCanonical | src/crdt/rga-document.ts:93-96 | the order every replica reaches is the reference order of the operation set |
| Convergence.AnchorRecovered | src/crdt/rga-document.ts:293-307 | the anchor an INSERT named can be read back from a snapshot, which does not store it |
| Convergence.OrderIsStable | src/crdt/rga-document.ts:122-135 | no operation reorders or removes nodes: the order gains at most the operation's own uid |
| Convergence.SiblingsDescend | src/crdt/rga-document.ts:113-120 | nodes inserted behind the same node stand in descending order of their uids |
| Convergence.LargerSiteFirst | src/shared/types/operation.ts:22-31 | of two INSERTs at one anchor with equal clocks, the one whose site id has the larger character at the first difference stands first, whatever order they were applied in |
| Convergence.TieExample | src/shared/types/operation.ts:29-30 | site b's character comes in front of site a's when both type into the empty document at once |
| Convergence.DescentFollowsAfter | src/crdt/rga-document.ts:104-105 | position-wise descent is the chain of `after` references |
| Convergence.DescendantsAreARun | src/crdt/rga-document.ts:113-120 | the nodes whose anchor chain passes through a node are exactly the run of larger uids behind it |
| Convergence.RunsDoNotInterleave | tests/e2e/concurrent-edit.test.ts:96-99 | runs typed concurrently behind different nodes stay contiguous and never mix |
| Gc.CollectionIsInvisible | src/crdt/rga-document.ts:352-386 | after a collection, operations that bring back and are anchored at no collected node and insert larger uids leave the uncollected list minus the collected nodes, with the same text |
| Gc.HarmlessIff | src/crdt/rga-document.ts:100-159 | for every list, set of collected tombstones and operation: applying it commutes with the collection if and only if it is harmless |
| Gc.CollectionSeenIff | src/crdt/rga-document.ts:113-120 | a new INSERT with a surviving anchor lands alike before and after `gc` if and only if the first visible node right of where it lands is not above it |
| Gc.CollectionIsInvisibleIff | src/crdt/rga-document.ts:352-386 | the collected replica stays in step throughout a continuation if and only if every operation of it is harmless where it is applied |
| Gc.FollowersAreHarmless | src/crdt/rga-document.ts:358-361 | operations that bring back and are anchored at no collected node and insert larger uids are harmless whatever came before them |
| Gc.DeleteOnBoth | src/crdt/rga-document.ts:151-159 | a DELETE never reveals a collection |
| Gc.SameText | src/crdt/rga-document.ts:352-386 | taking out tombstones changes neither the visible nodes nor the text |
| Gc.CollectedNamesAreGaps | src/crdt/rga-document.ts:354-356 | an operation that names a collected node meets a causal gap and changes nothing |
| Gc.LateInsertExample | src/crdt/rga-document.ts:358-361 | a list and an INSERT, neither of whose names was collected, with different texts on the two replicas |
| LinkedNodes.LookupIs | src/crdt/rga-document.ts:101-105 | a lookup by string key finds a node exactly when the list knows the uid, and finds that node |
| LinkedNodes.IndexedInsert | src/crdt/rga-document.ts:137 | entering the new key keeps the index exactly the nodes of the list |
| LinkedNodes.IndexedRemove | src/crdt/rga-document.ts:377 | removing the key keeps the index exactly the nodes of the list |
| LinkedNodes.FindInsertionPoint | src/crdt/rga-document.ts:113-120 | walking the next pointers ends at the gap the list-level scan finds |
| LinkedNodes.Splice | src/crdt/rga-document.ts:122-135 | relinking keeps prev and next mutually inverse and puts the node into the list at that gap |
| LinkedNodes.Unlink | src/crdt/rga-document.ts:373-375 | bypassing a node keeps the chain and takes exactly that node out of the list |
| LinkedNodes.WalkText | src/crdt/rga-document.ts:205-213 | the walk yields the text of the list |
| LinkedNodes.WalkElements | src/crdt/rga-document.ts:293-307 | the walk yields the list itself, tombstones included |
| LinkedNodes.WalkToIndex | src/crdt/rga-document.ts:254-266 | the walk yields the uid at a visible position, null past the end |
| LinkedNodes.WalkToUid | src/crdt/rga-document.ts:233-247 | the walk yields the number of visible nodes in front of a visible uid, or nothing |
| RgaDocuments.RgaDocument.constructor | src/crdt/rga-document.ts:66-78 | starts with the empty list, the root alone in the index |
| RgaDocuments.RgaDocument.ApplyInsert | src/crdt/rga-document.ts:100-140 | on the linked nodes does what the list operation does: nothing for a known uid, failure for a missing anchor, else the scan rule; links, index and counters stay in agreement |
| RgaDocuments.RgaDocument.ApplyDelete | src/crdt/rga-document.ts:151-159 | tombstones exactly the named node once, false when it is unknown; deleting the root leaves the list alone and makes the length one too small |
| RgaDocuments.RgaDocument.ApplyOperation | src/crdt/rga-document.ts:182-196 | refines the list operation, with false for a causal gap and for a ROLLBACK sentinel |
| RgaDocuments.RgaDocument.ToText | src/crdt/rga-document.ts:205-213 | returns the text of the list |
| RgaDocuments.RgaDocument.UidToIndex | src/crdt/rga-document.ts:233-247 | returns the 0-based visible position, -1 for a missing or deleted uid, 0 for null |
| RgaDocuments.RgaDocument.IndexToUid | src/crdt/rga-document.ts:254-266 | returns the uid at a 1-based visible position, null for 0 and past the end |
| RgaDocuments.RgaDocument.GetNode | src/crdt/rga-document.ts:282-284 | returns the node of a known uid, null for any other |
| RgaDocuments.RgaDocument.NodeShows | src/crdt/rga-document.ts:282-284 | the value and left neighbour a found node shows are those of its place in the list; the root has neither |
| RgaDocuments.RgaDocument.Serialize | src/crdt/rga-document.ts:293-307 | returns every node in document order, tombstones included |
| RgaDocuments.RgaDocument.Deserialize | src/crdt/rga-document.ts:313-334 | rebuilds links, index and counters for exactly the given list |
| RgaDocuments.RgaDocument.Clone | src/crdt/rga-document.ts:340-342 | gives a separate document with the same list, hence equal results for all later operations |
| RgaDocuments.RgaDocument.Gc | src/crdt/rga-document.ts:365-386 | leaves exactly the visible nodes in order, returns how many were removed, keeps the length and makes nodeCount the number of nodes left |
| RgaDocuments.RgaDocument.Collect | src/crdt/rga-document.ts:369-382 | one round of the collection loop: takes out a tombstone or passes a visible node, with links, index and counters in agreement after it |
| CausalDelivery.EveryRunIsSafe | src/crdt/operation-log.ts:50-130 | in every run, overflows included, the document is the canonical state of what was applied, everything buffered is inapplicable, and the buffer is below its bound |
| CausalDelivery.ReceiveIsSafe | src/crdt/operation-log.ts:50-75 | one call keeps that invariant |
| CausalDelivery.FlushIsSafe | src/crdt/operation-log.ts:89-108 | flushing ends with nothing applicable left in the buffer and never takes back what was applied |
| CausalDelivery.ClientKeyInjective | src/crdt/operation-log.ts:55 | two envelopes share a client key only when session and client sequence number agree |
| CausalDelivery.DuplicateIff | src/crdt/operation-log.ts:150-154 | an envelope counts as delivered exactly when an applied one shares its positive server number, or its session and client number |
| CausalDelivery.RedeliveryIsDiscarded | src/crdt/operation-log.ts:50-57 | redelivering anything applied reports success and changes nothing |
| CausalDelivery.OverflowIff | src/crdt/operation-log.ts:64-74 | an overflow happens exactly when a new envelope that cannot be applied leaves no room below the bound; otherwise it is buffered at the end with one attempt |
| CausalDelivery.PassKeepsOrder | src/crdt/operation-log.ts:92-106 | a retry pass keeps the order of what it leaves and counts one attempt for each |
| CausalDelivery.RollbacksAreNeverApplied | src/crdt/rga-document.ts:182-196 | over every run a ROLLBACK envelope is never recorded as applied |
| CausalDelivery.DroppedCanBeRedelivered | src/crdt/operation-log.ts:110-130 | an overflow changes neither document nor record, and nothing it drops counts as applied |
| CausalDelivery.NothingIsLost | src/crdt/operation-log.ts:50-108 | without overflow every envelope received is applied or still buffered |
| CausalDelivery.NothingIsStuck | src/crdt/operation-log.ts:86-108 | in a causally closed set, when no unapplied operation can be applied, all have been |
| CausalDelivery.ArbitraryDelivery | src/crdt/operation-log.ts:1-12 | any arrival order with duplicates of a causally closed set, below the bound, ends with an empty buffer, everything applied and the document of a causal replay |
| CausalDelivery.ShortRunsNeverOverflow | src/crdt/operation-log.ts:66-72 | a run shorter than the buffer bound never overflows |
| OperationLogs.OperationLog.HasApplied | src/crdt/operation-log.ts:150-154 | the two sets decide exactly whether an envelope shares a server sequence number or client key with an applied one |
| OperationLogs.OperationLog.GetMaxAppliedSeq | src/crdt/operation-log.ts:143-145 | returns the maximum applied server sequence number, 0 if none |
| OperationLogs.OperationLog.ApplyOrBuffer | src/crdt/operation-log.ts:50-75 | refines the delivery step: duplicate, applied and flushed, buffered, or overflow |
| OperationLogs.OperationLog.RecordApplied | src/crdt/operation-log.ts:77-84 | the dedup sets and the running maximum stay those of the applied envelopes |
| OperationLogs.OperationLog.FlushBuffer | src/crdt/operation-log.ts:89-108 | the nested retry loop terminates at the fixpoint of passes |
| OperationLogs.OperationLog.RetryOnce | src/crdt/operation-log.ts:92-106 | one pass tries each entry once against the changing document and keeps the rest in order |
| OperationLogs.OperationLog.HoldBack | src/crdt/operation-log.ts:64-74 | buffers while there is room, and empties the buffer and asks for a reload when it is full |
| OperationLogs.DefaultLog | src/crdt/operation-log.ts:40-42 | with the default bound, no run of up to 99 envelopes asks for a reload |
| OperationLogs.PassFromIs | src/crdt/operation-log.ts:95-104 | the loop's accumulated pass equals the pass defined over the entries |
| LocalEdits.ClockBoundKept | src/client/crdt/client-rga.ts:79-82 | the Lamport clock never falls and keeps bounding every clock in the list |
| LocalEdits.ClockFollows | src/client/crdt/client-rga.ts:79-82 | a remote operation leaves the clock the largest one seen: where it started, or that of a node in the list |
| LocalEdits.ClockTicks | src/client/crdt/client-rga.ts:48-55 | a local insertion takes the clock one above the largest seen, which then is that of the new node |
| LocalEdits.ClockIsLargestSeen | src/client/crdt/client-rga.ts:48-113 | over every sequence of remote and local operations the clock is the largest one seen since it started |
| LocalEdits.ClockIsMax | src/client/crdt/client-rga.ts:171-183 | that is the larger of the starting clock and the largest clock in the list |
| LocalEdits.SentinelIsIgnoredIff | src/client/crdt/client-rga.ts:103-113 | a client takes the sentinel of a ROLLBACK for a DELETE, which changes nothing exactly when no visible node has its uid |
| LocalEdits.TickedUidIsAbove | src/client/crdt/client-rga.ts:49-50 | a ticked uid is new and above every uid in the list |
| LocalEdits.LocalInsertMeaning | src/client/crdt/client-rga.ts:48-55 | inserting at a visible position puts the new node exactly there and moves nothing else |
| LocalEdits.LocalInsertPastEnd | src/client/crdt/client-rga.ts:48-55 | at any position outside the text the new node comes to stand at the start |
| LocalEdits.GeneratedInsertIsAboveAnchor | src/client/crdt/client-rga.ts:48-55 | a generated INSERT is new, has its anchor, and its uid is above the anchor's |
| LocalEdits.LocalDeleteMeaning | src/client/crdt/client-rga.ts:61-67 | deleting a visible position removes exactly that node from view |
| TextDiffs.TypedOne | src/client/crdt/client-rga.ts:213-219 | with one code point per node, typing one at an index puts it there in the text |
| TextDiffs.ErasedOne | src/client/crdt/client-rga.ts:207-211 | deleting one position removes that code point from the text |
| TextDiffs.EndsMeet | src/client/crdt/client-rga.ts:198-205 | cutting out the middle of the old text and typing the middle of the new one gives the new text |
| TextDiffs.EraseAccounted | src/client/crdt/client-rga.ts:207-211 | the emitted deletes, replayed, give the same list |
| TextDiffs.TypeAccounted | src/client/crdt/client-rga.ts:213-219 | the emitted inserts, replayed, give the same list |
| TextDiffs.EraseEmits | src/client/crdt/client-rga.ts:207-211 | the first part of a diff emits DELETEs only and leaves the clock alone |
| TextDiffs.TypeEmits | src/client/crdt/client-rga.ts:213-219 | the second part emits one INSERT per code point, in order, under consecutive clocks of the site |
| TextDiffs.DiffKeepsClock | src/client/crdt/client-rga.ts:190-222 | behind a whole diff the clock is again the largest one seen |
| TextDiffs.DiffIsCorrect | src/client/crdt/client-rga.ts:190-222 | a whole diff turns the old text into the new one with one operation per code point of the two middles |
| ClientRgas.ClientRgaDocument.ApplyInsert | src/client/crdt/client-rga.ts:71-101 | drops duplicates and causal gaps, else inserts by the scan rule and advances the clock |
| ClientRgas.ClientRgaDocument.ApplyDelete | src/client/crdt/client-rga.ts:103-108 | tombstones the node if it is there |
| ClientRgas.ClientRgaDocument.ApplyOperation | src/client/crdt/client-rga.ts:110-113 | everything that is not an INSERT is taken as a DELETE |
| ClientRgas.ClientRgaDocument.LocalInsert | src/client/crdt/client-rga.ts:48-55 | emits the operation for that position and applies exactly it |
| ClientRgas.ClientRgaDocument.LocalDelete | src/client/crdt/client-rga.ts:61-67 | emits the operation for that position and applies exactly it, null when there is no such position |
| ClientRgas.ClientRgaDocument.DiffToOperations | src/client/crdt/client-rga.ts:190-222 | keeps the longest common ends, deletes what is between them from the right and types the new middle from the left; the text is exactly `after`, with one operation per differing code point, and the operations replayed give the list |
| ClientRgas.ClientRgaDocument.CommonEnds | src/client/crdt/client-rga.ts:198-205 | finds the longest common prefix, and the longest common suffix of what is left |
| ClientRgas.ClientRgaDocument.DeleteRange | src/client/crdt/client-rga.ts:207-211 | deletes the changed region right to left |
| ClientRgas.ClientRgaDocument.InsertRange | src/client/crdt/client-rga.ts:213-219 | types the changed region left to right |
| ClientRgas.ClientRgaDocument.IndexToUid | src/client/crdt/client-rga.ts:127-138 | the uid at a 1-based visible position |
| ClientRgas.ClientRgaDocument.UidToIndex | src/client/crdt/client-rga.ts:140-152 | the 1-based visible position of a uid, null when it is not visible |
| ClientRgas.ClientRgaDocument.GetAfterUid | src/client/crdt/client-rga.ts:154-157 | the node on the left of an insertion position, null at the start |
| ClientRgas.ClientRgaDocument.Serialize | src/client/crdt/client-rga.ts:161-169 | returns every node in document order |
| ClientRgas.ClientRgaDocument.Deserialize | src/client/crdt/client-rga.ts:171-183 | rebuilds the list and starts the clock at the largest clock in it, or at the given one if that is larger |
| History.MeaningIsStable | src/server/persistence/history-service.ts:54-59 | appending events, rollbacks included, never changes what an earlier revision means |
| History.Latest | src/server/persistence/snapshot-store.ts:79-106 | picks the largest eligible sequence number, none when there is none |
| History.ReconstructionIsMeaning | src/server/persistence/history-service.ts:27-52 | snapshot plus delta yields the text of every revision and its list short of collected tombstones, nested rollbacks included, for every snapshot placement that gets over every event |
| History.ReconstructionExact | src/server/persistence/history-service.ts:27-52 | it agrees with the meaning at every revision, short of the tombstones its snapshots lack, if and only if each event has a snapshot, is harmless behind the one in front of it, or is a ROLLBACK that restored what was shown |
| History.WholeReconstructionExact | src/server/persistence/history-service.ts:27-52 | with whole documents in the snapshots it equals the meaning at every revision if and only if every ROLLBACK has its snapshot or changed nothing |
| Pruning.LostRollbackExample | README.md:86 | a ROLLBACK to the empty document loses its snapshot to ten newer ones: reconstruction of its revision was right and then shows the character again |
| Pruning.LostRollbackStore | README.md:86 | snapshots at every revision over ten more events are such a store |
| History.CollectedSnapshotsShowText | src/crdt/rga-document.ts:358-361 | snapshots taken after a collection reconstruct the text of every revision as long as the events behind each bring back and are anchored at no collected node and insert larger uids |
| History.MeaningIsLine | src/server/persistence/history-service.ts:54-59 | the meaning of a revision is the replay of the operations left after going back at each ROLLBACK |
| Pruning.KeepsRecent | README.md:86 | from the oldest kept snapshot on, pruning changes no reconstruction |
| Pruning.NewestCount | README.md:86 | as many snapshots are kept as there are, and no more than asked for |
| Pruning.Forgets | README.md:86 | a revision older than all kept snapshots is replayed from the start of the log, ROLLBACKs skipped |
| History.LoadedIsReconstructed | src/server/sync/document-cache.ts:68-104 | loading reconstructs the lastSeq it reports, also when the limit cuts the delta short |
| History.LoadedReachesEndIff | src/server/persistence/operation-store.ts:89-102 | loading reaches the end of the log if and only if at most 10000 events follow the latest snapshot |
| History.CutShortExample | src/server/persistence/operation-store.ts:89-102 | of 10001 events without a snapshot the last one is not loaded |
| History.LoadedIsMeaning | src/server/sync/document-cache.ts:68-104 | loading yields the text of the lastSeq it reports and its list short of collected tombstones |
| EventStores.EventStore.AppendOperation | src/server/persistence/operation-store.ts:48-83 | takes the next gapless sequence number, steps the meaning by the operation, changes no earlier revision, and keeps reconstruction right when the operation does not reveal what the last snapshot lacks |
| EventStores.EventStore.LoadOperationsInRange | src/server/persistence/operation-store.ts:108-120 | the events of a closed range of sequence numbers in order, none when the range is empty |
| EventStores.EventStore.LoadOperationsAfterSeq | src/server/persistence/operation-store.ts:89-102 | at most `limit` events behind a sequence number, in order |
| EventStores.EventStore.SaveSnapshot | src/server/persistence/snapshot-store.ts:43-73 | never overwrites a snapshot; fails exactly when one exists that is not the latest; a document that shows the last revision, collected or not, keeps reconstruction right |
| EventStores.EventStore.Compact | README.md:86 | collects the cached document, saves it under the last sequence number of a nonempty log unless that has a snapshot, and keeps reconstruction right if the document showed that revision |
| EventStores.EventStore.PruneOldSnapshots | README.md:86 | keeps ten snapshots, or all if there are fewer, unchanged and newer than every one dropped, and every reconstruction from the oldest kept one on |
| EventStores.EventStore.ReplayOn | src/server/persistence/history-service.ts:46-48 | applies the events one after the other |
| EventStores.EventStore.ReconstructAtSeq | src/server/persistence/history-service.ts:27-52 | returns snapshot plus delta and the snapshot used: the target revision and its text in a faithful store, the very list when snapshots are whole |
| EventStores.EventStore.CommitRollback | src/server/persistence/history-service.ts:85-115 | appends the ROLLBACK with its snapshot, whatever was appended since the document was read, and keeps reconstruction right |
| EventStores.EventStore.RestoreToRevision | src/server/persistence/history-service.ts:60-116 | the new revision means what the target meant and its snapshot stores what was reconstructed, no earlier revision changes, the returned text is the snapshot's, and reconstruction stays right |
| EventStores.EventStore.LoadDocumentFromDb | src/server/sync/document-cache.ts:68-104 | the cache entry reaches the end of the log when at most 10000 events follow the snapshot and 10000 events otherwise, and holds what its lastSeq means |
| OperationHandlers.Worker.ApplyInMemory | src/server/sync/operation-handler.ts:73-79 | applies any operation as the list does; one whose dependencies are logged is always applied and keeps the cache the canonical state of log plus in-flight operations |
| OperationHandlers.Worker.Persist | src/server/sync/operation-handler.ts:81-90 | an append in any order of the in-flight operations keeps that |
| OperationHandlers.Worker.UpdateCached | src/server/sync/operation-handler.ts:92-96 | assigns the sequence number and counts one operation |
| OperationHandlers.Worker.constructor | src/server/sync/document-cache.ts:95-103 | an entry that holds the meaning of a causally ordered log, rollbacks included, agrees with it |
| OperationHandlers.Worker.QuiescentCacheIsMeaning | src/server/sync/document-cache.ts:106-119 | with nothing in flight the cached list is what the log means, rollbacks included, in whatever order operations were applied |
| OperationHandlers.AppliedAgrees | src/server/sync/operation-handler.ts:73-79 | applying any operation keeps cache and log in agreement if and only if the node it names is logged |
| OperationHandlers.AppendedAgrees | src/server/sync/operation-handler.ts:81-90 | the agreement of cache and log over one append step |
| OperationHandlers.AgreementIsReplay | src/server/sync/document-cache.ts:106-119 | agreement with nothing in flight means equality with the replay |
| OperationHandlers.OvertakenAgreesIff | src/server/sync/operation-handler.ts:73-90 | an operation is applied, others go through, then it is appended: cache and log replay agree if and only if it does not build on one of those others |
| OperationHandlers.StoringIsSafeIff | src/server/sync/operation-handler.ts:73-90 | whatever goes through before the append, cache and log replay agree if and only if the node an operation names was logged when it was applied |
| OperationHandlers.StoredGapDisagrees | src/server/sync/operation-handler.ts:75-90 | the case of a DELETE: in every agreeing state, one stored before the INSERT it names leaves cache and log replay different |
| OperationHandlers.StoredGapExample | src/server/sync/operation-handler.ts:75-90 | from the empty document the cache shows the character and the log's replay has it deleted |
| Undo.UndoReplays | src/crdt/history-manager.ts:75-108 | replaying freshened inverses hides what was inserted and puts one copy beside each tombstone, all else in place |
| Undo.UndoKeepsOthersWork | src/crdt/history-manager.ts:4-9 | on any current list, undo hides exactly the batch's inserts, adds one visible copy directly beside each deleted node, and leaves every other node's visibility and order alone |
| Undo.FreshenIsFresh | src/crdt/history-manager.ts:94-99 | a client that ticks its clock per placeholder meets what undo asks of its caller |
| Undo.HideStep | src/crdt/history-manager.ts:81-88 | the inverse of an INSERT hides its node and nothing else |
| Undo.CopyStep | src/crdt/history-manager.ts:89-99 | the inverse of a DELETE puts a visible copy directly left of the tombstone |
| Undo.InverseSets | src/crdt/history-manager.ts:75-108 | the inverses delete exactly what the batch inserted and re-insert what it deleted |
| Undo.InversesRunBackwards | src/crdt/history-manager.ts:75-108 | the inverses of a batch undo its parts in the opposite order |
| Undo.BatchReverts | src/crdt/history-manager.ts:46-58 | taking a local batch back node by node gives the list it started from |
| Undo.UndoRestoresTextIff | src/crdt/history-manager.ts:46-58 | with no remote operations the text from before a local batch returns if and only if the batch deletes none of its own inserts |
| Undo.UndoOfErasedTyping | src/crdt/history-manager.ts:46-58 | undoing any batch that deleted one of its own inserts, with the uids a client would use, changes the text |
| Undo.ErasedTypingExample | src/crdt/history-manager.ts:46-58 | a character typed into the empty document and erased comes back by undo |
| Undo.UndoIsAdmittedIff | src/crdt/history-manager.ts:89-99 | the server admits every operation of an undo if and only if the batch did not delete the first node of the list |
| Undo.UndoOfFirstExample | src/server/security/input-sanitizer.ts:8-17 | the copy of the only character of a document is anchored at the root and refused |
| HistoryManagers.HistoryManager.RecordLocalOperation | src/crdt/history-manager.ts:21-37 | extends the open batch and empties the redo stack |
| HistoryManagers.HistoryManager.CommitBatch | src/crdt/history-manager.ts:39-44 | moves a nonempty open batch to the undo stack and never an empty one |
| HistoryManagers.HistoryManager.Undo | src/crdt/history-manager.ts:50-58 | moves the last batch to the redo stack and returns its inverses against the current document, null when there is none |
| HistoryManagers.HistoryManager.Redo | src/crdt/history-manager.ts:63-73 | moves the last undone batch back and returns it, so undo then redo leaves both stacks as they were |
| HistoryManagers.HistoryManager.CreateInverseOps | src/crdt/history-manager.ts:75-108 | walks the batch backwards and skips deletes of nodes no longer there |
| SyncSystem.GeneratedUidIsNew | src/client/crdt/client-rga.ts:48-55 | the uid of a local insertion is new in the whole system |
| SyncSystem.TypeKeepsInv | src/client/hooks/useCollaborativeDoc.ts:197-221 | a local insertion keeps the system invariant |
| SyncSystem.EraseKeepsInv | src/client/hooks/useCollaborativeDoc.ts:223-248 | a local deletion keeps the system invariant |
| SyncSteps.ApplyKeepsInv | src/server/sync/operation-handler.ts:70-79 | the worker's apply step keeps the system invariant |
| SyncSteps.AppendKeepsInv | src/server/sync/operation-handler.ts:81-90 | the append keeps the system invariant, for any interleaving of sessions |
| SyncSteps.DeliveryKeepsInv | src/client/hooks/useCollaborativeDoc.ts:164-172 | a broadcast keeps the system invariant: in any order, as an echo, as a duplicate, or dropped at a gap |
| SyncSteps.DeliveryTakesEffectIff | src/client/crdt/client-rga.ts:71-77 | a broadcast takes effect if and only if the client has what it builds on or has it already |
| SyncConvergence.InOrderDeliveryCatchesUp | src/client/hooks/useCollaborativeDoc.ts:164-172 | delivered in log order, every broadcast takes effect, whatever arrived before |
| SyncSteps.JoinKeepsInv | src/client/hooks/useCollaborativeDoc.ts:125-156 | a fresh join from the cached document, by a new site or again by one with nothing unlogged, keeps the system invariant when no INSERT is in flight |
| SyncSteps.EveryRunKeepsInv | src/client/hooks/useCollaborativeDoc.ts:123-172 | in every run with clear joins, uids are unique and above their anchors, the log is causally ordered, the cache is the state of log plus in-flight operations, and each client holds the state of what took effect on it plus its own pending operations, under a clock that is the largest one it shows |
| SyncConvergence.EveryRunConverges | src/shared/types/operation.ts:22-23 | at rest, with every logged operation in effect everywhere, every client, the cache and a replay of the log are the same list |
| SyncConvergence.AgreesAtRestIff | src/client/crdt/client-rga.ts:75-77 | at rest a client agrees with the log if and only if every logged operation took effect on it |
| SyncConvergence.DeliveryOrderIff | src/server/sync/operation-handler.ts:98-99 | a client that gets every entry it has not seen once agrees with the log in the end if and only if each broadcast arrives after the node it names |
| SyncConvergence.CrossedBroadcastIsLost | src/client/crdt/client-rga.ts:75-77 | a broadcast that arrives before what it builds on is lost, and the client disagrees at rest |
| SyncConvergence.CrossedBroadcastExample | src/server/sync/operation-handler.ts:98-99 | a newcomer that joined before the first character was published answers it: delivered in publication order the two leave a client without a character, delivered in log order they do not |
| SyncConvergence.CacheAgreesWithLog | src/server/sync/operation-handler.ts:73-96 | with nothing in flight the cache is the replay of the log, in whatever order operations were applied |
| SyncConvergence.UnclearJoinBreaksTheLog | src/server/transport/websocket-server.ts:340-353 | while an INSERT is in flight, a newcomer can leave a log out of causal order whose replay loses a character the cache shows |
| SyncConvergence.UnclearJoinExample | src/server/transport/websocket-server.ts:340-353 | a run that gets there: one client joins and types, and the worker has applied but not appended |
| SyncConvergence.JoinIsSafeIff | src/server/transport/websocket-server.ts:340-353 | a join keeps every continuation's log causally ordered if and only if no INSERT is in flight |
| Rejoins.EditedKeepsUp | src/client/crdt/client-rga.ts:48-67 | with no collected uid of its own above its clock, a client that joined from a collected copy stays in step with those who kept the tombstones, whatever it edits |
| Rejoins.ReissuedIsHidden | src/crdt/rga-document.ts:100-102 | an INSERT with a tombstone's uid never shows on a replica that kept the tombstone |
| Rejoins.RejoinIsSafeIff | src/client/crdt/client-rga.ts:171-183 | a client that joins from a collected copy sees what those see who kept the tombstones, whatever it edits, if and only if none of its site's collected uids is above the clock it starts with |
| Rejoins.NoneAboveIff | src/client/crdt/client-rga.ts:171-183 | in the system that condition is the same as: no uid the site ever issued is above the largest one of the collected cache |
| Rejoins.ReissueExample | src/crdt/rga-document.ts:358-361 | a run: the only character is typed and erased, the cache is collected, and the site's next character gets the first one's uid |
| OfflineQueues.Unacknowledged | src/client/crdt/offline-queue.ts:71-74 | keeps exactly the entries with another client sequence number |
| OfflineQueues.AcknowledgedIsCutOut | src/client/crdt/offline-queue.ts:71-74 | an ACK takes the entry with its number out and leaves the others in their order |
| OfflineQueues.UnacknowledgedConcat | src/client/crdt/offline-queue.ts:71-74 | what an ACK leaves of a queue is what it leaves of its front, then of its back |
| OfflineQueues.QueueStaysInOrder | src/client/hooks/useCollaborativeDoc.ts:139-150 | on a page that opened with nothing stored, the queue and with it every resend is in the order of the edits |
| OfflineQueues.NumbersCountAttempts | src/client/hooks/useCollaborativeDoc.ts:223-227 | every edit and every deletion that finds nothing uses up one client sequence number |
| OfflineQueues.RefusedStaysUnlogged | src/server/sync/operation-handler.ts:53-67 | a message refused behind the replay guard is never logged by a resend while its nonce is remembered |
| OfflineQueues.OfflineQueue.Enqueue | src/client/crdt/offline-queue.ts:63-66 | adds at the end |
| OfflineQueues.OfflineQueue.Acknowledge | src/client/crdt/offline-queue.ts:71-74 | drops every entry with that client sequence number and no other |
| OfflineQueues.HappenKeepsInv | src/client/hooks/useCollaborativeDoc.ts:139-162 | every event keeps: each operation is queued or logged, and an ACK under way stands for logged ones only |
| OfflineQueues.SessionIsSafe | src/client/hooks/useCollaborativeDoc.ts:197-260 | over every page session whose stored operations are logged and remembered, an empty queue included, no edit is lost, with dropped sends, resends, refusals, expiring nonces of others and lost ACKs |
| OfflineQueues.NothingLostIff | src/client/crdt/offline-queue.ts:44-52 | no run of client edits can lose one, however long it lasts, if and only if the page opened with an empty stored queue |
| OfflineQueues.NothingLostWithinWindowIff | src/server/security/replay-guard.ts:26-39 | while stored nonces do not expire, no run can lose an edit if and only if every stored operation is logged and its nonce remembered |
| OfflineQueues.UnloggedLoses | src/server/sync/operation-handler.ts:44-67 | resent and rate limited, a stored operation that is not logged goes with the ACK of the typed character that has its number |
| OfflineQueues.ForgottenLoses | src/server/security/replay-guard.ts:26-39 | accepted a second time, a stored operation takes the unlogged character with it that has its number |
| OfflineQueues.ReloadLoses | src/client/hooks/useCollaborativeDoc.ts:139-162 | for any stored operation, logged or not, there is a losing run |
| SessionQueues.Session.OnMessage | src/server/transport/websocket-server.ts:136-162 | an operation goes behind the waiting operations and in front of everything else, any other message to the end; drainer active |
| SessionQueues.Session.PositionFor | src/server/transport/websocket-server.ts:145-157 | finds the first position of lower priority |
| SessionQueues.Session.TakeNext | src/server/transport/websocket-server.ts:163-187 | takes the first message, which is an operation whenever one waits, and stops the drainer only on an empty queue |
| SessionQueues.Session.ProcessedInOrder | src/server/transport/websocket-server.ts:136-189 | operations are processed in arrival order, and so is the rest; each message that arrived at most once |
| SessionQueues.Session.OperationsWaitInFront | src/server/transport/websocket-server.ts:136-157 | what waits is the operations and behind them the other messages, each kind in order |
| CollaborativeDocs.CollaborativeDoc.Send | src/client/hooks/useCollaborativeDoc.ts:70-74 | a message to a socket that is not open is dropped |
| CollaborativeDocs.CollaborativeDoc.HandleJoinAck | src/client/hooks/useCollaborativeDoc.ts:125-156 | rebuilds the document, applies the missed operations in order, leaves the clock at the largest one in the list, tracks the maximum sequence number and resends the whole queue in order |
| CollaborativeDocs.CollaborativeDoc.HandleOpAck | src/client/hooks/useCollaborativeDoc.ts:158-162 | removes the acknowledged entry and raises lastSeq |
| CollaborativeDocs.CollaborativeDoc.HandleBroadcast | src/client/hooks/useCollaborativeDoc.ts:164-172 | applies the operation to the open document and raises lastSeq |
| CollaborativeDocs.CollaborativeDoc.LocalInsert | src/client/hooks/useCollaborativeDoc.ts:197-221 | edits the document, numbers and queues the operation, and sends it if the socket is open |
| CollaborativeDocs.CollaborativeDoc.LocalDelete | src/client/hooks/useCollaborativeDoc.ts:223-248 | the same for a deletion; the number is used up even when there is nothing to delete |
| CollaborativeDocs.CollaborativeDoc.LocalBatchEdit | src/client/hooks/useCollaborativeDoc.ts:250-260 | turns the text into `after` by exactly the diff's operations and queues and sends them in order under consecutive numbers |
| CollaborativeDocs.ClientReplayIsReplay | src/client/hooks/useCollaborativeDoc.ts:133-137 | missed operations do to the client's list what they do to the server's |
| CollaborativeDocs.MaxSeq | src/client/hooks/useCollaborativeDoc.ts:133-137 | lastSeq becomes the maximum of the old value and the received sequence numbers |

## Left out

- FORMAT operations and node attributes: last writer wins by arrival order, so there is nothing to converge to, and the message schema rejects them (`src/server/security/input-sanitizer.ts:46-49`).
- Node values that are not strings: `toText` skips them; here every value is a string, and the root's null value is the empty one.
- RgaDocuments.RgaDocument.Deserialize: a node array with repeated uids or the root's is outside its contract, because `serialize` never produces one.
- ClientRgas.ClientRgaDocument.Deserialize: the same, for the arrays a server sends.
- ClientRgas.ClientRgaDocument.ApplyInsert: the client class holds an `RgaDocument` for its root, nodes, index and length instead of repeating the same splicing code, so the second copy of the loop is not proved separately.
- SyncSteps.JoinKeepsInv: joins of a site with operations outside the log, and reconnects with `lastSeq > 0`, are not steps of the system; `HandleJoinAck` alone covers missed operations.
- SyncSteps.EveryRunKeepsInv: collecting the cached document is not a step of the system; `Gc` proves what a collection changes for replicas, and `Rejoins` for uids.
- SyncConvergence.EveryRunConverges: operations refused by the rate limit or the replay check, rollbacks, collections, several workers with their own caches, and eviction of a cached document are not steps of the system.
- OperationHandlers.Worker.UpdateCached: `lastSeq` is assigned as in the code, so it can fall when appends of two sessions cross; nothing is claimed about it beyond that.
- EventStores.EventStore.Compact: runs between, not during, the steps of an operation; a cached document that is ahead of the log does not show the last revision, which is the condition of its contract.
- EventStores.EventStore.CommitRollback: the transaction is one step; a failure between the append and the snapshot is not modelled.
- `getOrLoadDocument` and its map of loading promises: one load at a time is assumed.
- `localStorage`, timers, `firstSeen`, callbacks, logging, hashes, JSON, authentication, presence, notifications and vector clocks: no document state depends on them.
- OfflineQueues.SessionIsSafe: messages and ACKs arrive in any order, which is more than one socket allows; the two losing runs process edits in the order they were made.
- `OfflineQueue.clear` and `incrementAttempts`: nothing in the protocol calls for more than their bodies say.
- Number and string representation: clocks are unbounded naturals, and site ids are compared by code point where JavaScript compares UTF-16 units.
