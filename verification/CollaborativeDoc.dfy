/** The client's protocol: local edits applied, queued and sent at once; server messages folded in. */
module CollaborativeDocs {
  import opened Rga
  import CausalDelivery
  import opened LocalEdits
  import opened TextDiffs
  import opened ClientRgas
  import opened OfflineQueues

  type Envelope = CausalDelivery.Envelope

  /** Received operations applied one after the other. */
  function ClientReplay(d: Doc, envelopes: seq<Envelope>): Doc {
    if envelopes == [] then d
    else ClientApply(ClientReplay(d, envelopes[..|envelopes| - 1]), envelopes[|envelopes| - 1].op)
  }

  function MaxSeq(n: nat, envelopes: seq<Envelope>): (m: nat)
    ensures m >= n && forall i :: 0 <= i < |envelopes| ==> envelopes[i].seqNo <= m
    ensures m == n || exists i :: 0 <= i < |envelopes| && envelopes[i].seqNo == m
  {
    if envelopes == [] then n
    else
      var init, last := envelopes[..|envelopes| - 1], envelopes[|envelopes| - 1].seqNo;
      var m := MaxSeq(n, init);
      assert forall i :: 0 <= i < |init| ==> envelopes[i] == init[i];
      if last > m then last else m
  }

  lemma OneMore(d: Doc, n: nat, envelopes: seq<Envelope>, i: nat)
    requires i < |envelopes|
    ensures ClientReplay(d, envelopes[..i + 1]) == ClientApply(ClientReplay(d, envelopes[..i]), envelopes[i].op)
    ensures var m := MaxSeq(n, envelopes[..i]);
      MaxSeq(n, envelopes[..i + 1]) == if envelopes[i].seqNo > m then envelopes[i].seqNo else m
  {
    assert envelopes[..i + 1][..i] == envelopes[..i];
  }

  /** Received operations, none of them a ROLLBACK, do to a client's list what they do to the server's. */
  lemma {:induction false} ClientReplayIsReplay(d: Doc, envelopes: seq<Envelope>, ops: seq<Op>)
    requires |ops| == |envelopes| && forall i :: 0 <= i < |ops| ==> ops[i] == envelopes[i].op && !ops[i].Rollback?
    ensures ClientReplay(d, envelopes) == Replay(d, ops)
  {
    if ops != [] {
      var n := |ops| - 1;
      ClientReplayIsReplay(d, envelopes[..n], ops[..n]);
      ClientApplyIsStep(Replay(d, ops[..n]), ops[n]);
    }
  }

  /** Queue entries for operations generated one after the other, numbered on from `clientSeq`. */
  function Numbered(ops: seq<Op>, clientSeq: nat, nonce: nat -> string): (r: seq<QueuedOperation>)
    ensures |r| == |ops|
    ensures forall i :: 0 <= i < |r| ==> r[i] == QueuedOperation(clientSeq + 1 + i, ops[i], nonce(clientSeq + 1 + i), 1)
  {
    seq(|ops|, i requires 0 <= i < |ops| =>
      QueuedOperation(clientSeq + 1 + i, ops[i], nonce(clientSeq + 1 + i), 1))
  }

  class CollaborativeDoc {
    var docRef: ClientRgaDocument?
    const queue: OfflineQueue
    var clientSeq: nat
    var lastSeq: nat
    var connected: bool
    /** What has been handed to the open socket. */
    var sent: seq<QueuedOperation>

    ghost predicate Valid()
      reads this, queue, docRef, if docRef == null then {} else docRef.Repr
    {
      docRef != null ==> docRef.Valid() && this !in docRef.Repr && queue !in docRef.Repr
    }

    constructor (stored: seq<QueuedOperation>)
      ensures Valid() && docRef == null && clientSeq == lastSeq == 0 && sent == []
      ensures fresh(queue) && queue.queue == stored
    {
      queue := new OfflineQueue(stored);
      docRef, clientSeq, lastSeq, connected, sent := null, 0, 0, false, [];
    }

    /** Messages to a socket that is not open are dropped. */
    method Send(q: QueuedOperation)
      modifies `sent
      ensures sent == old(sent) + if connected then [q] else []
    {
      if connected {
        sent := sent + [q];
      }
    }

    // ----- server messages -----

    /** Rebuilds the document from the snapshot, applies missed operations and resends the queue. */
    method HandleJoinAck(siteId: string, snapshot: Doc, missedOps: seq<Envelope>)
      requires Valid() && WellFormed(snapshot)
      modifies this
      ensures Valid() && docRef != null && fresh(docRef.Repr) && docRef.siteId == siteId
      ensures docRef.Contents() == ClientReplay(snapshot, missedOps)
      ensures docRef.clock == MaxClock(docRef.Contents())
      ensures lastSeq == MaxSeq(old(lastSeq), missedOps) && clientSeq == old(clientSeq)
      ensures sent == old(sent) + if connected then queue.queue else []
      ensures queue.queue == old(queue.queue) && connected == old(connected)
    {
      var doc := ClientRgaDocument.Deserialize(snapshot, siteId, 0);
      ClockIsMax(doc.Contents(), doc.clock, 0);
      ApplyMissed(doc, missedOps);
      ClockIsMax(doc.Contents(), doc.clock, 0);
      docRef := doc;
      Resend();
    }

    method ApplyMissed(doc: ClientRgaDocument, missedOps: seq<Envelope>)
      requires doc.Valid() && this !in doc.Repr
      modifies `lastSeq, doc.Repr
      ensures doc.Valid() && fresh(doc.Repr - old(doc.Repr))
      ensures doc.Contents() == ClientReplay(old(doc.Contents()), missedOps)
      ensures old(ClockIs(doc.Contents(), doc.clock, 0)) ==> ClockIs(doc.Contents(), doc.clock, 0)
      ensures lastSeq == MaxSeq(old(lastSeq), missedOps)
    {
      ghost var d, n := doc.Contents(), lastSeq;
      for i := 0 to |missedOps|
        invariant doc.Valid() && fresh(doc.Repr - old(doc.Repr))
        invariant doc.Contents() == ClientReplay(d, missedOps[..i])
        invariant old(ClockIs(doc.Contents(), doc.clock, 0)) ==> ClockIs(doc.Contents(), doc.clock, 0)
        invariant lastSeq == MaxSeq(n, missedOps[..i])
      {
        OneMore(d, n, missedOps, i);
        Receive(doc, missedOps[i]);
      }
      assert missedOps[..|missedOps|] == missedOps;
    }

    method Receive(doc: ClientRgaDocument, e: Envelope)
      requires doc.Valid() && this !in doc.Repr
      modifies `lastSeq, doc.Repr
      ensures doc.Valid() && fresh(doc.Repr - old(doc.Repr))
      ensures doc.Contents() == ClientApply(old(doc.Contents()), e.op)
      ensures old(ClockIs(doc.Contents(), doc.clock, 0)) ==> ClockIs(doc.Contents(), doc.clock, 0)
      ensures lastSeq == if e.seqNo > old(lastSeq) then e.seqNo else old(lastSeq)
    {
      if ClockIs(doc.Contents(), doc.clock, 0) {
        ClockFollows(doc.Contents(), doc.clock, e.op, 0);
      }
      doc.ApplyOperation(e.op);
      lastSeq := if e.seqNo > lastSeq then e.seqNo else lastSeq;
    }

    method Resend()
      modifies `sent
      ensures sent == old(sent) + if connected then queue.queue else []
    {
      var queued := queue.GetAll();
      for i := 0 to |queued|
        invariant sent == old(sent) + if connected then queued[..i] else []
      {
        Send(queued[i]);
      }
      assert queued[..|queued|] == queued;
    }

    method HandleOpAck(ackedSeq: nat, serverSeq: nat)
      requires Valid()
      modifies `lastSeq, queue
      ensures Valid() && queue.queue == Unacknowledged(old(queue.queue), ackedSeq)
      ensures lastSeq >= old(lastSeq) && lastSeq >= serverSeq && (lastSeq == old(lastSeq) || lastSeq == serverSeq)
    {
      queue.Acknowledge(ackedSeq);
      lastSeq := if serverSeq > lastSeq then serverSeq else lastSeq;
    }

    /** Own operations come back too; applying them again changes nothing. */
    method HandleBroadcast(e: Envelope)
      requires Valid()
      modifies `lastSeq, if docRef == null then {} else docRef.Repr
      ensures Valid() && docRef == old(docRef) && queue.queue == old(queue.queue)
      ensures docRef != null ==>
        && docRef.Contents() == ClientApply(old(docRef.Contents()), e.op)
        && docRef.clock == ClientClock(old(docRef.Contents()), old(docRef.clock), e.op)
      ensures lastSeq == MaxSeq(old(lastSeq), [e])
    {
      assert MaxSeq(lastSeq, [e]) == if e.seqNo > lastSeq then e.seqNo else lastSeq by {
        assert [e][..0] == [];
      }
      lastSeq := if e.seqNo > lastSeq then e.seqNo else lastSeq;
      if docRef != null {
        docRef.ApplyOperation(e.op);
      }
    }

    // ----- local edits -----

    method Submit(op: Op, nonce: nat -> string)
      requires Valid()
      modifies `sent, queue
      ensures Valid()
      ensures queue.queue == old(queue.queue) + [QueuedOperation(clientSeq, op, nonce(clientSeq), 1)]
      ensures sent == old(sent) + if connected then [QueuedOperation(clientSeq, op, nonce(clientSeq), 1)] else []
    {
      var q := QueuedOperation(clientSeq, op, nonce(clientSeq), 1);
      queue.Enqueue(q);
      Send(q);
    }

    method LocalInsert(index: int, value: string, nonce: nat -> string)
      requires Valid()
      modifies this, queue, if docRef == null then {} else docRef.Repr
      ensures Valid() && docRef == old(docRef) && lastSeq == old(lastSeq)
      ensures docRef == null ==> queue.queue == old(queue.queue) && clientSeq == old(clientSeq)
      ensures docRef != null ==>
        var op := LocalInsertOp(old(docRef.Contents()), old(docRef.clock), docRef.siteId, index, value);
        && docRef.Contents() == Step(old(docRef.Contents()), op) && docRef.clock == old(docRef.clock) + 1
        && clientSeq == old(clientSeq) + 1
        && queue.queue == old(queue.queue) + Numbered([op], old(clientSeq), nonce)
        && sent == old(sent) + if old(connected) then Numbered([op], old(clientSeq), nonce) else []
    {
      if docRef == null {
        return;
      }
      clientSeq := clientSeq + 1;
      var op := docRef.LocalInsert(index, value);
      Submit(op, nonce);
    }

    /** The client sequence number is used up even when there is nothing to delete. */
    method LocalDelete(index: int, nonce: nat -> string)
      requires Valid()
      modifies this, queue, if docRef == null then {} else docRef.Repr
      ensures Valid() && docRef == old(docRef) && lastSeq == old(lastSeq)
      ensures docRef == null ==> queue.queue == old(queue.queue) && clientSeq == old(clientSeq)
      ensures docRef != null ==>
        var op := LocalDeleteOp(old(docRef.Contents()), index);
        && clientSeq == old(clientSeq) + 1
        && docRef.Contents() == (if op.Some? then Step(old(docRef.Contents()), op.value) else old(docRef.Contents()))
        && docRef.clock == old(docRef.clock)
        && queue.queue == old(queue.queue) + (if op.Some? then Numbered([op.value], old(clientSeq), nonce) else [])
        && sent == old(sent) + if op.Some? && old(connected) then Numbered([op.value], old(clientSeq), nonce) else []
    {
      if docRef == null {
        return;
      }
      clientSeq := clientSeq + 1;
      var op := docRef.LocalDelete(index);
      if op.None? {
        return;
      }
      Submit(op.value, nonce);
    }

    /** A whole-text edit: the operations of the diff are applied, then queued and sent in order. */
    method LocalBatchEdit(before: string, after: string, nonce: nat -> string)
      returns (ghost ops: seq<Op>, ghost p: nat, ghost hi: nat, ghost k: nat)
      requires Valid()
      modifies this, queue, if docRef == null then {} else docRef.Repr
      ensures Valid() && docRef == old(docRef) && lastSeq == old(lastSeq)
      ensures clientSeq == old(clientSeq) + |ops|
      ensures queue.queue == old(queue.queue) + Numbered(ops, old(clientSeq), nonce)
      ensures sent == old(sent) + if old(connected) then Numbered(ops, old(clientSeq), nonce) else []
      ensures docRef == null ==> ops == []
      ensures docRef != null ==>
        && docRef.Contents() == Replay(old(docRef.Contents()), ops)
        && p <= hi <= |before| && p <= k <= |after|
        && IsCommonPrefix(before, after, p) && IsCommonSuffix(before, after, p, |before| - hi)
        && Editing(docRef.Contents(), docRef.clock, ops) ==
          Type(Erase(Editing(old(docRef.Contents()), old(docRef.clock), []), hi, p), docRef.siteId, after, p, k)
        && (old(OneCharEach(docRef.Contents()) && Text(docRef.Contents()) == before) ==>
          OneCharEach(docRef.Contents()) && Text(docRef.Contents()) == after)
    {
      ops, p, hi, k := [], 0, 0, 0;
      if docRef == null {
        return;
      }
      var generated;
      generated, p, hi, k := docRef.DiffToOperations(before, after);
      ops := generated;
      SubmitAll(generated, nonce);
    }

    method SubmitAll(ops: seq<Op>, nonce: nat -> string)
      requires Valid()
      modifies `sent, `clientSeq, queue
      ensures Valid() && clientSeq == old(clientSeq) + |ops|
      ensures queue.queue == old(queue.queue) + Numbered(ops, old(clientSeq), nonce)
      ensures sent == old(sent) + if connected then Numbered(ops, old(clientSeq), nonce) else []
    {
      for i := 0 to |ops|
        invariant Valid() && clientSeq == old(clientSeq) + i
        invariant queue.queue == old(queue.queue) + Numbered(ops, old(clientSeq), nonce)[..i]
        invariant sent == old(sent) + if connected then Numbered(ops, old(clientSeq), nonce)[..i] else []
      {
        clientSeq := clientSeq + 1;
        Submit(ops[i], nonce);
      }
    }
  }
}
