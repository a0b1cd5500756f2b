/** The operation log as the mutable object in front of a document, refining CausalDelivery. */
module OperationLogs {
  import opened Rga
  import opened Convergence
  import opened CausalDelivery
  import opened RgaDocuments

  class OperationLog {
    var appliedSeqs: set<nat>
    var appliedClientKeys: set<string>
    var buffer: seq<PendingOp>
    const maxBufferSize: nat
    var maxAppliedSeq: nat
    /** Set when the overflow callback has fired. */
    var reloadRequested: bool
    ghost var Applied: seq<Envelope>

    /** The dedup sets and the running maximum are those of the applied envelopes. */
    ghost predicate Valid()
      reads this
    {
      && appliedSeqs == SeqsOf(Applied)
      && appliedClientKeys == KeysOf(Applied)
      && (forall n :: n in appliedSeqs ==> n <= maxAppliedSeq)
      && (maxAppliedSeq == 0 || maxAppliedSeq in appliedSeqs)
    }

    ghost function State(d: Doc): Replica
      reads this
    {
      Replica(d, Applied, buffer)
    }

    constructor (maxBufferSize: nat := 100)
      ensures Valid() && this.maxBufferSize == maxBufferSize
      ensures State([]) == Run(maxBufferSize, []) && !reloadRequested
    {
      this.maxBufferSize := maxBufferSize;
      appliedSeqs, appliedClientKeys, buffer, maxAppliedSeq := {}, {}, [], 0;
      reloadRequested, Applied := false, [];
    }

    method HasApplied(e: Envelope) returns (r: bool)
      requires Valid()
      ensures r == CausalDelivery.HasApplied(Applied, e)
    {
      DedupIsExact(Applied, e);
      r := (e.seqNo > 0 && e.seqNo in appliedSeqs) || ClientKey(e) in appliedClientKeys;
    }

    /** The highest applied server sequence number, 0 if none. */
    method GetMaxAppliedSeq() returns (r: nat)
      requires Valid()
      ensures forall i :: 0 <= i < |Applied| ==> Applied[i].seqNo <= r
      ensures r == 0 || exists i :: 0 <= i < |Applied| && Applied[i].seqNo == r
    {
      r := maxAppliedSeq;
      forall i | 0 <= i < |Applied|
        ensures Applied[i].seqNo <= r
      {
        assert Applied[i].seqNo > 0 ==> Applied[i].seqNo in appliedSeqs;
      }
    }

    /** Delivers one envelope: discards a duplicate, applies and flushes, or buffers; false when buffered. */
    method ApplyOrBuffer(e: Envelope, doc: RgaDocument) returns (applied: bool)
      requires Valid() && doc.Valid() && this !in doc.Repr
      modifies this, doc.Repr
      ensures Valid() && doc.Valid()
      ensures fresh(doc.Repr - old(doc.Repr))
      ensures var r := Receive(maxBufferSize, old(State(doc.Contents)), e);
        && State(doc.Contents) == r.replica
        && applied == r.applied
        && reloadRequested == (old(reloadRequested) || r.overflow)
    {
      var duplicate := HasApplied(e);
      if duplicate {
        return true;
      }
      applied := TryApply(e, doc);
      if applied {
        FlushBuffer(doc);
      } else {
        HoldBack(e);
      }
    }

    /** Applies the operation if it can be applied now, and records it if so. */
    method TryApply(e: Envelope, doc: RgaDocument) returns (applied: bool)
      requires Valid() && doc.Valid() && this !in doc.Repr
      modifies `appliedSeqs, `appliedClientKeys, `maxAppliedSeq, `Applied, doc.Repr
      ensures Valid() && doc.Valid()
      ensures fresh(doc.Repr - old(doc.Repr))
      ensures Outcome(doc.Contents, applied) == Apply(old(doc.Contents), e.op)
      ensures Applied == if applied then old(Applied) + [e] else old(Applied)
    {
      applied := doc.ApplyOperation(e.op);
      if applied {
        RecordApplied(e);
      }
    }

    method RecordApplied(e: Envelope)
      requires Valid()
      modifies `appliedSeqs, `appliedClientKeys, `maxAppliedSeq, `Applied
      ensures Valid() && Applied == old(Applied) + [e]
    {
      RecordedSets(Applied, e);
      if e.seqNo > 0 {
        appliedSeqs := appliedSeqs + {e.seqNo};
        if e.seqNo > maxAppliedSeq {
          maxAppliedSeq := e.seqNo;
        }
      }
      appliedClientKeys := appliedClientKeys + {ClientKey(e)};
      Applied := Applied + [e];
    }

    /** Retries the buffer until a whole pass applies nothing. */
    method FlushBuffer(doc: RgaDocument)
      requires Valid() && doc.Valid() && this !in doc.Repr
      modifies this, doc.Repr
      ensures Valid() && doc.Valid()
      ensures fresh(doc.Repr - old(doc.Repr))
      ensures State(doc.Contents) == Flush(old(State(doc.Contents)))
      ensures reloadRequested == old(reloadRequested)
    {
      var progress := true;
      while progress && |buffer| > 0
        invariant Valid() && doc.Valid()
        invariant fresh(doc.Repr - old(doc.Repr)) && this !in doc.Repr
        invariant Flush(old(State(doc.Contents))) ==
          if progress then Flush(State(doc.Contents)) else State(doc.Contents)
        invariant reloadRequested == old(reloadRequested)
        decreases |buffer|, progress
      {
        progress := RetryOnce(doc);
      }
    }

    /** One pass over the buffer. */
    method RetryOnce(doc: RgaDocument) returns (progress: bool)
      requires Valid() && doc.Valid() && this !in doc.Repr
      modifies this, doc.Repr
      ensures Valid() && doc.Valid()
      ensures fresh(doc.Repr - old(doc.Repr))
      ensures PassResult(doc.Contents, Applied, buffer, progress) == old(Pass(doc.Contents, Applied, buffer))
      ensures reloadRequested == old(reloadRequested)
    {
      progress := false;
      var stillPending: seq<PendingOp> := [];
      ghost var goal := Pass(doc.Contents, Applied, buffer);
      PassFromStart(doc.Contents, Applied, buffer);
      for i := 0 to |buffer|
        invariant Valid() && doc.Valid() && buffer == old(buffer) && reloadRequested == old(reloadRequested)
        invariant fresh(doc.Repr - old(doc.Repr)) && this !in doc.Repr
        invariant PassFrom(stillPending, progress, doc.Contents, Applied, buffer, i) == goal
      {
        var pending := buffer[i];
        var applied := TryApply(pending.envelope, doc);
        if applied {
          progress := true;
        } else {
          stillPending := stillPending + [PendingOp(pending.envelope, pending.attempts + 1)];
        }
      }
      buffer := stillPending;
    }

    /** Holds the envelope back, unless that fills the buffer. */
    method HoldBack(e: Envelope)
      modifies `buffer, `reloadRequested
      ensures var pushed := if |old(buffer)| < maxBufferSize then old(buffer) + [PendingOp(e, 1)] else old(buffer);
        && buffer == (if |pushed| >= maxBufferSize then [] else pushed)
        && reloadRequested == (old(reloadRequested) || |pushed| >= maxBufferSize)
    {
      if |buffer| < maxBufferSize {
        buffer := buffer + [PendingOp(e, 1)];
      }
      if |buffer| >= maxBufferSize {
        ForceApplyBuffer();
      }
    }

    /** Overflow: drops the buffer and asks for a full reload. */
    method ForceApplyBuffer()
      modifies `buffer, `reloadRequested
      ensures buffer == [] && reloadRequested
    {
      buffer, reloadRequested := [], true;
    }
  }

  /** A log with the default bound holds back up to 99 envelopes without asking for a reload. */
  method DefaultLog() returns (log: OperationLog)
    ensures fresh(log) && log.Valid() && log.State([]) == Run(100, []) && log.maxBufferSize == 100
    ensures forall s, universe :: Universe(s) <= universe && WellFormedOps(OpsIn(universe)) && |s| <= 99 ==>
      NeverOverflows(log.maxBufferSize, s)
  {
    log := new OperationLog();
    forall s, universe | Universe(s) <= universe && WellFormedOps(OpsIn(universe)) && |s| <= 99
      ensures NeverOverflows(100, s)
    {
      ShortRunsNeverOverflow(100, s, universe);
    }
  }

  ghost function SeqsOf(s: seq<Envelope>): set<nat> {
    set i | 0 <= i < |s| && s[i].seqNo > 0 :: s[i].seqNo
  }

  ghost function KeysOf(s: seq<Envelope>): set<string> {
    set i | 0 <= i < |s| :: ClientKey(s[i])
  }

  lemma DedupIsExact(s: seq<Envelope>, e: Envelope)
    ensures HasApplied(s, e) <==> (e.seqNo > 0 && e.seqNo in SeqsOf(s)) || ClientKey(e) in KeysOf(s)
  {
  }

  lemma RecordedSets(s: seq<Envelope>, e: Envelope)
    ensures SeqsOf(s + [e]) == SeqsOf(s) + if e.seqNo > 0 then {e.seqNo} else {}
    ensures KeysOf(s + [e]) == KeysOf(s) + {ClientKey(e)}
  {
    var t := s + [e];
    assert t[|s|] == e;
    assert forall i :: 0 <= i < |s| ==> t[i] == s[i];
    forall n | n in SeqsOf(s)
      ensures n in SeqsOf(t)
    {
      var i :| 0 <= i < |s| && s[i].seqNo > 0 && s[i].seqNo == n;
      assert t[i].seqNo == n;
    }
    forall key | key in KeysOf(s)
      ensures key in KeysOf(t)
    {
      var i :| 0 <= i < |s| && ClientKey(s[i]) == key;
      assert ClientKey(t[i]) == key;
    }
  }

  /** A pass continued at position `i`, with what it kept and whether it applied anything so far. */
  ghost function PassFrom(kept: seq<PendingOp>, progress: bool, d: Doc, applied: seq<Envelope>,
          items: seq<PendingOp>, i: nat): PassResult
    requires i <= |items|
    decreases |items| - i
  {
    if i == |items| then PassResult(d, applied, kept, progress)
    else
      var e := items[i].envelope;
      var out := Apply(d, e.op);
      if out.applied then PassFrom(kept, true, out.doc, applied + [e], items, i + 1)
      else PassFrom(kept + [PendingOp(e, items[i].attempts + 1)], progress, d, applied, items, i + 1)
  }

  lemma {:induction false} PassFromIs(kept: seq<PendingOp>, progress: bool, d: Doc, applied: seq<Envelope>,
          items: seq<PendingOp>, i: nat)
    requires i <= |items|
    ensures var rest := Pass(d, applied, items[i..]);
      PassFrom(kept, progress, d, applied, items, i) ==
        rest.(still := kept + rest.still, progress := progress || rest.progress)
    decreases |items| - i
  {
    if i < |items| {
      assert items[i..][1..] == items[i + 1..];
      var e := items[i].envelope;
      var out := Apply(d, e.op);
      if out.applied {
        PassFromIs(kept, true, out.doc, applied + [e], items, i + 1);
      } else {
        PassFromIs(kept + [PendingOp(e, items[i].attempts + 1)], progress, d, applied, items, i + 1);
      }
    }
  }

  lemma PassFromStart(d: Doc, applied: seq<Envelope>, items: seq<PendingOp>)
    ensures PassFrom([], false, d, applied, items, 0) == Pass(d, applied, items)
  {
    PassFromIs([], false, d, applied, items, 0);
    assert items[0..] == items;
  }
}
