/** What the operation log promises: deduplication, causal buffering and its bound, over whole runs. */
module CausalDelivery {
  import opened Uids
  import opened Rga
  import opened Convergence

  datatype Envelope = Envelope(op: Op, seqNo: nat, sessionId: string, clientSeq: nat)

  datatype PendingOp = PendingOp(envelope: Envelope, attempts: nat)

  /** A document behind an operation log: the envelopes it applied, in order, and those it holds back. */
  datatype Replica = Replica(doc: Doc, applied: seq<Envelope>, buffer: seq<PendingOp>)

  function ClientKey(e: Envelope): string {
    e.sessionId + ":" + Decimal(e.clientSeq)
  }

  predicate HasApplied(applied: seq<Envelope>, e: Envelope) {
    || (e.seqNo > 0 && exists i :: 0 <= i < |applied| && applied[i].seqNo == e.seqNo)
    || exists i :: 0 <= i < |applied| && ClientKey(applied[i]) == ClientKey(e)
  }

  // ----- one retry pass over the buffer -----

  datatype PassResult = PassResult(doc: Doc, applied: seq<Envelope>, still: seq<PendingOp>, progress: bool)

  function Pass(d: Doc, applied: seq<Envelope>, items: seq<PendingOp>): (r: PassResult)
    ensures |r.still| <= |items| && (r.progress ==> |r.still| < |items|)
    decreases |items|
  {
    if items == [] then PassResult(d, applied, [], false)
    else
      var e := items[0].envelope;
      var out := Apply(d, e.op);
      if out.applied then Pass(out.doc, applied + [e], items[1..]).(progress := true)
      else
        var rest := Pass(d, applied, items[1..]);
        rest.(still := [PendingOp(e, items[0].attempts + 1)] + rest.still)
  }

  /** Retries until a pass makes no progress. */
  function Flush(r: Replica): Replica
    decreases |r.buffer|
  {
    if r.buffer == [] then r
    else
      var p := Pass(r.doc, r.applied, r.buffer);
      var r' := Replica(p.doc, p.applied, p.still);
      if p.progress then Flush(r') else r'
  }

  datatype Received = Received(replica: Replica, applied: bool, overflow: bool)

  function Receive(maxBufferSize: nat, r: Replica, e: Envelope): Received {
    if HasApplied(r.applied, e) then Received(r, true, false)
    else
      var out := Apply(r.doc, e.op);
      if out.applied then Received(Flush(Replica(out.doc, r.applied + [e], r.buffer)), true, false)
      else
        var pushed := if |r.buffer| < maxBufferSize then r.buffer + [PendingOp(e, 1)] else r.buffer;
        var overflow := |pushed| >= maxBufferSize;
        Received(r.(buffer := if overflow then [] else pushed), false, overflow)
  }

  /** The replica after a whole arrival sequence. */
  function Run(maxBufferSize: nat, s: seq<Envelope>): Replica {
    if s == [] then Replica([], [], [])
    else Receive(maxBufferSize, Run(maxBufferSize, s[..|s| - 1]), s[|s| - 1]).replica
  }

  predicate NeverOverflows(maxBufferSize: nat, s: seq<Envelope>) {
    s == [] ||
    (var init := s[..|s| - 1];
     NeverOverflows(maxBufferSize, init) && !Receive(maxBufferSize, Run(maxBufferSize, init), s[|s| - 1]).overflow)
  }

  // ----- safety -----

  function Ops(s: seq<Envelope>): set<Op> {
    set i | 0 <= i < |s| :: s[i].op
  }

  /** The document is the canonical state of what was applied, and nothing held back could be applied. */
  ghost predicate Consistent(r: Replica) {
    && WellFormedOps(Ops(r.applied))
    && Represents(r.doc, Ops(r.applied))
    && forall i :: 0 <= i < |r.buffer| ==> !Apply(r.doc, r.buffer[i].envelope.op).applied
  }

  ghost predicate From(universe: set<Envelope>, s: seq<Envelope>) {
    forall i :: 0 <= i < |s| ==> s[i] in universe
  }

  ghost predicate PendingFrom(universe: set<Envelope>, items: seq<PendingOp>) {
    forall i :: 0 <= i < |items| ==> items[i].envelope in universe
  }

  ghost function OpsIn(universe: set<Envelope>): set<Op> {
    set e | e in universe :: e.op
  }

  lemma OpsGrow(s: seq<Envelope>, e: Envelope)
    ensures Ops(s + [e]) == Ops(s) + {e.op}
  {
    var t := s + [e];
    assert t[|s|] == e;
    forall o | o in Ops(s) + {e.op}
      ensures o in Ops(t)
    {
      if o in Ops(s) {
        var i :| 0 <= i < |s| && s[i].op == o;
        assert t[i].op == o;
      }
    }
  }

  lemma OpsFrom(universe: set<Envelope>, s: seq<Envelope>)
    requires From(universe, s) && WellFormedOps(OpsIn(universe))
    ensures WellFormedOps(Ops(s))
  {
    SubsetWellFormed(Ops(s), OpsIn(universe));
  }

  /** Applying one more envelope of the universe keeps the document canonical. */
  lemma ApplyOneMore(universe: set<Envelope>, d: Doc, applied: seq<Envelope>, e: Envelope)
    requires WellFormedOps(OpsIn(universe)) && From(universe, applied) && e in universe
    requires Represents(d, Ops(applied))
    requires Apply(d, e.op).applied
    ensures From(universe, applied + [e]) && Represents(Apply(d, e.op).doc, Ops(applied + [e]))
  {
    OpsFrom(universe, applied + [e]);
    OpsGrow(applied, e);
    StepRepresents(d, Ops(applied), e.op);
  }

  ghost predicate AppliedOrPending(e: Envelope, applied: seq<Envelope>, items: seq<PendingOp>) {
    e in applied || exists i :: 0 <= i < |items| && items[i].envelope == e
  }

  lemma {:induction false} PassIsSafe(universe: set<Envelope>, d: Doc, applied: seq<Envelope>, items: seq<PendingOp>)
    requires WellFormedOps(OpsIn(universe)) && From(universe, applied) && PendingFrom(universe, items)
    requires Represents(d, Ops(applied))
    ensures var p := Pass(d, applied, items);
      && From(universe, p.applied) && PendingFrom(universe, p.still)
      && Represents(p.doc, Ops(p.applied))
      && applied <= p.applied
      && (!p.progress ==> p.doc == d && forall i :: 0 <= i < |p.still| ==> !Apply(d, p.still[i].envelope.op).applied)
    decreases |items|
  {
    if items != [] {
      var e, rest := items[0].envelope, items[1..];
      assert e in universe;
      assert PendingFrom(universe, rest);
      if Apply(d, e.op).applied {
        ApplyOneMore(universe, d, applied, e);
        PassIsSafe(universe, Apply(d, e.op).doc, applied + [e], rest);
      } else {
        PassIsSafe(universe, d, applied, rest);
      }
    }
  }

  lemma {:induction false} PassLosesNothing(d: Doc, applied: seq<Envelope>, items: seq<PendingOp>, e: Envelope)
    requires AppliedOrPending(e, applied, items)
    ensures var p := Pass(d, applied, items); AppliedOrPending(e, p.applied, p.still)
    decreases |items|
  {
    if items != [] {
      var first, rest := items[0].envelope, items[1..];
      if e !in applied {
        var i :| 0 <= i < |items| && items[i].envelope == e;
        assert i > 0 ==> rest[i - 1].envelope == e;
      }
      if Apply(d, first.op).applied {
        assert e == first ==> (applied + [first])[|applied|] == e;
        PassLosesNothing(Apply(d, first.op).doc, applied + [first], rest, e);
      } else if AppliedOrPending(e, applied, rest) {
        PassLosesNothing(d, applied, rest, e);
        var q, p := Pass(d, applied, rest), Pass(d, applied, items);
        if e !in q.applied {
          var i :| 0 <= i < |q.still| && q.still[i].envelope == e;
          assert p.still[i + 1].envelope == e;
        }
      } else {
        assert Pass(d, applied, items).still[0].envelope == e;
      }
    }
  }

  /** Flushing ends with every envelope still held back being inapplicable, and keeps what was applied. */
  lemma {:induction false} FlushIsSafe(universe: set<Envelope>, r: Replica)
    requires WellFormedOps(OpsIn(universe)) && From(universe, r.applied) && PendingFrom(universe, r.buffer)
    requires Represents(r.doc, Ops(r.applied))
    ensures var r' := Flush(r);
      && From(universe, r'.applied) && PendingFrom(universe, r'.buffer)
      && Consistent(r')
      && r.applied <= r'.applied && |r'.buffer| <= |r.buffer|
    decreases |r.buffer|
  {
    OpsFrom(universe, r.applied);
    if r.buffer != [] {
      PassIsSafe(universe, r.doc, r.applied, r.buffer);
      var p := Pass(r.doc, r.applied, r.buffer);
      OpsFrom(universe, p.applied);
      if p.progress {
        FlushIsSafe(universe, Replica(p.doc, p.applied, p.still));
      }
    }
  }

  lemma {:induction false} FlushLosesNothing(r: Replica, e: Envelope)
    requires AppliedOrPending(e, r.applied, r.buffer)
    ensures AppliedOrPending(e, Flush(r).applied, Flush(r).buffer)
    decreases |r.buffer|
  {
    if r.buffer != [] {
      PassLosesNothing(r.doc, r.applied, r.buffer, e);
      var p := Pass(r.doc, r.applied, r.buffer);
      if p.progress {
        FlushLosesNothing(Replica(p.doc, p.applied, p.still), e);
      }
    }
  }

  ghost predicate Safe(maxBufferSize: nat, universe: set<Envelope>, r: Replica) {
    && From(universe, r.applied) && PendingFrom(universe, r.buffer)
    && Consistent(r)
    && (maxBufferSize > 0 ==> |r.buffer| < maxBufferSize)
  }

  lemma ReceiveIsSafe(maxBufferSize: nat, universe: set<Envelope>, r: Replica, e: Envelope)
    requires WellFormedOps(OpsIn(universe)) && e in universe
    requires Safe(maxBufferSize, universe, r)
    ensures Safe(maxBufferSize, universe, Receive(maxBufferSize, r, e).replica)
  {
    if !HasApplied(r.applied, e) && Apply(r.doc, e.op).applied {
      ApplyOneMore(universe, r.doc, r.applied, e);
      FlushIsSafe(universe, Replica(Apply(r.doc, e.op).doc, r.applied + [e], r.buffer));
    }
  }

  function Universe(s: seq<Envelope>): set<Envelope> {
    set e | e in s
  }

  /**
   * Safety over every run, overflows included: at each moment the document is the canonical state of
   * the operations applied so far, everything buffered is still inapplicable, and the buffer is below its bound.
   */
  lemma {:induction false} EveryRunIsSafe(maxBufferSize: nat, s: seq<Envelope>, universe: set<Envelope>)
    requires Universe(s) <= universe && WellFormedOps(OpsIn(universe))
    ensures Safe(maxBufferSize, universe, Run(maxBufferSize, s))
  {
    if s == [] {
      EmptyRepresents();
      assert Ops([]) == {};
    } else {
      var init, last := s[..|s| - 1], s[|s| - 1];
      assert last in Universe(s);
      EveryRunIsSafe(maxBufferSize, init, universe);
      ReceiveIsSafe(maxBufferSize, universe, Run(maxBufferSize, init), last);
    }
  }

  // ----- identity of envelopes -----

  lemma {:induction false} LastColon(a: string, x: string, b: string, y: string)
    requires a + ":" + x == b + ":" + y
    requires ':' !in x && ':' !in y
    ensures a == b && x == y
  {
    var s := a + ":" + x;
    assert s[|a|] == ':' && s[|b|] == ':';
    assert forall i :: |a| < i < |s| ==> s[i] == x[i - |a| - 1];
    assert forall i :: |b| < i < |s| ==> s[i] == y[i - |b| - 1];
    assert |a| == |b|;
    assert a == s[..|a|] == b;
    assert x == s[|a| + 1..] == y;
  }

  /** Two envelopes share a client key only when session and client sequence number agree. */
  lemma ClientKeyInjective(e: Envelope, f: Envelope)
    requires ClientKey(e) == ClientKey(f)
    ensures e.sessionId == f.sessionId && e.clientSeq == f.clientSeq
  {
    LastColon(e.sessionId, Decimal(e.clientSeq), f.sessionId, Decimal(f.clientSeq));
    DecimalInjective(e.clientSeq, f.clientSeq);
  }

  /** An envelope counts as delivered when an applied one shares its server number or its session and client number. */
  lemma DuplicateIff(applied: seq<Envelope>, e: Envelope)
    ensures HasApplied(applied, e) <==> exists i :: 0 <= i < |applied| && SameEnvelope(applied[i], e)
  {
    forall i | 0 <= i < |applied|
      ensures ClientKey(applied[i]) == ClientKey(e) <==>
        applied[i].sessionId == e.sessionId && applied[i].clientSeq == e.clientSeq
    {
      if ClientKey(applied[i]) == ClientKey(e) {
        ClientKeyInjective(applied[i], e);
      }
    }
    if exists i :: 0 <= i < |applied| && SameEnvelope(applied[i], e) {
      var i :| 0 <= i < |applied| && SameEnvelope(applied[i], e);
      assert applied[i].seqNo == e.seqNo || ClientKey(applied[i]) == ClientKey(e);
    }
  }

  /** Whatever was applied counts as delivered when it comes again, and changes nothing. */
  lemma RedeliveryIsDiscarded(maxBufferSize: nat, r: Replica, e: Envelope)
    requires e in r.applied
    ensures Receive(maxBufferSize, r, e) == Received(r, true, false)
  {
    var i :| 0 <= i < |r.applied| && r.applied[i] == e;
    assert ClientKey(r.applied[i]) == ClientKey(e);
  }

  predicate SameEnvelope(f: Envelope, e: Envelope) {
    (e.seqNo > 0 && f.seqNo == e.seqNo) || (f.sessionId == e.sessionId && f.clientSeq == e.clientSeq)
  }

  /** Server sequence numbers and (session, client sequence) pairs each identify an envelope. */
  ghost predicate DistinctEnvelopes(universe: set<Envelope>) {
    forall e, f :: e in universe && f in universe && e != f ==>
      && (e.seqNo > 0 ==> e.seqNo != f.seqNo)
      && (e.sessionId != f.sessionId || e.clientSeq != f.clientSeq)
  }

  lemma HasAppliedIsMembership(universe: set<Envelope>, applied: seq<Envelope>, e: Envelope)
    requires DistinctEnvelopes(universe) && From(universe, applied) && e in universe
    ensures HasApplied(applied, e) <==> e in applied
  {
    if e.seqNo > 0 && exists i :: 0 <= i < |applied| && applied[i].seqNo == e.seqNo {
      var i :| 0 <= i < |applied| && applied[i].seqNo == e.seqNo;
      assert applied[i] in universe;
    } else if exists i :: 0 <= i < |applied| && ClientKey(applied[i]) == ClientKey(e) {
      var i :| 0 <= i < |applied| && ClientKey(applied[i]) == ClientKey(e);
      ClientKeyInjective(applied[i], e);
      assert applied[i] in universe;
    }
  }

  /** What an overflow discards was never marked as applied, so a redelivery is tried afresh. */
  lemma DroppedCanBeRedelivered(maxBufferSize: nat, universe: set<Envelope>, r: Replica, e: Envelope, f: Envelope)
    requires WellFormedOps(OpsIn(universe)) && DistinctEnvelopes(universe) && e in universe
    requires Safe(maxBufferSize, universe, r)
    requires Receive(maxBufferSize, r, e).overflow
    requires f == e || exists i :: 0 <= i < |r.buffer| && r.buffer[i].envelope == f
    ensures var r' := Receive(maxBufferSize, r, e).replica;
      && r'.buffer == [] && r'.doc == r.doc && r'.applied == r.applied
      && !HasApplied(r'.applied, f)
  {
    assert f in universe;
    if f in r.applied {
      AppliedStaysApplicable(r, f);
    }
    HasAppliedIsMembership(universe, r.applied, f);
  }

  lemma AppliedStaysApplicable(r: Replica, f: Envelope)
    requires Consistent(r) && f in r.applied
    ensures Apply(r.doc, f.op).applied
  {
    var i :| 0 <= i < |r.applied| && r.applied[i] == f;
    assert f.op in Ops(r.applied);
    assert Ops(r.applied) + {f.op} == Ops(r.applied);
    AppliedIffDepsMet(r.doc, Ops(r.applied), f.op);
  }

  // ----- the buffer -----

  /** An overflow happens exactly when a new envelope that cannot be applied leaves no room below the bound. */
  lemma OverflowIff(maxBufferSize: nat, r: Replica, e: Envelope)
    ensures var out := Receive(maxBufferSize, r, e);
      && (out.overflow <==> !HasApplied(r.applied, e) && !Apply(r.doc, e.op).applied && |r.buffer| + 1 >= maxBufferSize)
      && (!out.overflow && !out.applied ==> out.replica == r.(buffer := r.buffer + [PendingOp(e, 1)]))
  {
  }

  /** `still` is what is left of `items`, in order and with one more attempt; `from` says where each entry stood. */
  ghost predicate LeftOver(items: seq<PendingOp>, still: seq<PendingOp>, from: seq<nat>) {
    && |from| == |still|
    && (forall i, j :: 0 <= i < j < |from| ==> from[i] < from[j])
    && (forall i :: 0 <= i < |from| ==> LeftAt(items, still, from, i))
  }

  ghost predicate LeftAt(items: seq<PendingOp>, still: seq<PendingOp>, from: seq<nat>, i: nat)
    requires i < |from| == |still|
  {
    from[i] < |items| && still[i] == PendingOp(items[from[i]].envelope, items[from[i]].attempts + 1)
  }

  /** A pass keeps the order of what it leaves. */
  lemma {:induction false} PassKeepsOrder(d: Doc, applied: seq<Envelope>, items: seq<PendingOp>)
      returns (from: seq<nat>)
    ensures LeftOver(items, Pass(d, applied, items).still, from)
    decreases |items|
  {
    if items == [] {
      from := [];
    } else {
      var e, rest := items[0].envelope, items[1..];
      var out := Apply(d, e.op);
      var tail;
      if out.applied {
        tail := PassKeepsOrder(out.doc, applied + [e], rest);
        from := Shifted(tail);
      } else {
        tail := PassKeepsOrder(d, applied, rest);
        from := [0] + Shifted(tail);
      }
      ShiftedLeftOver(items, tail, Pass(d, applied, items).still, from);
    }
  }

  function Shifted(from: seq<nat>): seq<nat> {
    seq(|from|, i requires 0 <= i < |from| => from[i] + 1)
  }

  lemma ShiftedLeftOver(items: seq<PendingOp>, tail: seq<nat>, still: seq<PendingOp>, from: seq<nat>)
    requires items != [] && |from| == |still|
    requires from == Shifted(tail) || from == [0] + Shifted(tail)
    requires from != Shifted(tail) ==> LeftAt(items, still, from, 0)
    requires LeftOver(items[1..], if from == Shifted(tail) then still else still[1..], tail)
    ensures LeftOver(items, still, from)
  {
    var n := if from == Shifted(tail) then 0 else 1;
    forall i | 0 <= i < |from|
      ensures LeftAt(items, still, from, i)
    {
      if i >= n {
        assert LeftAt(items[1..], if n == 0 then still else still[1..], tail, i - n);
      }
    }
  }

  ghost predicate NoRollback(applied: seq<Envelope>) {
    forall i :: 0 <= i < |applied| ==> !applied[i].op.Rollback?
  }

  lemma {:induction false} PassSkipsRollbacks(d: Doc, applied: seq<Envelope>, items: seq<PendingOp>)
    requires NoRollback(applied)
    ensures NoRollback(Pass(d, applied, items).applied)
    decreases |items|
  {
    if items != [] {
      var out := Apply(d, items[0].envelope.op);
      if out.applied {
        PassSkipsRollbacks(out.doc, applied + [items[0].envelope], items[1..]);
      } else {
        PassSkipsRollbacks(d, applied, items[1..]);
      }
    }
  }

  lemma {:induction false} FlushSkipsRollbacks(r: Replica)
    requires NoRollback(r.applied)
    ensures NoRollback(Flush(r).applied)
    decreases |r.buffer|
  {
    if r.buffer != [] {
      var p := Pass(r.doc, r.applied, r.buffer);
      PassSkipsRollbacks(r.doc, r.applied, r.buffer);
      if p.progress {
        FlushSkipsRollbacks(Replica(p.doc, p.applied, p.still));
      }
    }
  }

  /** Over every run a ROLLBACK is held back, never recorded as applied. */
  lemma {:induction false} RollbacksAreNeverApplied(maxBufferSize: nat, s: seq<Envelope>)
    ensures NoRollback(Run(maxBufferSize, s).applied)
  {
    if s != [] {
      var r, e := Run(maxBufferSize, s[..|s| - 1]), s[|s| - 1];
      RollbacksAreNeverApplied(maxBufferSize, s[..|s| - 1]);
      var out := Apply(r.doc, e.op);
      if out.applied {
        FlushSkipsRollbacks(Replica(out.doc, r.applied + [e], r.buffer));
      }
    }
  }

  // ----- arbitrary delivery -----

  lemma ReceiveLosesNothing(maxBufferSize: nat, universe: set<Envelope>, r: Replica, e: Envelope, f: Envelope)
    requires DistinctEnvelopes(universe) && From(universe, r.applied) && e in universe
    requires !Receive(maxBufferSize, r, e).overflow
    requires f == e || AppliedOrPending(f, r.applied, r.buffer)
    ensures var r' := Receive(maxBufferSize, r, e).replica; AppliedOrPending(f, r'.applied, r'.buffer)
  {
    HasAppliedIsMembership(universe, r.applied, e);
    if !HasApplied(r.applied, e) {
      if Apply(r.doc, e.op).applied {
        assert (r.applied + [e])[|r.applied|] == e;
        FlushLosesNothing(Replica(Apply(r.doc, e.op).doc, r.applied + [e], r.buffer), f);
      } else {
        var pushed := r.buffer + [PendingOp(e, 1)];
        assert pushed[|r.buffer|].envelope == e;
        assert forall i :: 0 <= i < |r.buffer| ==> pushed[i] == r.buffer[i];
      }
    }
  }

  lemma {:induction false} NothingIsLost(maxBufferSize: nat, s: seq<Envelope>, universe: set<Envelope>, f: Envelope)
    requires Universe(s) <= universe && WellFormedOps(OpsIn(universe)) && DistinctEnvelopes(universe)
    requires NeverOverflows(maxBufferSize, s) && f in s
    ensures AppliedOrPending(f, Run(maxBufferSize, s).applied, Run(maxBufferSize, s).buffer)
  {
    var init, last := s[..|s| - 1], s[|s| - 1];
    assert last in Universe(s) && s == init + [last];
    EveryRunIsSafe(maxBufferSize, init, universe);
    if f in init {
      NothingIsLost(maxBufferSize, init, universe, f);
    }
    ReceiveLosesNothing(maxBufferSize, universe, Run(maxBufferSize, init), last, f);
  }

  /** Every operation's dependencies are inserted by operations of the same set. */
  ghost predicate CausallyClosed(ops: set<Op>) {
    forall o :: o in ops ==> DepsMet(ops, o)
  }

  /** In a causally closed set, the smallest INSERT not applied yet can be applied now. */
  lemma SmallestCanBeApplied(all: set<Op>, applied: set<Op>, d: Doc) returns (o: Op)
    requires WellFormedOps(all) && CausallyClosed(all) && applied <= all && Represents(d, applied)
    requires Inserted(all) - Inserted(applied) != {}
    ensures o in all && o !in applied && Apply(d, o).applied
  {
    var waiting := Inserted(all) - Inserted(applied);
    ExtremesExist(waiting);
    var u :| u in waiting && forall x :: x in waiting && x != u ==> Less(u, x);
    o := InsertOf(all, u);
    WellFormedOne(all, o);
    CompareIsTotal(Anchor(o), u);
    CompareIsTotal(u, Anchor(o));
    assert DepsMet(all, o);
    assert DepsMet(applied, o);
    SubsetWellFormed(applied + {o}, all);
    AppliedIffDepsMet(d, applied, o);
  }

  lemma NothingIsStuck(all: set<Op>, applied: set<Op>, d: Doc)
    requires WellFormedOps(all) && CausallyClosed(all) && applied <= all && Represents(d, applied)
    requires forall o :: o in all && o !in applied ==> !Apply(d, o).applied
    ensures applied == all
  {
    if Inserted(all) - Inserted(applied) != {} {
      var o := SmallestCanBeApplied(all, applied, d);
    }
    assert forall u :: u in Inserted(all) ==> u !in Inserted(all) - Inserted(applied);
    forall o | o in all
      ensures o in applied
    {
      assert DepsMet(all, o);
      assert DepsMet(applied, o);
      SubsetWellFormed(applied + {o}, all);
      AppliedIffDepsMet(d, applied, o);
    }
  }

  lemma BufferedNotApplied(r: Replica, f: Envelope)
    requires Consistent(r) && AppliedOrPending(f, r.applied, r.buffer)
    ensures f in r.applied || !Apply(r.doc, f.op).applied
  {
  }

  /**
   * Arbitrary delivery: any arrival order of a causally closed set of envelopes, with any duplicates,
   * that never fills the buffer ends with an empty buffer, every operation applied, and the same
   * document as a causally ordered replay.
   */
  lemma ArbitraryDelivery(maxBufferSize: nat, s: seq<Envelope>, causal: seq<Op>)
    requires WellFormedOps(Ops(s)) && CausallyClosed(Ops(s)) && DistinctEnvelopes(Universe(s))
    requires NeverOverflows(maxBufferSize, s)
    requires OpsOf(causal) == Ops(s) && CausallyOrdered(causal)
    ensures var r := Run(maxBufferSize, s);
      && r.buffer == []
      && (forall e :: e in s ==> e in r.applied)
      && r.doc == Replay([], causal)
  {
    var r, universe := Run(maxBufferSize, s), Universe(s);
    assert OpsIn(universe) == Ops(s) by {
      forall i | 0 <= i < |s|
        ensures s[i].op in OpsIn(universe)
      {
        assert s[i] in universe;
      }
    }
    EveryRunIsSafe(maxBufferSize, s, universe);
    AllApplied(maxBufferSize, s, universe, r);
    CausalReplayRepresents(causal);
    RepresentsIsUnique(r.doc, Replay([], causal), Ops(s));
  }

  lemma AppliedOpsAreOps(s: seq<Envelope>, universe: set<Envelope>, r: Replica)
    requires From(universe, r.applied) && universe == Universe(s)
    ensures Ops(r.applied) <= Ops(s)
  {
  }

  lemma AllOpsApplied(maxBufferSize: nat, s: seq<Envelope>, universe: set<Envelope>, r: Replica)
    requires WellFormedOps(Ops(s)) && CausallyClosed(Ops(s)) && DistinctEnvelopes(universe)
    requires NeverOverflows(maxBufferSize, s) && universe == Universe(s) && OpsIn(universe) == Ops(s)
    requires r == Run(maxBufferSize, s) && Safe(maxBufferSize, universe, r)
    ensures Ops(r.applied) == Ops(s)
  {
    AppliedOpsAreOps(s, universe, r);
    forall o | o in Ops(s) && o !in Ops(r.applied)
      ensures !Apply(r.doc, o).applied
    {
      var i :| 0 <= i < |s| && s[i].op == o;
      NothingIsLost(maxBufferSize, s, universe, s[i]);
      BufferedNotApplied(r, s[i]);
    }
    NothingIsStuck(Ops(s), Ops(r.applied), r.doc);
  }

  lemma NothingPending(maxBufferSize: nat, universe: set<Envelope>, r: Replica)
    requires WellFormedOps(OpsIn(universe)) && Safe(maxBufferSize, universe, r) && Ops(r.applied) == OpsIn(universe)
    ensures r.buffer == []
    ensures forall e :: e in universe ==> Apply(r.doc, e.op).applied
  {
    forall e | e in universe
      ensures Apply(r.doc, e.op).applied
    {
      assert e.op in OpsIn(universe);
      assert Ops(r.applied) + {e.op} == Ops(r.applied);
      AppliedIffDepsMet(r.doc, Ops(r.applied), e.op);
    }
    HeadIsBlocked(r);
  }

  lemma HeadIsBlocked(r: Replica)
    requires Consistent(r)
    ensures r.buffer == [] || !Apply(r.doc, r.buffer[0].envelope.op).applied
  {
  }

  lemma AllApplied(maxBufferSize: nat, s: seq<Envelope>, universe: set<Envelope>, r: Replica)
    requires WellFormedOps(Ops(s)) && CausallyClosed(Ops(s)) && DistinctEnvelopes(universe)
    requires NeverOverflows(maxBufferSize, s) && universe == Universe(s) && OpsIn(universe) == Ops(s)
    requires r == Run(maxBufferSize, s) && Safe(maxBufferSize, universe, r)
    ensures Ops(r.applied) == Ops(s) && r.buffer == []
    ensures forall e :: e in s ==> e in r.applied
  {
    AllOpsApplied(maxBufferSize, s, universe, r);
    NothingPending(maxBufferSize, universe, r);
    forall e | e in s
      ensures e in r.applied
    {
      NothingIsLost(maxBufferSize, s, universe, e);
      BufferedNotApplied(r, e);
    }
  }

  /** A run shorter than the buffer can never fill it. */
  lemma {:induction false} ShortRunsNeverOverflow(maxBufferSize: nat, s: seq<Envelope>, universe: set<Envelope>)
    requires Universe(s) <= universe && WellFormedOps(OpsIn(universe))
    requires |s| < maxBufferSize
    ensures NeverOverflows(maxBufferSize, s) && |Run(maxBufferSize, s).buffer| <= |s|
  {
    if s != [] {
      var init, last := s[..|s| - 1], s[|s| - 1];
      assert last in Universe(s);
      ShortRunsNeverOverflow(maxBufferSize, init, universe);
      EveryRunIsSafe(maxBufferSize, init, universe);
      var r := Run(maxBufferSize, init);
      if !HasApplied(r.applied, last) && Apply(r.doc, last.op).applied {
        ApplyOneMore(universe, r.doc, r.applied, last);
        FlushIsSafe(universe, Replica(Apply(r.doc, last.op).doc, r.applied + [last], r.buffer));
      }
    }
  }
}
