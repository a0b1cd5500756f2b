/** The worker's side of one document: apply to the cached replica, append to the log, note the new sequence number. */
module OperationHandlers {
  import opened Uids
  import opened Rga
  import opened Convergence
  import opened RgaDocuments
  import opened EventStores
  import opened History

  /**
   * The cache entry of a resident document with its event store. Handlers of different sessions
   * interleave between the steps below; `InFlight` is what has been applied but not yet appended.
   */
  class Worker {
    const store: EventStore
    const doc: RgaDocument
    var lastSeq: nat
    var opsSinceSnapshot: nat
    ghost var InFlight: multiset<Op>

    ghost predicate Valid()
      reads this, store, doc, doc.Repr
    {
      store.Valid() && doc.Valid() && this !in doc.Repr && store !in doc.Repr
    }

    /** The operations the current document is made of, rollbacks taken into account. */
    ghost function Current(): seq<Op>
      requires Valid()
      reads this, store, doc, doc.Repr
    {
      Line(store.log, store.targets, |store.log|)
    }

    /** The cached replica is the canonical state of what is logged and what is in flight. */
    ghost predicate Agreement()
      requires Valid()
      reads this, store, doc, doc.Repr
    {
      Agrees(doc.Contents, Current(), InFlight)
    }

    /** Takes over a loaded entry. One that holds the meaning of a causally ordered log agrees with it. */
    constructor (store: EventStore, entry: CachedDocument)
      requires store.Valid() && entry.doc.Valid() && store !in entry.doc.Repr
      ensures Valid() && this.store == store && this.doc == entry.doc && InFlight == multiset{}
      ensures lastSeq == entry.lastSeq && opsSinceSnapshot == entry.opsSinceSnapshot
      ensures doc.Contents == store.At(|store.log|) && WellFormedOps(OpsOf(Current())) && CausallyOrdered(Current()) ==>
        Agreement()
    {
      this.store, doc, lastSeq, opsSinceSnapshot := store, entry.doc, entry.lastSeq, entry.opsSinceSnapshot;
      InFlight := multiset{};
      new;
      LoadedAgrees(doc.Contents, store.log, store.targets);
    }

    /**
     * Step 5: applies to the in-memory replica; an operation that meets a causal gap goes on to be stored
     * all the same. When its dependencies are logged it is applied, and the replica stays in agreement.
     */
    method ApplyInMemory(op: Op) returns (applied: bool)
      requires Valid()
      modifies this`InFlight, doc.Repr
      ensures Valid() && fresh(doc.Repr - old(doc.Repr)) && store.log == old(store.log)
      ensures Outcome(doc.Contents, applied) == Apply(old(doc.Contents), op)
      ensures InFlight == old(InFlight) + multiset{op}
      ensures old(Agreement()) && Admissible(op, old(Current()), old(InFlight)) ==> applied && Agreement()
    {
      if Agreement() && Admissible(op, Current(), InFlight) {
        AppliedAgrees(doc.Contents, Current(), InFlight, op);
      }
      applied := doc.ApplyOperation(op);
      InFlight := InFlight + multiset{op};
    }

    /** Step 6: the append, which another session's append may have overtaken. */
    method Persist(op: Op) returns (seqNo: nat)
      requires Valid() && op in InFlight && !op.Rollback?
      modifies this`InFlight, store
      ensures Valid() && store.log == old(store.log) + [op] && seqNo == |store.log|
      ensures InFlight == old(InFlight) - multiset{op} && doc.Contents == old(doc.Contents)
      ensures old(Agreement()) ==> Agreement()
    {
      if Agreement() {
        AppendedAgrees(doc.Contents, Current(), InFlight, op);
      }
      seqNo := store.AppendOperation(op);
      InFlight := InFlight - multiset{op};
    }

    /** Step 7: the sequence number is assigned, not maximised. */
    method UpdateCached(seqNo: nat)
      requires Valid()
      modifies `lastSeq, `opsSinceSnapshot
      ensures Valid() && lastSeq == seqNo && opsSinceSnapshot == old(opsSinceSnapshot) + 1
      ensures old(Agreement()) ==> Agreement()
    {
      lastSeq, opsSinceSnapshot := seqNo, opsSinceSnapshot + 1;
    }

    /** With nothing in flight the cached replica is what the log means, in whatever order operations were applied. */
    lemma QuiescentCacheIsMeaning()
      requires Valid() && Agreement() && InFlight == multiset{}
      ensures doc.Contents == store.At(|store.log|)
    {
      AgreementIsReplay(doc.Contents, Current());
      MeaningIsLine(store.log, store.targets, |store.log|);
    }
  }

  ghost function Outstanding(inFlight: multiset<Op>): set<Op> {
    set op | op in inFlight
  }

  /** `d` is the canonical state of the operations of `line` and those in flight, and `line` is causally ordered. */
  ghost predicate Agrees(d: Doc, line: seq<Op>, inFlight: multiset<Op>) {
    && WellFormedOps(OpsOf(line) + Outstanding(inFlight))
    && CausallyOrdered(line)
    && (forall op :: op in inFlight ==> DepsMet(OpsOf(line), op))
    && Represents(d, OpsOf(line) + Outstanding(inFlight))
  }

  /** An operation that fits the others and builds on logged nodes only. */
  ghost predicate Admissible(op: Op, line: seq<Op>, inFlight: multiset<Op>) {
    WellFormedOps(OpsOf(line) + Outstanding(inFlight) + {op}) && DepsMet(OpsOf(line), op)
  }

  lemma LoadedAgrees(d: Doc, log: seq<Op>, targets: map<nat, nat>)
    requires TargetsOk(log, targets)
    ensures var line := Line(log, targets, |log|);
      d == Meaning(log, targets, |log|) && WellFormedOps(OpsOf(line)) && CausallyOrdered(line) ==>
      Agrees(d, line, multiset{})
  {
    var line := Line(log, targets, |log|);
    if d == Meaning(log, targets, |log|) && WellFormedOps(OpsOf(line)) && CausallyOrdered(line) {
      MeaningIsLine(log, targets, |log|);
      CausalReplayRepresents(line);
      assert OpsOf(line) + Outstanding(multiset{}) == OpsOf(line);
    }
  }

  /** Applying keeps cache and log in agreement exactly when the operation builds on logged nodes. */
  lemma AppliedAgrees(d: Doc, line: seq<Op>, inFlight: multiset<Op>, op: Op)
    requires Agrees(d, line, inFlight) && WellFormedOps(OpsOf(line) + Outstanding(inFlight) + {op})
    ensures Agrees(Step(d, op), line, inFlight + multiset{op}) <==> DepsMet(OpsOf(line), op)
    ensures Apply(d, op).applied <==> DepsMet(OpsOf(line) + Outstanding(inFlight), op)
  {
    var ops := OpsOf(line) + Outstanding(inFlight);
    assert OpsOf(line) + Outstanding(inFlight + multiset{op}) == ops + {op};
    EffectOf(d, ops, op);
    if DepsMet(OpsOf(line), op) {
      DepsMetGrows(OpsOf(line), ops, op);
    } else {
      assert op in inFlight + multiset{op};
    }
  }

  lemma AppendedAgrees(d: Doc, line: seq<Op>, inFlight: multiset<Op>, op: Op)
    requires Agrees(d, line, inFlight) && op in inFlight
    ensures Agrees(d, line + [op], inFlight - multiset{op})
  {
    OpsOfAppend(line, op);
    assert OpsOf(line + [op]) + Outstanding(inFlight - multiset{op}) == OpsOf(line) + Outstanding(inFlight);
    CausalAppend(line, op);
    forall o | o in inFlight - multiset{op}
      ensures DepsMet(OpsOf(line + [op]), o)
    {
      assert o in inFlight;
      DepsMetGrows(OpsOf(line), OpsOf(line + [op]), o);
    }
  }

  lemma AgreementIsReplay(d: Doc, line: seq<Op>)
    requires Agrees(d, line, multiset{})
    ensures d == Replay([], line)
  {
    assert OpsOf(line) + Outstanding(multiset{}) == OpsOf(line);
    CausalReplayRepresents(line);
    RepresentsIsUnique(d, Replay([], line), OpsOf(line));
  }

  // ----- operations stored before what they name -----

  /**
   * `early` is applied, `more` goes through completely, and only then `early` is appended. Cache and log
   * replay agree exactly when `early` does not build on anything in `more` that was not logged before.
   */
  lemma OvertakenAgreesIff(d: Doc, line: seq<Op>, early: Op, more: seq<Op>)
    requires Agrees(d, line, multiset{}) && CausallyOrdered(line + more)
    requires WellFormedOps(OpsOf(line) + OpsOf(more) + {early})
    ensures Replay(Step(d, early), more) == Replay([], line + more + [early]) <==>
      (DepsMet(OpsOf(line) + OpsOf(more), early) ==> DepsMet(OpsOf(line), early) || early in more)
  {
    var ops, all := OpsOf(line), OpsOf(line) + OpsOf(more);
    assert ops + Outstanding(multiset{}) == ops && OpsOf(line + more) == all;
    var had := ops + if DepsMet(ops, early) then {early} else {};
    var has := all + if DepsMet(all, early) then {early} else {};
    SubsetWellFormed(ops + {early}, all + {early});
    SubsetWellFormed(had + OpsOf(more), all + {early});
    SubsetWellFormed(all, all + {early});
    EffectOf(d, ops, early);
    ContinuationRepresents(Step(d, early), had, line, more);
    CausalReplayRepresents(line + more);
    EffectOf(Replay([], line + more), all, early);
    ReplayOne([], line + more, early);
    ReplicasAgreeIff(
      Replay(Step(d, early), more), Replay([], line + more + [early]), had + OpsOf(more), has, all + {early});
    SameEffectsIff(d, line, early, more);
  }

  /** The two sets of effects behind it are the same under the same condition. */
  lemma SameEffectsIff(d: Doc, line: seq<Op>, early: Op, more: seq<Op>)
    requires Represents(d, OpsOf(line)) && CausallyOrdered(line + more)
    requires WellFormedOps(OpsOf(line) + OpsOf(more) + {early})
    ensures var ops, all := OpsOf(line), OpsOf(line) + OpsOf(more);
      ops + (if DepsMet(ops, early) then {early} else {}) + OpsOf(more) ==
      all + (if DepsMet(all, early) then {early} else {}) <==>
      (DepsMet(all, early) ==> DepsMet(ops, early) || early in more)
  {
    var ops, all := OpsOf(line), OpsOf(line) + OpsOf(more);
    SubsetWellFormed(all, all + {early});
    SubsetWellFormed(ops, all);
    if DepsMet(ops, early) {
      DepsMetGrows(ops, all, early);
    }
    if early in ops {
      RepresentedDeps(d, ops, early);
    }
    assert early in all <==> early in ops || early in more;
  }

  /** What an operation builds on: the node an INSERT goes behind, or the one a DELETE hides. */
  function Named(op: Op): UID {
    if op.Insert? then Anchor(op) else op.uid
  }

  /** Operations that can go through while the append of `early` is outstanding. */
  ghost predicate GoThrough(line: seq<Op>, early: Op, more: seq<Op>) {
    WellFormedOps(OpsOf(line) + OpsOf(more) + {early}) && CausallyOrdered(line + more)
  }

  /**
   * Exactly when the worker may store an operation, whatever goes through before the append: when the
   * node it names is in the log. Clients name the root or nodes above it.
   */
  lemma StoringIsSafeIff(d: Doc, line: seq<Op>, op: Op)
    requires Agrees(d, line, multiset{}) && WellFormedOps(OpsOf(line) + {op})
    requires Named(op) == ROOT_UID || Less(ROOT_UID, Named(op))
    ensures DepsMet(OpsOf(line), op) <==>
      forall more :: GoThrough(line, op, more) ==> Replay(Step(d, op), more) == Replay([], line + more + [op])
  {
    if DepsMet(OpsOf(line), op) {
      forall more | GoThrough(line, op, more)
        ensures Replay(Step(d, op), more) == Replay([], line + more + [op])
      {
        OvertakenAgreesIff(d, line, op, more);
      }
    } else {
      var late := Insert(Named(op), None, "x");
      LateFits(line, op);
      OvertakenAgreesIff(d, line, op, [late]);
      assert GoThrough(line, op, [late]) && DepsMet(OpsOf(line) + OpsOf([late]), op);
    }
  }

  /** The INSERT of the missing node is such an operation. */
  lemma LateFits(line: seq<Op>, op: Op)
    requires WellFormedOps(OpsOf(line) + {op}) && CausallyOrdered(line) && !DepsMet(OpsOf(line), op)
    requires Named(op) == ROOT_UID || Less(ROOT_UID, Named(op))
    ensures var late := Insert(Named(op), None, "x");
      GoThrough(line, op, [late]) && DepsMet(OpsOf(line) + OpsOf([late]), op) && op !in [late]
  {
    var late := Insert(Named(op), None, "x");
    WellFormedMeans(OpsOf(line) + {op});
    CausalAppend(line, late);
    assert OpsOf([late]) == {late};
    assert late.uid in Inserted(OpsOf(line) + {late});
    if op.Insert? {
      LessAsymmetric(Anchor(op), op.uid);
    }
  }

  /** So a DELETE that reaches the worker before the INSERT it names leaves the two apart, in every agreeing state. */
  lemma StoredGapDisagrees(d: Doc, line: seq<Op>, op: Op)
    requires Agrees(d, line, multiset{}) && Admissible(op, line, multiset{})
    requires op.Insert? && op.uid !in Inserted(OpsOf(line))
    ensures var early := Delete(op.uid);
      && !Apply(d, early).applied
      && Step(Step(d, early), op) != Replay([], line + [op] + [early])
  {
    var early, ops := Delete(op.uid), OpsOf(line);
    assert ops + Outstanding(multiset{}) == ops && OpsOf([op]) == {op};
    WellFormedMeans(ops + {op});
    CausalAppend(line, op);
    OvertakenAgreesIff(d, line, early, [op]);
    assert op.uid in Inserted(ops + {op});
    EffectOf(d, ops, early);
    assert [op][..0] == [] && Replay(Step(d, early), [op]) == Step(Step(d, early), op);
  }

  /** From the empty document: the cache shows the character, the log's replay has it deleted. */
  lemma StoredGapExample()
    ensures var u := UID(1, "a");
      var typed, early := Insert(u, None, "x"), Delete(u);
      && Step(Step([], early), typed) == [Element(u, "x", false)]
      && Replay([], [typed, early]) == [Element(u, "x", true)]
  {
    var typed, early := Insert(UID(1, "a"), None, "x"), Delete(UID(1, "a"));
    assert [typed, early] == [typed] + [early] && [typed][..0] == [];
    ReplayOne([], [typed], early);
    assert Replay([], [typed]) == Step([], typed) == [Element(UID(1, "a"), "x", false)];
  }
}
