/** The event store and the services over it: append-only log, snapshots, reconstruction, rollback, loading. */
module EventStores {
  import opened Uids
  import opened Rga
  import opened Gc
  import opened RgaDocuments
  import opened History
  import opened Pruning

  datatype CachedDocument = CachedDocument(doc: RgaDocument, lastSeq: nat, opsSinceSnapshot: nat)

  class EventStore {
    var log: seq<Op>
    var snapshots: Snapshots
    /** What each ROLLBACK event restored; the stored sentinel does not say. */
    ghost var targets: map<nat, nat>

    ghost predicate Valid()
      reads this
    {
      && TargetsOk(log, targets)
      && (forall r :: r in targets ==> r <= |log|)
      && (forall s :: s in snapshots ==> s <= |log| && WellFormed(snapshots[s]))
    }

    /** Reconstruction shows every revision, short of collected tombstones. */
    ghost predicate Faithful()
      requires Valid()
      reads this
    {
      History.Faithful(log, targets, snapshots)
    }

    /** Reconstruction shows every revision, and snapshots hold whole documents. */
    ghost predicate Whole()
      requires Valid()
      reads this
    {
      Faithful() && SnapshotsOk(log, targets, snapshots)
    }

    /** The meaning of a revision of this store. */
    ghost function At(n: nat): Doc
      requires Valid() && n <= |log|
      reads this
    {
      Meaning(log, targets, n)
    }

    /** `op` does not reveal what the snapshot the next event would be replayed on lacks. */
    ghost predicate Unrevealing(op: Op)
      requires Valid() && Faithful()
      reads this
    {
      Harmless(At(|log|), GoneAt(log, targets, snapshots, |log|), op)
    }

    constructor ()
      ensures Valid() && Whole() && log == [] && snapshots == map[]
    {
      log, snapshots, targets := [], map[], map[];
    }

    // ----- the log -----

    /** Inserts an event under the next sequence number. */
    method AppendOperation(op: Op) returns (seqNo: nat)
      requires Valid() && !op.Rollback?
      modifies this
      ensures Valid() && log == old(log) + [op] && seqNo == |log| && snapshots == old(snapshots)
      ensures forall n :: 0 <= n <= |old(log)| ==> At(n) == old(At(n))
      ensures At(seqNo) == Step(old(At(|log|)), op)
      ensures Line(log, targets, seqNo) == old(Line(log, targets, |log|)) + [op]
      ensures old(Faithful()) && old(Unrevealing(op)) ==> Faithful()
      ensures old(Whole()) ==> Whole()
    {
      Append(op, 0);
      seqNo := |log|;
    }

    /** The insertion itself, for an operation as well as for a ROLLBACK to revision `target`. */
    method Append(op: Op, ghost target: nat)
      requires Valid() && target <= |log|
      modifies this
      ensures Valid() && log == old(log) + [op] && snapshots == old(snapshots)
      ensures Extends(old(log), old(targets), log, targets)
      ensures forall n :: 0 <= n <= |old(log)| ==> At(n) == old(At(n))
      ensures At(|log|) == if op.Rollback? then old(At(target)) else Step(old(At(|log|)), op)
      ensures Line(log, targets, |log|) ==
        if op.Rollback? then old(Line(log, targets, target)) else old(Line(log, targets, |log|)) + [op]
      ensures old(Faithful()) && !op.Rollback? && old(Unrevealing(op)) ==> Faithful()
      ensures old(Whole()) && !op.Rollback? ==> Whole()
    {
      ghost var log0, targets0 := log, targets;
      log := log + [op];
      targets := if op.Rollback? then targets[|log| := target] else targets;
      AppendedMeaning(log0, targets0, log, targets);
      if !op.Rollback? {
        OperationStays(log0, targets0, log, targets, snapshots);
      }
    }

    /** Events in a closed range of sequence numbers, in order: the rows with `fromSeq <= seq <= toSeq`. */
    method LoadOperationsInRange(fromSeq: nat, toSeq: nat) returns (ops: seq<Op>)
      ensures fromSeq > toSeq || fromSeq > |log| ==> ops == []
      ensures 1 <= fromSeq <= toSeq && fromSeq <= |log| ==> ops == log[fromSeq - 1..Min(toSeq, |log|)]
      ensures fromSeq == 0 ==> ops == log[..Min(toSeq, |log|)]
    {
      var first := if fromSeq == 0 then 0 else fromSeq - 1;
      var last := Min(toSeq, |log|);
      ops := if first <= last then log[first..last] else [];
    }

    /** At most `limit` events after a sequence number, in order. */
    method LoadOperationsAfterSeq(afterSeq: nat, limit: nat) returns (ops: seq<Op>)
      ensures if afterSeq <= |log| then ops == log[afterSeq..Min(afterSeq + limit, |log|)] else ops == []
    {
      ops := if afterSeq <= |log| then log[afterSeq..Min(afterSeq + limit, |log|)] else [];
    }

    // ----- snapshots -----

    /**
     * Keeps an existing snapshot on conflict; false where the source then fails to reload it. A document
     * that shows the last revision, collected or not, keeps the store faithful.
     */
    method SaveSnapshot(doc: RgaDocument, seqNo: nat) returns (ok: bool)
      requires Valid() && doc.Valid() && seqNo <= |log|
      modifies this`snapshots
      ensures Valid() && snapshots ==
        if seqNo in old(snapshots) then old(snapshots) else old(snapshots)[seqNo := doc.Contents]
      ensures ok <==> seqNo !in old(snapshots) || Latest(snapshots.Keys) == Some(seqNo)
      ensures old(Faithful()) && seqNo == |log| && Thins(At(seqNo), doc.Contents) ==> Faithful()
      ensures old(Whole()) && seqNo == |log| && doc.Contents == At(seqNo) ==> Whole()
    {
      WholeThins(doc.Contents);
      var data := doc.Serialize();
      if seqNo in snapshots {
        return Latest(snapshots.Keys) == Some(seqNo);
      }
      doc.StaysWellFormed();
      if seqNo == |log| && History.Faithful(log, targets, snapshots) && Thins(Meaning(log, targets, seqNo), data) {
        SavedCarries(log, targets, snapshots, data);
      }
      snapshots := snapshots[seqNo := data];
      ok := true;
    }

    /**
     * The periodic snapshot: collects the cached document's tombstones, then
     * saves it under the last sequence number.
     */
    method Compact(doc: RgaDocument) returns (ok: bool)
      requires Valid() && doc.Valid() && this !in doc.Repr
      modifies this`snapshots, doc.Repr
      ensures Valid() && doc.Valid() && doc.Repr == old(doc.Repr)
      ensures doc.Contents == if |log| == 0 then old(doc.Contents) else Live(old(doc.Contents))
      ensures snapshots ==
        if |log| == 0 || |log| in old(snapshots) then old(snapshots) else old(snapshots)[|log| := doc.Contents]
      ensures |log| > 0 ==> |log| in snapshots
      ensures ok == (|log| > 0)
      ensures old(Faithful()) && Thins(At(|log|), old(doc.Contents)) ==> Faithful() && Thins(At(|log|), doc.Contents)
    {
      var seqNo := |log|;
      if seqNo <= 0 {
        return false;
      }
      MeaningWellFormed(log, targets, seqNo);
      ThinnerStill(At(seqNo), doc.Contents);
      var removed := doc.Gc();
      ok := SaveSnapshot(doc, seqNo);
    }

    /** Keeps the most recent snapshots only; reconstruction from the oldest kept one on does not change. */
    method PruneOldSnapshots()
      requires Valid()
      modifies this`snapshots
      ensures Valid() && snapshots == Pruned(old(snapshots), MAX_SNAPSHOTS)
      ensures |snapshots| == Min(10, |old(snapshots)|)
      ensures forall s :: s in snapshots ==> s in old(snapshots) && snapshots[s] == old(snapshots)[s]
      ensures forall s, t :: s in snapshots && t in old(snapshots) && t !in snapshots ==> t < s
      ensures forall s, t :: s in snapshots && s <= t ==>
        Reconstructed(log, snapshots, t) == Reconstructed(log, old(snapshots), t)
    {
      forall s, t | s in Pruned(snapshots, MAX_SNAPSHOTS) && s <= t
        ensures Reconstructed(log, Pruned(snapshots, MAX_SNAPSHOTS), t) == Reconstructed(log, snapshots, t)
      {
        KeepsRecent(log, snapshots, MAX_SNAPSHOTS, s, t);
      }
      NewestCount(snapshots.Keys, MAX_SNAPSHOTS);
      assert Pruned(snapshots, MAX_SNAPSHOTS).Keys == Newest(snapshots.Keys, MAX_SNAPSHOTS);
      snapshots := Pruned(snapshots, MAX_SNAPSHOTS);
    }

    // ----- reconstruction -----

    /** Replays events one by one on a document, as both loaders do. */
    method ReplayOn(doc: RgaDocument, ops: seq<Op>)
      requires doc.Valid()
      modifies doc.Repr
      ensures doc.Valid() && fresh(doc.Repr - old(doc.Repr))
      ensures doc.Contents == Replay(old(doc.Contents), ops)
    {
      for i := 0 to |ops|
        invariant doc.Valid() && fresh(doc.Repr - old(doc.Repr))
        invariant doc.Contents == Replay(old(doc.Contents), ops[..i])
      {
        assert ops[..i + 1] == ops[..i] + [ops[i]];
        ReplayOne(old(doc.Contents), ops[..i], ops[i]);
        var applied := doc.ApplyOperation(ops[i]);
      }
      assert ops[..|ops|] == ops;
    }

    /** A document holding the given snapshot, or an empty one. */
    method StartFrom(at: Option<nat>) returns (doc: RgaDocument)
      requires Valid() && (at.Some? ==> at.value in snapshots)
      ensures doc.Valid() && fresh(doc.Repr) && doc.Contents == Base(snapshots, at)
    {
      if at.Some? {
        doc := RgaDocument.Deserialize(snapshots[at.value]);
      } else {
        doc := new RgaDocument();
      }
    }

    /** The document at revision `targetSeq`, and the snapshot it was built from. */
    method ReconstructAtSeq(targetSeq: nat) returns (doc: RgaDocument, snapshot: Option<nat>)
      requires Valid()
      ensures doc.Valid() && fresh(doc.Repr)
      ensures doc.Contents == Reconstructed(log, snapshots, targetSeq)
      ensures Faithful() ==>
        Thins(At(Min(targetSeq, |log|)), doc.Contents) && Text(doc.Contents) == Text(At(Min(targetSeq, |log|)))
      ensures Whole() ==> doc.Contents == At(Min(targetSeq, |log|))
      ensures snapshot == SnapshotBefore(snapshots, targetSeq)
    {
      Reconstructs(targetSeq);
      snapshot := SnapshotBefore(snapshots, targetSeq);
      doc := StartFrom(snapshot);
      var fromSeq := SeqOf(snapshot) + 1;
      if fromSeq <= targetSeq {
        var ops := LoadOperationsInRange(fromSeq, targetSeq);
        ReplayOn(doc, ops);
      } else {
        assert log[SeqOf(snapshot)..Min(targetSeq, |log|)] == [];
      }
    }

    /** What reconstruction yields in a faithful store. */
    lemma Reconstructs(t: nat)
      requires Valid()
      ensures var d, n := Reconstructed(log, snapshots, t), Min(t, |log|);
        && (Faithful() ==> Thins(At(n), d) && Text(d) == Text(At(n)))
        && (Whole() ==> d == At(n))
    {
      if Faithful() {
        ReconstructionIsMeaning(log, targets, snapshots, t);
      }
      if Whole() {
        WholeReconstruction(log, targets, snapshots, t);
      }
    }

    // ----- rollback -----

    /** Appends the ROLLBACK event and its snapshot, for a document read at revision `target`. */
    method CommitRollback(doc: RgaDocument, ghost target: nat, sentinel: UID) returns (newSeq: nat)
      requires Valid() && doc.Valid() && target <= |log|
      modifies this
      ensures Valid() && log == old(log) + [Rollback(sentinel)] && newSeq == |log|
      ensures forall n :: 0 <= n <= |old(log)| ==> At(n) == old(At(n))
      ensures At(newSeq) == old(At(target)) && newSeq in snapshots && snapshots[newSeq] == doc.Contents
      ensures Line(log, targets, newSeq) == old(Line(log, targets, target))
      ensures old(Faithful()) && old(Thins(At(target), doc.Contents)) ==> Faithful()
      ensures old(Whole()) && old(At(target) == doc.Contents) ==> Whole()
    {
      ghost var log0, targets0 := log, targets;
      Append(Rollback(sentinel), target);
      newSeq := |log|;
      RollbackStays(log0, targets0, log, targets, snapshots, doc.Contents);
      var ok := SaveSnapshot(doc, newSeq);
    }

    /**
     * Restores a revision as a new event. The read and the commit are separate database steps; the
     * commit only needs what the read established, and no append in between can change that.
     */
    method RestoreToRevision(targetSeq: nat, sentinel: UID) returns (newSeq: nat, restoredText: string)
      requires Valid()
      modifies this
      ensures Valid() && log == old(log) + [Rollback(sentinel)] && newSeq == |log|
      ensures forall n :: 0 <= n <= |old(log)| ==> At(n) == old(At(n))
      ensures At(newSeq) == old(At(Min(targetSeq, |log|)))
      ensures newSeq in snapshots && snapshots[newSeq] == old(Reconstructed(log, snapshots, targetSeq))
      ensures restoredText == Text(snapshots[newSeq])
      ensures old(Faithful()) ==> Faithful() && restoredText == Text(At(newSeq))
      ensures old(Whole()) ==> Whole()
    {
      var doc, snapshot := ReconstructAtSeq(targetSeq);
      restoredText := doc.ToText();
      newSeq := CommitRollback(doc, Min(targetSeq, |log|), sentinel);
    }

    // ----- loading -----

    /** What loading yields, and how far it gets. */
    lemma Loads()
      requires Valid()
      ensures var (d, n) := Loaded(log, snapshots);
        && n == Min(SeqOf(Latest(snapshots.Keys)) + DELTA_LIMIT, |log|) && d == Reconstructed(log, snapshots, n)
        && (|log| - SeqOf(Latest(snapshots.Keys)) <= 10000 ==> n == |log|)
        && (|log| - SeqOf(Latest(snapshots.Keys)) > 10000 ==> n == SeqOf(Latest(snapshots.Keys)) + 10000)
        && (Faithful() ==> Thins(At(n), d) && Text(d) == Text(At(n)))
        && (Whole() ==> d == At(n))
    {
      LoadedIsReconstructed(log, snapshots);
      LoadedReachesEndIff(log, snapshots);
      Reconstructs(Loaded(log, snapshots).1);
    }

    /** Builds the cache entry of a document: latest snapshot plus a bounded delta. */
    method LoadDocumentFromDb() returns (entry: CachedDocument)
      requires Valid()
      ensures entry.doc.Valid() && fresh(entry.doc.Repr)
      ensures |log| - SeqOf(Latest(snapshots.Keys)) <= 10000 ==> entry.lastSeq == |log|
      ensures |log| - SeqOf(Latest(snapshots.Keys)) > 10000 ==> entry.lastSeq == SeqOf(Latest(snapshots.Keys)) + 10000
      ensures entry.doc.Contents == Reconstructed(log, snapshots, entry.lastSeq)
      ensures Faithful() ==>
        Thins(At(entry.lastSeq), entry.doc.Contents) && Text(entry.doc.Contents) == Text(At(entry.lastSeq))
      ensures Whole() ==> entry.doc.Contents == At(entry.lastSeq)
      ensures entry.opsSinceSnapshot == entry.lastSeq - SeqOf(Latest(snapshots.Keys))
    {
      Loads();
      entry := LoadLatest();
    }

    /** The loading itself. */
    method LoadLatest() returns (entry: CachedDocument)
      requires Valid()
      ensures entry.doc.Valid() && fresh(entry.doc.Repr)
      ensures (entry.doc.Contents, entry.lastSeq) == Loaded(log, snapshots)
      ensures entry.opsSinceSnapshot == entry.lastSeq - SeqOf(Latest(snapshots.Keys))
    {
      var snapshot := Latest(snapshots.Keys);
      var doc := StartFrom(snapshot);
      var deltaOps := LoadOperationsAfterSeq(SeqOf(snapshot), DELTA_LIMIT);
      ReplayOn(doc, deltaOps);
      LoadedParts(log, snapshots, deltaOps);
      var lastSeq := LastSeq(SeqOf(snapshot), |deltaOps|);
      entry := CachedDocument(doc, lastSeq, |deltaOps|);
    }

    /** The running maximum over `n` gapless sequence numbers that follow `start`. */
    static method LastSeq(start: nat, n: nat) returns (lastSeq: nat)
      ensures lastSeq == start + n
    {
      lastSeq := start;
      for i := 0 to n
        invariant lastSeq == start + i
      {
        var seqNo := start + i + 1;
        if seqNo > lastSeq {
          lastSeq := seqNo;
        }
      }
    }
  }
}
