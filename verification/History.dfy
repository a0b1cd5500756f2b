/** Event-sourced history: what the log means, rollbacks included, and the snapshot-plus-delta form of it. */
module History {
  import opened Uids
  import opened Rga
  import opened Gc

  type Snapshots = map<nat, Doc>

  /** Sequence numbers are positions in the log, counted from 1. `targets` says what each ROLLBACK restored. */
  ghost predicate TargetsOk(log: seq<Op>, targets: map<nat, nat>) {
    forall r :: 1 <= r <= |log| && log[r - 1].Rollback? ==> r in targets && targets[r] < r
  }

  /** The plain meaning: the document after the first `n` events. */
  ghost function Meaning(log: seq<Op>, targets: map<nat, nat>, n: nat): Doc
    requires n <= |log| && TargetsOk(log, targets)
    decreases n
  {
    if n == 0 then []
    else if log[n - 1].Rollback? then Meaning(log, targets, targets[n])
    else Step(Meaning(log, targets, n - 1), log[n - 1])
  }

  lemma {:induction false} MeaningWellFormed(log: seq<Op>, targets: map<nat, nat>, n: nat)
    requires n <= |log| && TargetsOk(log, targets)
    ensures WellFormed(Meaning(log, targets, n))
    decreases n
  {
    if n > 0 {
      if log[n - 1].Rollback? {
        MeaningWellFormed(log, targets, targets[n]);
      } else {
        MeaningWellFormed(log, targets, n - 1);
        StepWellFormed(Meaning(log, targets, n - 1), log[n - 1]);
      }
    }
  }

  /** A log with more events behind the ones it had. */
  ghost predicate Extends(log: seq<Op>, targets: map<nat, nat>, log': seq<Op>, targets': map<nat, nat>) {
    && TargetsOk(log, targets) && TargetsOk(log', targets') && log <= log'
    && forall r :: r in targets && r <= |log| ==> r in targets' && targets'[r] == targets[r]
  }

  /** Appending events never changes what an earlier revision means. */
  lemma {:induction false} MeaningIsStable(log: seq<Op>, targets: map<nat, nat>,
          log': seq<Op>, targets': map<nat, nat>, n: nat)
    requires n <= |log| && Extends(log, targets, log', targets')
    ensures Meaning(log', targets', n) == Meaning(log, targets, n)
    decreases n
  {
    if n > 0 {
      if log[n - 1].Rollback? {
        MeaningIsStable(log, targets, log', targets', targets[n]);
      } else {
        MeaningIsStable(log, targets, log', targets', n - 1);
      }
    }
  }

  /** The operations the document after `n` events is made of: a ROLLBACK goes back to those of its target. */
  ghost function Line(log: seq<Op>, targets: map<nat, nat>, n: nat): seq<Op>
    requires n <= |log| && TargetsOk(log, targets)
    decreases n
  {
    if n == 0 then []
    else if log[n - 1].Rollback? then Line(log, targets, targets[n])
    else Line(log, targets, n - 1) + [log[n - 1]]
  }

  lemma LineGrows(log: seq<Op>, targets: map<nat, nat>, n: nat)
    requires 1 <= n <= |log| && TargetsOk(log, targets) && !log[n - 1].Rollback?
    requires Meaning(log, targets, n - 1) == Replay([], Line(log, targets, n - 1))
    ensures Meaning(log, targets, n) == Replay([], Line(log, targets, n))
  {
    ReplayOne([], Line(log, targets, n - 1), log[n - 1]);
  }

  lemma {:induction false} MeaningIsLine(log: seq<Op>, targets: map<nat, nat>, n: nat)
    requires n <= |log| && TargetsOk(log, targets)
    ensures Meaning(log, targets, n) == Replay([], Line(log, targets, n))
    decreases n
  {
    if n > 0 {
      if log[n - 1].Rollback? {
        MeaningIsLine(log, targets, targets[n]);
      } else {
        MeaningIsLine(log, targets, n - 1);
        LineGrows(log, targets, n);
      }
    }
  }

  lemma {:induction false} LineIsStable(log: seq<Op>, targets: map<nat, nat>,
          log': seq<Op>, targets': map<nat, nat>, n: nat)
    requires n <= |log| && Extends(log, targets, log', targets')
    ensures Line(log', targets', n) == Line(log, targets, n)
    decreases n
  {
    if n > 0 {
      if log[n - 1].Rollback? {
        LineIsStable(log, targets, log', targets', targets[n]);
      } else {
        LineIsStable(log, targets, log', targets', n - 1);
      }
    }
  }

  // ----- snapshot choice -----

  lemma {:induction false} MaxNatExists(s: set<nat>)
    requires s != {}
    ensures exists m :: m in s && forall k :: k in s ==> k <= m
  {
    var a :| a in s;
    var rest := s - {a};
    if rest == {} {
      assert s == {a};
    } else {
      MaxNatExists(rest);
      var m :| m in rest && forall k :: k in rest ==> k <= m;
      var m' := if m < a then a else m;
      assert forall k :: k in s ==> k == a || k in rest;
      assert m' in s && forall k :: k in s ==> k <= m';
    }
  }

  /** `ORDER BY seq DESC LIMIT 1`. */
  function Latest(seqs: set<nat>): (r: Option<nat>)
    ensures r.None? <==> seqs == {}
    ensures r.Some? ==> r.value in seqs && forall k :: k in seqs ==> k <= r.value
  {
    if seqs == {} then None
    else
      MaxNatExists(seqs);
      var m :| m in seqs && forall k :: k in seqs ==> k <= m;
      Some(m)
  }

  function SnapshotBefore(snapshots: Snapshots, target: nat): Option<nat> {
    Latest(AtOrBefore(snapshots, target))
  }

  function AtOrBefore(snapshots: Snapshots, target: nat): set<nat> {
    set s | s in snapshots && s <= target
  }

  lemma NoneBetween(snapshots: Snapshots, target: nat, r: nat)
    requires SeqOf(SnapshotBefore(snapshots, target)) < r <= target
    ensures r !in snapshots
  {
    assert r in snapshots ==> r in AtOrBefore(snapshots, target);
  }

  function Base(snapshots: Snapshots, at: Option<nat>): Doc
    requires at.Some? ==> at.value in snapshots
  {
    if at.Some? then snapshots[at.value] else []
  }

  function SeqOf(at: Option<nat>): nat {
    if at.Some? then at.value else 0
  }

  function Min(a: nat, b: nat): nat {
    if a <= b then a else b
  }

  /** The fast form: the best snapshot at or before `target`, then the events after it up to `target`. */
  function Reconstructed(log: seq<Op>, snapshots: Snapshots, target: nat): Doc
    requires forall s :: s in snapshots ==> s <= |log|
  {
    var at := SnapshotBefore(snapshots, target);
    Replay(Base(snapshots, at), log[SeqOf(at)..Min(target, |log|)])
  }

  // ----- what snapshots store -----

  /** Every snapshot stores the meaning of its own sequence number. */
  ghost predicate SnapshotsOk(log: seq<Op>, targets: map<nat, nat>, snapshots: Snapshots)
    requires TargetsOk(log, targets)
  {
    forall s :: s in snapshots ==> s <= |log| && snapshots[s] == Meaning(log, targets, s)
  }

  ghost predicate SnapshotShows(log: seq<Op>, targets: map<nat, nat>, snapshots: Snapshots, s: nat)
    requires TargetsOk(log, targets) && s in snapshots
  {
    s <= |log| && Thins(Meaning(log, targets, s), snapshots[s])
  }

  /** Every snapshot stores the meaning of its own sequence number, perhaps after tombstones were collected. */
  ghost predicate SnapshotsShow(log: seq<Op>, targets: map<nat, nat>, snapshots: Snapshots)
    requires TargetsOk(log, targets)
  {
    && (forall s :: s in snapshots ==> s <= |log|)
    && (forall s {:trigger SnapshotShows(log, targets, snapshots, s)} :: s in snapshots ==>
      SnapshotShows(log, targets, snapshots, s))
  }

  /** What the snapshot a reconstruction of `t` starts from lacks. */
  ghost function GoneAt(log: seq<Op>, targets: map<nat, nat>, snapshots: Snapshots, t: nat): set<UID>
    requires TargetsOk(log, targets) && SnapshotsShow(log, targets, snapshots)
  {
    var at := SnapshotBefore(snapshots, t);
    if at.None? then {}
    else
      assert SnapshotShows(log, targets, snapshots, at.value);
      Missing(Meaning(log, targets, at.value), snapshots[at.value])
  }

  /** Event `k` keeps a document that lacks the tombstones `gone` in step; replay skips a ROLLBACK. */
  ghost predicate Stays(log: seq<Op>, targets: map<nat, nat>, gone: set<UID>, k: nat)
    requires TargetsOk(log, targets) && 1 <= k <= |log|
  {
    var before, after := Meaning(log, targets, k - 1), Meaning(log, targets, k);
    if log[k - 1].Rollback? then gone <= DeadUids(after) && Without(before, gone) == Without(after, gone)
    else Harmless(before, gone, log[k - 1])
  }

  /** Reconstruction gets over event `k`: it has a snapshot, or what the snapshot in front lacks does no harm. */
  ghost predicate Carried(log: seq<Op>, targets: map<nat, nat>, snapshots: Snapshots, k: nat)
    requires TargetsOk(log, targets) && SnapshotsShow(log, targets, snapshots) && 1 <= k <= |log|
  {
    k in snapshots || Stays(log, targets, GoneAt(log, targets, snapshots, k), k)
  }

  /** Reconstruction of `t` yields its meaning, short of tombstones its snapshot lacks. */
  ghost predicate Shown(log: seq<Op>, targets: map<nat, nat>, snapshots: Snapshots, t: nat)
    requires TargetsOk(log, targets) && SnapshotsShow(log, targets, snapshots) && t <= |log|
  {
    var gone, d := GoneAt(log, targets, snapshots, t), Meaning(log, targets, t);
    gone <= DeadUids(d) && Reconstructed(log, snapshots, t) == Without(d, gone)
  }

  lemma ReplaySlice(d: Doc, log: seq<Op>, from: nat, n: nat)
    requires from < n <= |log|
    ensures Replay(d, log[from..n]) == Step(Replay(d, log[from..n - 1]), log[n - 1])
  {
    assert log[from..n] == log[from..n - 1] + [log[n - 1]];
    ReplayOne(d, log[from..n - 1], log[n - 1]);
  }

  /** At a snapshot, and at the start, nothing is replayed. */
  lemma ShownAtBase(log: seq<Op>, targets: map<nat, nat>, snapshots: Snapshots, t: nat)
    requires TargetsOk(log, targets) && SnapshotsShow(log, targets, snapshots)
    requires t <= |log| && (t in snapshots || t == 0)
    ensures Shown(log, targets, snapshots, t)
  {
    var at := SnapshotBefore(snapshots, t);
    assert t in snapshots ==> t in AtOrBefore(snapshots, t);
    assert SeqOf(at) == t && log[t..t] == [];
    if at.Some? {
      assert SnapshotShows(log, targets, snapshots, t);
    } else {
      WithoutNothing([]);
    }
  }

  /** Between snapshots, reconstruction advances by one event, from the same snapshot. */
  lemma NextEvent(log: seq<Op>, targets: map<nat, nat>, snapshots: Snapshots, k: nat)
    requires TargetsOk(log, targets) && SnapshotsShow(log, targets, snapshots)
    requires 1 <= k <= |log| && k !in snapshots
    ensures GoneAt(log, targets, snapshots, k) == GoneAt(log, targets, snapshots, k - 1)
    ensures Reconstructed(log, snapshots, k) == Step(Reconstructed(log, snapshots, k - 1), log[k - 1])
  {
    assert AtOrBefore(snapshots, k) == AtOrBefore(snapshots, k - 1);
    var at := SnapshotBefore(snapshots, k);
    ReplaySlice(Base(snapshots, at), log, SeqOf(at), k);
  }

  /** Behind the same snapshot, what is shown after one more event is shown short of the same tombstones. */
  lemma NextShownIff(log: seq<Op>, targets: map<nat, nat>, snapshots: Snapshots, k: nat)
    requires TargetsOk(log, targets) && SnapshotsShow(log, targets, snapshots)
    requires 1 <= k <= |log| && k !in snapshots && Shown(log, targets, snapshots, k - 1)
    ensures var gone, before, after :=
      GoneAt(log, targets, snapshots, k), Meaning(log, targets, k - 1), Meaning(log, targets, k);
      && gone <= DeadUids(before)
      && (Shown(log, targets, snapshots, k) <==>
        gone <= DeadUids(after) && Step(Without(before, gone), log[k - 1]) == Without(after, gone))
  {
    NextEvent(log, targets, snapshots, k);
  }

  lemma ShownNextIff(log: seq<Op>, targets: map<nat, nat>, snapshots: Snapshots, k: nat)
    requires TargetsOk(log, targets) && SnapshotsShow(log, targets, snapshots)
    requires 1 <= k <= |log| && Shown(log, targets, snapshots, k - 1)
    ensures Shown(log, targets, snapshots, k) <==> Carried(log, targets, snapshots, k)
  {
    if k in snapshots {
      ShownAtBase(log, targets, snapshots, k);
    } else {
      var gone := GoneAt(log, targets, snapshots, k);
      NextShownIff(log, targets, snapshots, k);
      StaysIff(log, targets, gone, k);
    }
  }

  lemma StaysIff(log: seq<Op>, targets: map<nat, nat>, gone: set<UID>, k: nat)
    requires TargetsOk(log, targets) && 1 <= k <= |log| && gone <= DeadUids(Meaning(log, targets, k - 1))
    ensures var before, after := Meaning(log, targets, k - 1), Meaning(log, targets, k);
      Stays(log, targets, gone, k) <==>
      gone <= DeadUids(after) && Step(Without(before, gone), log[k - 1]) == Without(after, gone)
  {
    var before := Meaning(log, targets, k - 1);
    MeaningWellFormed(log, targets, k - 1);
    if !log[k - 1].Rollback? {
      HarmlessIff(before, gone, log[k - 1]);
      DeadStay(before, log[k - 1]);
    }
  }

  lemma {:induction false} CarriedIsShown(log: seq<Op>, targets: map<nat, nat>, snapshots: Snapshots, t: nat)
    requires TargetsOk(log, targets) && SnapshotsShow(log, targets, snapshots)
    requires t <= |log|
    requires forall k {:trigger Carried(log, targets, snapshots, k)} :: 1 <= k <= t ==>
      Carried(log, targets, snapshots, k)
    ensures Shown(log, targets, snapshots, t)
  {
    if t == 0 {
      ShownAtBase(log, targets, snapshots, 0);
    } else {
      CarriedIsShown(log, targets, snapshots, t - 1);
      ShownNextIff(log, targets, snapshots, t);
      assert Carried(log, targets, snapshots, t);
    }
  }

  ghost predicate AllCarried(log: seq<Op>, targets: map<nat, nat>, snapshots: Snapshots)
    requires TargetsOk(log, targets) && SnapshotsShow(log, targets, snapshots)
  {
    forall k {:trigger Carried(log, targets, snapshots, k)} :: 1 <= k <= |log| ==> Carried(log, targets, snapshots, k)
  }

  ghost predicate AllShown(log: seq<Op>, targets: map<nat, nat>, snapshots: Snapshots)
    requires TargetsOk(log, targets) && SnapshotsShow(log, targets, snapshots)
  {
    forall t {:trigger Shown(log, targets, snapshots, t)} :: 0 <= t <= |log| ==> Shown(log, targets, snapshots, t)
  }

  /** Snapshots show their revisions, and reconstruction gets over every event. */
  ghost predicate Faithful(log: seq<Op>, targets: map<nat, nat>, snapshots: Snapshots)
    requires TargetsOk(log, targets)
  {
    SnapshotsShow(log, targets, snapshots) && AllCarried(log, targets, snapshots)
  }

  /**
   * Exactly when the fast form agrees with the meaning at every revision, whichever tombstones the
   * snapshots lack: each event has a snapshot, or does not reveal what the snapshot in front of it
   * lacks; a ROLLBACK without a snapshot, which replay skips, must have restored what was shown anyway.
   */
  lemma ReconstructionExact(log: seq<Op>, targets: map<nat, nat>, snapshots: Snapshots)
    requires TargetsOk(log, targets) && SnapshotsShow(log, targets, snapshots)
    ensures AllShown(log, targets, snapshots) <==> AllCarried(log, targets, snapshots)
  {
    if AllCarried(log, targets, snapshots) {
      forall t | 0 <= t <= |log|
        ensures Shown(log, targets, snapshots, t)
      {
        CarriedIsShown(log, targets, snapshots, t);
      }
    }
    if AllShown(log, targets, snapshots) {
      forall k | 1 <= k <= |log|
        ensures Carried(log, targets, snapshots, k)
      {
        assert Shown(log, targets, snapshots, k - 1) && Shown(log, targets, snapshots, k);
        ShownNextIff(log, targets, snapshots, k);
      }
    }
  }

  /** What is shown is a collected copy of the meaning, with the same text. */
  lemma ShownText(log: seq<Op>, targets: map<nat, nat>, snapshots: Snapshots, t: nat)
    requires TargetsOk(log, targets) && SnapshotsShow(log, targets, snapshots)
    requires t <= |log| && Shown(log, targets, snapshots, t)
    ensures Thins(Meaning(log, targets, t), Reconstructed(log, snapshots, t))
    ensures Text(Reconstructed(log, snapshots, t)) == Text(Meaning(log, targets, t))
  {
    MeaningWellFormed(log, targets, t);
    SameText(Meaning(log, targets, t), GoneAt(log, targets, snapshots, t));
    CollectedThins(Meaning(log, targets, t), GoneAt(log, targets, snapshots, t));
  }

  /** Reconstruction at or past the end of the log included. */
  lemma ReconstructionIsMeaning(log: seq<Op>, targets: map<nat, nat>, snapshots: Snapshots, t: nat)
    requires TargetsOk(log, targets) && Faithful(log, targets, snapshots)
    ensures var d := Meaning(log, targets, Min(t, |log|));
      Thins(d, Reconstructed(log, snapshots, t)) && Text(Reconstructed(log, snapshots, t)) == Text(d)
  {
    var n := Min(t, |log|);
    assert AtOrBefore(snapshots, t) == AtOrBefore(snapshots, n);
    CarriedIsShown(log, targets, snapshots, n);
    ShownText(log, targets, snapshots, n);
  }

  // ----- snapshots of whole documents -----

  /** A ROLLBACK event that replay skips must have its state in a snapshot, or not have changed anything. */
  ghost predicate RollbackCovered(log: seq<Op>, targets: map<nat, nat>, snapshots: Snapshots, r: nat)
    requires TargetsOk(log, targets) && 1 <= r <= |log|
  {
    log[r - 1].Rollback? && r !in snapshots ==> Meaning(log, targets, r) == Meaning(log, targets, r - 1)
  }

  lemma WholeIsShown(log: seq<Op>, targets: map<nat, nat>, snapshots: Snapshots)
    requires TargetsOk(log, targets) && SnapshotsOk(log, targets, snapshots)
    ensures SnapshotsShow(log, targets, snapshots)
    ensures forall t :: GoneAt(log, targets, snapshots, t) == {}
  {
    forall s | s in snapshots
      ensures SnapshotShows(log, targets, snapshots, s)
    {
      WholeThins(snapshots[s]);
    }
    forall t
      ensures GoneAt(log, targets, snapshots, t) == {}
    {
      var at := SnapshotBefore(snapshots, t);
      if at.Some? {
        WholeThins(snapshots[at.value]);
      }
    }
  }

  lemma CarriedIsCovered(log: seq<Op>, targets: map<nat, nat>, snapshots: Snapshots, k: nat)
    requires TargetsOk(log, targets) && SnapshotsOk(log, targets, snapshots) && SnapshotsShow(log, targets, snapshots)
    requires 1 <= k <= |log| && GoneAt(log, targets, snapshots, k) == {}
    ensures Carried(log, targets, snapshots, k) <==> RollbackCovered(log, targets, snapshots, k)
  {
    WithoutNothing(Meaning(log, targets, k - 1));
    WithoutNothing(Meaning(log, targets, k));
    MeaningWellFormed(log, targets, k - 1);
    NothingGoneIsHarmless(Meaning(log, targets, k - 1), log[k - 1]);
  }

  /**
   * With whole documents in the snapshots, reconstruction equals the meaning at every revision exactly
   * when each ROLLBACK either still has its snapshot or restored the state it was issued in. Pruning
   * the snapshot of any other ROLLBACK makes reconstruction wrong at that revision.
   */
  lemma WholeReconstructionExact(log: seq<Op>, targets: map<nat, nat>, snapshots: Snapshots)
    requires TargetsOk(log, targets) && SnapshotsOk(log, targets, snapshots)
    ensures (forall t :: 0 <= t <= |log| ==> Reconstructed(log, snapshots, t) == Meaning(log, targets, t)) <==>
            (forall r :: 1 <= r <= |log| ==> RollbackCovered(log, targets, snapshots, r))
  {
    WholeIsShown(log, targets, snapshots);
    forall t | 0 <= t <= |log|
      ensures Shown(log, targets, snapshots, t) <==> Reconstructed(log, snapshots, t) == Meaning(log, targets, t)
    {
      WithoutNothing(Meaning(log, targets, t));
    }
    forall k | 1 <= k <= |log|
      ensures Carried(log, targets, snapshots, k) <==> RollbackCovered(log, targets, snapshots, k)
    {
      CarriedIsCovered(log, targets, snapshots, k);
    }
    ReconstructionExact(log, targets, snapshots);
    if forall r :: 1 <= r <= |log| ==> RollbackCovered(log, targets, snapshots, r) {
      assert AllCarried(log, targets, snapshots);
    }
    if forall t :: 0 <= t <= |log| ==> Reconstructed(log, snapshots, t) == Meaning(log, targets, t) {
      assert AllShown(log, targets, snapshots);
    }
  }

  lemma WholeReconstruction(log: seq<Op>, targets: map<nat, nat>, snapshots: Snapshots, t: nat)
    requires TargetsOk(log, targets) && SnapshotsOk(log, targets, snapshots)
    requires Faithful(log, targets, snapshots)
    ensures Reconstructed(log, snapshots, t) == Meaning(log, targets, Min(t, |log|))
  {
    var n := Min(t, |log|);
    assert AtOrBefore(snapshots, t) == AtOrBefore(snapshots, n);
    WholeIsShown(log, targets, snapshots);
    CarriedIsShown(log, targets, snapshots, n);
    WithoutNothing(Meaning(log, targets, n));
  }

  // ----- events that are safe behind a collected snapshot -----

  /** Every event between a snapshot and the next one is an operation that may follow what the snapshot lacks. */
  ghost predicate FollowsSnapshot(log: seq<Op>, targets: map<nat, nat>, snapshots: Snapshots, k: nat)
    requires TargetsOk(log, targets) && SnapshotsShow(log, targets, snapshots) && 1 <= k <= |log|
  {
    k in snapshots ||
    (&& !log[k - 1].Rollback?
     && Follows(Meaning(log, targets, SeqOf(SnapshotBefore(snapshots, k))),
                GoneAt(log, targets, snapshots, k), log[k - 1]))
  }

  /**
   * Snapshots taken after a collection do no harm as long as the events behind each one name no collected
   * node and bring larger uids: the text of every revision is reconstructed.
   */
  lemma CollectedSnapshotsShowText(log: seq<Op>, targets: map<nat, nat>, snapshots: Snapshots, t: nat)
    requires TargetsOk(log, targets) && SnapshotsShow(log, targets, snapshots) && t <= |log|
    requires forall k {:trigger FollowsSnapshot(log, targets, snapshots, k)} :: 1 <= k <= |log| ==>
      FollowsSnapshot(log, targets, snapshots, k)
    ensures Text(Reconstructed(log, snapshots, t)) == Text(Meaning(log, targets, t))
  {
    forall k | 1 <= k <= t
      ensures Carried(log, targets, snapshots, k)
    {
      FollowerIsCarried(log, targets, snapshots, k);
    }
    CarriedIsShown(log, targets, snapshots, t);
    ShownText(log, targets, snapshots, t);
  }

  lemma FollowerIsCarried(log: seq<Op>, targets: map<nat, nat>, snapshots: Snapshots, k: nat)
    requires TargetsOk(log, targets) && SnapshotsShow(log, targets, snapshots) && 1 <= k <= |log|
    requires forall j {:trigger FollowsSnapshot(log, targets, snapshots, j)} :: 1 <= j <= |log| ==>
      FollowsSnapshot(log, targets, snapshots, j)
    ensures Carried(log, targets, snapshots, k)
  {
    if k !in snapshots {
      var from := SeqOf(SnapshotBefore(snapshots, k));
      var base, gone := Meaning(log, targets, from), GoneAt(log, targets, snapshots, k);
      assert FollowsSnapshot(log, targets, snapshots, k);
      TrackedSince(log, targets, snapshots, k, k - 1);
      FollowingIsHarmless(base, gone, Meaning(log, targets, k - 1), log[k - 1]);
    }
  }

  /** The document stays traceable to the snapshot's meaning up to event `n`. */
  lemma {:induction false} TrackedSince(log: seq<Op>, targets: map<nat, nat>, snapshots: Snapshots, k: nat, n: nat)
    requires TargetsOk(log, targets) && SnapshotsShow(log, targets, snapshots)
    requires 1 <= k <= |log| && k !in snapshots && SeqOf(SnapshotBefore(snapshots, k)) <= n < k
    requires forall j {:trigger FollowsSnapshot(log, targets, snapshots, j)} :: 1 <= j <= |log| ==>
      FollowsSnapshot(log, targets, snapshots, j)
    ensures Tracked(Meaning(log, targets, SeqOf(SnapshotBefore(snapshots, k))),
                    GoneAt(log, targets, snapshots, k), Meaning(log, targets, n))
  {
    var at := SnapshotBefore(snapshots, k);
    var base, gone := Meaning(log, targets, SeqOf(at)), GoneAt(log, targets, snapshots, k);
    if n == SeqOf(at) {
      MeaningWellFormed(log, targets, n);
      if at.Some? {
        assert SnapshotShows(log, targets, snapshots, at.value);
      }
      BaseIsTracked(base, gone);
    } else {
      TrackedSince(log, targets, snapshots, k, n - 1);
      SameSnapshot(snapshots, n, k);
      assert FollowsSnapshot(log, targets, snapshots, n);
      StepTracked(base, gone, Meaning(log, targets, n - 1), log[n - 1]);
    }
  }

  lemma SameSnapshot(snapshots: Snapshots, n: nat, k: nat)
    requires SeqOf(SnapshotBefore(snapshots, k)) < n <= k
    ensures n !in snapshots && SnapshotBefore(snapshots, n) == SnapshotBefore(snapshots, k)
  {
    NoneBetween(snapshots, k, n);
    forall s | s in AtOrBefore(snapshots, k)
      ensures s in AtOrBefore(snapshots, n)
    {
      assert s <= SeqOf(SnapshotBefore(snapshots, k));
    }
    assert AtOrBefore(snapshots, n) == AtOrBefore(snapshots, k);
  }

  // ----- growing the store -----

  /** Appending events changes nothing about the earlier ones. */
  lemma CarriedIsStable(log: seq<Op>, targets: map<nat, nat>, log': seq<Op>, targets': map<nat, nat>,
          snapshots: Snapshots)
    requires Extends(log, targets, log', targets') && SnapshotsShow(log, targets, snapshots)
    ensures SnapshotsShow(log', targets', snapshots)
    ensures forall t :: GoneAt(log', targets', snapshots, t) == GoneAt(log, targets, snapshots, t)
    ensures forall k :: 1 <= k <= |log| ==>
      (Carried(log', targets', snapshots, k) <==> Carried(log, targets, snapshots, k))
  {
    forall s | s in snapshots
      ensures SnapshotShows(log', targets', snapshots, s)
    {
      assert SnapshotShows(log, targets, snapshots, s);
      MeaningIsStable(log, targets, log', targets', s);
    }
    forall t
      ensures GoneAt(log', targets', snapshots, t) == GoneAt(log, targets, snapshots, t)
    {
      var at := SnapshotBefore(snapshots, t);
      if at.Some? {
        assert SnapshotShows(log, targets, snapshots, at.value);
        MeaningIsStable(log, targets, log', targets', at.value);
      }
    }
    forall k | 1 <= k <= |log|
      ensures Carried(log', targets', snapshots, k) <==> Carried(log, targets, snapshots, k)
    {
      MeaningIsStable(log, targets, log', targets', k - 1);
      MeaningIsStable(log, targets, log', targets', k);
    }
  }

  /** A snapshot at the end of the log does not touch earlier reconstructions. */
  lemma LastSnapshotCarries(log: seq<Op>, targets: map<nat, nat>, snapshots: Snapshots, d: Doc)
    requires TargetsOk(log, targets) && SnapshotsShow(log, targets, snapshots)
    requires |log| !in snapshots && Thins(Meaning(log, targets, |log|), d)
    ensures SnapshotsShow(log, targets, snapshots[|log| := d])
    ensures forall k :: 1 <= k < |log| && Carried(log, targets, snapshots, k) ==>
      Carried(log, targets, snapshots[|log| := d], k)
  {
    var snapshots' := snapshots[|log| := d];
    forall s | s in snapshots'
      ensures SnapshotShows(log, targets, snapshots', s)
    {
      assert s != |log| ==> SnapshotShows(log, targets, snapshots, s);
    }
    forall k | 1 <= k < |log| && Carried(log, targets, snapshots, k)
      ensures Carried(log, targets, snapshots', k)
    {
      assert AtOrBefore(snapshots', k) == AtOrBefore(snapshots, k);
    }
  }

  /** One more event: earlier revisions mean what they meant, and the last one follows from its predecessor. */
  lemma AppendedMeaning(log: seq<Op>, targets: map<nat, nat>, log': seq<Op>, targets': map<nat, nat>)
    requires Extends(log, targets, log', targets') && |log'| == |log| + 1
    ensures forall n :: 0 <= n <= |log| ==> Meaning(log', targets', n) == Meaning(log, targets, n)
    ensures forall n :: 0 <= n <= |log| ==> Line(log', targets', n) == Line(log, targets, n)
  {
    forall n | 0 <= n <= |log|
      ensures Meaning(log', targets', n) == Meaning(log, targets, n) && Line(log', targets', n) == Line(log, targets, n)
    {
      MeaningIsStable(log, targets, log', targets', n);
      LineIsStable(log, targets, log', targets', n);
    }
  }

  /** An operation that does not reveal what the last snapshot lacks keeps reconstruction faithful. */
  lemma AppendedCarries(log: seq<Op>, targets: map<nat, nat>, log': seq<Op>, targets': map<nat, nat>,
          snapshots: Snapshots)
    requires Extends(log, targets, log', targets') && |log'| == |log| + 1 && !log'[|log|].Rollback?
    requires Faithful(log, targets, snapshots)
    requires Harmless(Meaning(log, targets, |log|), GoneAt(log, targets, snapshots, |log|), log'[|log|])
    ensures Faithful(log', targets', snapshots)
  {
    CarriedIsStable(log, targets, log', targets', snapshots);
    LastIsCarried(log, targets, log', targets', snapshots);
    forall k | 1 <= k <= |log'|
      ensures Carried(log', targets', snapshots, k)
    {
      assert k <= |log| ==> Carried(log, targets, snapshots, k);
    }
  }

  lemma LastIsCarried(log: seq<Op>, targets: map<nat, nat>, log': seq<Op>, targets': map<nat, nat>,
          snapshots: Snapshots)
    requires Extends(log, targets, log', targets') && |log'| == |log| + 1 && !log'[|log|].Rollback?
    requires SnapshotsShow(log, targets, snapshots) && SnapshotsShow(log', targets', snapshots)
    requires GoneAt(log', targets', snapshots, |log|) == GoneAt(log, targets, snapshots, |log|)
    requires Harmless(Meaning(log, targets, |log|), GoneAt(log, targets, snapshots, |log|), log'[|log|])
    ensures Carried(log', targets', snapshots, |log'|)
  {
    MeaningIsStable(log, targets, log', targets', |log|);
    NextEvent(log', targets', snapshots, |log'|);
  }

  /** Behind whole snapshots every operation is such an operation. */
  lemma WholeStaysWhole(log: seq<Op>, targets: map<nat, nat>, log': seq<Op>, targets': map<nat, nat>,
          snapshots: Snapshots)
    requires Extends(log, targets, log', targets') && |log'| == |log| + 1 && !log'[|log|].Rollback?
    requires Faithful(log, targets, snapshots) && SnapshotsOk(log, targets, snapshots)
    ensures Faithful(log', targets', snapshots) && SnapshotsOk(log', targets', snapshots)
  {
    AppendedMeaning(log, targets, log', targets');
    WholeIsShown(log, targets, snapshots);
    MeaningWellFormed(log, targets, |log|);
    NothingGoneIsHarmless(Meaning(log, targets, |log|), log'[|log|]);
    AppendedCarries(log, targets, log', targets', snapshots);
  }

  /** The two together. */
  lemma OperationStays(log: seq<Op>, targets: map<nat, nat>, log': seq<Op>, targets': map<nat, nat>,
          snapshots: Snapshots)
    requires Extends(log, targets, log', targets') && |log'| == |log| + 1 && !log'[|log|].Rollback?
    ensures Faithful(log, targets, snapshots)
      && Harmless(Meaning(log, targets, |log|), GoneAt(log, targets, snapshots, |log|), log'[|log|])
      ==> Faithful(log', targets', snapshots)
    ensures Faithful(log, targets, snapshots) && SnapshotsOk(log, targets, snapshots) ==>
      Faithful(log', targets', snapshots) && SnapshotsOk(log', targets', snapshots)
  {
    if Faithful(log, targets, snapshots) {
      if Harmless(Meaning(log, targets, |log|), GoneAt(log, targets, snapshots, |log|), log'[|log|]) {
        AppendedCarries(log, targets, log', targets', snapshots);
      }
      if SnapshotsOk(log, targets, snapshots) {
        WholeStaysWhole(log, targets, log', targets', snapshots);
      }
    }
  }

  /** A snapshot at the end of the log that shows the last revision keeps reconstruction faithful. */
  lemma SavedCarries(log: seq<Op>, targets: map<nat, nat>, snapshots: Snapshots, d: Doc)
    requires TargetsOk(log, targets) && |log| !in snapshots
    requires Faithful(log, targets, snapshots) && Thins(Meaning(log, targets, |log|), d)
    ensures Faithful(log, targets, snapshots[|log| := d])
  {
    LastSnapshotCarries(log, targets, snapshots, d);
    CarriedUpTo(log, targets, snapshots, d);
  }

  /** With its snapshot, a ROLLBACK keeps reconstruction faithful as well. */
  lemma RolledBackCarries(log: seq<Op>, targets: map<nat, nat>, log': seq<Op>, targets': map<nat, nat>,
          snapshots: Snapshots, d: Doc)
    requires Extends(log, targets, log', targets') && |log'| == |log| + 1
    requires Faithful(log, targets, snapshots) && Thins(Meaning(log', targets', |log'|), d)
    ensures Faithful(log', targets', snapshots[|log'| := d])
  {
    CarriedIsStable(log, targets, log', targets', snapshots);
    LastSnapshotCarries(log', targets', snapshots, d);
    forall k | 1 <= k < |log'|
      ensures Carried(log', targets', snapshots, k)
    {
      assert Carried(log, targets, snapshots, k);
    }
    CarriedUpTo(log', targets', snapshots, d);
  }

  /** The two together, for a document read at the restored revision. */
  lemma RollbackStays(log: seq<Op>, targets: map<nat, nat>, log': seq<Op>, targets': map<nat, nat>,
          snapshots: Snapshots, d: Doc)
    requires Extends(log, targets, log', targets') && |log'| == |log| + 1
    ensures Faithful(log, targets, snapshots) && Thins(Meaning(log', targets', |log'|), d) ==>
      Faithful(log', targets', snapshots[|log'| := d])
    ensures SnapshotsOk(log, targets, snapshots) && d == Meaning(log', targets', |log'|) ==>
      SnapshotsOk(log', targets', snapshots[|log'| := d]) && Thins(Meaning(log', targets', |log'|), d)
  {
    WholeThins(d);
    AppendedMeaning(log, targets, log', targets');
    if Faithful(log, targets, snapshots) && Thins(Meaning(log', targets', |log'|), d) {
      RolledBackCarries(log, targets, log', targets', snapshots, d);
    }
  }

  lemma CarriedUpTo(log: seq<Op>, targets: map<nat, nat>, snapshots: Snapshots, d: Doc)
    requires TargetsOk(log, targets) && SnapshotsShow(log, targets, snapshots)
    requires SnapshotsShow(log, targets, snapshots[|log| := d])
    requires forall k {:trigger Carried(log, targets, snapshots, k)} :: 1 <= k < |log| ==>
      Carried(log, targets, snapshots, k)
    requires forall k :: 1 <= k < |log| && Carried(log, targets, snapshots, k) ==>
      Carried(log, targets, snapshots[|log| := d], k)
    ensures AllCarried(log, targets, snapshots[|log| := d])
  {
    var snapshots' := snapshots[|log| := d];
    forall k | 1 <= k <= |log|
      ensures Carried(log, targets, snapshots', k)
    {
      assert k < |log| ==> Carried(log, targets, snapshots, k);
    }
  }

  // ----- loading the current document -----

  /** `LIMIT` of the delta query. */
  const DELTA_LIMIT: nat := 10000

  /** The latest snapshot and at most DELTA_LIMIT events after it; the second component is `lastSeq`. */
  function Loaded(log: seq<Op>, snapshots: Snapshots): (Doc, nat)
    requires forall s :: s in snapshots ==> s <= |log|
  {
    var at := Latest(snapshots.Keys);
    var last := Min(SeqOf(at) + DELTA_LIMIT, |log|);
    (Replay(Base(snapshots, at), log[SeqOf(at)..last]), last)
  }

  /** Loading reconstructs the revision `lastSeq`, also when the limit cut the delta short. */
  lemma LoadedIsReconstructed(log: seq<Op>, snapshots: Snapshots)
    requires forall s :: s in snapshots ==> s <= |log|
    ensures var (d, lastSeq) := Loaded(log, snapshots);
      && lastSeq <= |log| && d == Reconstructed(log, snapshots, lastSeq)
      && (lastSeq < |log| ==> lastSeq == SeqOf(Latest(snapshots.Keys)) + DELTA_LIMIT)
  {
    var (d, lastSeq) := Loaded(log, snapshots);
    assert AtOrBefore(snapshots, lastSeq) == snapshots.Keys;
  }

  lemma LoadedParts(log: seq<Op>, snapshots: Snapshots, delta: seq<Op>)
    requires forall s :: s in snapshots ==> s <= |log|
    requires var from := SeqOf(Latest(snapshots.Keys)); delta == log[from..Min(from + DELTA_LIMIT, |log|)]
    ensures var at := Latest(snapshots.Keys);
      Loaded(log, snapshots) == (Replay(Base(snapshots, at), delta), SeqOf(at) + |delta|)
  {
  }

  /** Loading reaches the end of the log exactly when at most 10000 events follow the latest snapshot. */
  lemma LoadedReachesEndIff(log: seq<Op>, snapshots: Snapshots)
    requires forall s :: s in snapshots ==> s <= |log|
    ensures Loaded(log, snapshots).1 == |log| <==> |log| - SeqOf(Latest(snapshots.Keys)) <= 10000
    ensures Loaded(log, snapshots).1 < |log| ==> Loaded(log, snapshots).1 == SeqOf(Latest(snapshots.Keys)) + 10000
  {
    LoadedIsReconstructed(log, snapshots);
  }

  /** A log without snapshots and one event too many: the last one is not loaded. */
  lemma CutShortExample(log: seq<Op>)
    requires |log| == 10001
    ensures Loaded(log, map[]) == (Replay([], log[..10000]), 10000)
  {
    var none: Snapshots := map[];
    assert none.Keys == {};
    assert log[0..10000] == log[..10000];
  }

  /** What is loaded is a collected copy of the meaning of `lastSeq`, with its text. */
  lemma LoadedIsMeaning(log: seq<Op>, targets: map<nat, nat>, snapshots: Snapshots)
    requires TargetsOk(log, targets) && Faithful(log, targets, snapshots)
    ensures var (d, lastSeq) := Loaded(log, snapshots);
      && lastSeq <= |log| && Thins(Meaning(log, targets, lastSeq), d)
      && Text(d) == Text(Meaning(log, targets, lastSeq))
  {
    LoadedIsReconstructed(log, snapshots);
    ReconstructionIsMeaning(log, targets, snapshots, Loaded(log, snapshots).1);
  }
}
