/** Keeping only the newest snapshots: what reconstruction loses. */
module Pruning {
  import opened Uids
  import opened Rga
  import opened History

  /** The `n` largest sequence numbers. */
  function Newest(seqs: set<nat>, n: nat): (r: set<nat>)
    ensures r <= seqs && forall k, j :: k in r && j in seqs && j !in r ==> j < k
    decreases n
  {
    if n == 0 || seqs == {} then {}
    else
      var last := Latest(seqs).value;
      {last} + Newest(seqs - {last}, n - 1)
  }

  /** As many as there are, and no more than `n`. */
  lemma {:induction false} NewestCount(seqs: set<nat>, n: nat)
    ensures |Newest(seqs, n)| == Min(n, |seqs|)
    decreases n
  {
    if n > 0 && seqs != {} {
      var last := Latest(seqs).value;
      NewestCount(seqs - {last}, n - 1);
    }
  }

  /** The snapshots kept, the most recent ones. */
  function Pruned(snapshots: Snapshots, n: nat): Snapshots {
    map s | s in Newest(snapshots.Keys, n) :: snapshots[s]
  }

  /** From the oldest kept snapshot on, pruning changes no reconstruction. */
  lemma KeepsRecent(log: seq<Op>, snapshots: Snapshots, n: nat, s: nat, t: nat)
    requires forall x :: x in snapshots ==> x <= |log|
    requires s in Pruned(snapshots, n) && s <= t
    ensures Reconstructed(log, Pruned(snapshots, n), t) == Reconstructed(log, snapshots, t)
  {
    PrunedChoice(snapshots, n, s, t);
  }

  lemma PrunedChoice(snapshots: Snapshots, n: nat, s: nat, t: nat)
    requires s in Pruned(snapshots, n) && s <= t
    ensures SnapshotBefore(Pruned(snapshots, n), t) == SnapshotBefore(snapshots, t)
  {
    var kept := Pruned(snapshots, n);
    var at, at' := SnapshotBefore(snapshots, t), SnapshotBefore(kept, t);
    assert s in AtOrBefore(snapshots, t) && s in AtOrBefore(kept, t);
    assert at.value in Newest(snapshots.Keys, n);
    assert at.value in AtOrBefore(kept, t) && at'.value in AtOrBefore(snapshots, t);
  }

  function Newer(seqs: set<nat>, t: nat): set<nat> {
    set k | k in seqs && k > t
  }

  /** With `n` snapshots newer than `t`, none that is kept is at or before `t`. */
  lemma {:induction false} NewestAreNewer(seqs: set<nat>, n: nat, t: nat)
    requires |Newer(seqs, t)| >= n
    ensures forall k :: k in Newest(seqs, n) ==> k > t
    ensures n > 0 ==> Newest(seqs, n) != {}
    decreases n
  {
    var newer := Newer(seqs, t);
    if n > 0 {
      assert newer != {};
      var k :| k in newer;
      var last := Latest(seqs).value;
      assert last >= k;
      assert Newer(seqs - {last}, t) == newer - {last};
      NewestAreNewer(seqs - {last}, n - 1, t);
    }
  }

  /** A revision older than the kept snapshots is replayed from the start of the log, its ROLLBACKs skipped. */
  lemma Forgets(log: seq<Op>, snapshots: Snapshots, n: nat, t: nat)
    requires (forall s :: s in snapshots ==> s <= |log|) && t <= |log|
    requires |Newer(snapshots.Keys, t)| >= n
    ensures Reconstructed(log, Pruned(snapshots, n), t) == Replay([], log[..t])
  {
    NewestAreNewer(snapshots.Keys, n, t);
    assert AtOrBefore(Pruned(snapshots, n), t) == {};
    assert log[0..t] == log[..t];
  }

  /** How many snapshots pruning keeps. */
  const MAX_SNAPSHOTS: nat := 10

  /** The first character is typed and taken back by a ROLLBACK to the empty document. */
  const TAKEN_BACK := [Insert(UID(1, "a"), None, "x"), Rollback(UID(0, "b"))]

  lemma TakenBackMeans(log: seq<Op>, targets: map<nat, nat>)
    requires TargetsOk(log, targets) && TAKEN_BACK <= log && targets[2] == 0
    ensures Meaning(log, targets, 2) == []
    ensures Replay([], log[..2]) == [Element(UID(1, "a"), "x", false)]
  {
    var x, r := Insert(UID(1, "a"), None, "x"), Rollback(UID(0, "b"));
    assert log[0] == x && log[1] == r && log[..2] == [x] + [r] && [x][..0] == [];
    ReplayOne([], [x], r);
    assert Replay([], [x]) == Step([], x);
    assert Meaning(log, targets, 2) == Meaning(log, targets, 0);
  }

  /**
   * The ROLLBACK has its snapshot. Ten snapshots later that one is pruned, and reconstruction of the revision
   * shows the character again.
   */
  lemma LostRollbackExample(log: seq<Op>, targets: map<nat, nat>, snapshots: Snapshots)
    requires TargetsOk(log, targets) && SnapshotsOk(log, targets, snapshots)
    requires TAKEN_BACK <= log && targets[2] == 0 && 2 in snapshots
    requires |Newer(snapshots.Keys, 2)| >= MAX_SNAPSHOTS
    ensures Pruned(snapshots, MAX_SNAPSHOTS) != map[] && SnapshotsOk(log, targets, Pruned(snapshots, MAX_SNAPSHOTS))
    ensures Reconstructed(log, snapshots, 2) == Meaning(log, targets, 2) == []
    ensures Reconstructed(log, Pruned(snapshots, MAX_SNAPSHOTS), 2) == [Element(UID(1, "a"), "x", false)]
  {
    TakenBackMeans(log, targets);
    Forgets(log, snapshots, MAX_SNAPSHOTS, 2);
    SnapshotIsTaken(log, snapshots, 2);
    NewestRemain(snapshots, MAX_SNAPSHOTS, 2);
  }

  lemma SnapshotIsTaken(log: seq<Op>, snapshots: Snapshots, s: nat)
    requires (forall t :: t in snapshots ==> t <= |log|) && s in snapshots
    ensures Reconstructed(log, snapshots, s) == snapshots[s]
  {
    assert s in AtOrBefore(snapshots, s) && log[s..s] == [];
  }

  lemma NewestRemain(snapshots: Snapshots, n: nat, t: nat)
    requires n > 0 && |Newer(snapshots.Keys, t)| >= n
    ensures Pruned(snapshots, n) != map[]
  {
    NewestAreNewer(snapshots.Keys, n, t);
    var k :| k in Newest(snapshots.Keys, n);
    assert k in Pruned(snapshots, n);
  }

  /** The numbers from `low` up to but not including `high`. */
  function Range(low: nat, high: nat): (r: set<nat>)
    requires low <= high
    ensures forall k :: k in r <==> low <= k < high
    ensures |r| == high - low
    decreases high
  {
    if low == high then {} else Range(low, high - 1) + {high - 1}
  }

  /** Snapshots at every revision from the ROLLBACK on, over ten more events, are such a store. */
  lemma LostRollbackStore(log: seq<Op>, targets: map<nat, nat>)
    requires TargetsOk(log, targets) && TAKEN_BACK <= log && |log| >= 2 + MAX_SNAPSHOTS
    ensures var snapshots := map s | s in Range(2, |log| + 1) :: Meaning(log, targets, s);
      SnapshotsOk(log, targets, snapshots) && 2 in snapshots && |Newer(snapshots.Keys, 2)| >= MAX_SNAPSHOTS
  {
    var snapshots := map s | s in Range(2, |log| + 1) :: Meaning(log, targets, s);
    forall k
      ensures k in Newer(snapshots.Keys, 2) <==> k in Range(3, |log| + 1)
    {
      assert k in snapshots <==> k in Range(2, |log| + 1);
    }
    assert Newer(snapshots.Keys, 2) == Range(3, |log| + 1);
  }
}
