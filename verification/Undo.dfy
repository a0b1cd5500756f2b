/** Undo by inverse operations: what they do to a list that others have kept editing. */
module Undo {
  import opened Uids
  import opened Rga
  import opened Shape
  import opened Convergence
  import opened LocalEdits
  import opened MessageSchema

  // ----- inverse operations -----

  /** The uid left of the node at position `i`, tombstones included. */
  function LeftOf(d: Doc, i: nat): UID
    requires i < |d|
  {
    if i == 0 then ROOT_UID else d[i - 1].uid
  }

  /**
   * The inverse of one operation against the current list; the uid of a re-insertion is a placeholder.
   * The root is found like any node and has no left neighbour.
   */
  function InverseOf(d: Doc, op: Op): seq<Op> {
    match op
    case Insert(u, _, _) => [Delete(u)]
    case Delete(u) =>
      var i := IndexOf(d, u);
      if u == ROOT_UID then [Insert(u, None, "")]
      else if i < 0 then [] else [Insert(u, Some(LeftOf(d, i)), d[i].value)]
    case Rollback(_) => []
  }

  /** Inverses of a batch, last operation first. */
  function InverseOps(d: Doc, batch: seq<Op>): seq<Op> {
    if batch == [] then []
    else InverseOf(d, batch[|batch| - 1]) + InverseOps(d, batch[..|batch| - 1])
  }

  /** The inverses of a batch undo its parts in the opposite order. */
  lemma {:induction false} InversesRunBackwards(d: Doc, a: seq<Op>, b: seq<Op>)
    ensures InverseOps(d, a + b) == InverseOps(d, b) + InverseOps(d, a)
  {
    if b == [] {
      assert a + b == a;
    } else {
      var init, last := b[..|b| - 1], b[|b| - 1];
      InversesRunBackwards(d, a, init);
      assert (a + b)[..|a + b| - 1] == a + init;
      Associative(InverseOf(d, last), InverseOps(d, init), InverseOps(d, a));
    }
  }

  /** `f` is above every uid in the list and above all `older` ones handed out before it. */
  ghost predicate Fresh(d: Doc, older: set<UID>, f: UID) {
    && f != ROOT_UID
    && (forall i :: 0 <= i < |d| ==> Less(d[i].uid, f))
    && (forall u :: u in older ==> Less(u, f))
  }

  /** `op` fills the placeholder of `inv` with a uid fresh behind `before`; a DELETE stays as it is. */
  ghost predicate Fills(d: Doc, before: seq<Op>, inv: Op, op: Op) {
    if inv.Insert? then op == inv.(uid := op.uid) && Fresh(d, Inserted(OpsOf(before)), op.uid) else op == inv
  }

  ghost predicate FilledAt(d: Doc, inverses: seq<Op>, ops: seq<Op>, i: nat)
    requires i < |ops| == |inverses|
  {
    Fills(d, ops[..i], inverses[i], ops[i])
  }

  ghost predicate NotReused(inverses: seq<Op>, ops: seq<Op>, i: nat, j: nat)
    requires i < |ops| && j < |inverses|
  {
    ops[i].Insert? ==> ops[i].uid != inverses[j].uid
  }

  /** The caller's part: each placeholder is replaced by a fresh uid, each one above the last. */
  ghost predicate Freshened(d: Doc, inverses: seq<Op>, ops: seq<Op>) {
    && |ops| == |inverses|
    && (forall i {:trigger FilledAt(d, inverses, ops, i)} :: 0 <= i < |ops| ==> FilledAt(d, inverses, ops, i))
    && (forall i, j {:trigger NotReused(inverses, ops, i, j)} :: 0 <= i < |ops| && 0 <= j < |ops| ==>
      NotReused(inverses, ops, i, j))
  }

  /** The client's clock after one tick per re-insertion. */
  function TickedClock(inverses: seq<Op>, clock: nat): (c: nat)
    ensures c >= clock
  {
    if inverses == [] then clock
    else TickedClock(inverses[..|inverses| - 1], clock) + if inverses[|inverses| - 1].Insert? then 1 else 0
  }

  /** How a client fills the placeholders: one tick of its Lamport clock per re-insertion. */
  function Freshen(inverses: seq<Op>, clock: nat, siteId: string): (ops: seq<Op>)
    ensures |ops| == |inverses|
  {
    if inverses == [] then []
    else
      var init, inv := inverses[..|inverses| - 1], inverses[|inverses| - 1];
      Freshen(init, clock, siteId) +
      [if inv.Insert? then inv.(uid := UID(TickedClock(init, clock) + 1, siteId)) else inv]
  }

  lemma FreshenedOneMore(d: Doc, invs: seq<Op>, init: seq<Op>, inv: Op, op: Op)
    requires Freshened(d, invs, init) && Fills(d, init, inv, op)
    requires op.Insert? ==> op.uid != inv.uid && forall j :: 0 <= j < |invs| ==> op.uid != invs[j].uid
    requires forall i :: 0 <= i < |init| && init[i].Insert? ==> init[i].uid != inv.uid
    ensures Freshened(d, invs + [inv], init + [op])
  {
    var inverses, ops := invs + [inv], init + [op];
    forall i | 0 <= i < |ops|
      ensures FilledAt(d, inverses, ops, i)
    {
      if i < |init| {
        assert FilledAt(d, invs, init, i) && ops[..i] == init[..i];
      } else {
        assert ops[..i] == init;
      }
    }
    forall i, j | 0 <= i < |ops| && 0 <= j < |ops|
      ensures NotReused(inverses, ops, i, j)
    {
      assert i < |init| && j < |init| ==> NotReused(invs, init, i, j);
    }
  }

  lemma {:induction false} FreshenTicks(inverses: seq<Op>, clock: nat, siteId: string)
    ensures forall i :: 0 <= i < |inverses| && Freshen(inverses, clock, siteId)[i].Insert? ==>
      clock < Freshen(inverses, clock, siteId)[i].uid.clock <= TickedClock(inverses, clock)
  {
    if inverses != [] {
      var n := |inverses| - 1;
      FreshenTicks(inverses[..n], clock, siteId);
      var init, ops := Freshen(inverses[..n], clock, siteId), Freshen(inverses, clock, siteId);
      assert forall i :: 0 <= i < n ==> ops[i] == init[i];
    }
  }

  lemma InsertedTicks(ops: seq<Op>, c: nat)
    requires forall i :: 0 <= i < |ops| && ops[i].Insert? ==> ops[i].uid.clock <= c
    ensures forall u :: u in Inserted(OpsOf(ops)) ==> u.clock <= c
  {
  }

  /** A client whose clock bounds the list and the batch always fills the placeholders properly. */
  lemma {:induction false} FreshenIsFresh(d: Doc, inverses: seq<Op>, clock: nat, siteId: string)
    requires ClocksBounded(d, clock)
    requires forall i :: 0 <= i < |inverses| ==> inverses[i].uid.clock <= clock
    ensures Freshened(d, inverses, Freshen(inverses, clock, siteId))
  {
    if inverses != [] {
      var n := |inverses| - 1;
      var invs, inv := inverses[..n], inverses[n];
      FreshenIsFresh(d, invs, clock, siteId);
      FreshenTicks(invs, clock, siteId);
      var init, c := Freshen(invs, clock, siteId), TickedClock(invs, clock);
      InsertedTicks(init, c);
      var op := if inv.Insert? then inv.(uid := UID(c + 1, siteId)) else inv;
      assert forall j :: 0 <= j < |invs| ==> invs[j] == inverses[j];
      FreshenedOneMore(d, invs, init, inv, op);
      assert inverses == invs + [inv];
    }
  }

  // ----- the list an undo is meant to produce -----

  /** One visible copy directly left of the tombstone it stands for. */
  function CopyOf(e: Element, copies: map<UID, UID>): Doc {
    if e.uid in copies then [Element(copies[e.uid], e.value, false)] else []
  }

  function Hidden(e: Element, hidden: set<UID>): Element {
    e.(tombstoned := e.tombstoned || e.uid in hidden)
  }

  /** Every node of `d` stays in place; `hidden` ones are tombstoned and `copies` are put in. */
  function Undone(d: Doc, hidden: set<UID>, copies: map<UID, UID>): Doc {
    if d == [] then []
    else CopyOf(d[0], copies) + [Hidden(d[0], hidden)] + Undone(d[1..], hidden, copies)
  }

  lemma {:induction false} UndoneConcat(a: Doc, b: Doc, hidden: set<UID>, copies: map<UID, UID>)
    ensures Undone(a + b, hidden, copies) == Undone(a, hidden, copies) + Undone(b, hidden, copies)
  {
    if a == [] {
      assert a + b == b;
    } else {
      assert (a + b)[1..] == a[1..] + b;
      UndoneConcat(a[1..], b, hidden, copies);
      Associative(CopyOf(a[0], copies) + [Hidden(a[0], hidden)], Undone(a[1..], hidden, copies),
                  Undone(b, hidden, copies));
    }
  }

  lemma UndoneAt(d: Doc, i: nat, hidden: set<UID>, copies: map<UID, UID>)
    requires i < |d|
    ensures Undone(d, hidden, copies) ==
      Undone(d[..i], hidden, copies) + (CopyOf(d[i], copies) + [Hidden(d[i], hidden)]
        + Undone(d[i + 1..], hidden, copies))
  {
    var a, b := d[..i], d[i..];
    assert d == a + b && b[1..] == d[i + 1..];
    UndoneConcat(a, b, hidden, copies);
  }

  lemma UndoneEnds(d: Doc, i: nat, hidden: set<UID>, copies: map<UID, UID>)
    requires 0 < i <= |d|
    ensures var a := Undone(d[..i], hidden, copies); a != [] && a[|a| - 1].uid == d[i - 1].uid
  {
    UndoneAt(d[..i], i - 1, hidden, copies);
    assert d[..i][i..] == [];
  }

  /** Only the nodes themselves react to `hidden` and `copies`. */
  lemma {:induction false} UndoneLocal(d: Doc, hidden: set<UID>, copies: map<UID, UID>,
          hidden': set<UID>, copies': map<UID, UID>)
    requires forall e :: e in d ==> (e.uid in hidden <==> e.uid in hidden')
    requires forall e :: e in d ==> CopyOf(e, copies) == CopyOf(e, copies')
    ensures Undone(d, hidden, copies) == Undone(d, hidden', copies')
  {
    if d != [] {
      assert d[0] in d;
      UndoneLocal(d[1..], hidden, copies, hidden', copies');
    }
  }

  lemma {:induction false} UndoneUids(d: Doc, hidden: set<UID>, copies: map<UID, UID>, e: Element)
    requires e in Undone(d, hidden, copies)
    ensures Has(d, e.uid) || e.uid in copies.Values
  {
    if d != [] {
      var first, rest := CopyOf(d[0], copies) + [Hidden(d[0], hidden)], Undone(d[1..], hidden, copies);
      if e in first {
        if d[0].uid in copies && e.uid == copies[d[0].uid] {
          assert e.uid in copies.Values;
        } else {
          assert d[0].uid == e.uid;
        }
      } else {
        assert e in rest;
        UndoneUids(d[1..], hidden, copies, e);
        if Has(d[1..], e.uid) {
          var i := IndexOf(d[1..], e.uid);
          assert d[i + 1].uid == e.uid;
        }
      }
    }
  }

  lemma {:induction false} UndoneNothing(d: Doc)
    ensures Undone(d, {}, map[]) == d
  {
    if d != [] {
      UndoneNothing(d[1..]);
    }
  }

  // ----- one inverse operation -----

  lemma OthersLocal(d: Doc, i: nat, hidden: set<UID>, copies: map<UID, UID>, u: UID, f: UID)
    requires WellFormed(d) && i < |d| && d[i].uid == u
    ensures Undone(d[..i], hidden + {u}, copies) == Undone(d[..i], hidden, copies)
    ensures Undone(d[i + 1..], hidden + {u}, copies) == Undone(d[i + 1..], hidden, copies)
    ensures Undone(d[..i], hidden, copies[u := f]) == Undone(d[..i], hidden, copies)
    ensures Undone(d[i + 1..], hidden, copies[u := f]) == Undone(d[i + 1..], hidden, copies)
  {
    UndoneLocal(d[..i], hidden, copies, hidden + {u}, copies);
    UndoneLocal(d[i + 1..], hidden, copies, hidden + {u}, copies);
    UndoneLocal(d[..i], hidden, copies, hidden, copies[u := f]);
    UndoneLocal(d[i + 1..], hidden, copies, hidden, copies[u := f]);
  }

  /** The two sides of a node that hiding it leaves alone. */
  lemma HideSides(d: Doc, hidden: set<UID>, copies: map<UID, UID>, i: nat) returns (a: Doc, b: Doc)
    requires WellFormed(d) && i < |d|
    ensures Undone(d, hidden, copies) == a + [Hidden(d[i], hidden)] + b
    ensures Undone(d, hidden + {d[i].uid}, copies) == a + [Hidden(d[i], hidden + {d[i].uid})] + b
  {
    a, b := Undone(d[..i], hidden, copies) + CopyOf(d[i], copies), Undone(d[i + 1..], hidden, copies);
    UndoneAt(d, i, hidden, copies);
    UndoneAt(d, i, hidden + {d[i].uid}, copies);
    OthersLocal(d, i, hidden, copies, d[i].uid, d[i].uid);
    Regroup(Undone(d[..i], hidden, copies), CopyOf(d[i], copies), [Hidden(d[i], hidden)], b);
    Regroup(Undone(d[..i], hidden, copies), CopyOf(d[i], copies), [Hidden(d[i], hidden + {d[i].uid})], b);
  }

  lemma Regroup(a: Doc, b: Doc, c: Doc, d: Doc)
    ensures a + (b + c + d) == (a + b) + c + d == (a + b) + (c + d)
  {
  }

  lemma HideAbsent(d: Doc, hidden: set<UID>, copies: map<UID, UID>, u: UID)
    requires !Has(d, u) && u !in copies.Values
    ensures !Has(Undone(d, hidden, copies), u)
    ensures Undone(d, hidden + {u}, copies) == Undone(d, hidden, copies)
  {
    var now := Undone(d, hidden, copies);
    if Has(now, u) {
      UndoneUids(d, hidden, copies, now[IndexOf(now, u)]);
    }
    forall e | e in d
      ensures e.uid != u
    {
      var i :| 0 <= i < |d| && d[i] == e;
    }
    UndoneLocal(d, hidden, copies, hidden + {u}, copies);
  }

  /** Deleting an own insertion hides exactly it. */
  lemma HideStep(d: Doc, hidden: set<UID>, copies: map<UID, UID>, u: UID)
    requires WellFormed(d) && WellFormed(Undone(d, hidden, copies))
    requires u != ROOT_UID && u !in copies.Values
    ensures Step(Undone(d, hidden, copies), Delete(u)) == Undone(d, hidden + {u}, copies)
  {
    if Has(d, u) {
      var i := IndexOf(d, u);
      var a, b := HideSides(d, hidden, copies, i);
      ReplaceAt(Undone(d, hidden, copies), a, Hidden(d[i], hidden), b);
    } else {
      HideAbsent(d, hidden, copies, u);
    }
  }

  lemma ReplaceAt(now: Doc, a: Doc, e: Element, b: Doc)
    requires WellFormed(now) && now == a + [e] + b
    ensures IndexOf(now, e.uid) == |a|
    ensures ApplyDelete(now, e.uid).doc == a + [e.(tombstoned := true)] + b
  {
    assert now[|a|] == e;
    NodeIsAt(now, |a|);
    assert Has(now, e.uid);
  }

  /** The two sides of the gap in front of a node, where its copy goes. */
  lemma CopySides(d: Doc, hidden: set<UID>, copies: map<UID, UID>, i: nat, f: UID) returns (a: Doc, b: Doc)
    requires WellFormed(d) && i < |d| && d[i].uid !in copies
    ensures Undone(d, hidden, copies) == a + b
    ensures Undone(d, hidden, copies[d[i].uid := f]) == a + [Element(f, d[i].value, false)] + b
    ensures b != [] && b[0].uid == d[i].uid
    ensures LeftOf(d, i) == if a == [] then ROOT_UID else a[|a| - 1].uid
  {
    a, b := Undone(d[..i], hidden, copies), [Hidden(d[i], hidden)] + Undone(d[i + 1..], hidden, copies);
    UndoneAt(d, i, hidden, copies);
    UndoneAt(d, i, hidden, copies[d[i].uid := f]);
    OthersLocal(d, i, hidden, copies, d[i].uid, f);
    Regroup(a, CopyOf(d[i], copies), [Hidden(d[i], hidden)], Undone(d[i + 1..], hidden, copies));
    Regroup(a, [Element(f, d[i].value, false)], [Hidden(d[i], hidden)], Undone(d[i + 1..], hidden, copies));
    assert a + [] == a;
    if i > 0 {
      UndoneEnds(d, i, hidden, copies);
    }
  }

  /** Re-inserting a deleted node puts its copy directly left of the tombstone. */
  lemma CopyStep(d: Doc, hidden: set<UID>, copies: map<UID, UID>, i: nat, f: UID)
    requires WellFormed(d) && WellFormed(Undone(d, hidden, copies))
    requires i < |d| && d[i].uid !in copies && Fresh(d, copies.Values, f)
    ensures Step(Undone(d, hidden, copies), Insert(f, Some(LeftOf(d, i)), d[i].value)) ==
      Undone(d, hidden, copies[d[i].uid := f])
  {
    var a, b := CopySides(d, hidden, copies, i, f);
    FreshIsNew(d, hidden, copies, f);
    InsertBetween(a, b, Insert(f, Some(LeftOf(d, i)), d[i].value));
  }

  lemma FreshIsNew(d: Doc, hidden: set<UID>, copies: map<UID, UID>, f: UID)
    requires Fresh(d, copies.Values, f)
    ensures !Known(Undone(d, hidden, copies), f)
  {
    var now := Undone(d, hidden, copies);
    TotalOrder();
    if Has(now, f) {
      UndoneUids(d, hidden, copies, now[IndexOf(now, f)]);
    }
  }

  /** An INSERT above its right neighbour goes directly behind its anchor. */
  lemma InsertBetween(a: Doc, b: Doc, op: Op)
    requires WellFormed(a + b) && op.Insert? && !Known(a + b, op.uid)
    requires if a == [] then Anchor(op) == ROOT_UID else Anchor(op) == a[|a| - 1].uid
    requires b != [] && Less(b[0].uid, op.uid)
    ensures Step(a + b, op) == a + [Element(op.uid, op.value, false)] + b
  {
    var d := a + b;
    if a != [] {
      assert d[|a| - 1] == a[|a| - 1];
      NodeIsAt(d, |a| - 1);
      assert Has(d, Anchor(op));
    }
    assert GapAfter(d, Anchor(op)) == |a|;
    assert d[|a|] == b[0];
    assert ScanRight(d, |a|, op.uid) == |a|;
    assert d[..|a|] == a && d[|a|..] == b;
  }

  // ----- the whole undo -----

  function HiddenBy(ops: seq<Op>): set<UID> {
    Deleted(OpsOf(ops))
  }

  /** Which fresh uid each re-inserted node got. */
  ghost function CopiesBy(inverses: seq<Op>, ops: seq<Op>): map<UID, UID>
    requires |inverses| == |ops|
  {
    if ops == [] then map[]
    else
      var n := |ops| - 1;
      var before := CopiesBy(inverses[..n], ops[..n]);
      if ops[n].Insert? then before[inverses[n].uid := ops[n].uid] else before
  }

  /** The batch deletes no node twice. */
  ghost predicate DeletesOnce(batch: seq<Op>) {
    forall i, j :: 0 <= i < j < |batch| && batch[i].Delete? && batch[j].Delete? ==> batch[i].uid != batch[j].uid
  }

  /** Each inverse is a DELETE, or a re-insertion of a node of the list that no other one re-inserts. */
  ghost predicate ProperInverses(d: Doc, inverses: seq<Op>) {
    && (forall i :: 0 <= i < |inverses| ==> ProperInverse(d, inverses[i]))
    && (forall i, j :: 0 <= i < j < |inverses| && inverses[i].Insert? && inverses[j].Insert? ==>
      inverses[i].uid != inverses[j].uid)
  }

  ghost predicate ProperInverse(d: Doc, inv: Op) {
    match inv
    case Insert(u, after, value) =>
      exists i :: 0 <= i < |d| && d[i].uid == u && after == Some(LeftOf(d, i)) && value == d[i].value
    case Delete(u) => u != ROOT_UID
    case Rollback(_) => false
  }

  /** Every re-insertion stands for a DELETE of the batch. */
  ghost predicate FromBatch(inverses: seq<Op>, batch: seq<Op>) {
    forall i :: 0 <= i < |inverses| && inverses[i].Insert? ==> DeletedIn(batch, inverses[i].uid)
  }

  ghost predicate DeletedIn(batch: seq<Op>, u: UID) {
    exists j :: 0 <= j < |batch| && batch[j].Delete? && batch[j].uid == u
  }

  lemma DeletedInMore(init: seq<Op>, op: Op, u: UID)
    ensures DeletedIn(init + [op], u) <==> DeletedIn(init, u) || (op.Delete? && op.uid == u)
  {
    var batch := init + [op];
    assert batch[|init|] == op;
    if DeletedIn(init, u) {
      var j :| 0 <= j < |init| && init[j].Delete? && init[j].uid == u;
      assert batch[j] == init[j];
    }
  }

  lemma {:induction false} InversesAreProper(d: Doc, batch: seq<Op>)
    requires DeletesOnce(batch) && forall i :: 0 <= i < |batch| ==> batch[i].uid != ROOT_UID
    ensures ProperInverses(d, InverseOps(d, batch)) && FromBatch(InverseOps(d, batch), batch)
  {
    if batch != [] {
      var n := |batch| - 1;
      var init, op := batch[..n], batch[n];
      InversesAreProper(d, init);
      assert batch == init + [op];
      forall u
        ensures DeletedIn(batch, u) <==> DeletedIn(init, u) || (op.Delete? && op.uid == u)
        ensures op.Delete? && op.uid == u ==> !DeletedIn(init, u)
      {
        DeletedInMore(init, op, u);
      }
      FirstInverseFits(d, init, op, InverseOps(d, init));
    }
  }

  lemma FirstInverseFits(d: Doc, init: seq<Op>, op: Op, rest: seq<Op>)
    requires op.uid != ROOT_UID && ProperInverses(d, rest) && FromBatch(rest, init)
    requires op.Delete? ==> !DeletedIn(init, op.uid)
    ensures ProperInverses(d, InverseOf(d, op) + rest) && FromBatch(InverseOf(d, op) + rest, init + [op])
  {
    var first := InverseOf(d, op);
    var all := first + rest;
    forall i | 0 <= i < |all|
      ensures ProperInverse(d, all[i]) && (all[i].Insert? ==> DeletedIn(init + [op], all[i].uid))
    {
      DeletedInMore(init, op, all[i].uid);
      assert i >= |first| ==> all[i] == rest[i - |first|];
    }
    forall i, j | 0 <= i < j < |all| && all[i].Insert? && all[j].Insert?
      ensures all[i].uid != all[j].uid
    {
      assert all[j] == rest[j - |first|];
      assert i >= |first| ==> all[i] == rest[i - |first|];
    }
  }

  lemma {:induction false} CopiesKeys(inverses: seq<Op>, ops: seq<Op>)
    requires |inverses| == |ops| && forall i :: 0 <= i < |ops| ==> (ops[i].Insert? <==> inverses[i].Insert?)
    ensures forall u :: u in CopiesBy(inverses, ops) ==>
      exists i :: 0 <= i < |ops| && inverses[i].Insert? && inverses[i].uid == u
    ensures CopiesBy(inverses, ops).Values <= Inserted(OpsOf(ops))
  {
    if ops != [] {
      var n := |ops| - 1;
      CopiesKeys(inverses[..n], ops[..n]);
      OpsOfLast(ops);
      InsertedGrows(OpsOf(ops[..n]), ops[n]);
      forall u | u in CopiesBy(inverses, ops)
        ensures exists i :: 0 <= i < |ops| && inverses[i].Insert? && inverses[i].uid == u
      {
        if u in CopiesBy(inverses[..n], ops[..n]) {
          var i :| 0 <= i < n && inverses[..n][i].Insert? && inverses[..n][i].uid == u;
          assert inverses[i].uid == u;
        } else {
          assert inverses[n].uid == u;
        }
      }
    }
  }

  lemma {:induction false} UndoReplays(d: Doc, inverses: seq<Op>, ops: seq<Op>)
    requires WellFormed(d) && ProperInverses(d, inverses) && Freshened(d, inverses, ops)
    ensures Replay(d, ops) == Undone(d, HiddenBy(ops), CopiesBy(inverses, ops))
  {
    if ops == [] {
      UndoneNothing(d);
      assert OpsOf(ops) == {} && HiddenBy(ops) == {};
    } else {
      var n := |ops| - 1;
      var invs, init := inverses[..n], ops[..n];
      FreshenedPrefix(d, inverses, ops, n);
      UndoReplays(d, invs, init);
      KindsKept(d, invs, init);
      CopiesKeys(invs, init);
      ReplayWellFormed(d, init);
      OpsOfLast(ops);
      InsertedGrows(OpsOf(init), ops[n]);
      assert ProperInverse(d, inverses[n]) && FilledAt(d, inverses, ops, n);
      PlaceholderIsNew(d, inverses, ops, n);
      UndoLast(d, invs, init, inverses[n], ops[n]);
    }
  }

  /** Freshening touches the re-insertions only. */
  lemma KindsKept(d: Doc, inverses: seq<Op>, ops: seq<Op>)
    requires Freshened(d, inverses, ops)
    ensures forall i :: 0 <= i < |ops| ==>
      (ops[i].Insert? <==> inverses[i].Insert?) && (!inverses[i].Insert? ==> ops[i] == inverses[i])
  {
    forall i | 0 <= i < |ops|
      ensures (ops[i].Insert? <==> inverses[i].Insert?) && (!inverses[i].Insert? ==> ops[i] == inverses[i])
    {
      assert FilledAt(d, inverses, ops, i);
    }
  }

  lemma PlaceholderIsNew(d: Doc, inverses: seq<Op>, ops: seq<Op>, n: nat)
    requires Freshened(d, inverses, ops) && n < |ops|
    ensures inverses[n].uid !in Inserted(OpsOf(ops[..n]))
  {
    forall o | o in ops[..n] && o.Insert?
      ensures o.uid != inverses[n].uid
    {
      var i :| 0 <= i < n && ops[..n][i] == o;
      assert NotReused(inverses, ops, i, n);
    }
  }

  lemma FreshenedPrefix(d: Doc, inverses: seq<Op>, ops: seq<Op>, n: nat)
    requires Freshened(d, inverses, ops) && ProperInverses(d, inverses) && n <= |ops|
    ensures Freshened(d, inverses[..n], ops[..n]) && ProperInverses(d, inverses[..n])
  {
    var invs, init := inverses[..n], ops[..n];
    forall i | 0 <= i < n
      ensures FilledAt(d, invs, init, i)
    {
      assert FilledAt(d, inverses, ops, i) && init[..i] == ops[..i];
    }
    forall i, j | 0 <= i < n && 0 <= j < n
      ensures NotReused(invs, init, i, j)
    {
      assert NotReused(inverses, ops, i, j);
    }
    forall i | 0 <= i < n
      ensures ProperInverse(d, invs[i])
    {
      assert ProperInverse(d, inverses[i]);
    }
  }

  lemma UndoLast(d: Doc, invs: seq<Op>, init: seq<Op>, inv: Op, op: Op)
    requires |invs| == |init| && WellFormed(d) && ProperInverse(d, inv)
    requires WellFormed(Undone(d, HiddenBy(init), CopiesBy(invs, init)))
    requires CopiesBy(invs, init).Values <= Inserted(OpsOf(init))
    requires forall u :: u in CopiesBy(invs, init) ==>
      exists i :: 0 <= i < |invs| && invs[i].Insert? && invs[i].uid == u
    requires inv.Insert? ==> forall i :: 0 <= i < |invs| && invs[i].Insert? ==> invs[i].uid != inv.uid
    requires Fills(d, init, inv, op)
    requires inv.uid !in Inserted(OpsOf(init))
    ensures var copies := if inv.Insert? then CopiesBy(invs, init)[inv.uid := op.uid] else CopiesBy(invs, init);
      Step(Undone(d, HiddenBy(init), CopiesBy(invs, init)), op) ==
        Undone(d, HiddenBy(init) + (if op.Delete? then {op.uid} else {}), copies)
  {
    var hidden, copies := HiddenBy(init), CopiesBy(invs, init);
    if inv.Insert? {
      var i :| 0 <= i < |d| && d[i].uid == inv.uid && inv.after == Some(LeftOf(d, i)) && inv.value == d[i].value;
      CopyStep(d, hidden, copies, i, op.uid);
      assert hidden + {} == hidden;
    } else {
      HideStep(d, hidden, copies, inv.uid);
    }
  }

  // ----- what others see -----

  lemma OpsOfJoin(a: seq<Op>, b: seq<Op>)
    ensures OpsOf(a + b) == OpsOf(a) + OpsOf(b)
  {
  }

  lemma InverseSetsOne(d: Doc, op: Op)
    requires !op.Rollback?
    ensures Deleted(OpsOf(InverseOf(d, op))) == Inserted({op})
    ensures Inserted(OpsOf(InverseOf(d, op))) == Deleted({op}) * (UidSet(Ids(d)) + {ROOT_UID})
  {
  }

  /** Undo deletes exactly what the batch inserted and re-inserts what it deleted, as far as it is still there. */
  lemma {:induction false} InverseSets(d: Doc, batch: seq<Op>)
    requires forall i :: 0 <= i < |batch| ==> !batch[i].Rollback?
    ensures Deleted(OpsOf(InverseOps(d, batch))) == Inserted(OpsOf(batch))
    ensures Inserted(OpsOf(InverseOps(d, batch))) == Deleted(OpsOf(batch)) * (UidSet(Ids(d)) + {ROOT_UID})
  {
    if batch != [] {
      var n := |batch| - 1;
      InverseSets(d, batch[..n]);
      InverseSetsOne(d, batch[n]);
      OpsOfLast(batch);
      OpsOfJoin(InverseOf(d, batch[n]), InverseOps(d, batch[..n]));
      InsertedUnion(OpsOf(InverseOf(d, batch[n])), OpsOf(InverseOps(d, batch[..n])));
      InsertedUnion(OpsOf(batch[..n]), {batch[n]});
    } else {
      assert OpsOf(batch) == {};
      assert Deleted({}) == {} && Inserted({}) == {};
    }
  }

  lemma {:induction false} FreshenedSets(d: Doc, inverses: seq<Op>, ops: seq<Op>)
    requires Freshened(d, inverses, ops) && ProperInverses(d, inverses)
    ensures Deleted(OpsOf(ops)) == Deleted(OpsOf(inverses))
    ensures CopiesBy(inverses, ops).Keys == Inserted(OpsOf(inverses))
  {
    if ops == [] {
      assert OpsOf(ops) == {} && OpsOf(inverses) == {};
      assert Deleted({}) == {} && Inserted({}) == {};
    } else {
      var n := |ops| - 1;
      FreshenedPrefix(d, inverses, ops, n);
      FreshenedSets(d, inverses[..n], ops[..n]);
      OpsOfLast(ops);
      OpsOfLast(inverses);
      InsertedGrows(OpsOf(ops[..n]), ops[n]);
      InsertedGrows(OpsOf(inverses[..n]), inverses[n]);
      assert ProperInverse(d, inverses[n]);
      KindsKept(d, inverses, ops);
    }
  }

  /**
   * Undo keeps others' work. Whatever the list has become since the batch, applying the inverse
   * operations with fresh uids hides exactly the nodes the batch inserted, puts one visible copy directly
   * left of the tombstone of each node it deleted, and touches nothing else.
   */
  lemma UndoKeepsOthersWork(d: Doc, batch: seq<Op>, ops: seq<Op>)
    requires WellFormed(d) && DeletesOnce(batch)
    requires forall i :: 0 <= i < |batch| ==> batch[i].uid != ROOT_UID && !batch[i].Rollback?
    requires Freshened(d, InverseOps(d, batch), ops)
    ensures var copies := CopiesBy(InverseOps(d, batch), ops);
      && copies.Keys == Deleted(OpsOf(batch)) * UidSet(Ids(d))
      && Replay(d, ops) == Undone(d, Inserted(OpsOf(batch)), copies)
  {
    InversesAreProper(d, batch);
    InverseSets(d, batch);
    FreshenedSets(d, InverseOps(d, batch), ops);
    UndoReplays(d, InverseOps(d, batch), ops);
  }

  // ----- sending an undo to the server -----

  /** The site ids and values an undo message is made of. */
  ghost predicate Sendable(d: Doc, batch: seq<Op>, ops: seq<Op>) {
    && (forall i :: 0 <= i < |d| ==> IsUuid(d[i].uid.siteId) && IsTypeable(d[i].value))
    && (forall i :: 0 <= i < |batch| ==> IsUuid(batch[i].uid.siteId))
    && (forall i :: 0 <= i < |ops| && ops[i].Insert? ==> IsUuid(ops[i].uid.siteId))
  }

  /** A re-insertion is admitted unless the node it stands for is the first of the list. */
  lemma CopyIsAdmittedIff(d: Doc, inv: Op, op: Op)
    requires WellFormed(d) && inv.Insert? && ProperInverse(d, inv) && op == inv.(uid := op.uid)
    requires IsUuid(op.uid.siteId)
    requires forall i :: 0 <= i < |d| ==> IsUuid(d[i].uid.siteId) && IsTypeable(d[i].value)
    ensures Admitted(op) <==> d[0].uid != inv.uid
  {
    assert !IsUuid(ROOT_UID.siteId);
    var i :| 0 <= i < |d| && d[i].uid == inv.uid && inv.after == Some(LeftOf(d, i)) && inv.value == d[i].value;
    assert i == 0 <==> d[0].uid == inv.uid;
  }

  /**
   * Exactly when the server admits every operation of an undo: when the batch did not delete the node
   * that is first in the list. The copy of that node is anchored at the root, which no message may name.
   */
  lemma UndoIsAdmittedIff(d: Doc, batch: seq<Op>, ops: seq<Op>)
    requires WellFormed(d) && DeletesOnce(batch)
    requires forall i :: 0 <= i < |batch| ==> batch[i].uid != ROOT_UID && !batch[i].Rollback?
    requires Freshened(d, InverseOps(d, batch), ops) && Sendable(d, batch, ops)
    ensures (forall i :: 0 <= i < |ops| ==> Admitted(ops[i])) <==>
      d == [] || d[0].uid !in Deleted(OpsOf(batch))
  {
    var inverses := InverseOps(d, batch);
    InversesAreProper(d, batch);
    InverseSets(d, batch);
    KindsKept(d, inverses, ops);
    forall i | 0 <= i < |ops|
      ensures Admitted(ops[i]) <==> !inverses[i].Insert? || d[0].uid != inverses[i].uid
      ensures inverses[i].Insert? ==> d != [] && inverses[i].uid in Deleted(OpsOf(batch))
    {
      assert inverses[i] in OpsOf(inverses) && ProperInverse(d, inverses[i]);
      if inverses[i].Insert? {
        assert FilledAt(d, inverses, ops, i);
        CopyIsAdmittedIff(d, inverses[i], ops[i]);
        assert inverses[i].uid in Inserted(OpsOf(inverses));
      } else {
        assert inverses[i].uid in Deleted(OpsOf(inverses));
        TargetIsSendable(batch, inverses[i].uid);
      }
    }
    if d != [] && d[0].uid in Deleted(OpsOf(batch)) {
      assert d[0].uid == Ids(d)[0];
      assert d[0].uid in Inserted(OpsOf(inverses));
      var o :| o in inverses && o.Insert? && o.uid == d[0].uid;
      var i :| 0 <= i < |inverses| && inverses[i] == o;
      assert !Admitted(ops[i]);
    }
  }

  /** Deleting the only character of a document and undoing that: the server refuses the copy. */
  lemma UndoOfFirstExample()
    ensures var u := UID(1, SAMPLE_UUID);
      var d, batch := [Element(u, "x", true)], [Delete(u)];
      var ops := Freshen(InverseOps(d, batch), 1, SAMPLE_UUID);
      Admitted(batch[0]) && |ops| == 1 && !Admitted(ops[0])
  {
    SampleIsUuid();
    UndoOfFirst(SAMPLE_UUID);
  }

  lemma UndoOfFirst(site: string)
    requires IsUuid(site)
    ensures var u := UID(1, site);
      var d, batch := [Element(u, "x", true)], [Delete(u)];
      var ops := Freshen(InverseOps(d, batch), 1, site);
      ops == [Insert(UID(2, site), Some(ROOT_UID), "x")] && !Admitted(ops[0])
  {
    var u := UID(1, site);
    var d, batch := [Element(u, "x", true)], [Delete(u)];
    var inverse := Insert(u, Some(ROOT_UID), "x");
    assert d[0].uid == u && Has(d, u);
    assert batch[..0] == [] && InverseOps(d, batch) == [inverse] + [];
    assert [inverse][..0] == [];
    assert !IsUuid(ROOT_UID.siteId);
  }

  lemma TargetIsSendable(batch: seq<Op>, u: UID)
    requires u in Inserted(OpsOf(batch)) && forall i :: 0 <= i < |batch| ==> IsUuid(batch[i].uid.siteId)
    ensures IsUuid(u.siteId)
  {
  }

  // ----- getting the old text back -----

  /** `d` without what the batch inserted and with what it deleted visible again. */
  function Reverted(d: Doc, inserted: set<UID>, deleted: set<UID>): Doc {
    if d == [] then [] else RevertedOne(d[0], inserted, deleted) + Reverted(d[1..], inserted, deleted)
  }

  function RevertedOne(e: Element, inserted: set<UID>, deleted: set<UID>): Doc {
    if e.uid in inserted then []
    else if e.uid in deleted then [e.(tombstoned := false)]
    else [e]
  }

  lemma {:induction false} RevertedConcat(a: Doc, b: Doc, inserted: set<UID>, deleted: set<UID>)
    ensures Reverted(a + b, inserted, deleted) == Reverted(a, inserted, deleted) + Reverted(b, inserted, deleted)
  {
    if a == [] {
      assert a + b == b;
    } else {
      assert (a + b)[1..] == a[1..] + b;
      RevertedConcat(a[1..], b, inserted, deleted);
      Associative(RevertedOne(a[0], inserted, deleted), Reverted(a[1..], inserted, deleted),
                  Reverted(b, inserted, deleted));
    }
  }

  lemma RevertedInsert(d: Doc, q: nat, e: Element, inserted: set<UID>, deleted: set<UID>)
    requires q <= |d| && e.uid in inserted
    ensures Reverted(InsertAt(d, q, e), inserted, deleted) == Reverted(d, inserted, deleted)
  {
    var a, b := d[..q], d[q..];
    assert d == a + b && InsertAt(d, q, e) == a + ([e] + b) && ([e] + b)[1..] == b;
    RevertedConcat(a, b, inserted, deleted);
    RevertedConcat(a, [e] + b, inserted, deleted);
  }

  lemma RevertedDelete(d: Doc, i: nat, inserted: set<UID>, deleted: set<UID>)
    requires i < |d| && d[i].uid in deleted
    ensures Reverted(d[i := d[i].(tombstoned := true)], inserted, deleted) == Reverted(d, inserted, deleted)
  {
    var a, b, e := d[..i], d[i + 1..], d[i].(tombstoned := true);
    assert d == a + ([d[i]] + b) && d[i := e] == a + ([e] + b);
    assert ([d[i]] + b)[1..] == b && ([e] + b)[1..] == b;
    RevertedConcat(a, [d[i]] + b, inserted, deleted);
    RevertedConcat(a, [e] + b, inserted, deleted);
  }

  lemma {:induction false} RevertedNothing(d: Doc, inserted: set<UID>, deleted: set<UID>)
    requires forall e :: e in d ==> e.uid !in inserted && (e.uid in deleted ==> !e.tombstoned)
    ensures Reverted(d, inserted, deleted) == d
  {
    if d != [] {
      assert d[0] in d;
      RevertedNothing(d[1..], inserted, deleted);
    }
  }

  /** A batch typed at one client: each INSERT is new and has its anchor, each DELETE hits a visible node. */
  ghost predicate LocalBatch(d: Doc, batch: seq<Op>)
    decreases |batch|
  {
    batch == [] ||
    (var init, op := batch[..|batch| - 1], batch[|batch| - 1];
     var now := Replay(d, init);
     && LocalBatch(d, init)
     && match op
        case Insert(u, _, value) => !Known(now, u) && Known(now, Anchor(op)) && value != ""
        case Delete(u) => u != ROOT_UID && Has(now, u) && !now[IndexOf(now, u)].tombstoned
        case Rollback(_) => false)
  }

  /** How one list has developed into another: nodes stay, values stay, tombstones stay. */
  ghost predicate Develops(d: Doc, d': Doc) {
    forall e :: e in d ==> Has(d', e.uid) && (e.tombstoned ==> d'[IndexOf(d', e.uid)].tombstoned)
  }

  lemma ShiftedPlace<T>(s: seq<T>, q: nat, x: T, i: nat)
    requires q <= |s| && i < |s|
    ensures InsertAt(s, q, x)[if i < q then i else i + 1] == s[i]
  {
  }

  lemma StepDevelops(d: Doc, op: Op)
    requires WellFormed(d)
    ensures Develops(d, Step(d, op))
  {
    var d' := Step(d, op);
    StepWellFormed(d, op);
    forall e | e in d
      ensures Has(d', e.uid) && (e.tombstoned ==> d'[IndexOf(d', e.uid)].tombstoned)
    {
      var i :| 0 <= i < |d| && d[i] == e;
      if op.Insert? && !Known(d, op.uid) && Known(d, Anchor(op)) {
        var q := ScanRight(d, GapAfter(d, Anchor(op)), op.uid);
        ShiftedPlace(d, q, Element(op.uid, op.value, false), i);
        NodeIsAt(d', if i < q then i else i + 1);
      } else {
        assert d'[i].uid == e.uid;
        NodeIsAt(d', i);
      }
    }
  }

  lemma {:induction false} ReplayDevelops(d: Doc, ops: seq<Op>)
    requires WellFormed(d)
    ensures Develops(d, Replay(d, ops))
  {
    if ops == [] {
      forall e | e in d
        ensures Has(d, e.uid) && d[IndexOf(d, e.uid)] == e
      {
        var i :| 0 <= i < |d| && d[i] == e;
        NodeIsAt(d, i);
      }
    } else {
      var init := ops[..|ops| - 1];
      ReplayDevelops(d, init);
      ReplayWellFormed(d, init);
      StepDevelops(Replay(d, init), ops[|ops| - 1]);
    }
  }

  /** What a local batch inserts was not there before, and what it deletes was visible. */
  lemma {:induction false} BatchBase(d: Doc, batch: seq<Op>, e: Element)
    requires WellFormed(d) && LocalBatch(d, batch) && e in d
    ensures e.uid !in Inserted(OpsOf(batch))
    ensures e.uid in Deleted(OpsOf(batch)) ==> !e.tombstoned
    decreases |batch|
  {
    if batch != [] {
      var n := |batch| - 1;
      BatchBase(d, batch[..n], e);
      ReplayDevelops(d, batch[..n]);
      OpsOfLast(batch);
      InsertedGrows(OpsOf(batch[..n]), batch[n]);
    }
  }

  /** Taking a local batch back, node by node, gives the list it started from. */
  lemma {:induction false} BatchReverts(d: Doc, batch: seq<Op>, inserted: set<UID>, deleted: set<UID>)
    requires WellFormed(d) && LocalBatch(d, batch)
    requires Inserted(OpsOf(batch)) <= inserted && Deleted(OpsOf(batch)) <= deleted
    requires forall e :: e in d ==> e.uid !in inserted && (e.uid in deleted ==> !e.tombstoned)
    ensures Reverted(Replay(d, batch), inserted, deleted) == d
    decreases |batch|
  {
    if batch == [] {
      RevertedNothing(d, inserted, deleted);
    } else {
      var n := |batch| - 1;
      var op, now := batch[n], Replay(d, batch[..n]);
      OpsOfLast(batch);
      InsertedGrows(OpsOf(batch[..n]), op);
      BatchReverts(d, batch[..n], inserted, deleted);
      if op.Insert? {
        RevertedInsert(now, ScanRight(now, GapAfter(now, Anchor(op)), op.uid),
                       Element(op.uid, op.value, false), inserted, deleted);
      } else {
        RevertedDelete(now, IndexOf(now, op.uid), inserted, deleted);
      }
    }
  }

  /** After a local batch: its deletes are tombstones, its inserts are there and not empty. */
  ghost predicate BatchDone(d: Doc, batch: seq<Op>) {
    && (forall u :: u in Deleted(OpsOf(batch)) ==> Has(d, u) && d[IndexOf(d, u)].tombstoned)
    && (forall u :: u in Inserted(OpsOf(batch)) ==> Has(d, u) && d[IndexOf(d, u)].value != "")
  }

  lemma DoneDevelops(d: Doc, op: Op, u: UID)
    requires WellFormed(d) && Has(d, u)
    ensures Has(Step(d, op), u)
    ensures var e, e' := d[IndexOf(d, u)], Step(d, op)[IndexOf(Step(d, op), u)];
      e'.value == e.value && (e.tombstoned ==> e'.tombstoned)
  {
    var i := IndexOf(d, u);
    var d' := Step(d, op);
    StepWellFormed(d, op);
    if op.Insert? && !Known(d, op.uid) && Known(d, Anchor(op)) {
      var q := ScanRight(d, GapAfter(d, Anchor(op)), op.uid);
      ShiftedPlace(d, q, Element(op.uid, op.value, false), i);
      NodeIsAt(d', if i < q then i else i + 1);
    } else {
      assert d'[i].uid == u;
      NodeIsAt(d', i);
    }
  }

  lemma AppliedHere(d: Doc, op: Op)
    requires WellFormed(d) && op.uid != ROOT_UID && Apply(d, op).applied
    ensures Has(Step(d, op), op.uid)
    ensures var e := Step(d, op)[IndexOf(Step(d, op), op.uid)];
      && (op.Delete? ==> e.tombstoned)
      && (op.Insert? && !Known(d, op.uid) ==> e.value == op.value)
  {
    var d' := Step(d, op);
    StepWellFormed(d, op);
    if op.Insert? && !Known(d, op.uid) {
      var q := ScanRight(d, GapAfter(d, Anchor(op)), op.uid);
      assert d'[q] == Element(op.uid, op.value, false);
      NodeIsAt(d', q);
    } else if op.Delete? {
      var i := IndexOf(d, op.uid);
      assert d'[i] == d[i].(tombstoned := true);
      NodeIsAt(d', i);
    }
  }

  lemma {:induction false} BatchIsDone(d: Doc, batch: seq<Op>)
    requires WellFormed(d) && LocalBatch(d, batch)
    ensures BatchDone(Replay(d, batch), batch)
    decreases |batch|
  {
    if batch == [] {
      assert OpsOf(batch) == {};
    } else {
      var n := |batch| - 1;
      var op, now := batch[n], Replay(d, batch[..n]);
      var next := Step(now, op);
      BatchIsDone(d, batch[..n]);
      ReplayWellFormed(d, batch[..n]);
      OpsOfLast(batch);
      InsertedGrows(OpsOf(batch[..n]), op);
      AppliedHere(now, op);
      forall u | u in Deleted(OpsOf(batch[..n])) || u in Inserted(OpsOf(batch[..n]))
        ensures Has(next, u) && next[IndexOf(next, u)].value == now[IndexOf(now, u)].value
        ensures now[IndexOf(now, u)].tombstoned ==> next[IndexOf(next, u)].tombstoned
      {
        DoneDevelops(now, op, u);
      }
    }
  }

  /** The last operation of a local batch deletes a node no earlier one deleted. */
  lemma LastDeleteIsNew(d: Doc, batch: seq<Op>)
    requires WellFormed(d) && LocalBatch(d, batch) && batch != []
    ensures var init, op := batch[..|batch| - 1], batch[|batch| - 1];
      && op.uid != ROOT_UID && !op.Rollback?
      && (op.Delete? ==> op.uid !in Deleted(OpsOf(init)))
  {
    BatchIsDone(d, batch[..|batch| - 1]);
  }

  lemma {:induction false} LocalBatchDeletesOnce(d: Doc, batch: seq<Op>)
    requires WellFormed(d) && LocalBatch(d, batch)
    ensures DeletesOnce(batch)
    ensures forall i :: 0 <= i < |batch| ==> batch[i].uid != ROOT_UID && !batch[i].Rollback?
    decreases |batch|
  {
    if batch != [] {
      var init, op := batch[..|batch| - 1], batch[|batch| - 1];
      LocalBatchDeletesOnce(d, init);
      LastDeleteIsNew(d, batch);
      DeletesOneMore(init, op);
      assert batch == init + [op];
    }
  }

  lemma DeletesOneMore(init: seq<Op>, op: Op)
    requires DeletesOnce(init) && forall i :: 0 <= i < |init| ==> init[i].uid != ROOT_UID && !init[i].Rollback?
    requires op.uid != ROOT_UID && !op.Rollback? && (op.Delete? ==> op.uid !in Deleted(OpsOf(init)))
    ensures DeletesOnce(init + [op])
    ensures forall i :: 0 <= i < |init + [op]| ==> (init + [op])[i].uid != ROOT_UID && !(init + [op])[i].Rollback?
  {
    assert forall i :: 0 <= i < |init| ==> init[i] in OpsOf(init);
  }

  /** Comparing texts: undo shows the reverted list, plus a copy of every node the batch both made and removed. */
  lemma {:induction false} UndoneText(d: Doc, inserted: set<UID>, deleted: set<UID>, copies: map<UID, UID>)
    requires forall e :: e in d ==> (e.uid in copies <==> e.uid in deleted) && (e.uid in deleted ==> e.tombstoned)
    ensures |Text(Undone(d, inserted, copies))| >= |Text(Reverted(d, inserted, deleted))|
    ensures (forall e :: e in d ==> !(e.uid in inserted && e.uid in deleted)) ==>
      Text(Undone(d, inserted, copies)) == Text(Reverted(d, inserted, deleted))
    ensures (exists e :: e in d && e.uid in inserted && e.uid in deleted && e.value != "") ==>
      |Text(Undone(d, inserted, copies))| > |Text(Reverted(d, inserted, deleted))|
  {
    if d != [] {
      var e, rest := d[0], d[1..];
      assert e in d && forall x :: x in d <==> x == e || x in rest;
      UndoneText(rest, inserted, deleted, copies);
      TextConcat(CopyOf(e, copies) + [Hidden(e, inserted)], Undone(rest, inserted, copies));
      TextConcat(CopyOf(e, copies), [Hidden(e, inserted)]);
      TextConcat(RevertedOne(e, inserted, deleted), Reverted(rest, inserted, deleted));
      TextOfOne(e, inserted, deleted, copies);
    }
  }

  lemma TextOfOne(e: Element, inserted: set<UID>, deleted: set<UID>, copies: map<UID, UID>)
    requires (e.uid in copies <==> e.uid in deleted) && (e.uid in deleted ==> e.tombstoned)
    ensures Text(CopyOf(e, copies)) + Text([Hidden(e, inserted)]) ==
      Text(RevertedOne(e, inserted, deleted)) + if e.uid in inserted && e.uid in deleted then e.value else ""
  {
  }

  /**
   * With no other edits in between, undo brings the old text back exactly when the batch did not
   * delete anything it had inserted itself. (Typing a character and erasing it within one batch, then
   * undoing, makes that character appear.)
   */
  lemma UndoRestoresTextIff(d: Doc, batch: seq<Op>, ops: seq<Op>)
    requires WellFormed(d) && LocalBatch(d, batch)
    requires Freshened(Replay(d, batch), InverseOps(Replay(d, batch), batch), ops)
    ensures Text(Replay(Replay(d, batch), ops)) == Text(d) <==>
      Inserted(OpsOf(batch)) * Deleted(OpsOf(batch)) == {}
  {
    var after, inserted, deleted := Replay(d, batch), Inserted(OpsOf(batch)), Deleted(OpsOf(batch));
    var copies := CopiesBy(InverseOps(after, batch), ops);
    ReplayWellFormed(d, batch);
    LocalBatchDeletesOnce(d, batch);
    UndoKeepsOthersWork(after, batch, ops);
    BatchRevertsToStart(d, batch);
    BatchIsDone(d, batch);
    MembersAreIndexed(after, inserted, deleted, copies);
    UndoneText(after, inserted, deleted, copies);
    ClashIsVisible(after, batch);
  }

  /** Undoing a batch that deleted one of its own insertions changes the text, with the uids a client would use. */
  lemma UndoOfErasedTyping(d: Doc, batch: seq<Op>, clock: nat, siteId: string)
    requires WellFormed(d) && LocalBatch(d, batch) && Inserted(OpsOf(batch)) * Deleted(OpsOf(batch)) != {}
    requires ClocksBounded(Replay(d, batch), clock)
    requires forall i :: 0 <= i < |batch| ==> batch[i].uid.clock <= clock
    ensures var inverses := InverseOps(Replay(d, batch), batch);
      var ops := Freshen(inverses, clock, siteId);
      Freshened(Replay(d, batch), inverses, ops) && Text(Replay(Replay(d, batch), ops)) != Text(d)
  {
    var inverses := InverseOps(Replay(d, batch), batch);
    forall i | 0 <= i < |inverses|
      ensures inverses[i].uid.clock <= clock
    {
      InverseNames(Replay(d, batch), batch, i);
    }
    FreshenIsFresh(Replay(d, batch), inverses, clock, siteId);
    UndoRestoresTextIff(d, batch, Freshen(inverses, clock, siteId));
  }

  /** An inverse names the node its operation named. */
  lemma {:induction false} InverseNames(d: Doc, batch: seq<Op>, i: nat)
    requires i < |InverseOps(d, batch)|
    ensures exists j :: 0 <= j < |batch| && InverseOps(d, batch)[i].uid == batch[j].uid
  {
    var n := |batch| - 1;
    var first := InverseOf(d, batch[n]);
    if i >= |first| {
      InverseNames(d, batch[..n], i - |first|);
    }
  }

  /** One such batch: a character typed into the empty document and erased again. Undo brings it back. */
  lemma ErasedTypingExample()
    ensures var u := UID(1, "a");
      var batch := [Insert(u, None, "x"), Delete(u)];
      var ops := Freshen(InverseOps(Replay([], batch), batch), 1, "a");
      && Text(Replay([], batch)) == "" && Text(Replay(Replay([], batch), ops)) != ""
  {
    var u := UID(1, "a");
    var batch := [Insert(u, None, "x"), Delete(u)];
    TypedAndErased(u);
    UndoOfErasedTyping([], batch, 1, "a");
  }

  lemma TypedAndErased(u: UID)
    requires u != ROOT_UID
    ensures var batch := [Insert(u, None, "x"), Delete(u)];
      && LocalBatch([], batch) && Replay([], batch) == [Element(u, "x", true)]
      && u in Inserted(OpsOf(batch)) * Deleted(OpsOf(batch))
  {
    var typed, erased := Insert(u, None, "x"), Delete(u);
    var now := [Element(u, "x", false)];
    assert [typed, erased][..1] == [typed] && [typed][..0] == [];
    assert Replay([], [typed]) == Step([], typed) == now;
    assert now[0].uid == u && Has(now, u);
    assert LocalBatch([], [typed]);
    assert typed in OpsOf([typed, erased]) && erased in OpsOf([typed, erased]);
  }

  lemma BatchRevertsToStart(d: Doc, batch: seq<Op>)
    requires WellFormed(d) && LocalBatch(d, batch)
    ensures Reverted(Replay(d, batch), Inserted(OpsOf(batch)), Deleted(OpsOf(batch))) == d
  {
    forall e | e in d
      ensures e.uid !in Inserted(OpsOf(batch)) && (e.uid in Deleted(OpsOf(batch)) ==> !e.tombstoned)
    {
      BatchBase(d, batch, e);
    }
    BatchReverts(d, batch, Inserted(OpsOf(batch)), Deleted(OpsOf(batch)));
  }

  lemma ClashIsVisible(d: Doc, batch: seq<Op>)
    requires BatchDone(d, batch)
    ensures var inserted, deleted := Inserted(OpsOf(batch)), Deleted(OpsOf(batch));
      && (inserted * deleted == {} ==> forall e :: e in d ==> !(e.uid in inserted && e.uid in deleted))
      && (inserted * deleted != {} ==> exists e :: e in d && e.uid in inserted && e.uid in deleted && e.value != "")
  {
    var inserted, deleted := Inserted(OpsOf(batch)), Deleted(OpsOf(batch));
    forall u | u in inserted * deleted
      ensures exists e :: e in d && e.uid in inserted && e.uid in deleted && e.value != ""
    {
      var e := d[IndexOf(d, u)];
      assert e in d;
    }
    assert forall e :: e in d && e.uid in inserted && e.uid in deleted ==> e.uid in inserted * deleted;
  }

  lemma MembersAreIndexed(d: Doc, inserted: set<UID>, deleted: set<UID>, copies: map<UID, UID>)
    requires WellFormed(d) && copies.Keys == deleted * UidSet(Ids(d))
    requires forall u :: u in deleted ==> Has(d, u) && d[IndexOf(d, u)].tombstoned
    ensures forall e :: e in d ==> (e.uid in copies <==> e.uid in deleted) && (e.uid in deleted ==> e.tombstoned)
  {
  }
}
