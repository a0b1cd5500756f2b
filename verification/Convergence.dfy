/** Strong convergence: a replica's list is a function of the set of operations it has applied. */
module Convergence {
  import opened Uids
  import opened Rga
  import opened Shape

  // ----- sets of operations -----

  function OpsOf(s: seq<Op>): set<Op> {
    set op | op in s
  }

  ghost predicate OpOk(o: Op) {
    !o.Rollback? && o.uid != ROOT_UID && (o.Insert? ==> Less(Anchor(o), o.uid))
  }

  ghost predicate Compatible(o: Op, p: Op) {
    o.Insert? && p.Insert? && o.uid == p.uid ==> o == p
  }

  /** What every replica assumes of the operations in circulation: one INSERT per uid, each above its anchor. */
  ghost predicate WellFormedOps(ops: set<Op>) {
    && (forall o {:trigger OpOk(o)} :: o in ops ==> OpOk(o))
    && (forall o, p {:trigger Compatible(o, p)} :: o in ops && p in ops ==> Compatible(o, p))
  }

  lemma WellFormedMeans(ops: set<Op>)
    requires WellFormedOps(ops)
    ensures forall o :: o in ops ==> !o.Rollback? && o.uid != ROOT_UID
    ensures forall o :: o in ops && o.Insert? ==> Less(Anchor(o), o.uid)
    ensures forall o, p :: o in ops && p in ops && o.Insert? && p.Insert? && o.uid == p.uid ==> o == p
  {
    forall o | o in ops
      ensures OpOk(o)
    {
    }
    forall o, p | o in ops && p in ops
      ensures Compatible(o, p)
    {
    }
  }

  lemma WellFormedOne(ops: set<Op>, op: Op)
    requires WellFormedOps(ops) && op in ops
    ensures !op.Rollback? && op.uid != ROOT_UID && (op.Insert? ==> Less(Anchor(op), op.uid))
  {
    WellFormedMeans(ops);
  }

  function Inserted(ops: set<Op>): set<UID> {
    set o | o in ops && o.Insert? :: o.uid
  }

  function Deleted(ops: set<Op>): set<UID> {
    set o | o in ops && o.Delete? :: o.uid
  }

  /** The one INSERT that created `u`. */
  ghost function InsertOf(ops: set<Op>, u: UID): (o: Op)
    requires u in Inserted(ops)
    ensures o in ops && o.Insert? && o.uid == u
  {
    var o :| o in ops && o.Insert? && o.uid == u;
    o
  }

  ghost function Anchors(ops: set<Op>): map<UID, UID> {
    map u | u in Inserted(ops) :: Anchor(InsertOf(ops, u))
  }

  /** The nodes an operation needs are among those inserted by `ops`. */
  predicate DepsMet(ops: set<Op>, op: Op) {
    match op
    case Insert(_, _, _) => Anchor(op) == ROOT_UID || Anchor(op) in Inserted(ops)
    case Delete(u) => u in Inserted(ops)
    case Rollback(_) => false
  }

  // ----- the state a set of operations stands for -----

  ghost predicate ElementOk(e: Element, ops: set<Op>) {
    && e.uid in Inserted(ops)
    && e.value == InsertOf(ops, e.uid).value
    && (e.tombstoned <==> e.uid in Deleted(ops))
  }

  /** `d` is the state in which exactly `ops` have been applied. */
  ghost predicate Represents(d: Doc, ops: set<Op>) {
    && WellFormed(d)
    && UidSet(Ids(d)) == Inserted(ops) && Deleted(ops) <= Inserted(ops)
    && Shaped(Ids(d), Anchors(ops))
    && forall i {:trigger ElementAt(d, ops, i)} :: 0 <= i < |d| ==> ElementAt(d, ops, i)
  }

  ghost predicate ElementAt(d: Doc, ops: set<Op>, i: nat)
    requires i < |d|
  {
    ElementOk(d[i], ops)
  }

  lemma RepresentsMeans(d: Doc, ops: set<Op>)
    requires Represents(d, ops)
    ensures WellFormed(d)
    ensures UidSet(Ids(d)) == Inserted(ops) && Deleted(ops) <= Inserted(ops)
    ensures Shaped(Ids(d), Anchors(ops))
    ensures forall i :: 0 <= i < |d| ==> ElementOk(d[i], ops)
  {
    forall i | 0 <= i < |d|
      ensures ElementOk(d[i], ops)
    {
      assert ElementAt(d, ops, i);
    }
  }

  /** The state of a set of operations is unique, so replicas that applied the same operations agree. */
  lemma RepresentsIsUnique(d1: Doc, d2: Doc, ops: set<Op>)
    requires WellFormedOps(ops)
    requires Represents(d1, ops) && Represents(d2, ops)
    ensures d1 == d2
  {
    RepresentsMeans(d1, ops);
    RepresentsMeans(d2, ops);
    ShapeIsUnique(Ids(d1), Ids(d2), Anchors(ops));
    assert |d1| == |d2|;
    forall i | 0 <= i < |d1|
      ensures d1[i] == d2[i]
    {
      assert Ids(d1)[i] == Ids(d2)[i];
    }
  }

  /** Two replicas hold the same list exactly when the same operations took effect on them. */
  lemma ReplicasAgreeIff(d1: Doc, d2: Doc, a: set<Op>, b: set<Op>, all: set<Op>)
    requires WellFormedOps(all) && a <= all && b <= all
    requires Represents(d1, a) && Represents(d2, b)
    ensures d1 == d2 <==> a == b
  {
    if d1 == d2 {
      SameEffects(d1, a, b, all);
      SameEffects(d1, b, a, all);
    }
    if a == b {
      SubsetWellFormed(a, all);
      RepresentsIsUnique(d1, d2, a);
    }
  }

  lemma SameEffects(d: Doc, a: set<Op>, b: set<Op>, all: set<Op>)
    requires WellFormedOps(all) && a <= all && b <= all
    requires Represents(d, a) && Represents(d, b)
    ensures a <= b
  {
    WellFormedMeans(all);
    RepresentsMeans(d, a);
    RepresentsMeans(d, b);
    forall o | o in a
      ensures o in b
    {
      if o.Insert? {
        assert o.uid in Inserted(a) && o.uid in Inserted(b);
        assert InsertOf(b, o.uid) == o;
      } else {
        assert o.uid in Deleted(a) && o.uid in Inserted(a);
        HasIsInserted(d, a, o.uid);
        assert ElementOk(d[IndexOf(d, o.uid)], a) && ElementOk(d[IndexOf(d, o.uid)], b);
        assert o.uid in Deleted(b);
      }
    }
  }

  lemma HasIsInserted(d: Doc, ops: set<Op>, u: UID)
    requires Represents(d, ops)
    ensures Has(d, u) <==> u in Inserted(ops)
  {
    RepresentsMeans(d, ops);
    assert u in UidSet(Ids(d)) <==> u in Ids(d);
    if u in Ids(d) {
      var i :| 0 <= i < |d| && Ids(d)[i] == u;
    }
  }

  /** An operation can be applied just when its dependencies have been inserted, or it already was applied. */
  lemma AppliedIffDepsMet(d: Doc, ops: set<Op>, op: Op)
    requires WellFormedOps(ops + {op}) && Represents(d, ops)
    ensures Apply(d, op).applied <==> DepsMet(ops, op) || op in ops
  {
    WellFormedMeans(ops + {op});
    RepresentsMeans(d, ops);
    HasIsInserted(d, ops, op.uid);
    if op.Insert? {
      HasIsInserted(d, ops, Anchor(op));
      assert op.uid in Inserted(ops) <==> op in ops;
    } else if op in ops {
      assert op.uid in Deleted(ops);
    }
  }

  lemma SubsetWellFormed(small: set<Op>, big: set<Op>)
    requires WellFormedOps(big) && small <= big
    ensures WellFormedOps(small)
  {
    WellFormedMeans(big);
  }

  // ----- one step -----

  lemma InsertGap(d: Doc, op: Op, p: nat, q: nat)
    requires op.Insert? && WellFormed(d) && !Known(d, op.uid) && Known(d, Anchor(op))
    requires p == GapAfter(d, Anchor(op)) && q == ScanRight(d, p, op.uid)
    ensures ScanStops(Ids(d), p, q, op.uid)
    ensures if p == 0 then Anchor(op) == ROOT_UID else Ids(d)[p - 1] == Anchor(op)
    ensures Ids(Step(d, op)) == InsertAt(Ids(d), q, op.uid)
    ensures Distinct(Ids(d)) && op.uid !in Ids(d)
  {
    forall k | 0 <= k < |d|
      ensures CompareUID(d[k].uid, op.uid) > 0 <==> Less(op.uid, Ids(d)[k])
      ensures Ids(d)[k] != op.uid
      ensures Less(op.uid, Ids(d)[k]) || Less(Ids(d)[k], op.uid)
    {
      CompareIsTotal(d[k].uid, op.uid);
      CompareIsTotal(op.uid, d[k].uid);
    }
    IdsOfInsert(d, q, Element(op.uid, op.value, false));
  }

  lemma IdsOfInsert(d: Doc, q: nat, e: Element)
    requires q <= |d|
    ensures Ids(InsertAt(d, q, e)) == InsertAt(Ids(d), q, e.uid)
  {
  }

  lemma InsertedGrows(ops: set<Op>, op: Op)
    ensures Inserted(ops + {op}) == Inserted(ops) + if op.Insert? then {op.uid} else {}
    ensures Deleted(ops + {op}) == Deleted(ops) + if op.Delete? then {op.uid} else {}
  {
  }

  lemma InsertOfGrows(ops: set<Op>, op: Op, u: UID)
    requires WellFormedOps(ops + {op}) && u in Inserted(ops + {op})
    ensures op.Insert? && u == op.uid ==> InsertOf(ops + {op}, u) == op
    ensures u in Inserted(ops) ==> InsertOf(ops + {op}, u) == InsertOf(ops, u)
  {
    WellFormedMeans(ops + {op});
  }

  lemma AnchorsGrow(ops: set<Op>, op: Op)
    requires WellFormedOps(ops + {op})
    ensures Anchors(ops + {op}) == if op.Insert? then Anchors(ops)[op.uid := Anchor(op)] else Anchors(ops)
  {
    InsertedGrows(ops, op);
    forall u | u in Inserted(ops + {op})
      ensures op.Insert? && u == op.uid ==> InsertOf(ops + {op}, u) == op
      ensures u in Inserted(ops) ==> InsertOf(ops + {op}, u) == InsertOf(ops, u)
    {
      InsertOfGrows(ops, op, u);
    }
  }

  lemma ElementStaysOk(e: Element, ops: set<Op>, op: Op)
    requires WellFormedOps(ops + {op}) && ElementOk(e, ops)
    requires op.Delete? ==> e.uid != op.uid
    ensures ElementOk(e, ops + {op})
  {
    InsertedGrows(ops, op);
    InsertOfGrows(ops, op, e.uid);
  }

  lemma NewElementOk(ops: set<Op>, op: Op)
    requires op.Insert? && WellFormedOps(ops + {op}) && op.uid !in Deleted(ops)
    ensures ElementOk(Element(op.uid, op.value, false), ops + {op})
  {
    InsertedGrows(ops, op);
    InsertOfGrows(ops, op, op.uid);
  }

  lemma DeletedElementOk(e: Element, ops: set<Op>, op: Op)
    requires op.Delete? && WellFormedOps(ops + {op}) && ElementOk(e, ops) && e.uid == op.uid
    ensures ElementOk(e.(tombstoned := true), ops + {op})
  {
    InsertedGrows(ops, op);
    InsertOfGrows(ops, op, e.uid);
  }

  lemma NewInsertRepresents(d: Doc, ops: set<Op>, op: Op)
    requires op.Insert? && WellFormedOps(ops + {op}) && Represents(d, ops)
    requires op.uid !in Inserted(ops) && DepsMet(ops, op)
    ensures Represents(Step(d, op), ops + {op})
  {
    WellFormedOne(ops + {op}, op);
    RepresentsMeans(d, ops);
    HasIsInserted(d, ops, op.uid);
    HasIsInserted(d, ops, Anchor(op));
    var p := GapAfter(d, Anchor(op));
    var q := ScanRight(d, p, op.uid);
    InsertGap(d, op, p, q);
    InsertedGrows(ops, op);
    AnchorsGrow(ops, op);
    InsertKeepsShape(Ids(d), Anchors(ops), Anchor(op), p, q, op.uid);
    InsertAtUids(Ids(d), q, op.uid);
    NewInsertContent(d, ops, op, q);
  }

  lemma NewInsertContent(d: Doc, ops: set<Op>, op: Op, q: nat)
    requires op.Insert? && WellFormedOps(ops + {op}) && Represents(d, ops)
    requires op.uid !in Inserted(ops) && q <= |d|
    ensures var d' := InsertAt(d, q, Element(op.uid, op.value, false));
      WellFormed(d') && forall i :: 0 <= i < |d'| ==> ElementOk(d'[i], ops + {op})
  {
    RepresentsMeans(d, ops);
    WellFormedOne(ops + {op}, op);
    var d' := InsertAt(d, q, Element(op.uid, op.value, false));
    forall i | 0 <= i < |d'|
      ensures ElementOk(d'[i], ops + {op})
    {
      if i == q {
        NewElementOk(ops, op);
      } else {
        ElementStaysOk(d[if i < q then i else i - 1], ops, op);
      }
    }
    assert forall j :: 0 <= j < |d| ==> ElementOk(d[j], ops) && d[j].uid != op.uid;
    InsertWellFormed(d, q, Element(op.uid, op.value, false));
  }

  lemma InsertAtUids(o: Order, q: nat, x: UID)
    requires q <= |o|
    ensures UidSet(InsertAt(o, q, x)) == UidSet(o) + {x}
  {
  }

  lemma DeleteRepresents(d: Doc, ops: set<Op>, op: Op)
    requires op.Delete? && WellFormedOps(ops + {op}) && Represents(d, ops)
    requires op.uid in Inserted(ops)
    ensures Represents(Step(d, op), ops + {op})
  {
    RepresentsMeans(d, ops);
    WellFormedOne(ops + {op}, op);
    HasIsInserted(d, ops, op.uid);
    InsertedGrows(ops, op);
    AnchorsGrow(ops, op);
    var d' := Step(d, op);
    assert Ids(d') == Ids(d);
    forall i | 0 <= i < |d'|
      ensures ElementOk(d'[i], ops + {op})
    {
      assert ElementOk(d[i], ops);
      if i == IndexOf(d, op.uid) {
        DeletedElementOk(d[i], ops, op);
      } else {
        ElementStaysOk(d[i], ops, op);
      }
    }
  }

  /** Applying an operation adds it to what the list represents; failing to apply it changes nothing. */
  lemma StepRepresents(d: Doc, ops: set<Op>, op: Op)
    requires WellFormedOps(ops + {op}) && Represents(d, ops)
    ensures if Apply(d, op).applied then Represents(Step(d, op), ops + {op}) else Step(d, op) == d
  {
    WellFormedMeans(ops + {op});
    if Apply(d, op).applied {
      AppliedIffDepsMet(d, ops, op);
      HasIsInserted(d, ops, op.uid);
      if op.Delete? {
        DeleteRepresents(d, ops, op);
      } else if op.uid !in Inserted(ops) {
        NewInsertRepresents(d, ops, op);
      } else {
        assert op in ops;
        assert ops + {op} == ops;
      }
    }
  }

  /** What is represented was not only inserted, it also found what it needs. */
  lemma RepresentedDeps(d: Doc, ops: set<Op>, op: Op)
    requires WellFormedOps(ops) && Represents(d, ops) && op in ops
    ensures DepsMet(ops, op)
  {
    WellFormedOne(ops, op);
    RepresentsMeans(d, ops);
    if op.Insert? {
      AnchorRecovered(d, ops, op);
      var k := PrevSmaller(Ids(d), IndexOf(d, op.uid), op.uid);
      assert k >= 0 ==> Ids(d)[k] in UidSet(Ids(d));
    } else {
      assert op.uid in Deleted(ops);
    }
  }

  /** The effect of one operation, told from its dependencies. */
  lemma EffectOf(d: Doc, ops: set<Op>, op: Op)
    requires WellFormedOps(ops + {op}) && Represents(d, ops)
    ensures Represents(Step(d, op), ops + if DepsMet(ops, op) then {op} else {})
    ensures Apply(d, op).applied <==> DepsMet(ops, op)
  {
    SubsetWellFormed(ops, ops + {op});
    AppliedIffDepsMet(d, ops, op);
    StepRepresents(d, ops, op);
    if op in ops {
      RepresentedDeps(d, ops, op);
    }
    assert ops + {} == ops;
  }

  // ----- whole replays -----

  /** The operations of `s` that took effect when `s` was applied from the empty document. */
  ghost function Effective(s: seq<Op>): set<Op> {
    if s == [] then {}
    else
      var init, last := s[..|s| - 1], s[|s| - 1];
      Effective(init) + if Apply(Replay([], init), last).applied then {last} else {}
  }

  lemma OpsOfLast(s: seq<Op>)
    requires s != []
    ensures OpsOf(s) == OpsOf(s[..|s| - 1]) + {s[|s| - 1]}
  {
  }

  lemma EmptyRepresents()
    ensures WellFormedOps({}) && Represents([], {})
  {
  }

  /** Whatever arrives in whatever order, the list is the canonical state of what took effect. */
  lemma {:induction false} ReplayRepresents(s: seq<Op>)
    requires WellFormedOps(OpsOf(s))
    ensures Effective(s) <= OpsOf(s)
    ensures WellFormedOps(Effective(s)) && Represents(Replay([], s), Effective(s))
  {
    if s == [] {
      EmptyRepresents();
    } else {
      var init, last := s[..|s| - 1], s[|s| - 1];
      OpsOfLast(s);
      SubsetWellFormed(OpsOf(init), OpsOf(s));
      ReplayRepresents(init);
      var d, effective := Replay([], init), Effective(init);
      SubsetWellFormed(effective + {last}, OpsOf(s));
      StepRepresents(d, effective, last);
      assert effective + {} == effective;
    }
  }

  ghost predicate InOrderAt(s: seq<Op>, i: nat)
    requires i < |s|
  {
    DepsMet(OpsOf(s[..i]), s[i])
  }

  /** Every operation comes after the insertion of the nodes it names. */
  ghost predicate CausallyOrdered(s: seq<Op>) {
    forall i {:trigger InOrderAt(s, i)} :: 0 <= i < |s| ==> InOrderAt(s, i)
  }

  lemma CausalPrefix(s: seq<Op>, n: nat)
    requires CausallyOrdered(s) && n <= |s|
    ensures CausallyOrdered(s[..n])
  {
    forall i | 0 <= i < n
      ensures InOrderAt(s[..n], i)
    {
      assert InOrderAt(s, i) && s[..n][..i] == s[..i];
    }
  }

  /** In causal order nothing is lost: the replay stands for all its operations. */
  lemma {:induction false} CausalReplayRepresents(s: seq<Op>)
    requires WellFormedOps(OpsOf(s)) && CausallyOrdered(s)
    ensures Effective(s) == OpsOf(s)
    ensures Represents(Replay([], s), OpsOf(s))
  {
    ReplayRepresents(s);
    if s != [] {
      var init, last := s[..|s| - 1], s[|s| - 1];
      OpsOfLast(s);
      SubsetWellFormed(OpsOf(init), OpsOf(s));
      CausalPrefix(s, |s| - 1);
      CausalReplayRepresents(init);
      AppliedIffDepsMet(Replay([], init), OpsOf(init), last);
      assert InOrderAt(s, |s| - 1);
    }
  }

  /**
   * Strong convergence. Two replicas that receive the same operations in any two causal orders,
   * each operation any number of times, end with the same nodes in the same order with the same
   * tombstones, hence the same visible length and text.
   */
  lemma StrongConvergence(s1: seq<Op>, s2: seq<Op>)
    requires WellFormedOps(OpsOf(s1)) && OpsOf(s1) == OpsOf(s2)
    requires CausallyOrdered(s1) && CausallyOrdered(s2)
    ensures Replay([], s1) == Replay([], s2)
  {
    CausalReplayRepresents(s1);
    CausalReplayRepresents(s2);
    RepresentsIsUnique(Replay([], s1), Replay([], s2), OpsOf(s1));
  }

  /** Without any causal order: replicas agree as soon as the same operations took effect on both. */
  lemma ConvergenceOfEffects(s1: seq<Op>, s2: seq<Op>)
    requires WellFormedOps(OpsOf(s1)) && WellFormedOps(OpsOf(s2))
    requires Effective(s1) == Effective(s2)
    ensures Replay([], s1) == Replay([], s2)
  {
    ReplayRepresents(s1);
    ReplayRepresents(s2);
    RepresentsIsUnique(Replay([], s1), Replay([], s2), Effective(s1));
  }

  /** The converse holds as well: replicas agree exactly when the same operations took effect. */
  lemma AgreementIffSameEffects(s1: seq<Op>, s2: seq<Op>)
    requires WellFormedOps(OpsOf(s1) + OpsOf(s2))
    ensures Replay([], s1) == Replay([], s2) <==> Effective(s1) == Effective(s2)
  {
    var all := OpsOf(s1) + OpsOf(s2);
    SubsetWellFormed(OpsOf(s1), all);
    SubsetWellFormed(OpsOf(s2), all);
    ReplayRepresents(s1);
    ReplayRepresents(s2);
    ReplicasAgreeIff(Replay([], s1), Replay([], s2), Effective(s1), Effective(s2), all);
  }

  /** The order every replica reaches is the reference order computed from the operation set alone. */
  lemma ReplayIsCanonical(s: seq<Op>)
    requires WellFormedOps(OpsOf(s)) && CausallyOrdered(s)
    ensures Ids(Replay([], s)) == CanonicalOrder(Inserted(OpsOf(s)), Anchors(OpsOf(s)))
  {
    CausalReplayRepresents(s);
    RepresentsMeans(Replay([], s), OpsOf(s));
    ShapedIsCanonical(Ids(Replay([], s)), Anchors(OpsOf(s)));
  }

  /** The anchor an INSERT named can be read back from the bare list, which does not store it. */
  lemma AnchorRecovered(d: Doc, ops: set<Op>, op: Op)
    requires WellFormedOps(ops) && Represents(d, ops) && op in ops && op.Insert?
    ensures IndexOf(d, op.uid) >= 0
    ensures AnchorAt(Ids(d), IndexOf(d, op.uid)) == Anchor(op)
  {
    RepresentsMeans(d, ops);
    WellFormedMeans(ops);
    HasIsInserted(d, ops, op.uid);
    var i := IndexOf(d, op.uid);
    assert AnchoredAt(Ids(d), Anchors(ops), i);
    assert Anchors(ops)[op.uid] == Anchor(op);
  }

  // ----- growing sets and logs -----

  lemma DepsMetGrows(small: set<Op>, big: set<Op>, op: Op)
    requires DepsMet(small, op) && small <= big
    ensures DepsMet(big, op)
  {
  }

  lemma InsertedMonotone(small: set<Op>, big: set<Op>)
    requires small <= big
    ensures Inserted(small) <= Inserted(big)
  {
  }

  lemma InsertedUnion(a: set<Op>, b: set<Op>)
    ensures Inserted(a + b) == Inserted(a) + Inserted(b)
    ensures Deleted(a + b) == Deleted(a) + Deleted(b)
  {
  }

  lemma OpsOfAppend(s: seq<Op>, op: Op)
    ensures OpsOf(s + [op]) == OpsOf(s) + {op}
  {
  }

  lemma OpsOfPrefix(s: seq<Op>, n: nat)
    requires n <= |s|
    ensures OpsOf(s[..n]) <= OpsOf(s)
  {
  }

  lemma CausalAppend(log: seq<Op>, op: Op)
    requires CausallyOrdered(log) && DepsMet(OpsOf(log), op)
    ensures CausallyOrdered(log + [op])
  {
    var log' := log + [op];
    forall i | 0 <= i < |log'|
      ensures InOrderAt(log', i)
    {
      assert i < |log| ==> InOrderAt(log, i) && log'[..i] == log[..i] && log'[i] == log[i];
      assert i == |log| ==> log'[..i] == log;
    }
  }

  /** Operations that continue a causally ordered log take effect on every list that shows at least that log. */
  lemma {:induction false} ContinuationRepresents(d: Doc, have: set<Op>, log: seq<Op>, more: seq<Op>)
    requires Represents(d, have) && OpsOf(log) <= have && WellFormedOps(have + OpsOf(more))
    requires CausallyOrdered(log + more)
    ensures Represents(Replay(d, more), have + OpsOf(more))
  {
    if more == [] {
      assert have + OpsOf([]) == have;
    } else {
      var init, last := more[..|more| - 1], more[|more| - 1];
      var n := |log| + |init|;
      OpsOfLast(more);
      assert have + OpsOf(init) + {last} == have + OpsOf(more);
      SubsetWellFormed(have + OpsOf(init), have + OpsOf(more));
      CausalPrefix(log + more, n);
      assert (log + more)[..n] == log + init && (log + more)[n] == last;
      ContinuationRepresents(d, have, log, init);
      assert InOrderAt(log + more, n);
      assert OpsOf(log + init) <= have + OpsOf(init);
      DepsMetGrows(OpsOf(log + init), have + OpsOf(init), last);
      EffectOf(Replay(d, init), have + OpsOf(init), last);
    }
  }

  // ----- order stability and non-interleaving -----

  /** No operation reorders or removes nodes: the old list is the new one minus at most one new node. */
  lemma OrderIsStable(d: Doc, op: Op)
    ensures Ids(Step(d, op)) == Ids(d) ||
            exists q :: 0 <= q <= |d| && Ids(Step(d, op)) == InsertAt(Ids(d), q, op.uid)
  {
    if op.Insert? && !Known(d, op.uid) && Known(d, Anchor(op)) {
      var q := ScanRight(d, GapAfter(d, Anchor(op)), op.uid);
      assert Ids(Step(d, op)) == InsertAt(Ids(d), q, op.uid);
    } else {
      assert Ids(Step(d, op)) == Ids(d);
    }
  }

  /** Nodes inserted behind the same node stand in descending order of their uids, the latest first. */
  lemma SiblingsDescend(d: Doc, ops: set<Op>, small: Op, big: Op)
    requires WellFormedOps(ops) && Represents(d, ops) && small in ops && big in ops
    requires small.Insert? && big.Insert? && Anchor(small) == Anchor(big) && Less(small.uid, big.uid)
    ensures 0 <= IndexOf(d, big.uid) < IndexOf(d, small.uid)
  {
    RepresentsMeans(d, ops);
    AnchorRecovered(d, ops, small);
    AnchorRecovered(d, ops, big);
    TotalOrder();
    var o, i, j := Ids(d), IndexOf(d, small.uid), IndexOf(d, big.uid);
    var k, l := PrevSmaller(o, i, small.uid), PrevSmaller(o, j, big.uid);
    assert o[i] == small.uid && o[j] == big.uid;
    assert i < j ==> l >= i;
  }

  /**
   * Ties at equal clocks are broken by site id: of two INSERTs behind one node, the one whose site id has the
   * larger character at the first difference stands first, whatever order they were applied in.
   */
  lemma LargerSiteFirst(s: seq<Op>, small: Op, big: Op, i: nat)
    requires WellFormedOps(OpsOf(s)) && CausallyOrdered(s) && small in s && big in s
    requires small.Insert? && big.Insert? && Anchor(small) == Anchor(big)
    requires small.uid.clock == big.uid.clock && SmallerAt(small.uid.siteId, big.uid.siteId, i)
    ensures 0 <= IndexOf(Replay([], s), big.uid) < IndexOf(Replay([], s), small.uid)
  {
    CausalReplayRepresents(s);
    LessIff(small.uid, big.uid);
    SiblingsDescend(Replay([], s), OpsOf(s), small, big);
  }

  /** Two characters typed into the empty document at the same time. */
  lemma TieExample()
    ensures Step([Element(UID(1, "a"), "x", false)], Insert(UID(1, "b"), None, "y")) ==
      [Element(UID(1, "b"), "y", false), Element(UID(1, "a"), "x", false)]
  {
    assert SmallerAt("a", "b", 0);
    LessIff(UID(1, "a"), UID(1, "b"));
    CompareIsTotal(UID(1, "a"), UID(1, "b"));
    LessAsymmetric(UID(1, "a"), UID(1, "b"));
  }

  /** The chain of anchors from the node at `j` passes through the node at `i`. */
  ghost predicate DescendsFrom(o: Order, j: nat, i: nat)
    requires i < |o| && j < |o|
    decreases j
  {
    j == i || (var k := PrevSmaller(o, j, o[j]); k >= 0 && DescendsFrom(o, k, i))
  }

  /** Seen from the operations: a node descends from another when it is that node or its `after` does. */
  lemma DescentFollowsAfter(d: Doc, ops: set<Op>, op: Op, i: nat)
    requires WellFormedOps(ops) && Represents(d, ops) && op in ops && op.Insert? && i < |d|
    requires Known(d, op.uid) && IndexOf(d, op.uid) >= 0
    ensures Anchor(op) != ROOT_UID ==> 0 <= IndexOf(d, Anchor(op)) < IndexOf(d, op.uid)
    ensures DescendsFrom(Ids(d), IndexOf(d, op.uid), i) <==>
      IndexOf(d, op.uid) == i || (Anchor(op) != ROOT_UID && DescendsFrom(Ids(d), IndexOf(d, Anchor(op)), i))
  {
    RepresentsMeans(d, ops);
    AnchorRecovered(d, ops, op);
    var j := IndexOf(d, op.uid);
    var k := PrevSmaller(Ids(d), j, op.uid);
    if k >= 0 {
      assert d[k].uid == Anchor(op);
      assert Has(d, Anchor(op));
      assert IndexOf(d, Anchor(op)) == k;
    }
  }

  /** The nodes typed after a node, directly or through others, are exactly the run of larger uids behind it. */
  lemma {:induction false} DescendantsAreARun(o: Order, i: nat, j: nat)
    requires Distinct(o) && i < |o| && j < |o|
    ensures DescendsFrom(o, j, i) <==> i <= j && forall k :: i < k <= j ==> Less(o[i], o[k])
    decreases j
  {
    TotalOrder();
    var k := PrevSmaller(o, j, o[j]);
    if j != i && k >= 0 {
      DescendantsAreARun(o, i, k);
    }
  }

  /** Runs typed behind one node stay contiguous, so concurrent runs never interleave. */
  lemma RunsDoNotInterleave(o: Order, i: nat, j: nat, k: nat)
    requires Distinct(o) && i <= j <= k < |o|
    requires DescendsFrom(o, k, i)
    ensures DescendsFrom(o, j, i)
  {
    DescendantsAreARun(o, i, k);
    DescendantsAreARun(o, i, j);
  }
}
