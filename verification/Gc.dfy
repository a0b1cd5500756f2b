/** Tombstone collection: what a replica may still do after `gc`, compared with one that kept its tombstones. */
module Gc {
  import opened Uids
  import opened Rga

  /** The list with the nodes named in `gone` taken out. */
  function Without(d: Doc, gone: set<UID>): Doc {
    if d == [] then []
    else (if d[0].uid in gone then [] else [d[0]]) + Without(d[1..], gone)
  }

  function DeadUids(d: Doc): set<UID> {
    set i | 0 <= i < |d| && d[i].tombstoned :: d[i].uid
  }

  // ----- taking nodes out -----

  lemma {:induction false} WithoutConcat(a: Doc, b: Doc, gone: set<UID>)
    ensures Without(a + b, gone) == Without(a, gone) + Without(b, gone)
  {
    if a == [] {
      assert a + b == b;
    } else {
      assert (a + b)[1..] == a[1..] + b;
      WithoutConcat(a[1..], b, gone);
      Associative(if a[0].uid in gone then [] else [a[0]], Without(a[1..], gone), Without(b, gone));
    }
  }

  lemma WithoutCut(d: Doc, i: nat, gone: set<UID>)
    requires i <= |d|
    ensures Without(d, gone) == Without(d[..i], gone) + Without(d[i..], gone)
  {
    var a, b := d[..i], d[i..];
    assert d == a + b;
    WithoutConcat(a, b, gone);
  }

  lemma {:induction false} WithoutMember(d: Doc, gone: set<UID>, e: Element)
    ensures e in Without(d, gone) <==> e in d && e.uid !in gone
  {
    if d != [] {
      WithoutMember(d[1..], gone, e);
      assert e in d <==> e == d[0] || e in d[1..];
    }
  }

  lemma WithoutHas(d: Doc, gone: set<UID>, u: UID)
    ensures Has(Without(d, gone), u) <==> Has(d, u) && u !in gone
  {
    var g := Without(d, gone);
    if Has(g, u) {
      WithoutMember(d, gone, g[IndexOf(g, u)]);
    }
    if Has(d, u) && u !in gone {
      WithoutMember(d, gone, d[IndexOf(d, u)]);
    }
  }

  lemma {:induction false} WithoutWellFormed(d: Doc, gone: set<UID>)
    requires WellFormed(d)
    ensures WellFormed(Without(d, gone))
  {
    if d != [] {
      WithoutWellFormed(d[1..], gone);
      var rest := Without(d[1..], gone);
      forall i | 0 <= i < |rest|
        ensures rest[i].uid != d[0].uid
      {
        WithoutMember(d[1..], gone, rest[i]);
      }
    }
  }

  /** Collecting is taking out exactly the tombstoned nodes. */
  lemma {:induction false} LiveIsWithoutDead(d: Doc, gone: set<UID>)
    requires forall e :: e in d ==> (e.tombstoned <==> e.uid in gone)
    ensures Live(d) == Without(d, gone)
  {
    if d != [] {
      assert d[0] in d;
      LiveIsWithoutDead(d[1..], gone);
    }
  }

  /** Taking out tombstones does not change what is visible. */
  lemma {:induction false} WithoutDeadKeepsLive(d: Doc, gone: set<UID>)
    requires forall e :: e in d && e.uid in gone ==> e.tombstoned
    ensures Live(Without(d, gone)) == Live(d)
    ensures Text(Without(d, gone)) == Text(d)
  {
    if d != [] {
      assert d[0] in d;
      WithoutDeadKeepsLive(d[1..], gone);
      var first := if d[0].uid in gone then [] else [d[0]];
      LiveConcat(first, Without(d[1..], gone));
      TextConcat(first, Without(d[1..], gone));
    }
  }

  /**
   * Every survivor in `d[q..]` has only collected nodes or survivors between it and `q`;
   * the first has only collected ones.
   */
  lemma {:induction false} FirstSurvivor(d: Doc, gone: set<UID>, q: nat) returns (k: nat)
    requires q <= |d| && Without(d[q..], gone) != []
    ensures q <= k < |d| && Without(d[q..], gone)[0] == d[k]
    ensures d[k].uid !in gone && forall i :: q <= i < k ==> d[i].uid in gone
    decreases |d| - q
  {
    assert d[q..][1..] == d[q + 1..];
    if d[q].uid in gone {
      k := FirstSurvivor(d, gone, q + 1);
    } else {
      k := q;
    }
  }

  lemma {:induction false} AllSurvive(d: Doc, gone: set<UID>)
    requires forall i :: 0 <= i < |d| ==> d[i].uid !in gone
    ensures Without(d, gone) == d
  {
    if d != [] {
      AllSurvive(d[1..], gone);
    }
  }

  lemma WithoutNothing(d: Doc)
    ensures Without(d, {}) == d
  {
    AllSurvive(d, {});
  }

  // ----- collected copies of a list -----

  /** The uids of `full` that `thin` does not have. */
  function Missing(full: Doc, thin: Doc): set<UID> {
    set i | 0 <= i < |full| && !Has(thin, full[i].uid) :: full[i].uid
  }

  /** `thin` is `full` after some of its tombstones were collected. */
  ghost predicate Thins(full: Doc, thin: Doc) {
    Missing(full, thin) <= DeadUids(full) && thin == Without(full, Missing(full, thin))
  }

  /** Taking out tombstones gives a collected copy, and what it misses is what was taken out. */
  lemma CollectedThins(full: Doc, gone: set<UID>)
    requires gone <= DeadUids(full)
    ensures Missing(full, Without(full, gone)) == gone
    ensures Thins(full, Without(full, gone))
  {
    forall u
      ensures u in Missing(full, Without(full, gone)) <==> u in gone
    {
      WithoutHas(full, gone, u);
      if u in gone {
        var i :| 0 <= i < |full| && full[i].tombstoned && full[i].uid == u;
      }
    }
  }

  lemma WholeThins(full: Doc)
    ensures Missing(full, full) == {} && Thins(full, full)
  {
    WithoutNothing(full);
    CollectedThins(full, {});
  }

  /** What `gc` leaves is a collected copy. */
  lemma LiveThins(full: Doc)
    requires WellFormed(full)
    ensures Live(full) == Without(full, DeadUids(full)) && Thins(full, Live(full))
  {
    DeadAreNamed(full);
    LiveIsWithoutDead(full, DeadUids(full));
    CollectedThins(full, DeadUids(full));
  }

  /** Collecting a collected copy gives a collected copy. */
  lemma ThinnerStill(full: Doc, thin: Doc)
    requires WellFormed(full)
    ensures Thins(full, thin) ==> Thins(full, Live(thin)) && Live(thin) == Live(full)
  {
    if Thins(full, thin) {
      SameText(full, Missing(full, thin));
      LiveThins(full);
    }
  }

  lemma DeadAreNamed(d: Doc)
    requires WellFormed(d)
    ensures forall e :: e in d ==> (e.tombstoned <==> e.uid in DeadUids(d))
    ensures ROOT_UID !in DeadUids(d) && forall u :: u in DeadUids(d) ==> Has(d, u)
  {
    forall e | e in d
      ensures e.tombstoned <==> e.uid in DeadUids(d)
    {
      var i :| 0 <= i < |d| && d[i] == e;
    }
  }

  /** A collected copy shows the same text. */
  lemma SameText(d: Doc, gone: set<UID>)
    requires WellFormed(d) && gone <= DeadUids(d)
    ensures Live(Without(d, gone)) == Live(d) && Text(Without(d, gone)) == Text(d)
  {
    DeadAreNamed(d);
    WithoutDeadKeepsLive(d, gone);
  }

  // ----- one operation on both lists -----

  /** Where an INSERT lands. */
  function LandingGap(d: Doc, op: Op): (q: nat)
    requires op.Insert? && Known(d, Anchor(op))
    ensures q <= |d|
  {
    ScanRight(d, GapAfter(d, Anchor(op)), op.uid)
  }

  /** Nothing that survives right of the landing gap comes first with a larger uid. */
  predicate LandsAlike(d: Doc, gone: set<UID>, op: Op)
    requires op.Insert? && Known(d, Anchor(op))
  {
    var rest := Without(d[LandingGap(d, op)..], gone);
    rest == [] || !Less(op.uid, rest[0].uid)
  }

  /**
   * Applying `op` does not reveal that the tombstones `gone` were collected: it does not bring a
   * collected node back, is not anchored at one, and its scan is not sent further by their absence.
   */
  predicate Harmless(d: Doc, gone: set<UID>, op: Op) {
    op.Insert? ==>
      if op.uid in gone then !Known(d, Anchor(op)) || Anchor(op) in gone
      else Known(d, op.uid) || !Known(d, Anchor(op)) || (Anchor(op) !in gone && LandsAlike(d, gone, op))
  }

  lemma AnchorGap(d: Doc, gone: set<UID>, a: UID)
    requires WellFormed(d) && Known(d, a) && a !in gone
    ensures Known(Without(d, gone), a) && GapAfter(Without(d, gone), a) == |Without(d[..GapAfter(d, a)], gone)|
  {
    WithoutHas(d, gone, a);
    if a != ROOT_UID {
      var i := IndexOf(d, a);
      WithoutCut(d, i + 1, gone);
      WithoutCut(d[..i + 1], i, gone);
      assert d[..i + 1][..i] == d[..i] && d[..i + 1][i..] == [d[i]];
      assert Without([d[i]], gone) == [d[i]];
      WithoutWellFormed(d, gone);
      var g := Without(d, gone);
      assert g[|Without(d[..i], gone)|] == d[i];
    }
  }

  lemma ScanIs(d: Doc, p: nat, q: nat, x: UID)
    requires p <= q <= |d|
    requires forall k :: p <= k < q ==> CompareUID(d[k].uid, x) > 0
    requires q < |d| ==> CompareUID(d[q].uid, x) <= 0
    ensures ScanRight(d, p, x) == q
  {
  }

  /** A scan passes a block of larger uids, and stops right behind it exactly when it meets no further one. */
  lemma ScanBlock(a: Doc, b: Doc, c: Doc, x: UID)
    requires forall k :: 0 <= k < |b| ==> CompareUID(b[k].uid, x) > 0
    ensures ScanRight(a + b + c, |a|, x) >= |a + b|
    ensures ScanRight(a + b + c, |a|, x) == |a + b| <==> c == [] || CompareUID(c[0].uid, x) <= 0
  {
    var s, q := a + b + c, ScanRight(a + b + c, |a|, x);
    assert forall k :: |a| <= k < |a| + |b| ==> s[k] == b[k - |a|];
    assert c != [] ==> s[|a + b|] == c[0];
    assert forall k :: |a| <= k < |a + b| ==> CompareUID(s[k].uid, x) > 0;
    if c == [] || CompareUID(c[0].uid, x) <= 0 {
      ScanIs(s, |a|, |a + b|, x);
    }
  }

  lemma SameInsertion(g: Doc, m: nat, n: nat, e: Element)
    requires m <= |g| && n <= |g| && !Has(g, e.uid)
    ensures InsertAt(g, m, e) == InsertAt(g, n, e) <==> m == n
  {
    if m < n {
      assert InsertAt(g, m, e)[m] == e && InsertAt(g, n, e)[m] == g[m];
    } else if n < m {
      assert InsertAt(g, n, e)[n] == e && InsertAt(g, m, e)[n] == g[n];
    }
  }

  lemma ScannedSurvivors(d: Doc, gone: set<UID>, x: UID)
    requires forall k :: 0 <= k < |d| ==> CompareUID(d[k].uid, x) > 0
    ensures forall k :: 0 <= k < |Without(d, gone)| ==> CompareUID(Without(d, gone)[k].uid, x) > 0
  {
    forall k | 0 <= k < |Without(d, gone)|
      ensures CompareUID(Without(d, gone)[k].uid, x) > 0
    {
      WithoutMember(d, gone, Without(d, gone)[k]);
    }
  }

  /** Cutting a list twice cuts what survives there too. */
  lemma WithoutParts(d: Doc, gone: set<UID>, p: nat, q: nat)
    requires p <= q <= |d|
    ensures Without(d[..q], gone) == Without(d[..p], gone) + Without(d[p..q], gone)
    ensures Without(d, gone) == Without(d[..p], gone) + Without(d[p..q], gone) + Without(d[q..], gone)
  {
    assert d[..q][..p] == d[..p] && d[..q][p..] == d[p..q];
    WithoutCut(d[..q], p, gone);
    WithoutCut(d, q, gone);
  }

  lemma InsertInside(d: Doc, gone: set<UID>, q: nat, e: Element)
    requires q <= |d| && e.uid !in gone
    ensures |Without(d[..q], gone)| <= |Without(d, gone)|
    ensures Without(InsertAt(d, q, e), gone) == InsertAt(Without(d, gone), |Without(d[..q], gone)|, e)
  {
    var a, b := Without(d[..q], gone), Without(d[q..], gone);
    WithoutCut(d, q, gone);
    WithoutConcat(d[..q] + [e], d[q..], gone);
    WithoutConcat(d[..q], [e], gone);
    assert Without([e], gone) == [e];
    assert (a + b)[..|a|] == a && (a + b)[|a|..] == b;
  }

  /** Where the scan of a new INSERT ends on the collected list, compared with the other. */
  lemma ScanOnBoth(d: Doc, gone: set<UID>, op: Op)
    requires WellFormed(d) && op.Insert? && Known(d, Anchor(op)) && Anchor(op) !in gone
    ensures var g, m := Without(d, gone), |Without(d[..LandingGap(d, op)], gone)|;
      && Known(g, Anchor(op)) && m <= |g|
      && (LandingGap(g, op) == m <==> LandsAlike(d, gone, op))
  {
    var p, q := GapAfter(d, Anchor(op)), LandingGap(d, op);
    var a, b, c := Without(d[..p], gone), Without(d[p..q], gone), Without(d[q..], gone);
    AnchorGap(d, gone, Anchor(op));
    WithoutParts(d, gone, p, q);
    ScannedSurvivors(d[p..q], gone, op.uid);
    ScanBlock(a, b, c, op.uid);
    if c != [] {
      CompareIsTotal(c[0].uid, op.uid);
    }
  }

  /** A new INSERT with a surviving anchor lands at the same place exactly when nothing sends its scan further. */
  lemma NewInsertIff(d: Doc, gone: set<UID>, op: Op)
    requires WellFormed(d) && op.Insert? && op.uid !in gone && !Known(d, op.uid)
    requires Known(d, Anchor(op)) && Anchor(op) !in gone
    ensures Step(Without(d, gone), op) == Without(Step(d, op), gone) <==> LandsAlike(d, gone, op)
  {
    var g, q, e := Without(d, gone), LandingGap(d, op), Element(op.uid, op.value, false);
    WithoutHas(d, gone, op.uid);
    ScanOnBoth(d, gone, op);
    InsertInside(d, gone, q, e);
    SameInsertion(g, LandingGap(g, op), |Without(d[..q], gone)|, e);
  }

  lemma SurvivorAt(d: Doc, gone: set<UID>, i: nat)
    requires i < |d| && d[i].uid !in gone
    ensures Without(d, gone) == Without(d[..i], gone) + [d[i]] + Without(d[i + 1..], gone)
    ensures |Without(d[..i + 1], gone)| == |Without(d[..i], gone)| + 1
  {
    WithoutParts(d, gone, i, i + 1);
    assert d[i..i + 1] == [d[i]] && Without([d[i]], gone) == [d[i]];
  }

  lemma ReplaceInside(d: Doc, gone: set<UID>, i: nat, e: Element)
    requires i < |d| && d[i].uid !in gone && e.uid == d[i].uid
    ensures |Without(d[..i + 1], gone)| == |Without(d[..i], gone)| + 1 <= |Without(d, gone)|
    ensures Without(d, gone)[|Without(d[..i], gone)|] == d[i]
    ensures Without(d[i := e], gone) == Without(d, gone)[|Without(d[..i], gone)| := e]
  {
    SurvivorAt(d, gone, i);
    SurvivorAt(d[i := e], gone, i);
    assert d[i := e][..i] == d[..i] && d[i := e][i + 1..] == d[i + 1..];
  }

  /** A DELETE never reveals a collection: the node it names is hidden either way. */
  lemma DeleteOnBoth(d: Doc, gone: set<UID>, u: UID)
    requires WellFormed(d) && gone <= DeadUids(d)
    ensures Step(Without(d, gone), Delete(u)) == Without(Step(d, Delete(u)), gone)
  {
    WithoutHas(d, gone, u);
    DeadAreNamed(d);
    if Has(d, u) && u != ROOT_UID {
      var i := IndexOf(d, u);
      if u in gone {
        assert d[i] in d && d[i := d[i].(tombstoned := true)] == d;
      } else {
        AnchorGap(d, gone, u);
        ReplaceInside(d, gone, i, d[i].(tombstoned := true));
      }
    }
  }

  lemma InsertOnBothIff(d: Doc, gone: set<UID>, op: Op)
    requires WellFormed(d) && gone <= DeadUids(d) && op.Insert?
    ensures Step(Without(d, gone), op) == Without(Step(d, op), gone) <==> Harmless(d, gone, op)
  {
    var g, a := Without(d, gone), Anchor(op);
    DeadAreNamed(d);
    WithoutHas(d, gone, op.uid);
    WithoutHas(d, gone, a);
    if !Known(g, op.uid) && Known(g, a) {
      InsertIsThere(g, op);
    }
    if op.uid !in gone && !Known(d, op.uid) && Known(d, a) {
      InsertIsThere(d, op);
      WithoutHas(Step(d, op), gone, op.uid);
      if a !in gone {
        NewInsertIff(d, gone, op);
      }
    }
  }

  lemma InsertIsThere(d: Doc, op: Op)
    requires op.Insert? && !Known(d, op.uid) && Known(d, Anchor(op))
    ensures Has(Step(d, op), op.uid)
  {
    assert Step(d, op)[LandingGap(d, op)].uid == op.uid;
  }

  /**
   * Exactly when one operation cannot tell a list from its collected copy: every list, every set of
   * collected tombstones, every operation.
   */
  lemma HarmlessIff(d: Doc, gone: set<UID>, op: Op)
    requires WellFormed(d) && gone <= DeadUids(d)
    ensures Step(Without(d, gone), op) == Without(Step(d, op), gone) <==> Harmless(d, gone, op)
  {
    match op
    case Insert(_, _, _) => InsertOnBothIff(d, gone, op);
    case Delete(u) => DeleteOnBoth(d, gone, u);
    case Rollback(_) =>
  }

  lemma NothingGoneIsHarmless(d: Doc, op: Op)
    requires WellFormed(d)
    ensures Harmless(d, {}, op)
  {
    WithoutNothing(d);
    WithoutNothing(Step(d, op));
    HarmlessIff(d, {}, op);
  }

  /**
   * The same for `gc` and a new INSERT that names a surviving anchor: collecting first or inserting
   * first gives the same list exactly when the first visible node right of where the INSERT lands is
   * not above it.
   */
  lemma CollectionSeenIff(base: Doc, op: Op)
    requires WellFormed(base) && op.Insert? && !Known(base, op.uid)
    requires Known(base, Anchor(op)) && Anchor(op) !in DeadUids(base)
    ensures var rest := Live(base[LandingGap(base, op)..]);
      Step(Live(base), op) == Live(Step(base, op)) <==> (rest == [] || !Less(op.uid, rest[0].uid))
  {
    var gone, q := DeadUids(base), LandingGap(base, op);
    LiveThins(base);
    DeadAreNamed(base);
    NewInsertIff(base, gone, op);
    InsertKeepsDead(base, q, Element(op.uid, op.value, false));
    StepWellFormed(base, op);
    LiveThins(Step(base, op));
    assert forall e :: e in base[q..] ==> e in base;
    LiveIsWithoutDead(base[q..], gone);
  }

  /** An operation that still names a collected node meets a causal gap and changes nothing. */
  lemma CollectedNamesAreGaps(base: Doc, op: Op)
    requires WellFormed(base)
    requires if op.Insert? then Anchor(op) in DeadUids(base) && !Known(Live(base), op.uid)
             else op.Delete? && op.uid in DeadUids(base)
    ensures Apply(Live(base), op) == Outcome(Live(base), false)
  {
    var u := if op.Insert? then Anchor(op) else op.uid;
    LiveThins(base);
    DeadAreNamed(base);
    WithoutHas(base, DeadUids(base), u);
    assert !Known(Live(base), u);
  }

  // ----- whole continuations -----

  lemma InsertKeepsDead(d: Doc, q: nat, e: Element)
    requires q <= |d| && !e.tombstoned
    ensures DeadUids(InsertAt(d, q, e)) == DeadUids(d)
  {
    var d' := InsertAt(d, q, e);
    forall u | u in DeadUids(d)
      ensures u in DeadUids(d')
    {
      var i :| 0 <= i < |d| && d[i].tombstoned && d[i].uid == u;
      assert d'[if i < q then i else i + 1] == d[i];
    }
  }

  /** Tombstones stay tombstones. */
  lemma DeadStay(d: Doc, op: Op)
    ensures DeadUids(d) <= DeadUids(Step(d, op))
  {
    if op.Insert? && !Known(d, op.uid) && Known(d, Anchor(op)) {
      InsertKeepsDead(d, LandingGap(d, op), Element(op.uid, op.value, false));
    } else if op.Delete? && Has(d, op.uid) && op.uid != ROOT_UID {
      var d' := Step(d, op);
      assert forall i :: 0 <= i < |d| ==> d'[i].uid == d[i].uid && (d[i].tombstoned ==> d'[i].tombstoned);
    }
  }

  lemma {:induction false} DeadStayDead(d: Doc, ops: seq<Op>)
    ensures DeadUids(d) <= DeadUids(Replay(d, ops))
  {
    if ops != [] {
      DeadStayDead(d, ops[..|ops| - 1]);
      DeadStay(Replay(d, ops[..|ops| - 1]), ops[|ops| - 1]);
    }
  }

  ghost predicate HarmlessAt(base: Doc, gone: set<UID>, ops: seq<Op>, i: nat)
    requires i < |ops|
  {
    Harmless(Replay(base, ops[..i]), gone, ops[i])
  }

  /** After `n` operations the collected replica holds the other one's list minus the collected nodes. */
  ghost predicate InStep(base: Doc, gone: set<UID>, ops: seq<Op>, n: nat)
    requires n <= |ops|
  {
    Replay(Without(base, gone), ops[..n]) == Without(Replay(base, ops[..n]), gone)
  }

  lemma InStepNext(base: Doc, gone: set<UID>, ops: seq<Op>, i: nat)
    requires WellFormed(base) && gone <= DeadUids(base) && i < |ops| && InStep(base, gone, ops, i)
    ensures InStep(base, gone, ops, i + 1) <==> HarmlessAt(base, gone, ops, i)
  {
    assert ops[..i + 1] == ops[..i] + [ops[i]];
    ReplayOne(base, ops[..i], ops[i]);
    ReplayOne(Without(base, gone), ops[..i], ops[i]);
    ReplayWellFormed(base, ops[..i]);
    DeadStayDead(base, ops[..i]);
    HarmlessIff(Replay(base, ops[..i]), gone, ops[i]);
  }

  lemma {:induction false} HarmlessReplay(base: Doc, gone: set<UID>, ops: seq<Op>, n: nat)
    requires WellFormed(base) && gone <= DeadUids(base) && n <= |ops|
    requires forall i {:trigger HarmlessAt(base, gone, ops, i)} :: 0 <= i < n ==> HarmlessAt(base, gone, ops, i)
    ensures InStep(base, gone, ops, n)
  {
    if n > 0 {
      HarmlessReplay(base, gone, ops, n - 1);
      InStepNext(base, gone, ops, n - 1);
      assert HarmlessAt(base, gone, ops, n - 1);
    }
  }

  /**
   * Exactly when a collection stays invisible throughout a continuation: at every moment the
   * collected replica holds the other one's list minus the collected nodes if and only if every
   * operation of the continuation is harmless where it is applied.
   */
  lemma CollectionIsInvisibleIff(base: Doc, gone: set<UID>, ops: seq<Op>)
    requires WellFormed(base) && gone <= DeadUids(base)
    ensures (forall n {:trigger InStep(base, gone, ops, n)} :: 0 <= n <= |ops| ==> InStep(base, gone, ops, n)) <==>
            (forall i {:trigger HarmlessAt(base, gone, ops, i)} :: 0 <= i < |ops| ==> HarmlessAt(base, gone, ops, i))
  {
    if forall i {:trigger HarmlessAt(base, gone, ops, i)} :: 0 <= i < |ops| ==> HarmlessAt(base, gone, ops, i) {
      forall n | 0 <= n <= |ops|
        ensures InStep(base, gone, ops, n)
      {
        HarmlessReplay(base, gone, ops, n);
      }
    }
    if forall n {:trigger InStep(base, gone, ops, n)} :: 0 <= n <= |ops| ==> InStep(base, gone, ops, n) {
      forall i | 0 <= i < |ops|
        ensures HarmlessAt(base, gone, ops, i)
      {
        assert InStep(base, gone, ops, i) && InStep(base, gone, ops, i + 1);
        InStepNext(base, gone, ops, i);
      }
    }
  }

  // ----- a condition that can be checked when collecting -----

  /**
   * An operation that may follow a collection at `base` whatever happens in between: it names no
   * collected node, and an INSERT not yet seen at `base` has a uid above every uid present there.
   */
  ghost predicate Follows(base: Doc, gone: set<UID>, op: Op) {
    op.Insert? ==> op.uid !in gone && Anchor(op) !in gone && (Known(base, op.uid) || Above(base, op.uid))
  }

  ghost predicate Above(base: Doc, u: UID) {
    forall i :: 0 <= i < |base| ==> Less(base[i].uid, u)
  }

  /** `d` is a list reachable from `base` by such operations, as far as the collected nodes are concerned. */
  ghost predicate Tracked(base: Doc, gone: set<UID>, d: Doc) {
    && WellFormed(d) && gone <= DeadUids(d) && gone <= DeadUids(base)
    && (forall i :: 0 <= i < |d| ==> Has(base, d[i].uid) || Above(base, d[i].uid))
    && (forall i :: 0 < i < |d| && d[i - 1].uid in gone ==> Has(base, d[i].uid))
    && (forall i :: 0 <= i < |base| ==> Has(d, base[i].uid))
  }

  lemma BaseIsTracked(base: Doc, gone: set<UID>)
    requires WellFormed(base) && gone <= DeadUids(base)
    ensures Tracked(base, gone, base)
  {
    assert forall i :: 0 <= i < |base| ==> Has(base, base[i].uid);
  }

  lemma NewIsAbove(base: Doc, gone: set<UID>, d: Doc, u: UID)
    requires Tracked(base, gone, d) && !Known(d, u)
    ensures !Known(base, u)
  {
  }

  /** Right of a collected node only nodes of `base` follow, and those are below every new uid. */
  lemma FollowingLandsAlike(base: Doc, gone: set<UID>, d: Doc, op: Op)
    requires Tracked(base, gone, d) && op.Insert? && Known(d, Anchor(op)) && Above(base, op.uid)
    ensures LandsAlike(d, gone, op)
  {
    var q := LandingGap(d, op);
    if Without(d[q..], gone) != [] {
      var k := FirstSurvivor(d, gone, q);
      CompareIsTotal(d[k].uid, op.uid);
      LessAsymmetric(d[k].uid, op.uid);
      if k > q {
        assert d[k - 1].uid in gone;
        assert Has(base, d[k].uid);
      }
    }
  }

  lemma FollowingIsHarmless(base: Doc, gone: set<UID>, d: Doc, op: Op)
    requires Tracked(base, gone, d) && Follows(base, gone, op)
    ensures Harmless(d, gone, op)
  {
    if op.Insert? && !Known(d, op.uid) && Known(d, Anchor(op)) {
      NewIsAbove(base, gone, d, op.uid);
      FollowingLandsAlike(base, gone, d, op);
    }
  }

  lemma StepTracked(base: Doc, gone: set<UID>, d: Doc, op: Op)
    requires Tracked(base, gone, d) && Follows(base, gone, op)
    ensures Tracked(base, gone, Step(d, op))
  {
    if op.Insert? && !Known(d, op.uid) && Known(d, Anchor(op)) {
      NewIsAbove(base, gone, d, op.uid);
      LeftNeighbourSurvives(base, gone, d, op);
      InsertTracked(base, gone, d, LandingGap(d, op), Element(op.uid, op.value, false));
    } else if op.Delete? && Has(d, op.uid) && op.uid != ROOT_UID {
      UpdateTracked(base, gone, d, IndexOf(d, op.uid));
    }
  }

  /** A new INSERT does not land behind a collected node: it stops at its anchor or behind larger, newer uids. */
  lemma LeftNeighbourSurvives(base: Doc, gone: set<UID>, d: Doc, op: Op)
    requires Tracked(base, gone, d) && op.Insert? && Known(d, Anchor(op)) && Anchor(op) !in gone && Above(base, op.uid)
    ensures LandingGap(d, op) > 0 ==> d[LandingGap(d, op) - 1].uid !in gone
  {
    var p, q := GapAfter(d, Anchor(op)), LandingGap(d, op);
    if q > p {
      CompareIsTotal(d[q - 1].uid, op.uid);
      LessAsymmetric(d[q - 1].uid, op.uid);
    }
  }

  lemma InsertTracked(base: Doc, gone: set<UID>, d: Doc, q: nat, e: Element)
    requires Tracked(base, gone, d) && q <= |d| && !Known(d, e.uid) && Above(base, e.uid) && !e.tombstoned
    requires e.uid !in gone && (q > 0 ==> d[q - 1].uid !in gone)
    ensures Tracked(base, gone, InsertAt(d, q, e))
  {
    var d' := InsertAt(d, q, e);
    forall i | 0 <= i < |base|
      ensures Has(d', base[i].uid)
    {
      assert Has(d, base[i].uid);
      var j := IndexOf(d, base[i].uid);
      assert d'[if j < q then j else j + 1] == d[j];
    }
    InsertKeepsDead(d, q, e);
    InsertedElements(d, q, e);
    forall i | 0 <= i < |d'|
      ensures Has(base, d'[i].uid) || Above(base, d'[i].uid)
    {
      assert i == q || d'[i] == d[if i < q then i else i - 1];
    }
    forall i | 0 < i < |d'| && d'[i - 1].uid in gone
      ensures Has(base, d'[i].uid)
    {
      assert i != q && i - 1 != q;
    }
  }

  lemma InsertedElements(d: Doc, q: nat, e: Element)
    requires WellFormed(d) && q <= |d| && !Known(d, e.uid)
    ensures var d' := InsertAt(d, q, e);
      && WellFormed(d') && d'[q] == e
      && forall i {:trigger d'[i]} :: 0 <= i < |d'| && i != q ==> d'[i] == d[if i < q then i else i - 1]
  {
  }

  lemma UpdateTracked(base: Doc, gone: set<UID>, d: Doc, i: nat)
    requires Tracked(base, gone, d) && i < |d|
    ensures Tracked(base, gone, d[i := d[i].(tombstoned := true)])
  {
    var d' := d[i := d[i].(tombstoned := true)];
    assert forall k :: 0 <= k < |d| ==> d'[k].uid == d[k].uid && (d[k].tombstoned ==> d'[k].tombstoned);
    forall k | 0 <= k < |base|
      ensures Has(d', base[k].uid)
    {
      assert Has(d, base[k].uid);
      var j := IndexOf(d, base[k].uid);
      assert d'[j].uid == base[k].uid;
    }
  }

  lemma {:induction false} FollowersAreHarmless(base: Doc, gone: set<UID>, ops: seq<Op>)
    requires WellFormed(base) && gone <= DeadUids(base)
    requires forall op :: op in ops ==> Follows(base, gone, op)
    ensures Tracked(base, gone, Replay(base, ops))
    ensures forall i {:trigger HarmlessAt(base, gone, ops, i)} :: 0 <= i < |ops| ==> HarmlessAt(base, gone, ops, i)
  {
    if ops == [] {
      BaseIsTracked(base, gone);
    } else {
      var n := |ops| - 1;
      var init, last := ops[..n], ops[n];
      assert last in ops && forall op :: op in init ==> op in ops;
      FollowersAreHarmless(base, gone, init);
      StepTracked(base, gone, Replay(base, init), last);
      FollowingIsHarmless(base, gone, Replay(base, init), last);
      forall i | 0 <= i < |ops|
        ensures HarmlessAt(base, gone, ops, i)
      {
        if i < n {
          assert HarmlessAt(base, gone, init, i) && init[..i] == ops[..i];
        }
      }
    }
  }

  /**
   * Collection is a simulation: whatever permitted operations follow, the collected replica holds
   * the uncollected one's list minus the collected nodes, and both show the same text throughout.
   */
  lemma CollectionIsInvisible(base: Doc, ops: seq<Op>)
    requires WellFormed(base)
    requires forall op :: op in ops ==> Follows(base, DeadUids(base), op)
    ensures Replay(Live(base), ops) == Without(Replay(base, ops), DeadUids(base))
    ensures Live(Replay(Live(base), ops)) == Live(Replay(base, ops))
    ensures Text(Replay(Live(base), ops)) == Text(Replay(base, ops))
  {
    var gone, d := DeadUids(base), Replay(base, ops);
    LiveThins(base);
    FollowersAreHarmless(base, gone, ops);
    HarmlessReplay(base, gone, ops, |ops|);
    assert ops[..|ops|] == ops;
    ReplayWellFormed(base, ops);
    DeadStayDead(base, ops);
    SameText(d, gone);
  }

  // ----- an INSERT that comes too late -----

  /**
   * A slow concurrent INSERT whose uid and anchor were not collected: it stops in front of the
   * tombstone, but passes the tombstone's neighbour once the tombstone is gone.
   */
  lemma LateInsertExample()
    ensures var base := [Element(UID(3, "a"), "d", true), Element(UID(6, "a"), "e", false)];
      var late := Insert(UID(4, "b"), None, "x");
      && WellFormed(base) && late.uid !in DeadUids(base) && Anchor(late) !in DeadUids(base)
      && Step(Live(base), late) != Live(Step(base, late))
      && Text(Step(base, late)) == "xe" && Text(Step(Live(base), late)) == "ex"
  {
    var dead, e := Element(UID(3, "a"), "d", true), Element(UID(6, "a"), "e", false);
    LateInsertTexts(dead, e, UID(4, "b"), "x");
    TextOfLive(Step([dead, e], Insert(UID(4, "b"), None, "x")));
  }

  lemma LateInsertTexts(dead: Element, e: Element, u: UID, value: string)
    requires dead.tombstoned && !e.tombstoned && WellFormed([dead, e]) && u != ROOT_UID
    requires Less(dead.uid, u) && Less(u, e.uid)
    ensures var late := Insert(u, None, value);
      && Text(Step([dead, e], late)) == value + e.value && Text(Step(Live([dead, e]), late)) == e.value + value
  {
    var x := Element(u, value, false);
    LateInsertSteps(dead, e, u, value);
    LiveOfPair(dead, e);
    TextOfThree(x, dead, e);
    TextOfTwo(e, x);
  }

  lemma LiveOfPair(dead: Element, e: Element)
    requires dead.tombstoned && !e.tombstoned
    ensures Live([dead, e]) == [e]
  {
    assert [dead, e] == [dead] + [e];
    LiveConcat([dead], [e]);
    LiveOfOne(dead);
    LiveOfOne(e);
  }

  lemma TextOfTwo(a: Element, b: Element)
    ensures Text([a, b]) == (if a.tombstoned then "" else a.value) + if b.tombstoned then "" else b.value
  {
    assert [a, b][1..] == [b] && [b][1..] == [];
    assert Text([b]) == (if b.tombstoned then "" else b.value) + Text([]);
  }

  lemma TextOfThree(a: Element, b: Element, c: Element)
    ensures Text([a, b, c]) == (if a.tombstoned then "" else a.value) + Text([b, c])
    ensures Text([b, c]) == (if b.tombstoned then "" else b.value) + if c.tombstoned then "" else c.value
  {
    assert [a, b, c][1..] == [b, c];
    TextOfTwo(b, c);
  }

  lemma LateInsertSteps(d: Element, e: Element, u: UID, value: string)
    requires WellFormed([d, e]) && u != ROOT_UID
    requires Less(d.uid, u) && Less(u, e.uid)
    ensures Step([d, e], Insert(u, None, value)) == [Element(u, value, false), d, e]
    ensures Step([e], Insert(u, None, value)) == [e, Element(u, value, false)]
  {
    CompareIsTotal(d.uid, u);
    CompareIsTotal(e.uid, u);
    ScanIs([d, e], 0, 0, u);
    ScanIs([e], 0, 1, u);
  }
}
