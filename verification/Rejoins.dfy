/** A site that joins again after its own tombstones were collected: when it issues a uid a second time. */
module Rejoins {
  import opened Uids
  import opened Rga
  import opened Gc
  import opened Convergence
  import opened LocalEdits
  import opened SyncSystem
  import opened SyncSteps
  import opened SyncConvergence

  datatype Edit = Put(index: int, value: string) | Cut(index: int)

  /** A client's list and clock, and what it has submitted. */
  datatype Draft = Draft(doc: Doc, clock: nat, ops: seq<Op>)

  function EditOnce(t: Draft, site: string, e: Edit): Draft {
    match e
    case Put(index, value) =>
      var op := LocalInsertOp(t.doc, t.clock, site, index, value);
      Draft(Step(t.doc, op), t.clock + 1, t.ops + [op])
    case Cut(index) =>
      var op := LocalDeleteOp(t.doc, index);
      if op.None? then t else Draft(Step(t.doc, op.value), t.clock, t.ops + [op.value])
  }

  /** What a client makes of a list by editing it after it joined from the collected copy. */
  function Edited(d: Doc, site: string, edits: seq<Edit>): Draft {
    if edits == [] then Draft(Live(d), MaxClock(Live(d)), [])
    else EditOnce(Edited(d, site, edits[..|edits| - 1]), site, edits[|edits| - 1])
  }

  /** None of the site's collected uids is above the clock it starts with. */
  ghost predicate NoneAbove(d: Doc, site: string) {
    forall u :: u in DeadUids(d) && u.siteId == site ==> u.clock <= MaxClock(Live(d))
  }

  /** Whatever the collected tombstones were, the client's list is well formed and its clock bounds it. */
  ghost predicate DraftOk(t: Draft) {
    WellFormed(t.doc) && ClocksBounded(t.doc, t.clock)
  }

  lemma EditKeepsDraft(t: Draft, site: string, e: Edit)
    requires DraftOk(t)
    ensures DraftOk(EditOnce(t, site, e)) && EditOnce(t, site, e).clock >= t.clock
  {
    if e.Put? {
      var op := LocalInsertOp(t.doc, t.clock, site, e.index, e.value);
      GeneratedInsertIsAboveAnchor(t.doc, t.clock, site, e.index, e.value);
      TypedApplies(t.doc, t.clock, op);
      StepWellFormed(t.doc, op);
    } else if LocalDeleteOp(t.doc, e.index).Some? {
      EraseTarget(t.doc, t.clock, e.index);
      StepWellFormed(t.doc, LocalDeleteOp(t.doc, e.index).value);
    }
  }

  lemma {:induction false} EditedOk(d: Doc, site: string, edits: seq<Edit>)
    requires WellFormed(d)
    ensures DraftOk(Edited(d, site, edits)) && Edited(d, site, edits).clock >= MaxClock(Live(d))
  {
    if edits == [] {
      LiveWellFormed(d);
    } else {
      EditedOk(d, site, edits[..|edits| - 1]);
      EditKeepsDraft(Edited(d, site, edits[..|edits| - 1]), site, edits[|edits| - 1]);
    }
  }

  // ----- with no such uid, everybody sees the same -----

  /** The client's list is that of somebody who kept the tombstones, minus these. */
  ghost predicate KeepsUp(d: Doc, t: Draft) {
    t.doc == Without(Replay(d, t.ops), DeadUids(d))
  }

  /** An operation that is harmless where it is applied keeps the two in step. */
  lemma SubmitKeepsUp(d: Doc, t: Draft, op: Op)
    requires WellFormed(d) && KeepsUp(d, t) && Harmless(Replay(d, t.ops), DeadUids(d), op)
    ensures Step(t.doc, op) == Without(Replay(d, t.ops + [op]), DeadUids(d))
  {
    ReplayOne(d, t.ops, op);
    ReplayWellFormed(d, t.ops);
    DeadStayDead(d, t.ops);
    HarmlessIff(Replay(d, t.ops), DeadUids(d), op);
  }

  /** A ticked uid is new to those who kept the tombstones as well, and its scan passes nothing. */
  lemma PutIsHarmless(d: Doc, t: Draft, site: string, index: int, value: string)
    requires WellFormed(d) && NoneAbove(d, site) && DraftOk(t) && KeepsUp(d, t) && t.clock >= MaxClock(Live(d))
    ensures Harmless(Replay(d, t.ops), DeadUids(d), LocalInsertOp(t.doc, t.clock, site, index, value))
  {
    var full, gone, op := Replay(d, t.ops), DeadUids(d), LocalInsertOp(t.doc, t.clock, site, index, value);
    GeneratedInsertIsAboveAnchor(t.doc, t.clock, site, index, value);
    TickedUidIsAbove(t.doc, t.clock, site);
    WithoutHas(full, gone, op.uid);
    WithoutHas(full, gone, Anchor(op));
    DeadAreNamed(d);
    assert op.uid !in gone && !Known(full, op.uid);
    assert Anchor(op) !in gone && Known(full, Anchor(op));
    var q := LandingGap(full, op);
    var rest := Without(full[q..], gone);
    if rest != [] {
      WithoutMember(full[q..], gone, rest[0]);
      WithoutMember(full, gone, rest[0]);
      assert rest[0] in full[q..] && rest[0] in full && rest[0] in t.doc;
      var i :| 0 <= i < |t.doc| && t.doc[i] == rest[0];
      LessAsymmetric(t.doc[i].uid, op.uid);
    }
  }

  lemma {:induction false} EditedKeepsUp(d: Doc, site: string, edits: seq<Edit>)
    requires WellFormed(d) && NoneAbove(d, site)
    ensures KeepsUp(d, Edited(d, site, edits))
  {
    if edits == [] {
      LiveThins(d);
    } else {
      var t, last := Edited(d, site, edits[..|edits| - 1]), edits[|edits| - 1];
      EditedKeepsUp(d, site, edits[..|edits| - 1]);
      EditedOk(d, site, edits[..|edits| - 1]);
      if last.Put? {
        PutIsHarmless(d, t, site, last.index, last.value);
        SubmitKeepsUp(d, t, LocalInsertOp(t.doc, t.clock, site, last.index, last.value));
      } else if LocalDeleteOp(t.doc, last.index).Some? {
        SubmitKeepsUp(d, t, LocalDeleteOp(t.doc, last.index).value);
      }
    }
  }

  // ----- with one, a character is shown to its author only -----

  /** `n` characters typed at the start. */
  function AtStart(n: nat): seq<Edit> {
    if n == 0 then [] else AtStart(n - 1) + [Put(0, "x")]
  }

  /** The character typed last is visible to its author. */
  ghost predicate ShowsLast(t: Draft, site: string) {
    Element(UID(t.clock, site), "x", false) in t.doc
  }

  lemma PutShows(t: Draft, site: string)
    requires DraftOk(t)
    ensures EditOnce(t, site, Put(0, "x")).clock == t.clock + 1 && ShowsLast(EditOnce(t, site, Put(0, "x")), site)
  {
    LocalInsertMeaning(t.doc, t.clock, site, 0, "x");
    LiveMember(EditOnce(t, site, Put(0, "x")).doc, Element(UID(t.clock + 1, site), "x", false));
  }

  lemma AtStartNext(d: Doc, site: string, n: nat)
    ensures Edited(d, site, AtStart(n + 1)) == EditOnce(Edited(d, site, AtStart(n)), site, Put(0, "x"))
  {
    assert AtStart(n + 1)[..|AtStart(n + 1)| - 1] == AtStart(n);
  }

  lemma {:induction false} AtStartShows(d: Doc, site: string, n: nat) returns (t: Draft)
    requires WellFormed(d)
    ensures t == Edited(d, site, AtStart(n)) && DraftOk(t) && t.clock == MaxClock(Live(d)) + n
    ensures n > 0 ==> ShowsLast(t, site)
  {
    if n == 0 {
      EditedOk(d, site, []);
      t := Edited(d, site, []);
    } else {
      var before := AtStartShows(d, site, n - 1);
      AtStartNext(d, site, n - 1);
      EditKeepsDraft(before, site, Put(0, "x"));
      PutShows(before, site);
      t := EditOnce(before, site, Put(0, "x"));
    }
  }

  /** Everybody who kept the tombstone ignores the second INSERT with its uid. */
  lemma ReissuedIsHidden(d: Doc, u: UID, ops: seq<Op>, value: string)
    requires WellFormed(d) && u in DeadUids(d)
    ensures Element(u, value, false) !in Live(Replay(d, ops))
  {
    var full, e := Replay(d, ops), Element(u, value, false);
    ReplayWellFormed(d, ops);
    DeadStayDead(d, ops);
    LiveMember(full, e);
    var j :| 0 <= j < |full| && full[j].tombstoned && full[j].uid == u;
    assert forall i :: 0 <= i < |full| && i != j ==> full[i].uid != full[j].uid;
  }

  /**
   * Exactly when a site may join again from a collected copy: whatever it then edits, it sees what everybody
   * sees who kept the tombstones, if and only if none of its collected uids is above the clock it starts with.
   */
  lemma RejoinIsSafeIff(d: Doc, site: string)
    requires WellFormed(d)
    ensures (forall edits :: var t := Edited(d, site, edits); Live(t.doc) == Live(Replay(d, t.ops))) <==>
      NoneAbove(d, site)
  {
    if NoneAbove(d, site) {
      forall edits
        ensures var t := Edited(d, site, edits); Live(t.doc) == Live(Replay(d, t.ops))
      {
        var t := Edited(d, site, edits);
        EditedKeepsUp(d, site, edits);
        ReplayWellFormed(d, t.ops);
        DeadStayDead(d, t.ops);
        SameText(Replay(d, t.ops), DeadUids(d));
      }
    } else {
      var u :| u in DeadUids(d) && u.siteId == site && u.clock > MaxClock(Live(d));
      var n := u.clock - MaxClock(Live(d));
      var t := AtStartShows(d, site, n);
      assert UID(t.clock, site) == u;
      LiveMember(t.doc, Element(u, "x", false));
      ReissuedIsHidden(d, u, t.ops, "x");
      assert Live(t.doc) != Live(Replay(d, t.ops));
    }
  }

  // ----- in the system -----

  /** Seen from the system: no uid the site ever issued is above the largest of the collected cache. */
  lemma NoneAboveIff(s: System, site: string)
    requires Inv(s) && Enabled(s, Join(site))
    ensures NoneAbove(s.cache, site) <==>
      forall o :: o in AllOps(s) && o.Insert? && o.uid.siteId == site ==> o.uid.clock <= MaxClock(Live(s.cache))
  {
    var shown := OpsOf(s.log) + InFlight(s);
    RepresentsMeans(s.cache, shown);
    DeadAreNamed(s.cache);
    InFlightIsPending(s);
    forall u | u in DeadUids(s.cache)
      ensures u in Inserted(AllOps(s))
    {
      HasIsInserted(s.cache, shown, u);
      InsertedMonotone(shown, AllOps(s));
    }
    forall o | o in AllOps(s) && o.Insert? && o.uid.siteId == site
      ensures o.uid in DeadUids(s.cache) || o.uid.clock <= MaxClock(Live(s.cache))
    {
      RejoinClock(s, site, o);
      var i :| 0 <= i < |s.cache| && s.cache[i].uid == o.uid;
      LiveMember(s.cache, s.cache[i]);
      if !s.cache[i].tombstoned {
        var k :| 0 <= k < |Live(s.cache)| && Live(s.cache)[k] == s.cache[i];
      }
    }
  }

  lemma ReissuedUid(e: Element)
    requires e == Element(UID(1, "a"), "x", false)
    ensures var dead, op := [e.(tombstoned := true)], LocalInsertOp([], 0, "a", 0, "y");
      && op.uid == e.uid && Step([], op) == [e.(value := "y")] && Step(dead, op) == dead
      && e.uid in DeadUids(dead) && MaxClock([]) == 0
  {
    var dead := [e.(tombstoned := true)];
    assert dead[0].uid == e.uid && Has(dead, e.uid);
  }

  lemma ErasedRun(e: Element)
    requires e == Element(UID(1, "a"), "x", false)
    ensures var run := [Join("a")] + Round("a", 0, "x") + [Erase("a", 0), ServerApply("a"), ServerAppend("a")];
      var s := Exec(run);
      && ClearJoins(run) && "a" in s.clients && s.clients["a"].pending == [] && s.cache == [e.(tombstoned := true)]
  {
    var join, typed, x := [Join("a")], [Join("a")] + Round("a", 0, "x"), Insert(e.uid, None, "x");
    FirstJoin();
    ExecThree(join, Type("a", 0, "x"), ServerApply("a"), ServerAppend("a"));
    assert LocalInsertOp([], 0, "a", 0, "x") == x && Step([], x) == ClientApply([], x) == [e];
    RoundDoes(Exec(join), "a", 0, "x");
    ExecThree(typed, Erase("a", 0), ServerApply("a"), ServerAppend("a"));
    EraseDoes(Exec(typed), e);
  }

  lemma FirstJoin()
    ensures ClearJoins([Join("a")]) && Exec([Join("a")]).cache == [] && Exec([Join("a")]).log == []
    ensures Exec([Join("a")]).clients == map["a" := EMPTY_CLIENT]
  {
    ExecNext([], Join("a"));
    assert [] + [Join("a")] == [Join("a")] && InFlight(INITIAL) == {} && OpsOf(INITIAL.log) == {};
    assert Joined(INITIAL) == EMPTY_CLIENT;
  }

  lemma EraseDoes(s: System, e: Element)
    requires "a" in s.clients && s.clients["a"].pending == [] && !s.clients["a"].busy
    requires s.clients["a"].doc == s.cache == [e] && !e.tombstoned && e.uid != ROOT_UID
    ensures var s' := Do(Do(Do(s, Erase("a", 0)), ServerApply("a")), ServerAppend("a"));
      s'.cache == [e.(tombstoned := true)] && "a" in s'.clients && s'.clients["a"].pending == []
  {
    LiveOfOne(e);
    assert LocalDeleteOp([e], 0) == Some(Delete(e.uid));
    var s1 := Do(s, Erase("a", 0));
    assert s1.clients["a"].pending == [Delete(e.uid)] && s1.cache == [e];
    assert Step([e], Delete(e.uid)) == [e.(tombstoned := true)];
  }

  /** A run that gets there: the only character is typed, erased and collected, and its site joins again. */
  lemma ReissueExample()
    ensures var run := [Join("a")] + Round("a", 0, "x") + [Erase("a", 0), ServerApply("a"), ServerAppend("a")];
      var s := Exec(run);
      var op := LocalInsertOp(Live(s.cache), MaxClock(Live(s.cache)), "a", 0, "y");
      && ClearJoins(run) && Enabled(s, Join("a")) && !NoneAbove(s.cache, "a")
      && s.cache == [Element(UID(1, "a"), "x", true)] && op.uid == UID(1, "a")
      && Step(Live(s.cache), op) == [Element(UID(1, "a"), "y", false)] && Step(s.cache, op) == s.cache
  {
    var e := Element(UID(1, "a"), "x", false);
    ErasedRun(e);
    LiveOfOne(e.(tombstoned := true));
    ReissuedUid(e);
  }
}
