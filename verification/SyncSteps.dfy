/** What every step keeps, hence every run: broadcasts, the worker's apply and append, and joins. */
module SyncSteps {
  import opened Rga
  import opened Convergence
  import opened LocalEdits
  import opened SyncSystem

  // ----- deliveries -----

  lemma SamePending(s: System, site: string, c': Client)
    requires site in s.clients && c'.pending == s.clients[site].pending && c'.busy == s.clients[site].busy
    ensures var s' := s.(clients := s.clients[site := c']);
      AllOps(s') == AllOps(s) && InFlight(s') == InFlight(s)
  {
    var s' := s.(clients := s.clients[site := c']);
    assert forall x :: x in s'.clients <==> x in s.clients;
    assert forall x :: x in s.clients ==>
      s'.clients[x].pending == s.clients[x].pending && s'.clients[x].busy == s.clients[x].busy;
    assert Pending(s') == Pending(s);
    forall o
      ensures o in InFlight(s') <==> o in InFlight(s)
    {
      if o in InFlight(s) {
        var x :| x in s.clients && s.clients[x].busy && s.clients[x].pending != [] && s.clients[x].pending[0] == o;
        assert s'.clients[x].pending[0] == o;
      }
      if o in InFlight(s') {
        var x :| x in s'.clients && s'.clients[x].busy && s'.clients[x].pending != [] && s'.clients[x].pending[0] == o;
        assert s.clients[x].pending[0] == o;
      }
    }
  }

  /** A broadcast takes effect exactly when the client has what it needs, or has it already. */
  lemma DeliveryTakesEffectIff(s: System, site: string, j: nat)
    requires Inv(s) && site in s.clients && j < |s.log|
    ensures var c, op := s.clients[site], s.log[j];
      && WellFormedOps(Knows(c) + {op})
      && (Apply(c.doc, op).applied <==> DepsMet(Knows(c), op) || op in Knows(c))
  {
    var c, op := s.clients[site], s.log[j];
    SiteMeans(s, site);
    KnowsIsIssued(s, site);
    assert op in AllOps(s);
    SubsetWellFormed(Knows(c) + {op}, AllOps(s));
    AppliedIffDepsMet(c.doc, Knows(c), op);
  }

  lemma ReceiveOk(s: System, site: string, j: nat)
    requires Inv(s) && site in s.clients && j < |s.log|
    ensures var c' := Receive(s.clients[site], s.log[j]);
      ClientOk(s.log, site, c') && c'.seen <= AllOps(s) && s.clients[site].clock <= c'.clock
  {
    var c, op := s.clients[site], s.log[j];
    var c' := Receive(c, op);
    SiteMeans(s, site);
    DeliveryTakesEffectIff(s, site, j);
    StepRepresents(c.doc, Knows(c), op);
    ClockBoundKept(c.doc, c.clock, op);
    ClockFollows(c.doc, c.clock, op, 0);
    assert op in AllOps(s) && op in OpsOf(s.log);
    WellFormedOne(AllOps(s), op);
    ClientApplyIsStep(c.doc, op);
    assert Knows(c') == Knows(c) + if Apply(c.doc, op).applied then {op} else {};
    assert Knows(c) + {} == Knows(c);
    InsertedUnion(c.seen, {op});
    InsertedMonotone({op}, OpsOf(s.log));
  }

  lemma DeliveryKeepsInv(s: System, a: Action)
    requires Inv(s) && a.Deliver? && Enabled(s, a)
    ensures Inv(Do(s, a))
  {
    var s' := Do(s, a);
    ReceiveOk(s, a.site, a.j);
    SamePending(s, a.site, s'.clients[a.site]);
    IssuedStays(s, s', a.site);
    OthersUntouched(s, s', a.site);
  }

  // ----- the worker -----

  lemma HeadDepsLogged(s: System, site: string)
    requires Inv(s) && site in s.clients && s.clients[site].pending != []
    ensures DepsMet(OpsOf(s.log), s.clients[site].pending[0])
    ensures s.clients[site].pending[0].Insert? ==>
      s.clients[site].pending[0].uid.siteId == site && s.clients[site].pending[0].uid !in Inserted(OpsOf(s.log))
    ensures s.clients[site].pending[0] in AllOps(s)
  {
    var pending := s.clients[site].pending;
    SiteMeans(s, site);
    assert QueuedOk(s.log, site, pending, 0);
    assert OpsOf(s.log) + OpsOf(pending[..0]) == OpsOf(s.log);
    PendingIs(s, site);
    assert pending[0] in OpsOf(pending);
  }

  /** The worker can apply the head of a queue. */
  lemma CacheApplies(s: System, site: string)
    requires Inv(s) && site in s.clients && s.clients[site].pending != []
    ensures var op := s.clients[site].pending[0];
      Represents(Step(s.cache, op), OpsOf(s.log) + InFlight(s) + {op})
  {
    var op, applied := s.clients[site].pending[0], OpsOf(s.log) + InFlight(s);
    HeadDepsLogged(s, site);
    InFlightIsPending(s);
    SubsetWellFormed(applied + {op}, AllOps(s));
    DepsMetGrows(OpsOf(s.log), applied, op);
    AppliedIffDepsMet(s.cache, applied, op);
    StepRepresents(s.cache, applied, op);
  }

  lemma ApplyKeepsInv(s: System, a: Action)
    requires Inv(s) && a.ServerApply? && Enabled(s, a)
    ensures Inv(Do(s, a))
  {
    var c := s.clients[a.site];
    var s' := Do(s, a);
    SiteMeans(s, a.site);
    ApplyInFlight(s, a.site);
    CacheApplies(s, a.site);
    assert OpsOf(s.log) + InFlight(s') == OpsOf(s.log) + InFlight(s) + {c.pending[0]};
    assert Knows(c.(busy := true)) == Knows(c);
    IssuedStays(s, s', a.site);
    OthersUntouched(s, s', a.site);
  }

  lemma ApplyInFlight(s: System, site: string)
    requires site in s.clients && s.clients[site].pending != [] && !s.clients[site].busy
    ensures var s' := s.(clients := s.clients[site := s.clients[site].(busy := true)]);
      AllOps(s') == AllOps(s) && InFlight(s') == InFlight(s) + {s.clients[site].pending[0]}
  {
    var s' := s.(clients := s.clients[site := s.clients[site].(busy := true)]);
    var op := s.clients[site].pending[0];
    assert forall x :: x in s.clients ==> s'.clients[x].pending == s.clients[x].pending;
    assert Pending(s') == Pending(s);
    forall o
      ensures o in InFlight(s') <==> o in InFlight(s) || o == op
    {
      if o in InFlight(s) {
        var x :| x in s.clients && s.clients[x].busy && s.clients[x].pending != [] && s.clients[x].pending[0] == o;
        assert s'.clients[x].busy && s'.clients[x].pending[0] == o;
      }
      if o == op {
        assert s'.clients[site].busy && s'.clients[site].pending[0] == o;
      }
      if o in InFlight(s') {
        var x :| x in s'.clients && s'.clients[x].busy && s'.clients[x].pending != [] && s'.clients[x].pending[0] == o;
        assert s.clients[x].pending[0] == o;
      }
    }
  }

  /** Moving the head of a queue to the log keeps what is issued and what the cache stands for. */
  lemma AppendAccounts(s: System, site: string)
    requires site in s.clients && s.clients[site].pending != [] && s.clients[site].busy
    ensures var s' := Do(s, ServerAppend(site));
      AllOps(s') == AllOps(s) && OpsOf(s'.log) + InFlight(s') == OpsOf(s.log) + InFlight(s)
  {
    var s' := Do(s, ServerAppend(site));
    var c := s.clients[site];
    var op := c.pending[0];
    OpsOfHead(c.pending);
    OpsOfAppend(s.log, op);
    forall o
      ensures o in Pending(s) ==> o in Pending(s') || o == op
      ensures o in Pending(s') ==> o in Pending(s)
    {
      if o in Pending(s) && o != op {
        var x :| x in s.clients && o in s.clients[x].pending;
        assert x == site ==> o in c.pending[1..];
        assert o in s'.clients[x].pending;
      }
      if o in Pending(s') {
        var x :| x in s'.clients && o in s'.clients[x].pending;
        assert o in s.clients[x].pending;
      }
    }
    assert op in OpsOf(c.pending);
    PendingIs(s, site);
    AppendInFlight(s, site);
  }

  lemma AppendInFlight(s: System, site: string)
    requires site in s.clients && s.clients[site].pending != [] && s.clients[site].busy
    ensures var s' := Do(s, ServerAppend(site));
      InFlight(s) == InFlight(s') + {s.clients[site].pending[0]}
  {
    var s' := Do(s, ServerAppend(site));
    var op := s.clients[site].pending[0];
    forall o
      ensures o in InFlight(s) <==> o in InFlight(s') || o == op
    {
      if o in InFlight(s) && o != op {
        var x :| x in s.clients && s.clients[x].busy && s.clients[x].pending != [] && s.clients[x].pending[0] == o;
        assert s'.clients[x].busy && s'.clients[x].pending[0] == o;
      }
      if o in InFlight(s') {
        var x :| x in s'.clients && s'.clients[x].busy && s'.clients[x].pending != [] && s'.clients[x].pending[0] == o;
        assert s.clients[x].busy && s.clients[x].pending[0] == o;
      }
      if o == op {
        assert s.clients[site].busy && s.clients[site].pending[0] == o;
      }
    }
  }

  /** For the author, the operation moves from its queue to what it has seen. */
  lemma AppendOwnOk(s: System, site: string)
    requires Inv(s) && site in s.clients && s.clients[site].pending != [] && s.clients[site].busy
    ensures var s' := Do(s, ServerAppend(site));
      ClientOk(s'.log, site, s'.clients[site]) && s'.clients[site].seen <= AllOps(s)
  {
    var s' := Do(s, ServerAppend(site));
    var c, c' := s.clients[site], s'.clients[site];
    var op := c.pending[0];
    SiteMeans(s, site);
    HeadDepsLogged(s, site);
    OpsOfHead(c.pending);
    assert Knows(c') == Knows(c);
    OpsOfAppend(s.log, op);
    InsertedUnion(c.seen, {op});
    InsertedUnion(OpsOf(s.log), {op});
    QueueTailOk(s.log, site, c.pending);
  }

  lemma QueueTailOk(log: seq<Op>, site: string, pending: seq<Op>)
    requires pending != [] && QueueOk(log, site, pending)
    ensures QueueOk(log + [pending[0]], site, pending[1..])
  {
    var tail, log' := pending[1..], log + [pending[0]];
    OpsOfAppend(log, pending[0]);
    forall i | 0 <= i < |tail|
      ensures QueuedOk(log', site, tail, i)
    {
      OpsOfHead(pending[..i + 1]);
      assert pending[..i + 1][1..] == tail[..i];
      assert OpsOf(log') + OpsOf(tail[..i]) == OpsOf(log) + OpsOf(pending[..i + 1]);
      assert QueuedOk(log, site, pending, i + 1);
    }
  }

  /** For everybody else, one more log entry by another author changes nothing yet. */
  lemma AppendOthersOk(log: seq<Op>, site: string, c: Client, op: Op, author: string)
    requires ClientOk(log, site, c) && author != site
    requires op.Insert? ==> op.uid.siteId == author
    ensures ClientOk(log + [op], site, c)
  {
    OpsOfAppend(log, op);
    InsertedMonotone(OpsOf(log), OpsOf(log + [op]));
    AppendOthersQueue(log, site, c.pending, op, author);
  }

  lemma AppendOthersQueue(log: seq<Op>, site: string, pending: seq<Op>, op: Op, author: string)
    requires QueueOk(log, site, pending) && author != site
    requires op.Insert? ==> op.uid.siteId == author
    ensures QueueOk(log + [op], site, pending)
  {
    var log' := log + [op];
    OpsOfAppend(log, op);
    forall i | 0 <= i < |pending|
      ensures QueuedOk(log', site, pending, i)
    {
      var before := OpsOf(log) + OpsOf(pending[..i]);
      assert QueuedOk(log, site, pending, i);
      assert OpsOf(log') + OpsOf(pending[..i]) == before + {op};
      DepsMetGrows(before, before + {op}, pending[i]);
      InsertedGrows(before, op);
    }
  }

  lemma AppendKeepsInv(s: System, a: Action)
    requires Inv(s) && a.ServerAppend? && Enabled(s, a)
    ensures Inv(Do(s, a))
  {
    var s' := Do(s, a);
    var op := s.clients[a.site].pending[0];
    AppendAccounts(s, a.site);
    HeadDepsLogged(s, a.site);
    CausalAppend(s.log, op);
    AppendOwnOk(s, a.site);
    SiteMeans(s, a.site);
    IssuedStays(s, s', a.site);
    forall x | x in s'.clients
      ensures SiteOk(s', x)
    {
      assert x != a.site ==> SiteOk(s, x);
      if x != a.site {
        AppendOthersOk(s.log, x, s.clients[x], op, a.site);
      }
    }
  }

  // ----- joins -----

  /** The snapshot holds the logged operations and the in-flight ones; a clear one brings no unlogged node. */
  lemma JoinerOk(s: System, site: string)
    requires Inv(s) && JoinIsClear(s)
    ensures ClientOk(s.log, site, Joined(s)) && Joined(s).seen <= AllOps(s)
  {
    assert OpsOf([]) == {};
    assert Knows(Joined(s)) == OpsOf(s.log) + InFlight(s);
    InsertedUnion(OpsOf(s.log), InFlight(s));
    assert Inserted(InFlight(s)) == {};
    InFlightIsPending(s);
  }

  /** The snapshot's clocks bound those of every uid the site issued earlier: all of them are logged. */
  lemma RejoinClock(s: System, site: string, o: Op)
    requires Inv(s) && (site in s.clients ==> s.clients[site].pending == [])
    requires o in AllOps(s) && o.Insert? && o.uid.siteId == site
    ensures site in s.clients && Has(s.cache, o.uid) && o.uid.clock <= MaxClock(s.cache)
  {
    assert IssuedOk(s, o);
    forall x | x in s.clients && o in s.clients[x].pending
      ensures x == site
    {
      PendingIsOwn(s, x, o);
    }
    assert o in OpsOf(s.log);
    RepresentsMeans(s.cache, OpsOf(s.log) + InFlight(s));
    HasIsInserted(s.cache, OpsOf(s.log) + InFlight(s), o.uid);
  }

  lemma PendingIsOwn(s: System, site: string, o: Op)
    requires Inv(s) && site in s.clients && o in s.clients[site].pending && o.Insert?
    ensures o.uid.siteId == site
  {
    var i :| 0 <= i < |s.clients[site].pending| && s.clients[site].pending[i] == o;
    SiteMeans(s, site);
    assert QueuedOk(s.log, site, s.clients[site].pending, i);
  }

  lemma JoinKeepsInv(s: System, a: Action)
    requires Inv(s) && a.Join? && Enabled(s, a) && JoinIsClear(s)
    ensures Inv(Do(s, a))
  {
    var s' := Do(s, a);
    JoinerOk(s, a.site);
    JoinPending(s, a.site);
    forall o | o in AllOps(s')
      ensures IssuedOk(s', o)
    {
      assert IssuedOk(s, o);
      if o.Insert? && o.uid.siteId == a.site {
        RejoinClock(s, a.site, o);
      }
    }
    OthersUntouched(s, s', a.site);
  }

  lemma JoinPending(s: System, site: string)
    requires site in s.clients ==> s.clients[site].pending == []
    ensures var s' := s.(clients := s.clients[site := Joined(s)]);
      AllOps(s') == AllOps(s) && InFlight(s') == InFlight(s)
  {
    var s' := s.(clients := s.clients[site := Joined(s)]);
    forall o
      ensures o in Pending(s') <==> o in Pending(s)
      ensures o in InFlight(s') <==> o in InFlight(s)
    {
      if o in Pending(s) {
        var x :| x in s.clients && o in s.clients[x].pending;
        assert x != site && o in s'.clients[x].pending;
      }
      if o in InFlight(s) {
        var x :| x in s.clients && s.clients[x].busy && s.clients[x].pending != [] && s.clients[x].pending[0] == o;
        assert x != site && s'.clients[x].busy && s'.clients[x].pending[0] == o;
      }
    }
  }

  // ----- every run -----

  lemma InitialInv()
    ensures Inv(INITIAL)
  {
  }

  lemma StepKeepsInv(s: System, a: Action)
    requires Inv(s) && (a.Join? ==> JoinIsClear(s))
    ensures Inv(Do(s, a))
  {
    if Enabled(s, a) {
      match a
      case Join(_) => JoinKeepsInv(s, a);
      case Type(_, _, _) => TypeKeepsInv(s, a);
      case Erase(_, _) => EraseKeepsInv(s, a);
      case ServerApply(_) => ApplyKeepsInv(s, a);
      case ServerAppend(_) => AppendKeepsInv(s, a);
      case Deliver(_, _) => DeliveryKeepsInv(s, a);
    }
  }

  /**
   * Safety of every run with clear joins: operations are well formed with unique uids above their anchors,
   * the log is causally ordered, the cached document is the canonical state of log plus in-flight
   * operations, and every client holds the canonical state of what it has seen.
   */
  lemma {:induction false} EveryRunKeepsInv(run: seq<Action>)
    requires ClearJoins(run)
    ensures Inv(Exec(run))
  {
    if run == [] {
      InitialInv();
    } else {
      EveryRunKeepsInv(run[..|run| - 1]);
      StepKeepsInv(Exec(run[..|run| - 1]), run[|run| - 1]);
    }
  }
}
