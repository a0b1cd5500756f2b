/**
 * The whole protocol as a step system: clients that edit optimistically and submit in order, one worker
 * that applies, appends and broadcasts, and fresh joins from the worker's cached document.
 */
module SyncSystem {
  import opened Uids
  import opened Rga
  import opened Convergence
  import opened LocalEdits

  /**
   * `pending` holds the submitted operations the log does not have yet, oldest first; `busy` says the worker
   * has applied the first one and its append is outstanding. `seen` is what the document shows besides:
   * what the join snapshot stood for, logged operations of its own, and broadcasts that took effect.
   */
  datatype Client = Client(doc: Doc, clock: nat, pending: seq<Op>, busy: bool, seen: set<Op>)

  datatype System = System(clients: map<string, Client>, log: seq<Op>, cache: Doc)

  /** Broadcasts arrive in any order, any number of times. */
  datatype Action =
    | Join(site: string)
    | Type(site: string, index: int, value: string)
    | Erase(site: string, index: int)
    | ServerApply(site: string)
    | ServerAppend(site: string)
    | Deliver(site: string, j: nat)

  const INITIAL := System(map[], [], [])

  /** A client that joined an empty document. */
  const EMPTY_CLIENT := Client([], 0, [], false, {})

  /** A site joins afresh when it is new, or when nothing of its own is outside the log. */
  predicate Enabled(s: System, a: Action) {
    if a.Join? then a.site in s.clients ==> s.clients[a.site].pending == []
    else
      && a.site in s.clients
      && var c := s.clients[a.site];
         match a
         case Type(_, _, _) => true
         case Erase(_, index) => LocalDeleteOp(c.doc, index).Some?
         case ServerApply(_) => c.pending != [] && !c.busy
         case ServerAppend(_) => c.pending != [] && c.busy
         case Deliver(_, j) => j < |s.log|
         case Join(_) => true
  }

  function Submit(c: Client, op: Op): Client {
    c.(doc := ClientApply(c.doc, op), pending := c.pending + [op])
  }

  /** A broadcast that meets a causal gap is dropped. */
  function Receive(c: Client, op: Op): Client {
    c.(doc := ClientApply(c.doc, op), clock := ClientClock(c.doc, c.clock, op),
       seen := c.seen + if Apply(c.doc, op).applied then {op} else {})
  }

  function Joined(s: System): Client {
    Client(s.cache, MaxClock(s.cache), [], false, OpsOf(s.log) + InFlight(s))
  }

  /** One step; an action that is not enabled changes nothing. */
  function Do(s: System, a: Action): System {
    if !Enabled(s, a) then s
    else match a
      case Join(site) =>
        s.(clients := s.clients[site := Joined(s)])
      case Type(site, index, value) =>
        var c := s.clients[site];
        var op := LocalInsertOp(c.doc, c.clock, site, index, value);
        s.(clients := s.clients[site := Submit(c, op).(clock := c.clock + 1)])
      case Erase(site, index) =>
        var c := s.clients[site];
        s.(clients := s.clients[site := Submit(c, LocalDeleteOp(c.doc, index).value)])
      case ServerApply(site) =>
        var c := s.clients[site];
        s.(clients := s.clients[site := c.(busy := true)], cache := Step(s.cache, c.pending[0]))
      case ServerAppend(site) =>
        var c := s.clients[site];
        s.(clients := s.clients[site := c.(pending := c.pending[1..], busy := false, seen := c.seen + {c.pending[0]})],
           log := s.log + [c.pending[0]])
      case Deliver(site, j) =>
        s.(clients := s.clients[site := Receive(s.clients[site], s.log[j])])
  }

  function Exec(run: seq<Action>): System {
    if run == [] then INITIAL else Do(Exec(run[..|run| - 1]), run[|run| - 1])
  }

  // ----- what is known where -----

  /** The operations applied to the cached document whose append is outstanding. */
  function InFlight(s: System): set<Op> {
    set site | site in s.clients && s.clients[site].busy && s.clients[site].pending != [] :: s.clients[site].pending[0]
  }

  function Pending(s: System): set<Op> {
    set site, op | site in s.clients && op in s.clients[site].pending :: op
  }

  function AllOps(s: System): set<Op> {
    OpsOf(s.log) + Pending(s)
  }

  function Knows(c: Client): set<Op> {
    c.seen + OpsOf(c.pending)
  }

  // ----- the invariant -----

  /** A pending operation finds what it needs in the log or earlier in the queue, and its uid is its own. */
  ghost predicate QueuedOk(log: seq<Op>, site: string, pending: seq<Op>, i: nat)
    requires i < |pending|
  {
    var before := OpsOf(log) + OpsOf(pending[..i]);
    && DepsMet(before, pending[i])
    && (pending[i].Insert? ==> pending[i].uid.siteId == site && pending[i].uid !in Inserted(before))
  }

  ghost predicate QueueOk(log: seq<Op>, site: string, pending: seq<Op>) {
    forall i {:trigger QueuedOk(log, site, pending, i)} :: 0 <= i < |pending| ==> QueuedOk(log, site, pending, i)
  }

  /**
   * A client shows exactly what it has seen and submitted, its clock is the largest one it shows, and its
   * queue can be logged in order.
   */
  ghost predicate ClientOk(log: seq<Op>, site: string, c: Client) {
    && (c.busy ==> c.pending != [])
    && Represents(c.doc, Knows(c))
    && ClockIs(c.doc, c.clock, 0)
    && QueueOk(log, site, c.pending)
    && Inserted(c.seen) <= Inserted(OpsOf(log))
  }

  /** A site's clock is at least that of every uid it ever issued. */
  ghost predicate IssuedOk(s: System, o: Op) {
    o.Insert? ==> o.uid.siteId in s.clients && o.uid.clock <= s.clients[o.uid.siteId].clock
  }

  ghost predicate ServerOk(s: System) {
    && WellFormedOps(AllOps(s))
    && CausallyOrdered(s.log)
    && Represents(s.cache, OpsOf(s.log) + InFlight(s))
    && (forall o {:trigger IssuedOk(s, o)} :: o in AllOps(s) ==> IssuedOk(s, o))
  }

  ghost predicate SiteOk(s: System, site: string)
    requires site in s.clients
  {
    ClientOk(s.log, site, s.clients[site]) && s.clients[site].seen <= AllOps(s)
  }

  ghost predicate Inv(s: System) {
    && ServerOk(s)
    && (forall site {:trigger SiteOk(s, site)} :: site in s.clients ==> SiteOk(s, site))
  }

  lemma SiteMeans(s: System, site: string)
    requires Inv(s) && site in s.clients
    ensures ClientOk(s.log, site, s.clients[site]) && s.clients[site].seen <= AllOps(s)
  {
    assert SiteOk(s, site);
  }

  /** A join takes a snapshot of a document in which no INSERT is waiting to be logged. */
  ghost predicate JoinIsClear(s: System) {
    forall o :: o in InFlight(s) ==> !o.Insert?
  }

  ghost predicate ClearJoins(run: seq<Action>)
    decreases |run|
  {
    run == [] ||
    (var init, last := run[..|run| - 1], run[|run| - 1];
     ClearJoins(init) && (last.Join? ==> JoinIsClear(Exec(init))))
  }

  // ----- small facts -----

  lemma OpsOfHead(s: seq<Op>)
    requires s != []
    ensures OpsOf(s) == {s[0]} + OpsOf(s[1..])
  {
  }

  lemma PendingIs(s: System, site: string)
    requires site in s.clients
    ensures OpsOf(s.clients[site].pending) <= Pending(s)
  {
  }

  lemma InFlightIsPending(s: System)
    ensures InFlight(s) <= Pending(s)
  {
    forall o | o in InFlight(s)
      ensures o in Pending(s)
    {
      var x :| x in s.clients && s.clients[x].busy && s.clients[x].pending != [] && s.clients[x].pending[0] == o;
      assert o in s.clients[x].pending;
    }
  }

  lemma KnowsIsIssued(s: System, site: string)
    requires Inv(s) && site in s.clients
    ensures Knows(s.clients[site]) <= AllOps(s)
  {
    SiteMeans(s, site);
    PendingIs(s, site);
  }

  /** Everything a client can build on is logged or in its own queue. */
  lemma KnowsIsGrounded(s: System, site: string)
    requires Inv(s) && site in s.clients
    ensures var c := s.clients[site]; Inserted(Knows(c)) <= Inserted(OpsOf(s.log) + OpsOf(c.pending))
  {
    var c := s.clients[site];
    SiteMeans(s, site);
    InsertedUnion(c.seen, OpsOf(c.pending));
    InsertedUnion(OpsOf(s.log), OpsOf(c.pending));
  }

  // ----- local edits -----

  lemma IssuedPending(s: System, site: string, c': Client, op: Op)
    requires site in s.clients && c'.pending == s.clients[site].pending + [op]
    requires c'.busy == s.clients[site].busy && (c'.busy ==> s.clients[site].pending != [])
    ensures var s' := s.(clients := s.clients[site := c']);
      AllOps(s') == AllOps(s) + {op} && InFlight(s') == InFlight(s)
  {
    var s' := s.(clients := s.clients[site := c']);
    assert op in s'.clients[site].pending;
    forall o | o in Pending(s) + {op}
      ensures o in Pending(s')
    {
      if o in Pending(s) {
        var x :| x in s.clients && o in s.clients[x].pending;
        assert o in s'.clients[x].pending;
      }
    }
    forall o
      ensures o in InFlight(s') <==> o in InFlight(s)
    {
      if o in InFlight(s) {
        var x :| x in s.clients && s.clients[x].busy && s.clients[x].pending != [] && s.clients[x].pending[0] == o;
        assert s'.clients[x].pending[0] == o;
      }
      if o in InFlight(s') {
        var x :| x in s'.clients && s'.clients[x].busy && s'.clients[x].pending != [] && s'.clients[x].pending[0] == o;
        assert s.clients[x].pending[0] == o;
      }
    }
  }

  /** An operation a client can submit: new, well formed beside all others, and applicable to its own list. */
  ghost predicate Submittable(s: System, site: string, op: Op)
    requires site in s.clients
  {
    && WellFormedOps(AllOps(s) + {op})
    && Apply(s.clients[site].doc, op).applied
    && (op.Insert? ==> op.uid.siteId == site && op.uid !in Inserted(AllOps(s)))
  }

  /** What a submittable operation needs is already known, hence logged or queued. */
  lemma SubmittedDeps(s: System, site: string, op: Op)
    requires Inv(s) && site in s.clients && Submittable(s, site, op)
    ensures DepsMet(OpsOf(s.log) + OpsOf(s.clients[site].pending), op)
  {
    var c := s.clients[site];
    SiteMeans(s, site);
    var known := Knows(c);
    KnowsIsIssued(s, site);
    KnowsIsGrounded(s, site);
    SubsetWellFormed(known + {op}, AllOps(s) + {op});
    AppliedIffDepsMet(c.doc, known, op);
    InsertedMonotone(known, AllOps(s));
    RepresentsMeans(c.doc, known);
  }

  lemma SubmitQueueOk(s: System, site: string, op: Op)
    requires Inv(s) && site in s.clients && Submittable(s, site, op)
    ensures QueueOk(s.log, site, s.clients[site].pending + [op])
  {
    var c := s.clients[site];
    var queue := c.pending + [op];
    SiteMeans(s, site);
    SubmittedDeps(s, site, op);
    PendingIs(s, site);
    InsertedMonotone(OpsOf(s.log) + OpsOf(c.pending), AllOps(s));
    forall i | 0 <= i < |queue|
      ensures QueuedOk(s.log, site, queue, i)
    {
      if i < |c.pending| {
        assert QueuedOk(s.log, site, c.pending, i);
        assert queue[i] == c.pending[i] && queue[..i] == c.pending[..i];
      } else {
        assert queue[..i] == c.pending;
      }
    }
  }

  /** Submitting keeps the client in order. */
  lemma SubmitOk(s: System, site: string, op: Op, clock: nat)
    requires Inv(s) && site in s.clients && Submittable(s, site, op)
    requires ClockIs(Step(s.clients[site].doc, op), clock, 0)
    ensures ClientOk(s.log, site, Submit(s.clients[site], op).(clock := clock))
  {
    var c := s.clients[site];
    SiteMeans(s, site);
    WellFormedOne(AllOps(s) + {op}, op);
    ClientApplyIsStep(c.doc, op);
    SubmitView(s, site, op, Submit(c, op).(clock := clock));
    SubmitQueueOk(s, site, op);
  }

  lemma SubmitView(s: System, site: string, op: Op, c': Client)
    requires Inv(s) && site in s.clients && Submittable(s, site, op)
    requires c'.pending == s.clients[site].pending + [op] && c'.seen == s.clients[site].seen
    requires c'.doc == Step(s.clients[site].doc, op)
    ensures Represents(c'.doc, Knows(c'))
  {
    var c := s.clients[site];
    SiteMeans(s, site);
    var known := Knows(c);
    KnowsIsIssued(s, site);
    SubsetWellFormed(known + {op}, AllOps(s) + {op});
    StepRepresents(c.doc, known, op);
    OpsOfAppend(c.pending, op);
    assert Knows(c') == known + {op};
  }

  /** The uid of a local insertion is new everywhere in the system, and above its anchor. */
  lemma GeneratedUidIsNew(s: System, site: string, op: Op)
    requires Inv(s) && site in s.clients
    requires op.Insert? && op.uid == UID(s.clients[site].clock + 1, site) && Less(Anchor(op), op.uid)
    ensures op.uid !in Inserted(AllOps(s))
    ensures WellFormedOps(AllOps(s) + {op})
  {
    forall o | o in AllOps(s) && o.Insert?
      ensures o.uid != op.uid
    {
      assert IssuedOk(s, o);
    }
    WellFormedMeans(AllOps(s));
    assert op.uid != ROOT_UID;
  }

  /** A step of one client leaves the others in order. */
  lemma OthersUntouched(s: System, s': System, site: string)
    requires Inv(s) && s'.log == s.log && AllOps(s) <= AllOps(s')
    requires site in s'.clients && s'.clients == s.clients[site := s'.clients[site]]
    requires SiteOk(s', site)
    ensures forall x :: x in s'.clients ==> SiteOk(s', x)
  {
    forall x | x in s'.clients
      ensures SiteOk(s', x)
    {
      assert x != site ==> SiteOk(s, x);
    }
  }

  lemma IssuedStays(s: System, s': System, site: string)
    requires ServerOk(s) && site in s'.clients
    requires s'.clients == s.clients[site := s'.clients[site]]
    requires site in s.clients ==> s.clients[site].clock <= s'.clients[site].clock
    requires forall o :: o in AllOps(s') && o !in AllOps(s) ==> IssuedOk(s', o)
    ensures forall o :: o in AllOps(s') ==> IssuedOk(s', o)
  {
    forall o | o in AllOps(s')
      ensures IssuedOk(s', o)
    {
      assert o in AllOps(s) ==> IssuedOk(s, o);
    }
  }

  lemma SubmitKeepsInv(s: System, site: string, op: Op, clock: nat)
    requires Inv(s) && site in s.clients && Submittable(s, site, op)
    requires ClockIs(Step(s.clients[site].doc, op), clock, 0) && s.clients[site].clock <= clock
    requires op.Insert? ==> op.uid.clock <= clock
    ensures Inv(s.(clients := s.clients[site := Submit(s.clients[site], op).(clock := clock)]))
  {
    var c' := Submit(s.clients[site], op).(clock := clock);
    var s' := s.(clients := s.clients[site := c']);
    SiteMeans(s, site);
    SubmitOk(s, site, op, clock);
    IssuedPending(s, site, c', op);
    IssuedStays(s, s', site);
    OthersUntouched(s, s', site);
  }

  lemma TypeIsSubmittable(s: System, site: string, index: int, value: string)
    requires Inv(s) && site in s.clients
    ensures var c := s.clients[site];
      var op := LocalInsertOp(c.doc, c.clock, site, index, value);
      Submittable(s, site, op) && ClockIs(Step(c.doc, op), c.clock + 1, 0)
  {
    var c := s.clients[site];
    var op := LocalInsertOp(c.doc, c.clock, site, index, value);
    SiteMeans(s, site);
    GeneratedInsertIsAboveAnchor(c.doc, c.clock, site, index, value);
    GeneratedUidIsNew(s, site, op);
    TypedApplies(c.doc, c.clock, op);
    ClockTicks(c.doc, c.clock, site, index, value, 0);
  }

  lemma TypeKeepsInv(s: System, a: Action)
    requires Inv(s) && a.Type? && Enabled(s, a)
    ensures Inv(Do(s, a))
  {
    var c := s.clients[a.site];
    TypeIsSubmittable(s, a.site, a.index, a.value);
    SubmitKeepsInv(s, a.site, LocalInsertOp(c.doc, c.clock, a.site, a.index, a.value), c.clock + 1);
  }

  lemma TypedApplies(d: Doc, clock: nat, op: Op)
    requires ClocksBounded(d, clock) && op.Insert? && op.uid.clock == clock + 1
    requires !Known(d, op.uid) && Known(d, Anchor(op))
    ensures Apply(d, op).applied && ClocksBounded(Step(d, op), clock + 1)
  {
  }

  lemma EraseTarget(d: Doc, clock: nat, index: int)
    requires WellFormed(d) && LocalDeleteOp(d, index).Some? && ClocksBounded(d, clock)
    ensures var op := LocalDeleteOp(d, index).value;
      op.Delete? && op.uid != ROOT_UID && Apply(d, op).applied && ClocksBounded(Step(d, op), clock)
  {
    LocalDeleteMeaning(d, index);
    ClockBoundKept(d, clock, LocalDeleteOp(d, index).value);
  }

  lemma EraseKeepsInv(s: System, a: Action)
    requires Inv(s) && a.Erase? && Enabled(s, a)
    ensures Inv(Do(s, a))
  {
    var c := s.clients[a.site];
    var op := LocalDeleteOp(c.doc, a.index).value;
    SiteMeans(s, a.site);
    RepresentsMeans(c.doc, Knows(c));
    EraseTarget(c.doc, c.clock, a.index);
    ClockFollows(c.doc, c.clock, op, 0);
    ClientApplyIsStep(c.doc, op);
    DeleteIsWellFormed(AllOps(s), op);
    SubmitKeepsInv(s, a.site, op, c.clock);
    assert Submit(c, op).(clock := c.clock) == Submit(c, op);
  }

  lemma DeleteIsWellFormed(ops: set<Op>, op: Op)
    requires WellFormedOps(ops) && op.Delete? && op.uid != ROOT_UID
    ensures WellFormedOps(ops + {op})
  {
    WellFormedMeans(ops);
  }
}
