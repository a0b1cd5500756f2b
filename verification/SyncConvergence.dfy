/** What runs come to: convergence at rest, broadcasts that cross, and why joins must be clear. */
module SyncConvergence {
  import opened Uids
  import opened Rga
  import opened Convergence
  import opened LocalEdits
  import opened SyncSystem
  import opened SyncSteps

  // ----- convergence -----

  /** Nothing waits to be logged. */
  ghost predicate AtRest(s: System) {
    forall site :: site in s.clients ==> s.clients[site].pending == []
  }

  /** Nothing waits to be logged and every logged operation has taken effect everywhere. */
  ghost predicate Quiescent(s: System) {
    AtRest(s) && forall site :: site in s.clients ==> OpsOf(s.log) <= s.clients[site].seen
  }

  lemma RestKnows(s: System, site: string)
    requires Inv(s) && AtRest(s) && site in s.clients
    ensures AllOps(s) == OpsOf(s.log) && InFlight(s) == {}
    ensures Knows(s.clients[site]) == s.clients[site].seen <= OpsOf(s.log)
  {
    SiteMeans(s, site);
    assert Pending(s) == {};
    InFlightIsPending(s);
    assert OpsOf([]) == {};
  }

  /** The client shows what replaying the log from scratch shows. */
  ghost predicate Agrees(s: System, site: string) {
    site in s.clients && s.clients[site].doc == Replay([], s.log)
  }

  /**
   * Exactly when a client at rest agrees with the log: when every logged operation has taken effect on
   * it. A broadcast that overtook what it builds on was dropped, and nothing retries it.
   */
  lemma AgreesAtRestIff(s: System, site: string)
    requires Inv(s) && AtRest(s) && site in s.clients
    ensures Agrees(s, site) <==> OpsOf(s.log) <= s.clients[site].seen
  {
    var c := s.clients[site];
    SiteMeans(s, site);
    RestKnows(s, site);
    CausalReplayRepresents(s.log);
    ReplicasAgreeIff(c.doc, Replay([], s.log), c.seen, OpsOf(s.log), OpsOf(s.log));
  }

  /**
   * Convergence of the whole system: after any run with clear joins that has come to rest, every client,
   * the worker's cached document and a replay of the log from scratch are the same list.
   */
  lemma EveryRunConverges(run: seq<Action>, site: string)
    requires ClearJoins(run) && Quiescent(Exec(run)) && site in Exec(run).clients
    ensures var s := Exec(run);
      s.clients[site].doc == s.cache == Replay([], s.log)
  {
    EveryRunKeepsInv(run);
    RestKnows(Exec(run), site);
    AgreesAtRestIff(Exec(run), site);
    CacheAgreesWithLog(run);
  }

  /** The broadcasts of the first `n` log entries, in log order. */
  function CatchUp(site: string, n: nat): seq<Action> {
    if n == 0 then [] else CatchUp(site, n - 1) + [Deliver(site, n - 1)]
  }

  lemma {:induction false} DoAllLast(s: System, run: seq<Action>, a: Action)
    ensures DoAll(s, run + [a]) == Do(DoAll(s, run), a)
    decreases |run|
  {
    if run == [] {
      assert run + [a] == [a] && [a][1..] == [];
    } else {
      assert (run + [a])[1..] == run[1..] + [a];
      DoAllLast(Do(s, run[0]), run[1..], a);
    }
  }

  lemma OpsOfNext(log: seq<Op>, n: nat)
    requires 1 <= n <= |log|
    ensures OpsOf(log[..n]) == OpsOf(log[..n - 1]) + {log[n - 1]}
  {
    OpsOfAppend(log[..n - 1], log[n - 1]);
    assert log[..n] == log[..n - 1] + [log[n - 1]];
  }

  /** One broadcast more. */
  lemma NextDeliveryCatchesUp(s: System, site: string, n: nat)
    requires Inv(s) && site in s.clients && 1 <= n <= |s.log| && OpsOf(s.log[..n - 1]) <= s.clients[site].seen
    ensures var s' := Do(s, Deliver(site, n - 1));
      && Inv(s') && s'.log == s.log && site in s'.clients
      && s'.clients[site].pending == s.clients[site].pending && OpsOf(s.log[..n]) <= s'.clients[site].seen
  {
    NextDeliveryTakesEffect(s, site, n - 1);
    OpsOfNext(s.log, n);
  }

  /** Delivered in log order every broadcast takes effect, whatever arrived before. */
  lemma {:induction false} InOrderDeliveryCatchesUp(s: System, site: string, n: nat)
    requires Inv(s) && site in s.clients && n <= |s.log|
    ensures var s' := DoAll(s, CatchUp(site, n));
      && Inv(s') && s'.log == s.log && site in s'.clients
      && s.clients[site].pending == s'.clients[site].pending
      && OpsOf(s.log[..n]) <= s'.clients[site].seen
  {
    if n == 0 {
      assert OpsOf(s.log[..0]) == {};
    } else {
      var before := DoAll(s, CatchUp(site, n - 1));
      InOrderDeliveryCatchesUp(s, site, n - 1);
      DoAllLast(s, CatchUp(site, n - 1), Deliver(site, n - 1));
      NextDeliveryCatchesUp(before, site, n);
    }
  }

  lemma NextDeliveryTakesEffect(s: System, site: string, j: nat)
    requires Inv(s) && site in s.clients && j < |s.log| && OpsOf(s.log[..j]) <= s.clients[site].seen
    ensures var s' := Do(s, Deliver(site, j));
      && Inv(s') && s'.log == s.log && site in s'.clients
      && s'.clients[site].pending == s.clients[site].pending
      && s'.clients[site].seen == s.clients[site].seen + {s.log[j]}
  {
    DeliveryKeepsInv(s, Deliver(site, j));
    DeliveryTakesEffectIff(s, site, j);
    assert InOrderAt(s.log, j);
    DepsMetGrows(OpsOf(s.log[..j]), Knows(s.clients[site]), s.log[j]);
  }

  predicate Logged(log: seq<Op>, js: seq<nat>) {
    forall i :: 0 <= i < |js| ==> js[i] < |log|
  }

  /** The log entries `js`, in that order, and their broadcasts. */
  function Entries(log: seq<Op>, js: seq<nat>): (r: seq<Op>)
    requires Logged(log, js)
    ensures OpsOf(r) <= OpsOf(log)
  {
    if js == [] then [] else [log[js[0]]] + Entries(log, js[1..])
  }

  function Broadcasts(site: string, js: seq<nat>): seq<Action> {
    if js == [] then [] else [Deliver(site, js[0])] + Broadcasts(site, js[1..])
  }

  /** Nothing arrives twice, save what the client has seen already. */
  ghost predicate EachOnce(seen: set<Op>, ops: seq<Op>) {
    forall t, u :: 0 <= t < u < |ops| && ops[t] == ops[u] ==> ops[t] in seen
  }

  /** Each broadcast finds the node it names among what was seen before and what came in front of it. */
  ghost predicate ArrivesInOrder(seen: set<Op>, ops: seq<Op>) {
    forall t {:trigger FindsAt(seen, ops, t)} :: 0 <= t < |ops| ==> FindsAt(seen, ops, t)
  }

  ghost predicate FindsAt(seen: set<Op>, ops: seq<Op>, t: nat)
    requires t < |ops|
  {
    DepsMet(seen + OpsOf(ops[..t]), ops[t])
  }

  lemma ArrivesOneByOne(seen: set<Op>, ops: seq<Op>)
    requires ops != []
    ensures ArrivesInOrder(seen, ops) <==> DepsMet(seen, ops[0]) && ArrivesInOrder(seen + {ops[0]}, ops[1..])
  {
    var rest := ops[1..];
    assert seen + OpsOf(ops[..0]) == seen;
    forall t | 0 <= t < |rest|
      ensures FindsAt(seen + {ops[0]}, rest, t) <==> FindsAt(seen, ops, t + 1)
    {
      OpsOfHead(ops[..t + 1]);
      assert ops[..t + 1][1..] == rest[..t];
      assert seen + {ops[0]} + OpsOf(rest[..t]) == seen + OpsOf(ops[..t + 1]);
    }
    if DepsMet(seen, ops[0]) && ArrivesInOrder(seen + {ops[0]}, rest) {
      forall t | 0 <= t < |ops|
        ensures FindsAt(seen, ops, t)
      {
        assert t > 0 ==> FindsAt(seen + {ops[0]}, rest, t - 1);
      }
    }
    if ArrivesInOrder(seen, ops) {
      assert FindsAt(seen, ops, 0);
      forall t | 0 <= t < |rest|
        ensures FindsAt(seen + {ops[0]}, rest, t)
      {
        assert FindsAt(seen, ops, t + 1);
      }
    }
  }

  /** At rest a broadcast takes effect exactly when the client has seen the node it names. */
  lemma DeliverAtRest(s: System, site: string, j: nat)
    requires Inv(s) && AtRest(s) && site in s.clients && j < |s.log|
    ensures var s', seen := Do(s, Deliver(site, j)), s.clients[site].seen;
      && Inv(s') && AtRest(s') && s'.log == s.log && site in s'.clients
      && s'.clients[site].seen == seen + (if DepsMet(seen, s.log[j]) then {s.log[j]} else {})
      && (s.log[j] in seen ==> DepsMet(seen, s.log[j]))
  {
    var c, op := s.clients[site], s.log[j];
    RestKnows(s, site);
    SiteMeans(s, site);
    DeliveryKeepsInv(s, Deliver(site, j));
    DeliveryTakesEffectIff(s, site, j);
    EffectOf(c.doc, c.seen, op);
    SubsetWellFormed(c.seen, c.seen + {op});
    if op in c.seen {
      RepresentedDeps(c.doc, c.seen, op);
    }
  }

  lemma EntriesOneByOne(log: seq<Op>, site: string, js: seq<nat>)
    requires js != [] && Logged(log, js)
    ensures Logged(log, js[1..]) && js[0] < |log|
    ensures Entries(log, js) == [log[js[0]]] + Entries(log, js[1..])
    ensures Broadcasts(site, js)[0] == Deliver(site, js[0]) && Broadcasts(site, js)[1..] == Broadcasts(site, js[1..])
  {
  }

  lemma EachOnceTail(seen: set<Op>, first: Op, rest: seq<Op>)
    requires EachOnce(seen, [first] + rest)
    ensures EachOnce(seen, rest) && EachOnce(seen + {first}, rest)
    ensures first in seen || first !in rest
  {
    var ops := [first] + rest;
    assert forall t :: 0 <= t < |rest| ==> rest[t] == ops[t + 1];
    if first in rest {
      var t :| 0 <= t < |rest| && rest[t] == first;
      assert ops[0] == ops[t + 1];
    }
  }

  /** Every broadcast takes effect exactly when each finds what it builds on; one that does not is lost for good. */
  lemma {:induction false} BroadcastsSeen(s: System, site: string, js: seq<nat>)
    requires Inv(s) && AtRest(s) && site in s.clients && Logged(s.log, js)
    requires EachOnce(s.clients[site].seen, Entries(s.log, js))
    ensures var s', seen, ops := DoAll(s, Broadcasts(site, js)), s.clients[site].seen, Entries(s.log, js);
      && Inv(s') && AtRest(s') && s'.log == s.log && site in s'.clients
      && s'.clients[site].seen <= seen + OpsOf(ops)
      && (ArrivesInOrder(seen, ops) <==> s'.clients[site].seen == seen + OpsOf(ops))
    decreases |js|
  {
    if js != [] {
      var seen, first, s1 := s.clients[site].seen, s.log[js[0]], Do(s, Deliver(site, js[0]));
      EntriesOneByOne(s.log, site, js);
      var rest := Entries(s.log, js[1..]);
      EachOnceTail(seen, first, rest);
      DeliverAtRest(s, site, js[0]);
      assert seen + {} == seen;
      BroadcastsSeen(s1, site, js[1..]);
      SeenNext(seen, first, rest, s1.clients[site].seen, DoAll(s1, Broadcasts(site, js[1..])).clients[site].seen);
    }
  }

  lemma SeenNext(seen: set<Op>, first: Op, rest: seq<Op>, next: set<Op>, last: set<Op>)
    requires next == seen + if DepsMet(seen, first) then {first} else {}
    requires first in seen ==> DepsMet(seen, first)
    requires first in seen || first !in rest
    requires last <= next + OpsOf(rest) && (ArrivesInOrder(next, rest) <==> last == next + OpsOf(rest))
    ensures last <= seen + OpsOf([first] + rest)
    ensures ArrivesInOrder(seen, [first] + rest) <==> last == seen + OpsOf([first] + rest)
  {
    var ops := [first] + rest;
    assert ops[1..] == rest;
    OpsOfHead(ops);
    ArrivesOneByOne(seen, ops);
  }

  /**
   * Exactly when a client that gets every entry it has not seen once agrees with the log in the end: when
   * the broadcasts arrive in an order in which each finds the node it names. The order need not be the log's.
   */
  lemma DeliveryOrderIff(s: System, site: string, js: seq<nat>)
    requires Inv(s) && AtRest(s) && site in s.clients && Logged(s.log, js)
    requires EachOnce(s.clients[site].seen, Entries(s.log, js))
    requires OpsOf(s.log) <= s.clients[site].seen + OpsOf(Entries(s.log, js))
    ensures Agrees(DoAll(s, Broadcasts(site, js)), site) <==>
      ArrivesInOrder(s.clients[site].seen, Entries(s.log, js))
  {
    var s', seen, ops := DoAll(s, Broadcasts(site, js)), s.clients[site].seen, Entries(s.log, js);
    BroadcastsSeen(s, site, js);
    RestKnows(s, site);
    assert seen + OpsOf(ops) == OpsOf(s.log);
    AgreesAtRestIff(s', site);
    RestKnows(s', site);
  }

  /** Two broadcasts that cross: the second needs the first, arrives before it, and is lost. */
  lemma CrossedBroadcastIsLost(s: System, site: string, i: nat, j: nat)
    requires Inv(s) && AtRest(s) && site in s.clients && i < |s.log| && j < |s.log| && s.log[i] != s.log[j]
    requires s.log[j] !in s.clients[site].seen && !DepsMet(s.clients[site].seen, s.log[j])
    ensures var s' := Do(Do(s, Deliver(site, j)), Deliver(site, i));
      Inv(s') && AtRest(s') && s'.log == s.log && site in s'.clients && !Agrees(s', site)
  {
    RestKnows(s, site);
    DeliveryTakesEffectIff(s, site, j);
    DeliveryKeepsInv(s, Deliver(site, j));
    var s1 := Do(s, Deliver(site, j));
    DeliveryKeepsInv(s1, Deliver(site, i));
    var s' := Do(s1, Deliver(site, i));
    assert s.log[j] in OpsOf(s.log) && s.log[j] !in s'.clients[site].seen;
    AgreesAtRestIff(s', site);
  }

  function Round(site: string, index: int, value: string): seq<Action> {
    [Type(site, index, value), ServerApply(site), ServerAppend(site)]
  }

  lemma ExecNext(run: seq<Action>, a: Action)
    ensures Exec(run + [a]) == Do(Exec(run), a)
    ensures ClearJoins(run) && (a.Join? ==> JoinIsClear(Exec(run))) ==> ClearJoins(run + [a])
  {
    assert (run + [a])[..|run + [a]| - 1] == run;
  }

  lemma ExecThree(run: seq<Action>, a: Action, b: Action, c: Action)
    requires ClearJoins(run) && !a.Join? && !b.Join? && !c.Join?
    ensures ClearJoins(run + [a, b, c]) && Exec(run + [a, b, c]) == Do(Do(Do(Exec(run), a), b), c)
  {
    ExecNext(run, a);
    ExecNext(run + [a], b);
    ExecNext(run + [a] + [b], c);
    assert run + [a, b, c] == run + [a] + [b] + [c];
  }

  /** A character typed, applied and appended before anything else happens. */
  lemma RoundDoes(s: System, site: string, index: int, value: string)
    requires site in s.clients && s.clients[site].pending == [] && !s.clients[site].busy
    ensures var s' := Do(Do(Do(s, Type(site, index, value)), ServerApply(site)), ServerAppend(site));
      var c := s.clients[site];
      var op := LocalInsertOp(c.doc, c.clock, site, index, value);
      && s'.log == s.log + [op] && s'.cache == Step(s.cache, op) && s'.clients.Keys == s.clients.Keys
      && s'.clients[site] == c.(doc := ClientApply(c.doc, op), clock := c.clock + 1, seen := c.seen + {op})
      && forall x :: x in s.clients && x != site ==> s'.clients[x] == s.clients[x]
  {
    var s1 := Do(s, Type(site, index, value));
    var s2 := Do(s1, ServerApply(site));
    assert s1.clients[site].pending == [LocalInsertOp(s.clients[site].doc, s.clients[site].clock, site, index, value)];
    assert s2.clients[site] == s1.clients[site].(busy := true);
  }

  lemma TwoJoins(first: string, second: string)
    requires first != second
    ensures var s := Exec([Join(first), Join(second)]);
      && ClearJoins([Join(first), Join(second)]) && s.log == [] && s.clients.Keys == {first, second}
      && s.clients[first] == s.clients[second] == EMPTY_CLIENT
  {
    ExecNext([], Join(first));
    ExecNext([Join(first)], Join(second));
    assert [] + [Join(first)] == [Join(first)] && [Join(first)] + [Join(second)] == [Join(first), Join(second)];
    var s1 := Exec([Join(first)]);
    assert OpsOf([]) == {} && InFlight(INITIAL) == {};
    assert s1.clients[first] == EMPTY_CLIENT;
    assert InFlight(s1) == {};
  }

  /** The first character of the document is typed, and a third client joins before anybody hears of it. */
  const UNHEARD := [Join("b"), Join("a")] + Round("a", 0, "x") + [Join("c")]

  lemma FirstInsert()
    ensures var x := Insert(UID(1, "a"), None, "x");
      LocalInsertOp([], 0, "a", 0, "x") == x && Step([], x) == [Element(UID(1, "a"), "x", false)]
  {
  }

  lemma FirstCharacter()
    ensures var run := [Join("b"), Join("a")] + Round("a", 0, "x");
      var x, now, s := Insert(UID(1, "a"), None, "x"), [Element(UID(1, "a"), "x", false)], Exec(run);
      && ClearJoins(run) && s.log == [x] && s.cache == now && s.clients.Keys == {"a", "b"} && AtRest(s)
      && s.clients["b"] == EMPTY_CLIENT && !s.clients["a"].busy
  {
    var joins := [Join("b"), Join("a")];
    TwoJoins("b", "a");
    ExecThree(joins, Type("a", 0, "x"), ServerApply("a"), ServerAppend("a"));
    FirstInsert();
    RoundDoes(Exec(joins), "a", 0, "x");
  }

  lemma UnheardDoes()
    ensures var x, now, s := Insert(UID(1, "a"), None, "x"), [Element(UID(1, "a"), "x", false)], Exec(UNHEARD);
      && ClearJoins(UNHEARD) && s.log == [x] && s.cache == now && s.clients.Keys == {"a", "b", "c"} && AtRest(s)
      && s.clients["b"] == EMPTY_CLIENT && s.clients["c"] == Client(now, 1, [], false, {x})
  {
    var typed, now := [Join("b"), Join("a")] + Round("a", 0, "x"), [Element(UID(1, "a"), "x", false)];
    FirstCharacter();
    var s := Exec(typed);
    NothingInFlight(s);
    ExecNext(typed, Join("c"));
    assert MaxClock(now) == 1 by {
      assert now[..0] == [];
    }
    assert Joined(s).seen == {s.log[0]};
  }

  lemma NothingInFlight(s: System)
    requires AtRest(s)
    ensures InFlight(s) == {} && JoinIsClear(s)
  {
  }

  /** What the newcomer types names the first character. */
  lemma AnswerIs()
    ensures LocalInsertOp([Element(UID(1, "a"), "x", false)], 1, "c", 1, "y") ==
      Insert(UID(2, "c"), Some(UID(1, "a")), "y")
  {
    LiveOfOne(Element(UID(1, "a"), "x", false));
  }

  /** The newcomer's character is logged as well, and the second client still has heard of nothing. */
  lemma AnsweredDoes()
    ensures var x, y := Insert(UID(1, "a"), None, "x"), Insert(UID(2, "c"), Some(UID(1, "a")), "y");
      var run := UNHEARD + Round("c", 1, "y");
      var s := Exec(run);
      && ClearJoins(run) && s.log == [x, y] && s.clients.Keys == {"a", "b", "c"} && AtRest(s)
      && s.clients["b"] == EMPTY_CLIENT
  {
    var s := Exec(UNHEARD);
    UnheardDoes();
    AnswerIs();
    ExecThree(UNHEARD, Type("c", 1, "y"), ServerApply("c"), ServerAppend("c"));
    RoundDoes(s, "c", 1, "y");
    var s' := Exec(UNHEARD + Round("c", 1, "y"));
    assert s'.clients["a"] == s.clients["a"] && s'.clients["c"].pending == [];
  }

  /** Of two entries, the second anchored at the first, only log order is such an order. */
  lemma CrossingOrders(s: System, x: Op, y: Op)
    requires Inv(s) && AtRest(s) && "b" in s.clients && s.clients["b"].seen == {} && s.log == [x, y]
    requires x.Insert? && Anchor(x) == ROOT_UID && y.Insert? && Anchor(y) == x.uid != ROOT_UID
    ensures !Agrees(DoAll(s, Broadcasts("b", [1, 0])), "b") && Agrees(DoAll(s, Broadcasts("b", [0, 1])), "b")
  {
    CrossedEntries(x, y);
    assert OpsOf([x, y]) == {x, y} == OpsOf([y, x]);
    DeliveryOrderIff(s, "b", [1, 0]);
    DeliveryOrderIff(s, "b", [0, 1]);
  }

  lemma CrossedEntries(x: Op, y: Op)
    requires x.Insert? && Anchor(x) == ROOT_UID && y.Insert? && Anchor(y) == x.uid != ROOT_UID
    ensures Entries([x, y], [0, 1]) == [x, y] && Entries([x, y], [1, 0]) == [y, x]
    ensures EachOnce({}, [x, y]) && EachOnce({}, [y, x])
    ensures ArrivesInOrder({}, [x, y]) && !ArrivesInOrder({}, [y, x])
  {
    assert [1, 0][1..] == [0] && [0, 1][1..] == [1] && [0][1..] == [] && [1][1..] == [];
    assert Entries([x, y], [0]) == [x] && Entries([x, y], [1]) == [y];
    assert x.uid !in Inserted({});
    ArrivesOneByOne({}, [y, x]);
    ArrivesOneByOne({}, [x, y]);
    ArrivesOneByOne({x}, [y]);
    assert [x, y][1..] == [y] && [y][1..] == [] && {} + {x} == {x} && x.uid in Inserted({x});
  }

  /**
   * A run that gets there: a newcomer joins between the append of the first character and its publication,
   * types behind it, and its broadcast arrives first.
   */
  lemma CrossedBroadcastExample()
    ensures var run := UNHEARD + Round("c", 1, "y");
      var s := Exec(run);
      && ClearJoins(run) && AtRest(s) && |s.log| == 2 && s.log[0].uid.siteId == "a" && s.log[1].uid.siteId == "c"
      && !Agrees(DoAll(s, Broadcasts("b", [1, 0])), "b") && Agrees(DoAll(s, Broadcasts("b", [0, 1])), "b")
  {
    AnsweredDoes();
    EveryRunKeepsInv(UNHEARD + Round("c", 1, "y"));
    CrossingOrders(Exec(UNHEARD + Round("c", 1, "y")),
                   Insert(UID(1, "a"), None, "x"), Insert(UID(2, "c"), Some(UID(1, "a")), "y"));
  }

  /**
   * At any moment with nothing in flight, the cached document is the replay of the log,
   * whatever order it was applied in.
   */
  lemma CacheAgreesWithLog(run: seq<Action>)
    requires ClearJoins(run) && InFlight(Exec(run)) == {}
    ensures Exec(run).cache == Replay([], Exec(run).log)
  {
    var s := Exec(run);
    EveryRunKeepsInv(run);
    assert OpsOf(s.log) + InFlight(s) == OpsOf(s.log);
    assert OpsOf(s.log) <= AllOps(s);
    SubsetWellFormed(OpsOf(s.log), AllOps(s));
    CausalReplayRepresents(s.log);
    RepresentsIsUnique(s.cache, Replay([], s.log), OpsOf(s.log));
  }

  // ----- why joins must be clear -----

  predicate InsertInFlight(s: System, site: string) {
    site in s.clients && s.clients[site].busy && s.clients[site].pending != [] && s.clients[site].pending[0].Insert?
  }

  /** The node of an in-flight INSERT is visible in the cached document: nobody else can have deleted it yet. */
  lemma InFlightNodeIsLive(s: System, site: string) returns (n: nat)
    requires Inv(s) && InsertInFlight(s, site)
    ensures n >= 1 && IndexToUid(s.cache, n) == Some(s.clients[site].pending[0].uid)
  {
    var op := s.clients[site].pending[0];
    var applied := OpsOf(s.log) + InFlight(s);
    SiteMeans(s, site);
    HeadDepsLogged(s, site);
    assert op in InFlight(s);
    InFlightNotDeleted(s, site, op);
    RepresentsMeans(s.cache, applied);
    HasIsInserted(s.cache, applied, op.uid);
    var e := s.cache[IndexOf(s.cache, op.uid)];
    assert ElementOk(e, applied);
    PositionsAreABijection(s.cache);
    assert e in s.cache && UidToIndex(s.cache, op.uid).Some?;
    n := UidToIndex(s.cache, op.uid).value;
  }

  lemma InFlightNotDeleted(s: System, site: string, op: Op)
    requires Inv(s) && site in s.clients && s.clients[site].busy && s.clients[site].pending != []
    requires op == s.clients[site].pending[0] && op.Insert?
    ensures op.uid !in Deleted(OpsOf(s.log) + InFlight(s))
  {
    HeadDepsLogged(s, site);
    forall o | o in OpsOf(s.log) + InFlight(s) && o.Delete?
      ensures o.uid in Inserted(OpsOf(s.log))
    {
      if o in OpsOf(s.log) {
        var i :| 0 <= i < |s.log| && s.log[i] == o;
        assert InOrderAt(s.log, i);
        OpsOfPrefix(s.log, i);
        InsertedMonotone(OpsOf(s.log[..i]), OpsOf(s.log));
      } else {
        var x :| x in s.clients && s.clients[x].busy && s.clients[x].pending != [] && s.clients[x].pending[0] == o;
        HeadDepsLogged(s, x);
      }
    }
  }

  /** What a newcomer types right behind the in-flight node, and the log once the worker has been faster with it. */
  function Overtake(newcomer: string, n: nat, value: string): seq<Action> {
    [Join(newcomer), Type(newcomer, n, value), ServerApply(newcomer), ServerAppend(newcomer)]
  }

  function DoAll(s: System, run: seq<Action>): System
    decreases |run|
  {
    if run == [] then s else DoAll(Do(s, run[0]), run[1..])
  }

  lemma OvertakeSteps(s: System, x: string, n: nat, value: string)
    requires Enabled(s, Join(x))
    ensures var s' := DoAll(s, Overtake(x, n, value));
      var b := LocalInsertOp(s.cache, MaxClock(s.cache), x, n, value);
      s'.log == s.log + [b] && s'.cache == Step(s.cache, b)
  {
    DoAllFour(s, Join(x), Type(x, n, value), ServerApply(x), ServerAppend(x));
    var s1 := Do(s, Join(x));
    var s2 := Do(s1, Type(x, n, value));
    assert s2.clients[x].pending == [LocalInsertOp(s.cache, MaxClock(s.cache), x, n, value)];
  }

  lemma DoAllFirst(s: System, a: Action, rest: seq<Action>)
    ensures DoAll(s, [a] + rest) == DoAll(Do(s, a), rest)
  {
    assert ([a] + rest)[1..] == rest;
  }

  lemma DoAllFour(s: System, a: Action, b: Action, c: Action, d: Action)
    ensures DoAll(s, [a, b, c, d]) == Do(Do(Do(Do(s, a), b), c), d)
  {
    DoAllFirst(s, a, [b, c, d]);
    DoAllFirst(Do(s, a), b, [c, d]);
    DoAllFirst(Do(Do(s, a), b), c, [d]);
    DoAllFirst(Do(Do(Do(s, a), b), c), d, []);
    assert [a, b, c, d] == [a] + [b, c, d] && [b, c, d] == [b] + [c, d] && [c, d] == [c] + [d] && [d] == [d] + [];
  }

  /** The log is out of causal order, and its last character is shown by the cache but lost to a replay. */
  ghost predicate LogIsBroken(s: System) {
    && !CausallyOrdered(s.log)
    && s.log != [] && Has(s.cache, s.log[|s.log| - 1].uid)
    && !Has(Replay([], s.log), s.log[|s.log| - 1].uid)
  }

  /**
   * The other half: whenever an INSERT is in flight, a join is not safe. A newcomer that types behind
   * the unlogged node and is appended first leaves a log that is not causally ordered, and replaying
   * that log loses its character while the cached document shows it.
   */
  lemma UnclearJoinBreaksTheLog(s: System, site: string, newcomer: string, value: string)
    requires Inv(s) && Enabled(s, Join(newcomer))
    requires InsertInFlight(s, site)
    ensures exists n :: n >= 1 && LogIsBroken(DoAll(s, Overtake(newcomer, n, value)))
  {
    var n := InFlightNodeIsLive(s, site);
    var a := s.clients[site].pending[0];
    var b := LocalInsertOp(s.cache, MaxClock(s.cache), newcomer, n, value);
    var s' := DoAll(s, Overtake(newcomer, n, value));
    OvertakeSteps(s, newcomer, n, value);
    assert Anchor(b) == a.uid;
    OvertakenShows(s, b, n, newcomer, value);
    OvertakenLost(s, site, a, b);
    assert s'.log[..|s.log|] == s.log && s'.log[|s.log|] == b;
    ReplayOne([], s.log, b);
    assert !InOrderAt(s'.log, |s.log|);
    assert LogIsBroken(s');
  }

  /** A run that gets there: one client joins, types, and the worker has applied but not yet appended. */
  lemma UnclearJoinExample()
    ensures var run := [Join("a"), Type("a", 0, "x"), ServerApply("a")];
      && ClearJoins(run) && InsertInFlight(Exec(run), "a")
      && exists n :: n >= 1 && LogIsBroken(DoAll(Exec(run), Overtake("b", n, "y")))
  {
    AppliedFirst();
    EveryRunKeepsInv([Join("a"), Type("a", 0, "x"), ServerApply("a")]);
    UnclearJoinBreaksTheLog(Exec([Join("a"), Type("a", 0, "x"), ServerApply("a")]), "a", "b", "y");
  }

  lemma AppliedFirst()
    ensures var run := [Join("a"), Type("a", 0, "x"), ServerApply("a")];
      ClearJoins(run) && InsertInFlight(Exec(run), "a") && "b" !in Exec(run).clients
  {
    var a, b, c := Join("a"), Type("a", 0, "x"), ServerApply("a");
    ExecNext([], a);
    ExecNext([a], b);
    ExecNext([a, b], c);
    assert [] + [a] == [a] && [a] + [b] == [a, b] && [a, b] + [c] == [a, b, c];
    assert InFlight(INITIAL) == {} && ClearJoins([]);
    var s1 := Do(INITIAL, a);
    assert s1.clients["a"].pending == [];
  }

  lemma OvertakenShows(s: System, b: Op, n: nat, newcomer: string, value: string)
    requires b == LocalInsertOp(s.cache, MaxClock(s.cache), newcomer, n, value)
    ensures Has(Step(s.cache, b), b.uid)
  {
    GeneratedInsertIsAboveAnchor(s.cache, MaxClock(s.cache), newcomer, n, value);
    var q := ScanRight(s.cache, GapAfter(s.cache, Anchor(b)), b.uid);
    assert Step(s.cache, b)[q].uid == b.uid;
  }

  lemma OvertakenLost(s: System, site: string, a: Op, b: Op)
    requires Inv(s) && InsertInFlight(s, site) && s.clients[site].pending[0] == a
    requires b.Insert? && Anchor(b) == a.uid && !Known(s.cache, b.uid)
    ensures !DepsMet(OpsOf(s.log), b)
    ensures !Has(Step(Replay([], s.log), b), b.uid)
  {
    SiteMeans(s, site);
    HeadDepsLogged(s, site);
    assert OpsOf(s.log) <= AllOps(s);
    SubsetWellFormed(OpsOf(s.log), AllOps(s));
    WellFormedOne(AllOps(s), a);
    CausalReplayRepresents(s.log);
    var d := Replay([], s.log);
    HasIsInserted(d, OpsOf(s.log), a.uid);
    HasIsInserted(d, OpsOf(s.log), b.uid);
    HasIsInserted(s.cache, OpsOf(s.log) + InFlight(s), b.uid);
    InsertedUnion(OpsOf(s.log), InFlight(s));
  }

  /** From `s` on, every join in `run` is clear. */
  ghost predicate ClearFrom(s: System, run: seq<Action>)
    decreases |run|
  {
    run == [] || ((run[0].Join? ==> JoinIsClear(s)) && ClearFrom(Do(s, run[0]), run[1..]))
  }

  lemma {:induction false} ClearRunKeepsInv(s: System, run: seq<Action>)
    requires Inv(s) && ClearFrom(s, run)
    ensures Inv(DoAll(s, run))
    decreases |run|
  {
    if run != [] {
      StepKeepsInv(s, run[0]);
      ClearRunKeepsInv(Do(s, run[0]), run[1..]);
    }
  }

  /** Whatever happens after `s`, as long as later joins are clear, the log stays causally ordered. */
  ghost predicate StaysCausal(s: System) {
    forall run :: ClearFrom(s, run) ==> CausallyOrdered(DoAll(s, run).log)
  }

  /** Exactly when a join is safe for everything that can follow: when no INSERT is in flight. */
  lemma JoinIsSafeIff(s: System, newcomer: string)
    requires Inv(s) && Enabled(s, Join(newcomer))
    ensures JoinIsClear(s) <==> StaysCausal(Do(s, Join(newcomer)))
  {
    var joined := Do(s, Join(newcomer));
    if JoinIsClear(s) {
      StepKeepsInv(s, Join(newcomer));
      forall run | ClearFrom(joined, run)
        ensures CausallyOrdered(DoAll(joined, run).log)
      {
        ClearRunKeepsInv(joined, run);
      }
    } else {
      var o :| o in InFlight(s) && o.Insert?;
      var site :| site in s.clients &&
        s.clients[site].busy && s.clients[site].pending != [] && s.clients[site].pending[0] == o;
      UnclearJoinBreaksTheLog(s, site, newcomer, "x");
      var n :| n >= 1 && LogIsBroken(DoAll(s, Overtake(newcomer, n, "x")));
      OvertakeIsClear(joined, newcomer, n, "x");
      assert DoAll(s, Overtake(newcomer, n, "x")) == DoAll(joined, Overtake(newcomer, n, "x")[1..]);
    }
  }

  lemma OvertakeIsClear(s: System, x: string, n: nat, value: string)
    ensures ClearFrom(s, Overtake(x, n, value)[1..])
  {
    var run := Overtake(x, n, value)[1..];
    assert run == [Type(x, n, value), ServerApply(x), ServerAppend(x)];
    assert run[1..] == [ServerApply(x), ServerAppend(x)] && run[1..][1..] == [ServerAppend(x)];
    assert run[1..][1..][1..] == [];
    var s1 := Do(s, run[0]);
    var s2 := Do(s1, run[1]);
    assert ClearFrom(s2, [ServerAppend(x)]);
    assert ClearFrom(s1, run[1..]);
  }
}
