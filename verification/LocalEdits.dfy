/** What a client's own edits mean: positions, Lamport clocks and the operations they generate. */
module LocalEdits {
  import opened Uids
  import opened Rga

  /** On a client an operation that cannot be applied is dropped, and every non-INSERT is taken as a DELETE. */
  function ClientApply(d: Doc, op: Op): Doc {
    if op.Insert? then ApplyInsert(d, op).doc else ApplyDelete(d, op.uid).doc
  }

  /** The Lamport clock follows the INSERTs that actually enter the list. */
  function ClientClock(d: Doc, clock: nat, op: Op): nat {
    if op.Insert? && !Known(d, op.uid) && Known(d, Anchor(op)) && op.uid.clock > clock then op.uid.clock else clock
  }

  function LocalInsertOp(d: Doc, clock: nat, siteId: string, index: int, value: string): Op {
    Insert(UID(clock + 1, siteId), IndexToUid(d, index), value)
  }

  function LocalDeleteOp(d: Doc, index: int): Option<Op> {
    match IndexToUid(d, index + 1)
    case None => None
    case Some(u) => Some(Delete(u))
  }

  predicate ClocksBounded(d: Doc, clock: nat) {
    forall i :: 0 <= i < |d| ==> d[i].uid.clock <= clock
  }

  /** Where the clock of a client starts that rebuilds its list from a snapshot. */
  function MaxClock(d: Doc): (c: nat)
    ensures ClocksBounded(d, c)
    ensures c == 0 || Seen(d, c)
  {
    if d == [] then 0
    else
      var c := MaxClock(d[..|d| - 1]);
      var last := d[|d| - 1].uid.clock;
      assert forall i :: 0 <= i < |d| - 1 ==> d[i] == d[..|d| - 1][i];
      if last > c then last else c
  }

  /** Some node carries this clock. */
  ghost predicate Seen(d: Doc, clock: nat) {
    exists i :: 0 <= i < |d| && d[i].uid.clock == clock
  }

  lemma ClientApplyIsStep(d: Doc, op: Op)
    requires !op.Rollback?
    ensures ClientApply(d, op) == Step(d, op)
  {
  }

  /** The clock keeps bounding the list, whatever arrives. */
  lemma ClockBoundKept(d: Doc, clock: nat, op: Op)
    requires ClocksBounded(d, clock)
    ensures ClocksBounded(ClientApply(d, op), ClientClock(d, clock, op)) && ClientClock(d, clock, op) >= clock
  {
  }

  // ----- the clock -----

  /** A clock that started at `start` bounds every clock in the list, and is one of them or where it started. */
  ghost predicate ClockIs(d: Doc, clock: nat, start: nat) {
    start <= clock && ClocksBounded(d, clock) && (clock == start || Seen(d, clock))
  }

  /** So it is the larger of the start and the largest clock in the list. */
  lemma ClockIsMax(d: Doc, clock: nat, start: nat)
    ensures ClockIs(d, clock, start) <==> clock == if start < MaxClock(d) then MaxClock(d) else start
  {
  }

  lemma SeenInserted(d: Doc, q: nat, e: Element, clock: nat)
    requires q <= |d| && (Seen(d, clock) || e.uid.clock == clock)
    ensures Seen(InsertAt(d, q, e), clock)
  {
    var d' := InsertAt(d, q, e);
    if e.uid.clock == clock {
      assert d'[q] == e;
    } else {
      var i :| 0 <= i < |d| && d[i].uid.clock == clock;
      var k := if i < q then i else i + 1;
      assert d'[k] == d[i];
    }
  }

  lemma SeenHidden(d: Doc, i: nat, clock: nat)
    requires i < |d| && Seen(d, clock)
    ensures Seen(d[i := d[i].(tombstoned := true)], clock)
  {
    var k :| 0 <= k < |d| && d[k].uid.clock == clock;
    assert d[i := d[i].(tombstoned := true)][k].uid == d[k].uid;
  }

  /** A remote operation keeps it so. */
  lemma ClockFollows(d: Doc, clock: nat, op: Op, start: nat)
    requires ClockIs(d, clock, start)
    ensures ClockIs(ClientApply(d, op), ClientClock(d, clock, op), start)
  {
    ClockBoundKept(d, clock, op);
    var c := ClientClock(d, clock, op);
    if op.Insert? && !Known(d, op.uid) && Known(d, Anchor(op)) {
      if c != start {
        SeenInserted(d, ScanRight(d, GapAfter(d, Anchor(op)), op.uid), Element(op.uid, op.value, false), c);
      }
    } else if !op.Insert? && Known(d, op.uid) && op.uid != ROOT_UID && c != start {
      SeenHidden(d, IndexOf(d, op.uid), c);
    }
  }

  /** A local insertion ticks it to the clock of the new node, one above everything seen. */
  lemma ClockTicks(d: Doc, clock: nat, siteId: string, index: int, value: string, start: nat)
    requires ClockIs(d, clock, start)
    ensures var op := LocalInsertOp(d, clock, siteId, index, value);
      op.uid == UID(clock + 1, siteId) && ClockIs(Step(d, op), clock + 1, start)
  {
    var op := LocalInsertOp(d, clock, siteId, index, value);
    GeneratedInsertIsAboveAnchor(d, clock, siteId, index, value);
    var q, e := ScanRight(d, GapAfter(d, Anchor(op)), op.uid), Element(op.uid, value, false);
    SeenInserted(d, q, e, clock + 1);
    BoundInserted(d, q, e, clock + 1);
  }

  lemma BoundInserted(d: Doc, q: nat, e: Element, clock: nat)
    requires q <= |d| && ClocksBounded(d, clock) && e.uid.clock <= clock
    ensures ClocksBounded(InsertAt(d, q, e), clock)
  {
  }

  datatype ClientEvent = Remote(op: Op) | TypeChar(index: int, value: string) | EraseChar(index: int)

  datatype ClientState = ClientState(doc: Doc, clock: nat)

  function Follow(s: ClientState, siteId: string, e: ClientEvent): ClientState {
    match e
    case Remote(op) => ClientState(ClientApply(s.doc, op), ClientClock(s.doc, s.clock, op))
    case TypeChar(index, value) =>
      ClientState(Step(s.doc, LocalInsertOp(s.doc, s.clock, siteId, index, value)), s.clock + 1)
    case EraseChar(index) =>
      match LocalDeleteOp(s.doc, index)
      case None => s
      case Some(op) => ClientState(ClientApply(s.doc, op), s.clock)
  }

  function FollowAll(s: ClientState, siteId: string, events: seq<ClientEvent>): ClientState {
    if events == [] then s else Follow(FollowAll(s, siteId, events[..|events| - 1]), siteId, events[|events| - 1])
  }

  /** Over every sequence of remote and local operations, the clock is the largest one seen. */
  lemma {:induction false} ClockIsLargestSeen(s: ClientState, siteId: string, events: seq<ClientEvent>, start: nat)
    requires ClockIs(s.doc, s.clock, start)
    ensures var t := FollowAll(s, siteId, events);
      ClockIs(t.doc, t.clock, start)
  {
    if events != [] {
      var before, last := FollowAll(s, siteId, events[..|events| - 1]), events[|events| - 1];
      ClockIsLargestSeen(s, siteId, events[..|events| - 1], start);
      match last {
        case Remote(op) => ClockFollows(before.doc, before.clock, op, start);
        case TypeChar(index, value) => ClockTicks(before.doc, before.clock, siteId, index, value, start);
        case EraseChar(index) =>
          var op := LocalDeleteOp(before.doc, index);
          if op.Some? {
            ClockFollows(before.doc, before.clock, op.value, start);
          }
      }
    }
  }

  // ----- ROLLBACK on a client -----

  /** A client takes the sentinel of a ROLLBACK for a DELETE, which changes nothing as long as no node has its uid. */
  lemma SentinelIsIgnoredIff(d: Doc, u: UID)
    requires WellFormed(d) && u != ROOT_UID
    ensures ClientApply(d, Rollback(u)) == d <==> forall e :: e in d && e.uid == u ==> e.tombstoned
  {
    if Has(d, u) {
      var i := IndexOf(d, u);
      assert d[i] in d;
      assert d[i].tombstoned ==> d[i := d[i].(tombstoned := true)] == d;
    }
  }

  // ----- local insertion -----

  /** A freshly ticked uid is above everything the client has, so it is new and beats every neighbour. */
  lemma TickedUidIsAbove(d: Doc, clock: nat, siteId: string)
    requires ClocksBounded(d, clock)
    ensures var u := UID(clock + 1, siteId);
      && !Known(d, u)
      && Less(ROOT_UID, u)
      && forall i :: 0 <= i < |d| ==> Less(d[i].uid, u) && CompareUID(d[i].uid, u) <= 0
  {
  }

  /** The gap behind the `index`-th visible node splits the visible list at `index`. */
  lemma {:induction false} GapOfPosition(d: Doc, index: nat) returns (p: nat)
    requires WellFormed(d) && index <= |Live(d)|
    ensures p <= |d| && Live(d[..p]) == Live(d)[..index] && Live(d[p..]) == Live(d)[index..]
    ensures index == 0 ==> p == 0
    ensures index > 0 ==> p > 0 && d[p - 1] == Live(d)[index - 1]
  {
    if index == 0 {
      p := 0;
      assert d[0..] == d;
    } else {
      var i := NodeOfPosition(d, index - 1);
      p := i + 1;
      CutAt(d, p);
    }
  }

  lemma LiveOfPrefix(d: Doc, j: nat)
    requires j < |d|
    ensures Live(d[..j + 1]) == (if d[0].tombstoned then [] else [d[0]]) + Live(d[1..][..j])
  {
    assert d[..j + 1] == [d[0]] + d[1..][..j];
    LiveConcat([d[0]], d[1..][..j]);
    LiveOfOne(d[0]);
  }

  lemma PrefixOfConcat<T>(a: seq<T>, b: seq<T>, n: nat)
    requires n < |b|
    ensures (a + b)[..|a| + n] == a + b[..n] && (a + b)[..|a| + n + 1] == a + b[..n + 1]
    ensures (a + b)[|a| + n] == b[n]
  {
  }

  /** The node at position `i` is the visible one number `index`. */
  ghost predicate StandsAt(d: Doc, live: Doc, index: nat, i: nat) {
    && i < |d| && index < |live| && d[i] == live[index] && !d[i].tombstoned
    && Live(d[..i]) == live[..index] && Live(d[..i + 1]) == live[..index + 1]
  }

  /** A node found behind the first one is found in the whole list, one further. */
  lemma StandsBehind(d: Doc, live: Doc, rest: Doc, n: nat, j: nat)
    requires d != [] && StandsAt(d[1..], rest, n, j)
    requires live == (if d[0].tombstoned then [] else [d[0]]) + rest
    ensures StandsAt(d, live, n + if d[0].tombstoned then 0 else 1, j + 1)
  {
    var first := if d[0].tombstoned then [] else [d[0]];
    LiveOfPrefix(d, j);
    LiveOfPrefix(d, j + 1);
    PrefixOfConcat(first, rest, n);
  }

  lemma {:induction false} NodeOfPosition(d: Doc, index: nat) returns (i: nat)
    requires index < |Live(d)|
    ensures i < |d| && d[i] == Live(d)[index] && !d[i].tombstoned
    ensures Live(d[..i]) == Live(d)[..index] && Live(d[..i + 1]) == Live(d)[..index + 1]
  {
    if !d[0].tombstoned && index == 0 {
      i := 0;
      assert d[..1] == [d[0]];
    } else {
      var n := index - if d[0].tombstoned then 0 else 1;
      var j := NodeOfPosition(d[1..], n);
      i := j + 1;
      StandsBehind(d, Live(d), Live(d[1..]), n, j);
    }
  }

  lemma NodeIsAt(d: Doc, i: nat)
    requires WellFormed(d) && i < |d|
    ensures IndexOf(d, d[i].uid) == i
  {
  }

  /** Where a local insertion lands: in the gap right behind the node the user sees on the left. */
  lemma LocalInsertLands(d: Doc, clock: nat, siteId: string, index: nat, value: string) returns (p: nat)
    requires WellFormed(d) && ClocksBounded(d, clock) && index <= |Live(d)|
    ensures var op := LocalInsertOp(d, clock, siteId, index, value);
      && p <= |d| && Apply(d, op).applied && Step(d, op) == InsertAt(d, p, Element(op.uid, value, false))
      && Live(d[..p]) == Live(d)[..index] && Live(d[p..]) == Live(d)[index..]
  {
    var op := LocalInsertOp(d, clock, siteId, index, value);
    p := GapOfPosition(d, index);
    TickedUidIsAbove(d, clock, siteId);
    if index > 0 {
      NodeIsAt(d, p - 1);
      assert Has(d, d[p - 1].uid);
    }
    assert GapAfter(d, Anchor(op)) == p;
  }

  /** Inserting at visible position `index` puts the new node exactly there. */
  lemma LocalInsertMeaning(d: Doc, clock: nat, siteId: string, index: nat, value: string)
    requires WellFormed(d) && ClocksBounded(d, clock) && index <= |Live(d)|
    ensures var op := LocalInsertOp(d, clock, siteId, index, value);
      && Apply(d, op).applied
      && Live(Step(d, op)) == Live(d)[..index] + [Element(op.uid, value, false)] + Live(d)[index..]
  {
    var p := LocalInsertLands(d, clock, siteId, index, value);
    var e := Element(UID(clock + 1, siteId), value, false);
    LiveOfInsert(d, p, e);
    LiveOfOne(e);
  }

  /** A generated INSERT names a uid above its anchor: the convergence hypothesis holds of client operations. */
  lemma GeneratedInsertIsAboveAnchor(d: Doc, clock: nat, siteId: string, index: int, value: string)
    requires ClocksBounded(d, clock)
    ensures var op := LocalInsertOp(d, clock, siteId, index, value);
      Less(Anchor(op), op.uid) && !Known(d, op.uid) && Known(d, Anchor(op)) && op.uid != ROOT_UID
  {
    TickedUidIsAbove(d, clock, siteId);
    if 1 <= index <= |Live(d)| {
      LiveMember(d, Live(d)[index - 1]);
      var i :| 0 <= i < |d| && d[i] == Live(d)[index - 1];
    }
  }

  /** Anywhere past the end, the new node comes to stand at the start. */
  lemma LocalInsertPastEnd(d: Doc, clock: nat, siteId: string, index: int, value: string)
    requires WellFormed(d) && ClocksBounded(d, clock) && !(0 <= index <= |Live(d)|)
    ensures var op := LocalInsertOp(d, clock, siteId, index, value);
      && Apply(d, op).applied
      && Live(Step(d, op)) == [Element(op.uid, value, false)] + Live(d)
  {
    LocalInsertMeaning(d, clock, siteId, 0, value);
    assert LocalInsertOp(d, clock, siteId, index, value) == LocalInsertOp(d, clock, siteId, 0, value);
  }

  // ----- local deletion -----

  lemma HiddenNodeLeavesView(d: Doc, i: nat, index: nat)
    requires i < |d| && index < |Live(d)|
    requires Live(d[..i]) == Live(d)[..index] && Live(d[..i + 1]) == Live(d)[..index + 1]
    ensures Live(d[i := d[i].(tombstoned := true)]) == Live(d)[..index] + Live(d)[index + 1..]
  {
    var hidden := d[i].(tombstoned := true);
    LiveOfUpdate(d, i, hidden);
    LiveOfOne(hidden);
    CutAt(d, i + 1);
    assert Live(d[i + 1..]) == Live(d)[index + 1..];
  }

  lemma DeleteOfNode(d: Doc, i: nat)
    requires WellFormed(d) && i < |d|
    ensures Apply(d, Delete(d[i].uid)) == Outcome(d[i := d[i].(tombstoned := true)], true)
  {
  }

  /** Deleting visible position `index` removes exactly that node from view. */
  lemma LocalDeleteMeaning(d: Doc, index: nat)
    requires WellFormed(d) && index < |Live(d)|
    ensures LocalDeleteOp(d, index).Some?
    ensures var op := LocalDeleteOp(d, index).value;
      && Known(d, op.uid) && op.uid != ROOT_UID && op.Delete?
      && Live(Step(d, op)) == Live(d)[..index] + Live(d)[index + 1..]
      && WellFormed(Step(d, op))
  {
    var i := NodeOfPosition(d, index);
    DeleteOfNode(d, i);
    HiddenNodeLeavesView(d, i, index);
    StepWellFormed(d, Delete(d[i].uid));
  }
}
