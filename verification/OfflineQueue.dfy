/** The client's queue of unacknowledged operations, and why nothing in it is lost within a page session. */
module OfflineQueues {
  import opened Uids
  import opened Rga
  import opened LocalEdits

  datatype QueuedOperation = QueuedOperation(clientSeq: nat, op: Op, nonce: string, attempts: nat)

  function Unacknowledged(queue: seq<QueuedOperation>, clientSeq: nat): (r: seq<QueuedOperation>)
    ensures forall q :: q in r <==> q in queue && q.clientSeq != clientSeq
  {
    if queue == [] then []
    else (if queue[0].clientSeq != clientSeq then [queue[0]] else []) + Unacknowledged(queue[1..], clientSeq)
  }

  lemma {:induction false} UnacknowledgedConcat(a: seq<QueuedOperation>, b: seq<QueuedOperation>, clientSeq: nat)
    ensures Unacknowledged(a + b, clientSeq) == Unacknowledged(a, clientSeq) + Unacknowledged(b, clientSeq)
  {
    if a == [] {
      assert a + b == b;
    } else {
      assert (a + b)[1..] == a[1..] + b;
      UnacknowledgedConcat(a[1..], b, clientSeq);
    }
  }

  ghost predicate NoneNumbered(queue: seq<QueuedOperation>, clientSeq: nat) {
    forall i :: 0 <= i < |queue| ==> queue[i].clientSeq != clientSeq
  }

  lemma {:induction false} UnacknowledgedAll(queue: seq<QueuedOperation>, clientSeq: nat)
    requires NoneNumbered(queue, clientSeq)
    ensures Unacknowledged(queue, clientSeq) == queue
  {
    if queue != [] {
      UnacknowledgedAll(queue[1..], clientSeq);
    }
  }

  lemma UnacknowledgedOne(q: QueuedOperation)
    ensures Unacknowledged([q], q.clientSeq) == []
  {
  }

  /** An ACK takes the entry with its number out and leaves the others where they are. */
  lemma AcknowledgedIsCutOut(a: seq<QueuedOperation>, q: QueuedOperation, b: seq<QueuedOperation>, n: nat)
    requires q.clientSeq == n && NoneNumbered(a, n) && NoneNumbered(b, n)
    ensures Unacknowledged(a + [q] + b, n) == a + b
  {
    UnacknowledgedConcat(a + [q], b, n);
    UnacknowledgedConcat(a, [q], n);
    UnacknowledgedAll(a, n);
    UnacknowledgedAll(b, n);
    UnacknowledgedOne(q);
    assert a + [] == a;
  }

  class OfflineQueue {
    var queue: seq<QueuedOperation>

    constructor (stored: seq<QueuedOperation>)
      ensures queue == stored
    {
      queue := stored;
    }

    method Enqueue(op: QueuedOperation)
      modifies this
      ensures queue == old(queue) + [op]
    {
      queue := queue + [op];
    }

    /** Drops every entry with that client sequence number. */
    method Acknowledge(clientSeq: nat)
      modifies this
      ensures queue == Unacknowledged(old(queue), clientSeq)
    {
      queue := Unacknowledged(queue, clientSeq);
    }

    method GetAll() returns (all: seq<QueuedOperation>)
      ensures all == queue
    {
      all := queue;
    }
  }

  // ----- one page session -----

  /**
   * What a page opens with: the site id of the browser, the clock its document starts from, the nonces it
   * is going to draw, the stored queue, and of the server the logged operations and the nonces its replay
   * guard remembers. ACKs of earlier sessions may have been lost, so stored operations may be logged.
   */
  datatype Page = Page(
    site: string, clock: nat, nonce: nat -> string, stored: seq<QueuedOperation>,
    logged: set<QueuedOperation>, nonces: set<string>)

  /** Client sequence numbers count from 1, INSERTs carry the browser's site id, and drawn nonces are fresh. */
  ghost predicate PageOk(page: Page) {
    && (forall q :: q in page.stored ==> q.clientSeq >= 1 && OwnOp(page.site, q.op))
    && (forall i, j :: page.nonce(i) == page.nonce(j) ==> i == j)
    && (forall i :: page.nonce(i) !in page.nonces)
    && (forall i, q :: q in page.stored || q in page.logged ==> page.nonce(i) != q.nonce)
  }

  predicate OwnOp(site: string, op: Op) {
    op.Insert? ==> op.uid.siteId == site
  }

  /**
   * A page session and its way to the server: what was generated, what waits for an ACK, the operation
   * messages and ACKs under way, and the server's log and replay guard.
   */
  datatype Session = Session(
    joined: bool, generated: set<QueuedOperation>, lastClientSeq: nat, queue: seq<QueuedOperation>,
    messages: set<QueuedOperation>, acks: set<nat>, logged: set<QueuedOperation>, nonces: set<string>)

  /**
   * `JoinAck` resends the queue. A message can be lost or refused by the rate limit (`Drop`), accepted, or
   * refused behind the replay guard, which then remembers its nonce. A remembered nonce expires in time.
   */
  datatype Event =
    | JoinAck
    | Edit(op: Op, sent: bool)
    | EmptyDelete
    | Drop(message: QueuedOperation)
    | Accept(message: QueuedOperation)
    | Refuse(message: QueuedOperation)
    | NonceExpires(nonce: string)
    | AckArrives(clientSeq: nat)
    | AckLost(clientSeq: nat)

  /** Opening the page: client sequence numbers restart, the stored queue is loaded. */
  function Open(page: Page): Session {
    Session(false, set q | q in page.stored, 0, page.stored, {}, {}, page.logged, page.nonces)
  }

  /** The queue entry of the `n`-th edit of the page. */
  function Entry(page: Page, n: nat, op: Op): QueuedOperation {
    QueuedOperation(n, op, page.nonce(n), 1)
  }

  /** The server takes a message whose nonce it does not remember and whose INSERT is the session's own. */
  predicate Acceptable(page: Page, s: Session, m: QueuedOperation) {
    m in s.messages && m.nonce !in s.nonces && OwnOp(page.site, m.op)
  }

  /** An event that cannot happen changes nothing; before the first JOIN_ACK there is no document to edit. */
  function Happen(page: Page, s: Session, e: Event): Session {
    match e
    case JoinAck => s.(joined := true, messages := s.messages + set q | q in s.queue)
    case Edit(op, sent) =>
      var q := Entry(page, s.lastClientSeq + 1, op);
      if s.joined then
        s.(generated := s.generated + {q}, lastClientSeq := s.lastClientSeq + 1, queue := s.queue + [q],
           messages := s.messages + if sent then {q} else {})
      else s
    case EmptyDelete => if s.joined then s.(lastClientSeq := s.lastClientSeq + 1) else s
    case Drop(m) => s.(messages := s.messages - {m})
    case Accept(m) =>
      if Acceptable(page, s, m) then
        s.(messages := s.messages - {m}, logged := s.logged + {m}, acks := s.acks + {m.clientSeq},
           nonces := s.nonces + {m.nonce})
      else s
    case Refuse(m) => s.(messages := s.messages - {m}, nonces := s.nonces + if m in s.messages then {m.nonce} else {})
    case NonceExpires(nonce) => s.(nonces := s.nonces - {nonce})
    case AckArrives(n) =>
      if n in s.acks then s.(queue := Unacknowledged(s.queue, n), acks := s.acks - {n}) else s
    case AckLost(n) => s.(acks := s.acks - {n})
  }

  function HappenAll(page: Page, s: Session, events: seq<Event>): Session {
    if events == [] then s
    else Happen(page, HappenAll(page, s, events[..|events| - 1]), events[|events| - 1])
  }

  function After(page: Page, events: seq<Event>): Session {
    HappenAll(page, Open(page), events)
  }

  /** Every generated operation is still queued or already in the server's log. */
  ghost predicate NothingLost(s: Session) {
    forall q :: q in s.generated ==> q in s.queue || q in s.logged
  }

  /** Every stored operation is logged already, and the replay guard still knows it. */
  ghost predicate Settled(page: Page) {
    forall q :: q in page.stored ==> q in page.logged && q.nonce in page.nonces
  }

  /** What is new has its number for itself, and an ACK under way stands for logged operations only. */
  ghost predicate SessionInv(page: Page, s: Session) {
    && NothingLost(s)
    && (forall q :: q in s.queue ==> q in s.generated)
    && s.messages <= s.generated
    && (forall q :: q in page.stored ==> q in s.logged && q.nonce in s.nonces)
    && (forall q :: q in s.generated && q !in page.stored ==> q.clientSeq <= s.lastClientSeq)
    && (forall p, q :: p in s.generated && q in s.generated && p !in page.stored && q !in page.stored ==>
      p.clientSeq == q.clientSeq ==> p == q)
    && (forall n :: n in s.acks ==> n <= s.lastClientSeq)
    && (forall n, q :: n in s.acks && q in s.generated && q.clientSeq == n ==> q in s.logged)
  }

  /** No nonce of a stored operation expires. */
  ghost predicate Remembers(page: Page, events: seq<Event>) {
    forall i :: 0 <= i < |events| && events[i].NonceExpires? ==>
      forall q :: q in page.stored ==> q.nonce != events[i].nonce
  }

  lemma HappenKeepsInv(page: Page, s: Session, e: Event)
    requires SessionInv(page, s)
    requires e.NonceExpires? ==> forall q :: q in page.stored ==> q.nonce != e.nonce
    ensures SessionInv(page, Happen(page, s, e))
  {
  }

  /** Over a whole page session, with messages and ACKs lost, resent and refused, nothing is lost. */
  lemma {:induction false} SessionIsSafe(page: Page, events: seq<Event>)
    requires Settled(page) && Remembers(page, events)
    ensures SessionInv(page, After(page, events))
  {
    if events != [] {
      var init, last := events[..|events| - 1], events[|events| - 1];
      assert Remembers(page, init) by {
        assert forall i :: 0 <= i < |init| ==> init[i] == events[i];
      }
      SessionIsSafe(page, init);
      HappenKeepsInv(page, After(page, init), last);
    }
  }

  /** Refused behind the replay guard, a message is refused on every resend, as long as its nonce does not expire. */
  lemma {:induction false} RefusedStaysUnlogged(page: Page, s: Session, m: QueuedOperation, events: seq<Event>)
    requires m in s.messages && m !in s.logged && NonceExpires(m.nonce) !in events
    ensures var s' := HappenAll(page, Happen(page, s, Refuse(m)), events); m !in s'.logged && m.nonce in s'.nonces
  {
    if events != [] {
      var init, last := events[..|events| - 1], events[|events| - 1];
      assert events == init + [last];
      RefusedStaysUnlogged(page, s, m, init);
    }
  }

  /** Attempts to edit once there is a document, deletions that found nothing included. */
  function Attempts(events: seq<Event>): nat {
    if events == [] then 0
    else
      var init, last := events[..|events| - 1], events[|events| - 1];
      Attempts(init) + if JoinAck in init && (last.Edit? || last.EmptyDelete?) then 1 else 0
  }

  /** Every attempt uses up one client sequence number. */
  lemma {:induction false} NumbersCountAttempts(page: Page, events: seq<Event>)
    ensures After(page, events).joined <==> JoinAck in events
    ensures After(page, events).lastClientSeq == Attempts(events)
  {
    if events != [] {
      NumbersCountAttempts(page, events[..|events| - 1]);
      assert events == events[..|events| - 1] + [events[|events| - 1]];
    }
  }

  ghost predicate Ascending(queue: seq<QueuedOperation>, last: nat) {
    && (forall i, j :: 0 <= i < j < |queue| ==> queue[i].clientSeq < queue[j].clientSeq)
    && (forall i :: 0 <= i < |queue| ==> queue[i].clientSeq <= last)
  }

  lemma {:induction false} AcknowledgeKeepsAscending(queue: seq<QueuedOperation>, last: nat, clientSeq: nat)
    requires Ascending(queue, last)
    ensures Ascending(Unacknowledged(queue, clientSeq), last)
  {
    if queue != [] {
      var rest := Unacknowledged(queue[1..], clientSeq);
      AcknowledgeKeepsAscending(queue[1..], last, clientSeq);
      forall i | 0 <= i < |rest|
        ensures queue[0].clientSeq < rest[i].clientSeq
      {
        assert rest[i] in queue[1..];
      }
    }
  }

  /** On a page that opened with nothing stored, the queue, and with it every resend, is in the order of the edits. */
  lemma {:induction false} QueueStaysInOrder(page: Page, events: seq<Event>)
    requires page.stored == []
    ensures Ascending(After(page, events).queue, After(page, events).lastClientSeq)
  {
    if events != [] {
      var init, last := events[..|events| - 1], events[|events| - 1];
      QueueStaysInOrder(page, init);
      if last.AckArrives? {
        var s := After(page, init);
        AcknowledgeKeepsAscending(s.queue, s.lastClientSeq, last.clientSeq);
      }
    }
  }

  // ----- what breaks it -----

  /** Edits are the INSERTs and DELETEs a client of this page generates. */
  ghost predicate ClientEdit(page: Page, e: Event) {
    e.Edit? ==> e.op.Delete? || (e.op.Insert? && e.op.uid.siteId == page.site && e.op.uid.clock > page.clock)
  }

  ghost predicate ClientRun(page: Page, events: seq<Event>) {
    forall i :: 0 <= i < |events| ==> ClientEdit(page, events[i])
  }

  /** A client's run during which the replay guard remembers the stored nonces. */
  ghost predicate TimelyRun(page: Page, events: seq<Event>) {
    ClientRun(page, events) && Remembers(page, events)
  }

  lemma {:induction false} HappenConcat(page: Page, s: Session, a: seq<Event>, b: seq<Event>)
    ensures HappenAll(page, s, a + b) == HappenAll(page, HappenAll(page, s, a), b)
  {
    if b == [] {
      assert a + b == a;
    } else {
      HappenConcat(page, s, a, b[..|b| - 1]);
      assert (a + b)[..|a + b| - 1] == a + b[..|b| - 1];
    }
  }

  /** What a client whose clock stands at `clock` submits when a character is typed at the start of any list. */
  function TypedAtStart(site: string, clock: nat): (op: Op)
    ensures forall d :: op == LocalInsertOp(d, clock, site, 0, "x")
  {
    Insert(UID(clock + 1, site), None, "x")
  }

  /** The queue entry of the `n`-th character typed by this page. */
  function Character(page: Page, n: nat): QueuedOperation
    requires n >= 1
  {
    Entry(page, n, TypedAtStart(page.site, page.clock + n - 1))
  }

  /** The `n`-th character is typed and sent; it is accepted and acknowledged, or dropped by the rate limit. */
  function Round(page: Page, n: nat, served: bool): seq<Event>
    requires n >= 1
  {
    var m := Character(page, n);
    [Edit(m.op, true)] + if served then [Accept(m), AckArrives(n)] else [Drop(m)]
  }

  function Rounds(page: Page, n: nat, served: bool): seq<Event> {
    if n == 0 then [] else Rounds(page, n - 1, served) + Round(page, n, served)
  }

  /** Of the resent entries only `kept` gets past the rate limit. */
  function Drops(queue: seq<QueuedOperation>, kept: set<QueuedOperation>): seq<Event> {
    if queue == [] then []
    else Drops(queue[..|queue| - 1], kept) + if queue[|queue| - 1] in kept then [] else [Drop(queue[|queue| - 1])]
  }

  /** `n` edits done, and the nonces to come are new to the server. */
  ghost predicate Ready(page: Page, s: Session, n: nat) {
    s.joined && s.lastClientSeq == n && forall i :: i > n ==> page.nonce(i) !in s.nonces
  }

  lemma {:induction false} DropsOnly(page: Page, s: Session, queue: seq<QueuedOperation>, kept: set<QueuedOperation>)
    ensures var s' := HappenAll(page, s, Drops(queue, kept));
      s' == s.(messages := s'.messages) && forall m :: m in s.messages && m in kept ==> m in s'.messages
  {
    if queue != [] {
      var init, last := queue[..|queue| - 1], queue[|queue| - 1];
      DropsOnly(page, s, init, kept);
      HappenConcat(page, s, Drops(init, kept), if last in kept then [] else [Drop(last)]);
      HappenOne(page, HappenAll(page, s, Drops(init, kept)), Drop(last));
    }
  }

  lemma HappenOne(page: Page, s: Session, e: Event)
    ensures HappenAll(page, s, [e]) == Happen(page, s, e)
  {
    assert [e][..0] == [];
  }

  lemma HappenTwo(page: Page, s: Session, e: Event, f: Event)
    ensures HappenAll(page, s, [e, f]) == Happen(page, Happen(page, s, e), f)
  {
    assert [e, f][..1] == [e];
    HappenOne(page, s, e);
  }

  lemma HappenThree(page: Page, s: Session, e: Event, f: Event, g: Event)
    ensures HappenAll(page, s, [e, f, g]) == Happen(page, Happen(page, Happen(page, s, e), f), g)
  {
    assert [e, f, g][..2] == [e, f];
    HappenTwo(page, s, e, f);
  }

  // ----- a stored operation that is not logged -----

  /** The acknowledged characters take a stored operation that is not logged with them. */
  lemma ServedRound(page: Page, s: Session, victim: QueuedOperation, n: nat)
    requires PageOk(page) && victim in page.stored && n >= 1 && Ready(page, s, n - 1)
    requires victim in s.generated && victim !in s.logged && (victim.clientSeq < n ==> victim !in s.queue)
    ensures var s' := HappenAll(page, s, Round(page, n, true));
      && Ready(page, s', n)
      && victim in s'.generated && victim !in s'.logged && (victim.clientSeq <= n ==> victim !in s'.queue)
  {
    var m := Character(page, n);
    HappenThree(page, s, Edit(m.op, true), Accept(m), AckArrives(n));
    assert Round(page, n, true) == [Edit(m.op, true), Accept(m), AckArrives(n)];
    assert m.nonce == page.nonce(n) != victim.nonce;
    assert forall i :: i > n ==> page.nonce(i) != page.nonce(n);
  }

  lemma {:induction false} ServedRounds(page: Page, s: Session, victim: QueuedOperation, n: nat)
    requires PageOk(page) && victim in page.stored && Ready(page, s, 0)
    requires victim in s.generated && victim !in s.logged
    ensures var s' := HappenAll(page, s, Rounds(page, n, true));
      && Ready(page, s', n)
      && victim in s'.generated && victim !in s'.logged && (victim.clientSeq <= n ==> victim !in s'.queue)
  {
    if n > 0 {
      ServedRounds(page, s, victim, n - 1);
      HappenConcat(page, s, Rounds(page, n - 1, true), Round(page, n, true));
      ServedRound(page, HappenAll(page, s, Rounds(page, n - 1, true)), victim, n);
    }
  }

  /**
   * The page joins, its stored operations are resent and dropped by the rate limit, and then as many characters
   * are typed, accepted and acknowledged as the stored number says.
   */
  function Overwriting(page: Page, victim: QueuedOperation): seq<Event> {
    [JoinAck] + Drops(page.stored, {}) + Rounds(page, victim.clientSeq, true)
  }

  lemma UnloggedLoses(page: Page, victim: QueuedOperation)
    requires PageOk(page) && victim in page.stored && victim !in page.logged
    ensures !NothingLost(After(page, Overwriting(page, victim)))
  {
    var start := [JoinAck] + Drops(page.stored, {});
    HappenConcat(page, Open(page), start, Rounds(page, victim.clientSeq, true));
    AfterResend(page, Open(page), {});
    ServedRounds(page, HappenAll(page, Open(page), start), victim, victim.clientSeq);
  }

  lemma AfterResend(page: Page, s: Session, kept: set<QueuedOperation>)
    ensures var s' := HappenAll(page, s, [JoinAck] + Drops(page.stored, kept));
      && s' == s.(joined := true, messages := s'.messages)
      && forall m :: m in s.queue && m in kept ==> m in s'.messages
  {
    HappenConcat(page, s, [JoinAck], Drops(page.stored, kept));
    HappenOne(page, s, JoinAck);
    DropsOnly(page, Happen(page, s, JoinAck), page.stored, kept);
  }

  // ----- a logged one whose nonce is forgotten -----

  /** Characters that are dropped stay in the queue, waiting for an ACK. */
  lemma DroppedRound(page: Page, s: Session, n: nat)
    requires PageOk(page) && n >= 1 && Ready(page, s, n - 1)
    ensures var s' := HappenAll(page, s, Round(page, n, false));
      && Ready(page, s', n) && s'.logged == s.logged && s'.acks == s.acks
      && Character(page, n) in s'.generated
  {
    var m := Character(page, n);
    HappenTwo(page, s, Edit(m.op, true), Drop(m));
    assert Round(page, n, false) == [Edit(m.op, true), Drop(m)];
  }

  lemma {:induction false} DroppedRounds(page: Page, s: Session, n: nat)
    requires PageOk(page) && Ready(page, s, 0)
    ensures var s' := HappenAll(page, s, Rounds(page, n, false));
      && Ready(page, s', n) && s'.logged == s.logged && s'.acks == s.acks
      && (n >= 1 ==> Character(page, n) in s'.generated)
  {
    if n > 0 {
      DroppedRounds(page, s, n - 1);
      HappenConcat(page, s, Rounds(page, n - 1, false), Round(page, n, false));
      DroppedRound(page, HappenAll(page, s, Rounds(page, n - 1, false)), n);
    }
  }

  /**
   * The resent operation is accepted a second time. Before its ACK arrives, as many characters are typed and
   * dropped as its number says; the ACK removes the last of them.
   */
  function Misled(page: Page, victim: QueuedOperation): seq<Event> {
    [JoinAck] + Drops(page.stored, {victim}) + [Accept(victim)]
    + Rounds(page, victim.clientSeq, false) + [AckArrives(victim.clientSeq)]
  }

  lemma ForgottenLoses(page: Page, s: Session, victim: QueuedOperation)
    requires PageOk(page) && victim in page.stored && s == Open(page).(nonces := s.nonces)
    requires s.nonces <= page.nonces && victim.nonce !in s.nonces
    ensures !NothingLost(HappenAll(page, s, Misled(page, victim)))
  {
    var n := victim.clientSeq;
    var resend := [JoinAck] + Drops(page.stored, {victim});
    var accepted := resend + [Accept(victim)];
    var typed := accepted + Rounds(page, n, false);
    AfterResend(page, s, {victim});
    HappenConcat(page, s, resend, [Accept(victim)]);
    HappenOne(page, HappenAll(page, s, resend), Accept(victim));
    HappenConcat(page, s, accepted, Rounds(page, n, false));
    DroppedRounds(page, HappenAll(page, s, accepted), n);
    HappenConcat(page, s, typed, [AckArrives(n)]);
    HappenOne(page, HappenAll(page, s, typed), AckArrives(n));
    var lost := Character(page, n);
    assert lost.nonce == page.nonce(n) && lost !in page.logged && lost != victim;
  }

  // ----- exactly when nothing can be lost -----

  lemma {:induction false} RoundsAreTimely(page: Page, n: nat, served: bool)
    ensures TimelyRun(page, Rounds(page, n, served))
  {
    if n > 0 {
      RoundsAreTimely(page, n - 1, served);
    }
  }

  lemma {:induction false} DropsAreTimely(page: Page, queue: seq<QueuedOperation>, kept: set<QueuedOperation>)
    ensures TimelyRun(page, Drops(queue, kept))
  {
    if queue != [] {
      DropsAreTimely(page, queue[..|queue| - 1], kept);
    }
  }

  lemma LosingRuns(page: Page, victim: QueuedOperation)
    ensures TimelyRun(page, Overwriting(page, victim)) && TimelyRun(page, Misled(page, victim))
  {
    RoundsAreTimely(page, victim.clientSeq, true);
    RoundsAreTimely(page, victim.clientSeq, false);
    DropsAreTimely(page, page.stored, {});
    DropsAreTimely(page, page.stored, {victim});
  }

  /**
   * Exactly when no run can lose an edit as long as the replay guard remembers the stored nonces: when every
   * stored operation is logged and its nonce remembered. Otherwise the restarted numbers collide with
   * stored ones, and one ACK removes two operations of which only one is logged.
   */
  lemma NothingLostWithinWindowIff(page: Page)
    requires PageOk(page)
    ensures (forall events :: TimelyRun(page, events) ==> NothingLost(After(page, events))) <==> Settled(page)
  {
    if Settled(page) {
      forall events | TimelyRun(page, events)
        ensures NothingLost(After(page, events))
      {
        SessionIsSafe(page, events);
      }
    } else {
      var victim :| victim in page.stored && (victim !in page.logged || victim.nonce !in page.nonces);
      LosingRuns(page, victim);
      if victim !in page.logged {
        UnloggedLoses(page, victim);
      } else {
        ForgottenLoses(page, Open(page), victim);
        assert After(page, Misled(page, victim)) == HappenAll(page, Open(page), Misled(page, victim));
      }
    }
  }

  /** Over any length of time, nonces expire, and the stored queue has to be empty. */
  lemma NothingLostIff(page: Page)
    requires PageOk(page)
    ensures (forall events :: ClientRun(page, events) ==> NothingLost(After(page, events))) <==> page.stored == []
  {
    if page.stored == [] {
      forall events | ClientRun(page, events)
        ensures NothingLost(After(page, events))
      {
        SessionIsSafe(page, events);
      }
    } else {
      ReloadLoses(page, page.stored[0]);
    }
  }

  /** For any stored operation, logged or not, there is such a run. */
  lemma ReloadLoses(page: Page, victim: QueuedOperation)
    requires PageOk(page) && victim in page.stored
    ensures exists events :: ClientRun(page, events) && !NothingLost(After(page, events))
  {
    LosingRuns(page, victim);
    if victim !in page.logged {
      UnloggedLoses(page, victim);
    } else {
      var s, expires := Open(page), [NonceExpires(victim.nonce)];
      HappenOne(page, s, NonceExpires(victim.nonce));
      HappenConcat(page, s, expires, Misled(page, victim));
      ForgottenLoses(page, Happen(page, s, NonceExpires(victim.nonce)), victim);
      assert ClientRun(page, expires + Misled(page, victim));
      assert !NothingLost(After(page, expires + Misled(page, victim)));
    }
  }
}
