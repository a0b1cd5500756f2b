/** The per-session message queue of the WebSocket server: operations first, each kind in arrival order. */
module SessionQueues {

  datatype Message = Operation(id: nat) | Presence(id: nat) | Ping(id: nat)

  datatype Queued = Queued(priority: nat, msg: Message)

  function PriorityOf(m: Message): nat {
    if m.Operation? then 0 else 1
  }

  /** The operations among the messages, in order, or the other messages, in order. */
  function OfKind(s: seq<Message>, operation: bool): seq<Message> {
    if s == [] then []
    else OfKind(s[..|s| - 1], operation) + if s[|s| - 1].Operation? == operation then [s[|s| - 1]] else []
  }

  function Messages(q: seq<Queued>): (s: seq<Message>)
    ensures |s| == |q|
  {
    seq(|q|, i requires 0 <= i < |q| => q[i].msg)
  }

  lemma {:induction false} OfKindConcat(a: seq<Message>, b: seq<Message>, operation: bool)
    ensures OfKind(a + b, operation) == OfKind(a, operation) + OfKind(b, operation)
  {
    if b == [] {
      assert a + b == a;
    } else {
      assert (a + b)[..|a + b| - 1] == a + b[..|b| - 1];
      OfKindConcat(a, b[..|b| - 1], operation);
    }
  }

  lemma {:induction false} OfKindAllOrNone(s: seq<Message>, operation: bool)
    ensures (forall i :: 0 <= i < |s| ==> s[i].Operation? == operation) ==> OfKind(s, operation) == s
    ensures (forall i :: 0 <= i < |s| ==> s[i].Operation? != operation) ==> OfKind(s, operation) == []
  {
    if s != [] {
      OfKindAllOrNone(s[..|s| - 1], operation);
    }
  }

  /** `x` is put at the end of a sequence and at the end of one of the two parts of it. */
  lemma OneMoreInParts(s: seq<Message>, a: seq<Message>, b: seq<Message>, x: Message)
    requires multiset(s) == multiset(a) + multiset(b)
    ensures multiset(s + [x]) == multiset(a + [x]) + multiset(b) == multiset(a) + multiset(b + [x])
  {
  }

  lemma OfKindLast(s: seq<Message>, x: Message)
    ensures OfKind(s + [x], x.Operation?) == OfKind(s, x.Operation?) + [x]
    ensures OfKind(s + [x], !x.Operation?) == OfKind(s, !x.Operation?)
  {
    assert (s + [x])[..|s|] == s;
  }

  /** Every message is of exactly one of the two kinds. */
  lemma {:induction false} TwoKinds(s: seq<Message>)
    ensures multiset(s) == multiset(OfKind(s, true)) + multiset(OfKind(s, false))
  {
    if s != [] {
      var init, last := s[..|s| - 1], s[|s| - 1];
      TwoKinds(init);
      OneMoreInParts(init, OfKind(init, true), OfKind(init, false), last);
      OfKindLast(init, last);
      assert s == init + [last];
    }
  }

  function Spliced(q: seq<Queued>, i: nat, msg: Message): seq<Queued>
    requires i <= |q|
  {
    q[..i] + [Queued(PriorityOf(msg), msg)] + q[i..]
  }

  /** Of one kind, what was processed and what waits is what arrived, in order. */
  ghost predicate Accounted(arrived: seq<Message>, processed: seq<Message>, waiting: seq<Message>, operation: bool) {
    OfKind(arrived, operation) == OfKind(processed, operation) + OfKind(waiting, operation)
  }

  ghost predicate Waiting(q: seq<Queued>, arrived: seq<Message>, processed: seq<Message>) {
    && Sorted(q)
    && Accounted(arrived, processed, Messages(q), true)
    && Accounted(arrived, processed, Messages(q), false)
  }

  class Session {
    var messageQueue: seq<Queued>
    var isProcessing: bool
    ghost var Arrived: seq<Message>
    ghost var Processed: seq<Message>

    /** Sorted by priority; of each kind, what was processed and what waits is what arrived, in order. */
    ghost predicate Valid()
      reads this
    {
      && Waiting(messageQueue, Arrived, Processed)
      && (messageQueue != [] ==> isProcessing)
    }

    constructor ()
      ensures Valid() && Arrived == [] && Processed == [] && messageQueue == []
    {
      messageQueue, isProcessing, Arrived, Processed := [], false, [], [];
    }

    /** A message arrives: it goes in front of the first one of lower priority, and the drainer is started. */
    method OnMessage(msg: Message) returns (started: bool)
      requires Valid()
      modifies this
      ensures Valid() && Arrived == old(Arrived) + [msg] && Processed == old(Processed)
      ensures isProcessing && started == !old(isProcessing)
      ensures var waiting := old(Messages(messageQueue));
        Messages(messageQueue) ==
          if msg.Operation? then OfKind(waiting, true) + [msg] + OfKind(waiting, false) else waiting + [msg]
    {
      var i := PositionFor(messageQueue, PriorityOf(msg));
      SplicedKind(messageQueue, i, msg, Arrived, Processed, true);
      SplicedKind(messageQueue, i, msg, Arrived, Processed, false);
      SplicedSorted(messageQueue, i, msg);
      SplicedMessages(messageQueue, i, msg);
      started := !isProcessing;
      messageQueue, Arrived, isProcessing := Spliced(messageQueue, i, msg), Arrived + [msg], true;
    }

    /** The first position whose entry has a lower priority. */
    static method PositionFor(queue: seq<Queued>, priority: nat) returns (i: nat)
      ensures i <= |queue|
      ensures forall k :: 0 <= k < i ==> queue[k].priority <= priority
      ensures i < |queue| ==> priority < queue[i].priority
    {
      i := 0;
      while i < |queue| && priority >= queue[i].priority
        invariant i <= |queue|
        invariant forall k :: 0 <= k < i ==> queue[k].priority <= priority
      {
        i := i + 1;
      }
    }

    /** One turn of the drainer: takes the first message, an operation whenever one waits, or stops without any. */
    method TakeNext() returns (next: Message, more: bool)
      requires Valid() && isProcessing
      modifies this
      ensures Valid() && Arrived == old(Arrived)
      ensures more <==> old(messageQueue) != []
      ensures if more then
                && next == old(messageQueue)[0].msg && Processed == old(Processed) + [next]
                && isProcessing && messageQueue == old(messageQueue)[1..]
              else Processed == old(Processed) && !isProcessing && messageQueue == []
      ensures more && !next.Operation? ==> NoOperationIn(old(messageQueue))
    {
      if messageQueue == [] {
        isProcessing := false;
        return Ping(0), false;
      }
      ghost var q := messageQueue;
      next, more := messageQueue[0].msg, true;
      Taken(q, Arrived, Processed);
      messageQueue, Processed := messageQueue[1..], Processed + [next];
    }

    /** Operations are processed in arrival order, and so is the rest; each message that arrived at most once. */
    lemma ProcessedInOrder()
      requires Valid()
      ensures OfKind(Processed, true) <= OfKind(Arrived, true)
      ensures OfKind(Processed, false) <= OfKind(Arrived, false)
      ensures multiset(Processed) + multiset(Messages(messageQueue)) == multiset(Arrived)
    {
      TwoKinds(Processed);
      TwoKinds(Arrived);
      TwoKinds(Messages(messageQueue));
    }

    /** What waits is the operations and behind them the other messages. */
    lemma OperationsWaitInFront()
      requires Valid()
      ensures var waiting := Messages(messageQueue); waiting == OfKind(waiting, true) + OfKind(waiting, false)
    {
      SortedIsSplit(messageQueue);
    }
  }

  ghost predicate Sorted(q: seq<Queued>) {
    && (forall i :: 0 <= i < |q| ==> q[i].priority == PriorityOf(q[i].msg))
    && (forall i, j :: 0 <= i < j < |q| ==> q[i].priority <= q[j].priority)
  }

  ghost predicate NoOperationIn(q: seq<Queued>) {
    forall i :: 0 <= i < |q| ==> !q[i].msg.Operation?
  }

  /** No operation waits behind another message. */
  lemma SortedMeans(q: seq<Queued>, i: nat, j: nat)
    requires Sorted(q) && i < j < |q| && q[j].msg.Operation?
    ensures q[i].msg.Operation?
  {
  }

  lemma {:induction false} SortedIsSplit(q: seq<Queued>)
    requires Sorted(q)
    ensures Messages(q) == OfKind(Messages(q), true) + OfKind(Messages(q), false)
  {
    if q != [] {
      var n := |q| - 1;
      var init, last := q[..n], q[n].msg;
      SortedIsSplit(init);
      assert Messages(q) == Messages(init) + [last];
      if last.Operation? {
        forall i | 0 <= i < n
          ensures Messages(init)[i].Operation?
        {
          SortedMeans(q, i, n);
        }
        OfKindAllOrNone(Messages(init), true);
        OfKindAllOrNone(Messages(init), false);
      }
    }
  }

  lemma SplicedSorted(q: seq<Queued>, i: nat, msg: Message)
    requires Sorted(q) && i <= |q|
    requires forall k :: 0 <= k < i ==> q[k].priority <= PriorityOf(msg)
    requires i < |q| ==> PriorityOf(msg) < q[i].priority
    ensures Sorted(Spliced(q, i, msg))
  {
  }

  lemma MessagesCut(q: seq<Queued>, i: nat, msg: Message)
    requires i <= |q|
    ensures Messages(q) == Messages(q[..i]) + Messages(q[i..])
    ensures Messages(Spliced(q, i, msg)) == Messages(q[..i]) + [msg] + Messages(q[i..])
  {
  }

  lemma KindsApart(a: seq<Message>, b: seq<Message>)
    requires forall k :: 0 <= k < |a| ==> a[k].Operation?
    requires forall k :: 0 <= k < |b| ==> !b[k].Operation?
    ensures OfKind(a + b, true) == a && OfKind(a + b, false) == b
  {
    OfKindConcat(a, b, true);
    OfKindConcat(a, b, false);
    OfKindAllOrNone(a, true);
    OfKindAllOrNone(a, false);
    OfKindAllOrNone(b, true);
    OfKindAllOrNone(b, false);
  }

  /** An operation ends up behind the operations and in front of everything else, any other message at the end. */
  lemma SplicedMessages(q: seq<Queued>, i: nat, msg: Message)
    requires Sorted(q) && i <= |q|
    requires forall k :: 0 <= k < i ==> q[k].priority <= PriorityOf(msg)
    requires i < |q| ==> PriorityOf(msg) < q[i].priority
    ensures var waiting := Messages(q);
      Messages(Spliced(q, i, msg)) ==
        if msg.Operation? then OfKind(waiting, true) + [msg] + OfKind(waiting, false) else waiting + [msg]
  {
    var a, b := Messages(q[..i]), Messages(q[i..]);
    MessagesCut(q, i, msg);
    if msg.Operation? {
      forall k | 0 <= k < i
        ensures a[k].Operation?
      {
        assert q[k].priority == PriorityOf(q[k].msg) && q[k].priority <= 0;
      }
      forall k | 0 <= k < |q| - i
        ensures !b[k].Operation?
      {
        assert q[i + k].priority == PriorityOf(q[i + k].msg) && q[i].priority <= q[i + k].priority;
      }
      KindsApart(a, b);
    } else {
      assert b == [];
    }
  }

  /** When the first message is no operation, no operation waits. */
  lemma HeadIsKind(q: seq<Queued>)
    requires Sorted(q) && q != [] && !q[0].msg.Operation?
    ensures NoOperationIn(q)
  {
  }

  lemma TailIsSorted(q: seq<Queued>)
    requires Sorted(q) && q != []
    ensures Sorted(q[1..])
  {
  }

  /** Splicing in front of the lower priorities appends within the message's own kind. */
  lemma SplicedKind(q: seq<Queued>, i: nat, msg: Message,
          arrived: seq<Message>, processed: seq<Message>, operation: bool)
    requires Sorted(q) && i <= |q| && (i < |q| ==> PriorityOf(msg) < q[i].priority)
    requires Accounted(arrived, processed, Messages(q), operation)
    ensures Accounted(arrived + [msg], processed, Messages(Spliced(q, i, msg)), operation)
  {
    var a, b := Messages(q[..i]), Messages(q[i..]);
    MessagesCut(q, i, msg);
    SplicedOfKind(a, b, msg, operation);
    OfKindConcat(arrived, [msg], operation);
    Regroup(OfKind(processed, operation), OfKind(a + b, operation), OfKind([msg], operation));
  }

  lemma SplicedOfKind(a: seq<Message>, b: seq<Message>, msg: Message, operation: bool)
    requires forall k :: 0 <= k < |b| ==> b[k].Operation? != msg.Operation?
    ensures OfKind(a + [msg] + b, operation) == OfKind(a + b, operation) + OfKind([msg], operation)
  {
    OfKindConcat(a, b, operation);
    OfKindConcat(a + [msg], b, operation);
    OfKindConcat(a, [msg], operation);
    OfKindAllOrNone([msg], operation);
    if operation == msg.Operation? {
      OfKindAllOrNone(b, operation);
    }
    Regroup(OfKind(a, operation), OfKind([msg], operation), OfKind(b, operation));
  }

  lemma Regroup(a: seq<Message>, b: seq<Message>, c: seq<Message>)
    ensures (a + b) + c == a + (b + c)
    ensures b == [] ==> a + b + c == a + c + b
    ensures c == [] ==> a + b + c == a + c + b
  {
  }

  lemma TakenKind(q: seq<Queued>, arrived: seq<Message>, processed: seq<Message>, operation: bool)
    requires q != [] && Accounted(arrived, processed, Messages(q), operation)
    ensures Accounted(arrived, processed + [q[0].msg], Messages(q[1..]), operation)
    ensures Messages(q) == [q[0].msg] + Messages(q[1..])
  {
    assert Messages(q) == [q[0].msg] + Messages(q[1..]);
    OfKindConcat([q[0].msg], Messages(q[1..]), operation);
    OfKindConcat(processed, [q[0].msg], operation);
    Regroup(OfKind(processed, operation), OfKind([q[0].msg], operation), OfKind(Messages(q[1..]), operation));
  }

  /** Taking the first message keeps the rest in order. */
  lemma Taken(q: seq<Queued>, arrived: seq<Message>, processed: seq<Message>)
    requires Waiting(q, arrived, processed) && q != []
    ensures Waiting(q[1..], arrived, processed + [q[0].msg])
    ensures !q[0].msg.Operation? ==> NoOperationIn(q)
  {
    TailIsSorted(q);
    TakenKind(q, arrived, processed, true);
    TakenKind(q, arrived, processed, false);
    if !q[0].msg.Operation? {
      HeadIsKind(q);
    }
  }
}
