/** The replicated growable array as values: what each operation does to the node list. */
module Rga {
  import opened Uids

  datatype Option<+T> = None | Some(value: T)

  /** One list node in portable form; the sentinel root is not part of the list. */
  datatype Element = Element(uid: UID, value: string, tombstoned: bool)

  /** Nodes in document order, tombstones included: the content of a snapshot. */
  type Doc = seq<Element>

  /** The ROLLBACK sentinel carries only its nil uid; no replica changes state on it. */
  datatype Op =
    | Insert(uid: UID, after: Option<UID>, value: string)
    | Delete(uid: UID)
    | Rollback(uid: UID)

  function Anchor(op: Op): UID
    requires op.Insert?
  {
    if op.after.Some? then op.after.value else ROOT_UID
  }

  datatype Outcome = Outcome(doc: Doc, applied: bool)

  // ----- lookup -----

  predicate Has(d: Doc, u: UID) {
    exists i :: 0 <= i < |d| && d[i].uid == u
  }

  /** The index map also holds the root. */
  predicate Known(d: Doc, u: UID) {
    u == ROOT_UID || Has(d, u)
  }

  /** Identifiers are pairwise distinct and none is the root's. */
  predicate WellFormed(d: Doc) {
    && (forall i, j :: 0 <= i < j < |d| ==> d[i].uid != d[j].uid)
    && (forall i :: 0 <= i < |d| ==> d[i].uid != ROOT_UID)
  }

  function IndexFrom(d: Doc, u: UID, i: nat): (r: int)
    requires i <= |d|
    requires forall k :: 0 <= k < i ==> d[k].uid != u
    ensures if r < 0 then r == -1 && !Has(d, u) else r < |d| && d[r].uid == u
    decreases |d| - i
  {
    if i == |d| then -1 else if d[i].uid == u then i else IndexFrom(d, u, i + 1)
  }

  /** Where `u` sits in the list, or -1; the gap right of it is one further, and the root's gap is 0. */
  function IndexOf(d: Doc, u: UID): (r: int)
    ensures if r < 0 then r == -1 && !Has(d, u) else r < |d| && d[r].uid == u
  {
    IndexFrom(d, u, 0)
  }

  function GapAfter(d: Doc, u: UID): (p: nat)
    requires Known(d, u)
    ensures p <= |d|
    ensures u != ROOT_UID ==> p > 0 && d[p - 1].uid == u
    ensures u == ROOT_UID ==> p == 0
  {
    if u == ROOT_UID then 0 else IndexOf(d, u) + 1
  }

  // ----- operations -----

  /** The first gap at or right of `p` whose right neighbour is not above `u`. */
  function ScanRight(d: Doc, p: nat, u: UID): (q: nat)
    requires p <= |d|
    ensures p <= q <= |d|
    ensures forall k :: p <= k < q ==> CompareUID(d[k].uid, u) > 0
    ensures q < |d| ==> CompareUID(d[q].uid, u) <= 0
    decreases |d| - p
  {
    if p < |d| && CompareUID(d[p].uid, u) > 0 then ScanRight(d, p + 1, u) else p
  }

  function InsertAt<T>(s: seq<T>, q: nat, x: T): seq<T>
    requires q <= |s|
  {
    s[..q] + [x] + s[q..]
  }

  function ApplyInsert(d: Doc, op: Op): Outcome
    requires op.Insert?
  {
    if Known(d, op.uid) then Outcome(d, true)
    else if !Known(d, Anchor(op)) then Outcome(d, false)
    else
      var q := ScanRight(d, GapAfter(d, Anchor(op)), op.uid);
      Outcome(InsertAt(d, q, Element(op.uid, op.value, false)), true)
  }

  function ApplyDelete(d: Doc, u: UID): Outcome {
    if !Known(d, u) then Outcome(d, false)
    else if u == ROOT_UID then Outcome(d, true)
    else
      var i := IndexOf(d, u);
      Outcome(d[i := d[i].(tombstoned := true)], true)
  }

  function Apply(d: Doc, op: Op): Outcome {
    match op
    case Insert(_, _, _) => ApplyInsert(d, op)
    case Delete(u) => ApplyDelete(d, u)
    case Rollback(_) => Outcome(d, false)
  }

  function Step(d: Doc, op: Op): Doc {
    Apply(d, op).doc
  }

  function Replay(d: Doc, ops: seq<Op>): Doc {
    if ops == [] then d else Step(Replay(d, ops[..|ops| - 1]), ops[|ops| - 1])
  }

  /** An operation is refused exactly when the list lacks the node it names; a second INSERT of a node is taken. */
  lemma AppliedIffKnown(d: Doc, op: Op)
    ensures Apply(d, op).applied <==>
      match op
      case Insert(u, after, _) => Known(d, u) || after.None? || Known(d, after.value)
      case Delete(u) => Known(d, u)
      case Rollback(_) => false
    ensures !Apply(d, op).applied ==> Step(d, op) == d
    ensures op.Insert? && Known(d, op.uid) ==> Step(d, op) == d
  {
  }

  lemma ReplayOne(d: Doc, ops: seq<Op>, op: Op)
    ensures Replay(d, ops + [op]) == Step(Replay(d, ops), op)
  {
  }

  lemma {:induction false} ReplayConcat(d: Doc, a: seq<Op>, b: seq<Op>)
    ensures Replay(d, a + b) == Replay(Replay(d, a), b)
  {
    if b == [] {
      assert a + b == a;
    } else {
      var init := b[..|b| - 1];
      ReplayConcat(d, a, init);
      assert (a + b)[..|a + b| - 1] == a + init;
    }
  }

  lemma StepWellFormed(d: Doc, op: Op)
    requires WellFormed(d)
    ensures WellFormed(Step(d, op))
  {
    if op.Insert? && !Known(d, op.uid) && Known(d, Anchor(op)) {
      InsertWellFormed(d, ScanRight(d, GapAfter(d, Anchor(op)), op.uid), Element(op.uid, op.value, false));
    }
  }

  lemma InsertWellFormed(d: Doc, q: nat, e: Element)
    requires WellFormed(d) && q <= |d| && !Known(d, e.uid)
    ensures WellFormed(InsertAt(d, q, e))
  {
  }

  lemma {:induction false} ReplayWellFormed(d: Doc, ops: seq<Op>)
    requires WellFormed(d)
    ensures WellFormed(Replay(d, ops))
  {
    if ops != [] {
      ReplayWellFormed(d, ops[..|ops| - 1]);
      StepWellFormed(Replay(d, ops[..|ops| - 1]), ops[|ops| - 1]);
    }
  }

  // ----- what a reader sees -----

  /** The visible nodes in order. */
  function Live(d: Doc): Doc {
    if d == [] then []
    else (if d[0].tombstoned then [] else [d[0]]) + Live(d[1..])
  }

  function Text(d: Doc): string {
    if d == [] then ""
    else (if d[0].tombstoned then "" else d[0].value) + Text(d[1..])
  }

  lemma Associative<T>(a: seq<T>, b: seq<T>, c: seq<T>)
    ensures (a + b) + c == a + (b + c)
  {
  }

  lemma {:induction false} LiveConcat(a: Doc, b: Doc)
    ensures Live(a + b) == Live(a) + Live(b)
  {
    if a == [] {
      assert a + b == b;
    } else {
      assert (a + b)[1..] == a[1..] + b;
      LiveConcat(a[1..], b);
      Associative(if a[0].tombstoned then [] else [a[0]], Live(a[1..]), Live(b));
    }
  }

  lemma {:induction false} TextConcat(a: Doc, b: Doc)
    ensures Text(a + b) == Text(a) + Text(b)
  {
    if a == [] {
      assert a + b == b;
    } else {
      assert (a + b)[1..] == a[1..] + b;
      TextConcat(a[1..], b);
      Associative(if a[0].tombstoned then "" else a[0].value, Text(a[1..]), Text(b));
    }
  }

  /** One node further, the visible prefix and its text grow by that node alone. */
  lemma PrefixGrows(d: Doc, i: nat)
    requires i < |d|
    ensures Live(d[..i + 1]) == Live(d[..i]) + Live([d[i]])
    ensures Text(d[..i + 1]) == Text(d[..i]) + Text([d[i]])
  {
    assert d[..i] + [d[i]] == d[..i + 1];
    LiveConcat(d[..i], [d[i]]);
    TextConcat(d[..i], [d[i]]);
  }

  /** Cutting the list cuts the visible nodes and the text there too. */
  lemma CutAt(d: Doc, i: nat)
    requires i <= |d|
    ensures Live(d) == Live(d[..i]) + Live(d[i..])
    ensures Text(d) == Text(d[..i]) + Text(d[i..])
  {
    var a, b := d[..i], d[i..];
    assert d == a + b;
    LiveConcat(a, b);
    TextConcat(a, b);
  }

  lemma LiveOfInsert(d: Doc, q: nat, e: Element)
    requires q <= |d|
    ensures Live(InsertAt(d, q, e)) == Live(d[..q]) + Live([e]) + Live(d[q..])
    ensures |Live(InsertAt(d, q, e))| == |Live(d)| + |Live([e])|
  {
    LiveConcat(d[..q] + [e], d[q..]);
    LiveConcat(d[..q], [e]);
    CutAt(d, q);
  }

  lemma LiveOfUpdate(d: Doc, i: nat, e: Element)
    requires i < |d|
    ensures Live(d[i := e]) == Live(d[..i]) + Live([e]) + Live(d[i + 1..])
    ensures Live(d) == Live(d[..i]) + Live([d[i]]) + Live(d[i + 1..])
  {
    var a, b := d[..i], d[i + 1..];
    assert d[i := e] == (a + [e]) + b && d == (a + [d[i]]) + b;
    LiveConcat(a + [e], b);
    LiveConcat(a, [e]);
    LiveConcat(a + [d[i]], b);
    LiveConcat(a, [d[i]]);
  }

  /** Each operation moves the number of visible nodes by the amount the counters assume. */
  lemma LiveCountOfInsert(d: Doc, q: nat, e: Element)
    requires q <= |d|
    ensures |Live(InsertAt(d, q, e))| == |Live(d)| + if e.tombstoned then 0 else 1
  {
    LiveOfInsert(d, q, e);
    LiveOfOne(e);
  }

  lemma LiveCountOfDelete(d: Doc, i: nat)
    requires i < |d|
    ensures |Live(d[i := d[i].(tombstoned := true)])| == |Live(d)| - if d[i].tombstoned then 0 else 1
  {
    LiveOfUpdate(d, i, d[i].(tombstoned := true));
    LiveOfOne(d[i]);
    LiveOfOne(d[i].(tombstoned := true));
  }

  lemma LiveOfOne(e: Element)
    ensures Live([e]) == if e.tombstoned then [] else [e]
  {
  }

  /** The text is what the visible nodes spell. */
  lemma {:induction false} TextOfLive(d: Doc)
    ensures Text(Live(d)) == Text(d)
  {
    if d != [] {
      TextOfLive(d[1..]);
      TextConcat(if d[0].tombstoned then [] else [d[0]], Live(d[1..]));
    }
  }

  // ----- visible positions -----

  /** Position `n` counts visible nodes from 1; anything else names no node. */
  function IndexToUid(d: Doc, n: int): Option<UID> {
    if 1 <= n <= |Live(d)| then Some(Live(d)[n - 1].uid) else None
  }

  /** The 1-based visible position of `u`. */
  function UidToIndex(d: Doc, u: UID): Option<nat> {
    var i := IndexOf(Live(d), u);
    if i < 0 then None else Some(i + 1)
  }

  lemma {:induction false} LiveMember(d: Doc, e: Element)
    ensures e in Live(d) <==> e in d && !e.tombstoned
  {
    if d != [] {
      LiveMember(d[1..], e);
      assert e in d <==> e == d[0] || e in d[1..];
    }
  }

  lemma {:induction false} LiveWellFormed(d: Doc)
    requires WellFormed(d)
    ensures WellFormed(Live(d))
  {
    if d != [] {
      LiveWellFormed(d[1..]);
      var rest := Live(d[1..]);
      forall i | 0 <= i < |rest|
        ensures rest[i].uid != d[0].uid
      {
        LiveMember(d[1..], rest[i]);
      }
    }
  }

  /** Positions 1..n and the visible nodes are in bijection. */
  lemma PositionsAreABijection(d: Doc)
    requires WellFormed(d)
    ensures forall n :: 1 <= n <= |Live(d)| ==>
      IndexToUid(d, n).Some? && UidToIndex(d, IndexToUid(d, n).value) == Some(n)
    ensures forall u :: UidToIndex(d, u).Some? ==>
      1 <= UidToIndex(d, u).value <= |Live(d)| && IndexToUid(d, UidToIndex(d, u).value) == Some(u)
    ensures forall e :: e in d && !e.tombstoned ==> UidToIndex(d, e.uid).Some?
    ensures forall e :: e in d && e.tombstoned ==> UidToIndex(d, e.uid).None?
  {
    LiveWellFormed(d);
    var live := Live(d);
    forall n | 1 <= n <= |live|
      ensures IndexToUid(d, n).Some? && UidToIndex(d, IndexToUid(d, n).value) == Some(n)
    {
      assert Has(live, live[n - 1].uid);
    }
    forall e | e in d
      ensures e.tombstoned <==> UidToIndex(d, e.uid).None?
    {
      LiveMember(d, e);
      var i := IndexOf(live, e.uid);
      if i >= 0 {
        LiveMember(d, live[i]);
      }
    }
  }
}
