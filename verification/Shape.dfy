/** The canonical shape of a list: every node's anchor is the nearest smaller uid on its left. */
module Shape {
  import opened Uids
  import opened Rga

  type Order = seq<UID>

  function Ids(d: Doc): (o: Order)
    ensures |o| == |d|
    ensures forall i :: 0 <= i < |d| ==> o[i] == d[i].uid
  {
    seq(|d|, i requires 0 <= i < |d| => d[i].uid)
  }

  predicate Distinct(o: Order) {
    && (forall i, j :: 0 <= i < j < |o| ==> o[i] != o[j])
    && (forall i :: 0 <= i < |o| ==> o[i] != ROOT_UID)
  }

  function UidSet(o: Order): set<UID> {
    set u | u in o
  }

  /** The nearest position left of `i` holding a uid below `x`, or -1. */
  function PrevSmaller(o: Order, i: nat, x: UID): (j: int)
    requires i <= |o|
    ensures -1 <= j < i
    ensures j >= 0 ==> Less(o[j], x)
    ensures forall k :: j < k < i ==> !Less(o[k], x)
  {
    if i == 0 then -1
    else if Less(o[i - 1], x) then i - 1
    else PrevSmaller(o, i - 1, x)
  }

  /** The contract of `PrevSmaller` leaves only one position. */
  lemma PrevSmallerIs(o: Order, i: nat, x: UID, j: int)
    requires -1 <= j < i <= |o|
    requires j >= 0 ==> Less(o[j], x)
    requires forall k :: j < k < i ==> !Less(o[k], x)
    ensures PrevSmaller(o, i, x) == j
  {
  }

  /** The anchor a list assigns to its `i`-th node; nothing but the order is consulted. */
  function AnchorAt(o: Order, i: nat): UID
    requires i < |o|
  {
    var j := PrevSmaller(o, i, o[i]);
    if j < 0 then ROOT_UID else o[j]
  }

  ghost predicate AnchoredAt(o: Order, anchors: map<UID, UID>, i: nat)
    requires i < |o|
  {
    o[i] in anchors && anchors[o[i]] == AnchorAt(o, i)
  }

  ghost predicate Shaped(o: Order, anchors: map<UID, UID>) {
    forall i :: 0 <= i < |o| ==> AnchoredAt(o, anchors, i)
  }

  // ----- inserting keeps the shape -----

  /** `q` is where the scan that starts right of gap `p` stops for `x`. */
  ghost predicate ScanStops(o: Order, p: nat, q: nat, x: UID) {
    && p <= q <= |o|
    && (forall k :: p <= k < q ==> Less(x, o[k]))
    && (q < |o| ==> Less(o[q], x))
  }

  lemma InsertedAnchor(o: Order, p: nat, q: nat, x: UID)
    requires ScanStops(o, p, q, x)
    requires p > 0 ==> Less(o[p - 1], x)
    ensures AnchorAt(InsertAt(o, q, x), q) == if p == 0 then ROOT_UID else o[p - 1]
  {
    var o' := InsertAt(o, q, x);
    forall k | p <= k < q
      ensures !Less(o'[k], x)
    {
      LessAsymmetric(x, o[k]);
    }
    PrevSmallerIs(o', q, x, p - 1);
  }

  /** `o2` is `o` with `x` put in at `q`. */
  predicate IsInsertion(o: Order, q: nat, x: UID, o2: Order) {
    && q <= |o| && |o2| == |o| + 1
    && forall k {:trigger o2[k]} :: 0 <= k < |o2| ==> o2[k] == if k < q then o[k] else if k == q then x else o[k - 1]
  }

  lemma AnchorKept(o: Order, p: nat, q: nat, x: UID, i: nat, o2: Order)
    requires i < |o| && ScanStops(o, p, q, x) && IsInsertion(o, q, x, o2)
    ensures var i' := if i < q then i else i + 1;
      o2[i'] == o[i] && AnchorAt(o2, i') == AnchorAt(o, i)
  {
    var j := PrevSmaller(o, i, o[i]);
    if j < q <= i {
      LessAsymmetric(o[i], o[i]);
      NotBelow(o[i], o[q], x);
    }
    PrevSmallerIs(o2, if i < q then i else i + 1, o[i], if j < q then j else j + 1);
  }

  lemma OldAnchorKept(o: Order, p: nat, q: nat, x: UID, i: nat)
    requires i < |o| && ScanStops(o, p, q, x)
    ensures var i' := if i < q then i else i + 1;
      InsertAt(o, q, x)[i'] == o[i] && AnchorAt(InsertAt(o, q, x), i') == AnchorAt(o, i)
  {
    AnchorKept(o, p, q, x, i, InsertAt(o, q, x));
  }

  lemma NotBelow(a: UID, b: UID, x: UID)
    requires Less(b, x) && !Less(b, a)
    ensures !Less(x, a)
  {
    LessAsymmetric(b, x);
    LessAsymmetric(x, a);
    LessAsymmetric(a, b);
    if Less(x, a) {
      LessTransitive(b, x, a);
    }
  }

  /** Inserting `x` by the scan rule makes its anchor what the operation named, and moves nobody else's. */
  lemma InsertKeepsShape(o: Order, anchors: map<UID, UID>, a: UID, p: nat, q: nat, x: UID)
    requires Distinct(o) && x !in o && Shaped(o, anchors)
    requires ScanStops(o, p, q, x)
    requires Less(a, x)
    requires if p == 0 then a == ROOT_UID else o[p - 1] == a
    ensures Shaped(InsertAt(o, q, x), anchors[x := a])
  {
    var o', anchors' := InsertAt(o, q, x), anchors[x := a];
    forall i' | 0 <= i' < |o'|
      ensures AnchoredAt(o', anchors', i')
    {
      if i' == q {
        InsertedAnchor(o, p, q, x);
      } else {
        var i := if i' < q then i' else i' - 1;
        OldAnchorKept(o, p, q, x, i);
        assert AnchoredAt(o, anchors, i);
      }
    }
  }

  // ----- the shape determines the list -----

  function FindUid(o: Order, u: UID): (r: int)
    ensures if r < 0 then r == -1 && u !in o else r < |o| && o[r] == u
  {
    if o == [] then -1
    else if o[|o| - 1] == u then |o| - 1
    else FindUid(o[..|o| - 1], u)
  }

  /** Reference order: take the uids in ascending order and put each directly behind its anchor. */
  ghost function CanonicalOrder(uids: set<UID>, anchors: map<UID, UID>): Order {
    if uids == {} then []
    else
      var m := MaxUid(uids);
      var rest := CanonicalOrder(uids - {m}, anchors);
      if m in anchors then InsertAt(rest, FindUid(rest, anchors[m]) + 1, m) else rest
  }

  function RemoveAt<T>(s: seq<T>, i: nat): seq<T>
    requires i < |s|
  {
    s[..i] + s[i + 1..]
  }

  /** The largest uid stands directly behind its anchor. */
  lemma MaxFollowsAnchor(o: Order, i: nat)
    requires Distinct(o) && i < |o|
    requires forall k :: 0 <= k < |o| && k != i ==> Less(o[k], o[i])
    ensures AnchorAt(o, i) == if i == 0 then ROOT_UID else o[i - 1]
  {
  }

  lemma Removed<T>(s: seq<T>, m: nat)
    requires m < |s|
    ensures |RemoveAt(s, m)| == |s| - 1
    ensures forall i {:trigger RemoveAt(s, m)[i]} :: 0 <= i < |s| - 1 ==>
      RemoveAt(s, m)[i] == s[if i < m then i else i + 1]
  {
  }

  /** Nobody is anchored at the largest uid, so taking it out moves no anchor. */
  lemma RemoveMaxKeepsAnchor(o: Order, m: nat, k: nat)
    requires Distinct(o) && m < |o| && k < |o| && k != m
    requires forall k :: 0 <= k < |o| && k != m ==> Less(o[k], o[m])
    ensures var k' := if k < m then k else k - 1;
      RemoveAt(o, m)[k'] == o[k] && AnchorAt(RemoveAt(o, m), k') == AnchorAt(o, k)
  {
    var r := RemoveAt(o, m);
    var k' := if k < m then k else k - 1;
    var j := PrevSmaller(o, k, o[k]);
    LessAsymmetric(o[k], o[m]);
    Removed(o, m);
    PrevSmallerIs(r, k', o[k], if j < m then j else j - 1);
  }

  lemma RemoveMaxKeepsShape(o: Order, anchors: map<UID, UID>, m: nat)
    requires Distinct(o) && m < |o| && Shaped(o, anchors)
    requires forall k :: 0 <= k < |o| && k != m ==> Less(o[k], o[m])
    ensures Shaped(RemoveAt(o, m), anchors)
  {
    var r := RemoveAt(o, m);
    forall k' | 0 <= k' < |r|
      ensures AnchoredAt(r, anchors, k')
    {
      var k := if k' < m then k' else k' + 1;
      RemoveMaxKeepsAnchor(o, m, k);
      assert AnchoredAt(o, anchors, k);
    }
  }

  lemma RemoveAtFacts(o: Order, m: nat)
    requires Distinct(o) && m < |o|
    ensures Distinct(RemoveAt(o, m))
    ensures UidSet(RemoveAt(o, m)) == UidSet(o) - {o[m]}
    ensures InsertAt(RemoveAt(o, m), m, o[m]) == o
  {
  }

  lemma FindUidIs(o: Order, i: nat)
    requires Distinct(o) && i < |o|
    ensures FindUid(o, o[i]) == i
  {
  }

  lemma MaxGoesBack(o: Order, anchors: map<UID, UID>, m: nat)
    requires Distinct(o) && m < |o| && Shaped(o, anchors)
    requires forall k :: 0 <= k < |o| && k != m ==> Less(o[k], o[m])
    ensures o[m] in anchors
    ensures InsertAt(RemoveAt(o, m), FindUid(RemoveAt(o, m), anchors[o[m]]) + 1, o[m]) == o
  {
    var r := RemoveAt(o, m);
    RemoveAtFacts(o, m);
    MaxFollowsAnchor(o, m);
    assert AnchoredAt(o, anchors, m);
    assert FindUid(r, anchors[o[m]]) + 1 == m by {
      if m > 0 {
        assert r[m - 1] == o[m - 1];
        FindUidIs(r, m - 1);
      }
    }
  }

  lemma MaxPlace(o: Order) returns (m: nat)
    requires Distinct(o) && o != []
    ensures m < |o| && UidSet(o) != {} && o[m] == MaxUid(UidSet(o))
    ensures forall k :: 0 <= k < |o| && k != m ==> Less(o[k], o[m])
  {
    assert o[0] in UidSet(o);
    var x := MaxUid(UidSet(o));
    m := FindUid(o, x);
    assert forall k :: 0 <= k < |o| && k != m ==> o[k] in UidSet(o) && o[k] != x;
  }

  lemma CanonicalStep(o: Order, anchors: map<UID, UID>, m: nat)
    requires m < |o| && UidSet(o) != {} && o[m] == MaxUid(UidSet(o)) && o[m] in anchors
    requires RemoveAt(o, m) == CanonicalOrder(UidSet(o) - {o[m]}, anchors)
    requires InsertAt(RemoveAt(o, m), FindUid(RemoveAt(o, m), anchors[o[m]]) + 1, o[m]) == o
    ensures o == CanonicalOrder(UidSet(o), anchors)
  {
  }

  /** A list with the canonical shape is the reference order of its uids: nothing else is left free. */
  lemma {:induction false} ShapedIsCanonical(o: Order, anchors: map<UID, UID>)
    requires Distinct(o) && Shaped(o, anchors)
    ensures o == CanonicalOrder(UidSet(o), anchors)
    decreases |o|
  {
    if o != [] {
      var m := MaxPlace(o);
      RemoveAtFacts(o, m);
      RemoveMaxKeepsShape(o, anchors, m);
      ShapedIsCanonical(RemoveAt(o, m), anchors);
      MaxGoesBack(o, anchors, m);
      CanonicalStep(o, anchors, m);
    }
  }

  /** Two lists over the same uids with the same anchors are the same list. */
  lemma ShapeIsUnique(o1: Order, o2: Order, anchors: map<UID, UID>)
    requires Distinct(o1) && Distinct(o2)
    requires Shaped(o1, anchors) && Shaped(o2, anchors)
    requires UidSet(o1) == UidSet(o2)
    ensures o1 == o2
  {
    ShapedIsCanonical(o1, anchors);
    ShapedIsCanonical(o2, anchors);
  }
}
