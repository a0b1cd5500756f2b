/** The doubly linked nodes shared by the server's and the client's document, and their index. */
module LinkedNodes {
  import opened Uids
  import opened Rga
  import opened Shape

  class RgaNode {
    const uid: UID
    const value: string
    var tombstoned: bool
    var prev: RgaNode?
    var next: RgaNode?

    constructor (uid: UID, value: string, tombstoned: bool, prev: RgaNode?, next: RgaNode?)
      ensures this.uid == uid && this.value == value && this.tombstoned == tombstoned
      ensures this.prev == prev && this.next == next
    {
      this.uid, this.value, this.tombstoned := uid, value, tombstoned;
      this.prev, this.next := prev, next;
    }
  }

  ghost predicate LinkedAt(nodes: seq<RgaNode>, i: nat)
    requires i < |nodes|
    reads nodes
  {
    nodes[i].prev == PrevOf(nodes, i) && nodes[i].next == NextOf(nodes, i)
  }

  ghost predicate Apart(nodes: seq<RgaNode>, i: nat, j: nat)
    requires i < |nodes| && j < |nodes|
  {
    nodes[i].uid != nodes[j].uid
  }

  ghost predicate DistinctUids(nodes: seq<RgaNode>) {
    && |nodes| > 0
    && nodes[0].uid == ROOT_UID
    && (forall i, j {:trigger Apart(nodes, i, j)} :: 0 <= i < j < |nodes| ==> Apart(nodes, i, j))
  }

  /** The chain from the sentinel root: prev and next are mutually inverse, uids are distinct. */
  ghost predicate Chain(nodes: seq<RgaNode>)
    reads nodes
  {
    && DistinctUids(nodes)
    && (forall i {:trigger LinkedAt(nodes, i)} :: 0 <= i < |nodes| ==> LinkedAt(nodes, i))
  }

  ghost function PrevOf(nodes: seq<RgaNode>, i: nat): RgaNode?
    requires i < |nodes|
  {
    if i == 0 then null else nodes[i - 1]
  }

  ghost function NextOf(nodes: seq<RgaNode>, i: nat): RgaNode?
    requires i < |nodes|
  {
    if i + 1 == |nodes| then null else nodes[i + 1]
  }

  lemma ChainLinks(nodes: seq<RgaNode>)
    requires Chain(nodes)
    ensures forall i {:trigger nodes[i].prev} :: 0 <= i < |nodes| ==> nodes[i].prev == PrevOf(nodes, i)
    ensures forall i {:trigger nodes[i].next} :: 0 <= i < |nodes| ==> nodes[i].next == NextOf(nodes, i)
    ensures forall i, j :: 0 <= i < j < |nodes| ==> nodes[i].uid != nodes[j].uid
  {
    forall i | 0 <= i < |nodes|
      ensures nodes[i].prev == PrevOf(nodes, i) && nodes[i].next == NextOf(nodes, i)
    {
      assert LinkedAt(nodes, i);
    }
    forall i, j | 0 <= i < j < |nodes|
      ensures nodes[i].uid != nodes[j].uid
    {
      assert Apart(nodes, i, j);
    }
  }

  predicate Keyed(nodes: seq<RgaNode>, index: map<string, RgaNode>, i: nat)
    requires i < |nodes|
  {
    UidKey(nodes[i].uid) in index && index[UidKey(nodes[i].uid)] == nodes[i]
  }

  predicate Owned(nodes: seq<RgaNode>, index: map<string, RgaNode>, key: string)
    requires key in index
  {
    index[key] in nodes && key == UidKey(index[key].uid)
  }

  /** The index maps the key of every node, root included, to that node, and nothing else. */
  ghost predicate Indexed(nodes: seq<RgaNode>, index: map<string, RgaNode>) {
    && (forall i {:trigger Keyed(nodes, index, i)} :: 0 <= i < |nodes| ==> Keyed(nodes, index, i))
    && (forall key {:trigger Owned(nodes, index, key)} :: key in index ==> Owned(nodes, index, key))
  }

  /** What one node shows. */
  ghost function Shown(n: RgaNode): Element
    reads n
  {
    Element(n.uid, n.value, n.tombstoned)
  }

  /** The list of the nodes behind the root. */
  ghost function View(nodes: seq<RgaNode>): (d: Doc)
    requires |nodes| > 0
    reads nodes
    ensures |d| == |nodes| - 1
    ensures forall i :: 0 <= i < |d| ==> d[i] == Shown(nodes[i + 1])
  {
    seq(|nodes| - 1, i requires 0 <= i < |nodes| - 1 reads nodes => Shown(nodes[i + 1]))
  }

  ghost predicate ShownAt(nodes: seq<RgaNode>, d: Doc, i: nat)
    requires i < |d| < |nodes|
    reads nodes
  {
    d[i] == Shown(nodes[i + 1])
  }

  /** `d` is the list of the nodes behind the root. */
  ghost predicate Depicts(nodes: seq<RgaNode>, d: Doc)
    reads nodes
  {
    && |nodes| == |d| + 1
    && forall i {:trigger ShownAt(nodes, d, i)} :: 0 <= i < |d| ==> ShownAt(nodes, d, i)
  }

  lemma DepictsView(nodes: seq<RgaNode>, d: Doc)
    ensures Depicts(nodes, d) <==> |nodes| > 0 && d == View(nodes)
  {
    if Depicts(nodes, d) {
      forall i | 0 <= i < |d|
        ensures d[i] == View(nodes)[i]
      {
        assert ShownAt(nodes, d, i);
      }
    }
  }

  lemma ViewWellFormed(nodes: seq<RgaNode>)
    requires Chain(nodes)
    ensures WellFormed(View(nodes))
  {
    ChainLinks(nodes);
  }

  /** A lookup by key finds a node exactly when the list knows the uid, and finds the right one. */
  lemma LookupIs(nodes: seq<RgaNode>, index: map<string, RgaNode>, u: UID)
    requires Chain(nodes) && Indexed(nodes, index)
    ensures UidKey(u) in index <==> Known(View(nodes), u)
    ensures Known(View(nodes), u) ==> nodes[GapAfter(View(nodes), u)] == index[UidKey(u)]
  {
    var d := View(nodes);
    if UidKey(u) in index {
      assert Owned(nodes, index, UidKey(u));
      UidKeyInjective(u, index[UidKey(u)].uid);
      var i :| 0 <= i < |nodes| && nodes[i] == index[UidKey(u)];
      if i > 0 {
        assert d[i - 1].uid == u;
      }
    }
    if Known(d, u) {
      var i := GapAfter(d, u);
      assert nodes[i].uid == u;
      assert Keyed(nodes, index, i);
    }
  }

  lemma NewKeyIsNew(nodes: seq<RgaNode>, index: map<string, RgaNode>, u: UID)
    requires Indexed(nodes, index) && UidKey(u) !in index
    ensures forall i :: 0 <= i < |nodes| ==> nodes[i].uid != u
  {
    forall i | 0 <= i < |nodes|
      ensures nodes[i].uid != u
    {
      assert Keyed(nodes, index, i);
    }
  }

  lemma IndexedInsert(nodes: seq<RgaNode>, index: map<string, RgaNode>, q: nat, n: RgaNode)
    requires Indexed(nodes, index) && q <= |nodes| && UidKey(n.uid) !in index
    ensures Indexed(InsertAt(nodes, q, n), index[UidKey(n.uid) := n])
  {
    var nodes', index' := InsertAt(nodes, q, n), index[UidKey(n.uid) := n];
    assert nodes'[q] == n;
    forall i | 0 <= i < |nodes'|
      ensures Keyed(nodes', index', i)
    {
      if i != q {
        var j := if i < q then i else i - 1;
        assert nodes'[i] == nodes[j] && Keyed(nodes, index, j);
      }
    }
    forall key | key in index'
      ensures Owned(nodes', index', key)
    {
      if key != UidKey(n.uid) {
        assert Owned(nodes, index, key);
        var i :| 0 <= i < |nodes| && nodes[i] == index[key];
        assert nodes'[if i < q then i else i + 1] == nodes[i];
      }
    }
  }

  lemma IndexedRemove(nodes: seq<RgaNode>, index: map<string, RgaNode>, k: nat)
    requires Chain(nodes) && Indexed(nodes, index) && 0 < k < |nodes|
    ensures Indexed(RemoveAt(nodes, k), index - {UidKey(nodes[k].uid)})
  {
    var nodes', index' := RemoveAt(nodes, k), index - {UidKey(nodes[k].uid)};
    ChainLinks(nodes);
    assert Keyed(nodes, index, k);
    forall i | 0 <= i < |nodes'|
      ensures Keyed(nodes', index', i)
    {
      var j := if i < k then i else i + 1;
      assert nodes'[i] == nodes[j] && nodes[j].uid != nodes[k].uid && Keyed(nodes, index, j);
    }
    forall key | key in index'
      ensures Owned(nodes', index', key)
    {
      assert Owned(nodes, index, key);
      var i :| 0 <= i < |nodes| && nodes[i] == index[key];
      assert nodes'[if i < k then i else i - 1] == nodes[i];
    }
  }

  /** `n` has been linked in behind position `k`, and no other link differs from the chain `nodes`. */
  ghost predicate LinkedBehind(nodes: seq<RgaNode>, k: nat, n: RgaNode)
    requires k < |nodes|
    reads nodes, n
  {
    && n !in nodes && n.prev == nodes[k] && n.next == NextOf(nodes, k)
    && (forall i {:trigger nodes[i].prev} :: 0 <= i < |nodes| ==>
      nodes[i].prev == if i == k + 1 then n else PrevOf(nodes, i))
    && (forall i {:trigger nodes[i].next} :: 0 <= i < |nodes| ==>
      nodes[i].next == if i == k then n else NextOf(nodes, i))
  }

  lemma SplicedChain(nodes: seq<RgaNode>, k: nat, n: RgaNode)
    requires k < |nodes| && LinkedBehind(nodes, k, n) && DistinctUids(nodes)
    requires forall i :: 0 <= i < |nodes| ==> nodes[i].uid != n.uid
    ensures Chain(InsertAt(nodes, k + 1, n))
  {
    var nodes' := InsertAt(nodes, k + 1, n);
    assert nodes'[k + 1] == n;
    forall i | 0 <= i < |nodes'|
      ensures LinkedAt(nodes', i)
    {
      assert i <= k ==> nodes'[i] == nodes[i];
      assert i > k + 1 ==> nodes'[i] == nodes[i - 1];
    }
    forall i, j | 0 <= i < j < |nodes'|
      ensures Apart(nodes', i, j)
    {
      var i', j' := if i <= k then i else i - 1, if j <= k then j else j - 1;
      assert i != k + 1 && j != k + 1 ==> nodes'[i] == nodes[i'] && nodes'[j] == nodes[j'] && Apart(nodes, i', j');
    }
  }

  lemma SplicedView(nodes: seq<RgaNode>, k: nat, n: RgaNode)
    requires k < |nodes|
    ensures View(InsertAt(nodes, k + 1, n)) == InsertAt(View(nodes), k, Shown(n))
  {
  }

  /** Splices a new node in behind `left`, the node at position `k`. */
  method Splice(left: RgaNode, e: Element, ghost nodes: seq<RgaNode>, ghost k: nat) returns (n: RgaNode)
    requires Chain(nodes) && k < |nodes| && nodes[k] == left
    requires forall i :: 0 <= i < |nodes| ==> nodes[i].uid != e.uid
    modifies nodes
    ensures fresh(n) && n.uid == e.uid && nodes[0].tombstoned == old(nodes[0].tombstoned)
    ensures Chain(InsertAt(nodes, k + 1, n))
    ensures View(InsertAt(nodes, k + 1, n)) == InsertAt(old(View(nodes)), k, e)
  {
    ChainLinks(nodes);
    n := new RgaNode(e.uid, e.value, e.tombstoned, left, left.next);
    if left.next != null {
      left.next.prev := n;
    }
    left.next := n;
    assert LinkedBehind(nodes, k, n);
    SplicedChain(nodes, k, n);
    SplicedView(nodes, k, n);
    assert View(nodes) == old(View(nodes));
  }

  /** `n` has been bypassed: its neighbours point at each other. */
  ghost predicate Bypassed(nodes: seq<RgaNode>, k: nat)
    requires 0 < k < |nodes|
    reads nodes
  {
    && (forall i {:trigger nodes[i].prev} :: 0 <= i < |nodes| && i != k ==>
      nodes[i].prev == if i == k + 1 then nodes[k - 1] else PrevOf(nodes, i))
    && (forall i {:trigger nodes[i].next} :: 0 <= i < |nodes| && i != k ==>
      nodes[i].next == if i == k - 1 then NextOf(nodes, k) else NextOf(nodes, i))
  }

  lemma BypassedChain(nodes: seq<RgaNode>, k: nat)
    requires 0 < k < |nodes| && Bypassed(nodes, k) && DistinctUids(nodes)
    ensures Chain(RemoveAt(nodes, k))
    ensures View(RemoveAt(nodes, k)) == RemoveAt(View(nodes), k - 1)
  {
    var nodes' := RemoveAt(nodes, k);
    forall i | 0 <= i < |nodes'|
      ensures LinkedAt(nodes', i)
    {
      assert nodes'[i] == nodes[if i < k then i else i + 1];
    }
    forall i, j | 0 <= i < j < |nodes'|
      ensures Apart(nodes', i, j)
    {
      var i', j' := if i < k then i else i + 1, if j < k then j else j + 1;
      assert nodes'[i] == nodes[i'] && nodes'[j] == nodes[j'] && Apart(nodes, i', j');
    }
  }

  /** Unlinks the node at position `k`. */
  method Unlink(n: RgaNode, ghost nodes: seq<RgaNode>, ghost k: nat)
    requires Chain(nodes) && 0 < k < |nodes| && nodes[k] == n
    modifies nodes
    ensures Chain(RemoveAt(nodes, k)) && nodes[0].tombstoned == old(nodes[0].tombstoned)
    ensures View(RemoveAt(nodes, k)) == RemoveAt(old(View(nodes)), k - 1)
  {
    ChainLinks(nodes);
    if n.prev != null {
      n.prev.next := n.next;
    }
    if n.next != null {
      n.next.prev := n.prev;
    }
    assert Bypassed(nodes, k);
    BypassedChain(nodes, k);
    assert View(nodes) == old(View(nodes));
  }

  /** Scans right from `start`, the node at position `p`, past every node above `uid`. */
  method FindInsertionPoint(start: RgaNode, uid: UID, ghost nodes: seq<RgaNode>, ghost p: nat)
      returns (insertionPoint: RgaNode, ghost k: nat)
    requires Chain(nodes) && p < |nodes| && nodes[p] == start
    ensures k < |nodes| && nodes[k] == insertionPoint && k == ScanRight(View(nodes), p, uid)
  {
    ChainLinks(nodes);
    insertionPoint, k := start, p;
    while insertionPoint.next != null && CompareUID(insertionPoint.next.uid, uid) > 0
      invariant k < |nodes| && nodes[k] == insertionPoint
      invariant ScanRight(View(nodes), k, uid) == ScanRight(View(nodes), p, uid)
      decreases |nodes| - k
    {
      insertionPoint := insertionPoint.next;
      k := k + 1;
    }
  }

  /** Marks the node at position `k` as deleted; the root is not part of the list. */
  method Tombstone(n: RgaNode, ghost nodes: seq<RgaNode>, ghost k: nat)
    requires Chain(nodes) && k < |nodes| && nodes[k] == n
    modifies nodes
    ensures Chain(nodes) && nodes[0].tombstoned == (k == 0 || old(nodes[0].tombstoned))
    ensures View(nodes) ==
      if k == 0 then old(View(nodes)) else old(View(nodes))[k - 1 := old(Shown(n)).(tombstoned := true)]
  {
    ChainLinks(nodes);
    n.tombstoned := true;
    assert forall i :: 0 <= i < |nodes| && i != k ==> nodes[i] != n;
    assert forall i :: 0 <= i < |nodes| ==> old(LinkedAt(nodes, i)) && LinkedAt(nodes, i);
  }

  // ----- walks over the chain -----

  /** Concatenates the visible values. */
  method WalkText(root: RgaNode, ghost nodes: seq<RgaNode>) returns (text: string)
    requires Chain(nodes) && nodes[0] == root
    ensures text == Text(View(nodes))
  {
    ghost var d := View(nodes);
    ghost var k := 0;
    ChainLinks(nodes);
    text := "";
    var node := root.next;
    while node != null
      invariant 0 <= k <= |d| && node == NextOf(nodes, k)
      invariant text == Text(d[..k])
      decreases |d| - k
    {
      PrefixGrows(d, k);
      assert nodes[k + 1] == node;
      if !node.tombstoned {
        text := text + node.value;
      }
      node := node.next;
      k := k + 1;
    }
    assert d[..k] == d;
  }

  /** Collects every node, tombstones included, in document order. */
  method WalkElements(root: RgaNode, ghost nodes: seq<RgaNode>) returns (d: Doc)
    requires Chain(nodes) && nodes[0] == root
    ensures d == View(nodes)
  {
    d := [];
    ghost var k := 0;
    ChainLinks(nodes);
    var node := root.next;
    while node != null
      invariant 0 <= k < |nodes| && node == NextOf(nodes, k)
      invariant d == View(nodes)[..k]
      decreases |nodes| - k
    {
      assert nodes[k + 1] == node;
      d := d + [Element(node.uid, node.value, node.tombstoned)];
      node := node.next;
      k := k + 1;
    }
  }

  /** The uid of the visible node at 1-based position `index`. */
  method WalkToIndex(root: RgaNode, index: int, ghost nodes: seq<RgaNode>) returns (u: Option<UID>)
    requires Chain(nodes) && nodes[0] == root
    ensures u == IndexToUid(View(nodes), index)
  {
    ghost var d := View(nodes);
    ghost var k := 0;
    ChainLinks(nodes);
    var idx := 0;
    var node := root.next;
    while node != null
      invariant 0 <= k <= |d| && node == NextOf(nodes, k)
      invariant idx == |Live(d[..k])| && (1 <= index ==> idx < index)
      decreases |d| - k
    {
      PrefixGrows(d, k);
      assert nodes[k + 1] == node;
      if !node.tombstoned {
        idx := idx + 1;
        if idx == index {
          VisibleAt(d, k);
          return Some(node.uid);
        }
      }
      node := node.next;
      k := k + 1;
    }
    assert d[..k] == d;
    u := None;
  }

  /** The number of visible nodes in front of the visible node `uid`, or None. */
  method WalkToUid(root: RgaNode, uid: UID, ghost nodes: seq<RgaNode>) returns (r: Option<nat>)
    requires Chain(nodes) && nodes[0] == root
    ensures r ==
      match UidToIndex(View(nodes), uid) case None => None case Some(n) => if n > 0 then Some(n - 1) else None
  {
    ghost var d := View(nodes);
    ghost var k := 0;
    ChainLinks(nodes);
    var idx := 0;
    var node := root.next;
    while node != null
      invariant 0 <= k <= |d| && node == NextOf(nodes, k)
      invariant idx == |Live(d[..k])| && !Has(Live(d[..k]), uid)
      decreases |d| - k
    {
      PrefixGrows(d, k);
      assert nodes[k + 1] == node;
      if !node.tombstoned {
        if node.uid == uid {
          FoundAt(d, k, uid);
          return Some(idx);
        }
        idx := idx + 1;
      }
      node := node.next;
      k := k + 1;
    }
    assert d[..k] == d;
    r := None;
  }

  /** A visible node stands at the position behind the visible nodes in front of it. */
  lemma VisibleAt(d: Doc, k: nat)
    requires k < |d| && !d[k].tombstoned
    ensures |Live(d[..k])| < |Live(d)| && Live(d)[|Live(d[..k])|] == d[k]
    ensures Live(d)[..|Live(d[..k])|] == Live(d[..k])
  {
    PrefixGrows(d, k);
    LiveOfOne(d[k]);
    CutAt(d, k + 1);
  }

  /** The first visible node with the uid gives its position. */
  lemma FoundAt(d: Doc, k: nat, uid: UID)
    requires k < |d| && !d[k].tombstoned && d[k].uid == uid && !Has(Live(d[..k]), uid)
    ensures Rga.UidToIndex(d, uid) == Some(|Live(d[..k])| + 1)
  {
    VisibleAt(d, k);
    FirstIs(Live(d), uid, |Live(d[..k])|);
  }

  lemma FirstIs(d: Doc, u: UID, i: nat)
    requires i < |d| && d[i].uid == u && !Has(d[..i], u)
    ensures IndexOf(d, u) == i
  {
    FirstIsFrom(d, u, 0, i);
    assert forall k :: 0 <= k < i ==> d[..i][k].uid != u;
  }

  lemma {:induction false} FirstIsFrom(d: Doc, u: UID, k: nat, i: nat)
    requires k <= i < |d| && d[i].uid == u
    requires forall j :: 0 <= j < k ==> d[j].uid != u
    ensures IndexFrom(d, u, k) <= i
    decreases i - k
  {
    if d[k].uid != u {
      FirstIsFrom(d, u, k + 1, i);
    }
  }
}
