/** The server's document replica: a linked list updated in place, refining the list operations of Rga. */
module RgaDocuments {
  import opened Uids
  import opened Rga
  import opened Shape
  import opened LinkedNodes

  class RgaDocument {
    const root: RgaNode
    var index: map<string, RgaNode>
    var length: int
    var nodeCount: int
    ghost var nodes: seq<RgaNode>
    ghost var Contents: Doc
    ghost var Repr: set<object>

    /** Links, index and counters all describe the same list; deleting the root costs the length one. */
    ghost predicate Valid()
      reads this, Repr
    {
      && this in Repr && (forall n :: n in nodes ==> n in Repr)
      && Depicts(nodes, Contents) && nodes[0] == root && root.value == ""
      && Chain(nodes)
      && Indexed(nodes, index)
      && length == |Live(Contents)| - (if root.tombstoned then 1 else 0)
      && nodeCount == |Contents|
    }

    lemma ViewIs()
      requires Valid()
      ensures |nodes| > 0 && Contents == View(nodes)
    {
      DepictsView(nodes, Contents);
    }

    lemma StaysWellFormed()
      requires Valid()
      ensures WellFormed(Contents)
    {
      ViewIs();
      ViewWellFormed(nodes);
    }

    constructor ()
      ensures Valid() && fresh(Repr) && Contents == []
    {
      var sentinel := new RgaNode(ROOT_UID, "", false, null, null);
      root := sentinel;
      index := map[UidKey(ROOT_UID) := sentinel];
      length, nodeCount := 0, 0;
      nodes, Contents, Repr := [sentinel], [], {this, sentinel};
    }

    /** Returns false where the source throws: the anchor has not arrived yet. */
    method ApplyInsert(op: Op) returns (ok: bool)
      requires Valid() && op.Insert?
      modifies Repr
      ensures Valid() && fresh(Repr - old(Repr))
      ensures Outcome(Contents, ok) == Apply(old(Contents), op)
    {
      ViewIs();
      LookupIs(nodes, index, op.uid);
      LookupIs(nodes, index, Anchor(op));
      if UidKey(op.uid) in index {
        return true;
      }
      if UidKey(Anchor(op)) !in index {
        return false;
      }
      InsertBehind(index[UidKey(Anchor(op))], op, GapAfter(Contents, Anchor(op)));
      return true;
    }

    /** The scan and the splice, once the anchor node is at hand. */
    method InsertBehind(afterNode: RgaNode, op: Op, ghost p: nat)
      requires Valid() && op.Insert? && UidKey(op.uid) !in index
      requires p < |nodes| && nodes[p] == afterNode
      modifies Repr
      ensures Valid() && fresh(Repr - old(Repr))
      ensures Contents == InsertAt(old(Contents), ScanRight(old(Contents), p, op.uid), Element(op.uid, op.value, false))
    {
      ViewIs();
      var insertionPoint, k := FindInsertionPoint(afterNode, op.uid, nodes, p);
      var newNode := Link(insertionPoint, Element(op.uid, op.value, false), k);
    }

    /** Links in a node behind `left`, enters it in the index and counts it. */
    method Link(left: RgaNode, e: Element, ghost k: nat) returns (n: RgaNode)
      requires Valid() && k < |nodes| && nodes[k] == left && UidKey(e.uid) !in index
      modifies Repr
      ensures Valid() && fresh(Repr - old(Repr))
      ensures nodes == InsertAt(old(nodes), k + 1, n)
      ensures Contents == InsertAt(old(Contents), k, e)
    {
      ViewIs();
      NewKeyIsNew(nodes, index, e.uid);
      n := Splice(left, e, nodes, k);
      DepictsView(InsertAt(nodes, k + 1, n), InsertAt(Contents, k, e));
      Adopt(n, e, k);
    }

    /** Enters a node already linked in behind position `k` in the index and counts it. */
    method Adopt(n: RgaNode, e: Element, ghost k: nat)
      requires this in Repr && (forall n :: n in nodes ==> n in Repr)
      requires nodes != [] && nodes[0] == root && root.value == ""
      requires k < |nodes| == |Contents| + 1 && Indexed(nodes, index)
      requires length == |Live(Contents)| - (if root.tombstoned then 1 else 0) && nodeCount == |Contents|
      requires UidKey(e.uid) !in index && n.uid == e.uid
      requires Chain(InsertAt(nodes, k + 1, n)) && Depicts(InsertAt(nodes, k + 1, n), InsertAt(Contents, k, e))
      modifies this
      ensures Valid() && Repr == old(Repr) + {n}
      ensures nodes == InsertAt(old(nodes), k + 1, n)
      ensures Contents == InsertAt(old(Contents), k, e)
    {
      IndexedInsert(nodes, index, k + 1, n);
      LiveCountOfInsert(Contents, k, e);
      InsertAtMembers(nodes, k + 1, n);
      ghost var chain, list := InsertAt(nodes, k + 1, n), InsertAt(Contents, k, e);
      nodes, Contents, Repr := chain, list, Repr + {n};
      index := index[UidKey(e.uid) := n];
      nodeCount := nodeCount + 1;
      length := if e.tombstoned then length else length + 1;
      assert Chain(chain) && Depicts(chain, list);
    }

    /** Tombstones a node once. The root is found like any other node; hiding it leaves the list alone. */
    method ApplyDelete(uid: UID) returns (found: bool)
      requires Valid()
      modifies Repr
      ensures Valid() && nodes == old(nodes) && Repr == old(Repr)
      ensures Outcome(Contents, found) == Apply(old(Contents), Delete(uid))
      ensures root.tombstoned == (uid == ROOT_UID || old(root.tombstoned))
      ensures length == |Live(Contents)| - (if root.tombstoned then 1 else 0)
    {
      ViewIs();
      LookupIs(nodes, index, uid);
      if UidKey(uid) !in index {
        return false;
      }
      Hide(index[UidKey(uid)], GapAfter(Contents, uid));
      return true;
    }

    method Hide(node: RgaNode, ghost k: nat)
      requires Valid() && k < |nodes| && nodes[k] == node
      modifies Repr
      ensures Valid() && nodes == old(nodes) && Repr == old(Repr)
      ensures Contents == HiddenAt(old(Contents), k)
      ensures root.tombstoned == (k == 0 || old(root.tombstoned))
    {
      ViewIs();
      ghost var hidden := HiddenAt(Contents, k);
      LiveCountOfHidden(Contents, k);
      if !node.tombstoned {
        Tombstone(node, nodes, k);
        length := length - 1;
        Contents := hidden;
        DepictsView(nodes, Contents);
      }
    }

    method ApplyOperation(op: Op) returns (applied: bool)
      requires Valid()
      modifies Repr
      ensures Valid() && fresh(Repr - old(Repr))
      ensures Outcome(Contents, applied) == Apply(old(Contents), op)
    {
      if op.Insert? {
        applied := ApplyInsert(op);
      } else if op.Delete? {
        applied := ApplyDelete(op.uid);
      } else {
        applied := false;
      }
    }

    // ----- queries -----

    method ToText() returns (text: string)
      requires Valid()
      ensures text == Text(Contents)
    {
      ViewIs();
      text := WalkText(root, nodes);
    }

    /** The 0-based visible index of `uid`, or -1; null stands before the first character. */
    method UidToIndex(uid: Option<UID>) returns (r: int)
      requires Valid()
      ensures uid.None? ==> r == 0
      ensures uid.Some? ==> r == match Rga.UidToIndex(Contents, uid.value) case None => -1 case Some(n) => n - 1
    {
      ViewIs();
      if uid.None? {
        return 0;
      }
      var found := WalkToUid(root, uid.value, nodes);
      r := if found.Some? then found.value else -1;
    }

    /** The uid of the visible node at 1-based `index`, null for 0 and past the end. */
    method IndexToUid(index: int) returns (u: Option<UID>)
      requires Valid()
      ensures u == Rga.IndexToUid(Contents, index)
    {
      ViewIs();
      if index == 0 {
        return None;
      }
      u := WalkToIndex(root, index, nodes);
    }

    /** The node of a known uid, the root included; null for any other. */
    method GetNode(uid: UID) returns (node: RgaNode?)
      requires Valid()
      ensures node != null <==> Known(Contents, uid)
      ensures node != null ==> GapAfter(Contents, uid) < |nodes| && nodes[GapAfter(Contents, uid)] == node
    {
      ViewIs();
      LookupIs(nodes, index, uid);
      node := if UidKey(uid) in index then index[UidKey(uid)] else null;
    }

    /** What a node found through `GetNode` tells about its place in the list. */
    lemma NodeShows(uid: UID)
      requires Valid() && Known(Contents, uid)
      ensures uid == ROOT_UID ==> nodes[0].value == "" && nodes[0].prev == null
      ensures uid != ROOT_UID ==>
        var i := IndexOf(Contents, uid);
        && nodes[i + 1].value == Contents[i].value
        && nodes[i + 1].prev == nodes[i]
        && nodes[i].uid == (if i == 0 then ROOT_UID else Contents[i - 1].uid)
    {
      ViewIs();
      ChainLinks(nodes);
      assert nodes[0].uid == ROOT_UID;
    }

    // ----- snapshots -----

    method Serialize() returns (d: Doc)
      requires Valid()
      ensures d == Contents
    {
      ViewIs();
      d := WalkElements(root, nodes);
    }

    /** The snapshot must be in document order, as `Serialize` produced it. */
    static method Deserialize(d: Doc) returns (doc: RgaDocument)
      requires WellFormed(d)
      ensures doc.Valid() && fresh(doc.Repr)
      ensures doc.Contents == d
    {
      doc := new RgaDocument();
      var prev := doc.root;
      for i := 0 to |d|
        invariant doc.Valid() && fresh(doc.Repr)
        invariant doc.Contents == d[..i] && doc.nodes[i] == prev
      {
        prev := doc.Append(prev, d[i]);
      }
    }

    /** Links one snapshot element in behind the last node. */
    method Append(last: RgaNode, e: Element) returns (n: RgaNode)
      requires Valid() && nodes[|nodes| - 1] == last && !Known(Contents, e.uid)
      modifies Repr
      ensures Valid() && fresh(Repr - old(Repr))
      ensures Contents == old(Contents) + [e] && nodes == old(nodes) + [n]
    {
      ViewIs();
      LookupIs(nodes, index, e.uid);
      n := Link(last, e, |nodes| - 1);
      InsertAtEnd(old(nodes), n);
      InsertAtEnd(old(Contents), e);
    }

    method Clone() returns (doc: RgaDocument)
      requires Valid()
      ensures doc.Valid() && fresh(doc.Repr)
      ensures doc.Contents == Contents
    {
      ViewIs();
      ViewWellFormed(nodes);
      var d := Serialize();
      doc := Deserialize(d);
    }

    // ----- garbage collection -----

    /** Unlinks every tombstone; the visible nodes stay, in order. */
    method Gc() returns (removed: nat)
      requires Valid()
      modifies Repr
      ensures Valid() && Repr == old(Repr)
      ensures Contents == Live(old(Contents)) && removed == |old(Contents)| - |Contents|
      ensures length == old(length) && nodeCount == |Contents| && root.tombstoned == old(root.tombstoned)
    {
      ghost var d := Contents;
      ghost var j;
      removed, j := SweepAll();
      SweepDone(d, j);
    }

    method SweepAll() returns (removed: nat, ghost j: nat)
      requires Valid()
      modifies Repr
      ensures Valid() && Repr == old(Repr)
      ensures j <= |old(Contents)| && removed + |Contents| == j
      ensures Sweep(Contents, |Contents|) == SweepTo(old(Contents), j)
      ensures length == old(length) && root.tombstoned == old(root.tombstoned)
    {
      removed, j := 0, 0;
      ghost var d, k, swept := Contents, 0, Sweep(Contents, 0);
      var node := First();
      while node != null
        invariant Valid() && node == At(k) && Repr == old(Repr)
        invariant length == old(length) && root.tombstoned == old(root.tombstoned)
        invariant j <= |d| && removed + k == j && swept == SweepTo(d, j) && swept == Sweep(Contents, k)
        decreases |d| - j
      {
        SweepNext(d, j);
        var gone;
        node, gone, k := Collect(node, k);
        swept, j := SweepOne(swept), j + 1;
        removed := if gone then removed + 1 else removed;
      }
    }

    /** The node of the `k`-th list element, null behind the last one. */
    ghost function At(k: nat): RgaNode?
      reads this
    {
      if k + 1 < |nodes| then nodes[k + 1] else null
    }

    method First() returns (node: RgaNode?)
      requires Valid()
      ensures node == At(0)
    {
      ChainLinks(nodes);
      node := root.next;
    }

    /** One round of the collection: unlinks `node` when it is a tombstone and returns the node behind it. */
    method Collect(node: RgaNode, ghost k: nat) returns (next: RgaNode?, gone: bool, ghost kept: nat)
      requires Valid() && node == At(k)
      modifies Repr
      ensures Valid() && Repr == old(Repr) && length == old(length) && root.tombstoned == old(root.tombstoned)
      ensures k < |old(Contents)| && Sweep(Contents, kept) == SweepOne(Sweep(old(Contents), k))
      ensures gone == old(Contents)[k].tombstoned && next == At(kept)
    {
      ViewIs();
      ChainLinks(nodes);
      next, gone, kept := node.next, node.tombstoned, k + 1;
      if gone {
        kept := k;
        Remove(node, k + 1);
      }
    }

    method Remove(node: RgaNode, ghost k: nat)
      requires Valid() && 0 < k < |nodes| && nodes[k] == node && node.tombstoned
      modifies Repr
      ensures Valid() && Repr == old(Repr) && nodes == RemoveAt(old(nodes), k)
      ensures Contents == RemoveAt(old(Contents), k - 1)
      ensures length == old(length) && root.tombstoned == old(root.tombstoned)
    {
      ViewIs();
      IndexedRemove(nodes, index, k);
      LiveOfRemove(Contents, k - 1);
      Unlink(node, nodes, k);
      nodes, Contents := RemoveAt(nodes, k), RemoveAt(Contents, k - 1);
      index := index - {UidKey(node.uid)};
      nodeCount := nodeCount - 1;
      DepictsView(nodes, Contents);
    }
  }

  /** The list once the node in front of gap `k` is hidden; in front of gap 0 is the root, which is not in the list. */
  ghost function HiddenAt(d: Doc, k: nat): Doc
    requires k <= |d|
  {
    if k == 0 then d else d[k - 1 := d[k - 1].(tombstoned := true)]
  }

  lemma LiveCountOfHidden(d: Doc, k: nat)
    requires k <= |d|
    ensures |Live(HiddenAt(d, k))| == |Live(d)| - if k == 0 || d[k - 1].tombstoned then 0 else 1
    ensures k > 0 && d[k - 1].tombstoned ==> HiddenAt(d, k) == d
  {
    if k > 0 {
      LiveCountOfDelete(d, k - 1);
    }
  }

  /** Looking at one more node of `d` either drops it or passes it. */
  lemma CollectOne(d: Doc, j: nat)
    requires j < |d|
    ensures var done, k := Live(d[..j]), |Live(d[..j])|;
      && (done + d[j..])[k] == d[j]
      && (if d[j].tombstoned
          then RemoveAt(done + d[j..], k) == Live(d[..j + 1]) + d[j + 1..] && |Live(d[..j + 1])| == k
          else done + d[j..] == Live(d[..j + 1]) + d[j + 1..] && |Live(d[..j + 1])| == k + 1)
  {
    PrefixGrows(d, j);
    LiveOfOne(d[j]);
    assert d[j..] == [d[j]] + d[j + 1..];
  }

  datatype Sweep = Sweep(rest: Doc, kept: nat)

  /** Looking at the next node takes it out when it is a tombstone, and passes it otherwise. */
  ghost function SweepOne(s: Sweep): Sweep
    requires s.kept < |s.rest|
  {
    if s.rest[s.kept].tombstoned then Sweep(RemoveAt(s.rest, s.kept), s.kept) else Sweep(s.rest, s.kept + 1)
  }

  /** The list after looking at `j` of the nodes of `d`, and how many of those were kept. */
  ghost function SweepTo(d: Doc, j: nat): (s: Sweep)
    requires j <= |d|
    ensures |s.rest| == s.kept + |d| - j
  {
    if j == 0 then Sweep(d, 0) else SweepOne(SweepTo(d, j - 1))
  }

  lemma SweepNext(d: Doc, j: nat)
    requires j < |d|
    ensures SweepTo(d, j).kept < |SweepTo(d, j).rest| && SweepTo(d, j + 1) == SweepOne(SweepTo(d, j))
  {
  }

  lemma {:induction false} SweepIs(d: Doc, j: nat)
    requires j <= |d|
    ensures SweepTo(d, j) == Sweep(Live(d[..j]) + d[j..], |Live(d[..j])|)
    ensures j < |d| ==> SweepTo(d, j).rest[SweepTo(d, j).kept] == d[j]
  {
    if j > 0 {
      SweepIs(d, j - 1);
      CollectOne(d, j - 1);
    } else {
      assert Live(d[..0]) + d[0..] == d;
    }
    if j < |d| {
      CollectOne(d, j);
    }
  }

  lemma SweepDone(d: Doc, j: nat)
    requires j <= |d| && SweepTo(d, j).kept == |SweepTo(d, j).rest|
    ensures j == |d| && SweepTo(d, j).rest == Live(d) && |Live(Live(d))| == |Live(d)|
  {
    SweepIs(d, |d|);
    assert d[..|d|] == d;
    LiveIsIdempotent(d);
  }

  lemma {:induction false} LiveIsIdempotent(d: Doc)
    ensures Live(Live(d)) == Live(d)
  {
    if d != [] {
      LiveIsIdempotent(d[1..]);
      LiveConcat(if d[0].tombstoned then [] else [d[0]], Live(d[1..]));
    }
  }

  lemma InsertAtMembers<T>(s: seq<T>, q: nat, x: T)
    requires q <= |s|
    ensures forall i :: 0 <= i < |InsertAt(s, q, x)| ==> InsertAt(s, q, x)[i] in s || InsertAt(s, q, x)[i] == x
  {
  }

  lemma InsertAtEnd<T>(s: seq<T>, x: T)
    ensures InsertAt(s, |s|, x) == s + [x]
  {
  }

  lemma LiveOfRemove(d: Doc, i: nat)
    requires i < |d| && d[i].tombstoned
    ensures Live(RemoveAt(d, i)) == Live(d)
  {
    LiveConcat(d[..i], d[i + 1..]);
    LiveOfUpdate(d, i, d[i]);
    LiveOfOne(d[i]);
  }
}
