/** The browser's replica: the same list, driven by local edits under a Lamport clock. */
module ClientRgas {
  import opened Uids
  import opened Rga
  import opened LocalEdits
  import opened TextDiffs
  import opened RgaDocuments

  class ClientRgaDocument {
    /** Root, nodes, index and length: line for line the server's list. */
    const list: RgaDocument
    const siteId: string
    var clock: nat
    ghost var Repr: set<object>

    /** Every clock in the list is bounded by the client's own. */
    ghost predicate Valid()
      reads this, Repr
    {
      && this in Repr && list in Repr && list.Repr <= Repr && this !in list.Repr
      && list.Valid()
      && WellFormed(list.Contents)
      && ClocksBounded(list.Contents, clock)
    }

    ghost function Contents(): Doc
      reads this, Repr
      requires Valid()
    {
      list.Contents
    }

    constructor (siteId: string, initialClock: nat)
      ensures Valid() && fresh(Repr)
      ensures Contents() == [] && this.siteId == siteId && clock == initialClock
    {
      var empty := new RgaDocument();
      list, this.siteId, clock := empty, siteId, initialClock;
      Repr := {this, empty} + empty.Repr;
    }

    // ----- remote operations -----

    method ApplyInsert(op: Op)
      requires Valid() && op.Insert?
      modifies Repr
      ensures Valid() && fresh(Repr - old(Repr))
      ensures Contents() == ClientApply(old(Contents()), op)
      ensures clock == ClientClock(old(Contents()), old(clock), op)
    {
      ClockBoundKept(Contents(), clock, op);
      var known := list.GetNode(op.uid);
      if known != null {
        return;
      }
      var afterNode := list.GetNode(Anchor(op));
      if afterNode == null {
        return;
      }
      if op.uid.clock > clock {
        clock := op.uid.clock;
      }
      var applied := list.ApplyInsert(op);
      list.StaysWellFormed();
      Repr := Repr + list.Repr;
    }

    method ApplyDelete(uid: UID)
      requires Valid()
      modifies Repr
      ensures Valid() && fresh(Repr - old(Repr))
      ensures Contents() == Rga.ApplyDelete(old(Contents()), uid).doc && clock == old(clock)
    {
      ClockBoundKept(Contents(), clock, Delete(uid));
      var found := list.ApplyDelete(uid);
      list.StaysWellFormed();
    }

    /** Anything that is not an INSERT is treated as a DELETE. */
    method ApplyOperation(op: Op)
      requires Valid()
      modifies Repr
      ensures Valid() && fresh(Repr - old(Repr))
      ensures Contents() == ClientApply(old(Contents()), op)
      ensures clock == ClientClock(old(Contents()), old(clock), op)
    {
      if op.Insert? {
        ApplyInsert(op);
      } else {
        ApplyDelete(op.uid);
      }
    }

    // ----- local edits -----

    /** Ticks the clock, names the node on the left as anchor, and applies the new operation. */
    method LocalInsert(index: int, value: string) returns (op: Op)
      requires Valid()
      modifies Repr
      ensures Valid() && fresh(Repr - old(Repr))
      ensures op == LocalInsertOp(old(Contents()), old(clock), siteId, index, value)
      ensures Contents() == Step(old(Contents()), op) && clock == old(clock) + 1
    {
      clock := clock + 1;
      var after := GetAfterUid(index);
      op := Insert(UID(clock, siteId), after, value);
      ApplyInsert(op);
    }

    /** Deletes the visible character at 0-based `index`; null when there is none. */
    method LocalDelete(index: int) returns (op: Option<Op>)
      requires Valid()
      modifies Repr
      ensures Valid() && fresh(Repr - old(Repr))
      ensures op == LocalDeleteOp(old(Contents()), index)
      ensures Contents() == if op.Some? then Step(old(Contents()), op.value) else old(Contents())
      ensures clock == old(clock)
    {
      var uid := IndexToUid(index + 1);
      if uid.None? {
        return None;
      }
      VisibleIsNotRoot(Contents(), index + 1);
      ApplyDelete(uid.value);
      op := Some(Delete(uid.value));
    }

    // ----- text diffs -----

    /**
     * Turns an edit of the whole text into operations: keeps the common ends, deletes the rest of
     * `before` from the right, and types the rest of `after` from the left. `before[p..hi]` becomes
     * `after[p..k]`.
     */
    method DiffToOperations(before: string, after: string)
      returns (ops: seq<Op>, ghost p: nat, ghost hi: nat, ghost k: nat)
      requires Valid()
      modifies Repr
      ensures Valid() && fresh(Repr - old(Repr))
      ensures p <= hi <= |before| && p <= k <= |after| && |before| - hi == |after| - k
      ensures IsCommonPrefix(before, after, p) && IsCommonSuffix(before, after, p, |before| - hi)
      ensures Contents() == Replay(old(Contents()), ops)
      ensures Editing(Contents(), clock, ops) ==
        Type(Erase(Editing(old(Contents()), old(clock), []), hi, p), siteId, after, p, k)
      ensures old(OneCharEach(Contents()) && Text(Contents()) == before) ==>
        && OneCharEach(Contents()) && Text(Contents()) == after
        && |ops| == (hi - p) + (k - p)
    {
      var prefixLen, bi, ai := CommonEnds(before, after);
      p, hi, k := prefixLen, bi + 1, ai + 1;
      DiffIsCorrect(Contents(), clock, siteId, before, after, p, hi, k);
      ops := Replace(after, prefixLen, bi, ai, hi, k);
    }

    /** Deletes the visible characters `bi` down to `p`, then types `after[p..ai + 1]` in their place. */
    method Replace(after: string, p: nat, bi: int, ai: int, ghost hi: nat, ghost k: nat) returns (ops: seq<Op>)
      requires Valid() && p <= hi == bi + 1 && p <= k == ai + 1 <= |after|
      modifies Repr
      ensures Valid() && fresh(Repr - old(Repr))
      ensures Editing(Contents(), clock, ops) ==
        Type(Erase(Editing(old(Contents()), old(clock), []), hi, p), siteId, after, p, k)
    {
      ops := DeleteRange([], bi, p);
      ops := InsertRange(ops, after, p, ai);
    }

    /** The length of the common prefix, and the last indices left of the common suffix. */
    static method CommonEnds(before: string, after: string) returns (prefixLen: nat, bi: int, ai: int)
      ensures prefixLen - 1 <= bi < |before| && prefixLen - 1 <= ai < |after| && |before| - bi == |after| - ai
      ensures IsCommonPrefix(before, after, prefixLen)
      ensures IsCommonSuffix(before, after, prefixLen, |before| - 1 - bi)
      ensures Meets(before, after, prefixLen, bi + 1, ai + 1)
    {
      var i := 0;
      while i < |before| && i < |after| && before[i] == after[i]
        invariant i <= |before| && i <= |after| && before[..i] == after[..i]
      {
        i := i + 1;
      }
      prefixLen := i;
      bi, ai := |before| - 1, |after| - 1;
      while bi >= prefixLen && ai >= prefixLen && before[bi] == after[ai]
        invariant prefixLen - 1 <= bi < |before| && prefixLen - 1 <= ai < |after|
        invariant |before| - bi == |after| - ai && EndsAgree(before, after, |before| - 1 - bi)
      {
        EndsAgreeFurther(before, after, |before| - 1 - bi);
        bi, ai := bi - 1, ai - 1;
      }
      FoundEndsMeet(before, after, prefixLen, bi, ai);
    }

    /** Deletes the visible characters `hi` down to `lo`, emitting the operations behind `before`. */
    method DeleteRange(before: seq<Op>, hi: int, lo: nat) returns (ops: seq<Op>)
      requires Valid() && lo <= hi + 1
      modifies Repr
      ensures Valid() && fresh(Repr - old(Repr))
      ensures Editing(Contents(), clock, ops) == Erase(Editing(old(Contents()), old(clock), before), hi + 1, lo)
    {
      ops := before;
      ghost var start := Editing(Contents(), clock, before);
      var k := hi;
      while k >= lo
        invariant Valid() && fresh(Repr - old(Repr)) && lo - 1 <= k <= hi
        invariant Editing(Contents(), clock, ops) == Erase(start, hi + 1, k + 1)
      {
        ops := DeleteNext(ops, k);
        k := k - 1;
      }
    }

    method DeleteNext(before: seq<Op>, k: int) returns (ops: seq<Op>)
      requires Valid()
      modifies Repr
      ensures Valid() && fresh(Repr - old(Repr))
      ensures Editing(Contents(), clock, ops) == EraseAt(Editing(old(Contents()), old(clock), before), k)
    {
      var op := LocalDelete(k);
      ops := if op.Some? then before + [op.value] else before;
    }

    /** Types `chars[lo..hi + 1]`, each at its own index, emitting the operations behind `before`. */
    method InsertRange(before: seq<Op>, chars: string, lo: nat, hi: int) returns (ops: seq<Op>)
      requires Valid() && lo <= hi + 1 <= |chars|
      modifies Repr
      ensures Valid() && fresh(Repr - old(Repr))
      ensures Editing(Contents(), clock, ops) ==
        Type(Editing(old(Contents()), old(clock), before), siteId, chars, lo, hi + 1)
    {
      ops := before;
      ghost var start := Editing(Contents(), clock, before);
      var k := lo;
      while k <= hi
        invariant Valid() && fresh(Repr - old(Repr)) && lo <= k <= hi + 1
        invariant Editing(Contents(), clock, ops) == Type(start, siteId, chars, lo, k)
      {
        TypeNextIs(start, siteId, chars, lo, k);
        ops := TypeNext(ops, k, chars[k]);
        k := k + 1;
      }
    }

    method TypeNext(before: seq<Op>, k: nat, c: char) returns (ops: seq<Op>)
      requires Valid()
      modifies Repr
      ensures Valid() && fresh(Repr - old(Repr))
      ensures Editing(Contents(), clock, ops) == TypeAt(Editing(old(Contents()), old(clock), before), siteId, k, c)
    {
      var op := LocalInsert(k, [c]);
      ops := before + [op];
    }

    // ----- queries -----

    method ToText() returns (text: string)
      requires Valid()
      ensures text == Text(Contents())
    {
      text := list.ToText();
    }

    method IndexToUid(index: int) returns (u: Option<UID>)
      requires Valid()
      ensures u == Rga.IndexToUid(Contents(), index)
    {
      u := list.IndexToUid(index);
    }

    /** The 1-based visible position of `uid`. */
    method UidToIndex(uid: UID) returns (r: Option<nat>)
      requires Valid()
      ensures r == Rga.UidToIndex(Contents(), uid)
    {
      PositionsAreABijection(Contents());
      var before := list.UidToIndex(Some(uid));
      r := if before < 0 then None else Some(before + 1);
    }

    method GetAfterUid(index: int) returns (u: Option<UID>)
      requires Valid()
      ensures u == Rga.IndexToUid(Contents(), index)
    {
      if index == 0 {
        return None;
      }
      u := IndexToUid(index);
    }

    // ----- snapshots -----

    method Serialize() returns (d: Doc)
      requires Valid()
      ensures d == Contents()
    {
      d := list.Serialize();
    }

    static method Deserialize(d: Doc, siteId: string, clock: nat) returns (doc: ClientRgaDocument)
      requires WellFormed(d)
      ensures doc.Valid() && fresh(doc.Repr)
      ensures doc.Contents() == d && doc.siteId == siteId
      ensures doc.clock == if MaxClock(d) > clock then MaxClock(d) else clock
    {
      var highest := clock;
      for i := 0 to |d|
        invariant highest == if MaxClock(d[..i]) > clock then MaxClock(d[..i]) else clock
      {
        assert d[..i + 1][..i] == d[..i];
        if d[i].uid.clock > highest {
          highest := d[i].uid.clock;
        }
      }
      assert d[..|d|] == d;
      var list := RgaDocument.Deserialize(d);
      doc := new ClientRgaDocument.Over(list, siteId, highest);
    }

    constructor Over(list: RgaDocument, siteId: string, clock: nat)
      requires list.Valid() && WellFormed(list.Contents) && ClocksBounded(list.Contents, clock)
      ensures Valid() && fresh(Repr - list.Repr)
      ensures this.list == list && this.siteId == siteId && this.clock == clock
      ensures Contents() == list.Contents && Repr == {this} + list.Repr
    {
      this.list, this.siteId, this.clock := list, siteId, clock;
      Repr := {this} + list.Repr;
    }
  }

  lemma VisibleIsNotRoot(d: Doc, n: int)
    requires WellFormed(d) && 1 <= n <= |Live(d)|
    ensures Live(d)[n - 1].uid != ROOT_UID
  {
    LiveWellFormed(d);
  }
}
