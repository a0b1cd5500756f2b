/** The undo and redo stacks of one client, and the inverse operations they hand out. */
module HistoryManagers {
  import opened Rga
  import opened RgaDocuments
  import opened Undo

  class HistoryManager {
    var undoStack: seq<seq<Op>>
    var redoStack: seq<seq<Op>>
    var currentBatch: seq<Op>
    const doc: RgaDocument

    ghost predicate Valid()
      reads this, doc, doc.Repr
    {
      doc.Valid() && this !in doc.Repr
    }

    /** The batches that undo would visit, oldest first, with the open batch last. */
    ghost function Pending(): seq<seq<Op>>
      reads this
    {
      if currentBatch == [] then undoStack else undoStack + [currentBatch]
    }

    constructor (doc: RgaDocument)
      requires doc.Valid()
      ensures Valid() && this.doc == doc && Pending() == [] && redoStack == []
    {
      undoStack, redoStack, currentBatch, this.doc := [], [], [], doc;
    }

    /** Extends the open batch; a new action makes the redo stack obsolete. */
    method RecordLocalOperation(op: Op)
      requires Valid()
      modifies this
      ensures Valid() && redoStack == [] && undoStack == old(undoStack) && currentBatch == old(currentBatch) + [op]
    {
      currentBatch := currentBatch + [op];
      if |redoStack| > 0 {
        redoStack := [];
      }
    }

    method CommitBatch()
      requires Valid()
      modifies this
      ensures Valid() && currentBatch == [] && redoStack == old(redoStack)
      ensures undoStack == old(Pending()) == Pending()
    {
      if |currentBatch| > 0 {
        undoStack := undoStack + [currentBatch];
        currentBatch := [];
      }
    }

    /** Moves the last batch to the redo stack and returns its inverse; null when there is none. */
    method Undo() returns (inverse: Option<seq<Op>>)
      requires Valid()
      modifies this
      ensures Valid() && currentBatch == []
      ensures inverse.None? <==> old(Pending()) == []
      ensures inverse.None? ==> Pending() == [] && redoStack == old(redoStack)
      ensures inverse.Some? ==>
        && redoStack == old(redoStack) + [old(Pending())[|old(Pending())| - 1]]
        && Pending() == old(Pending())[..|old(Pending())| - 1]
        && inverse.value == InverseOps(doc.Contents, old(Pending())[|old(Pending())| - 1])
    {
      CommitBatch();
      if undoStack == [] {
        return None;
      }
      var batch := undoStack[|undoStack| - 1];
      undoStack := undoStack[..|undoStack| - 1];
      var inverses := CreateInverseOps(batch);
      redoStack := redoStack + [batch];
      inverse := Some(inverses);
    }

    /** Moves the last undone batch back and returns it. Undo followed by redo leaves both stacks as they were. */
    method Redo() returns (batch: Option<seq<Op>>)
      requires Valid()
      modifies this
      ensures Valid() && currentBatch == []
      ensures batch.None? <==> old(redoStack) == []
      ensures batch.None? ==> Pending() == old(Pending()) && redoStack == []
      ensures batch.Some? ==>
        && batch.value == old(redoStack)[|old(redoStack)| - 1]
        && redoStack == old(redoStack)[..|old(redoStack)| - 1]
        && Pending() == old(Pending()) + [batch.value]
    {
      CommitBatch();
      if redoStack == [] {
        return None;
      }
      var last := redoStack[|redoStack| - 1];
      redoStack := redoStack[..|redoStack| - 1];
      undoStack := undoStack + [last];
      batch := Some(last);
    }

    /** Walks the batch backwards and inverts each operation against the current document. */
    method CreateInverseOps(ops: seq<Op>) returns (inverses: seq<Op>)
      requires Valid()
      ensures inverses == InverseOps(doc.Contents, ops)
    {
      inverses := [];
      ghost var d := doc.Contents;
      var i := |ops|;
      assert ops[..i] == ops && inverses + InverseOps(d, ops) == InverseOps(d, ops);
      while i > 0
        invariant 0 <= i <= |ops|
        invariant InverseOps(d, ops) == inverses + InverseOps(d, ops[..i])
      {
        i := i - 1;
        assert ops[..i + 1][..i] == ops[..i];
        var inverse := Invert(ops[i]);
        Associative(inverses, inverse, InverseOps(d, ops[..i]));
        inverses := inverses + inverse;
      }
      assert ops[..0] == [];
    }

    /** An INSERT is undone by deleting its node, a DELETE by inserting a copy behind the node's left neighbour. */
    method Invert(op: Op) returns (inverse: seq<Op>)
      requires Valid()
      ensures inverse == InverseOf(doc.Contents, op)
    {
      inverse := [];
      if op.Insert? {
        inverse := [Delete(op.uid)];
      } else if op.Delete? {
        var node := doc.GetNode(op.uid);
        if node != null {
          doc.NodeShows(op.uid);
          inverse := [Insert(op.uid, if node.prev != null then Some(node.prev.uid) else None, node.value)];
        }
      }
    }
  }
}
