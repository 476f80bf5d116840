/**
 A Mark keeps track of a logical position in a text document: an absolute
 offset that the document's edit notifications carry along, and a weak
 reference to the document that becomes invalid once the document is gone.
 */
module Core {
  import opened MarkRemap

  datatype Option<T> = None | Some(value: T)

  /** What the document layer reports for an offset. */
  datatype LineColumn = LineColumn(line: int, column: int)

  class Mark {
    /** The tracked offset. */
    var pos: int
    /** Whether the document the mark belongs to still exists. */
    var hasDocument: bool

    /** The offset the mark was created at. */
    ghost var origin: int
    /** Every edit the document has reported since the mark was created. */
    ghost var history: seq<Edit>

    /** The offset is the creation offset carried through every reported edit. */
    ghost predicate Valid()
      reads this
    {
      pos == RemapAll(origin, history)
    }

    /** A mark on a live document at offset `p`. */
    constructor (p: int)
      ensures Valid()
      ensures pos == p && hasDocument
      ensures origin == p && history == []
    {
      pos := p;
      hasDocument := true;
      origin := p;
      history := [];
    }

    /** True iff the document still exists. */
    method IsValid() returns (b: bool)
      ensures b <==> hasDocument
    {
      b := hasDocument;
    }

    /** The stored offset, whether or not the document still exists. */
    method Position() returns (p: int)
      ensures p == pos
    {
      p := pos;
    }

    /** The guard in front of every use of the document: true iff it exists
        (the diagnostic it logs otherwise is not modelled). */
    method CheckEditor() returns (ok: bool)
      ensures ok <==> hasDocument
    {
      ok := hasDocument;
    }

    /** The line of the mark as the document converts its offset, or 0 once
        the document is gone. */
    method Line(convertPosition: int -> LineColumn) returns (line: int)
      ensures hasDocument ==> line == convertPosition(pos).line
      ensures !hasDocument ==> line == 0
    {
      var ok := CheckEditor();
      if !ok {
        return 0;
      }
      line := convertPosition(pos).line;
    }

    /** The column of the mark as the document converts its offset, or 0 once
        the document is gone. */
    method Column(convertPosition: int -> LineColumn) returns (column: int)
      ensures hasDocument ==> column == convertPosition(pos).column
      ensures !hasDocument ==> column == 0
    {
      var ok := CheckEditor();
      if !ok {
        return 0;
      }
      column := convertPosition(pos).column;
    }

    /** The offset the editor's cursor is sent back to, or None when the
        document is gone and nothing happens. */
    method Restore() returns (target: Option<int>)
      ensures hasDocument ==> target == Some(pos)
      ensures !hasDocument ==> target == None
    {
      var ok := CheckEditor();
      if ok {
        target := Some(pos);
      } else {
        target := None;
      }
    }

    /** The document was destroyed: the weak reference reads as null from now on. */
    method Invalidate()
      modifies this`hasDocument
      ensures !hasDocument
    {
      hasDocument := false;
    }

    /** The document reports that `charsRemoved` characters at `from` were
        replaced by `charsAdded` characters. Only the offset changes. */
    method Update(from: int, charsRemoved: int, charsAdded: int)
      requires Valid()
      modifies this`pos, this`history
      ensures Valid() && origin == old(origin)
      ensures history == old(history) + [Edit(from, charsRemoved, charsAdded)]
      ensures pos == Remap(old(pos), from, charsRemoved, charsAdded)
      ensures old(pos) <= from ==> pos == old(pos)
      ensures from < old(pos) <= from + charsRemoved ==> pos == from
      ensures from < old(pos) && from + charsRemoved < old(pos) ==> pos == old(pos) + charsAdded - charsRemoved
    {
      RemapAllAppend(origin, history, Edit(from, charsRemoved, charsAdded));
      history := history + [Edit(from, charsRemoved, charsAdded)];
      if pos <= from {
        return;
      }

      var delta := charsAdded - charsRemoved;

      if pos <= from + charsRemoved {
        pos := from;
      } else {
        pos := pos + delta;
      }
    }
  }

  /** Two marks created in order on the same document, and told of the same
      edits, are still in order. */
  lemma MarksKeepOrder(a: Mark, b: Mark)
    requires a.Valid() && b.Valid()
    requires a.origin <= b.origin && a.history == b.history
    requires NonNegativeAdds(a.history)
    ensures a.pos <= b.pos
  {
    RemapAllMonotone(a.origin, b.origin, a.history);
  }

  /** A mark created inside a document stays inside it through every edit the
      document reports. */
  lemma MarkStaysInItsDocument(m: Mark, len: int)
    requires m.Valid() && 0 <= m.origin <= len && FitsHistory(len, m.history)
    ensures 0 <= m.pos <= FinalLength(len, m.history)
  {
    RemapAllStaysInDocument(len, m.origin, m.history);
  }
}
