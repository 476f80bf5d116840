/**
 The offset arithmetic behind a text mark: how one absolute offset into a
 document is carried through the edits the document reports, each given as
 (from, charsRemoved, charsAdded).
 */
module MarkRemap {

  /** One edit notification: `removed` characters were replaced by `added`
      characters starting at offset `from`. */
  datatype Edit = Edit(from: int, removed: int, added: int)

  /** The new offset of a mark at `pos` after the edit (from, removed, added).
      A mark at or before the edit start stays; a mark inside the removed span,
      its end included, collapses to the edit start; a mark past the span
      shifts by the change in length. */
  function Remap(pos: int, from: int, removed: int, added: int): int
  {
    if pos <= from then pos
    else if pos <= from + removed then from
    else pos + (added - removed)
  }

  /** An edit that fits a document of `len` characters and reports sizes that
      a document can report. */
  predicate Fits(len: int, e: Edit)
  {
    0 <= e.from && 0 <= e.removed && 0 <= e.added && e.from + e.removed <= len
  }

  /** The document length after the edit. */
  function LengthAfter(len: int, e: Edit): int
  {
    len - e.removed + e.added
  }

  // ---------------------------------------------------------------------------
  // One edit
  // ---------------------------------------------------------------------------

  /** The mark keeps its offset exactly when the edit starts at or after it, or
      when it lies past the removed span and the edit does not change the
      length. */
  lemma RemapUnchangedIff(pos: int, from: int, removed: int, added: int)
    ensures Remap(pos, from, removed, added) == pos
        <==> pos <= from || (from + removed < pos && added == removed)
  {
  }

  /** An edit starting at or after the mark, a pure insertion exactly at the
      mark included, leaves it where it is. */
  lemma EditAtOrAfterMarkIsNoOp(pos: int, from: int, removed: int, added: int)
    requires pos <= from
    ensures Remap(pos, from, removed, added) == pos
  {
  }

  /** A mark moves to the edit start, having been after it, exactly when it lies
      in the removed span; the end of the span counts as inside. */
  lemma RemapCollapsesIff(pos: int, from: int, removed: int, added: int)
    requires 0 <= added
    ensures (from < pos && Remap(pos, from, removed, added) == from)
        <==> from < pos <= from + removed
  {
  }

  /** A mark sitting exactly at the end of a replaced region goes to the start
      of the replacement, not to its end. */
  lemma EndOfRemovedSpanCollapses(from: int, removed: int, added: int)
    requires 0 < removed
    ensures Remap(from + removed, from, removed, added) == from
  {
  }

  /** A mark past the removed span shifts by the change in length. */
  lemma RemapShiftsPastSpan(pos: int, from: int, removed: int, added: int)
    requires 0 <= removed && from + removed < pos
    ensures Remap(pos, from, removed, added) == pos + added - removed
  {
  }

  /** An edit that neither removes nor adds anything moves no mark. */
  lemma ZeroLengthEditIsNoOp(pos: int, from: int)
    ensures Remap(pos, from, 0, 0) == pos
  {
  }

  /** Offsets stay non-negative, and a mark that was after the edit start stays
      at or after it. */
  lemma RemapNonNegative(pos: int, from: int, removed: int, added: int)
    requires 0 <= pos && 0 <= from && 0 <= added
    ensures 0 <= Remap(pos, from, removed, added)
    ensures from < pos ==> from <= Remap(pos, from, removed, added)
  {
  }

  /** Two marks hit by the same edit keep their order. */
  lemma RemapMonotone(p1: int, p2: int, from: int, removed: int, added: int)
    requires p1 <= p2 && 0 <= added
    ensures Remap(p1, from, removed, added) <= Remap(p2, from, removed, added)
  {
  }

  /** Example edits: a mark at 50 after 10 characters are inserted at 20,
      a mark at 15 after [10, 30) is deleted, a mark at 5 after an edit at 5. */
  lemma ExampleEdits()
    ensures Remap(50, 20, 0, 10) == 60
    ensures Remap(15, 10, 20, 0) == 10
    ensures Remap(5, 5, 3, 7) == 5
  {
  }

  // ---------------------------------------------------------------------------
  // What an edit does to the text, and what the remapped mark means there
  // ---------------------------------------------------------------------------

  /** The text after replacing the `removed` characters at `from` by `inserted`. */
  function ApplyEdit(text: string, from: int, removed: int, inserted: string): (r: string)
    requires 0 <= from && 0 <= removed && from + removed <= |text|
    ensures |r| == |text| - removed + |inserted|
    ensures r[..from] == text[..from]
    ensures r[from + |inserted|..] == text[from + removed..]
  {
    text[..from] + inserted + text[from + removed..]
  }

  /** A mark at or before the edit keeps the same text before it. */
  lemma MarkBeforeEditKeepsPrefix(text: string, pos: int, from: int, removed: int, inserted: string)
    requires 0 <= pos <= from && 0 <= removed && from + removed <= |text|
    ensures var r := Remap(pos, from, removed, |inserted|);
      r == pos && ApplyEdit(text, from, removed, inserted)[..r] == text[..pos]
  {
  }

  /** A mark in the removed span lands between the untouched prefix and the
      inserted text: everything after it is the inserted text followed by what
      followed the removed span. */
  lemma MarkInRemovedSpanLandsAtInsertion(text: string, pos: int, from: int, removed: int, inserted: string)
    requires 0 <= from < pos <= from + removed <= |text|
    ensures var t, r := ApplyEdit(text, from, removed, inserted), Remap(pos, from, removed, |inserted|);
      r == from && t[..r] == text[..from] && t[r..] == inserted + text[from + removed..]
  {
  }

  /** A mark past the removed span keeps the same text after it, and the text
      before it is the edited prefix. */
  lemma MarkPastSpanKeepsSuffix(text: string, pos: int, from: int, removed: int, inserted: string)
    requires 0 <= from && 0 <= removed && from + removed < pos <= |text|
    ensures var t, r := ApplyEdit(text, from, removed, inserted), Remap(pos, from, removed, |inserted|);
      && 0 <= r <= |t|
      && t[r..] == text[pos..]
      && t[..r] == text[..from] + inserted + text[from + removed..pos]
  {
  }

  /** A mark inside the document stays inside the edited document. */
  lemma MarkStaysInDocument(len: int, pos: int, e: Edit)
    requires 0 <= pos <= len && Fits(len, e)
    ensures 0 <= Remap(pos, e.from, e.removed, e.added) <= LengthAfter(len, e)
  {
  }

  // ---------------------------------------------------------------------------
  // A history of edits
  // ---------------------------------------------------------------------------

  /** The offset of a mark created at `pos` after every edit of `edits`, in order. */
  function RemapAll(pos: int, edits: seq<Edit>): int
    decreases |edits|
  {
    if |edits| == 0 then pos
    else RemapAll(Remap(pos, edits[0].from, edits[0].removed, edits[0].added), edits[1..])
  }

  /** Every edit of the history reports a non-negative start and sizes. */
  predicate NonNegativeEdits(edits: seq<Edit>)
  {
    forall i :: 0 <= i < |edits| ==> 0 <= edits[i].from && 0 <= edits[i].removed && 0 <= edits[i].added
  }

  /** Every edit of the history adds a non-negative number of characters. */
  predicate NonNegativeAdds(edits: seq<Edit>)
  {
    forall i :: 0 <= i < |edits| ==> 0 <= edits[i].added
  }

  /** The history is one a document of `len` characters can report: each edit
      fits the document as the previous edits left it. */
  predicate FitsHistory(len: int, edits: seq<Edit>)
    decreases |edits|
  {
    |edits| == 0 || (Fits(len, edits[0]) && FitsHistory(LengthAfter(len, edits[0]), edits[1..]))
  }

  /** The document length after the whole history. */
  function FinalLength(len: int, edits: seq<Edit>): int
    decreases |edits|
  {
    if |edits| == 0 then len else FinalLength(LengthAfter(len, edits[0]), edits[1..])
  }

  /** Updating a mark edit by edit is remapping it through the history: one more
      notification is one more Remap on the result so far. */
  lemma {:induction false} RemapAllAppend(pos: int, edits: seq<Edit>, e: Edit)
    ensures RemapAll(pos, edits + [e]) == Remap(RemapAll(pos, edits), e.from, e.removed, e.added)
    decreases |edits|
  {
    if |edits| == 0 {
      assert edits + [e] == [e];
    } else {
      assert (edits + [e])[1..] == edits[1..] + [e];
      RemapAllAppend(Remap(pos, edits[0].from, edits[0].removed, edits[0].added), edits[1..], e);
    }
  }

  /** Two marks that see the same history keep their order. */
  lemma {:induction false} RemapAllMonotone(p1: int, p2: int, edits: seq<Edit>)
    requires p1 <= p2 && NonNegativeAdds(edits)
    ensures RemapAll(p1, edits) <= RemapAll(p2, edits)
    decreases |edits|
  {
    if |edits| > 0 {
      var e := edits[0];
      RemapMonotone(p1, p2, e.from, e.removed, e.added);
      RemapAllMonotone(Remap(p1, e.from, e.removed, e.added), Remap(p2, e.from, e.removed, e.added), edits[1..]);
    }
  }

  /** A mark at a non-negative offset never reaches a negative one. */
  lemma {:induction false} RemapAllNonNegative(pos: int, edits: seq<Edit>)
    requires 0 <= pos && NonNegativeEdits(edits)
    ensures 0 <= RemapAll(pos, edits)
    decreases |edits|
  {
    if |edits| > 0 {
      var e := edits[0];
      RemapNonNegative(pos, e.from, e.removed, e.added);
      RemapAllNonNegative(Remap(pos, e.from, e.removed, e.added), edits[1..]);
    }
  }

  /** A history of edits that neither remove nor add anything moves no mark. */
  lemma {:induction false} ZeroLengthHistoryIsNoOp(pos: int, edits: seq<Edit>)
    requires forall i :: 0 <= i < |edits| ==> edits[i].removed == 0 && edits[i].added == 0
    ensures RemapAll(pos, edits) == pos
    decreases |edits|
  {
    if |edits| > 0 {
      ZeroLengthHistoryIsNoOp(pos, edits[1..]);
    }
  }

  /** A mark inside the document stays inside it through any history the
      document can report. */
  lemma {:induction false} RemapAllStaysInDocument(len: int, pos: int, edits: seq<Edit>)
    requires 0 <= pos <= len && FitsHistory(len, edits)
    ensures 0 <= RemapAll(pos, edits) <= FinalLength(len, edits)
    decreases |edits|
  {
    if |edits| > 0 {
      var e := edits[0];
      MarkStaysInDocument(len, pos, e);
      RemapAllStaysInDocument(LengthAfter(len, e), Remap(pos, e.from, e.removed, e.added), edits[1..]);
    }
  }
}
