# Mark: a self-adjusting position in a text document

This project models `Core::Mark` of knut, a refactoring toolbox. A Mark records one absolute
offset into a text document. It also holds a weak reference to that document. Whenever the
document reports an edit as `(from, charsRemoved, charsAdded)`, the mark remaps its offset:

- a mark at or before `from` stays where it is, a pure insertion exactly at the mark included;
- a mark inside the removed span collapses to `from`; the end of the span, `from + charsRemoved`,
  counts as inside;
- a mark past the removed span shifts by `charsAdded - charsRemoved`.

Once the document is destroyed, the mark is invalid. `line()` and `column()` then return 0 and
`restore()` does nothing. `position()` still returns the stored offset.

Two modules:

- `MarkRemap` (mark_remap.dfy) holds the offset arithmetic as pure functions. `Remap` handles one
  edit and `RemapAll` a history of edits. `ApplyEdit` is a reference definition of what an edit
  does to the text itself. The lemmas relate the three: when a mark stays, collapses or shifts;
  that offsets stay non-negative, ordered and inside the document; and which text lies before
  and after a remapped mark.
- `Core` (mark.dfy) holds the class `Mark` with the mutable offset `pos` and the flag `hasDocument`,
  which stands for the document back-reference. `Update` changes `pos` in place, as the C++
  code does. Two ghost fields record the creation offset and every reported edit. The invariant
  `Valid()` states that `pos` is always the creation offset remapped through that history.

The end of the removed span is inclusive (src/core/mark.cpp:104): a mark exactly at
`from + charsRemoved` moves to `from`, before the inserted text, and not to `from + charsAdded`.
`EndOfRemovedSpanCollapses` and `MarkInRemovedSpanLandsAtInsertion` state this case.

## Model

| member | source | states |
|---|---|---|
| `MarkRemap.RemapUnchangedIff` | src/core/mark.cpp:96-108 | an edit leaves the offset unchanged iff it starts at or after the mark, or the mark is past the removed span and the edit keeps the length |
| `MarkRemap.EditAtOrAfterMarkIsNoOp` | src/core/mark.cpp:98-99 | an edit with `from >= pos`, including an insertion exactly at the mark, does not move the mark |
| `MarkRemap.RemapCollapsesIff` | src/core/mark.cpp:103-105 | a mark after `from` lands on `from` iff `from < pos <= from + removed`; the end of the span is inclusive |
| `MarkRemap.EndOfRemovedSpanCollapses` | src/core/mark.cpp:104-105 | a mark exactly at the end of a removed region moves to `from`, not to `from + added` |
| `MarkRemap.RemapShiftsPastSpan` | src/core/mark.cpp:101-107 | a mark past the removed span moves to `pos + added - removed` |
| `MarkRemap.ZeroLengthEditIsNoOp` | src/core/mark.cpp:96-108 | an edit that removes and adds nothing never moves a mark |
| `MarkRemap.RemapNonNegative` | src/core/mark.cpp:98-107 | with non-negative `pos`, `from` and `added`, the new offset is non-negative, and at least `from` when the mark was after `from` |
| `MarkRemap.RemapMonotone` | src/core/mark.cpp:96-108 | two marks with `p1 <= p2` hit by the same edit keep `p1' <= p2'` |
| `MarkRemap.ExampleEdits` | src/core/mark.cpp:96-108 | example edits: mark 50 after inserting 10 at 20 is 60; mark 15 after deleting [10,30) is 10; mark 5 after an edit at 5 stays 5 |
| `MarkRemap.MarkBeforeEditKeepsPrefix` | src/core/mark.cpp:98-99 | a mark at or before the edit keeps its offset and the text before it is unchanged |
| `MarkRemap.MarkInRemovedSpanLandsAtInsertion` | src/core/mark.cpp:103-105 | a mark in the removed span sits after the untouched prefix and before the inserted text |
| `MarkRemap.MarkPastSpanKeepsSuffix` | src/core/mark.cpp:101-107 | a mark past the removed span stays inside the edited text and the text after it is unchanged |
| `MarkRemap.MarkStaysInDocument` | src/core/mark.cpp:96-108 | a mark inside a document stays inside it after one edit that fits the document |
| `MarkRemap.RemapAllAppend` | src/core/mark.cpp:44 | reacting to one more edit notification is one more `Remap` on the offset so far |
| `MarkRemap.RemapAllMonotone` | src/core/mark.cpp:20-21 | two marks that see the same history of edits keep their order |
| `MarkRemap.RemapAllNonNegative` | src/core/mark.cpp:96-108 | a non-negative offset stays non-negative through any history of non-negative edits |
| `MarkRemap.ZeroLengthHistoryIsNoOp` | src/core/mark.cpp:96-108 | a history of edits that remove and add nothing leaves the offset unchanged |
| `MarkRemap.RemapAllStaysInDocument` | src/core/mark.cpp:29-30 | a mark inside a document stays inside it through every history the document can report |
| `Core.Mark.constructor` | src/core/mark.cpp:37-45 | a new mark is valid, holds the given offset and has seen no edits |
| `Core.Mark.IsValid` | src/core/mark.cpp:47-50 | true iff the document reference is still set |
| `Core.Mark.Position` | src/core/mark.cpp:52-55 | returns the stored offset, whether or not the mark is valid |
| `Core.Mark.CheckEditor` | src/core/mark.cpp:87-94 | the guard is true iff the document still exists |
| `Core.Mark.Line` | src/core/mark.cpp:57-65 | the document's line for the offset when valid, 0 otherwise |
| `Core.Mark.Column` | src/core/mark.cpp:67-75 | the document's column for the offset when valid, 0 otherwise |
| `Core.Mark.Restore` | src/core/mark.cpp:81-85 | sends the editor back to the stored offset when valid, and does nothing otherwise |
| `Core.Mark.Invalidate` | src/core/mark.cpp:47-50 | once the document is destroyed the mark reads as invalid; its offset is kept |
| `Core.Mark.Update` | src/core/mark.cpp:96-108 | the new offset is `Remap` of the old one, with the three branches spelled out; only the offset changes, and the invariant `pos == RemapAll(origin, history)` is kept |
| `Core.MarksKeepOrder` | src/core/mark.cpp:20-21 | two marks created in order and told of the same edits stay in order |
| `Core.MarkStaysInItsDocument` | src/core/mark.cpp:29-30 | a mark created inside its document stays inside it through every reported edit |

## Left out

- The Qt signal connection to the document's `contentsChange` (src/core/mark.cpp:44): callers invoke `Update` explicitly, once per notification.
- `TextDocument::convertPosition`, used by `line()` and `column()`, belongs to the document layer and is not part of this model. It is passed to `Line` and `Column` as a function parameter.
- `TextDocument::gotoMark`, called by `restore()`, is not part of this model either. `Restore` returns the offset that would be handed to it, or `None`.
- The error logged by `checkEditor` when the document is gone: it is only a diagnostic.
- `QPointer` auto-nulling and QObject parent ownership: object lifetimes are not modelled. The `hasDocument` flag is cleared by an explicit `Invalidate` step.
- `Q_ASSERT(editor)` in the constructor: the constructor takes no document, so a new mark is always valid.
- Core.Mark.Update: does not model C++ `int` overflow in `from + charsRemoved` or `m_pos += delta`; offsets are mathematical integers.
- The query compiler, match cursor, predicates and transformation engine exercised by tests/tst_treesitter.cpp: their implementation is not part of this model, and it wraps the external tree-sitter parser and a regular-expression library.
- Header/source lookup, include insertion, comment selection and block navigation exercised by tests/tst_cppdocument.cpp: they are reached only through Qt documents, project singletons and files on disk, whose implementation is outside src/core/mark.cpp.
