/**
 * The chapter reconciler (main.py:569-627): turns the rows the chapter table
 * hands back, plus the in-memory chapter list, into the next chapter list
 * and a flag saying whether it must be saved.
 */
module Reconcile {
  import opened Wrappers
  import opened Records
  import opened Ids
  import opened Tables
  import opened ChapterSave

  /**
   * A row of the edited chapter table: the hidden `_id` column and the five
   * editable columns. A blank word count or date cell is `None`; a new row
   * has no id.
   */
  datatype EditedRow = EditedRow(
    id: Option<int>,
    title: string,
    status: string,
    wordCount: Option<int>,
    priority: string,
    deadline: Option<int>)

  /** The word count cell as an integer, 0 when blank (main.py:582). */
  function EditedWordCount(e: EditedRow): int {
    e.wordCount.GetOr(0)
  }

  /** The date cell as stored text: the day's text, or none (main.py:584). */
  function EditedDeadline(e: EditedRow): (d: Deadline)
    ensures d.Iso? <==> e.deadline.Some?
    ensures ParseDeadline(d) == e.deadline
  {
    match e.deadline
    case Some(day) => Iso(day)
    case None => Missing
  }

  /** The index of the first in-memory chapter whose id equals `id` (main.py:575). */
  function Lookup(chapters: seq<ChapterRow>, id: Option<int>): (r: Option<nat>)
    ensures r.Some? ==> r.value < |chapters| && chapters[r.value].id == id
    ensures r.Some? ==> forall j :: 0 <= j < r.value ==> chapters[j].id != id
    ensures r.None? ==> forall j :: 0 <= j < |chapters| ==> chapters[j].id != id
    ensures forall j :: 0 <= j < |chapters| && chapters[j].id == id ==> r.Some? && r.value <= j
  {
    if chapters == [] then None
    else if chapters[0].id == id then Some(0)
    else match Lookup(chapters[1..], id)
      case None => None
      case Some(j) => Some(j + 1)
  }

  /**
   * Whether one of the five compared fields differs between the chapter and
   * the edited row (main.py:590-608); the stored deadline text is compared
   * with the text the date cell formats to.
   */
  predicate Differs(o: Chapter, e: EditedRow) {
    || o.title != Some(e.title)
    || o.status != Some(e.status)
    || o.wordCount != Some(EditedWordCount(e))
    || o.priority != Some(e.priority)
    || o.deadline != EditedDeadline(e)
  }

  /**
   * The celebration (main.py:604-605): the field scan stops at the first
   * difference, so it fires only when the title is unchanged and the status
   * changed to Done.
   */
  predicate Celebrates(o: Chapter, e: EditedRow) {
    o.title == Some(e.title) && o.status != Some(e.status) && e.status == Done
  }

  /** The previous word count a matched row carries over (main.py:610). */
  function CarriedPrevious(o: Chapter): (p: int)
    ensures o.previousWordCount.Some? ==> p == o.previousWordCount.value
    ensures o.previousWordCount.None? ==> p == o.wordCount.GetOr(0)
  {
    o.previousWordCount.GetOr(o.wordCount.GetOr(0))
  }

  /** The chapter document an edited row maps to (main.py:578-586). */
  function Mapped(e: EditedRow, previous: int, lastEdited: Option<string>): Chapter {
    Chapter(Some(e.title), Some(e.status), Some(EditedWordCount(e)), Some(previous),
            Some(e.priority), EditedDeadline(e), lastEdited)
  }

  /**
   * The next-state row for one edited row. A row matching an in-memory
   * chapter keeps its id, carries that chapter's previous word count, edit
   * stamp and `deadline_obj` (the merge keeps keys the mapped row lacks),
   * and is marked changed iff a compared field differs. Any other row is
   * new: it gets the id `newId`, previous count 0, the stamp `now`, no
   * `deadline_obj`, and is marked changed.
   */
  function NextRow(chapters: seq<ChapterRow>, e: EditedRow, newId: int, now: string): (r: ChapterRow)
    ensures r.rec.doc.title == Some(e.title) && r.rec.doc.status == Some(e.status)
    ensures r.rec.doc.wordCount == Some(EditedWordCount(e)) && r.rec.doc.priority == Some(e.priority)
    ensures r.rec.doc.deadline == EditedDeadline(e)
    ensures Lookup(chapters, e.id).Some? ==>
      var o := chapters[Lookup(chapters, e.id).value].rec.doc;
      && r.id == e.id
      && r.rec.doc.previousWordCount == Some(CarriedPrevious(o))
      && r.rec.doc.lastEdited == o.lastEdited
      && r.rec.parsed == chapters[Lookup(chapters, e.id).value].rec.parsed
      && (r.rec.changed <==> Differs(o, e))
    ensures Lookup(chapters, e.id).None? ==>
      && r.id == Some(newId)
      && r.rec.doc.previousWordCount == Some(0)
      && r.rec.doc.lastEdited == Some(now)
      && r.rec.parsed.None?
      && r.rec.changed
  {
    match Lookup(chapters, e.id)
    case Some(j) =>
      var o := chapters[j].rec.doc;
      Row(e.id, Tracked(Mapped(e, CarriedPrevious(o), o.lastEdited), Differs(o, e), chapters[j].rec.parsed))
    case None =>
      Row(Some(newId), Tracked(Mapped(e, 0, Some(now)), true, None))
  }

  /** The next chapter list when every new row gets the id `newId`. */
  function NextRows(chapters: seq<ChapterRow>, edited: seq<EditedRow>, newId: int, now: string): (r: seq<ChapterRow>)
    ensures |r| == |edited|
    ensures forall i :: 0 <= i < |edited| ==> r[i] == NextRow(chapters, edited[i], newId, now)
  {
    seq(|edited|, i requires 0 <= i < |edited| => NextRow(chapters, edited[i], newId, now))
  }

  /** The ids of the in-memory chapters (main.py:623). */
  function OriginalIds(chapters: seq<ChapterRow>): set<Option<int>> {
    set i | 0 <= i < |chapters| :: chapters[i].id
  }

  /** The ids of the edited rows that have one (main.py:624). */
  function EditedIds(edited: seq<EditedRow>): set<Option<int>> {
    set i | 0 <= i < |edited| && edited[i].id.Some? :: edited[i].id
  }

  /** Whether an edited row triggers the celebration. */
  predicate CelebratesRow(chapters: seq<ChapterRow>, e: EditedRow) {
    Lookup(chapters, e.id).Some? && Celebrates(chapters[Lookup(chapters, e.id).value].rec.doc, e)
  }

  /** Whether some row of the next chapter list is marked changed. */
  predicate AnyChanged(rows: seq<ChapterRow>) {
    exists j :: 0 <= j < |rows| && rows[j].rec.changed
  }

  /** Whether some edited row triggers the celebration. */
  predicate AnyCelebrates(chapters: seq<ChapterRow>, edited: seq<EditedRow>) {
    exists j :: 0 <= j < |edited| && CelebratesRow(chapters, edited[j])
  }

  /** One more edited row of the reconciliation loop. */
  lemma ReconcileStep(chapters: seq<ChapterRow>, edited: seq<EditedRow>, newId: int, now: string, i: nat)
    requires i < |edited|
    ensures var r := NextRow(chapters, edited[i], newId, now);
      var before := NextRows(chapters, edited[..i], newId, now);
      && NextRows(chapters, edited[..i + 1], newId, now) == before + [r]
      && (AnyChanged(before + [r]) <==> AnyChanged(before) || r.rec.changed)
      && (AnyCelebrates(chapters, edited[..i + 1]) <==>
            AnyCelebrates(chapters, edited[..i]) || CelebratesRow(chapters, edited[i]))
  {
    var r := NextRow(chapters, edited[i], newId, now);
    var before := NextRows(chapters, edited[..i], newId, now);
    assert (before + [r])[i] == r;
    assert forall j :: 0 <= j < i ==> (before + [r])[j] == before[j];
    assert edited[..i + 1][i] == edited[i];
    assert forall j :: 0 <= j < i ==> edited[..i + 1][j] == edited[..i][j];
  }

  /**
   * The reconciliation loop. Every new row asks the stored table for its
   * next id, so all new rows of one pass get the same id. A save is needed
   * iff some row is changed or new, or the id sets differ.
   */
  method Reconcile(chapters: seq<ChapterRow>, edited: seq<EditedRow>, stored: map<int, Chapter>, now: string)
    returns (next: seq<ChapterRow>, needsSave: bool, celebrate: bool)
    ensures next == NextRows(chapters, edited, NextFree(stored.Keys), now)
    ensures needsSave <==> AnyChanged(next) || OriginalIds(chapters) != EditedIds(edited)
    ensures celebrate <==> AnyCelebrates(chapters, edited)
  {
    next := [];
    needsSave := false;
    celebrate := false;
    ghost var n := NextFree(stored.Keys);
    for i := 0 to |edited|
      invariant next == NextRows(chapters, edited[..i], n, now)
      invariant needsSave == AnyChanged(next)
      invariant celebrate == AnyCelebrates(chapters, edited[..i])
    {
      ReconcileStep(chapters, edited, n, now, i);
      var e := edited[i];
      var found := Lookup(chapters, e.id);
      if found.Some? {
        var original := chapters[found.value].rec;
        var o := original.doc;
        var changed := Differs(o, e);
        if changed {
          needsSave := true;
          if Celebrates(o, e) {
            celebrate := true;
          }
        }
        next := next + [Row(e.id, Tracked(Mapped(e, CarriedPrevious(o), o.lastEdited), changed, original.parsed))];
      } else {
        var newId := GetNextId(stored);
        next := next + [Row(Some(newId), Tracked(Mapped(e, 0, Some(now)), true, None))];
        needsSave := true;
      }
    }
    assert edited[..|edited|] == edited;
    if OriginalIds(chapters) != EditedIds(edited) {
      needsSave := true;
    }
  }

  /**
   * Editing a chapter and saving it (main.py:569-627, then main.py:122-172).
   * For an edited row matching a stored chapter that the in-memory list
   * mirrors, and no other row claiming its id, the stored chapter afterwards
   * holds the edited fields; its previous word count is the old word count
   * when the word count changed and the carried-over one otherwise; it is
   * stamped with the save time exactly when a compared field changed. That
   * is the table the save leaves when no upsert raises, and the one the
   * corrected save (`SaveWithoutDates`) always leaves. The row carries the
   * chapter's `deadline_obj`, so when the chapter holds a parsed date the
   * save as written raises at this row or an earlier one, before writing it.
   */
  lemma ReconcileThenSave(chapters: seq<ChapterRow>, edited: seq<EditedRow>, stored: map<int, Chapter>,
                          rows: seq<ChapterRow>, i: nat, newId: int, now: string, savedAt: string)
    requires i < |edited| == |rows|
    requires Truthy(edited[i].id) && edited[i].id.value in stored
    requires Lookup(chapters, edited[i].id).Some?
    requires chapters[Lookup(chapters, edited[i].id).value].rec.doc == stored[edited[i].id.value]
    requires rows[i] == NextRow(chapters, edited[i], newId, now)
    requires forall m :: 0 <= m < |rows| && m != i ==> rows[m].id != edited[i].id
    ensures var k := edited[i].id.value;
      var e := edited[i];
      var o := stored[k];
      var t := WriteThrough(stored, rows, StoredDoc(savedAt));
      && k in t
      && t[k] == Mapped(e,
                        if o.wordCount != Some(EditedWordCount(e)) then o.wordCount.GetOr(0) else CarriedPrevious(o),
                        if Differs(o, e) then Some(savedAt) else o.lastEdited)
    ensures chapters[Lookup(chapters, edited[i].id).value].rec.parsed.Some? ==>
      FirstUnwritable(rows).Some? && FirstUnwritable(rows).value <= i
  {
    var k := edited[i].id.value;
    var f := StoredDoc(savedAt);
    assert rows[..0] == [];
    Untouched(stored, rows, f, 0, i, k);
    var u := Fold(stored, rows[..i], f);
    assert u[k] == stored[k];
    LastWriteWins(stored, rows, f, i);
  }

  /**
   * The worked example of change detection: raising a word count from 1000
   * to 1200 makes the previous count 1000 and the delta +200 and stamps the
   * chapter; changing only the title keeps the previous count 900, so the
   * delta stays +100. The chapter has no deadline, so neither save raises.
   */
  lemma ChangeDetectionExample(now: string, savedAt: string)
    ensures var c := Chapter(Some("Ch"), Some("Draft"), Some(1000), Some(900), Some(LowPriority), Missing, None);
      var stored := map[1 := c];
      var chapters := [Row(Some(1), Tracked(c, false, None))];
      var more := [EditedRow(Some(1), "Ch", "Draft", Some(1200), LowPriority, None)];
      var renamed := [EditedRow(Some(1), "Chapter", "Draft", Some(1000), LowPriority, None)];
      var t1 := WriteThrough(stored, NextRows(chapters, more, NextFree(stored.Keys), now), StoredDoc(savedAt));
      var t2 := WriteThrough(stored, NextRows(chapters, renamed, NextFree(stored.Keys), now), StoredDoc(savedAt));
      && 1 in t1 && t1[1].previousWordCount == Some(1000) && WordDelta(t1[1]) == 200
      && t1[1].lastEdited == Some(savedAt)
      && 1 in t2 && t2[1].previousWordCount == Some(900) && WordDelta(t2[1]) == 100
      && t2[1].title == Some("Chapter") && t2[1].lastEdited == Some(savedAt)
      && FirstUnwritable(NextRows(chapters, more, NextFree(stored.Keys), now)) == None
      && FirstUnwritable(NextRows(chapters, renamed, NextFree(stored.Keys), now)) == None
  {
    var c := Chapter(Some("Ch"), Some("Draft"), Some(1000), Some(900), Some(LowPriority), Missing, None);
    var stored := map[1 := c];
    var chapters := [Row(Some(1), Tracked(c, false, None))];
    var more := [EditedRow(Some(1), "Ch", "Draft", Some(1200), LowPriority, None)];
    var renamed := [EditedRow(Some(1), "Chapter", "Draft", Some(1000), LowPriority, None)];
    assert Lookup(chapters, Some(1)) == Some(0);
    var n := NextFree(stored.Keys);
    ReconcileThenSave(chapters, more, stored, NextRows(chapters, more, n, now), 0, n, now, savedAt);
    ReconcileThenSave(chapters, renamed, stored, NextRows(chapters, renamed, n, now), 0, n, now, savedAt);
  }

  /** Rows claiming ids 1, 2 and 4 over stored ids 1, 2 and 3 leave exactly 1, 2 and 4. */
  lemma KeepTwoAddOne(t: map<int, Chapter>, rows: seq<ChapterRow>, prep: (map<int, Chapter>, ChapterRow) -> Chapter)
    requires t.Keys == {1, 2, 3} && |rows| == 3
    requires rows[0].id == Some(1) && rows[1].id == Some(2) && rows[2].id == Some(4)
    ensures WriteThrough(t, rows, prep).Keys == {1, 2, 4}
  {
    NextFreeUnique({1, 2, 3}, 4);
    assert rows[..0] == [];
    assert rows[..1][..0] == rows[..0];
    assert KeysAfter(t.Keys, rows[..1]) == {1, 2, 3};
    assert rows[..2][..1] == rows[..1];
    assert KeysAfter(t.Keys, rows[..2]) == {1, 2, 3};
    assert LandsWhereClaimed(t.Keys, rows);
    WriteThroughIsAuthoritative(t, rows, prep);
    assert SavedIds(rows) == {1, 2, 4};
  }

  /** Which of three rows, if any, is the first whose upsert raises. */
  lemma FirstOfThree(rows: seq<ChapterRow>)
    requires |rows| == 3
    ensures FirstUnwritable(rows) ==
      if Unwritable(rows[0]) then Some(0) else if Unwritable(rows[1]) then Some(1)
      else if Unwritable(rows[2]) then Some(2) else None
  {
    assert rows[1..][1..][1..] == [];
  }

  /**
   * The worked example of id assignment: with chapters 1, 2 and 3 stored,
   * keeping 1 and 2, deleting 3 and adding one new row leaves exactly the
   * ids 1, 2 and 4. `pa`, `pb` and `pd` are the chapters' `deadline_obj`
   * values: the save as written raises at the first kept chapter holding a
   * date, and the deleted chapter's date does not matter.
   */
  lemma IdAssignmentExample(a: Chapter, b: Chapter, d: Chapter, pa: Option<int>, pb: Option<int>, pd: Option<int>,
                            e1: EditedRow, e2: EditedRow, e3: EditedRow, now: string, savedAt: string)
    requires e1.id == Some(1) && e2.id == Some(2) && e3.id == None
    ensures var stored := map[1 := a, 2 := b, 3 := d];
      var chapters := [Row(Some(1), Tracked(a, false, pa)), Row(Some(2), Tracked(b, false, pb)),
                       Row(Some(3), Tracked(d, false, pd))];
      var rows := NextRows(chapters, [e1, e2, e3], NextFree(stored.Keys), now);
      && WriteThrough(stored, rows, StoredDoc(savedAt)).Keys == {1, 2, 4}
      && FirstUnwritable(rows) == (if pa.Some? then Some(0) else if pb.Some? then Some(1) else None)
  {
    var stored := map[1 := a, 2 := b, 3 := d];
    var chapters := [Row(Some(1), Tracked(a, false, pa)), Row(Some(2), Tracked(b, false, pb)),
                     Row(Some(3), Tracked(d, false, pd))];
    assert stored.Keys == {1, 2, 3};
    NextFreeUnique({1, 2, 3}, 4);
    var rows := NextRows(chapters, [e1, e2, e3], 4, now);
    assert Lookup(chapters, Some(1)) == Some(0);
    assert Lookup(chapters, Some(2)) == Some(1);
    assert Lookup(chapters, None) == None;
    KeepTwoAddOne(stored, rows, StoredDoc(savedAt));
    FirstOfThree(rows);
  }

  /**
   * The table row shown for an in-memory chapter with the date cell `cell`:
   * missing fields show their defaults.
   */
  function Shown(c: ChapterRow, cell: Option<int>): (e: EditedRow)
    ensures e.id == c.id && e.deadline == cell
    ensures Complete(c.rec.doc) ==>
      && Some(e.title) == c.rec.doc.title && Some(e.status) == c.rec.doc.status
      && e.wordCount == c.rec.doc.wordCount && Some(e.priority) == c.rec.doc.priority
  {
    var doc := c.rec.doc;
    EditedRow(c.id, doc.title.GetOr(" "), doc.status.GetOr(NotStarted), Some(doc.wordCount.GetOr(0)),
              doc.priority.GetOr(LowPriority), cell)
  }

  /**
   * The table row shown for an in-memory chapter (main.py:499-512): the
   * date cell shows the chapter's `deadline_obj`, which the load derived
   * from the deadline text and nothing updates afterwards.
   */
  function EditorRow(c: ChapterRow): (e: EditedRow)
    ensures e == Shown(c, c.rec.parsed)
    ensures e.deadline.Some? <==> c.rec.parsed.Some?
  {
    Shown(c, c.rec.parsed)
  }

  /** The table rows shown for the in-memory chapter list. */
  function EditorRows(chapters: seq<ChapterRow>): (r: seq<EditedRow>)
    ensures |r| == |chapters|
    ensures forall i :: 0 <= i < |chapters| ==> r[i] == EditorRow(chapters[i])
  {
    seq(|chapters|, i requires 0 <= i < |chapters| => EditorRow(chapters[i]))
  }

  /** The corrected table row: the date cell is parsed from the current deadline text. */
  function FixedEditorRow(c: ChapterRow): (e: EditedRow)
    ensures e == Shown(c, ParseDeadline(c.rec.doc.deadline))
    ensures EditedDeadline(e) == c.rec.doc.deadline || c.rec.doc.deadline.Other?
  {
    Shown(c, ParseDeadline(c.rec.doc.deadline))
  }

  /** The corrected table rows for the in-memory chapter list. */
  function FixedEditorRows(chapters: seq<ChapterRow>): (r: seq<EditedRow>)
    ensures |r| == |chapters|
    ensures forall i :: 0 <= i < |chapters| ==> r[i] == FixedEditorRow(chapters[i])
  {
    seq(|chapters|, i requires 0 <= i < |chapters| => FixedEditorRow(chapters[i]))
  }

  /** With distinct ids, the lookup of a chapter's own id finds that chapter. */
  lemma LookupFindsItself(chapters: seq<ChapterRow>, i: nat)
    requires i < |chapters|
    requires forall a, b :: 0 <= a < b < |chapters| ==> chapters[a].id != chapters[b].id
    ensures Lookup(chapters, chapters[i].id) == Some(i)
  {
  }

  /**
   * With the corrected date cell, showing the chapter list in the table and
   * reading it back unedited changes nothing: no row is marked changed, the
   * id sets agree so no save is triggered, and the next chapter list is the
   * current one. This needs distinct ids, complete chapters and no deadline
   * text that fails to parse.
   */
  lemma FixedTableIsClean(chapters: seq<ChapterRow>, newId: int, now: string)
    requires forall i :: 0 <= i < |chapters| ==>
      chapters[i].id.Some? && Complete(chapters[i].rec.doc) && !chapters[i].rec.doc.deadline.Other? && !chapters[i].rec.changed
    requires forall a, b :: 0 <= a < b < |chapters| ==> chapters[a].id != chapters[b].id
    ensures NextRows(chapters, FixedEditorRows(chapters), newId, now) == chapters
    ensures OriginalIds(chapters) == EditedIds(FixedEditorRows(chapters))
  {
    var edited := FixedEditorRows(chapters);
    var next := NextRows(chapters, edited, newId, now);
    forall i | 0 <= i < |chapters|
      ensures next[i] == chapters[i]
    {
      LookupFindsItself(chapters, i);
      var o := chapters[i].rec.doc;
      assert EditedDeadline(edited[i]) == o.deadline;
    }
    forall x | x in OriginalIds(chapters)
      ensures x in EditedIds(edited)
    {
      var i :| 0 <= i < |chapters| && chapters[i].id == x;
      assert edited[i].id == x;
    }
  }

  /**
   * Showing the chapter list in the table and reading it back unedited
   * (main.py:499-512 with main.py:569-627) changes nothing while each
   * chapter's `deadline_obj` is the date of its deadline text, as it is
   * right after the load: the shown rows are then the corrected ones.
   */
  lemma UneditedTableIsClean(chapters: seq<ChapterRow>, newId: int, now: string)
    requires forall i :: 0 <= i < |chapters| ==>
      chapters[i].id.Some? && Complete(chapters[i].rec.doc) && !chapters[i].rec.doc.deadline.Other? && !chapters[i].rec.changed
    requires forall i :: 0 <= i < |chapters| ==> chapters[i].rec.parsed == ParseDeadline(chapters[i].rec.doc.deadline)
    requires forall a, b :: 0 <= a < b < |chapters| ==> chapters[a].id != chapters[b].id
    ensures NextRows(chapters, EditorRows(chapters), newId, now) == chapters
    ensures OriginalIds(chapters) == EditedIds(EditorRows(chapters))
  {
    assert EditorRows(chapters) == FixedEditorRows(chapters);
    FixedTableIsClean(chapters, newId, now);
  }

  /**
   * A date set in the table is reverted on the next pass. Chapter `i` has no
   * deadline and no `deadline_obj`; the table sets its date to `day`. The
   * reconciled row has the deadline but, like its original, no
   * `deadline_obj`, and the save keeps it so. Shown again, the row's date
   * cell is empty, so reading it back marks it changed and clears the
   * deadline. With the corrected date cell the row reads back unchanged.
   */
  lemma DeadlineEditReverted(chapters: seq<ChapterRow>, i: nat, day: int, stored: map<int, Chapter>,
                             newId: int, now: string, savedAt: string)
    requires i < |chapters| && Truthy(chapters[i].id)
    requires chapters[i].rec.doc.deadline == Missing && chapters[i].rec.parsed == None
    requires forall a, b :: 0 <= a < b < |chapters| ==> chapters[a].id != chapters[b].id
    ensures var edit := EditorRow(chapters[i]).(deadline := Some(day));
      var r := NextRow(chapters, edit, newId, now);
      var kept := chapters[i := Prepared(stored, r, savedAt)];
      var again := NextRow(kept, EditorRow(kept[i]), newId, now);
      && r.rec.changed && r.rec.doc.deadline == Iso(day)
      && kept[i].rec.doc.deadline == Iso(day)
      && again.rec.changed && again.rec.doc.deadline == Missing
      && !NextRow(kept, FixedEditorRow(kept[i]), newId, now).rec.changed
  {
    var edit := EditorRow(chapters[i]).(deadline := Some(day));
    LookupFindsItself(chapters, i);
    var r := NextRow(chapters, edit, newId, now);
    var kept := chapters[i := Prepared(stored, r, savedAt)];
    assert forall m :: 0 <= m < |kept| ==> kept[m].id == chapters[m].id;
    LookupFindsItself(kept, i);
  }

  /**
   * A chapter whose stored deadline text is not a date comes back changed,
   * though nobody edited it: its deadline is cleared when it has no
   * `deadline_obj` (as the load leaves it) and replaced by that date
   * otherwise.
   */
  lemma MalformedDeadlineCleared(chapters: seq<ChapterRow>, i: nat, newId: int, now: string)
    requires i < |chapters| && chapters[i].rec.doc.deadline.Other?
    requires forall a, b :: 0 <= a < b < |chapters| ==> chapters[a].id != chapters[b].id
    ensures var r := NextRow(chapters, EditorRow(chapters[i]), newId, now);
      && r.id == chapters[i].id && r.rec.changed
      && (chapters[i].rec.parsed.None? ==> r.rec.doc.deadline == Missing)
      && (chapters[i].rec.parsed.Some? ==> r.rec.doc.deadline == Iso(chapters[i].rec.parsed.value))
  {
    LookupFindsItself(chapters, i);
  }
}
