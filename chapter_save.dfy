/**
 * The chapters part of `save_data` (main.py:134-171): each submitted chapter
 * is prepared against the stored table (edit stamp, word count, previous
 * word count) and upserted; chapters not submitted are removed.
 */
module ChapterSave {
  import opened Wrappers
  import opened Records
  import opened Ids
  import opened Tables

  /**
   * One chapter as `save_data` leaves it (main.py:144-159), given the table
   * as it is at that chapter's turn. The `_changed` marker is consumed by
   * stamping `lastEdited`; a missing word count is saved as 0; the previous
   * word count becomes the stored word count when that differs, 0 for a
   * chapter the table does not hold, and is left as submitted otherwise.
   */
  function Prepared(stored: map<int, Chapter>, row: ChapterRow, now: string): (r: ChapterRow)
    ensures r.id == row.id && !r.rec.changed
    ensures r.rec.doc.wordCount == Some(row.rec.doc.wordCount.GetOr(0))
    ensures row.rec.changed ==> r.rec.doc.lastEdited == Some(now)
    ensures !row.rec.changed ==> r.rec.doc.lastEdited == row.rec.doc.lastEdited
    ensures var k := row.id.GetOr(0);
      && (k in stored && stored[k].wordCount != r.rec.doc.wordCount ==>
            r.rec.doc.previousWordCount == Some(stored[k].wordCount.GetOr(0)))
      && (k !in stored ==> r.rec.doc.previousWordCount == Some(0))
      && (k in stored && stored[k].wordCount == r.rec.doc.wordCount ==>
            r.rec.doc.previousWordCount == row.rec.doc.previousWordCount)
    ensures r.rec.doc.title == row.rec.doc.title && r.rec.doc.status == row.rec.doc.status
    ensures r.rec.doc.priority == row.rec.doc.priority && r.rec.doc.deadline == row.rec.doc.deadline
    ensures r.rec.parsed == row.rec.parsed
  {
    var doc := row.rec.doc;
    var lastEdited := if row.rec.changed then Some(now) else doc.lastEdited;
    var wc := doc.wordCount.GetOr(0);
    var k := row.id.GetOr(0);
    var previous :=
      if k in stored && stored[k].wordCount != Some(wc) then Some(stored[k].wordCount.GetOr(0))
      else if k !in stored then Some(0)
      else doc.previousWordCount;
    Row(row.id, Tracked(doc.(lastEdited := lastEdited, wordCount := Some(wc), previousWordCount := previous), false, row.rec.parsed))
  }

  /** The document the store writes for a chapter row, at save time `now`. */
  function StoredDoc(now: string): (map<int, Chapter>, ChapterRow) -> Chapter {
    (u, row) => Prepared(u, row, now).rec.doc
  }

  /**
   * The in-memory chapter list after the save, which prepares the submitted
   * dictionaries in place; rows without a truthy id are skipped untouched.
   */
  ghost function Processed(table: map<int, Chapter>, rows: seq<ChapterRow>, now: string): (r: seq<ChapterRow>)
    ensures |r| == |rows|
    ensures forall i :: 0 <= i < |rows| ==> r[i].id == rows[i].id
    ensures forall i :: 0 <= i < |rows| && Truthy(rows[i].id) ==> !r[i].rec.changed
  {
    seq(|rows|, i requires 0 <= i < |rows| =>
      if Truthy(rows[i].id) then Prepared(Fold(table, rows[..i], StoredDoc(now)), rows[i], now) else rows[i])
  }

  /**
   * Whether the upsert of a row raises: the store encodes every document as
   * JSON with no encoder for dates, so a chapter with a truthy id that still
   * carries its `deadline_obj` date cannot be written.
   */
  predicate Unwritable(row: ChapterRow) {
    Truthy(row.id) && row.rec.parsed.Some?
  }

  /** The index of the first row whose upsert raises, if any. */
  function FirstUnwritable(rows: seq<ChapterRow>): (r: Option<nat>)
    ensures r.Some? ==> r.value < |rows| && Unwritable(rows[r.value])
    ensures forall i :: 0 <= i < |rows| && Unwritable(rows[i]) ==> r.Some? && r.value <= i
  {
    if rows == [] then None
    else if Unwritable(rows[0]) then Some(0)
    else match FirstUnwritable(rows[1..])
      case None => None
      case Some(j) => Some(j + 1)
  }

  /** The first row that raises is the one after the rows that do not. */
  lemma FirstUnwritableAt(rows: seq<ChapterRow>, i: nat)
    requires i <= |rows|
    requires forall j :: 0 <= j < i ==> !Unwritable(rows[j])
    ensures i < |rows| && Unwritable(rows[i]) ==> FirstUnwritable(rows) == Some(i)
    ensures i == |rows| ==> FirstUnwritable(rows) == None
  {
  }

  /**
   * The upsert loop over the chapters (main.py:136-165). It stops at row
   * `raised.value` when that row's upsert raises: the rows before it are
   * written, that row is prepared in memory but not written, and the rest
   * are untouched. `upserted` is how many rows the loop got through.
   */
  method UpsertChapters(table: map<int, Chapter>, rows: seq<ChapterRow>, now: string)
    returns (result: map<int, Chapter>, savedIds: set<int>, saved: seq<ChapterRow>, raised: Option<nat>, upserted: nat)
    ensures raised == FirstUnwritable(rows)
    ensures upserted == (if raised.Some? then raised.value else |rows|)
    ensures result == Fold(table, rows[..upserted], StoredDoc(now))
    ensures savedIds == SavedIds(rows[..upserted])
    ensures raised.None? ==> saved == Processed(table, rows, now)
    ensures raised.Some? ==>
      saved == Processed(table, rows, now)[..raised.value + 1] + rows[raised.value + 1..]
  {
    savedIds := {};
    result := table;
    saved := [];
    raised := None;
    ghost var after := Processed(table, rows, now);
    for i := 0 to |rows|
      invariant result == Fold(table, rows[..i], StoredDoc(now))
      invariant savedIds == SavedIds(rows[..i])
      invariant saved == after[..i]
      invariant forall j :: 0 <= j < i ==> !Unwritable(rows[j])
    {
      var row := rows[i];
      FoldStep(table, rows, StoredDoc(now), i);
      assert after[..i + 1] == after[..i] + [after[i]];
      if !Truthy(row.id) {
        saved := saved + [row];
        continue;
      }
      var id := row.id.value;
      var prepared := Prepared(result, row, now);
      assert after[i] == prepared;
      if row.rec.parsed.Some? {
        FirstUnwritableAt(rows, i);
        raised := Some(i);
        upserted := i;
        saved := saved + [prepared] + rows[i + 1..];
        return;
      }
      if id in result {
        result := result[id := prepared.rec.doc];
      } else {
        var next := GetNextId(result);
        result := result[next := prepared.rec.doc];
      }
      savedIds := savedIds + {id};
      saved := saved + [prepared];
    }
    FirstUnwritableAt(rows, |rows|);
    upserted := |rows|;
    assert after[..|rows|] == after;
  }

  /**
   * The chapters part of `save_data`: the upsert loop, then, when no upsert
   * raised, the removal of unsubmitted chapters (main.py:168-171). Returns
   * the new table, the prepared in-memory list and the row that raised.
   */
  method SaveChapters(table: map<int, Chapter>, rows: seq<ChapterRow>, now: string)
    returns (result: map<int, Chapter>, saved: seq<ChapterRow>, raised: Option<nat>)
    ensures raised == FirstUnwritable(rows)
    ensures raised.None? ==> result == WriteThrough(table, rows, StoredDoc(now))
    ensures raised.None? ==> saved == Processed(table, rows, now)
    ensures raised.Some? ==> result == Fold(table, rows[..raised.value], StoredDoc(now))
    ensures raised.Some? ==>
      saved == Processed(table, rows, now)[..raised.value + 1] + rows[raised.value + 1..]
  {
    var savedIds, upserted;
    result, savedIds, saved, raised, upserted := UpsertChapters(table, rows, now);
    if raised.None? {
      assert rows[..|rows|] == rows;
      var doomed := result.Keys - savedIds;
      result := map k | k in result && k !in doomed :: result[k];
    }
  }

  /** The chapter list with every `deadline_obj` dropped. */
  function WithoutDates(rows: seq<ChapterRow>): (r: seq<ChapterRow>)
    ensures |r| == |rows|
    ensures forall i :: 0 <= i < |rows| ==> r[i] == Row(rows[i].id, rows[i].rec.(parsed := None))
  {
    seq(|rows|, i requires 0 <= i < |rows| => Row(rows[i].id, rows[i].rec.(parsed := None)))
  }

  /** Dropping the dates changes none of the documents the upserts write. */
  lemma {:induction false} FoldWithoutDates(table: map<int, Chapter>, rows: seq<ChapterRow>, now: string)
    ensures Fold(table, WithoutDates(rows), StoredDoc(now)) == Fold(table, rows, StoredDoc(now))
    decreases |rows|
  {
    if rows != [] {
      var n := |rows| - 1;
      assert WithoutDates(rows)[..n] == WithoutDates(rows[..n]);
      FoldWithoutDates(table, rows[..n], now);
    }
  }

  /**
   * The corrected save, which drops each chapter's `deadline_obj` before the
   * upserts: no upsert raises, and the table afterwards is the full
   * write-through of the chapters as submitted.
   */
  lemma SaveWithoutDates(table: map<int, Chapter>, rows: seq<ChapterRow>, now: string)
    ensures FirstUnwritable(WithoutDates(rows)) == None
    ensures WriteThrough(table, WithoutDates(rows), StoredDoc(now)) == WriteThrough(table, rows, StoredDoc(now))
  {
    FoldWithoutDates(table, rows, now);
    assert SavedIds(WithoutDates(rows)) == SavedIds(rows) by {
      assert forall i :: 0 <= i < |rows| ==> WithoutDates(rows)[i].id == rows[i].id;
    }
  }

  /**
   * The invariant the previous word count keeps: a chapter upserted onto its
   * stored document gets a new previous word count only when its word count
   * changes, and then the previous count is the old word count.
   */
  lemma PreviousCountFollowsWordCount(stored: map<int, Chapter>, row: ChapterRow, now: string)
    requires Truthy(row.id) && row.id.value in stored
    requires row.rec.doc.previousWordCount == stored[row.id.value].previousWordCount
    ensures var d := Prepared(stored, row, now).rec.doc;
      var before := stored[row.id.value];
      && (d.previousWordCount != before.previousWordCount ==> d.wordCount != before.wordCount)
      && (d.wordCount != before.wordCount ==> d.previousWordCount == Some(before.wordCount.GetOr(0)))
  {
  }

  /**
   * The delta shown after a save: the signed change of the word count when
   * the save changed it, and the delta the chapter already showed otherwise.
   */
  lemma DeltaAfterSave(stored: map<int, Chapter>, row: ChapterRow, now: string)
    requires Truthy(row.id) && row.id.value in stored
    requires stored[row.id.value].wordCount.Some? && row.rec.doc.wordCount.Some?
    ensures var d := Prepared(stored, row, now).rec.doc;
      var before := stored[row.id.value].wordCount.value;
      && (row.rec.doc.wordCount.value != before ==> WordDelta(d) == row.rec.doc.wordCount.value - before)
      && (row.rec.doc.wordCount.value == before ==> WordDelta(d) == WordDelta(row.rec.doc))
  {
  }
}
