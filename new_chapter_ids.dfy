/**
 * Ids for chapters added in the table. The reconciler gives every new row of
 * one pass the stored table's next id (main.py:614), so a second new row
 * claims the same id as the first and the save keeps only the last of them.
 * Numbering the new rows consecutively from that id keeps them all.
 */
module NewChapterIds {
  import opened Wrappers
  import opened Records
  import opened Ids
  import opened Tables
  import opened ChapterSave
  import opened Reconcile

  /**
   * Two chapters added in one pass to an empty project: both are given id
   * 1, and after the save the table holds one chapter, the second.
   */
  lemma NewRowsCollide(e1: EditedRow, e2: EditedRow, now: string, savedAt: string)
    requires e1.id == None && e2.id == None
    ensures var rows := NextRows([], [e1, e2], NextFree({}), now);
      var t := WriteThrough(map[], rows, StoredDoc(savedAt));
      && rows[0].id == rows[1].id == Some(1)
      && t.Keys == {1}
      && t[1].title == Some(e2.title)
  {
    NextFreeOfEmpty();
    var rows := NextRows([], [e1, e2], 1, now);
    var f := StoredDoc(savedAt);
    assert rows[..0] == [];
    assert rows[..1][..0] == rows[..0];
    assert Fold(map[], rows[..1], f).Keys == {1};
    assert Slot({1}, 1) == 1;
    assert rows[..2] == rows;
    assert SavedIds(rows) == {1};
  }

  /** How many of the edited rows match no in-memory chapter. */
  function NewCount(chapters: seq<ChapterRow>, edited: seq<EditedRow>): (n: nat)
    ensures n <= |edited|
    decreases |edited|
  {
    if edited == [] then 0
    else
      var last := edited[|edited| - 1];
      NewCount(chapters, edited[..|edited| - 1]) + (if Lookup(chapters, last.id).None? then 1 else 0)
  }

  /**
   * The next chapter list with the new rows numbered consecutively from
   * `first`, in table order.
   */
  function FixedRows(chapters: seq<ChapterRow>, edited: seq<EditedRow>, first: int, now: string): (r: seq<ChapterRow>)
    ensures |r| == |edited|
    ensures forall i :: 0 <= i < |edited| ==>
      r[i] == NextRow(chapters, edited[i], first + NewCount(chapters, edited[..i]), now)
  {
    seq(|edited|, i requires 0 <= i < |edited| =>
      NextRow(chapters, edited[i], first + NewCount(chapters, edited[..i]), now))
  }

  /** A new row counts towards every later prefix. */
  lemma {:induction false} NewCountGrows(chapters: seq<ChapterRow>, edited: seq<EditedRow>, i: nat, j: nat)
    requires i < j <= |edited|
    requires Lookup(chapters, edited[i].id).None?
    ensures NewCount(chapters, edited[..i]) < NewCount(chapters, edited[..j])
    decreases j
  {
    assert edited[..j][..j - 1] == edited[..j - 1];
    if j == i + 1 {
      assert edited[..j][j - 1] == edited[i];
    } else {
      NewCountGrows(chapters, edited, i, j - 1);
    }
  }

  /** Every in-memory chapter is stored under its id. */
  ghost predicate Mirrors(chapters: seq<ChapterRow>, stored: map<int, Chapter>) {
    forall j :: 0 <= j < |chapters| ==> chapters[j].id.Some? && chapters[j].id.value in stored
  }

  /** `ks` holds the ids of `before` and the ids from `lo` up to but not including `hi`. */
  ghost predicate Extends(ks: set<int>, before: set<int>, lo: int, hi: int) {
    forall x :: x in ks <==> x in before || lo <= x < hi
  }

  /** Whether a row carries no id the table already holds. */
  predicate IsNew<S>(keys: set<int>, row: Row<S>) {
    row.id.None? || row.id.value !in keys
  }

  /** How many of `rows` carry no id the table already holds. */
  ghost function Unstored<S>(keys: set<int>, rows: seq<Row<S>>): nat
    decreases |rows|
  {
    if rows == [] then 0
    else Unstored(keys, rows[..|rows| - 1]) + (if IsNew(keys, rows[|rows| - 1]) then 1 else 0)
  }

  /**
   * Each row either carries a stored id or is new and carries the next id in
   * a run counted up from `first`.
   */
  ghost predicate Numbered<S>(keys: set<int>, rows: seq<Row<S>>, first: int) {
    forall m :: 0 <= m < |rows| ==>
      rows[m].id.Some? && (rows[m].id.value in keys || rows[m].id.value == first + Unstored(keys, rows[..m]))
  }

  /** The next new id lands on itself while the stored ids are the old ones plus the new ones so far. */
  lemma NewSlot(ks: set<int>, before: set<int>, first: int, c: nat)
    requires first == NextFree(before)
    requires Extends(ks, before, first, first + c)
    ensures Slot(ks, first + c) == first + c
  {
    if c > 0 {
      assert first + c - 1 in ks;
    }
    NextFreeUnique(ks, first + c);
  }

  /** The stored ids after the first `i` numbered rows: the old ones and the new ones so far. */
  lemma {:induction false} NumberedKeysAfter<S>(keys: set<int>, rows: seq<Row<S>>, i: nat)
    requires PositiveIds(keys) && Numbered(keys, rows, NextFree(keys))
    requires i <= |rows|
    ensures Extends(KeysAfter(keys, rows[..i]), keys, NextFree(keys), NextFree(keys) + Unstored(keys, rows[..i]))
    decreases i
  {
    var first := NextFree(keys);
    if i == 0 {
      assert rows[..0] == [];
    } else {
      NumberedKeysAfter(keys, rows, i - 1);
      var prefix := rows[..i];
      assert prefix[..i - 1] == rows[..i - 1];
      var row := rows[i - 1];
      var ks := KeysAfter(keys, rows[..i - 1]);
      var c := Unstored(keys, rows[..i - 1]);
      if row.id.value !in keys {
        NewSlot(ks, keys, first, c);
      }
    }
  }

  /** Numbered rows all land where they claim. */
  lemma NumberedLands<S>(keys: set<int>, rows: seq<Row<S>>)
    requires PositiveIds(keys) && Numbered(keys, rows, NextFree(keys))
    ensures LandsWhereClaimed(keys, rows)
  {
    forall m | 0 <= m < |rows| && Truthy(rows[m].id)
      ensures Slot(KeysAfter(keys, rows[..m]), rows[m].id.value) == rows[m].id.value
    {
      NumberedKeysAfter(keys, rows, m);
      if rows[m].id.value !in keys {
        NewSlot(KeysAfter(keys, rows[..m]), keys, NextFree(keys), Unstored(keys, rows[..m]));
      }
    }
  }

  /**
   * When the rows that match a chapter carry stored ids and the others carry
   * ids the table lacks, the rows new to the table are the new rows.
   */
  lemma {:induction false} UnstoredIsNewCount(chapters: seq<ChapterRow>, edited: seq<EditedRow>, keys: set<int>,
                                              rows: seq<ChapterRow>, i: nat)
    requires |rows| == |edited| && i <= |rows|
    requires forall m :: 0 <= m < |rows| ==> (IsNew(keys, rows[m]) <==> Lookup(chapters, edited[m].id).None?)
    ensures Unstored(keys, rows[..i]) == NewCount(chapters, edited[..i])
    decreases i
  {
    if i == 0 {
      assert rows[..0] == [];
      assert edited[..0] == [];
    } else {
      UnstoredIsNewCount(chapters, edited, keys, rows, i - 1);
      assert rows[..i][..i - 1] == rows[..i - 1];
      assert edited[..i][..i - 1] == edited[..i - 1];
    }
  }

  /** What the fixed list holds at row `m`: an id, stored iff the row matches a chapter. */
  lemma FixedRowId(chapters: seq<ChapterRow>, edited: seq<EditedRow>, stored: map<int, Chapter>, now: string, m: nat)
    requires Mirrors(chapters, stored) && m < |edited|
    ensures var row := FixedRows(chapters, edited, NextFree(stored.Keys), now)[m];
      && row.id.Some?
      && (IsNew(stored.Keys, row) <==> Lookup(chapters, edited[m].id).None?)
      && (Lookup(chapters, edited[m].id).None? ==> row.id.value == NextFree(stored.Keys) + NewCount(chapters, edited[..m]))
  {
  }

  /** With the corrected numbering a new row's id differs from every other row's. */
  lemma FixedIdsDistinct(chapters: seq<ChapterRow>, edited: seq<EditedRow>, stored: map<int, Chapter>, now: string)
    requires Mirrors(chapters, stored)
    ensures var rows := FixedRows(chapters, edited, NextFree(stored.Keys), now);
      forall i, j :: 0 <= i < j < |rows| && (Lookup(chapters, edited[i].id).None? || Lookup(chapters, edited[j].id).None?)
        ==> rows[i].id != rows[j].id
  {
    var rows := FixedRows(chapters, edited, NextFree(stored.Keys), now);
    forall i, j | 0 <= i < j < |rows| && (Lookup(chapters, edited[i].id).None? || Lookup(chapters, edited[j].id).None?)
      ensures rows[i].id != rows[j].id
    {
      FixedRowId(chapters, edited, stored, now, i);
      FixedRowId(chapters, edited, stored, now, j);
      if Lookup(chapters, edited[i].id).None? {
        NewCountGrows(chapters, edited, i, j);
      }
    }
  }

  /** The corrected list is numbered consecutively from the next id. */
  lemma FixedRowsNumbered(chapters: seq<ChapterRow>, edited: seq<EditedRow>, stored: map<int, Chapter>, now: string)
    requires Mirrors(chapters, stored)
    ensures Numbered(stored.Keys, FixedRows(chapters, edited, NextFree(stored.Keys), now), NextFree(stored.Keys))
  {
    var keys := stored.Keys;
    var rows := FixedRows(chapters, edited, NextFree(keys), now);
    forall m | 0 <= m < |rows|
      ensures IsNew(keys, rows[m]) <==> Lookup(chapters, edited[m].id).None?
    {
      FixedRowId(chapters, edited, stored, now, m);
    }
    forall m | 0 <= m < |rows|
      ensures rows[m].id.Some? && (rows[m].id.value in keys || rows[m].id.value == NextFree(keys) + Unstored(keys, rows[..m]))
    {
      FixedRowId(chapters, edited, stored, now, m);
      UnstoredIsNewCount(chapters, edited, keys, rows, m);
    }
  }

  /**
   * The corrected numbering keeps every row: each row's id is distinct from
   * every other row's whenever one of the two is new, and after the save the
   * stored ids are exactly the ids of the rows.
   */
  lemma FixedRowsAllSaved(chapters: seq<ChapterRow>, edited: seq<EditedRow>, stored: map<int, Chapter>, now: string, savedAt: string)
    requires Mirrors(chapters, stored) && PositiveIds(stored.Keys)
    ensures var rows := FixedRows(chapters, edited, NextFree(stored.Keys), now);
      && (forall i, j :: 0 <= i < j < |rows| && (Lookup(chapters, edited[i].id).None? || Lookup(chapters, edited[j].id).None?)
            ==> rows[i].id != rows[j].id)
      && WriteThrough(stored, rows, StoredDoc(savedAt)).Keys == SavedIds(rows)
      && forall i :: 0 <= i < |rows| ==> rows[i].id.Some? && rows[i].id.value in WriteThrough(stored, rows, StoredDoc(savedAt))
  {
    var rows := FixedRows(chapters, edited, NextFree(stored.Keys), now);
    FixedIdsDistinct(chapters, edited, stored, now);
    FixedRowsNumbered(chapters, edited, stored, now);
    NumberedLands(stored.Keys, rows);
    WriteThroughIsAuthoritative(stored, rows, StoredDoc(savedAt));
    forall i | 0 <= i < |rows|
      ensures rows[i].id.Some? && rows[i].id.value in SavedIds(rows)
    {
    }
  }
}
