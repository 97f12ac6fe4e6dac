/**
 * The document store as a whole: `save_data` (main.py:122-214) writes the
 * metadata document and the three collections through to their tables and
 * then takes the day's snapshot; `load_data` (main.py:241-269) reads the
 * tables back, tagging each record with its document id and filling in the
 * chapter defaults.
 */
module Store {
  import opened Wrappers
  import opened Records
  import opened Ids
  import opened Tables
  import opened ChapterSave
  import opened Snapshots

  /** The snapshot file of a day (main.py:107). */
  function SnapshotName(day: string): string {
    "novel_forge_db_" + day + ".json"
  }

  /**
   * `rows` lists the table with ids `keys`: every row carries a stored id,
   * the ids ascend strictly, and every stored id appears.
   */
  ghost predicate Enumerates<S>(rows: seq<Row<S>>, keys: set<int>) {
    && (forall i :: 0 <= i < |rows| ==> rows[i].id.Some? && rows[i].id.value in keys)
    && (forall i, j :: 0 <= i < j < |rows| ==> rows[i].id.GetOr(0) < rows[j].id.GetOr(0))
    && (forall k :: k in keys ==> exists i :: 0 <= i < |rows| && rows[i].id == Some(k))
  }

  /**
   * A listing in progress: `rows` lists, in ascending order, the documents
   * of `table` with ids below `k`.
   */
  ghost predicate ListsBelow<R>(rows: seq<Row<R>>, table: map<int, R>, k: int) {
    && (forall i :: 0 <= i < |rows| ==>
          rows[i].id.Some? && rows[i].id.value in table && rows[i].id.value < k && rows[i].rec == table[rows[i].id.value])
    && (forall i, j :: 0 <= i < j < |rows| ==> rows[i].id.GetOr(0) < rows[j].id.GetOr(0))
    && (forall j :: j in table && j < k ==> exists i :: 0 <= i < |rows| && rows[i].id == Some(j))
  }

  /** Passing id `k` keeps the listing in progress, listing `k` when it is stored. */
  lemma ListNextId<R>(rows: seq<Row<R>>, table: map<int, R>, k: int)
    requires ListsBelow(rows, table, k)
    ensures k !in table ==> ListsBelow(rows, table, k + 1)
    ensures k in table ==> ListsBelow(rows + [Row(Some(k), table[k])], table, k + 1)
  {
    if k in table {
      var more := rows + [Row(Some(k), table[k])];
      assert forall i :: 0 <= i < |rows| ==> more[i] == rows[i];
      assert more[|rows|].id == Some(k);
    }
  }

  /** A listing in progress past every stored id lists the whole table. */
  lemma ListsBelowAll<R>(rows: seq<Row<R>>, table: map<int, R>, k: int)
    requires ListsBelow(rows, table, k)
    requires forall j :: j in table ==> j < k
    ensures Enumerates(rows, table.Keys)
    ensures forall i :: 0 <= i < |rows| ==> rows[i].rec == table[rows[i].id.value]
  {
  }

  /** The documents of `table` with ids from 1 up to below `k`, in id order. */
  ghost function ListedBelow<R>(table: map<int, R>, k: int): seq<Row<R>>
    decreases k
  {
    if k <= 1 then []
    else ListedBelow(table, k - 1) + (if k - 1 in table then [Row(Some(k - 1), table[k - 1])] else [])
  }

  /** With positive ids, `ListedBelow` is a listing in progress. */
  lemma {:induction false} ListedBelowLists<R>(table: map<int, R>, k: int)
    requires PositiveIds(table.Keys) && k >= 1
    ensures ListsBelow(ListedBelow(table, k), table, k)
    decreases k
  {
    if k > 1 {
      var rows := ListedBelow(table, k - 1);
      ListedBelowLists(table, k - 1);
      ListNextId(rows, table, k - 1);
      if k - 1 !in table {
        assert ListedBelow(table, k) == rows + [] == rows;
      }
    }
  }

  /**
   * `table.all()` with each document tagged by its id (main.py:243-245),
   * in ascending id order.
   */
  method ListTable<R>(table: map<int, R>) returns (rows: seq<Row<R>>)
    requires PositiveIds(table.Keys)
    ensures Enumerates(rows, table.Keys)
    ensures forall i :: 0 <= i < |rows| ==> rows[i].rec == table[rows[i].id.value]
  {
    var next := GetNextId(table);
    rows := [];
    var k := 1;
    while k < next
      invariant 1 <= k <= next
      invariant rows == ListedBelow(table, k)
    {
      if k in table {
        rows := rows + [Row(Some(k), table[k])];
      }
      k := k + 1;
    }
    ListedBelowLists(table, k);
    ListsBelowAll(rows, table, k);
  }

  /** The upserts never file a document under an id below 1. */
  lemma {:induction false} KeysAfterPositive<S>(keys: set<int>, rows: seq<Row<S>>)
    requires PositiveIds(keys)
    ensures PositiveIds(KeysAfter(keys, rows))
    decreases |rows|
  {
    if rows != [] {
      KeysAfterPositive(keys, rows[..|rows| - 1]);
    }
  }

  /** The write-through keeps the ids positive. */
  lemma WriteThroughPositive<S, R>(t: map<int, R>, rows: seq<Row<S>>, prep: (map<int, R>, Row<S>) -> R)
    requires PositiveIds(t.Keys)
    ensures PositiveIds(WriteThrough(t, rows, prep).Keys)
  {
    KeysAfterPositive(t.Keys, rows);
  }

  /** In a listing, no other row carries the id of row `i`. */
  lemma ListedIdsDistinct<S>(rows: seq<Row<S>>, keys: set<int>, i: nat)
    requires Enumerates(rows, keys) && i < |rows|
    ensures forall m :: 0 <= m < |rows| && m != i ==> rows[m].id != rows[i].id
  {
  }

  /**
   * Writing back row `i` of a listing of the table: it is prepared against
   * the document the table held under its id, and lands on that id.
   */
  lemma WriteBackRow<S, R>(t: map<int, R>, rows: seq<Row<S>>, prep: (map<int, R>, Row<S>) -> R, i: nat)
    requires PositiveIds(t.Keys) && Enumerates(rows, t.Keys) && i < |rows|
    ensures rows[i].id.value in Fold(t, rows[..i], prep)
    ensures Fold(t, rows[..i], prep)[rows[i].id.value] == t[rows[i].id.value]
    ensures rows[i].id.value in WriteThrough(t, rows, prep)
    ensures WriteThrough(t, rows, prep)[rows[i].id.value] == prep(Fold(t, rows[..i], prep), rows[i])
  {
    var k := rows[i].id.value;
    ListedIdsDistinct(rows, t.Keys, i);
    assert rows[..0] == [];
    Untouched(t, rows, prep, 0, i, k);
    LastWriteWins(t, rows, prep, i);
  }

  /** Writing back a listing of the table keeps exactly the table's ids. */
  lemma WriteBackKeys<S, R>(t: map<int, R>, rows: seq<Row<S>>, prep: (map<int, R>, Row<S>) -> R)
    requires PositiveIds(t.Keys) && Enumerates(rows, t.Keys)
    ensures WriteThrough(t, rows, prep).Keys == t.Keys
  {
    forall i | 0 <= i < |rows| && Truthy(rows[i].id)
      ensures Slot(KeysAfter(t.Keys, rows[..i]), rows[i].id.value) == rows[i].id.value
    {
      KeysAfterGrows(t.Keys, rows[..i]);
    }
    WriteThroughIsAuthoritative(t, rows, prep);
    forall k | k in t.Keys
      ensures k in SavedIds(rows)
    {
      var i :| 0 <= i < |rows| && rows[i].id == Some(k);
    }
  }

  /** Saving the editing passes or to-dos as loaded leaves their table as it was. */
  lemma SaveLoadedTable<R>(t: map<int, R>, rows: seq<Row<R>>)
    requires PositiveIds(t.Keys) && Enumerates(rows, t.Keys)
    requires forall i :: 0 <= i < |rows| ==> rows[i].rec == t[rows[i].id.value]
    ensures WriteThrough(t, rows, Verbatim) == t
  {
    WriteBackKeys(t, rows, Verbatim);
    var u := WriteThrough(t, rows, Verbatim);
    forall k | k in t
      ensures u[k] == t[k]
    {
      var i :| 0 <= i < |rows| && rows[i].id == Some(k);
      WriteBackRow(t, rows, Verbatim, i);
    }
  }

  /**
   * Saving the chapters as loaded raises exactly when some stored chapter
   * has a deadline that is a date: the load attached that date as
   * `deadline_obj` and the store cannot encode it. The save then writes the
   * chapters listed before it and stops, so nothing is removed, the editing
   * passes and to-dos are not written and no snapshot is taken.
   */
  lemma LoadedDatesBlockSave(t: map<int, Chapter>, rows: seq<ChapterRow>)
    requires PositiveIds(t.Keys) && Enumerates(rows, t.Keys)
    requires forall i :: 0 <= i < |rows| ==> rows[i].rec == Loaded(t[rows[i].id.value])
    ensures FirstUnwritable(rows).Some? <==> exists k :: k in t && t[k].deadline.Iso?
    ensures FirstUnwritable(rows).Some? ==> rows[FirstUnwritable(rows).value].rec.doc.deadline.Iso?
  {
    if k :| k in t && t[k].deadline.Iso? {
      var i :| 0 <= i < |rows| && rows[i].id == Some(k);
      assert Unwritable(rows[i]);
    }
  }

  /**
   * Saving the chapters as loaded stores each chapter with its defaults
   * filled in and changes nothing else, provided each stored chapter has a
   * word count (a missing one would be compared with the default 0 and
   * reset the previous count to 0). This is the table the save leaves when
   * no stored deadline is a date, and the one the corrected save
   * (`SaveWithoutDates`) always leaves.
   */
  lemma SaveLoadedChapters(t: map<int, Chapter>, rows: seq<ChapterRow>, now: string)
    requires PositiveIds(t.Keys) && Enumerates(rows, t.Keys)
    requires forall i :: 0 <= i < |rows| ==> rows[i].rec == Loaded(t[rows[i].id.value])
    requires forall k :: k in t ==> t[k].wordCount.Some?
    ensures WriteThrough(t, rows, StoredDoc(now)) == map k | k in t :: WithDefaults(t[k])
  {
    WriteBackKeys(t, rows, StoredDoc(now));
    var u := WriteThrough(t, rows, StoredDoc(now));
    forall k | k in t
      ensures u[k] == WithDefaults(t[k])
    {
      var i :| 0 <= i < |rows| && rows[i].id == Some(k);
      WriteBackRow(t, rows, StoredDoc(now), i);
    }
  }

  /**
   * The store: the chapter, editing-pass and to-do tables keyed by document
   * id, the metadata document (document 1, if written), and the snapshot
   * directory the saves back up into.
   */
  class Store {
    var chapters: map<int, Chapter>
    var passes: map<int, EditingPass>
    var todos: map<int, Todo>
    var metadata: Option<Metadata>
    const backups: SnapshotDir

    /** Document ids are positive. */
    ghost predicate Valid()
      reads this
    {
      PositiveIds(chapters.Keys) && PositiveIds(passes.Keys) && PositiveIds(todos.Keys)
    }

    /** An empty store backing up into `dir`. */
    constructor (dir: SnapshotDir)
      ensures Valid()
      ensures chapters == map[] && passes == map[] && todos == map[] && metadata == None
      ensures backups == dir
    {
      chapters := map[];
      passes := map[];
      todos := map[];
      metadata := None;
      backups := dir;
    }

    /**
     * `save_data` at time `now` on day `day`: the metadata document is
     * written, each collection is written through to its table, and the
     * day's snapshot is taken at file time `mtime` (`copied` is whether the
     * copy succeeded). Returns the chapter list as the save prepared it.
     * When the upsert of chapter `raised.value` raises, the save stops
     * there: the metadata and the chapters before it are written, and the
     * editing passes, the to-dos and the snapshot directory are untouched.
     */
    method Save(state: AppState, now: string, day: string, mtime: int, copied: bool)
      returns (saved: seq<ChapterRow>, raised: Option<nat>)
      requires Valid()
      modifies this, backups
      ensures Valid()
      ensures metadata == Some(state.metadata)
      ensures raised == FirstUnwritable(state.chapters)
      ensures raised.None? ==> chapters == WriteThrough(old(chapters), state.chapters, StoredDoc(now))
      ensures raised.None? ==> saved == Processed(old(chapters), state.chapters, now)
      ensures raised.None? ==> passes == WriteThrough(old(passes), state.passes, Verbatim)
      ensures raised.None? ==> todos == WriteThrough(old(todos), state.todos, Verbatim)
      ensures raised.None? && (SnapshotName(day) in old(backups.files) || !copied) ==>
        backups.files == old(backups.files)
      ensures raised.None? && SnapshotName(day) !in old(backups.files) && copied ==>
        Retained(old(backups.files)[SnapshotName(day) := mtime], backups.files)
      ensures raised.Some? ==> chapters == Fold(old(chapters), state.chapters[..raised.value], StoredDoc(now))
      ensures raised.Some? ==>
        saved == Processed(old(chapters), state.chapters, now)[..raised.value + 1] + state.chapters[raised.value + 1..]
      ensures raised.Some? ==> passes == old(passes) && todos == old(todos) && backups.files == old(backups.files)
    {
      metadata := Some(state.metadata);
      ghost var before := chapters;
      chapters, saved, raised := SaveChapters(chapters, state.chapters, now);
      if raised.Some? {
        KeysAfterPositive(before.Keys, state.chapters[..raised.value]);
        return;
      }
      WriteThroughPositive(before, state.chapters, StoredDoc(now));
      WriteThroughPositive(passes, state.passes, Verbatim);
      WriteThroughPositive(todos, state.todos, Verbatim);
      passes := WriteThroughTable(passes, state.passes);
      todos := WriteThroughTable(todos, state.todos);
      backups.Create(SnapshotName(day), mtime, copied);
    }

    /**
     * `load_data`: every table listed in ascending id order, each chapter
     * with its defaults filled in, its deadline's date attached and no
     * change flag, and the metadata
     * document or the default metadata when none was written.
     */
    method Load() returns (state: AppState)
      requires Valid()
      ensures Enumerates(state.chapters, chapters.Keys)
      ensures forall i :: 0 <= i < |state.chapters| ==>
        state.chapters[i].rec == Loaded(chapters[state.chapters[i].id.value])
      ensures Enumerates(state.passes, passes.Keys)
      ensures forall i :: 0 <= i < |state.passes| ==> state.passes[i].rec == passes[state.passes[i].id.value]
      ensures Enumerates(state.todos, todos.Keys)
      ensures forall i :: 0 <= i < |state.todos| ==> state.todos[i].rec == todos[state.todos[i].id.value]
      ensures state.metadata == metadata.GetOr(DefaultMetadata)
    {
      var listed := ListTable(chapters);
      var ps := ListTable(passes);
      var ts := ListTable(todos);
      var cs: seq<ChapterRow> := [];
      for i := 0 to |listed|
        invariant |cs| == i
        invariant forall j :: 0 <= j < i ==> cs[j] == Row(listed[j].id, Loaded(listed[j].rec))
      {
        cs := cs + [Row(listed[i].id, Loaded(listed[i].rec))];
      }
      state := AppState(cs, ps, ts, metadata.GetOr(DefaultMetadata));
    }
  }
}
