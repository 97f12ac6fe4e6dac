/**
 * The document store's write-through of one collection (main.py:134-210):
 * every submitted record with a truthy id is upserted in list order, then
 * every stored document whose id was not submitted is removed.
 *
 * An upsert updates the document in place when its id is stored. Otherwise
 * the store's `insert` ignores the record's own `id` and files it under the
 * table's next document id (one more than the largest stored id).
 */
module Tables {
  import opened Wrappers
  import opened Records
  import opened Ids

  /** The document id an upsert of `id` writes to, given the stored ids. */
  ghost function Slot(keys: set<int>, id: int): (s: int)
    ensures id in keys ==> s == id
    ensures id !in keys ==> s !in keys && s >= 1 && forall k :: k in keys ==> k < s
  {
    if id in keys then id else NextFree(keys)
  }

  /** The stored ids after upserting `rows` into a table with ids `keys`. */
  ghost function KeysAfter<S>(keys: set<int>, rows: seq<Row<S>>): set<int>
    decreases |rows|
  {
    if rows == [] then keys
    else
      var ks := KeysAfter(keys, rows[..|rows| - 1]);
      var id := rows[|rows| - 1].id;
      if Truthy(id) then ks + {Slot(ks, id.value)} else ks
  }

  /**
   * Upserting `rows` one after the other; `prep` gives the document written
   * for a row, which may depend on the table as it is at that row's turn.
   */
  ghost function Fold<S, R>(t: map<int, R>, rows: seq<Row<S>>, prep: (map<int, R>, Row<S>) -> R): (u: map<int, R>)
    ensures u.Keys == KeysAfter(t.Keys, rows)
    decreases |rows|
  {
    if rows == [] then t
    else
      var u := Fold(t, rows[..|rows| - 1], prep);
      var row := rows[|rows| - 1];
      if Truthy(row.id) then u[Slot(u.Keys, row.id.value) := prep(u, row)] else u
  }

  /** One more row of the write-through loop: the upsert of row `i`. */
  lemma FoldStep<S, R>(t: map<int, R>, rows: seq<Row<S>>, prep: (map<int, R>, Row<S>) -> R, i: nat)
    requires i < |rows|
    ensures var u := Fold(t, rows[..i], prep);
      Fold(t, rows[..i + 1], prep)
        == if Truthy(rows[i].id) then u[Slot(u.Keys, rows[i].id.value) := prep(u, rows[i])] else u
    ensures SavedIds(rows[..i + 1]) == SavedIds(rows[..i]) + (if Truthy(rows[i].id) then {rows[i].id.value} else {})
  {
    assert rows[..i + 1][..i] == rows[..i];
    assert rows[..i + 1] == rows[..i] + [rows[i]];
    SavedIdsSnoc(rows[..i], rows[i]);
  }

  /** The ids of the submitted records that have a truthy id (`saved_*_ids`). */
  ghost function SavedIds<S>(rows: seq<Row<S>>): set<int> {
    set i | 0 <= i < |rows| && Truthy(rows[i].id) :: rows[i].id.value
  }

  /** The submitted ids grow by the last row's id, when it is truthy. */
  lemma SavedIdsSnoc<S>(rows: seq<Row<S>>, row: Row<S>)
    ensures SavedIds(rows + [row]) == SavedIds(rows) + (if Truthy(row.id) then {row.id.value} else {})
  {
    var all := rows + [row];
    forall k | k in SavedIds(all)
      ensures k in SavedIds(rows) + (if Truthy(row.id) then {row.id.value} else {})
    {
      var i :| 0 <= i < |all| && Truthy(all[i].id) && all[i].id.value == k;
      if i < |rows| {
        assert rows[i] == all[i];
      }
    }
    forall k | k in SavedIds(rows)
      ensures k in SavedIds(all)
    {
      var i :| 0 <= i < |rows| && Truthy(rows[i].id) && rows[i].id.value == k;
      assert all[i] == rows[i];
    }
    if Truthy(row.id) {
      assert all[|rows|] == row;
    }
  }

  /** Removing every stored id that is not in `keep`. */
  function Restrict<R>(u: map<int, R>, keep: set<int>): (r: map<int, R>)
    ensures r.Keys == u.Keys * keep
    ensures forall k :: k in r ==> r[k] == u[k]
  {
    map k | k in u && k in keep :: u[k]
  }

  /**
   * The table after the write-through of `rows`: the upserts, then the
   * removal of every id that was not submitted.
   */
  ghost function WriteThrough<S, R>(t: map<int, R>, rows: seq<Row<S>>, prep: (map<int, R>, Row<S>) -> R): (r: map<int, R>)
    ensures r.Keys <= SavedIds(rows)
    ensures forall k :: k in t && k !in SavedIds(rows) ==> k !in r
  {
    Restrict(Fold(t, rows, prep), SavedIds(rows))
  }

  /** Editing passes and to-dos are written as submitted. */
  function Verbatim<R>(u: map<int, R>, row: Row<R>): R {
    row.rec
  }

  /**
   * The write-through loop of the editing passes (main.py:174-192) and of the
   * to-dos (main.py:196-210).
   */
  method WriteThroughTable<R>(table: map<int, R>, rows: seq<Row<R>>) returns (result: map<int, R>)
    ensures result == WriteThrough(table, rows, Verbatim)
  {
    var saved: set<int> := {};
    result := table;
    for i := 0 to |rows|
      invariant result == Fold(table, rows[..i], Verbatim)
      invariant saved == SavedIds(rows[..i])
    {
      var row := rows[i];
      FoldStep(table, rows, Verbatim, i);
      if Truthy(row.id) {
        var id := row.id.value;
        if id in result {
          result := result[id := row.rec];
        } else {
          var next := GetNextId(result);
          result := result[next := row.rec];
        }
        saved := saved + {id};
      }
    }
    assert rows[..|rows|] == rows;
    var doomed := result.Keys - saved;
    result := map k | k in result && k !in doomed :: result[k];
  }

  /**
   * Every submitted truthy id lands on itself: it is stored already when its
   * row is upserted, or it is exactly the id the insert will hand out.
   */
  ghost predicate LandsWhereClaimed<S>(keys: set<int>, rows: seq<Row<S>>) {
    forall i :: 0 <= i < |rows| && Truthy(rows[i].id) ==>
      Slot(KeysAfter(keys, rows[..i]), rows[i].id.value) == rows[i].id.value
  }

  /** The upserts never drop a stored id. */
  lemma {:induction false} KeysAfterGrows<S>(keys: set<int>, rows: seq<Row<S>>)
    ensures keys <= KeysAfter(keys, rows)
    decreases |rows|
  {
    if rows != [] {
      KeysAfterGrows(keys, rows[..|rows| - 1]);
    }
  }

  /** When every id lands where claimed, the upserts add exactly the submitted ids. */
  lemma {:induction false} KeysAfterClaimed<S>(keys: set<int>, rows: seq<Row<S>>)
    requires LandsWhereClaimed(keys, rows)
    ensures KeysAfter(keys, rows) == keys + SavedIds(rows)
    decreases |rows|
  {
    if rows != [] {
      var n := |rows| - 1;
      var init := rows[..n];
      assert rows == init + [rows[n]];
      forall i | 0 <= i < |init| && Truthy(init[i].id)
        ensures Slot(KeysAfter(keys, init[..i]), init[i].id.value) == init[i].id.value
      {
        assert init[..i] == rows[..i];
        assert init[i] == rows[i];
      }
      KeysAfterClaimed(keys, init);
      SavedIdsSnoc(init, rows[n]);
      if Truthy(rows[n].id) {
        assert init == rows[..n];
      }
    }
  }

  /**
   * The submitted set is authoritative: when every id lands where claimed,
   * the stored ids after the write-through are exactly the submitted ones.
   */
  lemma WriteThroughIsAuthoritative<S, R>(t: map<int, R>, rows: seq<Row<S>>, prep: (map<int, R>, Row<S>) -> R)
    requires LandsWhereClaimed(t.Keys, rows)
    ensures WriteThrough(t, rows, prep).Keys == SavedIds(rows)
  {
    KeysAfterClaimed(t.Keys, rows);
  }

  /**
   * Rows that do not carry id `k` leave a stored document `k` alone: an
   * update touches its own id, an insert a fresh one.
   */
  lemma {:induction false} Untouched<S, R>(t: map<int, R>, rows: seq<Row<S>>, prep: (map<int, R>, Row<S>) -> R, i: nat, j: nat, k: int)
    requires i <= j <= |rows|
    requires k in Fold(t, rows[..i], prep)
    requires forall m :: i <= m < j ==> rows[m].id != Some(k)
    ensures k in Fold(t, rows[..j], prep)
    ensures Fold(t, rows[..j], prep)[k] == Fold(t, rows[..i], prep)[k]
    decreases j - i
  {
    if i < j {
      var u := Fold(t, rows[..i], prep);
      assert rows[..i + 1][..i] == rows[..i];
      assert rows[..i + 1][i] == rows[i];
      var row := rows[i];
      if Truthy(row.id) {
        assert Slot(u.Keys, row.id.value) != k;
      }
      Untouched(t, rows, prep, i + 1, j, k);
    }
  }

  /**
   * The last row submitted under id `k`, when it lands on `k`, is what the
   * table holds under `k` after the write-through.
   */
  lemma LastWriteWins<S, R>(t: map<int, R>, rows: seq<Row<S>>, prep: (map<int, R>, Row<S>) -> R, i: nat)
    requires i < |rows| && Truthy(rows[i].id)
    requires Slot(KeysAfter(t.Keys, rows[..i]), rows[i].id.value) == rows[i].id.value
    requires forall m :: i < m < |rows| ==> rows[m].id != rows[i].id
    ensures rows[i].id.value in WriteThrough(t, rows, prep)
    ensures WriteThrough(t, rows, prep)[rows[i].id.value] == prep(Fold(t, rows[..i], prep), rows[i])
  {
    var k := rows[i].id.value;
    assert rows[..i + 1][..i] == rows[..i];
    assert rows[..i + 1][i] == rows[i];
    Untouched(t, rows, prep, i + 1, |rows|, k);
    assert rows[..|rows|] == rows;
    assert k in SavedIds(rows);
  }

  /**
   * The insert ignores the submitted id: a record submitted under id 5 to an
   * empty table is filed as document 1, which the removal step then deletes.
   */
  lemma InsertIgnoresSubmittedId<R>(r: R)
    ensures WriteThrough(map[], [Row(Some(5), r)], Verbatim) == map[]
  {
    var rows := [Row(Some(5), r)];
    assert rows[..0] == [];
    NextFreeOfEmpty();
    assert Fold(map[], rows, Verbatim).Keys == {1};
    assert SavedIds(rows) == {5};
  }
}
