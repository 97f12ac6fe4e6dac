/** Identifier allocation: the next document id of a table (main.py:271-277). */
module Ids {
  import opened Sets

  /**
   * The largest identifier in `ids`, or 0 when there is none larger than 0:
   * the value `max_id` ends with after scanning `ids` from 0.
   */
  ghost function MaxId(ids: set<int>): (m: int)
    ensures m >= 0
    ensures forall k :: k in ids ==> k <= m
    ensures m == 0 || m in ids
    decreases ids
  {
    if ids == {} then 0
    else
      EmptyOrMemberInt(ids);
      var k :| k in ids;
      var rest := MaxId(ids - {k});
      assert forall j :: j in ids ==> j == k || j in ids - {k};
      if k > rest then k else rest
  }

  /** Every id is positive, as the ids the store hands out are. */
  ghost predicate PositiveIds(keys: set<int>) {
    forall k :: k in keys ==> k >= 1
  }

  /** The identifier a fresh record gets: one more than the largest in use. */
  ghost function NextFree(ids: set<int>): (n: int)
    ensures n >= 1
    ensures forall k :: k in ids ==> k < n
    ensures n == 1 || n - 1 in ids
  {
    MaxId(ids) + 1
  }

  /** The three properties above pin the next free id down uniquely. */
  lemma {:induction false} NextFreeUnique(ids: set<int>, n: int)
    requires n >= 1
    requires forall k :: k in ids ==> k < n
    requires n == 1 || n - 1 in ids
    ensures n == NextFree(ids)
  {
    var m := NextFree(ids);
    if n - 1 in ids {
      assert n <= m;
      assert m == 1 || m - 1 in ids;
    } else {
      assert n == 1;
      assert m - 1 !in ids;
    }
  }

  /** An empty table hands out id 1. */
  lemma NextFreeOfEmpty()
    ensures NextFree({}) == 1
  {
  }

  /** Adding the next free id moves the next free id on by one. */
  lemma {:induction false} NextFreeAfterInsert(ids: set<int>)
    ensures NextFree(ids + {NextFree(ids)}) == NextFree(ids) + 1
  {
    var n := NextFree(ids);
    NextFreeUnique(ids + {n}, n + 1);
  }

  /** Adding an id already below the next free one leaves it where it is. */
  lemma {:induction false} NextFreeAfterUpdate(ids: set<int>, k: int)
    requires k < NextFree(ids)
    requires 1 <= k || k in ids
    ensures NextFree(ids + {k}) == NextFree(ids)
  {
    var n := NextFree(ids);
    NextFreeUnique(ids + {k}, n);
  }

  /**
   * `get_next_id`: scans every stored id keeping the largest in `max_id`,
   * which starts at 0, and returns `max_id + 1`.
   */
  method GetNextId<R>(table: map<int, R>) returns (next: int)
    ensures next == NextFree(table.Keys)
    ensures next >= 1 && forall k :: k in table ==> k < next
  {
    var maxId := 0;
    var rest := table.Keys;
    while rest != {}
      invariant rest <= table.Keys
      invariant maxId >= 0
      invariant maxId == 0 || maxId in table
      invariant forall k :: k in table && k !in rest ==> k <= maxId
      decreases rest
    {
      EmptyOrMemberInt(rest);
      var k :| k in rest;
      if k > maxId {
        maxId := k;
      }
      rest := rest - {k};
    }
    next := maxId + 1;
    NextFreeUnique(table.Keys, next);
  }
}
