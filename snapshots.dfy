/**
 * Daily backups of the store file (main.py:104-120): at most one snapshot
 * per day name, after which only the `MaxSnapshots` files with the newest
 * modification times are kept.
 */
module Snapshots {
  import opened Sets

  /** How many snapshot files survive a prune (main.py:16). */
  const MaxSnapshots: nat := 5

  /** A file of the snapshot directory: its name and modification time. */
  datatype Entry = Entry(name: string, mtime: int)

  predicate NewestFirst(s: seq<Entry>) {
    forall i, j :: 0 <= i < j < |s| ==> s[i].mtime >= s[j].mtime
  }

  predicate DistinctNames(s: seq<Entry>) {
    forall i, j :: 0 <= i < j < |s| ==> s[i].name != s[j].name
  }

  /** The names of the entries `s[lo..hi]`. */
  function NamesFrom(s: seq<Entry>, lo: int, hi: int): set<string> {
    set j | lo <= j < hi && 0 <= j < |s| :: s[j].name
  }

  /** `s` lists the directory `files`: one entry per file, with its time. */
  ghost predicate Lists(s: seq<Entry>, files: map<string, int>) {
    && |s| == |files.Keys|
    && DistinctNames(s)
    && (forall e :: e in s ==> e.name in files && e.mtime == files[e.name])
    && NamesFrom(s, 0, |s|) == files.Keys
  }

  /**
   * Places `e` before the first entry that is not newer than it, so entries
   * of equal time keep their listing order, as a stable descending sort does.
   */
  function Insert(e: Entry, s: seq<Entry>): (r: seq<Entry>)
    requires NewestFirst(s)
    ensures NewestFirst(r)
    ensures multiset(r) == multiset(s) + multiset{e}
    ensures |r| == |s| + 1 && (r[0] == e || (|s| > 0 && r[0] == s[0]))
  {
    if s == [] || e.mtime >= s[0].mtime then
      [e] + s
    else
      var rest := Insert(e, s[1..]);
      assert s == [s[0]] + s[1..];
      [s[0]] + rest
  }

  lemma {:induction false} InsertKeepsNamesDistinct(e: Entry, s: seq<Entry>)
    requires NewestFirst(s) && DistinctNames(s)
    requires forall x :: x in s ==> x.name != e.name
    ensures DistinctNames(Insert(e, s))
  {
    if !(s == [] || e.mtime >= s[0].mtime) {
      var rest := Insert(e, s[1..]);
      InsertKeepsNamesDistinct(e, s[1..]);
      forall x | x in rest
        ensures x.name != s[0].name
      {
        assert x in multiset(rest);
        if x != e {
          var k :| 0 <= k < |s[1..]| && s[1..][k] == x;
          assert s[k + 1] == x;
        }
      }
    }
  }

  /** `sorted(..., key=mtime, reverse=True)`: newest first, same entries. */
  function SortNewestFirst(s: seq<Entry>): (r: seq<Entry>)
    ensures NewestFirst(r)
    ensures multiset(r) == multiset(s)
  {
    if s == [] then []
    else
      assert s == [s[0]] + s[1..];
      Insert(s[0], SortNewestFirst(s[1..]))
  }

  lemma {:induction false} SortKeepsNamesDistinct(s: seq<Entry>)
    requires DistinctNames(s)
    ensures DistinctNames(SortNewestFirst(s))
  {
    if s != [] {
      var rest := SortNewestFirst(s[1..]);
      SortKeepsNamesDistinct(s[1..]);
      forall x | x in rest
        ensures x.name != s[0].name
      {
        assert x in multiset(s[1..]);
        var k :| 0 <= k < |s[1..]| && s[1..][k] == x;
        assert s[k + 1] == x;
      }
      InsertKeepsNamesDistinct(s[0], rest);
    }
  }

  /** Sequences with the same entries name the same files. */
  lemma SameNames(r: seq<Entry>, s: seq<Entry>)
    requires forall e :: e in r <==> e in s
    ensures NamesFrom(r, 0, |r|) == NamesFrom(s, 0, |s|)
  {
    forall n | n in NamesFrom(r, 0, |r|) ensures n in NamesFrom(s, 0, |s|) {
      var j :| 0 <= j < |r| && r[j].name == n;
      assert r[j] in s;
      var k :| 0 <= k < |s| && s[k] == r[j];
    }
    forall n | n in NamesFrom(s, 0, |s|) ensures n in NamesFrom(r, 0, |r|) {
      var j :| 0 <= j < |s| && s[j].name == n;
      assert s[j] in r;
      var k :| 0 <= k < |r| && r[k] == s[j];
    }
  }

  /** Sorting a listing of a directory gives a listing of it. */
  lemma SortedListing(s: seq<Entry>, files: map<string, int>)
    requires Lists(s, files)
    ensures Lists(SortNewestFirst(s), files)
  {
    var r := SortNewestFirst(s);
    SortKeepsNamesDistinct(s);
    assert |r| == |s| by {
      assert |multiset(r)| == |multiset(s)|;
    }
    assert forall e :: e in r <==> e in s by {
      forall e ensures e in r <==> e in s {
        assert e in r <==> e in multiset(r);
        assert e in s <==> e in multiset(s);
      }
    }
    SameNames(r, s);
  }

  /**
   * A listing in progress: `s` lists the files not in `rest`, one entry
   * each, with their times.
   */
  ghost predicate ListsAllBut(s: seq<Entry>, files: map<string, int>, rest: set<string>) {
    && rest <= files.Keys
    && |s| + |rest| == |files.Keys|
    && DistinctNames(s)
    && (forall i :: 0 <= i < |s| ==> s[i].name in files && s[i].mtime == files[s[i].name] && s[i].name !in rest)
    && NamesFrom(s, 0, |s|) == files.Keys - rest
  }

  /** Appending an entry adds its name to the listed names. */
  lemma NamesGrow(s: seq<Entry>, e: Entry)
    ensures NamesFrom(s + [e], 0, |s| + 1) == NamesFrom(s, 0, |s|) + {e.name}
  {
    var s' := s + [e];
    assert forall j :: 0 <= j < |s| ==> s'[j] == s[j];
    assert s'[|s|] == e;
  }

  /** Listing one more file keeps the listing in progress. */
  lemma ListOneMore(s: seq<Entry>, files: map<string, int>, rest: set<string>, n: string)
    requires ListsAllBut(s, files, rest) && n in rest
    ensures ListsAllBut(s + [Entry(n, files[n])], files, rest - {n})
  {
    var s' := s + [Entry(n, files[n])];
    assert |rest - {n}| == |rest| - 1;
    assert forall i :: 0 <= i < |s| ==> s'[i] == s[i];
    NamesGrow(s, Entry(n, files[n]));
  }

  /**
   * The directory listing (`glob`): one entry per file, carrying its time,
   * in an order the file system chooses.
   */
  method Listing(files: map<string, int>) returns (s: seq<Entry>)
    ensures Lists(s, files)
  {
    s := [];
    var rest := files.Keys;
    while rest != {}
      invariant ListsAllBut(s, files, rest)
      decreases rest
    {
      EmptyOrMember(rest);
      var n :| n in rest;
      ListOneMore(s, files, rest, n);
      s := s + [Entry(n, files[n])];
      rest := rest - {n};
    }
    forall e | e in s
      ensures e.name in files && e.mtime == files[e.name]
    {
      var i :| 0 <= i < |s| && s[i] == e;
    }
  }

  /**
   * What a prune leaves of the files `all`: a subset of them, `MaxSnapshots`
   * of them (or all when fewer), none older than any file it removed.
   */
  ghost predicate Retained(all: map<string, int>, kept: map<string, int>) {
    && kept.Keys <= all.Keys
    && (forall n :: n in kept ==> kept[n] == all[n])
    && |kept.Keys| == (if |all.Keys| < MaxSnapshots then |all.Keys| else MaxSnapshots)
    && (forall a, b :: a in kept && b in all && b !in kept ==> all[a] >= all[b])
  }

  /**
   * Removing the names listed after the first `MaxSnapshots` entries of a
   * newest-first listing retains the newest files.
   */
  lemma PruneRetains(all: map<string, int>, snapshots: seq<Entry>, kept: map<string, int>)
    requires Lists(snapshots, all) && NewestFirst(snapshots)
    requires kept.Keys == all.Keys - NamesFrom(snapshots, MaxSnapshots, |snapshots|)
    requires forall n :: n in kept ==> kept[n] == all[n]
    requires |kept.Keys| == (if |snapshots| < MaxSnapshots then |snapshots| else MaxSnapshots)
    ensures Retained(all, kept)
  {
    forall a, b | a in kept && b in all && b !in kept
      ensures all[a] >= all[b]
    {
      assert a in NamesFrom(snapshots, 0, |snapshots|);
      var p :| 0 <= p < |snapshots| && snapshots[p].name == a;
      assert b in NamesFrom(snapshots, MaxSnapshots, |snapshots|);
      var q :| MaxSnapshots <= q < |snapshots| && snapshots[q].name == b;
      assert a !in NamesFrom(snapshots, MaxSnapshots, |snapshots|);
      assert p < MaxSnapshots;
      assert snapshots[p] in snapshots && snapshots[q] in snapshots;
    }
  }

  /**
   * A snapshot written after every other file survives the prune that
   * follows it.
   */
  lemma {:induction false} NewSnapshotSurvives(files: map<string, int>, name: string, now: int, kept: map<string, int>)
    requires name !in files
    requires forall n :: n in files ==> files[n] < now
    requires Retained(files[name := now], kept)
    ensures name in kept
  {
    var all := files[name := now];
    assert name in all.Keys;
    assert |kept.Keys| >= 1;
    EmptyOrMember(kept.Keys);
    var a :| a in kept.Keys;
    if a != name {
      assert all[a] < all[name];
    }
  }

  /**
   * The prune after a snapshot is written (main.py:115-118): list the
   * directory, sort it newest first and unlink every file after the first
   * `MaxSnapshots`. Returns what is left of the directory `all`.
   */
  method Prune(all: map<string, int>) returns (kept: map<string, int>)
    ensures Retained(all, kept)
  {
    var listing := Listing(all);
    var snapshots := SortNewestFirst(listing);
    SortedListing(listing, all);
    kept := UnlinkOlder(all, snapshots);
    PruneRetains(all, snapshots, kept);
  }

  /** The unlink loop over `snapshots[MaxSnapshots:]`. */
  method UnlinkOlder(all: map<string, int>, snapshots: seq<Entry>) returns (kept: map<string, int>)
    requires Lists(snapshots, all)
    ensures kept.Keys == all.Keys - NamesFrom(snapshots, MaxSnapshots, |snapshots|)
    ensures |kept.Keys| == (if |snapshots| < MaxSnapshots then |snapshots| else MaxSnapshots)
    ensures forall n :: n in kept ==> kept[n] == all[n]
  {
    kept := all;
    if MaxSnapshots < |snapshots| {
      for i := MaxSnapshots to |snapshots|
        invariant kept.Keys == all.Keys - NamesFrom(snapshots, MaxSnapshots, i)
        invariant |kept.Keys| == |all.Keys| - (i - MaxSnapshots)
        invariant forall n :: n in kept ==> kept[n] == all[n]
      {
        var doomed := snapshots[i].name;
        Unlinkable(snapshots, all, i);
        assert (kept - {doomed}).Keys == kept.Keys - {doomed};
        kept := kept - {doomed};
      }
    } else {
      assert NamesFrom(snapshots, MaxSnapshots, |snapshots|) == {};
    }
  }

  /** The directory of snapshot files, by name, with their modification times. */
  class SnapshotDir {
    var files: map<string, int>

    constructor (files: map<string, int>)
      ensures this.files == files
    {
      this.files := files;
    }

    /**
     * `create_snapshot` for the day file `name` at time `now`; `copied` is
     * whether copying the store file succeeded. An existing day file, or a
     * failed copy, leaves the directory as it was; otherwise the new file is
     * added and the oldest files beyond `MaxSnapshots` are removed.
     */
    method Create(name: string, now: int, copied: bool)
      modifies this
      ensures name in old(files) || !copied ==> files == old(files)
      ensures name !in old(files) && copied ==> Retained(old(files)[name := now], files)
    {
      if name in files || !copied {
        return;
      }
      files := files[name := now];
      files := Prune(files);
    }
  }

  /** The next name to unlink is still in the directory. */
  lemma Unlinkable(snapshots: seq<Entry>, all: map<string, int>, i: nat)
    requires Lists(snapshots, all)
    requires MaxSnapshots <= i < |snapshots|
    ensures snapshots[i].name in all.Keys - NamesFrom(snapshots, MaxSnapshots, i)
    ensures NamesFrom(snapshots, MaxSnapshots, i + 1) == NamesFrom(snapshots, MaxSnapshots, i) + {snapshots[i].name}
  {
    assert snapshots[i] in snapshots;
  }
}
