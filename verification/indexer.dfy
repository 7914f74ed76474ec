/**
  `FileIndexer.sync_directory` of `indexer.py`. The directory walk is replaced
  by its outcome: whether the managed root exists, and the sequence of
  regular files the walk met, in walk order. Each file is upserted with
  `add_file`, then every stored file whose path the walk did not meet is
  pruned with `clear_orphaned_files`.
 */
module Indexer {
  import opened Common
  import opened Catalogue

  /** One file met by the walk: its path relative to the root, its base
      name, and what `os.stat` reported. */
  datatype Entry = Entry(relpath: string, basename: string, size: nat, mtime: Timestamp)

  function RelPaths(snap: seq<Entry>): set<string>
  {
    set e | e in snap :: e.relpath
  }

  /** The `existing_files` list the walk builds, in walk order. */
  function PathList(snap: seq<Entry>): (r: seq<string>)
    ensures |r| == |snap|
    ensures forall p :: p in r <==> p in RelPaths(snap)
  {
    var r := seq(|snap|, i requires 0 <= i < |snap| => snap[i].relpath);
    assert forall p :: p in RelPaths(snap) ==> p in r by {
      forall p | p in RelPaths(snap)
        ensures p in r
      {
        var e :| e in snap && e.relpath == p;
        var i :| 0 <= i < |snap| && snap[i] == e;
        assert r[i] == p;
      }
    }
    r
  }

  /** Where the walk met path `p` for the last time. */
  function LastIndex(snap: seq<Entry>, p: string): (i: nat)
    requires p in RelPaths(snap)
    ensures i < |snap| && snap[i].relpath == p
    ensures forall j :: i < j < |snap| ==> snap[j].relpath != p
    decreases |snap|
  {
    var n := |snap| - 1;
    if snap[n].relpath == p then
      n
    else
      RelPathsSnoc(snap[..n], snap[n]);
      assert snap[..n] + [snap[n]] == snap;
      LastIndex(snap[..n], p)
  }

  /** The entry the walk met last for path `p`: its values are the ones the
      upserts leave behind. */
  function LastEntry(snap: seq<Entry>, p: string): Entry
    requires p in RelPaths(snap)
  {
    snap[LastIndex(snap, p)]
  }

  lemma RelPathsSnoc(init: seq<Entry>, e: Entry)
    ensures RelPaths(init + [e]) == RelPaths(init) + {e.relpath}
  {
    assert forall x :: x in init + [e] <==> x in init || x == e;
  }

  /** The stored row carries the walk's values for this entry. */
  predicate Reflects(f: FileRec, e: Entry)
  {
    f.filepath == e.relpath && f.filename == e.basename && f.size == e.size && f.modified == e.mtime
  }

  /** Every stored file whose path the walk met carries the values of the
      last entry the walk met for that path. */
  ghost predicate ReflectsWalk(r: Store, snap: seq<Entry>)
  {
    forall id :: id in r.files && r.files[id].filepath in RelPaths(snap) ==>
      Reflects(r.files[id], LastEntry(snap, r.files[id].filepath))
  }

  /** The loop of `sync_directory`: `add_file` for every entry, in walk
      order. */
  function UpsertAll(s: Store, snap: seq<Entry>): (r: Store)
    requires Schema(s)
    ensures Schema(r)
    ensures r.tags == s.tags && r.nextTagId == s.nextTagId && r.fileTags == s.fileTags
    decreases |snap|
  {
    if |snap| == 0 then
      s
    else
      var n := |snap| - 1;
      var e := snap[n];
      AddFile(UpsertAll(s, snap[..n]), e.basename, e.relpath, e.size, e.mtime).0
  }

  /** The upserts add exactly the walked paths to the stored ones. */
  lemma {:induction false} UpsertAllPaths(s: Store, snap: seq<Entry>)
    requires Schema(s)
    ensures Paths(UpsertAll(s, snap)) == Paths(s) + RelPaths(snap)
    decreases |snap|
  {
    if |snap| == 0 {
      assert RelPaths(snap) == {};
    } else {
      var n := |snap| - 1;
      var init, e := snap[..n], snap[n];
      assert snap == init + [e];
      RelPathsSnoc(init, e);
      UpsertAllPaths(s, init);
      var added := AddFile(UpsertAll(s, init), e.basename, e.relpath, e.size, e.mtime);
      assert UpsertAll(s, snap) == added.0;
    }
  }

  /** Every file of `s` is still in `r`, with its path and notes. */
  ghost predicate KeepsFiles(s: Store, r: Store)
  {
    forall id :: id in s.files ==>
      && id in r.files
      && r.files[id].filepath == s.files[id].filepath
      && r.files[id].notes == s.files[id].notes
  }

  /** Every file of `r` that `s` lacks has an id `s` had not handed out,
      and no notes. */
  ghost predicate FreshFiles(s: Store, r: Store)
  {
    forall id :: id in r.files && id !in s.files ==> s.nextFileId <= id && r.files[id].notes == None
  }

  /** Every file of `s` whose path is not in `paths` is in `r` unchanged. */
  ghost predicate Untouched(s: Store, r: Store, paths: set<string>)
  {
    forall id :: id in s.files && s.files[id].filepath !in paths ==> id in r.files && r.files[id] == s.files[id]
  }

  /** One upsert of the walk, seen from the store before it. */
  lemma UpsertStep(r0: Store, e: Entry, r: Store)
    requires Schema(r0)
    requires r == AddFile(r0, e.basename, e.relpath, e.size, e.mtime).0
    ensures r0.nextFileId <= r.nextFileId
    ensures Valid(r0) ==> Valid(r)
    ensures KeepsFiles(r0, r) && FreshFiles(r0, r) && Untouched(r0, r, {e.relpath})
  {
    var added := AddFile(r0, e.basename, e.relpath, e.size, e.mtime);
    forall id | id in r0.files
      ensures id in r.files && r.files[id].filepath == r0.files[id].filepath && r.files[id].notes == r0.files[id].notes
    {
      if id == added.1 {
        assert e.relpath in Paths(r0);
      }
    }
    forall id | id in r.files && id !in r0.files
      ensures r0.nextFileId <= id && r.files[id].notes == None
    {
      assert id == added.1;
    }
  }

  /** The upserts never move the file counter back, and keep the store
      valid. */
  lemma {:induction false} UpsertAllGrows(s: Store, snap: seq<Entry>, r: Store)
    requires Schema(s)
    requires r == UpsertAll(s, snap)
    ensures s.nextFileId <= r.nextFileId
    ensures Valid(s) ==> Valid(r)
    decreases |snap|
  {
    if |snap| > 0 {
      var n := |snap| - 1;
      var r0 := UpsertAll(s, snap[..n]);
      UpsertAllGrows(s, snap[..n], r0);
      UpsertStep(r0, snap[n], r);
    }
  }

  /** The upserts keep every stored file with its id, path and notes. */
  lemma {:induction false} UpsertAllKeeps(s: Store, snap: seq<Entry>, r: Store)
    requires Schema(s)
    requires r == UpsertAll(s, snap)
    ensures KeepsFiles(s, r)
    decreases |snap|
  {
    if |snap| > 0 {
      var n := |snap| - 1;
      var r0 := UpsertAll(s, snap[..n]);
      UpsertAllKeeps(s, snap[..n], r0);
      UpsertStep(r0, snap[n], r);
    }
  }

  /** Every file the upserts insert gets an id the store had not handed out
      before, and no notes. */
  lemma {:induction false} UpsertAllFresh(s: Store, snap: seq<Entry>, r: Store)
    requires Schema(s)
    requires r == UpsertAll(s, snap)
    ensures FreshFiles(s, r)
    decreases |snap|
  {
    if |snap| > 0 {
      var n := |snap| - 1;
      var r0 := UpsertAll(s, snap[..n]);
      UpsertAllFresh(s, snap[..n], r0);
      UpsertAllGrows(s, snap[..n], r0);
      UpsertStep(r0, snap[n], r);
      forall id | id in r.files && id !in s.files
        ensures s.nextFileId <= id && r.files[id].notes == None
      {
        if id in r0.files {
          assert r.files[id].notes == r0.files[id].notes;
        }
      }
    }
  }

  /** A stored file whose path the walk did not meet is left exactly as it
      was. */
  lemma {:induction false} UpsertAllUntouched(s: Store, snap: seq<Entry>, r: Store)
    requires Schema(s)
    requires r == UpsertAll(s, snap)
    ensures Untouched(s, r, RelPaths(snap))
    decreases |snap|
  {
    if |snap| > 0 {
      var n := |snap| - 1;
      var init, e := snap[..n], snap[n];
      assert snap == init + [e];
      RelPathsSnoc(init, e);
      var r0 := UpsertAll(s, init);
      UpsertAllUntouched(s, init, r0);
      UpsertStep(r0, e, r);
      forall id | id in s.files && s.files[id].filepath !in RelPaths(snap)
        ensures id in r.files && r.files[id] == s.files[id]
      {
        assert id in r0.files && r0.files[id] == s.files[id];
      }
    }
  }

  /** Every file the walk met carries the values of the last entry the walk
      met for its path. */
  lemma {:induction false} UpsertAllReflects(s: Store, snap: seq<Entry>)
    requires Schema(s)
    ensures ReflectsWalk(UpsertAll(s, snap), snap)
    decreases |snap|
  {
    if |snap| > 0 {
      var n := |snap| - 1;
      var init, e := snap[..n], snap[n];
      assert init + [e] == snap;
      UpsertAllReflects(s, init);
      var r0 := UpsertAll(s, init);
      assert UpsertAll(s, snap) == AddFile(r0, e.basename, e.relpath, e.size, e.mtime).0;
      ReflectsStep(r0, init, e, snap);
    } else {
      assert RelPaths(snap) == {};
    }
  }

  /** One more upsert keeps every met file carrying its last entry. */
  lemma ReflectsStep(r0: Store, init: seq<Entry>, e: Entry, snap: seq<Entry>)
    requires snap == init + [e]
    requires Schema(r0)
    requires ReflectsWalk(r0, init)
    ensures ReflectsWalk(AddFile(r0, e.basename, e.relpath, e.size, e.mtime).0, snap)
  {
    var n := |init|;
    assert snap[..n] == init && snap[n] == e;
    RelPathsSnoc(init, e);
    var added := AddFile(r0, e.basename, e.relpath, e.size, e.mtime);
    var r := added.0;
    forall id | id in r.files && r.files[id].filepath in RelPaths(snap)
      ensures Reflects(r.files[id], LastEntry(snap, r.files[id].filepath))
    {
      var p := r.files[id].filepath;
      if p == e.relpath {
        assert id == added.1;
        assert LastIndex(snap, p) == n;
      } else {
        assert id != added.1 && id in r0.files;
        assert r.files[id] == r0.files[id];
        assert p in RelPaths(init);
        assert LastIndex(snap, p) == LastIndex(init, p);
      }
    }
  }

  /** A walk that meets only stored paths inserts nothing. */
  lemma {:induction false} UpsertAllNoInsert(s: Store, snap: seq<Entry>)
    requires Schema(s)
    requires RelPaths(snap) <= Paths(s)
    ensures UpsertAll(s, snap).files.Keys == s.files.Keys
    ensures UpsertAll(s, snap).nextFileId == s.nextFileId
    decreases |snap|
  {
    if |snap| > 0 {
      var n := |snap| - 1;
      var init, e := snap[..n], snap[n];
      assert snap == init + [e];
      RelPathsSnoc(init, e);
      UpsertAllNoInsert(s, init);
      UpsertAllPaths(s, init);
      var r0 := UpsertAll(s, init);
      assert e.relpath in Paths(r0);
      var added := AddFile(r0, e.basename, e.relpath, e.size, e.mtime);
      assert UpsertAll(s, snap) == added.0;
      assert added.1 in r0.files;
    }
  }

  /** `sync_directory`. A missing root is created and the store is left
      alone, and the result is `None`, not a count; otherwise the store is
      reconciled with the walk and the result is the number of files met. */
  function SyncDirectory(s: Store, rootExists: bool, snap: seq<Entry>): (r: (Store, Option<nat>))
    requires Schema(s)
    ensures Schema(r.0)
    ensures !rootExists ==> r == (s, None)
    ensures rootExists ==> r.1 == Some(|snap|)
    ensures rootExists ==> Paths(r.0) == RelPaths(snap)
    ensures rootExists && |snap| == 0 ==> r.0.files == map[]
    // tags and associations are never touched
    ensures r.0.tags == s.tags && r.0.nextTagId == s.nextTagId && r.0.fileTags == s.fileTags
  {
    if !rootExists then
      (s, None)
    else
      var upserted := UpsertAll(s, snap);
      UpsertAllPaths(s, snap);
      var pruned := ClearOrphanedFiles(upserted, PathList(snap));
      assert Paths(pruned) == RelPaths(snap);
      (pruned, Some(|PathList(snap)|))
  }

  /** A stored file survives a sync exactly when the walk met its path; a
      survivor keeps its id, path, notes and tags. */
  lemma SyncKeepsSurvivors(s: Store, snap: seq<Entry>, r: Store)
    requires Schema(s)
    requires r == SyncDirectory(s, true, snap).0
    ensures forall id :: id in s.files ==> (id in r.files <==> s.files[id].filepath in RelPaths(snap))
    ensures forall id :: id in s.files && id in r.files ==>
      && r.files[id].filepath == s.files[id].filepath
      && r.files[id].notes == s.files[id].notes
      && TagsOf(r, id) == TagsOf(s, id)
  {
    var u := UpsertAll(s, snap);
    UpsertAllKeeps(s, snap, u);
    PruneKeepsWalked(s, u, PathList(snap), RelPaths(snap), r);
  }

  /** Pruning after the upserts removes exactly the stored files whose path
      is not listed, and keeps the others' paths and notes. */
  lemma PruneKeepsWalked(s: Store, u: Store, existing: seq<string>, paths: set<string>, r: Store)
    requires KeepsFiles(s, u)
    requires forall p :: p in existing <==> p in paths
    requires r == ClearOrphanedFiles(u, existing)
    ensures forall id :: id in s.files ==> (id in r.files <==> s.files[id].filepath in paths)
    ensures forall id :: id in s.files && id in r.files ==>
      r.files[id].filepath == s.files[id].filepath && r.files[id].notes == s.files[id].notes
  {
    forall id | id in s.files
      ensures id in r.files <==> s.files[id].filepath in paths
    {
      assert id in u.files && u.files[id].filepath == s.files[id].filepath;
    }
  }

  /** After a sync every stored file carries the values the walk last saw
      for its path. */
  lemma SyncReflectsWalk(s: Store, snap: seq<Entry>, r: Store)
    requires Schema(s)
    requires r == SyncDirectory(s, true, snap).0
    ensures forall id :: id in r.files ==>
      r.files[id].filepath in RelPaths(snap) && Reflects(r.files[id], LastEntry(snap, r.files[id].filepath))
  {
    UpsertAllReflects(s, snap);
  }

  /** A file new to the store gets an id never handed out before, no notes
      and, in a valid store, no tags. */
  lemma SyncNewFiles(s: Store, snap: seq<Entry>, r: Store)
    requires Schema(s)
    requires r == SyncDirectory(s, true, snap).0
    ensures Valid(s) ==> Valid(r)
    ensures forall id :: id in r.files && id !in s.files ==>
      && s.nextFileId <= id
      && r.files[id].notes == None
      && (Valid(s) ==> TagsOf(r, id) == {})
  {
    var u := UpsertAll(s, snap);
    UpsertAllGrows(s, snap, u);
    UpsertAllFresh(s, snap, u);
    assert r == ClearOrphanedFiles(u, PathList(snap));
    forall id | id in r.files && id !in s.files
      ensures s.nextFileId <= id && r.files[id].notes == None
      ensures Valid(s) ==> TagsOf(r, id) == {}
    {
      assert r.files[id] == u.files[id];
      if Valid(s) {
        forall t | t in r.tags
          ensures (id, t) !in r.fileTags
        {
          assert r.fileTags == s.fileTags;
        }
      }
    }
  }
}

/** Properties of whole syncs. */
module SyncProperties {
  import opened Common
  import opened Catalogue
  import opened Indexer

  /** Two stores with the same ids, the same paths and notes, that both
      carry the walk's values for every walked path and agree elsewhere,
      have the same files. */
  lemma SameFiles(s: Store, u: Store, snap: seq<Entry>)
    requires u.files.Keys == s.files.Keys
    requires KeepsFiles(s, u) && Untouched(s, u, RelPaths(snap))
    requires ReflectsWalk(s, snap) && ReflectsWalk(u, snap)
    ensures u.files == s.files
  {
    forall id | id in u.files
      ensures u.files[id] == s.files[id]
    {
      var f, g := s.files[id], u.files[id];
      if f.filepath in RelPaths(snap) {
        var e := LastEntry(snap, f.filepath);
        assert Reflects(f, e) && Reflects(g, e) && g.notes == f.notes;
      }
    }
  }

  /** A store that already holds every walked path with the walk's values
      is a fixed point of the upserts. */
  lemma UpsertAllFixpoint(s: Store, snap: seq<Entry>)
    requires Schema(s)
    requires RelPaths(snap) <= Paths(s)
    requires ReflectsWalk(s, snap)
    ensures UpsertAll(s, snap) == s
  {
    var u := UpsertAll(s, snap);
    UpsertAllNoInsert(s, snap);
    UpsertAllKeeps(s, snap, u);
    UpsertAllReflects(s, snap);
    UpsertAllUntouched(s, snap, u);
    SameFiles(s, u, snap);
  }

  /** Pruning with a list that names every stored path deletes nothing. */
  lemma ClearKeepsListed(s: Store, existing: seq<string>)
    requires Paths(s) <= set p | p in existing
    ensures ClearOrphanedFiles(s, existing) == s
  {
    var r := ClearOrphanedFiles(s, existing);
    forall id | id in s.files
      ensures id in r.files
    {
      assert s.files[id].filepath in Paths(s);
    }
    assert r.files == s.files;
  }

  /** Re-syncing a store that already holds exactly the walked paths, with
      the walk's values, changes nothing. */
  lemma ResyncIsNoop(s: Store, snap: seq<Entry>)
    requires Schema(s)
    requires Paths(s) == RelPaths(snap)
    requires ReflectsWalk(s, snap)
    ensures SyncDirectory(s, true, snap).0 == s
  {
    UpsertAllFixpoint(s, snap);
    ClearKeepsListed(s, PathList(snap));
  }

  /** Syncing the same walk twice leaves the store exactly as the first
      sync left it: same ids, paths, values, notes, tags and associations
      (both syncs report |snap| files, by the contract of `SyncDirectory`). */
  lemma SyncIdempotent(s: Store, snap: seq<Entry>)
    requires Schema(s)
    ensures SyncDirectory(SyncDirectory(s, true, snap).0, true, snap).0 == SyncDirectory(s, true, snap).0
  {
    var first := SyncDirectory(s, true, snap).0;
    SyncReflectsWalk(s, snap, first);
    ResyncIsNoop(first, snap);
  }

  /** Syncing an empty walk removes every file record, and only those. */
  lemma SyncEmptyClearsFiles(s: Store)
    requires Schema(s)
    ensures SyncDirectory(s, true, []).0 == s.(files := map[])
    ensures SyncDirectory(s, true, []).1 == Some(0)
  {
    assert UpsertAll(s, []) == s;
  }
}
