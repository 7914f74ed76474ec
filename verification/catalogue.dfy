/**
  The catalogue store of `database.py`: the three tables `files`, `tags` and
  `file_tags` as one immutable value, and every `Database` method as a pure
  transition or a query over it.

  `files` and `tags` use `INTEGER PRIMARY KEY AUTOINCREMENT`, so SQLite never
  hands out an id twice; the two counters record the next id each table will
  use. The schema declares `ON DELETE CASCADE` on `file_tags`, but the
  connection never turns on foreign-key enforcement, so deleting a file leaves
  its association pairs behind. Ids are never reused, so those pairs can never
  reach a later file; the queries join with `files` or ask about a live id.
 */
module Catalogue {
  import opened Common
  import opened Collation
  import opened Like
  import opened Ordered

  /** One row of `files`; `indexed_at` is not modelled. */
  datatype FileRec = FileRec(
    filename: string,
    filepath: string,
    size: nat,
    modified: Timestamp,
    notes: Option<string>)

  datatype Store = Store(
    files: map<nat, FileRec>,
    tags: map<nat, string>,
    fileTags: set<(nat, nat)>,
    nextFileId: nat,
    nextTagId: nat)

  /** The store as `init_db` leaves a new database: empty tables, and both
      AUTOINCREMENT sequences about to hand out 1. */
  const Empty: Store := Store(map[], map[], {}, 1, 1)

  /** What SQLite itself enforces: ids below the AUTOINCREMENT counters,
      `filepath UNIQUE` and `tag_name UNIQUE`. */
  ghost predicate Schema(s: Store)
  {
    && (forall id :: id in s.files ==> id < s.nextFileId)
    && (forall id :: id in s.tags ==> id < s.nextTagId)
    && (forall a, b :: a in s.files && b in s.files && s.files[a].filepath == s.files[b].filepath ==> a == b)
    && (forall a, b :: a in s.tags && b in s.tags && s.tags[a] == s.tags[b] ==> a == b)
  }

  /** Every association names a tag that exists. Tags are never deleted and
      both attach operations create the tag before the pair, so every
      operation keeps this, the attach as the code writes it included. */
  ghost predicate TagsExist(s: Store)
  {
    forall p :: p in s.fileTags ==> p.1 in s.tags
  }

  /** The schema, plus what the declared foreign keys are meant to give:
      every association names a tag that exists and a file id that has
      already been handed out (the file may since have been deleted). Only
      the corrected attach keeps the second half. */
  ghost predicate Valid(s: Store)
  {
    && Schema(s)
    && TagsExist(s)
    && (forall p :: p in s.fileTags ==> p.0 < s.nextFileId)
  }

  /** The `filepath` column. */
  function Paths(s: Store): set<string>
  {
    set id | id in s.files :: s.files[id].filepath
  }

  /** The ids of the tags attached to `fileId`, as `get_file_tags` joins
      `file_tags` with `tags`. */
  function TagsOf(s: Store, fileId: nat): set<nat>
  {
    set t | t in s.tags && (fileId, t) in s.fileTags
  }

  /** The names of the tags attached to `fileId`. */
  function TagNamesOf(s: Store, fileId: nat): set<string>
  {
    set t | t in s.tags && (fileId, t) in s.fileTags :: s.tags[t]
  }

  /** The sort keys of the `ORDER BY filename` and `ORDER BY tag_name`
      queries, named so that the query contracts read as the SQL's
      `ORDER BY` column. */
  function FileNameOf(f: FileRec): string
  {
    f.filename
  }

  function TagNameOf(name: string): string
  {
    name
  }

  /** `SELECT id FROM files WHERE filepath = ?`. */
  function LookupPath(s: Store, path: string): (r: Option<nat>)
    requires Schema(s)
    ensures r.Some? ==> r.value in s.files && s.files[r.value].filepath == path
    ensures r.None? <==> path !in Paths(s)
  {
    if exists id :: id in s.files && s.files[id].filepath == path then
      var id :| id in s.files && s.files[id].filepath == path;
      Some(id)
    else
      None
  }

  /** `SELECT id FROM tags WHERE tag_name = ?`. */
  function LookupTag(s: Store, name: string): (r: Option<nat>)
    requires Schema(s)
    ensures r.Some? ==> r.value in s.tags && s.tags[r.value] == name
    ensures r.None? <==> name !in s.tags.Values
  {
    if exists id :: id in s.tags && s.tags[id] == name then
      var id :| id in s.tags && s.tags[id] == name;
      Some(id)
    else
      None
  }

  /** `add_file`: insert a row for a new `filepath`; when the insert hits the
      `UNIQUE` constraint, update that row's filename, size and modified time
      instead. Returns the row's id. */
  function AddFile(s: Store, filename: string, filepath: string, size: nat, modified: Timestamp): (r: (Store, nat))
    requires Schema(s)
    ensures Schema(r.0)
    ensures Valid(s) ==> Valid(r.0)
    ensures TagsExist(s) ==> TagsExist(r.0)
    ensures r.1 in r.0.files
    // the row for `filepath` takes the new values, and every other row is kept
    ensures r.0.files == s.files[r.1 := FileRec(filename, filepath, size, modified, r.0.files[r.1].notes)]
    ensures Paths(r.0) == Paths(s) + {filepath}
    ensures r.0.tags == s.tags && r.0.nextTagId == s.nextTagId && r.0.fileTags == s.fileTags
    // an existing path keeps its id and its notes, and uses no new id
    ensures filepath in Paths(s) ==>
      && r.1 in s.files && s.files[r.1].filepath == filepath
      && r.0.files[r.1].notes == s.files[r.1].notes
      && r.0.nextFileId == s.nextFileId
    // a new path gets the next id, above every id handed out before, and no notes
    ensures filepath !in Paths(s) ==>
      && r.1 == s.nextFileId && r.0.nextFileId == s.nextFileId + 1
      && r.0.files[r.1].notes == None
    ensures Valid(s) && filepath !in Paths(s) ==> TagsOf(r.0, r.1) == {}
  {
    match LookupPath(s, filepath)
    case Some(id) =>
      var f := s.files[id];
      var r := s.(files := s.files[id := f.(filename := filename, size := size, modified := modified)]);
      assert Paths(r) == Paths(s) by {
        forall p | p in Paths(r)
          ensures p in Paths(s)
        {
          var k :| k in r.files && r.files[k].filepath == p;
          assert s.files[k].filepath == p;
        }
        forall p | p in Paths(s)
          ensures p in Paths(r)
        {
          var k :| k in s.files && s.files[k].filepath == p;
          assert r.files[k].filepath == p;
        }
      }
      (r, id)
    case None =>
      var id := s.nextFileId;
      var r := s.(files := s.files[id := FileRec(filename, filepath, size, modified, None)], nextFileId := id + 1);
      assert id !in s.files;
      assert Paths(r) == Paths(s) + {filepath} by {
        forall p | p in Paths(r)
          ensures p in Paths(s) + {filepath}
        {
          var k :| k in r.files && r.files[k].filepath == p;
          if k != id {
            assert s.files[k].filepath == p;
          }
        }
        forall p | p in Paths(s)
          ensures p in Paths(r)
        {
          var k :| k in s.files && s.files[k].filepath == p;
          assert r.files[k].filepath == p;
        }
        assert r.files[id].filepath == filepath;
      }
      (r, id)
  }

  /** `get_file_by_id`. */
  function GetFileById(s: Store, fileId: nat): (r: Option<FileRec>)
    ensures r.Some? <==> fileId in s.files
    ensures r.Some? ==> r.value == s.files[fileId]
  {
    if fileId in s.files then Some(s.files[fileId]) else None
  }

  /** `update_file_notes`: an `UPDATE … WHERE id = ?`, which matches no row
      for an unknown id. */
  function UpdateFileNotes(s: Store, fileId: nat, notes: Option<string>): (r: Store)
    ensures Schema(s) ==> Schema(r)
    ensures Valid(s) ==> Valid(r)
    ensures TagsExist(s) ==> TagsExist(r)
    ensures r.files.Keys == s.files.Keys
    ensures fileId in s.files ==> r.files[fileId].notes == notes
    ensures forall id :: id in s.files ==>
      && r.files[id].filename == s.files[id].filename
      && r.files[id].filepath == s.files[id].filepath
      && r.files[id].size == s.files[id].size
      && r.files[id].modified == s.files[id].modified
    ensures forall id :: id in s.files && id != fileId ==> r.files[id] == s.files[id]
    ensures fileId !in s.files ==> r == s
    ensures r.tags == s.tags && r.fileTags == s.fileTags
    ensures r.nextFileId == s.nextFileId && r.nextTagId == s.nextTagId
  {
    if fileId in s.files then
      s.(files := s.files[fileId := s.files[fileId].(notes := notes)])
    else
      s
  }

  /** `delete_file`. No cascade runs, so the file's association pairs stay. */
  function DeleteFile(s: Store, fileId: nat): (r: Store)
    ensures Schema(s) ==> Schema(r)
    ensures Valid(s) ==> Valid(r)
    ensures TagsExist(s) ==> TagsExist(r)
    ensures fileId !in r.files
    ensures forall id :: id != fileId ==> (id in r.files <==> id in s.files)
    ensures forall id :: id in r.files ==> r.files[id] == s.files[id]
    ensures r.tags == s.tags && r.fileTags == s.fileTags
    ensures r.nextFileId == s.nextFileId && r.nextTagId == s.nextTagId
  {
    s.(files := map id | id in s.files && id != fileId :: s.files[id])
  }

  /** `add_tag`: get-or-create a tag by its exact name. */
  function AddTag(s: Store, name: string): (r: (Store, nat))
    requires Schema(s)
    ensures Schema(r.0)
    ensures Valid(s) ==> Valid(r.0)
    ensures TagsExist(s) ==> TagsExist(r.0)
    ensures r.1 in r.0.tags && r.0.tags[r.1] == name
    ensures r.0.tags.Values == s.tags.Values + {name}
    ensures forall t :: t in s.tags ==> t in r.0.tags && r.0.tags[t] == s.tags[t]
    ensures r.0.files == s.files && r.0.fileTags == s.fileTags && r.0.nextFileId == s.nextFileId
    ensures name in s.tags.Values ==> r.0 == s && r.1 in s.tags
    ensures name !in s.tags.Values ==>
      && r.1 !in s.tags
      && (forall t :: t in s.tags ==> t < r.1)
      && r.0.tags.Keys == s.tags.Keys + {r.1}
      && r.0.nextTagId == r.1 + 1
  {
    match LookupTag(s, name)
    case Some(t) => (s, t)
    case None =>
      var t := s.nextTagId;
      var r := s.(tags := s.tags[t := name], nextTagId := t + 1);
      assert t !in s.tags;
      assert r.tags.Values == s.tags.Values + {name} by {
        forall v | v in r.tags.Values
          ensures v in s.tags.Values + {name}
        {
          var k :| k in r.tags && r.tags[k] == v;
          if k != t {
            assert s.tags[k] == v;
          }
        }
        forall v | v in s.tags.Values
          ensures v in r.tags.Values
        {
          var k :| k in s.tags && s.tags[k] == v;
          assert r.tags[k] == v;
        }
        assert r.tags[t] == name;
      }
      (r, t)
  }

  /** `add_tag_to_file`: get-or-create the tag, then insert the pair; an
      already present pair is left as it is. The pair is inserted only when
      the file exists, as the declared foreign key demands (see the finding
      in `Findings` for the code as written). */
  function AddTagToFile(s: Store, fileId: nat, name: string): (r: Store)
    requires Schema(s)
    ensures Schema(r)
    ensures Valid(s) ==> Valid(r)
    ensures TagsExist(s) ==> TagsExist(r)
    ensures r.files == s.files && r.nextFileId == s.nextFileId
    ensures r.tags.Values == s.tags.Values + {name}
    ensures forall t :: t in s.tags ==> t in r.tags && r.tags[t] == s.tags[t]
    ensures TagsExist(s) && fileId in s.files ==> TagNamesOf(r, fileId) == TagNamesOf(s, fileId) + {name}
    ensures TagsExist(s) ==> forall f :: f != fileId ==> TagsOf(r, f) == TagsOf(s, f)
    ensures fileId !in s.files ==> r.fileTags == s.fileTags
  {
    var (s1, t) := AddTag(s, name);
    if fileId in s1.files then s1.(fileTags := s1.fileTags + {(fileId, t)}) else s1
  }

  /** `remove_tag_from_file`: delete one pair; nothing happens when it is
      absent. */
  function RemoveTagFromFile(s: Store, fileId: nat, tagId: nat): (r: Store)
    ensures Schema(s) ==> Schema(r)
    ensures Valid(s) ==> Valid(r)
    ensures TagsExist(s) ==> TagsExist(r)
    ensures r.files == s.files && r.tags == s.tags
    ensures r.nextFileId == s.nextFileId && r.nextTagId == s.nextTagId
    ensures TagsOf(r, fileId) == TagsOf(s, fileId) - {tagId}
    ensures forall p :: p != (fileId, tagId) ==> (p in r.fileTags <==> p in s.fileTags)
    ensures (fileId, tagId) !in s.fileTags ==> r == s
  {
    s.(fileTags := s.fileTags - {(fileId, tagId)})
  }

  /** `clear_orphaned_files`: with no paths, delete every file; otherwise
      delete the files whose path is not among them. Tags and associations
      are not touched. */
  function ClearOrphanedFiles(s: Store, existing: seq<string>): (r: Store)
    ensures Schema(s) ==> Schema(r)
    ensures Valid(s) ==> Valid(r)
    ensures TagsExist(s) ==> TagsExist(r)
    ensures forall id :: id in r.files <==> id in s.files && s.files[id].filepath in existing
    ensures forall id :: id in r.files ==> r.files[id] == s.files[id]
    ensures Paths(r) == set p | p in Paths(s) && p in existing
    ensures r.tags == s.tags && r.fileTags == s.fileTags
    ensures r.nextFileId == s.nextFileId && r.nextTagId == s.nextTagId
  {
    if |existing| == 0 then
      s.(files := map[])
    else
      s.(files := map id | id in s.files && s.files[id].filepath in existing :: s.files[id])
  }

  /** The file carries at least one tag whose name is in `names`. */
  predicate HasAnyTag(s: Store, fileId: nat, names: seq<string>)
  {
    exists t :: t in s.tags && (fileId, t) in s.fileTags && s.tags[t] in names
  }

  /** The row matches `filename LIKE '%q%' OR notes LIKE '%q%'`; a `NULL`
      note matches nothing. */
  predicate Mentions(f: FileRec, q: string)
  {
    LikeMatch(Infix(q), f.filename) || (f.notes.Some? && LikeMatch(Infix(q), f.notes.value))
  }

  /** The filename or the notes contain `q`, ignoring ASCII case. */
  predicate MentionsFolded(f: FileRec, q: string)
  {
    ContainsFolded(f.filename, q) || (f.notes.Some? && ContainsFolded(f.notes.value, q))
  }

  /** The live files carrying at least one of the named tags. */
  function TaggedIds(s: Store, names: seq<string>): set<nat>
  {
    set id | id in s.files && HasAnyTag(s, id, names)
  }

  /** The live files matching the `LIKE` text search for `q`. */
  function MentioningIds(s: Store, q: string): set<nat>
  {
    set id | id in s.files && Mentions(s.files[id], q)
  }

  /** The live files whose filename or notes contain `q` up to ASCII case. */
  function FoldedMentioningIds(s: Store, q: string): set<nat>
  {
    set id | id in s.files && MentionsFolded(s.files[id], q)
  }

  /** `get_all_files`: every file once, ordered by filename. */
  method GetAllFiles(s: Store) returns (rows: seq<Row<FileRec>>)
    ensures IsOrderedSelection(s.files, s.files.Keys, FileNameOf, rows)
    ensures |rows| == |s.files|
  {
    rows := SelectOrdered(s.files, s.files.Keys, FileNameOf);
    SelectionCoversAll(s.files, FileNameOf, rows);
  }

  /** A selection of every row has exactly as many rows as the table. */
  lemma {:induction false} SelectionCoversAll<T>(m: map<nat, T>, key: T -> string, rows: seq<Row<T>>)
    requires IsOrderedSelection(m, m.Keys, key, rows)
    ensures |rows| == |m|
  {
    var ids := set i | 0 <= i < |rows| :: rows[i].id;
    assert ids == m.Keys by {
      forall id | id in m
        ensures id in ids
      {
        var i :| 0 <= i < |rows| && rows[i].id == id;
      }
    }
    DistinctIdsCount(rows);
  }

  /** A sequence with distinct ids has as many rows as ids. */
  lemma {:induction false} DistinctIdsCount<T>(rows: seq<Row<T>>)
    requires DistinctIds(rows)
    ensures |set i | 0 <= i < |rows| :: rows[i].id| == |rows|
  {
    if |rows| > 0 {
      var init := rows[..|rows| - 1];
      assert DistinctIds(init);
      DistinctIdsCount(init);
      var last := rows[|rows| - 1].id;
      var a := set i | 0 <= i < |init| :: init[i].id;
      var b := set i | 0 <= i < |rows| :: rows[i].id;
      assert b == a + {last} by {
        forall x | x in b
          ensures x in a + {last}
        {
          var i :| 0 <= i < |rows| && rows[i].id == x;
          if i < |init| {
            assert init[i].id == x;
          }
        }
        forall x | x in a
          ensures x in b
        {
          var i :| 0 <= i < |init| && init[i].id == x;
          assert rows[i].id == x;
        }
      }
      assert last !in a by {
        forall i | 0 <= i < |init|
          ensures init[i].id != last
        {
          assert rows[i].id != rows[|rows| - 1].id;
        }
      }
    }
  }

  /** `search_files`: a non-empty tag list selects the files carrying ANY of
      the named tags (the inner joins hide deleted files, `DISTINCT` lists each
      once); otherwise a non-empty query selects the files whose filename or
      notes match `LIKE '%query%'`; otherwise every file is listed. */
  method SearchFiles(s: Store, query: Option<string>, tags: seq<string>) returns (rows: seq<Row<FileRec>>)
    ensures |tags| > 0 ==>
      IsOrderedSelection(s.files, TaggedIds(s, tags), FileNameOf, rows)
    ensures |tags| == 0 && query.Some? && query.value != "" ==>
      IsOrderedSelection(s.files, MentioningIds(s, query.value), FileNameOf, rows)
    ensures |tags| == 0 && query.Some? && query.value != "" && NoWildcards(query.value) ==>
      IsOrderedSelection(s.files, FoldedMentioningIds(s, query.value), FileNameOf, rows)
    ensures |tags| == 0 && (query.None? || query.value == "") ==>
      IsOrderedSelection(s.files, s.files.Keys, FileNameOf, rows)
  {
    if |tags| > 0 {
      var ids := TaggedIds(s, tags);
      rows := SelectOrdered(s.files, ids, FileNameOf);
    } else if query.Some? && query.value != "" {
      var q := query.value;
      var ids := MentioningIds(s, q);
      rows := SelectOrdered(s.files, ids, FileNameOf);
      if NoWildcards(q) {
        forall id | id in s.files
          ensures Mentions(s.files[id], q) <==> MentionsFolded(s.files[id], q)
        {
          LikeIsContainment(q, s.files[id].filename);
          if s.files[id].notes.Some? {
            LikeIsContainment(q, s.files[id].notes.value);
          }
        }
        assert ids == FoldedMentioningIds(s, q);
      }
    } else {
      rows := SelectOrdered(s.files, s.files.Keys, FileNameOf);
    }
  }

  /** `get_all_tags`: every tag once, ordered by name. */
  method GetAllTags(s: Store) returns (rows: seq<Row<string>>)
    ensures IsOrderedSelection(s.tags, s.tags.Keys, TagNameOf, rows)
    ensures |rows| == |s.tags|
  {
    rows := SelectOrdered(s.tags, s.tags.Keys, TagNameOf);
    SelectionCoversAll(s.tags, TagNameOf, rows);
  }

  /** `get_file_tags`: the tags attached to one file, ordered by name. With
      unique tag names the order is strict. */
  method GetFileTags(s: Store, fileId: nat) returns (rows: seq<Row<string>>)
    requires Schema(s)
    ensures IsOrderedSelection(s.tags, TagsOf(s, fileId), TagNameOf, rows)
    ensures forall i :: 0 <= i < |rows| ==> (fileId, rows[i].id) in s.fileTags
    ensures forall i, j :: 0 <= i < j < |rows| ==> rows[i].val != rows[j].val
  {
    rows := SelectOrdered(s.tags, TagsOf(s, fileId), TagNameOf);
  }
}
