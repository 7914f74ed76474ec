/**
  Properties of the catalogue that relate several operations: repeated calls,
  an operation and its inverse, and what the queries see after a change.
 */
module CatalogueProperties {
  import opened Common
  import opened Like
  import opened Catalogue

  /** A new database satisfies the schema and the association invariant. */
  lemma EmptyIsValid()
    ensures Valid(Empty) && Paths(Empty) == {}
  {
  }

  /** Upserting the same file twice is the same as upserting it once, and
      both calls return the same id. */
  lemma AddFileIdempotent(s: Store, filename: string, filepath: string, size: nat, modified: Timestamp)
    requires Schema(s)
    ensures var once := AddFile(s, filename, filepath, size, modified);
      AddFile(once.0, filename, filepath, size, modified) == once
  {
    var once := AddFile(s, filename, filepath, size, modified);
    var twice := AddFile(once.0, filename, filepath, size, modified);
    assert filepath in Paths(once.0);
    assert twice.1 == once.1;
    assert twice.0.files == once.0.files;
  }

  /** `add_tag` is get-or-create: a second call with the same name returns
      the same id and adds nothing. */
  lemma AddTagIdempotent(s: Store, name: string)
    requires Schema(s)
    ensures var once := AddTag(s, name);
      AddTag(once.0, name) == once
  {
    var once := AddTag(s, name);
    var twice := AddTag(once.0, name);
    assert name in once.0.tags.Values;
    assert twice.1 in once.0.tags && once.0.tags[twice.1] == name;
  }

  /** Attaching the same tag to the same file twice gives the same store as
      attaching it once. */
  lemma AttachIdempotent(s: Store, fileId: nat, name: string)
    requires Schema(s)
    ensures var once := AddTagToFile(s, fileId, name);
      AddTagToFile(once, fileId, name) == once
  {
    var (s1, t) := AddTag(s, name);
    var once := AddTagToFile(s, fileId, name);
    AddTagIdempotent(s, name);
    assert once.tags == s1.tags && once.nextTagId == s1.nextTagId;
    var (s2, t2) := AddTag(once, name);
    assert s2 == once by {
      assert name in once.tags.Values;
    }
    assert t2 == t by {
      assert t in once.tags && once.tags[t] == name;
    }
  }

  /** Detaching a tag that a file did not carry before it was attached gives
      back the associations the file started with. */
  lemma AttachThenDetach(s: Store, fileId: nat, name: string)
    requires Schema(s) && TagsExist(s)
    requires fileId in s.files
    requires name !in TagNamesOf(s, fileId)
    ensures var attached := AddTagToFile(s, fileId, name);
      var t := AddTag(s, name).1;
      RemoveTagFromFile(attached, fileId, t).fileTags == s.fileTags
  {
    var (s1, t) := AddTag(s, name);
    assert (fileId, t) !in s.fileTags;
  }

  /** Detaching touches only the one pair; detaching again changes nothing. */
  lemma DetachIdempotent(s: Store, fileId: nat, tagId: nat)
    ensures var once := RemoveTagFromFile(s, fileId, tagId);
      RemoveTagFromFile(once, fileId, tagId) == once
  {
    var once := RemoveTagFromFile(s, fileId, tagId);
    assert (fileId, tagId) !in once.fileTags;
  }

  /** Tag search is an OR: searching for the names of two lists finds
      exactly the files either search finds. */
  lemma {:induction false} TagSearchIsUnion(s: Store, a: seq<string>, b: seq<string>)
    ensures TaggedIds(s, a + b) == TaggedIds(s, a) + TaggedIds(s, b)
  {
    forall id | id in TaggedIds(s, a + b)
      ensures id in TaggedIds(s, a) + TaggedIds(s, b)
    {
      var t :| t in s.tags && (id, t) in s.fileTags && s.tags[t] in a + b;
      if s.tags[t] in a {
        assert HasAnyTag(s, id, a);
      } else {
        assert HasAnyTag(s, id, b);
      }
    }
    forall id | id in TaggedIds(s, a) + TaggedIds(s, b)
      ensures id in TaggedIds(s, a + b)
    {
      if id in TaggedIds(s, a) {
        var t :| t in s.tags && (id, t) in s.fileTags && s.tags[t] in a;
        assert s.tags[t] in a + b;
      } else {
        var t :| t in s.tags && (id, t) in s.fileTags && s.tags[t] in b;
        assert s.tags[t] in a + b;
      }
    }
  }

  /** A file is found by a tag search exactly when one of its tags is
      named in the search; one name is enough. */
  lemma TagSearchFindsAnyName(s: Store, fileId: nat, names: seq<string>)
    requires Schema(s)
    requires fileId in s.files
    ensures fileId in TaggedIds(s, names) <==> exists n :: n in names && n in TagNamesOf(s, fileId)
  {
    if fileId in TaggedIds(s, names) {
      var t :| t in s.tags && (fileId, t) in s.fileTags && s.tags[t] in names;
      assert s.tags[t] in TagNamesOf(s, fileId);
    }
    if exists n :: n in names && n in TagNamesOf(s, fileId) {
      var n :| n in names && n in TagNamesOf(s, fileId);
      var t :| t in s.tags && (fileId, t) in s.fileTags && s.tags[t] == n;
      assert HasAnyTag(s, fileId, names);
    }
  }

  /** After a tag is attached to a live file, a search for any list that
      names it finds the file. */
  lemma AttachedFileIsFound(s: Store, fileId: nat, name: string, names: seq<string>)
    requires Schema(s)
    requires fileId in s.files
    requires name in names
    ensures fileId in TaggedIds(AddTagToFile(s, fileId, name), names)
  {
    var r := AddTagToFile(s, fileId, name);
    assert name in TagNamesOf(r, fileId);
    TagSearchFindsAnyName(r, fileId, names);
  }

  /** A deleted file disappears from every search in any store. A file
      indexed later never reuses its id, and in a store that keeps `Valid`
      (the corrected attach) the pairs it leaves behind never reach that
      file. */
  lemma DeletedFileIsHidden(s: Store, fileId: nat, names: seq<string>, q: string,
                            filename: string, filepath: string, size: nat, modified: Timestamp)
    ensures var d := DeleteFile(s, fileId);
      && fileId !in TaggedIds(d, names)
      && fileId !in MentioningIds(d, q)
      && GetFileById(d, fileId) == None
      && (Schema(s) && filepath !in Paths(d) ==>
            var added := AddFile(d, filename, filepath, size, modified);
            && (fileId in s.files ==> added.1 != fileId)
            && (Valid(s) ==> TagsOf(added.0, added.1) == {}))
  {
    var d := DeleteFile(s, fileId);
    if Schema(s) && filepath !in Paths(d) {
      var added := AddFile(d, filename, filepath, size, modified);
      if fileId in s.files {
        assert fileId < s.nextFileId == d.nextFileId <= added.1;
      }
    }
  }

  /** Notes written with `update_file_notes` are what `get_file_by_id`
      reads back; the rest of the row is unchanged. */
  lemma NotesRoundTrip(s: Store, fileId: nat, notes: Option<string>)
    requires fileId in s.files
    ensures GetFileById(UpdateFileNotes(s, fileId, notes), fileId) == Some(s.files[fileId].(notes := notes))
  {
    var r := UpdateFileNotes(s, fileId, notes);
    assert r.files[fileId] == s.files[fileId].(notes := notes);
  }

  /** The text search ignores ASCII case in the filename: "Report.pdf"
      matches the query "report". */
  lemma FilenameSearchIgnoresCase()
    ensures Mentions(FileRec("Report.pdf", "Report.pdf", 0, 0, None), "report")
  {
    var q, t := "report", "Report.pdf";
    assert NoWildcards(q);
    assert FoldPrefix(q, t[0..]) by {
      assert t[0..] == t;
      assert Fold(t[0]) == 'r';
    }
    LikeIsContainment(q, t);
  }

  /** The text search ignores ASCII case in the notes: notes reading
      "very urgent" match the query "URGENT". */
  lemma NotesSearchIgnoresCase()
    ensures Mentions(FileRec("todo.txt", "todo.txt", 0, 0, Some("very urgent")), "URGENT")
  {
    var q, t := "URGENT", "very urgent";
    assert NoWildcards(q);
    assert FoldPrefix(q, t[5..]) by {
      assert t[5..] == "urgent";
      assert Fold('U') == 'u' && Fold('R') == 'r' && Fold('G') == 'g';
      assert Fold('E') == 'e' && Fold('N') == 'n' && Fold('T') == 't';
    }
    LikeIsContainment(q, t);
  }
}
