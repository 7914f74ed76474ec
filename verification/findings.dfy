/**
  `add_tag_to_file` as the repository writes it. The schema declares
  `file_tags.file_id` a foreign key of `files`, but no connection turns
  foreign-key enforcement on, so the insert succeeds for any file id. A pair
  naming an id that `files` has not yet handed out survives until the
  autoincrement counter reaches that id, and the next file indexed then
  inherits the tag. `Catalogue.AddTagToFile` is the corrected operation, which
  inserts the pair only for a stored file.
 */
module Findings {
  import opened Common
  import opened Catalogue

  /** The operation as written: get-or-create the tag, then insert the pair
      whatever the file id. */
  function AddTagToFileAsWritten(s: Store, fileId: nat, name: string): (r: Store)
    requires Schema(s)
    ensures Schema(r)
    ensures TagsExist(s) ==> TagsExist(r)
    ensures r.files == s.files && r.nextFileId == s.nextFileId
    ensures r.tags.Values == s.tags.Values + {name}
    ensures name in TagNamesOf(r, fileId)
    ensures fileId in s.files ==> r == AddTagToFile(s, fileId, name)
  {
    var (s1, t) := AddTag(s, name);
    var r := s1.(fileTags := s1.fileTags + {(fileId, t)});
    assert t in r.tags && r.tags[t] == name && (fileId, t) in r.fileTags;
    r
  }

  /** The operation as written is idempotent for every file id, stored or
      not: the second call finds the tag by name, and the composite primary
      key of `file_tags` turns the repeated insert into a no-op. */
  lemma AttachAsWrittenIdempotent(s: Store, fileId: nat, name: string)
    requires Schema(s)
    ensures var once := AddTagToFileAsWritten(s, fileId, name);
      AddTagToFileAsWritten(once, fileId, name) == once
  {
    var (s1, t) := AddTag(s, name);
    var once := AddTagToFileAsWritten(s, fileId, name);
    assert once == s1.(fileTags := s1.fileTags + {(fileId, t)});
    var (s2, t2) := AddTag(once, name);
    assert s2 == once by {
      assert name in once.tags.Values;
    }
    assert t2 == t by {
      assert t in once.tags && once.tags[t] == name;
    }
  }

  /** On a new database, tagging file 1 before any file exists and then
      indexing "a.txt" gives the new file id 1 and the tag "x" it was never
      given. */
  lemma {:induction false} TagLeaksToNextFile()
    ensures var s1 := AddTagToFileAsWritten(Empty, 1, "x");
      var added := AddFile(s1, "a.txt", "a.txt", 0, 0);
      && added.1 == 1
      && "x" in TagNamesOf(added.0, added.1)
  {
    var s1 := AddTagToFileAsWritten(Empty, 1, "x");
    assert Paths(s1) == {};
    var added := AddFile(s1, "a.txt", "a.txt", 0, 0);
    assert added.1 == s1.nextFileId == 1;
    assert added.0.tags == s1.tags && added.0.fileTags == s1.fileTags;
  }

  /** The same steps with the corrected operation: the tag request for the
      missing file changes no association, and the new file starts untagged. */
  lemma {:induction false} CorrectedTagDoesNotLeak()
    ensures var s1 := AddTagToFile(Empty, 1, "x");
      var added := AddFile(s1, "a.txt", "a.txt", 0, 0);
      && added.1 == 1
      && TagNamesOf(added.0, added.1) == {}
  {
    var s1 := AddTagToFile(Empty, 1, "x");
    assert Valid(Empty);
    assert Paths(s1) == {};
    var added := AddFile(s1, "a.txt", "a.txt", 0, 0);
    assert TagsOf(added.0, added.1) == {};
  }

  /** In general, under the corrected operation every file the indexer adds
      starts with no tags, whatever tag requests came before. */
  lemma {:induction false} NewFileStartsUntagged(s: Store, fileId: nat, name: string,
                                                 filename: string, filepath: string, size: nat, modified: Timestamp)
    requires Valid(s)
    requires filepath !in Paths(s)
    ensures var s1 := AddTagToFile(s, fileId, name);
      TagNamesOf(AddFile(s1, filename, filepath, size, modified).0, AddFile(s1, filename, filepath, size, modified).1) == {}
  {
    var s1 := AddTagToFile(s, fileId, name);
    assert Paths(s1) == Paths(s);
    var added := AddFile(s1, filename, filepath, size, modified);
    assert TagsOf(added.0, added.1) == {};
  }
}
