/** The pure updaters behind the widget's delete and rename operations, and
    the guard that decides when a rename is committed. */
module Edits {
  import opened Wrappers
  import opened Seqs
  import opened Text
  import opened Records

  /** `prev.filter(file => file.id !== fileId)`. */
  function Remove(files: seq<FileRecord>, id: Id): seq<FileRecord>
  {
    if files == [] then []
    else (if files[0].id != id then [files[0]] else []) + Remove(files[1..], id)
  }

  /** `prev.map(file => file.id === fileId ? { ...file, name: newName } : file)`. */
  function Rename(files: seq<FileRecord>, id: Id, newName: string): seq<FileRecord>
  {
    if files == [] then []
    else [if files[0].id == id then files[0].(name := newName) else files[0]] +
         Rename(files[1..], id, newName)
  }

  /** No two records share an id. The widget does not enforce this; the
      lemmas below show which operations keep it. */
  predicate UniqueIds(files: seq<FileRecord>)
  {
    forall i, j :: 0 <= i < j < |files| ==> files[i].id != files[j].id
  }

  /** Deleting keeps the other records in their relative order. */
  lemma {:induction false} RemoveOrdered(files: seq<FileRecord>, id: Id)
    ensures IsSubsequence(Remove(files, id), files)
  {
    if files != [] {
      var rest := files[1..];
      RemoveOrdered(rest, id);
      assert files == [files[0]] + rest;
      SubsequenceCons(files[0], Remove(rest, id), rest);
      if files[0].id != id {
        assert Remove(files, id) == [files[0]] + Remove(rest, id);
      } else {
        assert Remove(files, id) == Remove(rest, id);
      }
    }
  }

  /** Deleting drops every record with the id and keeps every copy of every
      other record. */
  lemma {:induction false} RemoveCount(files: seq<FileRecord>, id: Id)
    ensures forall r :: multiset(Remove(files, id))[r] ==
                        if r.id == id then 0 else multiset(files)[r]
  {
    if files != [] {
      var rest := files[1..];
      RemoveCount(rest, id);
      assert files == [files[0]] + rest;
      var keep := if files[0].id != id then [files[0]] else [];
      assert multiset(Remove(files, id)) == multiset(keep) + multiset(Remove(rest, id));
      assert multiset(files) == multiset{files[0]} + multiset(rest);
    }
  }

  /** A record survives deletion exactly when it was there and has another id. */
  lemma RemoveMembers(files: seq<FileRecord>, id: Id)
    ensures forall r :: r in Remove(files, id) <==> r in files && r.id != id
  {
    RemoveCount(files, id);
    forall r ensures r in Remove(files, id) <==> r in files && r.id != id {
      assert r in Remove(files, id) <==> multiset(Remove(files, id))[r] > 0;
      assert r in files <==> multiset(files)[r] > 0;
    }
  }

  /** Deleting an id no record has changes nothing. */
  lemma {:induction false} RemoveAbsent(files: seq<FileRecord>, id: Id)
    requires forall r :: r in files ==> r.id != id
    ensures Remove(files, id) == files
  {
    if files != [] {
      assert forall r :: r in files[1..] ==> r in files;
      RemoveAbsent(files[1..], id);
      assert files == [files[0]] + files[1..];
    }
  }

  /** Deleting the same id a second time changes nothing. */
  lemma RemoveIdempotent(files: seq<FileRecord>, id: Id)
    ensures Remove(Remove(files, id), id) == Remove(files, id)
  {
    RemoveMembers(files, id);
    RemoveAbsent(Remove(files, id), id);
  }

  /** Deleting never makes ids collide. */
  lemma {:induction false} RemoveKeepsUnique(files: seq<FileRecord>, id: Id)
    requires UniqueIds(files)
    ensures UniqueIds(Remove(files, id))
  {
    if files != [] {
      var rest := files[1..];
      assert UniqueIds(rest) by {
        forall i, j | 0 <= i < j < |rest| ensures rest[i].id != rest[j].id {
          assert rest[i] == files[i + 1] && rest[j] == files[j + 1];
        }
      }
      RemoveKeepsUnique(rest, id);
      if files[0].id != id {
        RemoveMembers(rest, id);
        var r := Remove(files, id);
        assert r == [files[0]] + Remove(rest, id);
        forall i, j | 0 <= i < j < |r| ensures r[i].id != r[j].id {
          if i == 0 {
            assert r[j] in rest;
            var k :| 0 <= k < |rest| && rest[k] == r[j];
            assert files[k + 1] == r[j];
          } else {
            assert r[i] == Remove(rest, id)[i - 1] && r[j] == Remove(rest, id)[j - 1];
          }
        }
      }
    }
  }

  /** Renaming keeps the length and the order of the list, gives the new name
      to exactly the records with the id, and changes no other field and no
      other record. */
  lemma {:induction false} RenameSpec(files: seq<FileRecord>, id: Id, newName: string)
    ensures |Rename(files, id, newName)| == |files|
    ensures forall i :: 0 <= i < |files| ==>
              Rename(files, id, newName)[i] ==
              if files[i].id == id then files[i].(name := newName) else files[i]
  {
    if files != [] {
      RenameSpec(files[1..], id, newName);
    }
  }

  /** Renaming an id no record has changes nothing. */
  lemma RenameAbsent(files: seq<FileRecord>, id: Id, newName: string)
    requires forall r :: r in files ==> r.id != id
    ensures Rename(files, id, newName) == files
  {
    RenameSpec(files, id, newName);
  }

  /** Renaming does not touch ids, so it keeps them unique. */
  lemma RenameKeepsUnique(files: seq<FileRecord>, id: Id, newName: string)
    requires UniqueIds(files)
    ensures UniqueIds(Rename(files, id, newName))
  {
    RenameSpec(files, id, newName);
  }

  /** Deleting a renamed record leaves the same list as deleting it without
      the rename. */
  lemma {:induction false} RemoveAfterRename(files: seq<FileRecord>, id: Id, newName: string)
    ensures Remove(Rename(files, id, newName), id) == Remove(files, id)
  {
    if files != [] {
      RemoveAfterRename(files[1..], id, newName);
    }
  }

  /** `FileItem.handleRename`: the name `renameFile` is called with, if it is
      called at all. It is called when the edited text is not blank after
      trimming and, before trimming, differs from the record's current name;
      it receives the trimmed text. */
  function RenameRequest(current: FileRecord, input: string): (r: Option<string>)
    ensures r.Some? <==> !AllSpace(input) && input != current.name
    ensures r.Some? ==> r.value == Trim(input) && r.value != []
  {
    TrimEmptyIff(input);
    if Trim(input) != [] && input != current.name then Some(Trim(input)) else None
  }

  /** A committed name is never blank and never starts or ends with white
      space. */
  lemma RequestedNameIsTrimmed(current: FileRecord, input: string)
    requires RenameRequest(current, input).Some?
    ensures var n := RenameRequest(current, input).value;
            n != [] && !IsSpace(n[0]) && !IsSpace(n[|n| - 1])
  {
    TrimEnds(input);
  }

  /** The guard compares the untrimmed text with the current name, so adding
      white space around the current name still commits a rename, to the
      name the record already has. */
  lemma PaddedSameNameIsCommitted(current: FileRecord)
    requires current.name == "report.pdf"
    ensures RenameRequest(current, " report.pdf") == Some("report.pdf")
  {
    var input := " report.pdf";
    assert IsSpace(input[0]) && !IsSpace(input[1]);
    assert TrimStart(input[1..]) == input[1..];
    assert TrimStart(input) == "report.pdf";
    assert !IsSpace(input[|input| - 1]);
    assert Trim(input) == "report.pdf";
  }
}
