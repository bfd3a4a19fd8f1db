/** The widget's state and its operations: the `files` list, the notices
    raised, and the search and sort selections from which the rendered view
    is derived. */
module Store {
  import opened Notices
  import opened Intake
  import opened Records
  import opened Edits
  import opened Query

  /** What the world supplies during intake: the stamp (id, time, object
      URLs) taken for the k-th accepted file of a batch, and whether its
      upload succeeds. */
  datatype Env = Env(stamp: nat -> Stamp, succeeds: nat -> bool)

  /** The block of records the first `n` accepted files put in front of the
      list: each successful upload is placed before the ones that finished
      earlier, and a failed one adds nothing. */
  function Newest(valid: seq<CandidateFile>, env: Env, n: nat): seq<FileRecord>
    requires n <= |valid|
  {
    if n == 0 then []
    else (if env.succeeds(n - 1) then [MakeRecord(valid[n - 1], env.stamp(n - 1))] else []) +
         Newest(valid, env, n - 1)
  }

  /** The notices raised by the uploads of the first `n` accepted files, in
      upload order. */
  function UploadNotices(valid: seq<CandidateFile>, env: Env, n: nat): seq<Notice>
    requires n <= |valid|
  {
    if n == 0 then []
    else UploadNotices(valid, env, n - 1) +
         [if env.succeeds(n - 1) then Uploaded(valid[n - 1].name) else UploadFailed(valid[n - 1].name)]
  }

  /** The record the k-th accepted file yields when its upload succeeds. */
  predicate BuiltFrom(valid: seq<CandidateFile>, env: Env, k: int, r: FileRecord)
  {
    0 <= k < |valid| && env.succeeds(k) && r == MakeRecord(valid[k], env.stamp(k))
  }

  /** The indices k < n of the uploads that succeed, in upload order. */
  function Succeeded(env: Env, n: nat): (s: seq<nat>)
    ensures forall j :: 0 <= j < |s| ==> s[j] < n
    ensures forall i, j :: 0 <= i < j < |s| ==> s[i] < s[j]
    ensures forall k :: 0 <= k < n ==> (env.succeeds(k) <==> k in s)
  {
    if n == 0 then []
    else Succeeded(env, n - 1) + (if env.succeeds(n - 1) then [n - 1] else [])
  }

  /** Whatever the outcomes, the new block holds one record per successful
      upload, newest first: its i-th record is built from the i-th last
      upload that succeeded. */
  lemma {:induction false} NewestOrder(valid: seq<CandidateFile>, env: Env, n: nat)
    requires n <= |valid|
    ensures |Newest(valid, env, n)| == |Succeeded(env, n)|
    ensures var s := Succeeded(env, n);
            forall i :: 0 <= i < |s| ==>
              Newest(valid, env, n)[i] == MakeRecord(valid[s[|s| - 1 - i]], env.stamp(s[|s| - 1 - i]))
  {
    if n > 0 {
      NewestOrder(valid, env, n - 1);
      var prev := Succeeded(env, n - 1);
      var s := Succeeded(env, n);
      if env.succeeds(n - 1) {
        assert s == prev + [n - 1];
        var block := Newest(valid, env, n);
        assert block == [MakeRecord(valid[n - 1], env.stamp(n - 1))] + Newest(valid, env, n - 1);
        forall i | 0 <= i < |s|
          ensures block[i] == MakeRecord(valid[s[|s| - 1 - i]], env.stamp(s[|s| - 1 - i]))
        {
          if i > 0 {
            assert s[|s| - 1 - i] == prev[|prev| - 1 - (i - 1)];
          }
        }
      } else {
        assert s == prev;
      }
    }
  }

  /** When every upload succeeds, the new block lists the files in reverse
      upload order: the last file first. */
  lemma {:induction false} NewestAllSucceed(valid: seq<CandidateFile>, env: Env, n: nat)
    requires n <= |valid|
    requires forall k :: 0 <= k < n ==> env.succeeds(k)
    ensures |Newest(valid, env, n)| == n
    ensures forall i :: 0 <= i < n ==>
              Newest(valid, env, n)[i] == MakeRecord(valid[n - 1 - i], env.stamp(n - 1 - i))
  {
    if n > 0 {
      NewestAllSucceed(valid, env, n - 1);
    }
  }

  /** Every new record comes from a successful upload of an accepted file,
      and every successful upload yields a record. */
  lemma {:induction false} NewestSources(valid: seq<CandidateFile>, env: Env, n: nat)
    requires n <= |valid|
    ensures forall r :: r in Newest(valid, env, n) ==>
              exists k :: k < n && BuiltFrom(valid, env, k, r)
    ensures forall k :: 0 <= k < n && env.succeeds(k) ==>
              MakeRecord(valid[k], env.stamp(k)) in Newest(valid, env, n)
  {
    if n > 0 {
      NewestSources(valid, env, n - 1);
      forall r | r in Newest(valid, env, n)
        ensures exists k :: k < n && BuiltFrom(valid, env, k, r)
      {
        if r !in Newest(valid, env, n - 1) {
          assert BuiltFrom(valid, env, n - 1, r);
        }
      }
    }
  }

  /** When no upload succeeds, the list does not change. */
  lemma {:induction false} NewestNoneSucceed(valid: seq<CandidateFile>, env: Env, n: nat)
    requires n <= |valid|
    requires forall k :: 0 <= k < n ==> !env.succeeds(k)
    ensures Newest(valid, env, n) == []
  {
    if n > 0 {
      NewestNoneSucceed(valid, env, n - 1);
    }
  }

  /** One notice per upload, an error exactly when the upload failed. */
  lemma {:induction false} UploadNoticesSpec(valid: seq<CandidateFile>, env: Env, n: nat)
    requires n <= |valid|
    ensures |UploadNotices(valid, env, n)| == n
    ensures forall k :: 0 <= k < n ==>
              UploadNotices(valid, env, n)[k] ==
              if env.succeeds(k) then Uploaded(valid[k].name) else UploadFailed(valid[k].name)
  {
    if n > 0 {
      UploadNoticesSpec(valid, env, n - 1);
    }
  }

  /** Ids stay unique through intake only if the environment hands out ids
      that are new: each successful upload's id differs from every id already
      in the list and from every other successful upload's id. The widget
      itself does not check. */
  lemma {:induction false} IntakeKeepsUnique(valid: seq<CandidateFile>, env: Env, n: nat, files: seq<FileRecord>)
    requires n <= |valid|
    requires UniqueIds(files)
    requires forall k, r :: 0 <= k < n && env.succeeds(k) && r in files ==> r.id != env.stamp(k).id
    requires forall k1, k2 :: 0 <= k1 < k2 < n && env.succeeds(k1) && env.succeeds(k2) ==>
               env.stamp(k1).id != env.stamp(k2).id
    ensures UniqueIds(Newest(valid, env, n) + files)
  {
    if n > 0 {
      IntakeKeepsUnique(valid, env, n - 1, files);
      if env.succeeds(n - 1) {
        var block := Newest(valid, env, n - 1);
        var prev := block + files;
        var r := MakeRecord(valid[n - 1], env.stamp(n - 1));
        NewestSources(valid, env, n - 1);
        forall y | y in prev ensures y.id != r.id {
          if y in block {
            var k :| k < n - 1 && BuiltFrom(valid, env, k, y);
            assert y.id == env.stamp(k).id;
          } else {
            assert y in files;
          }
        }
        var all := [r] + prev;
        assert Newest(valid, env, n) + files == all;
        forall i, j | 0 <= i < j < |all| ensures all[i].id != all[j].id {
          if i == 0 {
            assert all[j] == prev[j - 1];
            assert all[j] in prev;
          } else {
            assert all[i] == prev[i - 1] && all[j] == prev[j - 1];
          }
        }
      } else {
        assert Newest(valid, env, n) == Newest(valid, env, n - 1);
      }
    }
  }

  class Catalog {
    /** The `files` state: newest record first. */
    var files: seq<FileRecord>
    /** Every notice raised so far, oldest first. */
    var log: seq<Notice>
    /** The `searchTerm` and `sortBy` states. */
    var searchTerm: string
    var sortBy: string

    /** The widget's initial state. */
    constructor ()
      ensures files == [] && log == [] && searchTerm == "" && sortBy == "name"
    {
      files, log, searchTerm, sortBy := [], [], "", "name";
    }

    /** `filteredFiles`: the records whose name contains the search term,
        ignoring case, as a permutation sorted by the selected key with ties
        in catalog order. Computing it changes nothing. */
    function FilteredFiles(): (view: seq<FileRecord>)
      reads this
      ensures forall r :: multiset(view)[r] ==
                          if Matches(searchTerm, r) then multiset(files)[r] else 0
      ensures SortedBy(KeyOf(sortBy), view)
      ensures forall x :: Ties(KeyOf(sortBy), view, x) == Ties(KeyOf(sortBy), Filter(files, searchTerm), x)
    {
      ViewSpec(files, searchTerm, sortBy);
      View(files, searchTerm, sortBy)
    }

    method SetSearchTerm(term: string)
      modifies this
      ensures searchTerm == term
      ensures files == old(files) && log == old(log) && sortBy == old(sortBy)
    {
      searchTerm := term;
    }

    method SetSortBy(key: string)
      modifies this
      ensures sortBy == key
      ensures files == old(files) && log == old(log) && searchTerm == old(searchTerm)
    {
      sortBy := key;
    }

    /** `processFiles`: validate the whole batch first (one notice per
        rejected file), stop if nothing is left, then upload the accepted
        files one after another, putting each successful one at the front of
        the list. */
    method ProcessFiles(batch: seq<CandidateFile>, env: Env)
      modifies this
      ensures var valid := ValidFiles(batch);
              files == Newest(valid, env, |valid|) + old(files) &&
              log == old(log) + Rejections(batch) + UploadNotices(valid, env, |valid|)
      ensures searchTerm == old(searchTerm) && sortBy == old(sortBy)
    {
      var valid := ValidFiles(batch);
      log := log + Rejections(batch);
      if |valid| == 0 {
        return;
      }
      ghost var screened, kept := log, files;
      for i := 0 to |valid|
        invariant files == Newest(valid, env, i) + kept
        invariant log == screened + UploadNotices(valid, env, i)
        invariant searchTerm == old(searchTerm) && sortBy == old(sortBy)
      {
        var fileData := MakeRecord(valid[i], env.stamp(i));
        var notice: Notice;
        if env.succeeds(i) {
          files := [fileData] + files;
          notice := Uploaded(valid[i].name);
        } else {
          notice := UploadFailed(valid[i].name);
        }
        log := log + [notice];
        assert UploadNotices(valid, env, i + 1) == UploadNotices(valid, env, i) + [notice];
      }
    }

    /** `deleteFile`: drop every record with the id, and report success
        whether or not one was found. */
    method DeleteFile(id: Id)
      modifies this
      ensures files == Remove(old(files), id)
      ensures log == old(log) + [FileDeleted]
      ensures searchTerm == old(searchTerm) && sortBy == old(sortBy)
    {
      files := Remove(files, id);
      log := log + [FileDeleted];
    }

    /** `renameFile`: give the new name to every record with the id, and
        report success. */
    method RenameFile(id: Id, newName: string)
      modifies this
      ensures files == Rename(old(files), id, newName)
      ensures log == old(log) + [FileRenamed]
      ensures searchTerm == old(searchTerm) && sortBy == old(sortBy)
    {
      files := Rename(files, id, newName);
      log := log + [FileRenamed];
    }

    /** `FileItem.handleRename` for the record `file` as rendered and the
        edited text `input`: rename only when the guard lets it through. */
    method HandleRename(file: FileRecord, input: string)
      modifies this
      ensures RenameRequest(file, input).Some? ==>
                files == Rename(old(files), file.id, RenameRequest(file, input).value) &&
                log == old(log) + [FileRenamed]
      ensures RenameRequest(file, input).None? ==> files == old(files) && log == old(log)
      ensures searchTerm == old(searchTerm) && sortBy == old(sortBy)
    {
      var request := RenameRequest(file, input);
      if request.Some? {
        RenameFile(file.id, request.value);
      }
    }
  }
}
