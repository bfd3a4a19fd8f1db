/** Intake validation: which dropped or browsed files the widget accepts for
    upload, and the notice it raises for each one it turns away. */
module Intake {
  import opened Seqs
  import opened Notices

  /** A file offered to the widget, as the browser describes it. */
  datatype CandidateFile = CandidateFile(name: string, size: nat, mediaType: string)

  /** 100 MiB, the largest size accepted. */
  const MaxSize: nat := 100 * 1024 * 1024

  /** The media type of a modern Word document
      ("application/vnd.openxmlformats-officedocument.wordprocessingml.document").
      It is written as a concatenation of short pieces because the verifier
      reasons about the characters of a few short literals far more cheaply
      than about those of one 71-character literal (see `Records.DocxIcon`). */
  const DocxType: string :=
    "application/vnd." + "openxmlformats-" + "officedocument." + "wordprocessingml." + "document"

  /** The nine media types accepted, in the order the widget lists them. */
  const AllowedTypes: seq<string> := [
    "image/jpeg", "image/png", "image/gif", "image/webp",
    "application/pdf", "text/plain", "application/zip",
    "application/msword", DocxType
  ]

  /** The outcome of validating one file: accepted, or rejected with the
      notice that is raised for it. */
  datatype Verdict = Accepted | Rejected(notice: Notice)

  /** `validateFile`: the size rule first, then the type rule. A file is
      accepted exactly when both rules pass; an oversized file is reported as
      too large whatever its type, and only a file within the size limit can be
      reported for its type. */
  function Validate(f: CandidateFile): (v: Verdict)
    ensures v.Accepted? <==> f.size <= MaxSize && f.mediaType in AllowedTypes
    ensures v.Rejected? ==> IsError(v.notice)
    ensures v.Rejected? && v.notice.TooLarge? <==> f.size > MaxSize
    ensures v.Rejected? && v.notice.TooLarge? ==> v.notice.fileName == f.name
    ensures v.Rejected? && v.notice.UnsupportedType? ==> v.notice.mediaType == f.mediaType
    ensures f.size > MaxSize ==> v == Rejected(TooLarge(f.name))
    ensures f.size <= MaxSize && f.mediaType !in AllowedTypes ==> v == Rejected(UnsupportedType(f.mediaType))
  {
    if f.size > MaxSize then Rejected(TooLarge(f.name))
    else if f.mediaType !in AllowedTypes then Rejected(UnsupportedType(f.mediaType))
    else Accepted
  }

  predicate IsValid(f: CandidateFile)
  {
    Validate(f).Accepted?
  }

  /** The size limit is inclusive: exactly 100 MiB passes the size rule, one
      byte more fails it, and then the type is not looked at. */
  lemma SizeBoundary(name: string, mediaType: string)
    ensures mediaType in AllowedTypes ==>
              Validate(CandidateFile(name, 104857600, mediaType)) == Accepted
    ensures Validate(CandidateFile(name, 104857601, mediaType)) == Rejected(TooLarge(name))
  {
  }

  /** An allowed type passes and an unlisted one is reported by its type. */
  lemma TypeExamples(name: string)
    ensures Validate(CandidateFile(name, 0, "image/png")) == Accepted
    ensures Validate(CandidateFile(name, 0, "application/x-msdownload")) ==
            Rejected(UnsupportedType("application/x-msdownload"))
  {
    assert AllowedTypes[1] == "image/png";
  }

  /** `Array.from(fileList).filter(validateFile)`: the accepted files of a
      batch, in batch order. */
  function ValidFiles(batch: seq<CandidateFile>): seq<CandidateFile>
  {
    if batch == [] then []
    else (if IsValid(batch[0]) then [batch[0]] else []) + ValidFiles(batch[1..])
  }

  /** The notices raised while filtering a batch: one per rejected file, in
      batch order. */
  function Rejections(batch: seq<CandidateFile>): seq<Notice>
  {
    if batch == [] then []
    else (match Validate(batch[0])
          case Accepted => []
          case Rejected(n) => [n]) + Rejections(batch[1..])
  }

  /** The files of a batch that `validateFile` turns away, in batch order. */
  function RejectedFiles(batch: seq<CandidateFile>): seq<CandidateFile>
  {
    if batch == [] then []
    else (if IsValid(batch[0]) then [] else [batch[0]]) + RejectedFiles(batch[1..])
  }

  /** The accepted files keep their batch order. */
  lemma {:induction false} ValidFilesOrdered(batch: seq<CandidateFile>)
    ensures IsSubsequence(ValidFiles(batch), batch)
  {
    if batch != [] {
      var rest := batch[1..];
      ValidFilesOrdered(rest);
      assert batch == [batch[0]] + rest;
      SubsequenceCons(batch[0], ValidFiles(rest), rest);
      if IsValid(batch[0]) {
        assert ValidFiles(batch) == [batch[0]] + ValidFiles(rest);
      } else {
        assert ValidFiles(batch) == ValidFiles(rest);
      }
    }
  }

  /** Every valid file of a batch is kept, as many times as the batch holds
      it, and no other file is. */
  lemma {:induction false} ValidFilesCount(batch: seq<CandidateFile>)
    ensures forall f :: multiset(ValidFiles(batch))[f] ==
                        if IsValid(f) then multiset(batch)[f] else 0
  {
    if batch != [] {
      var rest := batch[1..];
      ValidFilesCount(rest);
      assert batch == [batch[0]] + rest;
      var keep := if IsValid(batch[0]) then [batch[0]] else [];
      assert multiset(ValidFiles(batch)) == multiset(keep) + multiset(ValidFiles(rest));
      assert multiset(batch) == multiset{batch[0]} + multiset(rest);
    }
  }

  /** A file is among the accepted ones exactly when it is in the batch and
      valid. */
  lemma ValidFilesMembers(batch: seq<CandidateFile>)
    ensures forall f :: f in ValidFiles(batch) <==> f in batch && IsValid(f)
  {
    ValidFilesCount(batch);
    forall f ensures f in ValidFiles(batch) <==> f in batch && IsValid(f) {
      assert f in ValidFiles(batch) <==> multiset(ValidFiles(batch))[f] > 0;
      assert f in batch <==> multiset(batch)[f] > 0;
    }
  }

  /** Every file of the batch is either kept or reported, never both and
      never neither, and every report is an error notice. */
  lemma {:induction false} RejectionsSpec(batch: seq<CandidateFile>)
    ensures |ValidFiles(batch)| + |Rejections(batch)| == |batch|
    ensures forall n :: n in Rejections(batch) ==> IsError(n)
  {
    if batch != [] {
      RejectionsSpec(batch[1..]);
    }
  }

  /** The k-th notice raised while filtering is the one `validateFile` gives
      the k-th rejected file: which rule it broke, with that file's name or
      type. */
  lemma {:induction false} RejectionsMatch(batch: seq<CandidateFile>)
    ensures |Rejections(batch)| == |RejectedFiles(batch)|
    ensures forall k :: 0 <= k < |Rejections(batch)| ==>
              Validate(RejectedFiles(batch)[k]) == Rejected(Rejections(batch)[k])
  {
    if batch != [] {
      var rest := batch[1..];
      RejectionsMatch(rest);
      if IsValid(batch[0]) {
        assert Rejections(batch) == Rejections(rest);
        assert RejectedFiles(batch) == RejectedFiles(rest);
      } else {
        assert Rejections(batch) == [Validate(batch[0]).notice] + Rejections(rest);
        assert RejectedFiles(batch) == [batch[0]] + RejectedFiles(rest);
      }
    }
  }

  /** The rejected files keep their batch order. */
  lemma {:induction false} RejectedFilesOrdered(batch: seq<CandidateFile>)
    ensures IsSubsequence(RejectedFiles(batch), batch)
  {
    if batch != [] {
      var rest := batch[1..];
      RejectedFilesOrdered(rest);
      assert batch == [batch[0]] + rest;
      SubsequenceCons(batch[0], RejectedFiles(rest), rest);
      if IsValid(batch[0]) {
        assert RejectedFiles(batch) == RejectedFiles(rest);
      } else {
        assert RejectedFiles(batch) == [batch[0]] + RejectedFiles(rest);
      }
    }
  }

  /** Every invalid file of a batch is reported, as many times as the batch
      holds it, and no valid file is. */
  lemma {:induction false} RejectedFilesCount(batch: seq<CandidateFile>)
    ensures forall f :: multiset(RejectedFiles(batch))[f] ==
                        if IsValid(f) then 0 else multiset(batch)[f]
  {
    if batch != [] {
      var rest := batch[1..];
      RejectedFilesCount(rest);
      assert batch == [batch[0]] + rest;
      var drop := if IsValid(batch[0]) then [] else [batch[0]];
      assert multiset(RejectedFiles(batch)) == multiset(drop) + multiset(RejectedFiles(rest));
      assert multiset(batch) == multiset{batch[0]} + multiset(rest);
    }
  }

  /** A batch with no valid file yields no file to upload, and one notice per
      file. */
  lemma {:induction false} AllRejected(batch: seq<CandidateFile>)
    requires forall f :: f in batch ==> !IsValid(f)
    ensures ValidFiles(batch) == []
    ensures |Rejections(batch)| == |batch|
  {
    if batch != [] {
      assert forall f :: f in batch[1..] ==> f in batch;
      AllRejected(batch[1..]);
    }
  }
}
