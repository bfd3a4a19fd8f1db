/** Catalog records: what the widget stores for each uploaded file, how a
    record is built from an accepted file, and which icon a record shows. */
module Records {
  import opened Wrappers
  import opened Text
  import opened Intake

  /** A record id. The widget computes `Date.now() + Math.random()`, a
      non-integral number; the model receives it from outside. */
  type Id = real

  /** An object URL for the file's content, opaque to the model. */
  type Handle = string

  /** The values a record takes from its environment when it is built: its
      id, its timestamp in milliseconds and the two object URLs. */
  datatype Stamp = Stamp(id: Id, time: int, url: Handle, preview: Handle)

  /** One entry of the catalog. */
  datatype FileRecord = FileRecord(
    id: Id,
    name: string,
    size: nat,
    mediaType: string,
    uploadedAt: int,
    url: Handle,
    thumbnail: Option<Handle>)

  /** The record built for an accepted file: name, size and type come from
      the file, id, time and content URL from the stamp, and a preview URL is
      kept exactly for image types. */
  function MakeRecord(f: CandidateFile, st: Stamp): (r: FileRecord)
    ensures r.id == st.id && r.uploadedAt == st.time && r.url == st.url
    ensures r.name == f.name && r.size == f.size && r.mediaType == f.mediaType
    ensures r.thumbnail.Some? <==> StartsWith(f.mediaType, "image/")
    ensures r.thumbnail.Some? ==> r.thumbnail.value == st.preview
  {
    FileRecord(st.id, f.name, f.size, f.mediaType, st.time, st.url,
               if StartsWith(f.mediaType, "image/") then Some(st.preview) else None)
  }

  /** The icon names the widget can pick. */
  datatype Icon = Image | FileText | Archive | File

  /** `getFileIcon`: the first matching test wins, in the order image prefix,
      "pdf", "zip", "word". */
  function IconFor(mediaType: string): (icon: Icon)
    ensures icon == Image <==> StartsWith(mediaType, "image/")
    ensures icon == Archive <==>
              !StartsWith(mediaType, "image/") && !Contains(mediaType, "pdf") &&
              Contains(mediaType, "zip")
    ensures icon == File <==>
              !StartsWith(mediaType, "image/") && !Contains(mediaType, "pdf") &&
              !Contains(mediaType, "zip") && !Contains(mediaType, "word")
  {
    if StartsWith(mediaType, "image/") then Image
    else if Contains(mediaType, "pdf") then FileText
    else if Contains(mediaType, "zip") then Archive
    else if Contains(mediaType, "word") then FileText
    else File
  }

  /** A record has a preview exactly when its icon is the image icon. */
  lemma PreviewIffImageIcon(f: CandidateFile, st: Stamp)
    ensures MakeRecord(f, st).thumbnail.Some? <==> IconFor(MakeRecord(f, st).mediaType) == Image
  {
  }

  lemma PdfIcon(t: string)
    requires t == "application/pdf"
    ensures IconFor(t) == FileText
  {
    assert t[0] == 'a';
    ContainsAt(t, "pdf", 12);
  }

  lemma PlainTextIcon(t: string)
    requires t == "text/plain"
    ensures IconFor(t) == File
  {
    assert t[0] == 't';
    MissingCharNotContained(t, "pdf", 1);
    MissingCharNotContained(t, "zip", 0);
    MissingCharNotContained(t, "word", 0);
  }

  lemma ZipIcon(t: string)
    requires t == "application/zip"
    ensures IconFor(t) == Archive
  {
    assert t[0] == 'a';
    MissingCharNotContained(t, "pdf", 1);
    ContainsAt(t, "zip", 12);
  }

  /** The legacy Word type contains "word" and no "zip", so it shows the
      text icon whether or not it contains "pdf". */
  lemma MsWordIcon(t: string)
    requires t == "application/msword"
    ensures IconFor(t) == FileText
  {
    assert t[0] == 'a';
    MissingCharNotContained(t, "zip", 0);
    assert t[14..18] == "word";
    ContainsAt(t, "word", 14);
  }

  /** So does the modern Word type. */
  lemma DocxIcon(t: string)
    requires t == DocxType
    ensures IconFor(t) == FileText
  {
    assert t[0] == 'a';
    assert 'z' !in "application/vnd." && 'z' !in "openxmlformats-" && 'z' !in "officedocument.";
    assert 'z' !in "wordprocessingml." && 'z' !in "document";
    MissingCharNotContained(t, "zip", 0);
    assert t[46..50] == "word";
    ContainsAt(t, "word", 46);
  }

  /** The icon of every accepted media type: the four image types show the
      image icon, ZIP the archive icon, plain text the generic icon, and PDF
      and both Word formats the text icon. */
  lemma AllowedTypeIcons(t: string)
    requires t in AllowedTypes
    ensures IconFor(t) ==
            if t in AllowedTypes[..4] then Image
            else if t == "application/zip" then Archive
            else if t == "text/plain" then File
            else FileText
  {
    var k :| 0 <= k < 9 && AllowedTypes[k] == t;
    if k < 4 {
      assert t[..6] == "image/";
    } else if k == 4 {
      PdfIcon(t);
    } else if k == 5 {
      PlainTextIcon(t);
    } else if k == 6 {
      ZipIcon(t);
    } else if k == 7 {
      MsWordIcon(t);
    } else {
      DocxIcon(t);
    }
  }
}
