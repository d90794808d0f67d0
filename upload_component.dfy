/** The upload page of components/upload_page.py: uploaded files are added
    unless an entry with the same name and size is present, sample pictures
    unless an entry with the same name is present, a captured frame always;
    the Remove button drops the first equal entry. Temp-file paths and file
    sizes, which the page obtains from the file system, are parameters. */
module UploadComponent {
  import opened Wrappers
  import opened MediaList
  import opened Session

  /** `handle_file_upload`: `files[i]` is the entry the page would build for
      the i-th uploaded file (its name, temp path, MIME type and size).
      Nothing happens when no file was uploaded. */
  method HandleFileUpload(s: State, files: seq<MediaFile>)
    modifies s`uploadedMedia
    ensures files == [] ==> s.uploadedMedia == old(s.uploadedMedia)
    ensures files != [] ==> s.uploadedMedia == Some(AppendBatch(ByNameAndSize, old(s.uploadedMedia).GetOr([]), files))
  {
    if files != [] {
      AppendEach(s, ByNameAndSize, files);
    }
  }

  /** `handle_sample_images` for the labels picked in the multiselect. */
  method HandleSampleImages(s: State, selected: seq<string>, paths: seq<string>, sizes: seq<int>)
    requires |paths| == |selected| && |sizes| == |selected|
    modifies s`uploadedMedia
    ensures selected == [] ==> s.uploadedMedia == old(s.uploadedMedia)
    ensures selected != [] ==>
              s.uploadedMedia == Some(AppendBatch(ByName, old(s.uploadedMedia).GetOr([]), SampleEntries(selected, paths, sizes)))
  {
    if selected != [] {
      AppendEach(s, ByName, SampleEntries(selected, paths, sizes));
    }
  }

  /** Different sample labels give different file names. */
  lemma SampleLabelNamesDistinct(l1: string, l2: string)
    requires l1 in SampleLabels && l2 in SampleLabels && l1 != l2
    ensures SampleName(l1) != SampleName(l2)
  {
    SampleNamesDistinct();
    var a :| 0 <= a < |SampleLabels| && SampleLabels[a] == l1;
    var b :| 0 <= b < |SampleLabels| && SampleLabels[b] == l2;
    if a > b {
      assert SampleName(SampleLabels[b]) != SampleName(SampleLabels[a]);
    } else {
      assert SampleName(SampleLabels[a]) != SampleName(SampleLabels[b]);
    }
  }

  /** Different sample labels picked into a list that holds none of their
      names are all added, in the order picked. */
  lemma SamplesAllAdded(media: seq<MediaFile>, selected: seq<string>, paths: seq<string>, sizes: seq<int>)
    requires forall i :: 0 <= i < |selected| ==> selected[i] in SampleLabels
    requires forall i, j :: 0 <= i < j < |selected| ==> selected[i] != selected[j]
    requires |paths| == |selected| && |sizes| == |selected|
    requires NoDuplicates(ByName, media)
    requires forall k, i :: 0 <= k < |media| && 0 <= i < |selected| ==> media[k].name != SampleName(selected[i])
    ensures AppendBatch(ByName, media, SampleEntries(selected, paths, sizes)) ==
              media + SampleEntries(selected, paths, sizes)
  {
    var recs := SampleEntries(selected, paths, sizes);
    forall i, j | 0 <= i < j < |recs|
      ensures recs[i].name != recs[j].name
    {
      SampleLabelNamesDistinct(selected[i], selected[j]);
    }
    forall k, i | 0 <= k < |media| && 0 <= i < |recs|
      ensures media[k].name != recs[i].name
    {
    }
    AppendBatchNewNames(media, recs);
  }

  /** The Remove button next to `rec`: `list.remove(rec)` when an equal
      entry is present; without a list nothing is shown, so nothing changes. */
  method RemoveFile(s: State, rec: MediaFile)
    modifies s`uploadedMedia
    ensures old(s.uploadedMedia).None? ==> s.uploadedMedia == None
    ensures old(s.uploadedMedia).Some? ==> s.uploadedMedia == Some(RemoveFirst(old(s.uploadedMedia).value, rec))
  {
    if s.uploadedMedia.Some? {
      var media := s.uploadedMedia.value;
      RemoveFirstSpec(media, rec);
      if rec in media {
        s.uploadedMedia := Some(RemoveFirst(media, rec));
      }
    }
  }

  /** "Capture Frame" in the camera simulator: the frame is appended
      without any duplicate check. */
  method CaptureFrame(s: State, path: string, size: int)
    modifies s`uploadedMedia
    ensures s.uploadedMedia == Some(old(s.uploadedMedia).GetOr([]) + [MediaFile("captured_frame.jpg", path, "image/jpeg", size)])
  {
    if s.uploadedMedia.None? {
      s.uploadedMedia := Some([]);
    }
    s.uploadedMedia := Some(s.uploadedMedia.value + [MediaFile("captured_frame.jpg", path, "image/jpeg", size)]);
  }

  /** Two captures leave two entries named "captured_frame.jpg": unlike the
      other two ways in, capturing does not keep names unique. */
  lemma CaptureTwiceDuplicatesName(media: seq<MediaFile>, p1: string, s1: int, p2: string, s2: int)
    ensures var r := media + [MediaFile("captured_frame.jpg", p1, "image/jpeg", s1)]
                           + [MediaFile("captured_frame.jpg", p2, "image/jpeg", s2)];
            !NoDuplicates(ByName, r)
  {
    var r := media + [MediaFile("captured_frame.jpg", p1, "image/jpeg", s1)]
                   + [MediaFile("captured_frame.jpg", p2, "image/jpeg", s2)];
    assert Same(ByName, r[|r| - 2], r[|r| - 1]);
  }
}
