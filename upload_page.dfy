/** The multipage-app upload page pages/upload_page.py. Uploads and sample
    pictures are appended unless an identical entry (same name, temp path,
    type and size) is present, a captured frame always; the Remove button of
    row `i` pops position `i`. Temp-file paths and file sizes are parameters. */
module UploadPage {
  import opened Wrappers
  import opened MediaList
  import opened Session

  /** `handle_file_upload`: `files[i]` is the entry built for the i-th
      uploaded file. Nothing happens when no file was uploaded. */
  method HandleFileUpload(s: State, files: seq<MediaFile>)
    modifies s`uploadedMedia
    ensures files == [] ==> s.uploadedMedia == old(s.uploadedMedia)
    ensures files != [] ==> s.uploadedMedia == Some(AppendBatch(ByRecord, old(s.uploadedMedia).GetOr([]), files))
  {
    if files != [] {
      AppendEach(s, ByRecord, files);
    }
  }

  /** `handle_sample_images` for the labels picked in the multiselect. */
  method HandleSampleImages(s: State, selected: seq<string>, paths: seq<string>, sizes: seq<int>)
    requires |paths| == |selected| && |sizes| == |selected|
    modifies s`uploadedMedia
    ensures selected == [] ==> s.uploadedMedia == old(s.uploadedMedia)
    ensures selected != [] ==>
              s.uploadedMedia == Some(AppendBatch(ByRecord, old(s.uploadedMedia).GetOr([]), SampleEntries(selected, paths, sizes)))
  {
    if selected != [] {
      AppendEach(s, ByRecord, SampleEntries(selected, paths, sizes));
    }
  }

  /** The Remove button of row `i`: `uploaded_media.pop(i)`. The rows are
      drawn from the list, so `i` is a position in it. */
  method RemoveAtIndex(s: State, i: nat)
    requires s.uploadedMedia.Some? && i < |s.uploadedMedia.value|
    modifies s`uploadedMedia
    ensures s.uploadedMedia == Some(RemoveAt(old(s.uploadedMedia).value, i))
    ensures |s.uploadedMedia.value| == |old(s.uploadedMedia).value| - 1
  {
    RemoveAtSpec(s.uploadedMedia.value, i);
    s.uploadedMedia := Some(RemoveAt(s.uploadedMedia.value, i));
  }

  /** "Capture Frame": the frame is appended without a duplicate check,
      the list being created first when absent. */
  method CaptureFrame(s: State, path: string, size: int)
    modifies s`uploadedMedia
    ensures s.uploadedMedia == Some(old(s.uploadedMedia).GetOr([]) + [MediaFile("captured_frame.jpg", path, "image/jpeg", size)])
  {
    var fileInfo := MediaFile("captured_frame.jpg", path, "image/jpeg", size);
    if s.uploadedMedia.None? {
      s.uploadedMedia := Some([]);
    }
    s.uploadedMedia := Some(s.uploadedMedia.value + [fileInfo]);
  }
}
