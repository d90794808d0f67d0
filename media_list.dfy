/** The list `st.session_state.uploaded_media` that the three upload pages
    maintain, and the list operations they apply to it. The pages differ in
    the rule that decides whether a new entry duplicates an old one; each
    rule is a `DedupRule` here, and the pages' loops (in their own modules)
    are proved against `AppendBatch`. */
module MediaList {
  import opened Text

  /** One entry of the list: the dict `{'name', 'path', 'type', 'size'}`. */
  datatype MediaFile = MediaFile(name: string, path: string, mimeType: string, size: int)

  /** When is a new entry a duplicate of an existing one? */
  datatype DedupRule =
    | ByRecord       // the whole dict is equal (`file_info not in uploaded_media`)
    | ByNameAndSize  // same name and same size
    | ByName         // same name

  predicate Same(rule: DedupRule, a: MediaFile, b: MediaFile) {
    match rule
    case ByRecord => a == b
    case ByNameAndSize => a.name == b.name && a.size == b.size
    case ByName => a.name == b.name
  }

  /** Some entry of `media` duplicates `rec` under `rule` (the `any(...)` scan). */
  predicate Present(rule: DedupRule, media: seq<MediaFile>, rec: MediaFile) {
    exists k :: 0 <= k < |media| && Same(rule, media[k], rec)
  }

  /** No two entries of `media` duplicate each other under `rule`. */
  predicate NoDuplicates(rule: DedupRule, media: seq<MediaFile>) {
    forall i, j :: 0 <= i < j < |media| ==> !Same(rule, media[i], media[j])
  }

  /** The `any(...)` scan over the list: is some entry a duplicate of `rec`? */
  method AnyDuplicate(rule: DedupRule, media: seq<MediaFile>, rec: MediaFile) returns (found: bool)
    ensures found <==> Present(rule, media, rec)
  {
    found := false;
    var k := 0;
    while k < |media| && !found
      invariant 0 <= k <= |media|
      invariant found <==> exists j :: 0 <= j < k && Same(rule, media[j], rec)
    {
      found := Same(rule, media[k], rec);
      k := k + 1;
    }
  }

  /** One step of an upload loop: append `rec` unless it is already present. */
  function AppendUnlessPresent(rule: DedupRule, media: seq<MediaFile>, rec: MediaFile): seq<MediaFile> {
    if Present(rule, media, rec) then media else media + [rec]
  }

  /** A whole upload loop: the records of a batch, in order, each checked
      against the list as it stands after the previous ones. */
  function AppendBatch(rule: DedupRule, media: seq<MediaFile>, recs: seq<MediaFile>): seq<MediaFile>
    decreases |recs|
  {
    if recs == [] then media
    else AppendUnlessPresent(rule, AppendBatch(rule, media, recs[..|recs| - 1]), recs[|recs| - 1])
  }

  /** An upload never reorders or alters existing entries: the old list is a
      prefix of the new one, and every added entry comes from the batch. */
  lemma {:induction false} AppendBatchExtends(rule: DedupRule, media: seq<MediaFile>, recs: seq<MediaFile>)
    ensures var r := AppendBatch(rule, media, recs);
            media <= r && |r| <= |media| + |recs| &&
            forall k :: |media| <= k < |r| ==> r[k] in recs
  {
    if recs != [] {
      var init := recs[..|recs| - 1];
      AppendBatchExtends(rule, media, init);
      var r := AppendBatch(rule, media, recs);
      forall k | |media| <= k < |r|
        ensures r[k] in recs
      {
        if k < |AppendBatch(rule, media, init)| {
          assert r[k] in init;
        }
      }
    }
  }

  /** If the list had no duplicates before a batch, it has none after,
      including among the records of the batch itself. */
  lemma {:induction false} AppendBatchNoDuplicates(rule: DedupRule, media: seq<MediaFile>, recs: seq<MediaFile>)
    requires NoDuplicates(rule, media)
    ensures NoDuplicates(rule, AppendBatch(rule, media, recs))
  {
    if recs != [] {
      AppendBatchNoDuplicates(rule, media, recs[..|recs| - 1]);
    }
  }

  /** After a batch, every record of the batch is represented in the list:
      either it was appended or a duplicate of it was already there. */
  lemma {:induction false} AppendBatchCovers(rule: DedupRule, media: seq<MediaFile>, recs: seq<MediaFile>)
    ensures forall i :: 0 <= i < |recs| ==> Present(rule, AppendBatch(rule, media, recs), recs[i])
  {
    if recs != [] {
      var init := recs[..|recs| - 1];
      var before := AppendBatch(rule, media, init);
      var r := AppendBatch(rule, media, recs);
      AppendBatchCovers(rule, media, init);
      assert before <= r;
      forall i | 0 <= i < |recs|
        ensures Present(rule, r, recs[i])
      {
        if i < |init| {
          assert Present(rule, before, init[i]);
          var k :| 0 <= k < |before| && Same(rule, before[k], init[i]);
          assert r[k] == before[k];
        } else if !Present(rule, before, recs[i]) {
          assert r[|r| - 1] == recs[i];
        }
      }
    }
  }

  /** A batch with no duplicate among itself or with the list is appended whole. */
  lemma {:induction false} AppendBatchAllNew(rule: DedupRule, media: seq<MediaFile>, recs: seq<MediaFile>)
    requires NoDuplicates(rule, media + recs)
    ensures AppendBatch(rule, media, recs) == media + recs
  {
    if recs != [] {
      var init := recs[..|recs| - 1];
      var last := recs[|recs| - 1];
      assert media + recs == (media + init) + [last];
      assert NoDuplicates(rule, media + init) by {
        forall i, j | 0 <= i < j < |media + init|
          ensures !Same(rule, (media + init)[i], (media + init)[j])
        {
          assert (media + init)[i] == (media + recs)[i];
          assert (media + init)[j] == (media + recs)[j];
        }
      }
      AppendBatchAllNew(rule, media, init);
      assert !Present(rule, media + init, last) by {
        forall k | 0 <= k < |media + init|
          ensures !Same(rule, (media + init)[k], last)
        {
          assert (media + recs)[k] == (media + init)[k];
          assert (media + recs)[|media + recs| - 1] == last;
        }
      }
    }
  }

  /** Records with names new to the list and to each other are all added. */
  lemma AppendBatchNewNames(media: seq<MediaFile>, recs: seq<MediaFile>)
    requires NoDuplicates(ByName, media)
    requires forall i, j :: 0 <= i < j < |recs| ==> recs[i].name != recs[j].name
    requires forall k, i :: 0 <= k < |media| && 0 <= i < |recs| ==> media[k].name != recs[i].name
    ensures AppendBatch(ByName, media, recs) == media + recs
  {
    var all := media + recs;
    forall i, j | 0 <= i < j < |all|
      ensures !Same(ByName, all[i], all[j])
    {
      if j >= |media| {
        assert all[j] == recs[j - |media|];
        if i >= |media| {
          assert all[i] == recs[i - |media|];
        }
      }
    }
    AppendBatchAllNew(ByName, media, recs);
  }

  /** Under the whole-record rule an entry with a temp path no other entry
      has is never a duplicate: with fresh paths every record of a batch is
      appended, even a file uploaded again under the same name and size. */
  lemma AppendBatchFreshPaths(media: seq<MediaFile>, recs: seq<MediaFile>)
    requires NoDuplicates(ByRecord, media)
    requires forall i, j :: 0 <= i < j < |recs| ==> recs[i].path != recs[j].path
    requires forall k, i :: 0 <= k < |media| && 0 <= i < |recs| ==> media[k].path != recs[i].path
    ensures AppendBatch(ByRecord, media, recs) == media + recs
  {
    var all := media + recs;
    forall i, j | 0 <= i < j < |all|
      ensures all[i] != all[j]
    {
      if j >= |media| {
        assert all[j] == recs[j - |media|];
        if i >= |media| {
          assert all[i] == recs[i - |media|];
        }
      }
    }
    AppendBatchAllNew(ByRecord, media, recs);
  }

  /** `media.pop(i)`: everything but position `i`, in order. */
  function RemoveAt(media: seq<MediaFile>, i: nat): seq<MediaFile>
    requires i < |media|
  {
    media[..i] + media[i + 1..]
  }

  /** `pop(i)` deletes exactly element `i` and keeps the relative order of the rest. */
  lemma RemoveAtSpec(media: seq<MediaFile>, i: nat)
    requires i < |media|
    ensures var r := RemoveAt(media, i);
            |r| == |media| - 1 &&
            (forall j :: 0 <= j < i ==> r[j] == media[j]) &&
            (forall j :: i <= j < |r| ==> r[j] == media[j + 1]) &&
            multiset(r) + multiset{media[i]} == multiset(media)
  {
    assert media == media[..i] + [media[i]] + media[i + 1..];
  }

  /** Position of the first entry equal to `rec`. */
  function IndexOf(media: seq<MediaFile>, rec: MediaFile): (k: nat)
    requires rec in media
    ensures k < |media| && media[k] == rec
    ensures forall j :: 0 <= j < k ==> media[j] != rec
  {
    if media[0] == rec then 0 else 1 + IndexOf(media[1..], rec)
  }

  /** `media.remove(rec)`: drop the first entry equal to `rec`. */
  function RemoveFirst(media: seq<MediaFile>, rec: MediaFile): seq<MediaFile> {
    if media == [] then []
    else if media[0] == rec then media[1..]
    else [media[0]] + RemoveFirst(media[1..], rec)
  }

  /** `remove` leaves the list as it is when no entry equals `rec`, and
      otherwise deletes exactly the first equal entry. */
  lemma RemoveFirstSpec(media: seq<MediaFile>, rec: MediaFile)
    ensures rec !in media ==> RemoveFirst(media, rec) == media
    ensures rec in media ==> RemoveFirst(media, rec) == RemoveAt(media, IndexOf(media, rec))
  {
    if rec in media {
      RemoveFirstPresent(media, rec);
    } else {
      RemoveFirstAbsent(media, rec);
    }
  }

  lemma {:induction false} RemoveFirstAbsent(media: seq<MediaFile>, rec: MediaFile)
    requires rec !in media
    ensures RemoveFirst(media, rec) == media
  {
    if media != [] {
      assert media[0] != rec;
      assert rec !in media[1..];
      RemoveFirstAbsent(media[1..], rec);
      assert media == [media[0]] + media[1..];
    }
  }

  lemma {:induction false} RemoveFirstPresent(media: seq<MediaFile>, rec: MediaFile)
    requires rec in media
    ensures RemoveFirst(media, rec) == RemoveAt(media, IndexOf(media, rec))
  {
    if media[0] != rec {
      var head, tail := media[0], media[1..];
      assert rec in tail;
      RemoveFirstPresent(tail, rec);
      var k := IndexOf(tail, rec);
      var before, after := tail[..k], tail[k + 1..];
      assert IndexOf(media, rec) == k + 1;
      assert RemoveFirst(media, rec) == [head] + (before + after);
      assert media[..k + 1] == [head] + before;
      assert media[k + 2..] == after;
      assert [head] + (before + after) == ([head] + before) + after;
    }
  }

  /** The four sample pictures offered by the "Sample Images" option. */
  const SampleLabels: seq<string> := ["Bridge Crack", "Power Line Corrosion", "Building Damage", "Road Surface"]

  /** File name of a sample picture: `title.lower().replace(' ', '_') + ".jpg"`. */
  function SampleName(title: string): string {
    ReplaceChar(Lower(title), ' ', '_') + ".jpg"
  }

  /** A sample file name is lower case, has no spaces and ends in ".jpg". */
  lemma SampleNameShape(title: string)
    ensures var n := SampleName(title);
            |n| >= 4 && n[|n| - 4..] == ".jpg" && ' ' !in n && Lower(n) == n
  {
    var n := SampleName(title);
    assert n[|n| - 4..] == ".jpg";
    assert forall c :: c in ".jpg" ==> c != ' ';
    assert Lower(n) == n by {
      forall i | 0 <= i < |n| ensures Lower(n)[i] == n[i] {
        if i < |title| {
          assert n[i] == ReplaceChar(Lower(title), ' ', '_')[i];
        }
      }
    }
  }

  /** Character `k` of a sample name is character `k` of the label, lower-cased,
      with a space turned into `_`. */
  lemma SampleNameAt(title: string, k: nat)
    requires k < |title|
    ensures SampleName(title)[k] == if LowerChar(title[k]) == ' ' then '_' else LowerChar(title[k])
  {
  }

  /** The four sample labels name four different files, so the name rule
      lets all four be added. */
  lemma SampleNamesDistinct()
    ensures forall i, j :: 0 <= i < j < |SampleLabels| ==> SampleName(SampleLabels[i]) != SampleName(SampleLabels[j])
  {
    var n := seq(4, i requires 0 <= i < 4 => SampleName(SampleLabels[i]));
    SampleNameAt(SampleLabels[0], 0);
    SampleNameAt(SampleLabels[1], 0);
    SampleNameAt(SampleLabels[2], 0);
    SampleNameAt(SampleLabels[3], 0);
    SampleNameAt(SampleLabels[0], 1);
    SampleNameAt(SampleLabels[2], 1);
    assert n[0][0] == 'b' && n[1][0] == 'p' && n[2][0] == 'b' && n[3][0] == 'r';
    assert n[0][1] == 'r' && n[2][1] == 'u';
  }

  /** The entries the sample handlers build for the picked labels: derived
      name, temp path, "image/jpeg", and the size of the saved file. */
  function SampleEntries(selected: seq<string>, paths: seq<string>, sizes: seq<int>): (r: seq<MediaFile>)
    requires |paths| == |selected| && |sizes| == |selected|
    ensures |r| == |selected|
    ensures forall i :: 0 <= i < |r| ==>
              r[i].name == SampleName(selected[i]) && r[i].path == paths[i] && r[i].mimeType == "image/jpeg" &&
              r[i].size == sizes[i]
  {
    seq(|selected|, i requires 0 <= i < |selected| => MediaFile(SampleName(selected[i]), paths[i], "image/jpeg", sizes[i]))
  }

  /** Sharpness label from the Laplacian-variance blur score. */
  function BlurQuality(score: real): string {
    if score > 100.0 then "Good" else if score > 50.0 then "OK" else "Blurry"
  }

  function QualityRank(quality: string): int {
    if quality == "Good" then 2 else if quality == "OK" then 1 else 0
  }

  /** The label boundaries: a score of exactly 100 is "OK", exactly 50 is
      "Blurry", anything above 100 is "Good". */
  lemma BlurQualityThresholds(score: real)
    ensures BlurQuality(score) == "Good" <==> score > 100.0
    ensures BlurQuality(score) == "OK" <==> 50.0 < score <= 100.0
    ensures BlurQuality(score) == "Blurry" <==> score <= 50.0
  {
  }

  /** A sharper image (higher score) never gets a worse label, and every
      score gets one of the three labels. */
  lemma BlurQualityMonotone(a: real, b: real)
    requires a <= b
    ensures QualityRank(BlurQuality(a)) <= QualityRank(BlurQuality(b))
    ensures BlurQuality(a) in {"Good", "OK", "Blurry"}
  {
  }
}
