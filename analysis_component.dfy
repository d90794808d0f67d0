/** The analysis page of components/analysis_page.py: the defect catalogue
    that maps a model and a confidence to a defect type and a severity, the
    placeholder video analysis, the run that appends one result per uploaded
    file, and the severity breakdown of the summary.

    On this page OpenCV is not imported, so reading an image raises an error
    that the per-file handler catches: image files keep an empty detection
    list, and only non-image files get the placeholder video detection. */
module AnalysisComponent {
  import opened Wrappers
  import opened MediaList
  import opened Inspection
  import opened Session

  /** The `type`, `description` and `severity` of an entry of `defect_types`. */
  datatype DefectInfo = DefectInfo(defectType: string, description: string, severity: string)

  /** `get_defect_info(model_name, confidence)`: the catalogue entry of the
      model, with a severity chosen by a fixed confidence threshold; an
      unknown model gets the "Unknown Defect" entry. */
  function GetDefectInfo(model: string, confidence: real): (r: DefectInfo)
    ensures KnownSeverity(r.severity)
  {
    if model == "Crack Detection" then
      DefectInfo("Structural Crack", "Crack detected in structural surface",
                 if confidence > 0.8 then "High" else "Medium")
    else if model == "Corrosion Detection" then
      DefectInfo("Metal Corrosion", "Rust or corrosion detected on metal surface",
                 if confidence > 0.9 then "Critical" else "High")
    else if model == "Thermal Anomaly" then
      DefectInfo("Thermal Hotspot", "Abnormal temperature detected",
                 if confidence > 0.85 then "Critical" else "Medium")
    else if model == "Vegetation Risk" then
      DefectInfo("Vegetation Growth", "Vegetation encroachment detected",
                 if confidence > 0.7 then "Medium" else "Low")
    else if model == "Structural Damage" then
      DefectInfo("Structural Defect", "General structural damage detected",
                 if confidence > 0.8 then "High" else "Medium")
    else
      DefectInfo("Unknown Defect", "Unspecified defect detected", "Medium")
  }

  /** A more confident detection is never rated less severe, and the defect
      type does not depend on the confidence. */
  lemma GetDefectInfoMonotone(model: string, c1: real, c2: real)
    requires c1 <= c2
    ensures SeverityRank(GetDefectInfo(model, c1).severity) <= SeverityRank(GetDefectInfo(model, c2).severity)
    ensures GetDefectInfo(model, c1).defectType == GetDefectInfo(model, c2).defectType
  {
  }

  /** The threshold of each model, as the catalogue states it. */
  lemma GetDefectInfoThresholds(model: string, c: real)
    ensures model == "Crack Detection" || model == "Structural Damage" ==>
              (GetDefectInfo(model, c).severity == "High" <==> c > 0.8) &&
              (GetDefectInfo(model, c).severity == "Medium" <==> c <= 0.8)
    ensures model == "Corrosion Detection" ==>
              (GetDefectInfo(model, c).severity == "Critical" <==> c > 0.9) &&
              (GetDefectInfo(model, c).severity == "High" <==> c <= 0.9)
    ensures model == "Thermal Anomaly" ==>
              (GetDefectInfo(model, c).severity == "Critical" <==> c > 0.85) &&
              (GetDefectInfo(model, c).severity == "Medium" <==> c <= 0.85)
    ensures model == "Vegetation Risk" ==>
              (GetDefectInfo(model, c).severity == "Medium" <==> c > 0.7) &&
              (GetDefectInfo(model, c).severity == "Low" <==> c <= 0.7)
    ensures model !in {"Crack Detection", "Corrosion Detection", "Thermal Anomaly", "Vegetation Risk", "Structural Damage"} ==>
              GetDefectInfo(model, c) == DefectInfo("Unknown Defect", "Unspecified defect detected", "Medium")
  {
  }

  /** `simulate_video_analysis(path)`: one fixed placeholder detection. */
  function SimulateVideoAnalysis(path: string): (r: seq<Detection>)
    ensures |r| == 1 && r[0].confidence == 0.85 && r[0].severity == "Medium"
    ensures forall i :: 0 <= i < |r| ==> KnownSeverity(r[i].severity)
  {
    [Detection("Video Analysis", "Motion Detected Defect", 0.85, [100, 100, 200, 200],
               "Medium", "Defect detected in video frame analysis")]
  }

  /** `file_info['type'].startswith('image')` */
  predicate IsImage(f: MediaFile) {
    "image" <= f.mimeType
  }

  /** `analyze_single_file(file_info)`: images keep no detection (the
      failed image read is caught), other files get the video placeholder. */
  function AnalyzeSingleFile(f: MediaFile): (r: AnalysisResult)
    ensures r.fileName == f.name && r.filePath == f.path
    ensures r.detections == [] <==> IsImage(f)
    ensures forall i :: 0 <= i < |r.detections| ==> r.detections[i].severity == "Medium"
  {
    AnalysisResult(f.name, f.path, if IsImage(f) then [] else SimulateVideoAnalysis(f.path))
  }

  /** One result per file, in upload order. */
  function AnalyzeAll(media: seq<MediaFile>): (r: seq<AnalysisResult>)
    ensures |r| == |media| && forall i :: 0 <= i < |media| ==> r[i] == AnalyzeSingleFile(media[i])
  {
    seq(|media|, i requires 0 <= i < |media| => AnalyzeSingleFile(media[i]))
  }

  /** The number of files that are not images. */
  function CountNonImages(media: seq<MediaFile>): nat {
    if media == [] then 0
    else CountNonImages(media[..|media| - 1]) + (if IsImage(media[|media| - 1]) then 0 else 1)
  }

  /** A run's results hold one detection per non-image file, every file
      with a detection is a non-image file, and every detection is "Medium". */
  lemma {:induction false} AnalyzeAllCounts(media: seq<MediaFile>)
    ensures TotalDetections(AnalyzeAll(media)) == CountNonImages(media)
    ensures FilesWithDefects(AnalyzeAll(media)) == CountNonImages(media)
    ensures SeverityCount(AnalyzeAll(media), "Medium") == CountNonImages(media)
    ensures SeverityCount(AnalyzeAll(media), "Critical") == 0
  {
    if media != [] {
      var init := media[..|media| - 1];
      var last := media[|media| - 1];
      AnalyzeAllCounts(init);
      assert AnalyzeAll(media) == AnalyzeAll(init) + [AnalyzeSingleFile(last)];
      assert AnalyzeAll(media)[..|media| - 1] == AnalyzeAll(init);
      AllDetectionsSnoc(AnalyzeAll(init), AnalyzeSingleFile(last));
      var ds := AnalyzeSingleFile(last).detections;
      CountSeverityAppend(AllDetections(AnalyzeAll(init)), ds, "Medium");
      CountSeverityAppend(AllDetections(AnalyzeAll(init)), ds, "Critical");
      if ds != [] {
        assert ds == [] + [ds[0]];
      }
    }
  }

  /** `run_inspection_analysis()`. The page calls it only when there is an
      upload list. Without a selected model it stops before touching the
      results; otherwise it appends one result per uploaded file, in order. */
  method RunInspectionAnalysis(s: State)
    requires s.uploadedMedia.Some?
    modifies s`analysisResults
    ensures NoModelsSelected(s) ==> s.analysisResults == old(s.analysisResults)
    ensures !NoModelsSelected(s) ==>
              s.analysisResults == Some(old(s.analysisResults).GetOr([]) + AnalyzeAll(s.uploadedMedia.value))
  {
    if NoModelsSelected(s) {
      return;
    }
    if s.analysisResults.None? {
      s.analysisResults := Some([]);
    }
    var media := s.uploadedMedia.value;
    ghost var start := s.analysisResults.value;
    var i := 0;
    assert AnalyzeAll(media[..0]) == [];
    assert start + [] == start;
    while i < |media|
      invariant 0 <= i <= |media|
      invariant s.analysisResults == Some(start + AnalyzeAll(media[..i]))
    {
      var fileResults := AnalyzeSingleFile(media[i]);
      s.analysisResults := Some(s.analysisResults.value + [fileResults]);
      assert AnalyzeAll(media[..i + 1]) == AnalyzeAll(media[..i]) + [fileResults];
      assert start + AnalyzeAll(media[..i + 1]) == (start + AnalyzeAll(media[..i])) + [fileResults];
      i := i + 1;
    }
    assert media[..|media|] == media;
  }

  /** The keys of `severity_counts`. */
  const SeverityKeys: set<string> := {"Critical", "High", "Medium", "Low"}

  /** Counters that hold, for each known severity, its count in `ds`. */
  predicate CountsOf(counts: map<string, nat>, ds: seq<Detection>) {
    counts.Keys == SeverityKeys && forall k :: k in counts ==> counts[k] == CountSeverity(ds, k)
  }

  /** `if severity in severity_counts: severity_counts[severity] += 1` */
  function Bump(counts: map<string, nat>, severity: string): map<string, nat> {
    if severity in counts then counts[severity := counts[severity] + 1] else counts
  }

  /** One increment keeps the counters exact for one more detection. */
  lemma BumpCounts(counts: map<string, nat>, ds: seq<Detection>, d: Detection)
    requires CountsOf(counts, ds)
    ensures CountsOf(Bump(counts, d.severity), ds + [d])
  {
    forall k | k in counts
      ensures CountSeverity(ds + [d], k) == CountSeverity(ds, k) + (if d.severity == k then 1 else 0)
    {
      CountSeveritySnoc(ds, d, k);
    }
  }

  /** The inner loop over one result's detections. */
  method CountDetections(counts: map<string, nat>, ghost before: seq<Detection>, ds: seq<Detection>)
    returns (r: map<string, nat>)
    requires CountsOf(counts, before)
    ensures CountsOf(r, before + ds)
  {
    r := counts;
    var j := 0;
    assert before + ds[..0] == before;
    while j < |ds|
      invariant 0 <= j <= |ds|
      invariant CountsOf(r, before + ds[..j])
    {
      BumpCounts(r, before + ds[..j], ds[j]);
      assert before + ds[..j + 1] == (before + ds[..j]) + [ds[j]];
      r := Bump(r, ds[j].severity);
      j := j + 1;
    }
    assert ds[..|ds|] == ds;
  }

  /** The severity breakdown of `display_analysis_summary`: a counter per
      known severity, incremented once per detection of that severity;
      detections with another severity are not counted. */
  method SeverityBreakdown(results: seq<AnalysisResult>) returns (counts: map<string, nat>)
    ensures counts.Keys == SeverityKeys
    ensures forall k :: k in counts ==> counts[k] == SeverityCount(results, k)
  {
    counts := map["Critical" := 0, "High" := 0, "Medium" := 0, "Low" := 0];
    var i := 0;
    assert results[..0] == [];
    while i < |results|
      invariant 0 <= i <= |results|
      invariant CountsOf(counts, AllDetections(results[..i]))
    {
      counts := CountDetections(counts, AllDetections(results[..i]), results[i].detections);
      assert results[..i + 1] == results[..i] + [results[i]];
      AllDetectionsSnoc(results[..i], results[i]);
      i := i + 1;
    }
    assert results[..|results|] == results;
  }

  /** On this page's results the four counters add up to the total number
      of detections, all of them in "Medium". */
  lemma BreakdownAddsUp(media: seq<MediaFile>)
    ensures var rs := AnalyzeAll(media);
            SeverityCount(rs, "Critical") + SeverityCount(rs, "High") +
            SeverityCount(rs, "Medium") + SeverityCount(rs, "Low") == TotalDetections(rs)
  {
    var rs := AnalyzeAll(media);
    AnalyzeAllCounts(media);
    AllMedium(media);
    SeverityCountsPartition(AllDetections(rs));
    TotalIsAllDetections(rs);
  }

  /** Every detection of a run on this page is rated "Medium". */
  lemma {:induction false} AllMedium(media: seq<MediaFile>)
    ensures forall i :: 0 <= i < |AllDetections(AnalyzeAll(media))| ==>
              AllDetections(AnalyzeAll(media))[i].severity == "Medium"
  {
    if media != [] {
      var init := media[..|media| - 1];
      AllMedium(init);
      assert AnalyzeAll(media) == AnalyzeAll(init) + [AnalyzeSingleFile(media[|media| - 1])];
      AllDetectionsSnoc(AnalyzeAll(init), AnalyzeSingleFile(media[|media| - 1]));
    }
  }
}
