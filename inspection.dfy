/** Detections and per-file analysis results (`st.session_state.analysis_results`),
    and the summary counts the pages compute over them. */
module Inspection {

  /** One detection dict: model, defect type, confidence, bounding box,
      severity and description. */
  datatype Detection = Detection(
    model: string, defectType: string, confidence: real,
    bbox: seq<int>, severity: string, description: string)

  /** One entry of `analysis_results`: the file analysed and its detections. */
  datatype AnalysisResult = AnalysisResult(fileName: string, filePath: string, detections: seq<Detection>)

  /** The keys of the `severity_counts` dict. */
  predicate KnownSeverity(severity: string) {
    severity == "Critical" || severity == "High" || severity == "Medium" || severity == "Low"
  }

  /** Order of the severities, from "Low" (0) to "Critical" (3). */
  function SeverityRank(severity: string): int {
    if severity == "Critical" then 3
    else if severity == "High" then 2
    else if severity == "Medium" then 1
    else 0
  }

  /** All detections of all results, in order. */
  function AllDetections(results: seq<AnalysisResult>): seq<Detection> {
    if results == [] then []
    else AllDetections(results[..|results| - 1]) + results[|results| - 1].detections
  }

  /** `sum(len(result['detections']) for result in results)`. */
  function TotalDetections(results: seq<AnalysisResult>): nat {
    if results == [] then 0
    else TotalDetections(results[..|results| - 1]) + |results[|results| - 1].detections|
  }

  /** `sum(1 for result in results if result['detections'])`. */
  function FilesWithDefects(results: seq<AnalysisResult>): nat {
    if results == [] then 0
    else FilesWithDefects(results[..|results| - 1]) + (if results[|results| - 1].detections != [] then 1 else 0)
  }

  /** Number of detections in `ds` whose severity is `severity`. */
  function CountSeverity(ds: seq<Detection>, severity: string): nat {
    if ds == [] then 0
    else CountSeverity(ds[..|ds| - 1], severity) + (if ds[|ds| - 1].severity == severity then 1 else 0)
  }

  /** Number of detections of all results whose severity is `severity`. */
  function SeverityCount(results: seq<AnalysisResult>, severity: string): nat {
    CountSeverity(AllDetections(results), severity)
  }

  /** The total is the number of detections in all results. */
  lemma {:induction false} TotalIsAllDetections(results: seq<AnalysisResult>)
    ensures TotalDetections(results) == |AllDetections(results)|
  {
    if results != [] {
      TotalIsAllDetections(results[..|results| - 1]);
    }
  }

  /** Files with defects are at most the files analysed and at most the detections. */
  lemma {:induction false} FilesWithDefectsBound(results: seq<AnalysisResult>)
    ensures FilesWithDefects(results) <= |results|
    ensures FilesWithDefects(results) <= TotalDetections(results)
  {
    if results != [] {
      FilesWithDefectsBound(results[..|results| - 1]);
    }
  }

  /** With at most `b` detections per result, the total is at most `b` per result. */
  lemma {:induction false} TotalDetectionsBound(results: seq<AnalysisResult>, b: nat)
    requires forall i :: 0 <= i < |results| ==> |results[i].detections| <= b
    ensures TotalDetections(results) <= b * |results|
  {
    if results != [] {
      var n := |results| - 1;
      TotalDetectionsBound(results[..n], b);
      assert b * |results| == b * n + b;
    }
  }

  /** Appending results adds their detections to the total. */
  lemma {:induction false} TotalDetectionsAppend(a: seq<AnalysisResult>, b: seq<AnalysisResult>)
    ensures TotalDetections(a + b) == TotalDetections(a) + TotalDetections(b)
  {
    if b != [] {
      assert (a + b)[..|a + b| - 1] == a + b[..|b| - 1];
      TotalDetectionsAppend(a, b[..|b| - 1]);
    } else {
      assert a + b == a;
    }
  }

  /** The detections of two runs of results follow each other. */
  lemma {:induction false} AllDetectionsAppend(a: seq<AnalysisResult>, b: seq<AnalysisResult>)
    ensures AllDetections(a + b) == AllDetections(a) + AllDetections(b)
  {
    if b != [] {
      assert (a + b)[..|a + b| - 1] == a + b[..|b| - 1];
      AllDetectionsAppend(a, b[..|b| - 1]);
    } else {
      assert a + b == a;
    }
  }

  lemma {:induction false} CountSeverityAppend(a: seq<Detection>, b: seq<Detection>, severity: string)
    ensures CountSeverity(a + b, severity) == CountSeverity(a, severity) + CountSeverity(b, severity)
  {
    if b != [] {
      assert (a + b)[..|a + b| - 1] == a + b[..|b| - 1];
      CountSeverityAppend(a, b[..|b| - 1], severity);
    } else {
      assert a + b == a;
    }
  }

  /** Counting one more detection adds one to its own severity only. */
  lemma CountSeveritySnoc(ds: seq<Detection>, d: Detection, severity: string)
    ensures CountSeverity(ds + [d], severity) == CountSeverity(ds, severity) + (if d.severity == severity then 1 else 0)
  {
    assert (ds + [d])[..|ds + [d]| - 1] == ds;
  }

  /** The detections of one more result follow those of the results before it. */
  lemma AllDetectionsSnoc(results: seq<AnalysisResult>, r: AnalysisResult)
    ensures AllDetections(results + [r]) == AllDetections(results) + r.detections
  {
    assert (results + [r])[..|results + [r]| - 1] == results;
  }

  /** A count never exceeds the number of detections. */
  lemma {:induction false} CountSeverityBound(ds: seq<Detection>, severity: string)
    ensures CountSeverity(ds, severity) <= |ds|
  {
    if ds != [] {
      CountSeverityBound(ds[..|ds| - 1], severity);
    }
  }

  /** The count is zero exactly when no detection has that severity. */
  lemma {:induction false} CountSeverityZero(ds: seq<Detection>, severity: string)
    ensures CountSeverity(ds, severity) == 0 <==> forall i :: 0 <= i < |ds| ==> ds[i].severity != severity
  {
    if ds != [] {
      var init := ds[..|ds| - 1];
      CountSeverityZero(init, severity);
      assert forall i :: 0 <= i < |init| ==> init[i] == ds[i];
    }
  }

  /** When every detection has one of the four known severities, the four
      per-severity counts add up to the number of detections. */
  lemma {:induction false} SeverityCountsPartition(ds: seq<Detection>)
    requires forall i :: 0 <= i < |ds| ==> KnownSeverity(ds[i].severity)
    ensures CountSeverity(ds, "Critical") + CountSeverity(ds, "High")
          + CountSeverity(ds, "Medium") + CountSeverity(ds, "Low") == |ds|
  {
    if ds != [] {
      SeverityCountsPartition(ds[..|ds| - 1]);
    }
  }
}
