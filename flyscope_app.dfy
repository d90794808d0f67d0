/** The single-file application flyscope_app.py: sidebar navigation that
    remembers the page, uploads and samples de-duplicated by whole record,
    removal by position, a simulated analysis that draws random detections,
    the Home KPIs, the map colour rule, and the data and settings buttons.
    The random draws of the analysis and the temp-file paths and sizes are
    parameters. */
module FlyscopeApp {
  import opened Wrappers
  import opened MediaList
  import opened Inspection
  import opened Session

  // ---------------------------------------------------------------------
  // Navigation

  const Home: string := "\U{1F3E0} Home"

  /** `NAV_PAGES`, in sidebar order. */
  const NavPages: seq<string> := [
    Home,
    "\U{1F4E4} Media Upload",
    "\U{1F916} AI Analysis",
    "\U{1F4CA} Results & Reports",
    "\U{1F5FA}\U{FE0F} Fault Mapping",
    "\U{1F4C1} Data Management",
    "\U{2699}\U{FE0F} Settings"
  ]

  /** The page preselected in the sidebar: the remembered `nav` value when it
      is one of the pages, "Home" otherwise. */
  function DefaultPage(nav: Option<string>): (r: string)
    ensures r in NavPages
    ensures nav.Some? && nav.value in NavPages ==> r == nav.value
    ensures nav.None? || nav.value !in NavPages ==> r == Home
  {
    var page := nav.GetOr(Home);
    if page !in NavPages then Home else page
  }

  /** The preselection is stable: remembering it and preselecting again
      gives the same page. */
  lemma DefaultPageStable(nav: Option<string>)
    ensures DefaultPage(Some(DefaultPage(nav))) == DefaultPage(nav)
  {
  }

  /** One run of `main`'s navigation: `choice` is the page the user picks
      in the select box, `None` when they keep the preselected one. The page
      shown is written back to `nav`. */
  method Navigate(s: State, choice: Option<string>) returns (page: string)
    requires choice.Some? ==> choice.value in NavPages
    modifies s`nav
    ensures page in NavPages
    ensures page == choice.GetOr(DefaultPage(old(s.nav)))
    ensures s.nav == Some(page)
  {
    var defaultPage := DefaultPage(s.nav);
    page := choice.GetOr(defaultPage);
    s.nav := Some(page);
  }

  // ---------------------------------------------------------------------
  // Media list

  /** `handle_file_upload`: each entry is appended unless an identical
      entry (name, temp path, type and size) is present. */
  method HandleFileUpload(s: State, files: seq<MediaFile>)
    modifies s`uploadedMedia
    ensures files == [] ==> s.uploadedMedia == old(s.uploadedMedia)
    ensures files != [] ==> s.uploadedMedia == Some(AppendBatch(ByRecord, old(s.uploadedMedia).GetOr([]), files))
  {
    if files != [] {
      AppendEach(s, ByRecord, files);
    }
  }

  /** `handle_sample_images`: the entry for each picked label, appended
      unless an identical entry is present. */
  method HandleSampleImages(s: State, selected: seq<string>, paths: seq<string>, sizes: seq<int>)
    requires |paths| == |selected| && |sizes| == |selected|
    modifies s`uploadedMedia
    ensures selected == [] ==> s.uploadedMedia == old(s.uploadedMedia)
    ensures selected != [] ==>
              s.uploadedMedia == Some(AppendBatch(ByRecord, old(s.uploadedMedia).GetOr([]), SampleEntries(selected, paths, sizes)))
  {
    if selected != [] {
      AppendEach(s, ByRecord, SampleEntries(selected, paths, sizes));
    }
  }

  /** The Remove button of row `i`: `uploaded_media.pop(i)`. The buttons are
      drawn from the list, so `i` is a position in it. */
  method RemoveAtIndex(s: State, i: nat)
    requires s.uploadedMedia.Some? && i < |s.uploadedMedia.value|
    modifies s`uploadedMedia
    ensures s.uploadedMedia == Some(RemoveAt(old(s.uploadedMedia).value, i))
  {
    s.uploadedMedia := Some(RemoveAt(s.uploadedMedia.value, i));
  }

  // ---------------------------------------------------------------------
  // Simulated analysis

  /** The detection `analyze_single_file` builds for a model and a drawn confidence. */
  function ModelDetection(model: string, confidence: real): (d: Detection)
    ensures d.model == model && d.confidence == confidence
    ensures d.severity == "High" <==> confidence > 0.8
    ensures d.severity == "Medium" <==> confidence <= 0.8
  {
    Detection(model, model + " Defect", confidence, [100, 100, 200, 200],
              if confidence > 0.8 then "High" else "Medium", "Defect detected by " + model)
  }

  /** The detections of one model, one per drawn confidence. */
  function ModelDetections(model: string, confidences: seq<real>): seq<Detection> {
    seq(|confidences|, j requires 0 <= j < |confidences| => ModelDetection(model, confidences[j]))
  }

  /** The detections of one file: for each selected model in order, one per
      confidence drawn for it (`draws[m]` holds the `randint(0, 2)`
      confidences drawn for model `m`). */
  function DrawnDetections(models: seq<string>, draws: seq<seq<real>>): seq<Detection>
    requires |draws| == |models|
  {
    if models == [] then []
    else DrawnDetections(models[..|models| - 1], draws[..|draws| - 1]) +
         ModelDetections(models[|models| - 1], draws[|draws| - 1])
  }

  /** What the random draws can be: at most two confidences per model, each
      between the threshold and 1 (`random.uniform(threshold, 1.0)`). */
  predicate ValidDraws(draws: seq<seq<real>>, threshold: real) {
    forall m :: 0 <= m < |draws| ==>
      |draws[m]| <= 2 && forall j :: 0 <= j < |draws[m]| ==> threshold <= draws[m][j] <= 1.0
  }

  /** A file gets at most two detections per model; each comes from a
      selected model, is at least as confident as the threshold, and is
      "High" exactly when its confidence is above 0.8 ("Medium" otherwise). */
  lemma {:induction false} DrawnDetectionsSpec(models: seq<string>, draws: seq<seq<real>>, threshold: real)
    requires |draws| == |models| && ValidDraws(draws, threshold)
    ensures |DrawnDetections(models, draws)| <= 2 * |models|
    ensures forall k :: 0 <= k < |DrawnDetections(models, draws)| ==>
              DrawnDetections(models, draws)[k].model in models &&
              threshold <= DrawnDetections(models, draws)[k].confidence <= 1.0 &&
              (DrawnDetections(models, draws)[k].severity == "High" <==> DrawnDetections(models, draws)[k].confidence > 0.8) &&
              KnownSeverity(DrawnDetections(models, draws)[k].severity)
  {
    if models != [] {
      var n := |models| - 1;
      DrawnDetectionsSpec(models[..n], draws[..n], threshold);
      var before := DrawnDetections(models[..n], draws[..n]);
      var last := ModelDetections(models[n], draws[n]);
      var all := DrawnDetections(models, draws);
      assert all == before + last;
      forall k | 0 <= k < |all|
        ensures all[k].model in models && threshold <= all[k].confidence <= 1.0
      {
        if k < |before| {
          assert all[k] == before[k];
          assert before[k].model in models[..n];
        } else {
          assert all[k] == last[k - |before|];
        }
      }
    }
  }

  /** `analyze_single_file(file_info)`: the loops over the selected models
      and their drawn confidences. */
  method AnalyzeSingleFile(f: MediaFile, models: seq<string>, draws: seq<seq<real>>) returns (r: AnalysisResult)
    requires |draws| == |models|
    ensures r == AnalysisResult(f.name, f.path, DrawnDetections(models, draws))
  {
    var detections: seq<Detection> := [];
    var m := 0;
    while m < |models|
      invariant 0 <= m <= |models|
      invariant detections == DrawnDetections(models[..m], draws[..m])
    {
      var confidences := draws[m];
      ghost var before := detections;
      var j := 0;
      while j < |confidences|
        invariant 0 <= j <= |confidences|
        invariant detections == before + ModelDetections(models[m], confidences[..j])
      {
        var confidence := confidences[j];
        detections := detections + [ModelDetection(models[m], confidence)];
        assert ModelDetections(models[m], confidences[..j + 1]) ==
               ModelDetections(models[m], confidences[..j]) + [ModelDetection(models[m], confidence)];
        j := j + 1;
      }
      assert confidences[..j] == confidences;
      assert models[..m + 1][..m] == models[..m];
      assert draws[..m + 1][..m] == draws[..m];
      m := m + 1;
    }
    assert models[..m] == models && draws[..m] == draws;
    r := AnalysisResult(f.name, f.path, detections);
  }

  /** The results of one run: one per file, in upload order. */
  function Analyses(media: seq<MediaFile>, models: seq<string>, draws: seq<seq<seq<real>>>): (r: seq<AnalysisResult>)
    requires |draws| == |media| && forall i :: 0 <= i < |draws| ==> |draws[i]| == |models|
    ensures |r| == |media|
    ensures forall i :: 0 <= i < |r| ==>
              r[i] == AnalysisResult(media[i].name, media[i].path, DrawnDetections(models, draws[i]))
  {
    if media == [] then []
    else
      var n := |media| - 1;
      Analyses(media[..n], models, draws[..n]) + [AnalysisResult(media[n].name, media[n].path, DrawnDetections(models, draws[n]))]
  }

  /** A run yields at most two detections per model and file. */
  lemma AnalysesBound(media: seq<MediaFile>, models: seq<string>, draws: seq<seq<seq<real>>>, threshold: real)
    requires |draws| == |media| && forall i :: 0 <= i < |draws| ==> |draws[i]| == |models|
    requires forall i :: 0 <= i < |draws| ==> ValidDraws(draws[i], threshold)
    ensures TotalDetections(Analyses(media, models, draws)) <= 2 * |models| * |media|
  {
    var rs := Analyses(media, models, draws);
    forall i | 0 <= i < |rs|
      ensures |rs[i].detections| <= 2 * |models|
    {
      DrawnDetectionsSpec(models, draws[i], threshold);
    }
    TotalDetectionsBound(rs, 2 * |models|);
  }

  /** `run_inspection_analysis()`: `draws[i]` are the random draws for the
      i-th uploaded file. The page calls it only when there is an upload
      list. Without a selected model nothing changes; otherwise one result
      per file is appended, in upload order. */
  method RunInspectionAnalysis(s: State, draws: seq<seq<seq<real>>>)
    requires s.uploadedMedia.Some?
    requires !NoModelsSelected(s) ==>
               |draws| == |s.uploadedMedia.value| &&
               forall i :: 0 <= i < |draws| ==> |draws[i]| == |s.selectedModels.value|
    modifies s`analysisResults
    ensures NoModelsSelected(s) ==> s.analysisResults == old(s.analysisResults)
    ensures !NoModelsSelected(s) ==>
              s.analysisResults ==
                Some(old(s.analysisResults).GetOr([]) + Analyses(s.uploadedMedia.value, s.selectedModels.value, draws))
  {
    if NoModelsSelected(s) {
      return;
    }
    if s.analysisResults.None? {
      s.analysisResults := Some([]);
    }
    var media := s.uploadedMedia.value;
    var models := s.selectedModels.value;
    ghost var start := s.analysisResults.value;
    ghost var added: seq<AnalysisResult> := [];
    assert start + added == start;
    var i := 0;
    while i < |media|
      invariant 0 <= i <= |media| && |added| == i
      invariant forall j :: 0 <= j < i ==>
                  added[j] == AnalysisResult(media[j].name, media[j].path, DrawnDetections(models, draws[j]))
      invariant s.analysisResults == Some(start + added)
    {
      var fileResults := AnalyzeSingleFile(media[i], models, draws[i]);
      s.analysisResults := Some(s.analysisResults.value + [fileResults]);
      assert (start + added) + [fileResults] == start + (added + [fileResults]);
      added := added + [fileResults];
      i := i + 1;
    }
    assert added == Analyses(media, models, draws);
  }

  // ---------------------------------------------------------------------
  // Home KPIs, map colours, data and settings buttons

  /** The four metrics of the Home page. */
  datatype Kpis = Kpis(uploads: nat, analyses: nat, detections: nat, critical: nat)

  /** Uploads, analyses, detections and critical detections, an absent list
      counting as empty (`st.session_state.get(key, [])`). */
  function HomeKpis(uploaded: Option<seq<MediaFile>>, results: Option<seq<AnalysisResult>>): (r: Kpis)
    ensures r.uploads == |uploaded.GetOr([])| && r.analyses == |results.GetOr([])|
    ensures r.detections == |AllDetections(results.GetOr([]))|
    ensures r.critical == SeverityCount(results.GetOr([]), "Critical") <= r.detections
    ensures r.critical == 0 <==> forall d :: d in AllDetections(results.GetOr([])) ==> d.severity != "Critical"
  {
    var rs := results.GetOr([]);
    TotalIsAllDetections(rs);
    CountSeverityBound(AllDetections(rs), "Critical");
    CountSeverityZero(AllDetections(rs), "Critical");
    Kpis(|uploaded.GetOr([])|, |rs|, TotalDetections(rs), SeverityCount(rs, "Critical"))
  }

  /** Running an analysis adds its detections to the Home KPIs. */
  lemma HomeKpisAfterRun(uploaded: Option<seq<MediaFile>>, results: Option<seq<AnalysisResult>>, run: seq<AnalysisResult>)
    ensures var before := HomeKpis(uploaded, results);
            var after := HomeKpis(uploaded, Some(results.GetOr([]) + run));
            after.analyses == before.analyses + |run| &&
            after.detections == before.detections + TotalDetections(run) &&
            after.critical == before.critical + SeverityCount(run, "Critical")
  {
    var rs := results.GetOr([]);
    TotalDetectionsAppend(rs, run);
    TotalIsAllDetections(rs);
    TotalIsAllDetections(rs + run);
    AllDetectionsAppend(rs, run);
    CountSeverityAppend(AllDetections(rs), AllDetections(run), "Critical");
  }

  /** Colour of a fault marker on the map. */
  function MarkerColour(severity: string): (c: string)
    ensures c == "red" <==> SeverityRank(severity) >= 2
    ensures c == "orange" <==> severity == "Medium"
    ensures c == "green" <==> SeverityRank(severity) == 0
  {
    if severity in ["High", "Critical"] then "red"
    else if severity == "Medium" then "orange"
    else "green"
  }

  /** "Clear All Data": delete the media list and the results, if present. */
  method ClearAllData(s: State)
    modifies s`uploadedMedia, s`analysisResults
    ensures s.uploadedMedia == None && s.analysisResults == None
    ensures HomeKpis(s.uploadedMedia, s.analysisResults) == Kpis(0, 0, 0, 0)
  {
    if s.uploadedMedia.Some? {
      s.uploadedMedia := None;
    }
    if s.analysisResults.Some? {
      s.analysisResults := None;
    }
  }

  const DefaultTheme: string := "Dark"
  const DefaultConfidence: real := 0.7
  const DefaultModels: seq<string> := ["Crack Detection", "Corrosion Detection"]

  /** What the settings and analysis pages preselect: the stored value, or
      the built-in default when the key is absent. */
  function ShownTheme(theme: Option<string>): string { theme.GetOr(DefaultTheme) }
  function ShownConfidence(conf: Option<real>): real { conf.GetOr(DefaultConfidence) }
  function ShownModels(models: Option<seq<string>>): seq<string> { models.GetOr(DefaultModels) }

  /** "Save Settings": store the three values picked on the settings page. */
  method SaveSettings(s: State, theme: string, conf: real, models: seq<string>)
    modifies s`theme, s`defaultConfidence, s`defaultModels
    ensures ShownTheme(s.theme) == theme && ShownConfidence(s.defaultConfidence) == conf
    ensures ShownModels(s.defaultModels) == models
  {
    s.theme := Some(theme);
    s.defaultConfidence := Some(conf);
    s.defaultModels := Some(models);
  }

  /** "Reset to Defaults": afterwards the pages preselect exactly what they
      preselect in a session that never saved settings. */
  method ResetSettings(s: State)
    modifies s`theme, s`defaultConfidence, s`defaultModels
    ensures s.theme == Some("Dark") && s.defaultConfidence == Some(0.7)
    ensures s.defaultModels == Some(["Crack Detection", "Corrosion Detection"])
    ensures ShownTheme(s.theme) == ShownTheme(None)
    ensures ShownConfidence(s.defaultConfidence) == ShownConfidence(None)
    ensures ShownModels(s.defaultModels) == ShownModels(None)
  {
    s.theme := Some("Dark");
    s.defaultConfidence := Some(0.7);
    s.defaultModels := Some(["Crack Detection", "Corrosion Detection"]);
  }
}
