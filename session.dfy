/** The Streamlit session state `st.session_state`: one dict per browser
    session, kept across reruns of the page scripts. Only the keys the
    modelled code reads or writes are fields here; a key that is absent from
    the dict is `None`. */
module Session {
  import opened Wrappers
  import opened MediaList
  import opened Inspection

  /** What `st.session_state['user']` holds after a login: id, username and
      email, never the password hash or the salt. */
  datatype SessionUser = SessionUser(id: int, username: string, email: string)

  class State {
    var authenticated: Option<bool>                 // 'authenticated'
    var user: Option<SessionUser>                   // 'user'
    var uploadedMedia: Option<seq<MediaFile>>       // 'uploaded_media'
    var analysisResults: Option<seq<AnalysisResult>> // 'analysis_results'
    var selectedModels: Option<seq<string>>         // 'selected_models'
    var confidenceThreshold: Option<real>           // 'confidence_threshold'
    var nav: Option<string>                         // 'nav'
    var theme: Option<string>                       // 'theme'
    var defaultConfidence: Option<real>             // 'default_confidence'
    var defaultModels: Option<seq<string>>          // 'default_models'

    /** A new browser session starts with none of the keys. */
    constructor ()
      ensures authenticated == None && user == None
      ensures uploadedMedia == None && analysisResults == None
      ensures selectedModels == None && confidenceThreshold == None
      ensures nav == None && theme == None && defaultConfidence == None && defaultModels == None
    {
      authenticated, user := None, None;
      uploadedMedia, analysisResults := None, None;
      selectedModels, confidenceThreshold := None, None;
      nav, theme, defaultConfidence, defaultModels := None, None, None, None;
    }
  }

  /** `'selected_models' not in st.session_state or not st.session_state.selected_models`:
      the analysis run stops with an error. */
  predicate NoModelsSelected(s: State)
    reads s
  {
    s.selectedModels.None? || s.selectedModels.value == []
  }

  /** The per-record loop of the upload pages' upload and sample handlers:
      the list is created empty when absent, then each record, in order, is
      appended unless a duplicate under `rule` is already in it. */
  method AppendEach(s: State, rule: DedupRule, recs: seq<MediaFile>)
    modifies s`uploadedMedia
    ensures s.uploadedMedia == Some(AppendBatch(rule, old(s.uploadedMedia).GetOr([]), recs))
  {
    if s.uploadedMedia.None? {
      s.uploadedMedia := Some([]);
    }
    ghost var start := s.uploadedMedia.value;
    var i := 0;
    while i < |recs|
      invariant 0 <= i <= |recs|
      invariant s.uploadedMedia == Some(AppendBatch(rule, start, recs[..i]))
    {
      var media := s.uploadedMedia.value;
      var exists_ := AnyDuplicate(rule, media, recs[i]);
      if !exists_ {
        s.uploadedMedia := Some(media + [recs[i]]);
      }
      assert recs[..i + 1][..i] == recs[..i];
      i := i + 1;
    }
    assert recs[..|recs|] == recs;
  }
}
