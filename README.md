# FLYSCOPE inspection app: a Dafny model

FLYSCOPE is a Streamlit application for drone-based inspection of power-grid infrastructure. Users register and log in against a SQLite credential store. They then upload drone images and videos, or pick sample pictures. A simulated AI analysis runs over the uploads and produces per-file detections with severities. The app summarises those detections, and a dashboard shows district incidents of the Tamil Nadu grid.

This project models the parts of the application with rules worth proving:

- **The credential store** (`auth.py`).
  - A users table with unique usernames and unique emails, and increasing ids.
  - Salted password hashing with a deterministic key-derivation function.
  - Registration and authentication.
  - The two session keys that a login sets.
  - The table is the class `Auth.CredentialStore`, whose `RegisterUser` updates it in place.
  - The specification functions `UserExists`, `RegisterVerdict`, `RegisterTable` and `AuthenticateUser` carry the contracts.
- **Admin user management** (`components/admin_panel.py`).
  - The newest-first listing.
  - The case-insensitive search.
  - The four sort modes, proved as permutations that are sorted.
  - The admin allow-list.
  - Deleting a user by id. The deletion method updates the store and keeps its invariant.
- **The uploaded-media list** (`components/upload_page.py`, `pages/upload_page.py`, `flyscope_app.py`).
  - The session list is appended to under three de-duplication rules: by name and size, by name, and by whole record.
  - Entries are removed by value (`list.remove`) or by position (`pop`).
  - Each page's loop is a method on the session class `Session.State`. It is proved against the specification function `MediaList.AppendBatch`, whose properties are lemmas.
- **Defect classification and counting** (`components/analysis_page.py`, `flyscope_app.py`).
  - The defect catalogue with its confidence thresholds.
  - The placeholder video analysis.
  - The analysis run, which appends one result per file.
  - The random detection draws, passed in as parameters.
  - The summary counters, the severity breakdown and the Home KPIs.
- **The login and registration forms** (`components/_login.py`, `login.py`).
  - The ordered validation chain.
  - Stripping of the submitted fields.
  - A session that changes only on a successful login.
- **The district dashboard** (`app.py`).
  - The fixed incident table.
  - The district and severity filter and the three KPIs.
  - The marker colour.
  - The guidance lookup.

`secrets.token_hex`, `datetime.utcnow`, temp-file paths, file sizes and `random` draws are method parameters. PBKDF2-HMAC-SHA256 (section 5.2 of RFC 8018) is a function-valued constant `kdf` of the store. Only its determinism is used.

## Model

| member | source | states |
|---|---|---|
| Text.Strip | components/_login.py:161 | `strip()` leaves no white space at either end and never lengthens the string |
| Text.StripIdempotent | components/_login.py:129 | stripping an already stripped identifier changes nothing |
| Text.StripIsSlice | login.py:73 | `strip()` returns a slice of the input, and everything before and after that slice is white space |
| Text.StripAllSpace | login.py:73 | a string of white space only strips to the empty string |
| Text.LowerIdempotent | components/admin_panel.py:175 | lower-casing twice is lower-casing once |
| Text.ReplaceChar | components/upload_page.py:128 | `replace(' ', '_')` keeps the length and leaves no space behind |
| Text.ContainsAt | components/admin_panel.py:240 | `t in s` holds exactly when `t` occurs at some position of `s` |
| Text.ContainsEmpty | components/admin_panel.py:239-240 | the empty term is contained in every string |
| Text.LexLeReflexive | components/admin_panel.py:246 | the string order `sorted` uses is reflexive |
| Text.LexLeTotal | components/admin_panel.py:246 | any two keys are comparable |
| Text.LexLeTransitive | components/admin_panel.py:248 | the key order is transitive |
| Text.LexLeAntisymmetric | components/admin_panel.py:248 | keys ordered both ways are equal |
| MediaList.AnyDuplicate | components/upload_page.py:62-66 | the `any(...)` scan returns true exactly when some entry duplicates the record under the page's rule |
| MediaList.AppendBatchExtends | components/upload_page.py:60-81 | an upload never reorders or alters existing entries; it adds at most one entry per record, each from the batch, at the end |
| MediaList.AppendBatchNoDuplicates | components/upload_page.py:60-81 | a list without duplicates has none after a batch, including among the batch's own records |
| MediaList.AppendBatchCovers | pages/upload_page.py:41-55 | after a batch every record of it is represented: appended, or a duplicate was already present |
| MediaList.AppendBatchAllNew | flyscope_app.py:229-230 | a batch with no duplicates among itself or with the list is appended whole, in order |
| MediaList.AppendBatchNewNames | components/upload_page.py:134-141 | under the name rule, records with new, distinct names are all appended |
| MediaList.AppendBatchFreshPaths | pages/upload_page.py:42-55 | under the whole-record rule, records with fresh temp paths are all appended, even a re-upload of the same file |
| MediaList.RemoveAtSpec | pages/upload_page.py:149-151 | `pop(i)` deletes exactly element `i`, keeping the others in order |
| MediaList.IndexOf | components/upload_page.py:199-200 | the position `list.remove` deletes is that of the first equal entry |
| MediaList.RemoveFirstSpec | components/upload_page.py:199-200 | `remove(rec)` deletes exactly the first equal entry, and the page's `in` guard leaves the list unchanged otherwise |
| MediaList.SampleNameShape | components/upload_page.py:128 | a sample file name is lower case, has no space and ends in ".jpg" |
| MediaList.SampleNameAt | pages/upload_page.py:102 | each character of the name is the label's, lower-cased, with space turned into `_` |
| MediaList.SampleNamesDistinct | components/upload_page.py:105-110 | the four sample labels give four different file names |
| MediaList.SampleEntries | flyscope_app.py:261-266 | one entry per picked label, named from the label, with its temp path, type "image/jpeg" and the size of the saved file |
| MediaList.BlurQualityThresholds | components/upload_page.py:169 | "Good" iff score > 100, "OK" iff 50 < score <= 100, "Blurry" iff score <= 50 |
| MediaList.BlurQualityMonotone | pages/upload_page.py:133 | a higher blur score never gets a worse label, and every score gets one of the three |
| Inspection.TotalIsAllDetections | components/analysis_page.py:283 | the total is the number of detections over all results |
| Inspection.FilesWithDefectsBound | flyscope_app.py:496-497 | files with defects are at most the files analysed and at most the detections |
| Inspection.TotalDetectionsBound | flyscope_app.py:468-469 | with at most `b` detections per file the total is at most `b` per file |
| Inspection.TotalDetectionsAppend | flyscope_app.py:107 | the total of two runs of results is the sum of their totals |
| Inspection.AllDetectionsAppend | flyscope_app.py:108 | the detections of two runs follow each other |
| Inspection.CountSeverityAppend | components/analysis_page.py:311-315 | severity counts add over concatenation |
| Inspection.CountSeveritySnoc | components/analysis_page.py:313-315 | one more detection adds one to its own severity's count only |
| Inspection.AllDetectionsSnoc | components/analysis_page.py:311-312 | one more result's detections follow those before |
| Inspection.CountSeverityZero | flyscope_app.py:108 | a severity count is zero iff no detection has that severity |
| Inspection.CountSeverityBound | flyscope_app.py:108 | a severity count never exceeds the number of detections |
| Inspection.SeverityCountsPartition | components/analysis_page.py:309-315 | with known severities only, the four counters add up to the number of detections |
| Session.AppendEach | components/upload_page.py:57-81 | the upload loop creates the list when absent and leaves exactly `AppendBatch` of the old list and the records |
| Auth.HashPasswordDeterministic | auth.py:41-47 | a supplied salt is returned unchanged and the hash depends only on password and salt |
| Auth.VerifyOwnHash | auth.py:50-52 | a freshly derived hash verifies against its own salt, whether the salt was supplied or drawn |
| Auth.FirstWhere | auth.py:60-61 | an index search on one column finds nothing iff no row holds the key, else the earliest row that holds it |
| Auth.FetchOne | auth.py:60-61 | `fetchone()` finds no row iff none has the username or the email; else a row with the username whenever one exists, and only otherwise a row with the email |
| Auth.FirstWhereAppend | auth.py:78-87 | inserting a row after the others never changes an existing index hit |
| Auth.FetchOneAppend | auth.py:78-87 | inserting a row changes the row found only when nothing matched, or when the new row has the username and the old hit had only the email |
| Auth.UserExists | auth.py:57-68 | `(False, None)` iff no row has the username or the email; 'username' iff some row has the username; 'email' iff none has the username but some has the email |
| Auth.RegisterVerdict | auth.py:71-77 | registration is rejected iff some row has the username or the email; "Username already taken" iff some row has the username, "Email already registered" iff none has it but some has the email |
| Auth.RegisterKeepsInvariant | auth.py:23-30 | registration keeps usernames unique, emails unique, ids increasing and below the counter, salts 32 hex digits |
| Auth.RegisterAddsVerifiableUser | auth.py:78-87 | a successful registration appends exactly one row with that username, email and next id, whose hash verifies the password |
| Auth.AuthenticateUser | auth.py:90-110 | "User not found" iff no row matches; otherwise success iff the password verifies against the row `fetchone()` returns, returning that row |
| Auth.AuthenticateByUsername | auth.py:90-110 | with unique usernames, logging in by a username checks exactly that user's password and returns that user |
| Auth.AuthenticateByEmail | auth.py:90-110 | with unique emails, logging in by an email checks that user's password, unless some row has the email as its username |
| Auth.RegisterThenAuthenticate | auth.py:71-110 | after registering, the new username with the same password authenticates the new row |
| Auth.RegisterThenAuthenticateByEmail | auth.py:71-110 | after registering, the new email with the same password authenticates the new row, when no row has that email as its username |
| Auth.RegisterTwiceRejected | auth.py:72-77 | registering a taken username or email again is rejected and leaves the table as it is |
| Auth.AmbiguousIdentifier | auth.py:93-110 | users "bob" with email "carol" and "carol" can both register; "carol" then logs in as carol, and bob can no longer log in by his email even with his own password |
| Auth.CredentialStore.constructor | auth.py:17-34 | a new database holds an empty table that satisfies the invariant |
| Auth.CredentialStore.RegisterUser | auth.py:71-87 | returns the verdict, updates the table to `RegisterTable` and the id counter accordingly, and keeps the invariant |
| Auth.LoginUserSession | auth.py:121-123 | the session is authenticated and holds only id, username and email |
| Auth.LogoutUserSession | auth.py:126-129 | both keys are gone, so there is no current user and `require_login` stops the page |
| AdminPanel.LeTotal | components/admin_panel.py:242-248 | in every sort mode any two users are comparable |
| AdminPanel.LeTransitive | components/admin_panel.py:242-248 | every sort mode's order is transitive |
| AdminPanel.InsertSorted | components/admin_panel.py:246 | inserting into a sorted list keeps it sorted and adds exactly the one element |
| AdminPanel.SortSpec | components/admin_panel.py:245-248 | `sorted` returns a permutation of its input, sorted in the mode's order |
| AdminPanel.SortStable | components/admin_panel.py:245-248 | `sorted` is stable: the entries with any one key appear in the output in their input order, in both directions |
| AdminPanel.SortSortedIsIdentity | components/admin_panel.py:245-248 | sorting an already sorted list returns it unchanged |
| AdminPanel.ReverseNewestIsOldest | components/admin_panel.py:243-244 | `[::-1]` of the newest-first list is oldest first, with the same entries, and reversing twice gives it back |
| AdminPanel.ReverseMultiset | components/admin_panel.py:244 | reversing keeps exactly the same entries |
| AdminPanel.GetAllUsersSpec | components/admin_panel.py:8-14 | one summary per row (id, username, email, creation time), newest first |
| AdminPanel.FilterHitsMembers | components/admin_panel.py:240 | the comprehension keeps exactly the users whose lower-cased username or email contains the lower-cased term |
| AdminPanel.FilterHitsAppend | components/admin_panel.py:240 | the filter keeps the list's order |
| AdminPanel.FilterHitsSorted | components/admin_panel.py:239-240 | filtering a newest-first list leaves it newest first |
| AdminPanel.SearchFilterSpec | components/admin_panel.py:239-240 | the search keeps exactly the hits, and an empty term keeps the whole list |
| AdminPanel.ListingSpec | components/admin_panel.py:236-248 | the page shows exactly the users the search keeps, in the order the selected option names |
| AdminPanel.IsAdminSpec | components/admin_panel.py:174-175 | the allow-list ignores case, a user is admin iff the lower-cased username is "admin" or "administrator", and nobody without a user is admin |
| AdminPanel.AdminAccessSpec | components/admin_panel.py:169-180 | after logout nobody gets in, and a logged-in "Admin" does |
| AdminPanel.RemoveIdSpec | components/admin_panel.py:17-23 | `DELETE ... WHERE id = ?` keeps exactly the rows with another id, in table order, and a missing id changes nothing |
| AdminPanel.RemoveIdAppend | components/admin_panel.py:17-23 | deleting from two parts of the table joined is deleting from each part, in order |
| AdminPanel.RemoveIdKeepsInvariant | components/admin_panel.py:17-23 | deleting keeps the table's uniqueness and id invariant |
| AdminPanel.DeleteFreesIdentity | components/admin_panel.py:20 | after deleting a user no row has their id, username or email |
| AdminPanel.DeleteUser | components/admin_panel.py:17-23 | returns true iff a row had that id, leaves the table as `RemoveId` of the old one, and keeps the invariant |
| UploadComponent.HandleFileUpload | components/upload_page.py:53-81 | no upload changes nothing; otherwise the list is the batch appended under the name-and-size rule |
| UploadComponent.HandleSampleImages | components/upload_page.py:117-141 | the picked samples are appended under the name rule |
| UploadComponent.SampleLabelNamesDistinct | components/upload_page.py:105-128 | different sample labels give different file names |
| UploadComponent.SamplesAllAdded | components/upload_page.py:121-141 | distinct labels whose names are new are all added, in the order picked |
| UploadComponent.RemoveFile | components/upload_page.py:189-200 | Remove drops the first equal entry, and nothing happens without a list |
| UploadComponent.CaptureFrame | components/upload_page.py:219-234 | a captured frame is appended unconditionally, the list being created when absent |
| UploadComponent.CaptureTwiceDuplicatesName | components/upload_page.py:224-234 | two captures leave two entries named "captured_frame.jpg" |
| AnalysisComponent.GetDefectInfo | components/analysis_page.py:225-260 | every catalogue entry has one of the four known severities |
| AnalysisComponent.GetDefectInfoMonotone | components/analysis_page.py:228-254 | a more confident detection is never rated less severe, and the defect type does not depend on confidence |
| AnalysisComponent.GetDefectInfoThresholds | components/analysis_page.py:229-260 | each model's threshold as an if-and-only-if, and the "Unknown Defect"/"Medium" entry for other models |
| AnalysisComponent.SimulateVideoAnalysis | components/analysis_page.py:262-272 | exactly one detection, with confidence 0.85 and severity "Medium" |
| AnalysisComponent.AnalyzeSingleFile | components/analysis_page.py:161-183 | the result names the file; it has no detection iff the file is an image, and any detection is "Medium" |
| AnalysisComponent.AnalyzeAll | components/analysis_page.py:147-153 | one result per file, in upload order |
| AnalysisComponent.AnalyzeAllCounts | components/analysis_page.py:283-284 | a run's total, files with defects and "Medium" count all equal the number of non-image files, with no "Critical" |
| AnalysisComponent.RunInspectionAnalysis | components/analysis_page.py:128-153 | with no selected model the results are untouched; otherwise one result per upload is appended, in order |
| AnalysisComponent.BumpCounts | components/analysis_page.py:313-315 | one increment keeps every counter exact for one more detection |
| AnalysisComponent.CountDetections | components/analysis_page.py:312-315 | the inner loop leaves every counter exact for the detections seen so far |
| AnalysisComponent.SeverityBreakdown | components/analysis_page.py:309-315 | the breakdown has the four keys, each holding the number of detections with that severity |
| AnalysisComponent.BreakdownAddsUp | components/analysis_page.py:309-315 | on this page's results the four counters add up to the total detections |
| AnalysisComponent.AllMedium | components/analysis_page.py:172-180 | every detection of a run on this page is "Medium" |
| LoginForm.ValidateRegistration | components/_login.py:153-161 | the store is called iff no field is empty, the unstripped username has 3-20 characters and the passwords match; with stripped username and email |
| LoginForm.ValidateRegistrationOrder | components/_login.py:154-159 | an empty field is reported first; with all fields filled, a bad username length; with those passing, "Passwords do not match" exactly when the confirmation differs |
| LoginForm.ValidateRegistrationSubmitted | components/_login.py:156-161 | what reaches the store is trimmed and the username at most 20 characters |
| LoginForm.BlankUsernameSubmitted | components/_login.py:156-161 | a username of 3-20 white-space characters passes the length check and is submitted as the empty username |
| LoginForm.FormRegisterThenLogin | components/_login.py:128-161 | registering through the form and then logging in with the username as typed succeeds |
| LoginForm.SubmitRegistration | components/_login.py:153-165 | a rejected form changes nothing; a submitted one updates the table as `register_user` and shows its message |
| LoginForm.SubmitLogin | components/_login.py:128-135 | on success the session holds the user; on failure it is unchanged and the store's message is shown |
| LoginForm.LogoutButton | components/_login.py:110-113 | afterwards no user is logged in |
| LoginPage.SubmitRegistration | login.py:65-77 | the same validation chain and outcome as the component's form |
| LoginPage.SubmitLogin | login.py:40-47 | the session changes only when the stripped identifier authenticates |
| LoginPage.Logout | login.py:22-25 | afterwards no user is logged in |
| FlyscopeApp.DefaultPage | flyscope_app.py:79-81 | the remembered page if it is one of the seven, "Home" otherwise |
| FlyscopeApp.DefaultPageStable | flyscope_app.py:79-83 | writing the page back and preselecting again gives the same page |
| FlyscopeApp.Navigate | flyscope_app.py:69-83 | the shown page is the user's choice or the preselection, is one of the seven, and is stored in `nav` |
| FlyscopeApp.HandleFileUpload | flyscope_app.py:209-230 | the batch is appended under the whole-record rule |
| FlyscopeApp.HandleSampleImages | flyscope_app.py:251-269 | the picked samples are appended under the whole-record rule |
| FlyscopeApp.RemoveAtIndex | flyscope_app.py:308-310 | Remove of row `i` pops exactly position `i` |
| FlyscopeApp.ModelDetection | flyscope_app.py:474-481 | a detection is "High" iff its confidence exceeds 0.8, "Medium" otherwise |
| FlyscopeApp.DrawnDetectionsSpec | flyscope_app.py:468-483 | at most two detections per model, each from a selected model, within the threshold, "High" iff above 0.8 |
| FlyscopeApp.AnalyzeSingleFile | flyscope_app.py:457-485 | the nested loops produce the file's name, path and the detections of the draws, model by model |
| FlyscopeApp.Analyses | flyscope_app.py:443-449 | one result per file, in upload order, naming its file and holding the detections of that file's draws |
| FlyscopeApp.AnalysesBound | flyscope_app.py:468-472 | a run yields at most two detections per model and file |
| FlyscopeApp.RunInspectionAnalysis | flyscope_app.py:424-449 | with no selected model nothing changes; otherwise one result per upload is appended, in order |
| FlyscopeApp.HomeKpis | flyscope_app.py:105-108 | uploads and analyses are list lengths, detections are all detections, critical is the number of Critical detections, at most all of them, and zero iff none is Critical |
| FlyscopeApp.HomeKpisAfterRun | flyscope_app.py:106-108 | a run adds its results, detections and critical detections to the KPIs |
| FlyscopeApp.MarkerColour | flyscope_app.py:726 | red iff High or Critical, orange iff Medium, green for anything else |
| FlyscopeApp.ClearAllData | flyscope_app.py:799-803 | both lists are removed, so every Home KPI is zero |
| FlyscopeApp.SaveSettings | flyscope_app.py:824-827 | the settings page then preselects exactly the saved values |
| FlyscopeApp.ResetSettings | flyscope_app.py:831-834 | the settings become Dark, 0.7 and the two default models, the same as a session that never saved |
| UploadPage.HandleFileUpload | pages/upload_page.py:34-55 | the batch is appended under the whole-record rule |
| UploadPage.HandleSampleImages | pages/upload_page.py:91-109 | the picked samples are appended under the whole-record rule |
| UploadPage.RemoveAtIndex | pages/upload_page.py:149-151 | Remove of row `i` pops exactly position `i`, one entry shorter |
| UploadPage.CaptureFrame | pages/upload_page.py:174-184 | a captured frame is appended unconditionally |
| Dashboard.Lookup | app.py:61 | `district_data[district]` is the incident list stored under that district |
| Dashboard.FilterSeveritySpec | app.py:61 | the filter keeps exactly the incidents whose severity is selected, and never more |
| Dashboard.FilterSeverityAppend | app.py:61 | the filter keeps the incidents' order |
| Dashboard.FullFilterKeepsAll | app.py:56-58 | with all four severities selected, the default, nothing is filtered out |
| Dashboard.LookupInAll | app.py:60-61 | a district's incidents are among all incidents |
| Dashboard.CountCriticalBound | app.py:64 | the critical count is at most the number of incidents |
| Dashboard.CountCriticalAppend | app.py:64 | critical counts add over concatenation |
| Dashboard.Kpis | app.py:60-64 | critical <= total, and district sites <= the district's incidents <= total sites |
| Dashboard.KpisStateWide | app.py:60-64 | the total and critical KPIs do not depend on the district or the severity filter |
| Dashboard.DistrictDataFacts | app.py:25-50 | the data set holds twelve incidents, three critical, all with a known severity |
| Dashboard.MarkerColour | app.py:102 | red iff High or Critical, orange otherwise |
| Dashboard.GuidanceLines | app.py:144 | an unknown district gets no alert line; a known one its stored lines |
| Dashboard.GuidanceCoversDistricts | app.py:112-144 | every district of the data set has three alert lines |

## Left out

- PBKDF2-HMAC-SHA256 internals, `bytes.fromhex` and UTF-8 encoding are not modelled. The key derivation is an arbitrary deterministic function.
- `secrets.compare_digest` is modelled as plain equality, because its timing cannot be expressed.
- SQLite plumbing is not modelled: connections, `PRAGMA`, `CREATE TABLE IF NOT EXISTS` and the `AUTOINCREMENT` table. The id counter `nextId` stands in for them.
- Auth.FetchOne: SQL does not order the rows of a query without `ORDER BY`. The model takes the plan SQLite picks for `username = ? OR email = ?` over the two `UNIQUE` indexes of a table without statistics: search the username index, then the email index. Another plan could return a row with only the email ahead of a row with the username.
- AdminPanel.GetAllUsers: rows with equal `created_at` come out in an order SQLite leaves unspecified. The model keeps insertion order among them. The contract only promises newest-first order and the same entries.
- `get_user_stats` is left out because it depends on the wall clock through `date('now')`.
- The race between the existence check and the insert in `register_user` is left out, because the model is single-threaded.
- Text.Lower: only ASCII letters are lower-cased, while Python's `str.lower` folds all of Unicode. The model also has no Unicode normalisation.
- Auth.CredentialStore.RegisterUser: requires the drawn salt to have the shape of `token_hex(16)`, which is what `secrets` returns.
- AnalysisComponent.RunInspectionAnalysis: requires an upload list, because the page calls it only after checking that one exists and is non-empty (components/analysis_page.py:21-23). FlyscopeApp.RunInspectionAnalysis has the same requirement, for flyscope_app.py:342-344.
- FlyscopeApp.RunInspectionAnalysis: the random draws are parameters and are not read from `confidence_threshold`. `ValidDraws` states the bounds `random` guarantees, and the lemmas take them as a precondition.
- The random bounding boxes and confidences of `simulate_defect_detection` are not modelled. That function is never reached, because `cv2` is not imported in components/analysis_page.py, so image files keep an empty detection list.
- Random map geotags are not modelled.
- The Laplacian blur score and the brightness are computed with OpenCV and floating point. Only the labelling thresholds are modelled.
- Average confidence is a floating-point division and is not modelled.
- `analysis_time` timestamps are not modelled.
- Temp-file writes and unlinks are not modelled. Temp paths and file sizes are parameters.
- Sample-image drawing, PDF, CSV and ZIP exports are not modelled.
- Pages that only present data are not modelled: rendering, CSS, folium maps, plotly charts, `ui.py`, `sidebar_nav.py`, the annotation pages and `emptyandfull.py`.
- The `analysis_mode` and `detection_sensitivity` keys are not modelled. They are only displayed.
- FlyscopeApp.HomeKpis: the critical count uses `d.get('severity')`, while the model reads the severity field directly. The two agree because every detection the app builds has a severity.
- Dashboard.Lookup: requires the district to be a key of the data, which the select box guarantees.
- Auth.RequireLogin: `st.stop()` is modelled as the predicate saying whether the page goes on.
