# Face-recognition attendance: a verified model of the decision core

This project models, in Dafny, the decision core of a face-recognition attendance system for a campus.

A camera loop detects faces. For each face it picks the best-matching registered employee and accepts the match only above a similarity threshold. It then refines that employee's stored embedding from a bounded history of recent sightings. For employees who have just come into view, it logs an entry or an exit. A one-minute cooldown suppresses duplicate logs.

Around that loop sit four more parts:
- a table layer: employees, entry logs and exit logs;
- an admin panel: employee details, search, registration and deletion;
- a live registrar that captures face images pose by pose from camera and keyboard events;
- a routine that turns images into one stored embedding.

The modules follow the program's files:

- `FaceProcessor` (face_processor.dfy):
  - the detector's confidence filter;
  - the ten-slot embedding history behind the adaptive update;
  - the reset to the anchor embedding.

  Cosine similarity and the weighted-mean refinement are passed in as functions (`Similarity`, `Refiner`), so that every decision around them is exact.
- `Database` (database.dfy):
  - the three tables as row sequences in class `Db`, with their AUTOINCREMENT counters;
  - the unique-id insert, the embedding update, the log inserts, the cascade delete and the log deletes;
  - the last-entry/last-exit queries and the status derivation of the details query.
- `Recognition` (recognition.dfy), class `RecognitionApp` with roster, presence set and cooldown map as fields:
  - roster loading;
  - first-maximum match selection and the threshold gate;
  - the write-through of refined embeddings;
  - the entry/exit choice and the cooldown state machine;
  - the per-frame presence update;
  - the frame loop.
- `Admin` (admin.dfy), class `AdminApp`:
  - the elapsed-time split and its pluralised display;
  - the case-insensitive search;
  - the status label;
  - the registration gates and the upload path;
  - deletion of selected employees and selected logs.
- `Registrar` (registrar.dfy), class `EmployeeRegistrar`:
  - the pose plan;
  - the `capture_pose` loop as a method driven by a sequence of camera and keyboard events, proved against a reference count;
  - the capture file names;
  - registration from the first embedding of each image.
- `Basics` and `Text` (basics.dfy, text.dfy): `Option`, the order-preserving filter behind list comprehensions and `DELETE ... WHERE`, `str(int)`, ASCII `lower()` and substring search.

Conventions:
- Timestamps are integers in microseconds, the resolution of Python's `datetime`. The one-minute cooldown is therefore `60 * 1000000`.
- Dafny's `/` and `%` by a positive divisor agree with Python's floor `divmod`, also for negative totals.
- The current time is a parameter: one `now` per frame.

Notes on the code's behaviour:

- **Cooldown and presence keys.** The cooldown map and the presence set are keyed by the database's integer `id` (recognition_app.py:118-121).
- **Anchor.** The anchor (`original_encoding`) is the stored encoding at the time the roster is loaded (recognition_app.py:41). Because refined encodings are written back, it is not necessarily the encoding from registration.
- **Ties.** Python's `max` keeps the first maximal record in roster order, which is database row order.
- **Reset.** `reset_embedding` sets the history to `[original_encoding]` (face_processor.py:59).
- **Persistence failures.** The code has no result type for persistence failures. `save_employee` re-raises on a duplicate institute id; the admin panel catches that error, the registrar does not (see `RegisterFromImages`).

## Model

| member | source | states |
|---|---|---|
| FaceProcessor.DetectFacesKeeps | face_processor.py:36-37 | exactly the faces with detection score strictly above 0.6 are kept; each kept face comes from the input; filtering distributes over concatenation, so detector order is kept |
| FaceProcessor.PushHistoryWindow | face_processor.py:46-48 | after one push the window has length min(old+1, 10), ends with the new observation, and is a suffix of old history + [observation] (oldest evicted first) |
| FaceProcessor.ReplayIsLastWindow | face_processor.py:46-48 | from a window of at most 10, any series of pushes leaves exactly the last 10 of history followed by all observations |
| FaceProcessor.WindowLength | face_processor.py:46-48 | from the one-element history set at load, k updates give a window of length min(k+1, 10) ending with the newest observation |
| FaceProcessor.UpdateEmbeddingEffect | face_processor.py:39-55 | `update_embedding` changes only the history; the new history is the pushed window (≤ 10, ending with the observation); the returned vector is the refinement of the anchor by exactly that window |
| FaceProcessor.UpdateWithoutHistory | face_processor.py:43-46 | a record with no history ends with history [original_encoding, observation] |
| FaceProcessor.ResetEmbedding | face_processor.py:57-59 | encoding becomes the anchor, history becomes [anchor], everything else stays |
| FaceProcessor.ResetIdempotent | face_processor.py:57-59 | resetting twice equals resetting once |
| Database.FindByInstituteId | database_handler.py:270-272 | the lookup finds nothing exactly when no row has the institute id, else the first row that has it |
| Database.LastTimeIsMax | database_handler.py:121-139 | `MAX(time)` over one employee's rows: None exactly when they have no row; otherwise a time of one of their rows and at least every other of their times |
| Database.CountRows | database_handler.py:194-195 | `COUNT(*)` for an employee is at most the table size |
| Database.CountRowsIsFilterLength | database_handler.py:194-195 | `COUNT(*)` for an employee is the number of rows the same `WHERE employee_id = ?` filter keeps |
| Database.CountAfterDelete | database_handler.py:278-279 | after deleting an employee's log rows their count is zero, and every other employee's count is unchanged |
| Database.CountMatchesLastTime | database_handler.py:194-198 | the count is zero exactly when the last time is None |
| Database.DeriveStatus | database_handler.py:200-211 | status 'entry' exactly when an entry exists and is strictly later than any exit; None exactly when neither exists; equal times give 'exit'; the last log time is the later of the two |
| Database.Db.constructor | database_handler.py:20-50 | three empty tables satisfying the key invariants |
| Database.Db.SaveEmployee | database_handler.py:52-69 | insert succeeds exactly when the institute id is new (UNIQUE); appends one row with the next id; on a duplicate nothing changes; logs untouched |
| Database.Db.UpdateEmployeeEmbedding | database_handler.py:71-78 | the table becomes `SetEncoding` of the old table |
| Database.Db.LogEntry | database_handler.py:244-253 | appends one entry row with the next log id and the given time |
| Database.Db.LogExit | database_handler.py:255-264 | appends one exit row with the next log id and the given time |
| Database.Db.GetEmployeeData | database_handler.py:98-110 | one record per row, in table order, carrying id, institute id, name and encoding |
| Database.Db.GetEmployeeDetails | database_handler.py:191-222 | defined exactly for a known institute id; last log type always equals current status |
| Database.DetailsOfKnownEmployee | database_handler.py:191-222 | for a known employee: counts are their numbers of entry and exit rows, last time is the later maximum, status 'entry' iff the last entry is strictly later, no status iff no logs |
| Database.Db.DeleteEmployee | database_handler.py:266-288 | unknown id: false and nothing changes; known id: true, the employee row and all of their entry and exit rows are removed, other rows kept in order |
| Database.Db.DeleteEntryLog | database_handler.py:172-179 | the entry row with that key is removed, others kept |
| Database.Db.DeleteExitLog | database_handler.py:181-188 | the exit row with that key is removed, others kept |
| Database.RemovalKeepsKeys | database_handler.py:279-281 | the cascade delete keeps all keys and institute ids unique |
| Database.NoOtherRowHasInstituteId | database_handler.py:279-281 | after deleting by key no row with the deleted institute id remains |
| Database.RemovalKeepsOthers | database_handler.py:279-281 | deleting by key keeps every row with another institute id and adds nothing |
| Recognition.LoadRecord | recognition_app.py:37-45 | a roster record copies the row, sets the anchor to the current encoding and the history to [encoding] |
| Recognition.LoadRoster | recognition_app.py:37-45 | one record per employee row, in row order |
| Recognition.FirstBest | recognition_app.py:54-58 | `max(..., default=None)`: None exactly for an empty roster, otherwise an index into the roster |
| Recognition.FirstBestIsFirstMax | recognition_app.py:54-58 | the chosen record has maximal similarity and every earlier record is strictly lower (ties go to the first) |
| Recognition.SelectBestMatch | recognition_app.py:54-58 | the scanning loop returns exactly the first maximum |
| Recognition.MatchFaceSpec | recognition_app.py:51-70 | identities and roster length unchanged; accepted exactly when the best similarity is strictly above 0.6; a rejected face changes no encoding or history; an accepted face replaces only the best record, with pushed history and the refined encoding |
| Recognition.EmptyRosterRecognizesNobody | recognition_app.py:54-60 | an empty roster recognises nobody and changes nothing |
| Recognition.RecognizeKeepsRoster | recognition_app.py:47-72 | the roster keeps its identities; at most one result per face; every result is a roster identity |
| Recognition.ApplyWritesAt | recognition_app.py:67-69 | after the writes of a frame, each row carries the last encoding written for its institute id, or its old one |
| Recognition.AcceptsClearBestMatch | recognition_app.py:54-70 | with similarities 0.9 and 0.4 the first record is accepted and the second untouched |
| Recognition.ChooseLogTypeFlipsStatus | recognition_app.py:74-80 | 'exit' exactly when the derived status is 'entry'; 'entry' with no logs and with equal times |
| Recognition.AccessEffect | recognition_app.py:82-97 | inside the cooldown nothing changes; otherwise exactly one row of the given kind is written at `now` and only that id's cooldown time is set to `now` |
| Recognition.AccessAdvancesCooldown | recognition_app.py:84-95 | cooldown times never go back and no key disappears, whatever the clock reads |
| Recognition.CommitIsRemembered | recognition_app.py:84-95 | after a commit the id's cooldown time is at least that commit's time for the rest of the run, whatever the clock reads |
| Recognition.CooldownSpacing | recognition_app.py:84-88 | two commits for the same id are at least 60 s apart, also when the clock goes back between them |
| Recognition.ArrivalsAreNewIds | recognition_app.py:116-121 | at most one log decision per id per frame, and exactly for the ids recognised now that were absent from the previous frame |
| Recognition.EntryThenSuppressedThenExit | recognition_app.py:74-97 | first sighting logs an entry; a re-arrival 30 s later is suppressed; one 70 s later logs an exit |
| Recognition.FramesProcessedStops | recognition_app.py:109-131 | the loop processes only readable frames, stops at the first unreadable frame or right after a 'q' frame, and never runs past the input |
| Recognition.RecognitionApp.constructor | recognition_app.py:18-25 | roster loaded from the table, empty presence set and cooldown map |
| Recognition.RecognitionApp.LoadKnownEmbeddings | recognition_app.py:37-45 | the roster becomes `LoadRoster` of the employee table |
| Recognition.RecognitionApp.RecognizeFace | recognition_app.py:51-70 | one face: roster and result as `MatchFace`; an accepted encoding is written through under its institute id |
| Recognition.RecognitionApp.RecognizeEmployees | recognition_app.py:47-72 | roster and results as `RecognizeFaces` over the confident faces; the table gets exactly the frame's writes |
| Recognition.RecognitionApp.LogAccess | recognition_app.py:82-97 | commits exactly when the cooldown has elapsed; logs and cooldown map change as `Access` |
| Recognition.RecognitionApp.Arrive | recognition_app.py:118-121 | an id not yet present is added and logged with the chosen kind; a present id changes nothing |
| Recognition.RecognitionApp.UpdatePresence | recognition_app.py:116-125 | the arrivals are `NewArrivals`, the logs change as `LogArrivals`, and the presence set becomes exactly the frame's ids |
| Recognition.RecognitionApp.ProcessFrame | recognition_app.py:110-125 | one frame: recognition, write-through and presence update composed |
| Recognition.RecognitionApp.Run | recognition_app.py:107-133 | processes exactly `FramesProcessed(frames)` frames; the roster, employees table, logs, cooldown map and presence set end as `RunFrames`, one `FrameStep` per processed frame |
| Recognition.ArrivalsAreAccessRun | recognition_app.py:116-121 | logging a frame's arrivals is one `log_access` call per arrival, in order, each with the type chosen on the logs so far |
| Recognition.ArrivalCallsAt | recognition_app.py:116-121 | the k-th call of a frame is for the k-th arrival's id, at the frame's time |
| Recognition.AccessRunAppend | recognition_app.py:82-97 | running two series of `log_access` calls in turn equals running their concatenation |
| Recognition.RunIsAccessRun | recognition_app.py:107-133 | over a whole run, the logs and cooldown map are those of one series of `log_access` calls, frame after frame |
| Recognition.AppendAtTime | recognition_app.py:82-83 | calls in time order followed by calls made at a later-or-equal time stay in time order |
| Recognition.RunCallsInTimeOrder | recognition_app.py:107-133 | with a clock that never goes back, the calls of a run are in time order and none is later than the last frame |
| Recognition.RunCooldownSpacing | recognition_app.py:84-95 | over a whole run of the application, two logged events for the same id are at least a minute apart, whatever the clock reads at each frame |
| Admin.TotalSeconds | Admin_Control.py:68 | `int()` truncates toward zero: the result is within one second of the elapsed time, on the side of zero |
| Admin.SplitElapsed | Admin_Control.py:69-70 | hours·3600 + minutes·60 + seconds = total with 0 ≤ minutes, seconds < 60, also for negative totals |
| Admin.SplitElapsedUnique | Admin_Control.py:69-70 | that split is the only one with those bounds |
| Admin.ElapsedLine | Admin_Control.py:63-74 | the elapsed line is shown exactly when there is a last log time |
| Admin.TimeDisplayShowsWholeMinutes | Admin_Control.py:73 | two totals display the same text exactly when they have the same whole minutes (seconds are dropped) |
| Admin.TimeDisplayOneHour | Admin_Control.py:73 | 3600 s display "1 hour and 0 minutes" (singular only for a count of 1) |
| Admin.TimeDisplayDropsSeconds | Admin_Control.py:73 | 7319 s display "2 hours and 1 minute" |
| Admin.SearchFilterKeeps | Admin_Control.py:42 | kept exactly the employees whose lower-cased institute id contains the lower-cased search, in order |
| Admin.EmptySearchKeepsAll | Admin_Control.py:42 | an empty search keeps everyone |
| Admin.SearchIgnoresCase | Admin_Control.py:141 | searching with the lower-cased text gives the same list |
| Admin.StatusLabel | Admin_Control.py:61 | the label is one of "Inside Campus" and "Outside Campus" |
| Admin.StatusLabelMatchesNextLog | Admin_Control.py:61 | "Inside Campus" exactly when the next recognised arrival would log an exit; otherwise (including never logged) "Outside Campus" |
| Admin.WithoutLogsSpec | Admin_Control.py:183-194 | deleting selected logs leaves no selected key, keeps every unselected row, in order |
| Admin.WithoutLogsStep | Admin_Control.py:183-194 | deleting one more selected key equals deleting the longer selection |
| Admin.WithoutInstituteIdsDeletes | Admin_Control.py:148-153 | the filtered employees table keeps no selected institute id, keeps every other row and adds nothing |
| Admin.KeepAllEmployees | Admin_Control.py:148-153 | selecting no institute id of the table deletes no employee |
| Admin.KeepAllLogs | database_handler.py:278-279 | deleting the logs of ids no log row refers to deletes nothing |
| Admin.KeyOfFoundRow | database_handler.py:270-276 | a remaining row found by institute id has the one database id that goes with that institute id |
| Admin.DeleteFound | database_handler.py:266-284 | a `delete_employee` that finds the id leaves the table with one more institute id deleted, and its key joins the deleted keys |
| Admin.DeleteMissing | database_handler.py:270-274 | a `delete_employee` that finds nothing leaves the deletion as it was |
| Admin.DeleteLogsStep | database_handler.py:278-279 | deleting one more employee's log rows equals deleting the rows of the enlarged id set |
| Admin.EmployeesOneMore | Admin_Control.py:149-150 | one `delete_employee` call extends the deletion of the employees table by that institute id |
| Admin.LogsOneMore | Admin_Control.py:149-150 | one `delete_employee` call extends the deletion of a log table by the rows of the employee it removed |
| Admin.AdminApp.constructor | Admin_Control.py:13-16 | the panel and its registrar share one database |
| Admin.AdminApp.ProcessUploadedPhotos | Admin_Control.py:95-113 | no embeddings: nothing saved; duplicate id: reported, nothing saved; otherwise one row with the average of the first embeddings and the first upload as photo |
| Admin.AdminApp.RegisterEmployee | Admin_Control.py:79-93 | the upload path runs exactly when clicked with name, id and exactly ten files, and then ends as `ProcessUploadedPhotos` (no embeddings, duplicate id, or one appended row); the live path runs exactly when clicked with name and id, and then ends as `CaptureFaceSamples` for that name and id; otherwise nothing changes; logs are untouched |
| Admin.AdminApp.DeleteSelectedEmployees | Admin_Control.py:148-153 | the employees table is the old one filtered, in order, to the unselected institute ids; each log table is the old one without the rows of the deleted employees' database ids; so no selected id remains, every unselected employee remains and nothing is added |
| Admin.AdminApp.DeleteSelectedLogs | Admin_Control.py:183-194 | the chosen table holds exactly its unselected rows; the other table is unchanged |
| Registrar.RunCapture | employee_registrar.py:56-79 | the loop never makes more passes than there are events |
| Registrar.RunCaptureStable | employee_registrar.py:57 | once the loop has ended, later events change nothing |
| Registrar.CapturePose | employee_registrar.py:52-79 | the captured paths and the number of camera reads are those of `RunCapture` |
| Registrar.CountStep | employee_registrar.py:57-77 | one more pass keeps the captured count equal to the reference count |
| Registrar.CaptureCount | employee_registrar.py:57-77 | captured count = min(requested, readable 'c' frames with exactly one face before the first 'q'); the loop quits only if the events hold a 'q'; a 'q' that never ended the loop came after the pose was complete |
| Registrar.CaptureNames | employee_registrar.py:70-72 | the captures are the pose's paths numbered 1, 2, … in order |
| Registrar.CaptureBounded | employee_registrar.py:57 | a pose returns at most the requested number of paths |
| Registrar.QuitEndsPose | employee_registrar.py:76-77 | events after a 'q' add nothing |
| Registrar.UnreadableFrameChangesNothing | employee_registrar.py:59-60 | removing a failed read anywhere leaves the captured paths unchanged |
| Registrar.RunPlan | employee_registrar.py:41-43 | the plan's camera reads never exceed the events |
| Registrar.PlanBounded | employee_registrar.py:41-43 | a plan captures at most the sum of its poses' counts |
| Registrar.PosePlanAtMostTen | employee_registrar.py:31-43 | the plan asks for ten images and never yields more |
| Registrar.CapturePlan | employee_registrar.py:39-43 | `all_images` is the concatenation of the poses' captures, each pose continuing where the previous one stopped |
| Registrar.FirstEmbeddingsEmpty | employee_registrar.py:86-93 | at most one embedding per image; none exactly when no image has a face |
| Registrar.RegisterFromImages | employee_registrar.py:81-99 | saves only if some image gave an embedding and the institute id is new; the row holds the average of the first embeddings; logs untouched |
| Registrar.EmployeeRegistrar.constructor | employee_registrar.py:11-13 | the registrar writes to the given database |
| Registrar.EmployeeRegistrar.CaptureFaceSamples | employee_registrar.py:15-50 | a missing name or id is replaced by the typed one; the images are the plan's captures; registration is attempted exactly when some image was captured, from the files the folder lists, with the first capture as photo: nothing saved without embeddings or on a duplicate id, else one appended row with the average |

## Left out

- Floating-point vector maths: cosine similarity, the 0.95/0.05 weighted mean with normalisation, and the registration average. These are the parameters `Similarity`, `Refiner` and `average`, so unit-norm claims are not stated.
- The insightface detector and embedder: faces, scores and embeddings are inputs.
- OpenCV capture, drawing, `imshow` and `waitKey`: the camera and keyboard are sequences of `FrameInput` or `CaptureEvent`.
- The `winsound` beep, Streamlit widgets and `display_employee_info`: they have no effect on the state.
- PIL and JPEG encoding: photos are byte sequences as given.
- `cv2.imwrite`, `os.makedirs` and `os.listdir`: the folder listing is a parameter in whatever order the filesystem gives, possibly holding files from earlier sessions.
- SQL and sqlite plumbing, `get_connection`, and the row factory: tables are sequences of rows.
- SQLite returns timestamps as text and compares them as text. The model uses ordered integers.
- `config.py`: its constants appear as Dafny constants (`DETECTION_THRESHOLD`, `FACE_DETECTION_CONFIDENCE`, the `EMPLOYEE_DATA_ROOT` parameter).
- The shadowed first definitions of `_load_known_embeddings` (recognition_app.py:27-35), `log_entry` and `log_exit` (database_handler.py:80-96): only the later definitions are live.
- The `for i in range(1)` wrapper (recognition_app.py:53): it runs once, so it is not a loop.
- Update in place and aliasing: `update_embedding`, `reset_embedding` and the recognition loop mutate shared Python dicts. The model replaces the record value in the roster sequence, and the result list holds copies. Presence and logging read only id and name from the results. The display (`display_employee_info`, left out) also reads `bbox` and `confidence`. When two faces in one frame match the same employee, the source's results share one dict, so both show the last face's `bbox` and `confidence`. The model's copies keep each face's own values. The copies differ from the shared dicts only in fields that presence and logging do not read: the sighting fields and the refined encoding and history.
- The time source: `log_access` and `log_entry` each call `datetime.now()`. The model uses one `now` per frame for the whole frame.
- Recognition.RecognitionApp.Run: unreadable frames end the recognition loop. The frame sequence is finite, so a camera that never stops is not modelled.
- Registrar.CapturePose: an exhausted event sequence also ends the loop. The source would keep reading the camera forever.
- Admin.ElapsedLine: `strptime` parsing is not modelled. The last log time and `now` are integers.
- Text input typed at the registrar's prompt is taken as already stripped of surrounding blanks (`strip()`).
- `Text.Lower` lowers ASCII letters only; Python's `str.lower` is full Unicode.
- `LoadRoster` builds a dict keyed by institute id. It equals the row list only because the table keeps institute ids unique, and `Db.Valid` states that uniqueness.
- `get_entry_logs_by_date`, `get_exit_logs_by_date`, `get_entry_logs`, `get_exit_logs`, `get_employee_photo`, `view_logs`, `display_logs` and `select_logs` are left out. They are read-only queries and UI over the same tables, and the date filter needs calendar arithmetic.
- `manual_log_entry` (Admin_Control.py:115-134) is left out. It ignores the chosen date and time and indexes the lookup result before checking it.
- `EmployeeRegistrar.capture_face_samples` re-raises a duplicate-id error from `save_employee`. The model returns `DuplicateInstituteId` instead of modelling the crash.
- Database.Db.GetEmployeeDetails: returns None for an unknown institute id. The source raises a `TypeError` there, because it indexes `emp['id']` on a missing row (database_handler.py:193-194).
- Persistence errors are not modelled: the SQL statements do not fail. `delete_entry_log` and `delete_exit_log` therefore always report success.
