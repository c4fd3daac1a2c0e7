# Smart Attendance System — a verified model of its rules

Smart Attendance System registers students, prints a QR code per student and records
attendance. Attendance comes from a QR scan or a recognised face, and it is written to a CSV
ledger. The system exists twice:

- a Tk desktop application (`gui_main.py`);
- a set of stand-alone scripts (`src/*.py`).

Under the camera and window code sit small sequential rules. This project states those rules
in Dafny and proves what they guarantee:

- the enrolment validators and the GUI's first-failure-wins check chain;
- parsing of `students.csv` into a student table;
- the two attendance ledgers: the GUI's six-column appender and the scripts' scan-then-append
  ledger;
- the per-frame decisions of QR and face sessions, and the `camera_active` gate;
- the QR-image registry;
- the training label assignment;
- the face-capture counter with its cap of 30;
- the registration script's save-only-on-`s` rule.

Camera frames are finite input sequences. Each frame carries its content (a decoded QR payload,
a list of detected faces with predicted label and confidence, a face count, or a picture) and
the raw `waitKey` value. Files are values or small classes:

- `CsvStore.CsvFile` is a CSV file that may be absent or unreadable, holding rows of strings;
- `GenerateQr.QrFolder` is the set of ids that have a QR image;
- `FaceRegister.FaceStore` maps a student folder to its image names;
- `FaceTrain.ModelStore` holds the saved model and label map;
- `RegisterScript.PhotoStore` holds the saved photos.

Python exceptions that end a script or thread are modelled as a crash outcome, not as
preconditions. These are an unreadable file, a short ledger row at `row[2]`, a `None` cell from
`csv.DictReader` that is then stripped, and a missing model or label map. The model then shows
what was written before the crash.

The label-map quirk of the face attendance script is modelled literally:

- `face_train.py` pickles `label -> student id`;
- `face_attendance.py:21` inverts it to `student id -> label`;
- line 63 then looks up the integer label in a map keyed by id strings.

Keys are the tagged type `LabelMap.PyKey` (`IntKey` / `StrKey`), so the lookup visibly never
hits. `FaceScript.TrainedMapMarksNobody` proves that a session with a map produced by training
marks nobody.

Modules: `Text`, `Wrappers`, `CsvStore`, `Camera`, `LabelMap` and `Validation` are shared
helpers. `GuiStudents`, `GuiRegistration`, `GuiQr` and `GuiSessions` model `gui_main.py`.
`GenerateQr`, `ScriptLedger`, `QrScript`, `FaceScript`, `FaceTrain`, `FaceRegister` and
`RegisterScript` model the scripts.

## Model

| member | source | states |
|---|---|---|
| Text.Strip | gui_main.py:249-252 | `str.strip()`: the result is a middle slice of the input with only whitespace cut from both ends; it has no leading or trailing whitespace; it is unchanged on stripped input; it is empty iff the input is all whitespace |
| Text.NatStringInjective | src/face_register.py:37 | different counts give different decimal strings, so numbered file names never collide |
| Camera.KeyByte | src/qr_attendance.py:58 | `waitKey() & 0xFF` lies in 0..255 and keeps any key that is already a byte |
| Camera.Consumed | src/qr_attendance.py:43-59 | the frames a capture loop reads: a prefix of the input with no quit key before its last frame, ending at the first quit key or at the end of input |
| Camera.ConsumedAtQuit | src/face_attendance.py:78-80 | when the first quit key is in frame i, exactly frames 0..i are read |
| Camera.ConsumedStep | src/qr_attendance.py:43-59 | after a frame the loop reads, it stops iff that frame's key is 'q' or the input ends there; on 'q' the frames read are exactly those up to it |
| Camera.ConsumedSplit | src/qr_attendance.py:43-59 | the frames read start with any prefix of themselves taken from the input |
| CsvStore.CsvFile.Append | src/qr_attendance.py:27-34 | appending in mode "a" creates a missing file and adds exactly one row at the end |
| CsvStore.CsvFile.AppendWithHeader | src/register_student.py:14-22 | the header is written only when the file did not exist, then exactly one row is appended |
| CsvStore.LastIndexOf | gui_main.py:55-57 | `csv.DictReader` takes a key's value from the last header column with that name; -1 iff the name is not a column |
| CsvStore.NonBlank | gui_main.py:54-61 | the rows `csv.DictReader` yields are exactly the non-blank lines after the header: every kept line is non-blank and from the file, and each non-blank line is kept exactly as many times as it occurs |
| CsvStore.Field | gui_main.py:63-66 | a cell is "missing" iff its key is not in the header (`row.get` gives the default) |
| Validation.NameTextIff | src/register_student.py:37-38 | the name rule holds iff the name has only letters, spaces and hyphens and at least one letter |
| LabelMap.DictGet | src/face_attendance.py:63-64 | a dict lookup fails iff no pair has that key |
| LabelMap.InvertInverse | src/face_attendance.py:21 | with distinct values, `id_map[v] == k` for every pair `(k, v)` of the label map |
| LabelMap.InvertFrom | src/face_attendance.py:21 | every key of `id_map` comes from a pair `(id_map[v], v)` of the label map |
| LabelMap.InvertedPickleKeys | src/face_attendance.py:21 | inverting a trained label map gives only string keys |
| GuiStudents.StudentTable | gui_main.py:49-72 | an absent or unreadable file, or a header lacking `student_id` or `name`, gives the empty table |
| GuiStudents.RowEffectFacts | gui_main.py:62-68 | a stored row had a non-empty id and name; id and fields are stripped; missing course or email become "" |
| GuiStudents.CollectLastWins | gui_main.py:62-68 | an id is in the table iff some row stores it, and the table holds the last such row's record |
| GuiStudents.CrashAborts | gui_main.py:69-71 | a row that raises (a `None` course or email) makes the whole load fail |
| GuiStudents.CrashWitness | gui_main.py:69-71 | a failed load always has a row that raises |
| GuiStudents.TableStripped | gui_main.py:64-67 | every key and field of the table is stripped |
| GuiStudents.LoadStudents | gui_main.py:49-72 | the loop computes exactly the student table |
| GuiStudents.FillStudents | gui_main.py:62-68 | the row loop computes the fold of row effects, stopping at the first raising row |
| GuiStudents.MarkAttendance | gui_main.py:74-86 | the header is written only when the file did not exist, then exactly that one row is appended; the file then exists and is readable unless it already existed unreadable |
| GuiRegistration.IndexOf | gui_main.py:245 | the first index of a character, or -1 iff it is absent |
| GuiRegistration.LastIndex | gui_main.py:245 | the last index of a character, or -1 iff it is absent |
| GuiRegistration.EmailShapeIsLanguage | gui_main.py:245 | the hand-written shape check accepts exactly the language of `[a-zA-Z0-9._%+-]+@[a-zA-Z0-9.-]+\.[a-zA-Z]{2,}` |
| GuiRegistration.EmailHasOneAt | gui_main.py:245 | an accepted address has exactly one `@` |
| GuiRegistration.ValidateStrippedEmail | gui_main.py:241-246 | on stripped input `validate_email` holds iff the address is in the pattern's language; the empty address is rejected |
| GuiRegistration.FirstFailureWins | gui_main.py:258-318 | the reported rejection is a check that fails, and every earlier check in the fixed order passes |
| GuiRegistration.CheckPasses | gui_main.py:258-318 | the chain accepts iff every check passes |
| GuiRegistration.AcceptedIff | gui_main.py:258-318 | acceptance in plain terms: an unregistered 8-digit id; a name of length ≥ 2 with only letters, spaces and hyphens and at least one letter; a course of length ≥ 2 in the allowed set; an email in the pattern's language |
| GuiRegistration.GuiIdChecksAreIdRule | gui_main.py:258-270 | the GUI's three id checks reject exactly the ids the 8-digit rule rejects |
| GuiRegistration.SaveStudent | gui_main.py:248-341 | stripped fields, a result equal to the chain's verdict against the loaded ids; a rejection leaves the file as it was (rows, presence, readability); acceptance appends exactly `[id, name, course, email]`, plus the header when the file was absent, and the file then exists and is readable unless it already existed unreadable |
| GenerateQr.QrFolder.Save | src/generate_qr.py:36 | saving adds exactly that id's image |
| GenerateQr.InvalidIgnoresFolder | src/generate_qr.py:14-19 | the result is "invalid" iff the stripped id fails the 8-digit rule, whatever images exist; then nothing changes |
| GenerateQr.ExistsLeavesFolder | src/generate_qr.py:21-24 | the result is "exists" iff the id is valid and already has an image; then nothing changes |
| GenerateQr.CreateThenExists | src/generate_qr.py:21-38 | a creation adds exactly the stripped id, and an immediate second call reports "exists" |
| GenerateQr.GenerateIdempotent | src/generate_qr.py:13-38 | a second call leaves the folder as the first call left it |
| GenerateQr.GenerateQrForStudent | src/generate_qr.py:13-38 | result and new folder are the outcome function of the old folder and the raw id |
| GenerateQr.RowId | src/generate_qr.py:50 | the id read from a row is stripped |
| GenerateQr.BatchIdsNonEmpty | src/generate_qr.py:50-52 | every id the batch processes is non-empty, and there are no more ids than rows |
| GenerateQr.RaisingRowStops | src/generate_qr.py:50 | a row whose `student_id` cell is `None` ends the batch with an exception |
| GenerateQr.StopWitness | src/generate_qr.py:50 | a batch ends with an exception only because of such a row |
| GenerateQr.ValidIdsAppend | src/generate_qr.py:17-19 | processing an id adds it to the created set iff it is a valid id |
| GenerateQr.GenerateQrForAll | src/generate_qr.py:42-52 | an absent file does nothing; otherwise the folder gains exactly the valid ids of the non-empty rows read before any exception |
| GenerateQr.RunBatch | src/generate_qr.py:49-55 | the row loop computes the batch function: its ids, its exception, the images added |
| GenerateQr.BatchRow | src/generate_qr.py:50-55 | one row: a raise ends the batch with the batch function's images; otherwise the ids and images are the batch over the rows so far |
| GenerateQr.TryStudent | src/generate_qr.py:55 | one call on a stripped id adds it iff it is valid |
| GuiQr.RerunCreatesNothing | gui_main.py:386-408 | a second generation right after the first creates nothing |
| GuiQr.GenerateQrImages | gui_main.py:369-431 | no students gives the "no students" outcome and no change; otherwise every student gets an image and the count is the number newly created |
| GuiQr.MakeMissing | gui_main.py:386-403 | the loop creates images for ids without one and counts exactly those |
| GuiSessions.QrSightings | gui_main.py:500-538 | one sighting per frame read |
| GuiSessions.MarksFacts | gui_main.py:519-534 | the entries of a session are well formed (each id once, so rows equal `len(marked)`; each a registered student with its record), and the marked ids are exactly the known ids sighted |
| GuiSessions.QrRunFacts | gui_main.py:500-538 | a QR session marks an id iff it is registered and some non-empty payload strips to it; each at most once |
| GuiSessions.QrKnownIds | gui_main.py:509-522 | the ids the QR readings name are exactly the registered stripped non-empty payloads |
| GuiSessions.MarkScan | gui_main.py:501-538 | one pass of the QR loop: the entries are the session over the frames so far, and on 'q' they are the session over the frames read |
| GuiSessions.MarkFrame | gui_main.py:622-646 | one pass of the face loop, the same way |
| GuiSessions.MarkFaces | gui_main.py:629-642 | the face loop of one frame extends the entries by that frame's sightings |
| GuiSessions.FaceRunFacts | gui_main.py:621-646 | a face session's entries are well formed, and the marked ids are exactly the registered ids sighted |
| GuiSessions.UnsureSessionWritesNothing | gui_main.py:633-639 | when every face has confidence ≥ 70, nothing is written |
| GuiSessions.QrStartIff | gui_main.py:448-473 | a QR session starts iff the camera is free, students exist and the user confirms; it is refused while the camera is active |
| GuiSessions.FaceStartIff | gui_main.py:562-592 | a face session starts iff the camera is free, the cascade and the model exist and students exist; it is refused while the camera is active |
| GuiSessions.AttendanceApp.constructor | gui_main.py:97 | the application starts with the camera free |
| GuiSessions.AttendanceApp.RegisterStudent | gui_main.py:191-194 | the registration window opens iff the camera is free |
| GuiSessions.AttendanceApp.ExitApp | gui_main.py:860-864 | the application quits iff the camera is free |
| GuiSessions.AttendanceApp.QrAttendance | gui_main.py:448-473 | the start decision per `QrStart`; the camera becomes active only on a start |
| GuiSessions.AttendanceApp.FaceAttendance | gui_main.py:562-592 | the start decision per `FaceStart`; the camera becomes active only on a start |
| GuiSessions.AttendanceApp.RunQrAttendance | gui_main.py:476-556 | the ledger gains exactly the rows of the session's entries, `marked` is their id set, the file is readable afterwards iff it was or the session created it, and the camera is free again on every exit |
| GuiSessions.AttendanceApp.RunFaceAttendance | gui_main.py:595-654 | the same for face sessions; a missing map, cascade or camera writes nothing; the camera is free again on every exit |
| ScriptLedger.ScanMeaning | src/qr_attendance.py:18-21 | the row scan: "false" iff every row is readable up to the end and none marks the id today; "true" only when some row marks it; it raises only at a short matching row |
| ScriptLedger.AlreadyMarked | src/qr_attendance.py:11-21 | the row loop computes `Check` |
| ScriptLedger.LedgerRowFound | src/qr_attendance.py:18-34 | on a file where the id is not yet marked, the row `mark_attendance` appends is found by the next `already_marked` of that day exactly when the id is a string; an int id is written but never found |
| ScriptLedger.ScanAppend | src/qr_attendance.py:18-21 | rows that neither mark the id today nor raise do not change what the scan finds in rows appended after them |
| ScriptLedger.MarkAttendance | src/face_attendance.py:34-46 | the file becomes `Mark` of the old file; the result is True iff a row was written; otherwise nothing changes |
| ScriptLedger.Attend | src/qr_attendance.py:51 | one call inside a session that has not raised: the file and the raise flag are those of the session extended by this attempt |
| ScriptLedger.ReplayAfterCrash | src/qr_attendance.py:43-59 | nothing is written after an exception |
| ScriptLedger.ReplayAppends | src/qr_attendance.py:27 | a session only appends to the ledger |
| ScriptLedger.MarkTwice | src/face_attendance.py:34-46 | after a mark, a second mark of the same id on the same day, by any method, writes nothing |
| ScriptLedger.ReplayMarksStrings | src/qr_attendance.py:50-51 | after a session without exception, every string id attempted is marked for its day |
| ScriptLedger.ScanStays | src/qr_attendance.py:18-20 | a mark stays found when rows are appended |
| ScriptLedger.MarkedStays | src/qr_attendance.py:24-25 | one appended row keeps a marked id marked |
| ScriptLedger.IntIdNeverFound | src/face_attendance.py:30 | csv cells are strings, so an integer id never matches a row |
| ScriptLedger.MarkKeepsOncePerDay | src/qr_attendance.py:23-35 | marking a string id keeps "each id at most once per day" |
| ScriptLedger.ReplayKeepsOncePerDay | src/qr_attendance.py:43-59 | a session of string ids keeps "each id at most once per day" |
| QrScript.ScanAttempts | src/qr_attendance.py:50-51 | a frame attempts a mark iff its payload is non-empty |
| QrScript.QrAttemptsFacts | src/qr_attendance.py:50-51 | every attempt uses a payload unchanged, with "QR", and every non-empty payload is attempted |
| QrScript.ScanFrame | src/qr_attendance.py:44-59 | one pass of the loop: a non-empty payload is marked, then the pass ends the loop by a raise (the ledger is then the whole session's) or by 'q'; otherwise the ledger is the session over the frames so far |
| QrScript.RunQrScript | src/qr_attendance.py:43-59 | the loop leaves the ledger and the crash flag as the session function says |
| QrScript.CrashEndsSession | src/qr_attendance.py:43-59 | a raise in a frame that is read makes the session's outcome the outcome up to that frame |
| QrScript.QrSessionMarks | src/qr_attendance.py:43-59 | after a session without exception, every non-empty payload read is marked for its day |
| QrScript.QrSessionLedger | src/qr_attendance.py:43-59 | a session only appends, and keeps "each id at most once per day" |
| QrScript.NoCodesNoRows | src/qr_attendance.py:50 | frames without a payload write nothing |
| FaceScript.FaceAttempt | src/face_attendance.py:63-65 | a face attempts a mark iff its confidence is below 70 and its label is a key of `id_map` |
| FaceScript.FaceHitsFrom | src/face_attendance.py:59-65 | every attempt of a frame uses a value of `id_map`, with "FACE" |
| FaceScript.FaceHitsNone | src/face_attendance.py:59-65 | a frame without an accepted face attempts nothing |
| FaceScript.FaceHitsCover | src/face_attendance.py:59-65 | every accepted face of a frame is attempted |
| FaceScript.FaceAttemptsFrom | src/face_attendance.py:51-80 | over a session, every attempt uses a value of `id_map`, with "FACE" |
| FaceScript.FaceAttemptsNone | src/face_attendance.py:51-80 | a session without an accepted face attempts nothing |
| FaceScript.MarkFaceStep | src/face_attendance.py:63-65 | a face adds its own attempt, `id_map[label]` with "FACE", iff it is accepted, and nothing otherwise |
| FaceScript.MarkFace | src/face_attendance.py:59-76 | one face: the ledger is the session so far extended by the face's attempt; a raise makes it the session over the whole frame |
| FaceScript.MarkFaces | src/face_attendance.py:59-76 | the face loop leaves the ledger and raise flag of the session extended by the frame's attempts |
| FaceScript.CrashEndsFrame | src/face_attendance.py:59-76 | a raise at a face means the later faces of the frame change nothing |
| FaceScript.FaceFrame | src/face_attendance.py:52-80 | one pass of the frame loop: its faces are marked, then the pass ends the loop by a raise (the ledger is then the whole session's) or by 'q'; otherwise the ledger is the session over the frames so far |
| FaceScript.CrashEndsSession | src/face_attendance.py:51-80 | a raise in a frame that is read makes the session's outcome the outcome up to that frame |
| FaceScript.RunFrames | src/face_attendance.py:51-80 | the frame loop leaves the ledger and raise flag of the session over the frames read |
| FaceScript.FaceAttemptsCover | src/face_attendance.py:51-80 | over a session, every accepted face is attempted |
| FaceScript.RunFaceScript | src/face_attendance.py:11-80 | the ledger and crash flag are the session function's: a missing model or map raises before any write; an empty cascade raises on the first frame; otherwise the frame loop runs |
| FaceScript.TrainedMapMarksNobody | src/face_attendance.py:21 | with a label map as training writes it, no face is ever accepted and the session writes nothing |
| FaceScript.UnsureFacesMarkNobody | src/face_attendance.py:63 | faces with confidence ≥ 70 attempt nothing |
| FaceScript.StringKeyedAttempts | src/face_attendance.py:21 | with a map whose keys are strings, every attempted id is a string |
| FaceScript.StringKeyedOncePerDay | src/face_attendance.py:34-46 | such a session keeps "each id at most once per day" |
| FaceScript.StringKeyedMarks | src/face_attendance.py:63-65 | after such a session without exception, every accepted face read is marked for its day |
| FaceScript.FaceSessionAppends | src/face_attendance.py:38 | a face session only appends to the ledger |
| FaceTrain.Loaded | src/face_train.py:27-28 | images that fail to load are dropped |
| FaceTrain.LoadedMembers | src/face_train.py:27-30 | an image is kept iff it loaded |
| FaceTrain.Dirs | src/face_train.py:19-21 | only directory entries of the listing are labelled |
| FaceTrain.TrainFacts | src/face_train.py:13-32 | label j goes to the j-th directory, in listing order and starting at 0, even if none of its images loads; faces and labels have equal length, and each face carries its own directory's label |
| FaceTrain.NoFacesIff | src/face_train.py:34-36 | no face is collected iff no directory has an image that loads |
| FaceTrain.TrainedLookup | src/face_train.py:23-50 | the pickled map has distinct keys and maps label j to the j-th directory's name |
| FaceTrain.ModelStore.Empty | src/face_train.py:7-9 | no model and no label map are stored yet |
| FaceTrain.LoadImages | src/face_train.py:25-30 | the image loop appends the loaded images and one label per image |
| FaceTrain.Train | src/face_train.py:13-50 | no face gives the abort and writes nothing; without the recognizer module nothing is written; otherwise the store holds the collected faces, labels and pickled map |
| FaceRegister.FileNameInjective | src/face_register.py:37 | different counts name different files |
| FaceRegister.NamesCount | src/face_register.py:34-37 | saving faces 1..count gives exactly count distinct file names |
| FaceRegister.CaptureFrom | src/face_register.py:25-43 | the counter never decreases, the capture ends within the input, and some frame is read iff input remains |
| FaceRegister.CaptureFacts | src/face_register.py:25-43 | the count grows by exactly the faces of the frames read; the loop stops only at the end of input, on 'q', or at ≥ 30; no 'q' comes before the last frame read; from below 30 the overshoot is less than the last frame's faces |
| FaceRegister.SaveFaces | src/face_register.py:34-37 | one frame's faces raise the count by their number, and the folder gains exactly the next numbered names |
| FaceRegister.CaptureLoop | src/face_register.py:25-43 | the loop ends with the capture function's count, and the folder holds exactly names 1..count added to what it held |
| FaceRegister.RegisterFaces | src/face_register.py:4-43 | an invalid id changes nothing; a missing cascade creates only an empty folder; otherwise the folder gains names 1..count |
| RegisterScript.AdmissibleIff | src/register_student.py:31-40 | the script accepts iff the id is 8 digits and the name has only letters, spaces and hyphens and at least one letter; the empty name is rejected |
| RegisterScript.GuiStricter | src/register_student.py:31-40 | everything the GUI chain accepts the script accepts too |
| RegisterScript.OneLetterName | gui_main.py:283-286 | the script accepts the name "A", which the GUI rejects as too short |
| RegisterScript.Decide | src/register_student.py:46-66 | the loop ends at the first 's' or 'q' key, or at the end of input |
| RegisterScript.SavedIff | src/register_student.py:46-62 | a student is saved iff both fields are admissible and some frame's first deciding key is 's' |
| RegisterScript.SaveStudentToCsv | src/register_student.py:13-22 | the header is written only when the file is absent, then exactly `[id, name]` is appended |
| RegisterScript.CameraLoop | src/register_student.py:46-66 | the loop ends as the key decision says; only 's' stores that frame under `<id>.jpg` and appends the row, after which students.csv exists and is readable unless it already existed unreadable; 'q' or a failed read writes nothing |
| RegisterScript.RegisterStudent | src/register_student.py:27-66 | the outcome is the decision function's; only a save stores the photo under `<id>.jpg` and appends the row, with students.csv then present and readable unless it already existed unreadable; any other ending writes nothing |

## Left out

- The Tk user interface: windows, message boxes, the status label, the attendance viewer and the auto-refresh (`gui_main.py:90-156, 660-858`). It is presentation only.
- OpenCV: `VideoCapture`, Haar detection, LBPH prediction, training, reading and saving, `imshow`, `waitKey` and drawing. Frames, detections, predictions and key codes are inputs to the model. A model that does not load is a boolean input.
- QR encoding and decoding (`qrcode`, `cv2.QRCodeDetector`) and image files. Only "an image exists for this id" is modelled.
- Recognizer confidence is a `real`, used only in the `< 70` comparison.
- Threading: the session bodies run as sequential methods after the handler that sets `camera_active`.
- `pickle`, CSV quoting and escaping, and real file paths. Rows are sequences of strings, and the Haar-path search and `os.makedirs` are existence flags. The paths also differ between scripts: `face_train.py` writes `smart_attendance/models` while `face_attendance.py` reads `models/`. The model passes the stored model and map directly.
- Character classes are ASCII only. Python's `isdigit`, `isalpha` and `isspace` also accept other Unicode characters.
- `get_today` and `get_timestamp` live in `src/utils.py`, which is not part of this model. Each attempt carries one clock reading (`Camera.Stamp`). The ledger scripts call `get_today` twice per mark, once in `already_marked` and once in the row, so a mark that straddles midnight is not modelled.
- `src/utils.py` as a whole (a menu loop around `os.system`) is not part of this model.
- The interactive Skip/New menus of `generate_qr.py` (`src/generate_qr.py:54-77, 80-118`). `GenerateQr.GenerateQrForAll` answers every question with "skip" and tries each row once.
- `open_folder` and other calls that start external programs (`gui_main.py:433-446`).
- `check_students_csv` (`gui_main.py:157-189`) runs at start-up (`gui_main.py:99`). When students.csv is missing it creates the file holding only the header `student_id,name,course,email`. When a required column is missing and the user confirms, it rewrites the file to that header alone, which drops every student row. The GUI operations in the model start from whatever students.csv holds after it has run.
- The module-level `setup_folders`/`os.makedirs` calls, which only create folders.
- Exceptions raised by the GUI's file writes: a disk error inside `mark_attendance`, `save_student` or the image saves of `generate_qr` (`gui_main.py:382-431`, `img.save` at 402). Those writes always succeed in the model.
- GuiQr.GenerateQrImages and GuiQr.MakeMissing: they assume every `img.save` succeeds. On a write error the program keeps the images saved before the failure and shows an error instead of a count, and the model does not state that outcome.
- FaceTrain.Train: `os.listdir` at `src/face_train.py:18` raises when the faces folder does not exist. The listing is an input, so the model can only show that case as an empty listing. That gives the same "no faces" abort, and nothing is written either way.
- Appending to a file that exists but cannot be read is modelled as a successful append. The file then stays unreadable unless it was created by the append.
- CsvStore.NonBlank: its contract gives which lines are kept and how many times each, but not their order. The order comes from its definition, which `GuiStudents.CollectLastWins` relies on for "the last row wins".
- Short ledger rows: `row[2]` on a matching row of fewer than three cells raises `IndexError`. This is modelled as an exception outcome (`ScriptLedger.Scan` returns `None`), not as a precondition.
- The GUI session's `marked` set is per session, and the GUI does no file-based deduplication. A second session on the same day writes the same ids again, and the model shows this through `GuiSessions.Ledger`, which appends the session's rows to whatever the file held.
