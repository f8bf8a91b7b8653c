# Face verification in the academy portal, modelled in Dafny

The portal is a Django application for students and teachers. Its only
algorithmic part is the face workflow in `core/views.py`, and that is what
this project models:

- **Face login** (`face_login`). The gallery lists every student record that
  has a stored encoding, in table order. The loop then reads camera frames.
  The faces of a frame are tried in order. The first face that matches any
  gallery entry decides, by its first matching gallery position. Later faces
  are not compared. The loop stops at the first match, on `q`, or when a
  read fails.
- **Enrollment** (`register_face`). The loop keeps the encoding of the latest
  frame that shows a face. On `s`, if it holds one, it overwrites the user's
  stored template (creating the record if needed). `q` or a failed read ends
  the loop without saving.
- **Verification before a live class** (`verify_for_class`). Without a stored
  encoding it answers at once, before the camera opens. Otherwise it tries at
  most 80 frames against the stored encoding. A match adds exactly 1 to the
  attendance, and then the student is sent to the active meeting link.
- **Smaller rules**: the credential branch of `login_view`, the dashboard
  progress bar, the admin template reset, the marks update, and the
  performance tier that `StudentData.save` recomputes from the marks
  (`core/models.py`).

The camera, the keyboard and the face-recognition library are abstract
inputs. The camera is a finite sequence of events. Each event is a frame read
(failed, or the encodings of the faces found) plus the key code polled after
it. A read past the end of the sequence fails. Face comparison is a function
parameter `matches(stored, probe)`.

Modules: `Wrappers` (Option), `Models` (`core/models.py`), `Capture` (frames,
keys and the first-match choice), `Sessions` (what each capture loop decides,
as functions of the events, with lemmas) and `Views` (the handlers, over a
`Database` that holds the `StudentData` objects).

Each capture loop is a method proved equal to its specification function in
`Sessions`. The inner loop over a frame's faces (`Capture.ScanFaces`) is
proved equal to `Capture.FrameMatch`. The loop that builds the two gallery
lists (`Views.Database.BuildGallery`) is proved equal to `Views.Gallery`. The
lemmas in `Sessions` say which frame ends each loop and what it decides.
Every handler that saves a record goes through `StudentData.Save`, so the
handler also rewrites the record's performance from its marks.

Where the code behaves differently from what a reader might expect (the
model follows the code):

- Login and verification try the faces of a frame one after another until
  one matches, not only the first face.
- A successful verification with no active live session still adds the
  attendance and saves. It then falls through to "Verification Failed." and
  the redirect to the dashboard (`Views.Database.VerifyForClass`).
- Identification has no frame limit. It stops only on a match, `q` or a
  failed read.
- Opening the camera is not checked. A camera that will not open shows up
  as a failed first read.
- `update_marks` checks only that a user is logged in, not that the user is
  a teacher.
- `StudentData` is declared three times in `core/models.py` (lines 18, 27
  and 71). Python binds the name to the last declaration, which has no
  `save` override and no marks or attendance columns. The model uses the
  complete declaration at lines 27-51. In that class the second `__str__`
  (line 50) replaces the first (line 47).

## Model

| member | source | states |
|---|---|---|
| `Models.TierFor` | core/models.py:36-43 | the tier of the marks: at least Average exactly from 40, at least Good exactly from 60, Excellent exactly from 80 (TierBands gives each band) |
| `Models.TierBands` | core/models.py:36-43 | each tier is exactly one band of marks: Excellent for 80 and up, Good for 60-79, Average for 40-59, Poor below 40, in both directions |
| `Models.TierMonotone` | core/models.py:36-43 | more marks never give a lower tier |
| `Models.LabelNeverPending` | core/models.py:32-43 | no saved tier equals the column default "Pending" |
| `Models.StudentData.constructor` | core/models.py:27-32 | a new record has no encoding, attendance 0.0, marks 0 and performance "Pending" |
| `Models.StudentData.Save` | core/models.py:34-45 | after saving, performance is the tier of the marks; encoding, attendance and marks are unchanged; saving a record whose tier is already current changes nothing (idempotence) |
| `Models.StudentData.ToString` | core/models.py:47-51 | the string form in effect is the username followed by "'s Data" |
| `Capture.LowByte` | core/views.py:84 | the masked key code lies in 0..255 and agrees with the code modulo 256 |
| `Capture.FirstMatchIndex` | core/views.py:76-78 | the position of the first accepted gallery entry, with no earlier entry accepted; None exactly when no entry is accepted |
| `Capture.FrameMatch` | core/views.py:75-81 | the first face with any accepted entry decides, by its first accepted entry; None exactly when no face matches |
| `Capture.EmptyGalleryNeverMatches` | core/views.py:76-77 | a frame never matches an empty gallery |
| `Capture.SingleEntryFrameMatch` | core/views.py:226-229 | against the one stored encoding, a frame matches exactly when one of its faces is accepted |
| `Capture.ReflexiveProbe` | core/views.py:76-78 | a probe accepted against its own entry selects that entry or an earlier one |
| `Capture.ScanFaces` | core/views.py:75-81 | the loop over a frame's faces returns what FrameMatch specifies |
| `Sessions.IdentifyFrom` | core/views.py:67-85 | the login loop from frame i: reads at least one more frame, and a found user is one of the gallery ids, found on a frame that was read (IdentifyDecision gives the full description) |
| `Sessions.Identify` | core/views.py:67-85 | the login loop from the first frame: at least one read, and a found user is a gallery id found within the stream |
| `Sessions.IdentifyDecision` | core/views.py:67-85 | the login loop reads frames until the first one that fails to read, matches, or comes with `q`; every earlier frame continued; a user is found exactly when that frame matched, and it is the id at the chosen gallery position |
| `Sessions.IdentifyEmptyGallery` | core/views.py:59-79 | with nobody enrolled, no user is ever found |
| `Sessions.IdentifyOwnFace` | core/views.py:63-81 | gallery {(S1, e1)}, probe e1 accepted against itself: S1 is found on the first frame |
| `Sessions.LatestFace` | core/views.py:184-185 | the encoding kept after n frames: None exactly when none of them showed a face, otherwise the first face of the most recent such frame |
| `Sessions.EnrollFrom` | core/views.py:177-200 | the enrollment loop from frame i with the pending encoding (updated by KeepLatest on each frame with a face): reads at least one more frame, and saves only on a frame that was read and came with `s` (EnrollDecision gives the full description) |
| `Sessions.Enroll` | core/views.py:177-200 | the enrollment loop from the first frame with nothing pending: at least one read, and a save only on an `s` frame within the stream |
| `Sessions.EnrollDecision` | core/views.py:178-200 | the enrollment loop stops at the first frame that fails to read, comes with `q`, or comes with `s` after some face was seen; it saves exactly in the last case, and the saved encoding is the first face of the most recent frame with a face |
| `Sessions.EnrollKeepsLaterFace` | core/views.py:184-185 | a later face replaces an earlier pending one before `s` commits it |
| `Sessions.EnrollCommitNeedsFace` | core/views.py:193-200 | `s` with no face seen yet does nothing, and a later `q` quits without saving |
| `Sessions.VerifyFrom` | core/views.py:218-231 | the verification loop from iteration i: never past 80 reads, at least one more read unless the 80 are used up, and a match only on a frame that was read (VerifyDecision gives the full description) |
| `Sessions.Verify` | core/views.py:218-231 | the verification loop from the first iteration: 1 to 80 reads, and a match only within the stream |
| `Sessions.VerifyDecision` | core/views.py:218-231 | the verification loop reads 1 to 80 frames; each earlier frame continued; it stopped on the last one or used up the 80; it reports a match exactly when the last frame matched |
| `Sessions.VerifyMatchAtFrame` | core/views.py:218-231 | a first match on frame k (k < 80) ends the loop there with a match, whatever k is |
| `Sessions.VerifyExhausted` | core/views.py:218-231 | 80 frames without a match or `q` end with no match after exactly 80 reads |
| `Sessions.VerifyOnLastFrame` | core/views.py:218-231 | frames 1-79 show no face and frame 80 an accepted face: a match on the last allowed frame |
| `Views.FindByEnrollment` | core/views.py:23-26 | the account with that enrollment number, or None exactly when there is none |
| `Views.SelectUser` | core/views.py:20-28 | a filled-in enrollment number is used (an unknown one queues "Invalid Enrollment Number"); otherwise the username; with neither, nobody is authenticated |
| `Views.LoginView` | core/views.py:14-36 | a GET renders the page; a POST logs in exactly the selected user and redirects by role; otherwise "Invalid credentials" is added and the page is rendered |
| `Views.EnrollmentTakesPrecedence` | core/views.py:21-28 | with an enrollment number filled in, the username field makes no difference |
| `Views.UnknownEnrollmentNumber` | core/views.py:22-34 | an unknown enrollment number queues both error messages and logs nobody in |
| `Views.RecordFor` | core/views.py:105 | the user's record, or None exactly when the user has none |
| `Views.RecordWithId` | core/views.py:283 | the record with that key, or None exactly when no record has it (the 404 case) |
| `Views.NextId` | core/views.py:195 | a created record gets a key above every key in use |
| `Views.Gallery` | core/views.py:59-65 | the (student id, encoding) pairs of the records with an encoding, in table order: no longer than the table, empty when nobody is enrolled, as long as the table when everybody is (GalleryIsEnrolledRecords gives the exact correspondence) |
| `Views.GalleryIsEnrolledRecords` | core/views.py:59-65 | the gallery is exactly the records with an encoding, in table order, each entry pairing a student's id with that student's own encoding |
| `Views.Database.BuildGallery` | core/views.py:59-65 | the two parallel lists are the encodings and the student ids of the gallery, position by position |
| `Views.Database.FaceLogin` | core/views.py:55-96 | the login loop decides what Identify specifies; a found user is logged in and welcomed, otherwise "Face not recognized." and back to the login page |
| `Views.Database.GetOrCreate` | core/views.py:195 | returns the user's record, or appends a fresh saved record with the defaults (performance Poor) |
| `Views.Database.RegisterFace` | core/views.py:174-204 | the loop decides what Enroll specifies; a save leaves the user's record holding exactly the new encoding with marks and attendance kept; no save leaves every record as it was |
| `Views.Database.VerifyForClass` | core/views.py:207-243 | no record or no encoding: the camera is not opened and nothing changes; otherwise the loop decides what Verify specifies, and attendance rises by exactly 1 on a match, by 0 otherwise; only the user's record can change |
| `Views.Database.StudentDashProgress` | core/views.py:105-118 | progress is 100, 60, 65 or 25 exactly by which of "face stored" and "attendance above 0" hold; never above 100; 25 without a record |
| `Views.Database.ResetFaceId` | core/views.py:278-287 | non-staff are refused with nothing changed; a missing key is a 404; otherwise the encoding is cleared, marks and attendance are kept and the tier is recomputed |
| `Views.Database.UpdateMarks` | core/views.py:249-256 | a POST sets marks and attendance (0 and 0.0 when absent), keeps the encoding and recomputes the tier; a missing key is a 404; a GET changes nothing |

## Left out

- Camera capture, the preview window and key polling (`cv2`): they become the
  event sequence. Releasing the camera and closing windows are not modelled.
- Face detection and encoding (`face_recognition`): each frame carries the
  extractor's encodings. The 0.5-tolerance distance test is the `matches`
  parameter, with no floating-point arithmetic.
- `pickle` serialisation: an encoding is stored as the value itself. So the
  fact that an empty, non-null blob is kept by the login gallery's non-null
  filter but rejected by the truthiness tests of verification and the
  dashboard is not modelled. Pickling never produces such a blob.
- The ORM, `authenticate`, `login`, `messages`, `render`, `redirect` and
  `login_required`:
  - handlers return a `Reply` of message tags, a response and the user logged in;
  - authentication is a function parameter;
  - the logged-in user is passed in by the caller.
- The active live session lookup is a parameter (`liveLink`).
- `Views.Database.FaceLogin`: the found user is given by id, and the welcome
  message names that id rather than the username. The `User.objects.get`
  call that cannot fail (the id comes from a foreign key) is not modelled.
- `Views.Database.UpdateMarks`: the `int()` and `float()` conversions of the
  form fields are not modelled (their ValueError is a server error). The
  fields arrive already converted, or absent.
- Attendance is a `real`. Float rounding is not modelled.
- A live camera can make `while True` wait forever. The model's stream is
  finite and ends with a failed read.
- Concurrent requests on the same record (lost updates) are not modelled.
- Primary keys: `NextId` (one above the largest key) stands in for the
  database's key sequence.
- `register_student`, `processing_biometrics`, `teacher_dash`,
  `admin_dashboard`, `submit_assignment` and `view_submissions`: these are
  plain form handling, record creation and rendering.
- `core/urls.py` (routing), `core/forms.py` (a form whose only rule is that
  the two passwords are equal), `core/admin.py` (admin registration) and
  `upload_students.py` (spreadsheet import) are not part of this model.
- The other two `StudentData` declarations of core/models.py (lines 18-25
  and 71-73) and the `Material`, `AssignmentSubmission` and `LiveSession`
  models are not modelled.
