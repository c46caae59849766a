# Attendance matching and reconciliation, modelled in Dafny

The backend takes a group photo and produces an attendance report for a class. The
face library turns each image into face encodings. The backend then makes every
decision itself:

- At start-up it builds the known-face roster from the student manifest. Each student
  whose image loads and shows a face contributes the first face's encoding and the
  student's name.
- For each face in an upload it finds the nearest known encoding. The face takes that
  entry's name when the distance is strictly below 0.5.
- It collects the recognized names once each, in first-seen order, as `present`.
- It counts the faces it could not recognize as `unknown`.
- It lists every student of the manifest who was not recognized as `absent`.

A second script builds the same kind of roster offline from a directory listing of
image files.

The model is purely functional. Foreign calls become parameters:

- The face library becomes `load: string -> ImageLoad<V>`. The result is `NotFound`,
  `LoadFailed`, or `Loaded(faces)`. `V` is an uninterpreted encoding type.
- `face_distance` becomes `dist: (V, V) -> real`. No property needs it to be
  non-negative, so the model places no requirement on it.

Modules, one per component:

- `Enrollment` (`enrollment.dfy`): students, image loads, the roster as two parallel
  lists, and the start-up roster build of `backend/app.py`.
- `Matching` (`matching.dfy`): the per-face decision. This covers `compare_faces`,
  `argmin` with first-index tie-break, and the strict 0.5 test.
- `Attendance` (`attendance.dfy`):
  - `Reconcile`, a functional reference definition of the report.
  - `Recognize`, the endpoint's loop written imperatively and proved equal to
    `Reconcile`.
  - The report lemmas.
- `KnownFaces` (`known_faces.dfy`): `encode_faces` of `backend/encode_known_faces.py`.
  This covers the case-sensitive suffix filter, `os.path.splitext` on POSIX paths, and
  first-encoding selection.
- `Seqs` (`seqs.dfy`) and `Wrappers` (`wrappers.dfy`): shared sequence facts and
  `Option`.
- `Scenarios` (`scenarios.dfy`): concrete cases. Alice is recognized; nobody is
  recognized; a student with a missing image is still absent.

Two behaviours of the code deserve a note:

- `absent` is built from the full manifest, so with an empty roster every student is
  absent, including students who never got a roster entry (`EmptyRosterReport`,
  `MissingImageStillAbsent`).
- `encode_known_faces.py` has no error handling, so one unloadable image ends the script
  before anything is saved. `EncodeFaces` returns `None` in that case
  (`EncodeFacesAborts`).

## Model

| member | source | states |
|---|---|---|
| Enrollment.BuildRoster | backend/app.py:33-48 | encodings and names always have equal length, the roster is no longer than the manifest, and every roster name is a manifest name |
| Enrollment.EnrolledIndices | backend/app.py:35-41 | the manifest positions that get an entry are increasing, and they are exactly the students whose image loads with at least one face |
| Enrollment.BuildRosterSelects | backend/app.py:33-48 | entry k is the k-th enrolling student: its name paired with the first face of its image, in manifest order, so there is at most one entry per student record |
| Enrollment.SkippedStudentAddsNothing | backend/app.py:35-48 | a student with a missing image, a raising load or zero faces adds nothing, and the students after it are enrolled as if it were absent |
| Matching.ArgMin | backend/app.py:121 | the chosen index holds the minimum distance, and every earlier index is strictly larger (first index on ties) |
| Matching.BestMatch | backend/app.py:119-124 | a face matches iff some distance is strictly below 0.5; the match is the first nearest entry, and its distance is below 0.5 |
| Matching.CompareFacesRedundant | backend/app.py:119-124 | the `True in matches` test never changes the outcome: the decision is `min < 0.5` at the argmin |
| Matching.ThresholdBoundary | backend/app.py:124 | a nearest distance of exactly 0.5 gives unknown; a nearest distance of 0.5 minus any positive epsilon gives a match at the argmin |
| Matching.TieGoesToEarlierEntry | backend/app.py:121 | when two entries share the least distance, the later one is never chosen |
| Matching.ClassifyFace | backend/app.py:119-125 | a face is recognized iff some known encoding is within strictly less than 0.5; if so, its name is `known_names` at the first nearest index |
| Matching.EmptyRosterRecognizesNobody | backend/app.py:121-124 | with no known encodings, every face is unknown |
| Attendance.MatchedNames | backend/app.py:118-128 | the list of matched names has at most one entry per uploaded face |
| Attendance.RecognizedIndices | backend/app.py:118-126 | the listed face positions are increasing, and they are exactly the faces that were recognized |
| Attendance.MatchedNamesSelects | backend/app.py:118-126 | entry k of the matched names is the name of the k-th recognized face, in upload order |
| Attendance.FirstFaceFor | backend/app.py:118-128 | names the first face recognized as a given name: that face is recognized as it, and no earlier face is |
| Attendance.MatchedNamesAreRecognized | backend/app.py:124-126 | a name is matched iff some face result is recognized under it |
| Attendance.CountUnknown | backend/app.py:130-131 | unknown faces plus matched faces equal the number of faces |
| Attendance.Reconcile | backend/app.py:114-141 | total equals the number of query encodings; matched plus unknown equals total; present has no duplicates; absent holds exactly the manifest names not in present |
| Attendance.PresentIsDetected | backend/app.py:124-128 | a name is in present iff some uploaded face is recognized under it: present and `detected_names` hold the same names |
| Attendance.Recognize | backend/app.py:114-141 | the endpoint's loop (present list with a membership check, detected set, unknown count, then the absent comprehension) computes exactly `Reconcile` |
| Attendance.PresentFirstSeenOrder | backend/app.py:118-128 | of two names in present, the earlier one was first recognized on an earlier uploaded face |
| Attendance.DuplicateMatchesCollapse | backend/app.py:126-128 | two faces matching the same student put that name in present exactly once |
| Attendance.AbsentKeepsManifestOrder | backend/app.py:134 | absent is an order-preserving subsequence of the manifest names, with every record of each undetected name and none of a detected one |
| Attendance.EmptyRosterReport | backend/app.py:121-141 | with an empty roster, present is empty, unknown equals total_faces_detected, and every manifest name is absent |
| Attendance.AllUnknownMatchNothing | backend/app.py:130-131 | when no face is recognized, no name is matched and every face counts as unknown |
| Attendance.EmptyUploadReport | backend/app.py:114-141 | an upload with no faces reports 0 faces, 0 unknown, nobody present, and every manifest name absent in manifest order |
| Attendance.AttendanceOf | backend/app.py:33-141 | for a roster built from the manifest, present and absent are disjoint and together cover exactly the manifest names |
| Seqs.Dedup | backend/app.py:126-128 | the collected list has no duplicates and contains exactly the values of the input |
| Seqs.DedupFirstSeenOrder | backend/app.py:126-128 | the collected list is ordered by first occurrence in the input |
| Seqs.Without | backend/app.py:134 | a value is kept iff it is in the list and not in the dropped set |
| Seqs.WithoutIsOrderedSelection | backend/app.py:134 | the kept values form a subsequence of the input, with the input's multiplicity for kept values and zero for dropped ones |
| KnownFaces.EndsWithIff | backend/encode_known_faces.py:14 | the backwards character comparison holds iff the last characters of the name are exactly the suffix |
| KnownFaces.EndsWithConcat | backend/encode_known_faces.py:14 | a name ends with a suffix iff it is some text followed by that suffix |
| KnownFaces.HasImageSuffixIff | backend/encode_known_faces.py:14 | a file is read iff its name is some text followed by `.jpg`, `.png` or `.jpeg` |
| KnownFaces.UpperCaseSuffixIgnored | backend/encode_known_faces.py:14 | the suffix test is case-sensitive: `alice.JPG` is not read |
| KnownFaces.SuffixExamples | backend/encode_known_faces.py:14 | `.jpg`, `.png` and `.jpeg` names are read; a bare `jpg` is not |
| KnownFaces.SplitExt | backend/encode_known_faces.py:16 | root followed by extension gives back the path; the extension is empty, or it is a dot followed by no further dot or slash |
| KnownFaces.StemIsBeforeFinalDot | backend/encode_known_faces.py:16 | with a non-dot character before the final dot, the stored name is everything before that dot; with only dots before it, the whole file name is kept |
| KnownFaces.StemExamples | backend/encode_known_faces.py:16 | `alice.jpg` gives `alice`, `a.b.jpg` gives `a.b`, and `.jpg` gives `.jpg` |
| KnownFaces.ImageFilesAreAccepted | backend/encode_known_faces.py:13-14 | the accepted files are exactly the listed names that have an image suffix |
| KnownFaces.EncodeFaces | backend/encode_known_faces.py:9-27 | a saved result has equal-length encoding and name lists, no longer than the listing |
| KnownFaces.AddFile | backend/encode_known_faces.py:14-27 | a non-image file leaves the result unchanged; an aborted script stays aborted; one file adds at most one entry; paired lists stay paired |
| KnownFaces.KeptIndices | backend/encode_known_faces.py:13-25 | the listing positions that add an entry are increasing, and they are exactly the image files that show at least one face |
| KnownFaces.EncodeFacesSelects | backend/encode_known_faces.py:13-25 | entry k is the first encoding of the k-th image file showing a face, stored under that file's stem, in listing order; files with zero faces add nothing |
| KnownFaces.OnlyImageFilesMatter | backend/encode_known_faces.py:13-25 | files without an accepted suffix are never opened; the result has at most one entry per accepted file |
| KnownFaces.EncodeFacesAborts | backend/encode_known_faces.py:20-21 | the script saves nothing iff some accepted file fails to load |
| Scenarios.BestMatchExamples | backend/app.py:119-124 | distances `[0.5]` give no match, `[0.7, 0.49]` match index 1, and the tie `[0.3, 0.3]` matches index 0 |
| Scenarios.BothEnroll | backend/app.py:33-48 | two students with one face each both enroll, in manifest order |
| Scenarios.FaceNearAliceIsAlice | backend/app.py:119-125 | a face at distance 0.2 from Alice and 0.9 from Bob is recognized as Alice |
| Scenarios.AliceRecognized | backend/app.py:114-141 | that face yields present `["Alice"]`, absent `["Bob"]`, 0 unknown and 1 face |
| Scenarios.NobodyRecognized | backend/app.py:114-141 | a face at distance 0.9 from everyone yields nobody present, both students absent, and 1 unknown |
| Scenarios.MissingImageStillAbsent | backend/app.py:35-48 | a student whose image is missing never enrolls, yet is reported absent |

## Left out

- Flask routing, upload validation and the HTTP 400/500 answers (`backend/app.py:52-105`, `146-160`). They are request plumbing. An exception inside the endpoint becomes a 500 answer, which is not modelled.
- Signup, login, bcrypt hashing, JWT issuance and the in-memory user list. They are authentication glue around libraries outside this model.
- `face_recognition.load_image_file`, `face_locations` and `face_encodings`. For the two roster builders they are abstracted as the `load` parameter. For the uploaded photo, their output is the `queries` argument of `Reconcile` and `Recognize`. `face_locations` only feeds `face_encodings` and is not modelled separately.
- `face_distance`. It is abstracted as `dist`, with no floating point, NaN or Euclidean computation. `argmin` over NaN is therefore not modelled.
- Reading `students.json`. The manifest is an input sequence. A missing file gives an empty manifest, which the model covers. A record without a `name` or `image` key is not modelled, because every `Student` has both fields.
- `os.listdir`, `os.path.exists` and `os.path.join`. The listing is an input sequence, and a missing file is `NotFound` from `load`.
- The pickle dump to `encodings.pkl`. The saved value is the result of `EncodeFaces`.
- `print` diagnostics and the `cv2.getTickCount()` timestamp of the answer. They are side effects or nondeterministic.
- The process-global `known_encodings` and `known_names`. The roster is passed explicitly as an immutable value.
- The `success` field of the answer. It is constant.
