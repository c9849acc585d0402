# Face-recognition attendance: gallery, naming rule and attendance sheet

This project models the decision logic of a classroom attendance program that
recognises faces in a camera feed and writes down who was seen.

- **Gallery training** (`SimpleFacerec.load_and_train_model`). The program walks the
  listing of an image root. For every directory, and every image in it, it keeps
  the first face encoding the image has, if any. It appends that encoding and the
  directory's name to two parallel lists, which it then writes to the encoding file.
- **Loading** (`load_encoding_images`). A saved file replaces both lists of the
  recogniser together. A missing file leaves them as they were.
- **Naming** (`detect_known_faces`). Each observed face gets the name
  `"Taninamadi"` ("not recognised") unless some comparison flag is set and, at the
  first index of the smallest distance, the flag is set and the distance is
  strictly below 0.5, a fixed constant of the code. In that case it gets the
  gallery name at that index.
- **Attendance** (`yoklama`). It reads the records `{name, zaman}` of the
  attendance file (a missing file reads as no records). It appends a record only
  when the name is not recorded yet, and only then rewrites the file. The camera
  loop calls it once per detected name, in order. The label `"Taninamadi"` is
  not filtered: it is recorded once, like any other name
  (`Attendance.UnknownRecordedOnce`).

The face-recognition library is not visible. An encoding is the abstract type
`FaceRec.Encoding`. For each observed face, the library's flag vector
(`compare_faces`) and distance vector (`face_distance`) are given as an
`Observation`. The image tree is a sequence of `Entry(name, isDir, images)`,
where each image is the list of encodings the library finds in it. The encoding
file and the attendance file are values (`EncodingFile`, `AttendanceFile`). The
clock is a parameter: each call to `Yoklama` receives its time string.

Training has an independent description: `Provenance` lists the images that
contribute, in visiting order. `TrainedFromProvenance`, `ProvenanceOrdered` and
`ProvenanceComplete` together say that the trained lists are exactly the first
faces of the directory images that have a face, in listing order and then image
order, each paired with its directory's name. The attendance file's behaviour is
the pure function `Mark` (one call) and `MarkAll` (one frame). The class methods
are proved to produce them, and the lemmas state what they guarantee.

## Model

| member | source | states |
|---|---|---|
| FaceRec.AddImage | simple_facerec.py:44-47 | one image: with at least one face, its first encoding and the directory's name are appended to the two lists; otherwise nothing changes |
| FaceRec.AddImages | simple_facerec.py:39-47 | the image loop of one directory: AddImage for each image, in order |
| FaceRec.AddFolder | simple_facerec.py:31-47 | one listing entry: a directory has its images scanned, any other entry is skipped |
| FaceRec.Trained | simple_facerec.py:25-47 | the two lists training builds: AddFolder for each listing entry, in order, from two empty lists |
| FaceRec.ImageRefs | simple_facerec.py:39-47 | the images of one directory that have a face are listed in image order, all of them and only them |
| FaceRec.Provenance | simple_facerec.py:31-47 | every listed image lies in a directory entry and has at least one face, so an image without faces and a non-directory entry contribute none |
| FaceRec.AddImagesExplained | simple_facerec.py:39-47 | scanning a directory's images appends, for each image with a face, its first encoding and the directory's name, and nothing else |
| FaceRec.TrainedFromProvenance | simple_facerec.py:25-47 | the trained lists have equal length, and entry i of both comes from the same image: its first encoding and its directory's name |
| FaceRec.TrainedParallel | simple_facerec.py:44-47 | the encodings list and the names list have equal length after training |
| FaceRec.OrderedAppendFolder | simple_facerec.py:31-47 | appending one later directory's images, in image order, to images in visiting order keeps visiting order |
| FaceRec.ProvenanceOrdered | simple_facerec.py:31-47 | entries appear in listing order, then image order within a directory |
| FaceRec.ProvenanceComplete | simple_facerec.py:31-47 | every image of a directory that has a face contributes an entry |
| FaceRec.TrainedNamesAreFolders | simple_facerec.py:31-47 | every stored name is the name of a directory entry of the listing |
| FaceRec.FileEntryIgnored | simple_facerec.py:31-34 | a non-directory entry leaves the trained gallery unchanged |
| FaceRec.AddImagesExtends | simple_facerec.py:39-47 | scanning images only appends to both lists |
| FaceRec.TrainedAppendOnly | simple_facerec.py:25-47 | training on a listing with one more entry keeps what the shorter listing produced at the front of both lists |
| FaceRec.TrainedPrefix | simple_facerec.py:25-47 | training on a listing extended by any number of entries keeps what the shorter listing produced at the front of both lists |
| FaceRec.ArgMin | simple_facerec.py:87 | the result is the first index of a minimum distance |
| FaceRec.FirstMinUnique | simple_facerec.py:87 | the first index of a minimum is unique |
| FaceRec.NameFor | simple_facerec.py:79-91 | the name of one face is "Taninamadi" or a gallery name |
| FaceRec.NameForDecision | simple_facerec.py:82-89 | at the first minimum k, the name is names[k] if the flag at k is set and distance[k] < 0.5, and "Taninamadi" otherwise; the outer "some flag set" test never changes the outcome |
| FaceRec.NoMatchIsUnknown | simple_facerec.py:82-85 | an empty gallery or all flags false gives "Taninamadi" |
| FaceRec.KnownNameOnlyAtFirstMin | simple_facerec.py:85-89 | a name other than "Taninamadi" comes only from the first minimum, with its flag set and its distance strictly below 0.5 |
| FaceRec.FlagsFromTolerance | simple_facerec.py:81-89 | if each flag means "distance at most tol" with tol >= 0.5, the flags do not matter: the first closest entry wins when its distance is below 0.5 |
| FaceRec.DetectedNamesAreFolders | simple_facerec.py:25-89 | after training, every face is named "Taninamadi" or after a directory of the listing |
| FaceRec.SimpleFacerec.constructor | simple_facerec.py:9-11 | a new recogniser has two empty, parallel lists |
| FaceRec.SimpleFacerec.LoadAndTrainModel | simple_facerec.py:24-51 | the nested loops return the trained gallery, whose lists are parallel |
| FaceRec.SimpleFacerec.LoadEncodingImages | simple_facerec.py:57-63 | a missing file leaves both lists unchanged; a saved file replaces both together |
| FaceRec.SimpleFacerec.DetectKnownFaces | simple_facerec.py:68-96 | exactly one name per observed face, in input order, each given by the naming rule, each "Taninamadi" or a known name |
| Attendance.Contents | yoklama.py:8-15 | the records read from the attendance file; a missing file reads as no records |
| Attendance.Mark | yoklama.py:8-38 | one `yoklama` call: the file as it was when the name is recorded, otherwise the records with {name, time} appended |
| Attendance.MarkAll | yoklama.py:56-62 | the per-frame loop: Mark for each detected name, in order, with its own time |
| Attendance.MarkFrames | yoklama.py:50-62 | several passes of the camera loop: MarkAll for each frame, in order |
| Attendance.Names | yoklama.py:19 | the name list has one entry per record, the record's name |
| Attendance.MarkRecords | yoklama.py:25-33 | after a call, the name is among the record names |
| Attendance.MarkPresentUnchanged | yoklama.py:25-38 | a name already recorded leaves the file as it was |
| Attendance.MarkIdempotent | yoklama.py:19-38 | calling twice for a name equals calling once, whatever the second time string |
| Attendance.MarkAppendOnly | yoklama.py:25-33 | earlier records are unchanged; an absent name adds exactly one record {name, time} at the end, and a present one adds none |
| Attendance.MarkKeepsDistinct | yoklama.py:19-33 | pairwise distinct record names stay pairwise distinct |
| Attendance.MarkDependsOnContents | yoklama.py:8-38 | two files with the same records give the same records after a call |
| Attendance.MissingIsEmpty | yoklama.py:8-33 | a missing file behaves exactly like an empty record list, and is created holding the one new record |
| Attendance.MarkAllDependsOnContents | yoklama.py:56-62 | over a whole frame, a missing file and an empty file give the same records |
| Attendance.MarkAllKeeps | yoklama.py:56-62 | a frame keeps earlier records in place and keeps distinct names distinct |
| Attendance.MarkAllRecordsEach | yoklama.py:56-62 | after a frame, every name of the frame is recorded |
| Attendance.MarkAllAddsOnlyFrameNames | yoklama.py:56-62 | every record a frame adds carries a name of the frame |
| Attendance.DistinctOccursOnce | yoklama.py:19-25 | a name in a list of distinct names occurs there exactly once |
| Attendance.FrameRecordsEachOnce | yoklama.py:56-62 | with distinct names before, every name of the frame occurs in the records exactly once after it |
| Attendance.UnknownRecordedOnce | yoklama.py:56-62 | the "Taninamadi" label is not filtered: it is recorded exactly once |
| Attendance.MarkAllPresentUnchanged | yoklama.py:25-62 | a frame whose names are all recorded leaves the file unchanged |
| Attendance.MarkAllIdempotent | yoklama.py:50-62 | processing the same frame again changes nothing |
| Attendance.MarkAllConcat | yoklama.py:50-62 | two frames processed one after the other leave the same file as one frame holding both, in order |
| Attendance.FromMissingDistinct | yoklama.py:8-62 | starting from no file, the recorded names are pairwise distinct after one frame |
| Attendance.FramesFromMissingDistinct | yoklama.py:8-62 | starting from no file, the recorded names are pairwise distinct after any number of frames |
| Attendance.OnlyUnknownFrame | yoklama.py:8-62 | a frame naming every face "Taninamadi", processed from no file, leaves the one record {"Taninamadi", time of the first face} |
| Attendance.AttendanceSheet.constructor | yoklama.py:8-15 | the sheet starts with the attendance file as found, present or missing |
| Attendance.AttendanceSheet.Yoklama | yoklama.py:6-38 | the file becomes Mark of the old one; the result `written` is true exactly when the name was not recorded, and when it is false the file is as it was |
| Attendance.AttendanceSheet.ProcessFrame | yoklama.py:56-62 | the loop leaves the file as MarkAll of the old one; every name of the frame is recorded; distinct names stay distinct |
| Attendance.AttendanceSheet.HandleFrame | yoklama.py:50-62 | one camera-loop pass: names per the naming rule, then each name recorded in order |
| Attendance.StartupAsWritten | yoklama.py:42-45 | the start-up as written: where reading "images/" reports "not found", the recogniser keeps two empty lists |
| Attendance.StartupAsWrittenRecordsOnlyUnknown | yoklama.py:42-62 | with that empty gallery and no attendance file, a frame with faces records only "Taninamadi" |
| Attendance.StartupAsWrittenAddsOnlyUnknown | yoklama.py:42-62 | with that empty gallery and whatever records an earlier run left, every record a frame adds is "Taninamadi" |
| Attendance.Startup | simple_facerec.py:24-63 | the start-up as intended: the recogniser holds exactly the lists training wrote to the encoding file |
| Attendance.StartupNamesStudents | simple_facerec.py:25-89 | with that gallery, a face whose first closest entry is flagged and below 0.5 is named after a directory of the listing |

## Left out

- Computing encodings, `face_locations`, `compare_faces` and `face_distance`: foreign numerics; their outputs are inputs (`Entry.images`, `Observation`).
- The tolerance of `compare_faces`: the library's own tolerance (a hidden default) is not assumed; the lemma holds for any tolerance of at least 0.5.
- OpenCV work: `preprocess_frame`, resizing, colour conversion, `imshow` and drawing; image processing outside the core.
- Face-location rescaling and the int cast (simple_facerec.py:94-96): floating-point arithmetic; `DetectKnownFaces` returns the names only.
- Distances are real numbers: NaN distances, which numpy's argmin would pick, are not modelled.
- The pickle and JSON formats, `indent=4` and the console messages: the stored content is a plain value.
- `datetime.now()` and `strftime`: each call receives its time string as an opaque parameter.
- Attendance.AttendanceSheet.ProcessFrame: takes one clock reading per name, so it requires as many readings as names; the source reads the clock inside each call that records a new name.
- The camera capture loop and the Esc-key exit: I/O. `HandleFrame` models one pass of the loop body.
- `os.listdir` order and the `glob("*.*")` filter: the listing and each directory's image list are taken as given, in the order the model receives them.
- Errors the source does not catch (an unreadable image, a corrupt pickle, a record without a `name` key): not modelled.
- FaceRec.SimpleFacerec.DetectKnownFaces: requires the two lists to be parallel, as training and loading a trained file guarantee; a hand-made file with fewer names than encodings could raise an index error in the source.
- fastAPI.py and Models/BaseModeller.py: HTTP endpoints, database access, password hashing and token handling over libraries that are not visible.

## Findings

| source | as written | input that shows it | evidently intended | confidence | as-written member | corrected member |
|---|---|---|---|---|---|---|
| yoklama.py:45 | the start-up passes the image folder `"images/"` to `load_encoding_images`, which reads a pickled encoding file (simple_facerec.py:57-63) | no encoding file at `"images/"`: the recogniser keeps empty lists, every face is named "Taninamadi"; from no attendance file a frame with faces records only that label, and from any earlier file the only records a frame adds carry that label | load the encoding file that `load_and_train_model` wrote (simple_facerec.py:24, 50-51) | medium, not executed | Attendance.StartupAsWrittenRecordsOnlyUnknown | Attendance.Startup |

If `"images/"` is an existing directory, `open` raises an error other than
`FileNotFoundError`, which the `except` at simple_facerec.py:62 does not catch;
the model covers the "not found" path only.
