# Facepop face-recognition desktop app — a Dafny model of its decision logic

Facepop's `FaceApp` shows live camera frames. It matches detected faces against a gallery of known faces loaded from
`known_faces/`, writes a crop of every detected face to `saved_faces/`, and logs every detection as a row
(name, timestamp, image path) of the SQLite table `recognized_faces`. This project models the sequential
decisions of that class. Every call into OpenCV, `face_recognition`, Tk, SQLite, the file system and the clock is
replaced by an input:

- the directory listing, as `DirEntry(filename, encodings)` values;
- the camera probe outcomes, as `seq<bool>`;
- whether the selected camera opens, as a `bool`;
- for one `update_frame` tick, a `Tick`: read success, the frame's height and width, detected boxes and
  encodings, the per-face match flags `compare_faces` returns, and the per-face clock readings.

Modules, one per component:

- `Wrappers`: the `Option` type.
- `Text`: the Python string operations the application relies on:
  - `str.lower` (ASCII letters), `endswith`, `startswith`;
  - `os.path.splitext`, including its rule that leading dots do not start an extension;
  - `str.split()` on Unicode whitespace;
  - `str(n)` and `int(token)`.
- `Gallery`: `load_known_faces` as specification functions. The kept positions of the listing, the names list and
  the encodings list.
- `Cameras`: `detect_cameras` as a method with a loop, the list it must return, and the parsing of a camera
  index out of the selected label.
- `Recognition`: first-match name resolution, the crop path, and the rows one processed frame appends.
- `App`: the class `FaceApp`. Its fields are the gallery lists, the camera list, the position of the selected
  entry, the video handle, `running`, the table (a `seq<Row>`), the written crop paths and the number of queued
  `update_frame` callbacks. Its methods mirror `__init__`, `load_known_faces`, `save_face_to_db`, `update_frame`,
  `start_video` and `stop_video`, plus `SelectCamera`, the user choosing an entry of the selector, and
  `FireTimer`, Tk running one queued callback. `Valid()` holds that the
  gallery lists are parallel, that the selector shows one of its entries, and that `running` holds exactly while
  an opened camera is held.

Behaviour of the code the model keeps:

- A failed open leaves the unopened capture in `self.video`, and `running` stays false.
- `detect_cameras` releases a probe handle only when its read succeeded.
- The crop file name and the table row take two separate clock readings, which may differ.
- `start_video` also processes a first frame immediately.
- The next `update_frame` is queued (`window.after`, line 154) only at the end of a frame that was processed to
  the end. A failed read, or an exception, ends the chain of callbacks for good while `running` stays true, and
  `start_video` then returns at once (lines 97-98) until `stop_video` is called. `App.StallAfterFailedRead`
  shows this sequence.
- An empty crop (a box with no height or width inside the frame) makes `cv2.imwrite` raise `cv2.error` (line
  146). That face gets no row, the rest of the frame is skipped, and no next call is queued.

## Model

| member | source | states |
|---|---|---|
| `Text.Lower` | face_recognition_app.py:76 | the lower-cased name has the length of the name |
| `Text.LowerMeaning` | face_recognition_app.py:76 | `lower()` turns each ASCII capital into its small letter, leaves no capital, keeps every other character, and is idempotent |
| `Text.StartsWith` | face_recognition_app.py:101 | `str.startswith`; `AffixesMeaning` states what it means |
| `Text.EndsWith` | face_recognition_app.py:76 | `str.endswith`; `AffixesMeaning` states what it means |
| `Text.AffixesMeaning` | face_recognition_app.py:76-101 | `s` starts with `a` exactly when `s` is `a` followed by the rest, and ends with `a` exactly when `s` is the rest followed by `a` |
| `Text.LastIndexOf` | face_recognition_app.py:82 | the `rfind` that `splitext` uses: -1 when the character is absent, otherwise a position holding it with no later occurrence |
| `Text.SplitExtRoot` | face_recognition_app.py:82 | `os.path.splitext(p)[0]`; the two lemmas below state what it returns |
| `Text.SplitExtRootDropsExtension` | face_recognition_app.py:82 | `os.path.splitext(p)[0]` drops exactly a final four-character extension when something other than dots precedes it |
| `Text.SplitExtRootKeepsDotOnlyNames` | face_recognition_app.py:82 | a name made only of dots before its extension (".jpg") is returned whole, as `splitext` does |
| `Text.Split` | face_recognition_app.py:105 | `cam_text.split()` yields non-empty tokens free of whitespace |
| `Text.SplitJoinWords` | face_recognition_app.py:105 | words without whitespace, joined by one whitespace character, split back into exactly those words |
| `Text.SplitIgnoresTrailingSpace` | face_recognition_app.py:105 | whitespace at the end of a string does not change its tokens |
| `Text.SplitTwoWords` | face_recognition_app.py:105 | splitting "word␣word" yields exactly the two words |
| `Text.NatToString` | face_recognition_app.py:90 | the `{i}` of the camera label is a non-empty string of decimal digits |
| `Text.ParseInt` | face_recognition_app.py:105 | `int(token)` on an optional sign and decimal digits; `ParseIntOfNatToString` states its round trip |
| `Text.ParseIntOfNatToString` | face_recognition_app.py:105 | `int(str(n)) == n` for every natural `n` |
| `Text.NatToStringInjective` | face_recognition_app.py:90 | different indices give different numerals |
| `Gallery.HasImageExtension` | face_recognition_app.py:76 | the `.jpg`/`.png` test in any letter case; `LabelOfStem` states which names pass it |
| `Gallery.HasImageExtensionMeaning` | face_recognition_app.py:76 | a name passes the test exactly when it ends in a dot followed by `jpg` or `png`, each letter in either case |
| `Gallery.Kept` | face_recognition_app.py:76-80 | the two tests an entry passes to enter the gallery; `KeptIndices` states which entries pass |
| `Gallery.Label` | face_recognition_app.py:82 | the gallery label; `LabelDropsExtension` and `LabelOfStem` state its value |
| `Gallery.KeptIndices` | face_recognition_app.py:75-80 | the listing positions that enter the gallery are increasing, and a position is among them exactly when its name lower-cases to a `.jpg`/`.png` ending and its encoding list is non-empty |
| `Gallery.GalleryNames` | face_recognition_app.py:72-83 | `known_face_names` after the loop; `GalleryNamesMeaning` states its contents |
| `Gallery.GalleryEncodings` | face_recognition_app.py:72-83 | `known_face_encodings` after the loop; `GalleryEncodingsMeaning` states its contents |
| `Gallery.GalleryNamesMeaning` | face_recognition_app.py:73-83 | the names list holds one name per kept position, in listing order: the label of that file |
| `Gallery.GalleryEncodingsMeaning` | face_recognition_app.py:72-81 | the encodings list holds one encoding per kept position, in listing order: the first encoding of that file, so the two lists have equal length |
| `Gallery.GallerySnoc` | face_recognition_app.py:75-83 | one more entry at the end of the listing adds its label and first encoding at the end of the lists when it is kept, and nothing otherwise |
| `Gallery.LabelDropsExtension` | face_recognition_app.py:76-82 | a kept file with no '/' and something other than dots before its four-character extension is labelled by its name without that extension; `Text.SplitExtRootKeepsDotOnlyNames` covers names made only of dots before the extension |
| `Gallery.LabelOfStem` | face_recognition_app.py:76-82 | a stem not starting with a dot, followed by `.jpg` or `.png` in any letter case, passes the extension test and is labelled by the stem |
| `Gallery.DuplicateLabelsKept` | face_recognition_app.py:75-83 | `<stem>.jpg` and `<stem>.PNG` both enter the gallery, both labelled by the stem, in listing order, each with its first encoding |
| `Cameras.CameraLabel` | face_recognition_app.py:90 | `f"Камера {i}"`; `ParseIndexOfLabel` and `LabelsAndSentinel` state what can be read back from it |
| `Cameras.AvailableIndices` | face_recognition_app.py:87-90 | the indices whose probe read a frame, increasing, and every such index |
| `Cameras.CameraList` | face_recognition_app.py:86-94 | the list `detect_cameras` returns; `CameraListMeaning` and `CameraListOrder` state its contents |
| `Cameras.DetectCameras` | face_recognition_app.py:85-94 | the loop returns exactly the list `CameraList` of the probe outcomes, which is never empty |
| `Cameras.ListedIfReadable` | face_recognition_app.py:87-90 | a camera whose probe read a frame is listed |
| `Cameras.ReadableIfListed` | face_recognition_app.py:87-93 | a listed camera is one whose probe read a frame |
| `Cameras.CameraListMeaning` | face_recognition_app.py:85-94 | the list is never empty; it is `["Нет доступных камер"]` exactly when no probe succeeded; "Камера i" is listed exactly when probe `i` succeeded |
| `Cameras.CameraListOrder` | face_recognition_app.py:86-90 | any two entries of a list with more than one entry read back to indices, and the earlier entry has the smaller index |
| `Cameras.ParseIndex` | face_recognition_app.py:105 | `int(cam_text.split()[-1])`, `None` where Python raises; `ParseIndexOfLabel` states its value on labels |
| `Cameras.ParseIndexOfLabel` | face_recognition_app.py:105 | `int(label.split()[-1])` on a label `f"Камера {i}"` gives back `i` |
| `Cameras.LabelsAndSentinel` | face_recognition_app.py:101 | every camera label passes the `startswith("Камера")` test and the "no camera" entry fails it |
| `Cameras.CameraLabelInjective` | face_recognition_app.py:90 | distinct indices give distinct labels |
| `Cameras.SelectionOutcome` | face_recognition_app.py:100-105 | for any listed entry, `start_video` rejects it exactly when it is the "no camera" entry; otherwise it parses an index whose probe succeeded |
| `Cameras.FirstEntryIsCameraZero` | face_recognition_app.py:32-34 | when camera 0 reads a frame, the entry selected at start-up is "Камера 0" |
| `Cameras.SingleReadableCamera` | face_recognition_app.py:85-94 | when exactly one probe succeeds, the list is that camera's label alone |
| `Cameras.OnlyIndexTwo` | face_recognition_app.py:85-94 | five probes where only index 2 reads give `["Камера 2"]` |
| `Recognition.PairCount` | face_recognition_app.py:132 | `zip` yields as many pairs as the shorter of boxes and encodings |
| `Recognition.FirstTrue` | face_recognition_app.py:136-137 | `None` exactly when no flag is true; otherwise the smallest index whose flag is true |
| `Recognition.ResolveName` | face_recognition_app.py:133-138 | the name is the label at the first true flag, and "Unknown" when no flag is true |
| `Recognition.FirstTrueIgnoresLaterFlags` | face_recognition_app.py:136-138 | flags after the first true one never change the result, so a later and closer match is ignored |
| `Recognition.SliceBound` | face_recognition_app.py:143 | a numpy slice bound lies within the axis, and a bound already within it is kept |
| `Recognition.CropEmpty` | face_recognition_app.py:143-146 | `frame[top:bottom, left:right]` has no pixels, so `cv2.imwrite` raises; `CropEmptyInsideFrame` states when this happens for a box inside the frame |
| `Recognition.CropEmptyInsideFrame` | face_recognition_app.py:143-146 | for a box inside the frame, the crop is empty exactly when the box has no height or no width |
| `Recognition.Completed` | face_recognition_app.py:132-147 | the pairs a processed frame gets through: none of them has an empty crop, and when they are not all pairs, the next one has |
| `Recognition.Aborted` | face_recognition_app.py:132-154 | the frame's loop ends in the exception of an empty crop, so not every pair is logged and line 154 is not reached; `Completed` and `App.FaceApp.UpdateFrame` state its effect |
| `Recognition.CropPath` | face_recognition_app.py:145 | `f"saved_faces/{name}_{timestamp}.jpg"`; `CropPathShape` and `CropPathInjective` state its properties |
| `Recognition.CropPathShape` | face_recognition_app.py:145 | every crop path starts with `saved_faces/` and ends with `.jpg` |
| `Recognition.CropPathInjective` | face_recognition_app.py:144-145 | with fixed-width time stamps, the crop path determines the name and the stamp |
| `Recognition.FaceRow` | face_recognition_app.py:133-147 | the row logged for one face; `FrameRowsMeaning` states its fields |
| `Recognition.FrameRows` | face_recognition_app.py:132-147 | the rows a processed frame appends; `FrameRowsMeaning` states them |
| `Recognition.FrameRowsStep` | face_recognition_app.py:132-147 | the rows and crop paths of the first `k + 1` completed pairs are those of the first `k` followed by pair `k`'s row and path, the order in which the loop writes them |
| `Recognition.FrameRowsMeaning` | face_recognition_app.py:132-147 | a processed frame appends one row per zipped pair, in zip order, up to the first empty crop, and a row for every pair exactly when no crop is empty. Each row carries the first-match name (or "Unknown"), its own clock reading, and the path `"saved_faces/" + name + "_" + stamp + ".jpg"` |
| `Recognition.EmptyGalleryAllUnknown` | face_recognition_app.py:133-138 | with an empty gallery every row is named "Unknown" |
| `Recognition.NoFacesNoRows` | face_recognition_app.py:132 | a frame with no boxes or no encodings appends nothing |
| `Recognition.SingleFaceRows` | face_recognition_app.py:132-147 | a frame with one face whose crop is not empty appends exactly that face's row |
| `Recognition.OneKnownFaceScenario` | face_recognition_app.py:71-147 | a gallery of one `<stem>.jpg` and a frame with one matching face inside the picture log one row named by the stem, with crop `saved_faces/<stem>_<stamp>.jpg` |
| `App.FaceApp.constructor` | face_recognition_app.py:13-50 | after start-up the gallery is built from the listing, the selector offers the probed camera list with its first entry chosen, no camera is held, nothing is queued, and the app is not running |
| `App.FaceApp.LoadKnownFaces` | face_recognition_app.py:71-83 | the loop leaves exactly `GalleryNames`/`GalleryEncodings` of the listing, two lists of equal length |
| `App.FaceApp.SelectCamera` | face_recognition_app.py:33-34 | the read-only selector only ever holds an entry of the camera list |
| `App.FaceApp.SaveFaceToDb` | face_recognition_app.py:65-69 | exactly one row (name, timestamp, path) is appended and earlier rows are unchanged |
| `App.FaceApp.Processes` | face_recognition_app.py:121-126 | the call gets past the early returns: running, a camera held, and a successful read; `App.FaceApp.UpdateFrame` states that nothing changes otherwise |
| `App.FaceApp.UpdateFrame` | face_recognition_app.py:120-154 | when not running, with no camera, or when the read fails, nothing changes and nothing is queued; otherwise the log and the crop list grow by exactly the frame's rows and their paths, in order, and one next call is queued exactly when no crop was empty |
| `App.FaceApp.FireTimer` | face_recognition_app.py:120-154 | running one queued callback removes it from the queue and has the effect of `update_frame` |
| `App.FaceApp.StartVideo` | face_recognition_app.py:96-113 | the call does nothing while running, on a selection that does not start with "Камера", or on an unparsable selection. Otherwise it holds the camera of the parsed index and runs exactly when the camera opened; in that case it also processes the first frame, which queues the next call only if it was processed to the end |
| `App.FaceApp.StopVideo` | face_recognition_app.py:115-118 | `running` becomes false in every case; an open camera is released, and anything else is left as it was |
| `App.StallAfterFailedRead` | face_recognition_app.py:96-154 | with camera 0 readable, a start whose first read fails leaves the app running with no callback queued, and a second press of Start changes nothing |

## Left out

- Face detection, embedding and the distance test of `compare_faces` with tolerance 0.5 (lines 129-133). These are
  floating-point library calls. Their results are the `Tick` inputs.
- Image work: the colour conversions, `rectangle`, `putText`, the crop slice, the image bytes written by `imwrite`,
  and the PIL/Tk display (lines 128, 140-143, 146, 149-153). A crop is recorded as its path only. The exception
  `imwrite` raises on an empty crop is modelled (`Recognition.Completed`). A write error that makes `imwrite`
  return `False` is ignored by the source, and the model records the path as if the write had succeeded.
- The SQLite connection, schema creation and commits (lines 52-63). The table is a `seq<Row>`. The rows already
  in `faces.db` are a constructor parameter. The auto-increment id is the row's position.
- `datetime.now()` and its formats (lines 66, 144). Time stamps are opaque input strings.
- Tk widgets and buttons, the `print` diagnostics of `start_video` and `__del__` (lines 14-48, 102, 109,
  156-158). Of `window.after` (line 154) only the number of queued callbacks is modelled (`pendingTicks`,
  `FireTimer`); the 10 ms delay and the order in which Tk interleaves callbacks with button presses are left to
  the caller of the methods.
- `App.FaceApp.LoadKnownFaces`: assumes every kept name decodes. A `face_recognition.load_image_file` exception
  (line 78), on an undecodable `.jpg`/`.png` file or a directory so named, aborts `__init__` (line 21); this
  failure is not modelled.
- `os.makedirs` and loading the Caffe model (lines 17-18, 37-41). The recognition logic never uses them.
- Opening and releasing the camera handles in `detect_cameras`: only the outcome of each probe read is an input.
  The source releases a handle only after a successful read.
- `Text.Lower`: lower-cases ASCII letters only. Python's `str.lower` also maps non-ASCII letters, but the
  extension test looks only at the last four characters.
- `Text.ParseInt`: accepts an optional sign and ASCII digits. It does not accept the underscores, surrounding
  whitespace or non-ASCII decimal digits that Python's `int` also takes; labels made by `detect_cameras` contain
  none of these.
- `Recognition.ResolveName`: requires one match flag per gallery entry, which is what `compare_faces` returns.
- A Python exception inside `start_video` (no token, or a last token that is not an integer) leaves the state
  unchanged. Tk's report of the exception is not modelled.
