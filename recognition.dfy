/** The decision logic of one `update_frame` tick: for every detected face,
    the gallery name it resolves to, the crop file it is saved under and the
    row appended to the `recognized_faces` table. Detection, encoding and
    the distance test are inputs. */
module Recognition {
  import opened Wrappers
  import opened Text
  import opened Gallery

  /** The name given to a face that matches no gallery entry. */
  const UnknownName: string := "Unknown"

  /** The directory crops are written to. */
  const SavedFacesDir: string := "saved_faces"

  /** A face location as the detector reports it: (top, right, bottom, left). */
  datatype Box = Box(top: int, right: int, bottom: int, left: int)

  /** One row of the `recognized_faces` table; the auto-increment id is
      the row's position in the log. */
  datatype Row = Row(name: string, timestamp: string, imagePath: string)

  /** Everything one `update_frame` tick gets from outside: whether the
      frame read succeeded, the frame's size, the detected boxes and
      encodings, the match flags `compare_faces` returns for the k-th
      (box, encoding) pair, and the two clock readings taken for that pair
      (the crop file's `%Y%m%d_%H%M%S` stamp and the table row's
      `%Y-%m-%d %H:%M:%S` one). */
  datatype Tick = Tick(
    readOk: bool,
    frameHeight: nat,
    frameWidth: nat,
    boxes: seq<Box>,
    encodings: seq<Encoding>,
    matches: seq<seq<bool>>,
    cropStamps: seq<string>,
    logStamps: seq<string>)

  /** The number of pairs `zip(face_locations, face_encodings)` yields. */
  function PairCount(t: Tick): (n: nat)
    ensures n <= |t.boxes| && n <= |t.encodings|
    ensures n == |t.boxes| || n == |t.encodings|
  {
    if |t.boxes| <= |t.encodings| then |t.boxes| else |t.encodings|
  }

  /** The outside inputs cover every pair, and every match list is aligned
      with a gallery of `gallerySize` entries, as `compare_faces` returns
      one flag per known encoding. */
  predicate Fits(t: Tick, gallerySize: nat) {
    |t.matches| >= PairCount(t) && |t.cropStamps| >= PairCount(t) && |t.logStamps| >= PairCount(t) &&
    forall k :: 0 <= k < PairCount(t) ==> |t.matches[k]| == gallerySize
  }

  /** `flags.index(True)` when `True in flags`, `None` otherwise. */
  function FirstTrue(matches: seq<bool>): (r: Option<nat>)
    ensures r.None? <==> forall j :: 0 <= j < |matches| ==> !matches[j]
    ensures r.Some? ==> r.value < |matches| && matches[r.value] &&
                        forall j :: 0 <= j < r.value ==> !matches[j]
  {
    if matches == [] then None
    else if matches[0] then Some(0)
    else match FirstTrue(matches[1..])
      case None => None
      case Some(i) => Some(i + 1)
  }

  /** The bound numpy uses for `start` or `stop` of a slice on an axis of
      length `n`: negative values count from the end, and the result is
      clamped to `0 .. n`. */
  function SliceBound(i: int, n: nat): (b: nat)
    ensures b <= n
    ensures 0 <= i <= n ==> b == i
  {
    if i < 0 then (if i + n < 0 then 0 else i + n)
    else if i > n then n
    else i
  }

  /** The length of `a[start:stop]` on an axis of length `n`. */
  function SliceLength(start: int, stop: int, n: nat): (len: nat)
    ensures len <= n
  {
    var a, b := SliceBound(start, n), SliceBound(stop, n);
    if b > a then b - a else 0
  }

  /** `frame[top:bottom, left:right]` has no pixels; `cv2.imwrite` then
      raises `cv2.error`. */
  predicate CropEmpty(box: Box, height: nat, width: nat) {
    SliceLength(box.top, box.bottom, height) == 0 || SliceLength(box.left, box.right, width) == 0
  }

  /** For a box inside the frame, the crop is empty exactly when the box
      has no height or no width. */
  lemma CropEmptyInsideFrame(box: Box, height: nat, width: nat)
    requires 0 <= box.top <= height && 0 <= box.bottom <= height
    requires 0 <= box.left <= width && 0 <= box.right <= width
    ensures CropEmpty(box, height, width) <==> box.top >= box.bottom || box.left >= box.right
  {
  }

  /** One flag per zipped pair: whether its crop is empty. */
  function EmptyCrops(t: Tick): (flags: seq<bool>)
    ensures |flags| == PairCount(t)
  {
    seq(PairCount(t), k requires 0 <= k < PairCount(t) => CropEmpty(t.boxes[k], t.frameHeight, t.frameWidth))
  }

  /** How many pairs a processed frame gets through: all of them, or the
      ones before the first empty crop, whose exception ends the tick. */
  function Completed(t: Tick): (n: nat)
    ensures n <= PairCount(t)
    ensures forall k :: 0 <= k < n ==> !CropEmpty(t.boxes[k], t.frameHeight, t.frameWidth)
    ensures n < PairCount(t) ==> CropEmpty(t.boxes[n], t.frameHeight, t.frameWidth)
  {
    var flags := EmptyCrops(t);
    assert forall k :: 0 <= k < |flags| ==> flags[k] == CropEmpty(t.boxes[k], t.frameHeight, t.frameWidth);
    match FirstTrue(flags)
    case None => PairCount(t)
    case Some(i) => i
  }

  /** The tick ends in the `cv2.error` of an empty crop. */
  predicate Aborted(t: Tick) {
    Completed(t) < PairCount(t)
  }

  /** The name shown and logged for one face: the label of the first gallery
      entry flagged as a match, whatever the distances of later ones, or
      "Unknown" when none is. */
  function ResolveName(names: seq<string>, matches: seq<bool>): (name: string)
    requires |matches| == |names|
    ensures (forall j :: 0 <= j < |matches| ==> !matches[j]) ==> name == UnknownName
    ensures forall i :: 0 <= i < |matches| && matches[i] && (forall j :: 0 <= j < i ==> !matches[j]) ==>
      name == names[i]
  {
    match FirstTrue(matches)
    case None => UnknownName
    case Some(i) => names[i]
  }

  /** `f"saved_faces/{name}_{timestamp}.jpg"`. */
  function CropPath(name: string, stamp: string): string {
    SavedFacesDir + "/" + name + "_" + stamp + ".jpg"
  }

  /** Every crop path names a `.jpg` file inside the crop directory. */
  lemma CropPathShape(name: string, stamp: string)
    ensures StartsWith(CropPath(name, stamp), SavedFacesDir + "/")
    ensures EndsWith(CropPath(name, stamp), ".jpg")
  {
    var path := CropPath(name, stamp);
    assert path == (SavedFacesDir + "/") + (name + "_" + stamp + ".jpg");
    assert path == (SavedFacesDir + "/" + name + "_" + stamp) + ".jpg";
  }

  /** With time stamps of one fixed width (as `%Y%m%d_%H%M%S` produces),
      the crop path determines both the name and the stamp. */
  lemma CropPathInjective(name1: string, stamp1: string, name2: string, stamp2: string)
    requires |stamp1| == |stamp2|
    requires CropPath(name1, stamp1) == CropPath(name2, stamp2)
    ensures name1 == name2 && stamp1 == stamp2
  {
    var p1, p2 := CropPath(name1, stamp1), CropPath(name2, stamp2);
    var pre := |SavedFacesDir + "/"|;
    assert |name1| == |name2|;
    assert name1 == p1[pre..pre + |name1|];
    assert name2 == p2[pre..pre + |name2|];
    assert stamp1 == p1[pre + |name1| + 1..pre + |name1| + 1 + |stamp1|];
    assert stamp2 == p2[pre + |name2| + 1..pre + |name2| + 1 + |stamp2|];
  }

  /** The row logged for the k-th face of a tick. */
  function FaceRow(names: seq<string>, t: Tick, k: nat): Row
    requires Fits(t, |names|) && k < PairCount(t)
  {
    var name := ResolveName(names, t.matches[k]);
    Row(name, t.logStamps[k], CropPath(name, t.cropStamps[k]))
  }

  /** The rows one processed frame appends, in zip order, up to the first
      empty crop. */
  function FrameRows(names: seq<string>, t: Tick): (rows: seq<Row>)
    requires Fits(t, |names|)
  {
    seq(Completed(t), k requires 0 <= k < Completed(t) => FaceRow(names, t, k))
  }

  /** The crop files written for a sequence of rows, in the same order. */
  function Paths(rows: seq<Row>): (paths: seq<string>)
    ensures |paths| == |rows|
  {
    seq(|rows|, k requires 0 <= k < |rows| => rows[k].imagePath)
  }

  /** The rows of the first `k + 1` completed pairs extend those of the
      first `k` by the row of pair `k`, and their crop paths likewise. */
  lemma FrameRowsStep(names: seq<string>, t: Tick, k: nat)
    requires Fits(t, |names|) && k < Completed(t)
    ensures var rows := FrameRows(names, t);
      rows[..k + 1] == rows[..k] + [FaceRow(names, t, k)] &&
      Paths(rows[..k + 1]) == Paths(rows[..k]) + [FaceRow(names, t, k).imagePath]
  {
    var rows := FrameRows(names, t);
    assert rows[..k + 1] == rows[..k] + [rows[k]];
  }

  /** A processed frame yields one row per zipped (box, encoding) pair, in
      zip order, each naming the first matching gallery entry (or
      "Unknown") and pointing at the crop file named after that name and
      the crop time stamp; every pair gets its row exactly when no crop is
      empty, and otherwise the rows stop at the first empty crop. */
  lemma FrameRowsMeaning(names: seq<string>, t: Tick)
    requires Fits(t, |names|)
    ensures |FrameRows(names, t)| == Completed(t) <= PairCount(t) <= |t.boxes|
    ensures |FrameRows(names, t)| == PairCount(t) <==>
      forall k :: 0 <= k < PairCount(t) ==> !CropEmpty(t.boxes[k], t.frameHeight, t.frameWidth)
    ensures forall k :: 0 <= k < Completed(t) ==>
      var row := FrameRows(names, t)[k];
      var first := FirstTrue(t.matches[k]);
      row.name == (if first.Some? then names[first.value] else UnknownName) &&
      row.timestamp == t.logStamps[k] &&
      row.imagePath == "saved_faces/" + row.name + "_" + t.cropStamps[k] + ".jpg"
  {
  }

  /** With an empty gallery every face is "Unknown". */
  lemma EmptyGalleryAllUnknown(t: Tick)
    requires Fits(t, 0)
    ensures forall row :: row in FrameRows([], t) ==> row.name == UnknownName
  {
  }

  /** A frame without detected faces logs nothing. */
  lemma NoFacesNoRows(names: seq<string>, t: Tick)
    requires Fits(t, |names|) && (t.boxes == [] || t.encodings == [])
    ensures FrameRows(names, t) == []
  {
  }

  /** Only the prefix of the match flags up to and including the first
      match decides the name: flags after it (other, possibly closer,
      matches) are never consulted. */
  lemma FirstTrueIgnoresLaterFlags(m1: seq<bool>, m2: seq<bool>, i: nat)
    requires i < |m1| && i < |m2| && m1[..i + 1] == m2[..i + 1] && m1[i]
    ensures FirstTrue(m1) == FirstTrue(m2)
  {
    assert forall j :: 0 <= j <= i ==> m1[j] == m2[j] by {
      forall j | 0 <= j <= i ensures m1[j] == m2[j] {
        assert m1[j] == m1[..i + 1][j];
        assert m2[j] == m2[..i + 1][j];
      }
    }
  }

  /** A processed frame with a single face whose crop is not empty logs
      exactly that face's row. */
  lemma SingleFaceRows(names: seq<string>, t: Tick)
    requires Fits(t, |names|) && PairCount(t) == 1
    requires !CropEmpty(t.boxes[0], t.frameHeight, t.frameWidth)
    ensures FrameRows(names, t) == [FaceRow(names, t, 0)]
  {
    assert Completed(t) == 1;
  }

  /** A gallery built from one `<stem>.jpg` file, and a frame with one
      face inside the picture that the distance test matches to it, log one
      row named after the stem whose crop is `saved_faces/<stem>_<stamp>.jpg`. */
  lemma OneKnownFaceScenario(stem: string, e: Encoding, enc: Encoding, cropStamp: string, logStamp: string)
    requires stem != [] && stem[0] != '.' && '/' !in stem
    ensures var names := GalleryNames([DirEntry(stem + ".jpg", [e])]);
      var t := Tick(true, 480, 640, [Box(100, 300, 250, 150)], [enc], [[true]], [cropStamp], [logStamp]);
      names == [stem] && Fits(t, |names|) &&
      FrameRows(names, t) == [Row(stem, logStamp, "saved_faces/" + stem + "_" + cropStamp + ".jpg")]
  {
    var entry := DirEntry(stem + ".jpg", [e]);
    assert Lower(".jpg") == ".jpg";
    LabelOfStem(stem, ".jpg");
    GallerySnoc([], entry);
    assert [] + [entry] == [entry];
    var t := Tick(true, 480, 640, [Box(100, 300, 250, 150)], [enc], [[true]], [cropStamp], [logStamp]);
    assert !CropEmpty(t.boxes[0], 480, 640);
    SingleFaceRows([stem], t);
    assert FirstTrue([true]) == Some(0);
    assert SavedFacesDir + "/" == "saved_faces/";
    assert FaceRow([stem], t, 0) == Row(stem, logStamp, CropPath(stem, cropStamp));
  }
}
