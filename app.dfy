/** The application object `FaceApp`, with its widgets, camera handle and
    database connection reduced to the state its decisions read and write. */
module App {
  import opened Wrappers
  import opened Text
  import opened Gallery
  import opened Cameras
  import opened Recognition

  /** The `cv2.VideoCapture` held in `self.video`: the index it was opened
      with and whether `isOpened()` holds (`isOpen`). */
  datatype Capture = Capture(index: int, isOpen: bool)

  class FaceApp {
    var knownEncodings: seq<Encoding>
    var knownNames: seq<string>
    /** The entries offered by the read-only camera selector. */
    var cameraList: seq<string>
    /** The position of the selector's current entry
        (`camera_select.current()`). */
    var selected: nat
    /** `self.video`: `None` until the first start attempt. */
    var video: Option<Capture>
    var running: bool
    /** The `recognized_faces` table, oldest row first. */
    var log: seq<Row>
    /** The crop files written by `cv2.imwrite`, in writing order. */
    var crops: seq<string>
    /** How many `window.after(10, self.update_frame)` callbacks are queued. */
    var pendingTicks: nat

    /** The gallery lists stay parallel, the selector always holds one of
        its entries, and frames are being processed exactly while an opened
        camera is held. */
    ghost predicate Valid()
      reads this
    {
      |knownNames| == |knownEncodings| &&
      selected < |cameraList| &&
      (running <==> video.Some? && video.value.isOpen)
    }

    /** `__init__`: open the (possibly non-empty) table, load the gallery,
        probe `MaxTested` cameras and select the first entry. */
    constructor (listing: seq<DirEntry>, probes: seq<bool>, storedRows: seq<Row>)
      requires |probes| == MaxTested
      ensures Valid()
      ensures knownNames == GalleryNames(listing) && knownEncodings == GalleryEncodings(listing)
      ensures cameraList == CameraList(probes) && selected == 0
      ensures video == None && !running && pendingTicks == 0
      ensures log == storedRows && crops == []
    {
      log := storedRows;
      crops := [];
      pendingTicks := 0;
      knownEncodings := [];
      knownNames := [];
      video := None;
      var cams := DetectCameras(probes);
      cameraList := cams;
      selected := 0;
      running := false;
      new;
      LoadKnownFaces(listing);
      assert cameraList == CameraList(probes) && selected == 0;
      assert Valid();
    }

    /** `load_known_faces`: rebuild both gallery lists from the listing. */
    method LoadKnownFaces(listing: seq<DirEntry>)
      modifies this`knownEncodings, this`knownNames
      ensures knownNames == GalleryNames(listing)
      ensures knownEncodings == GalleryEncodings(listing)
      ensures |knownNames| == |knownEncodings|
    {
      knownEncodings := [];
      knownNames := [];
      for i := 0 to |listing|
        invariant knownNames == GalleryNames(listing[..i])
        invariant knownEncodings == GalleryEncodings(listing[..i])
        invariant |knownNames| == |knownEncodings|
      {
        assert listing[..i + 1][..i] == listing[..i];
        var entry := listing[i];
        if HasImageExtension(entry.filename) {
          var encodings := entry.encodings;
          if |encodings| > 0 {
            knownEncodings := knownEncodings + [encodings[0]];
            var name := Label(entry.filename);
            knownNames := knownNames + [name];
          }
        }
      }
      assert listing[..|listing|] == listing;
    }

    /** The user picks entry `k` of the read-only selector. */
    method SelectCamera(k: nat)
      requires Valid() && k < |cameraList|
      modifies this`selected
      ensures Valid() && selected == k
    {
      selected := k;
    }

    /** `save_face_to_db`: append one row stamped with the clock reading. */
    method SaveFaceToDb(name: string, imagePath: string, timestamp: string)
      modifies this`log
      ensures log == old(log) + [Row(name, timestamp, imagePath)]
    {
      log := log + [Row(name, timestamp, imagePath)];
    }

    /** Whether a call of `update_frame` gets past its early returns. */
    function Processes(t: Tick): bool
      reads this
    {
      running && video.Some? && t.readOk
    }

    /** `update_frame`: when running with a camera and the read succeeds,
        write one crop and append one row per zipped (box, encoding) pair,
        stopping at the first empty crop (whose `cv2.error` leaves the
        method), and queue the next call only if the frame was processed to
        the end; otherwise change nothing. */
    method UpdateFrame(t: Tick)
      requires Valid() && Fits(t, |knownNames|)
      modifies this`log, this`crops, this`pendingTicks
      ensures Valid()
      ensures var emitted := if Processes(t) then FrameRows(knownNames, t) else [];
        log == old(log) + emitted && crops == old(crops) + Paths(emitted)
      ensures pendingTicks == old(pendingTicks) + (if Processes(t) && !Aborted(t) then 1 else 0)
    {
      if !running || video.None? {
        return;
      }
      if !t.readOk {
        return;
      }
      ghost var rows := FrameRows(knownNames, t);
      var n := PairCount(t);
      var k := 0;
      while k < n
        invariant 0 <= k <= n && k <= Completed(t)
        invariant log == old(log) + rows[..k]
        invariant crops == old(crops) + Paths(rows[..k])
        invariant pendingTicks == old(pendingTicks)
      {
        var name := ResolveName(knownNames, t.matches[k]);
        var path := CropPath(name, t.cropStamps[k]);
        if CropEmpty(t.boxes[k], t.frameHeight, t.frameWidth) {
          // cv2.imwrite raises on the empty crop: no file, no row, no next tick
          assert Completed(t) == k && rows[..k] == rows;
          return;
        }
        assert FaceRow(knownNames, t, k) == Row(name, t.logStamps[k], path);
        FrameRowsStep(knownNames, t, k);
        crops := crops + [path];
        SaveFaceToDb(name, path, t.logStamps[k]);
        k := k + 1;
      }
      assert rows[..n] == rows;
      pendingTicks := pendingTicks + 1;
    }

    /** Tk runs one queued `update_frame` callback. */
    method FireTimer(t: Tick)
      requires Valid() && pendingTicks > 0 && Fits(t, |knownNames|)
      modifies this`log, this`crops, this`pendingTicks
      ensures Valid()
      ensures var emitted := if Processes(t) then FrameRows(knownNames, t) else [];
        log == old(log) + emitted && crops == old(crops) + Paths(emitted)
      ensures pendingTicks == old(pendingTicks) - 1 + (if Processes(t) && !Aborted(t) then 1 else 0)
    {
      pendingTicks := pendingTicks - 1;
      UpdateFrame(t);
    }

    /** `start_video`: ignored while running; otherwise the selection must
        start with "Камера" and end in an integer (a ValueError leaves the
        state as it was), the camera with that index is opened, and only if
        it opens does the application run and process a first frame. */
    method StartVideo(openOk: bool, first: Tick)
      requires Valid() && Fits(first, |knownNames|)
      modifies this`video, this`running, this`log, this`crops, this`pendingTicks
      ensures Valid()
      ensures var camText := cameraList[selected];
        var index := ParseIndex(camText);
        if old(running) || !StartsWith(camText, CameraWord) || index.None? then
          video == old(video) && running == old(running) && log == old(log) && crops == old(crops) &&
          pendingTicks == old(pendingTicks)
        else
          var processed := openOk && first.readOk;
          var emitted := if processed then FrameRows(knownNames, first) else [];
          video == Some(Capture(index.value, openOk)) && running == openOk &&
          log == old(log) + emitted && crops == old(crops) + Paths(emitted) &&
          pendingTicks == old(pendingTicks) + (if processed && !Aborted(first) then 1 else 0)
    {
      if running {
        return;
      }
      var camText := cameraList[selected];
      if !StartsWith(camText, CameraWord) {
        return;
      }
      var index := ParseIndex(camText);
      if index.None? {
        return;
      }
      video := Some(Capture(index.value, openOk));
      if !openOk {
        return;
      }
      running := true;
      UpdateFrame(first);
    }

    /** `stop_video`: stop processing and release the camera if one is
        open. */
    method StopVideo()
      requires Valid()
      modifies this`running, this`video
      ensures Valid() && !running
      ensures video == if old(video).Some? && old(video).value.isOpen
                       then Some(Capture(old(video).value.index, false))
                       else old(video)
    {
      running := false;
      if video.Some? && video.value.isOpen {
        video := Some(Capture(video.value.index, false));
      }
    }
  }

  /** The only place the next tick is queued is the end of a processed
      frame. A failed read right after a successful start therefore leaves
      the application running with nothing queued: no frame is processed
      again, and pressing Start is ignored, until Stop is pressed. */
  method StallAfterFailedRead() returns (app: FaceApp)
    ensures app.Valid() && app.running && app.pendingTicks == 0
    ensures app.video == Some(Capture(0, true)) && app.log == []
  {
    var probes := [true, false, false, false, false];
    app := new FaceApp([], probes, []);
    FirstEntryIsCameraZero(probes);
    ParseIndexOfLabel(0);
    LabelsAndSentinel(0);
    var failedRead := Tick(false, 0, 0, [], [], [], [], []);
    app.StartVideo(true, failedRead);
    assert app.running && app.pendingTicks == 0;
    var goodFrame := Tick(true, 480, 640, [], [], [], [], []);
    app.StartVideo(true, goodFrame);
  }
}
