/** Camera enumeration (`FaceApp.detect_cameras`) and the reading of a
    camera index back out of the label the user selected
    (`int(cam_text.split()[-1])` in `FaceApp.start_video`). */
module Cameras {
  import opened Wrappers
  import opened Text

  /** The word every camera label starts with, and the test `start_video`
      applies to the selection. */
  const CameraWord: string := "Камера"

  /** The single entry offered when no camera could be read. */
  const NoCameraLabel: string := "Нет доступных камер"

  /** The default number of device indices probed. */
  const MaxTested: nat := 5

  /** `f"Камера {i}"`. */
  function CameraLabel(i: nat): string {
    CameraWord + " " + NatToString(i)
  }

  /** The indices whose probe read a frame, in increasing order. */
  function AvailableIndices(probes: seq<bool>): (r: seq<nat>)
    ensures forall k :: 0 <= k < |r| ==> r[k] < |probes| && probes[r[k]]
    ensures forall j, k :: 0 <= j < k < |r| ==> r[j] < r[k]
    ensures forall i :: 0 <= i < |probes| && probes[i] ==> i in r
  {
    if probes == [] then []
    else
      var n := |probes| - 1;
      AvailableIndices(probes[..n]) + (if probes[n] then [n] else [])
  }

  function LabelsOf(indices: seq<nat>): (r: seq<string>)
    ensures |r| == |indices|
  {
    seq(|indices|, k requires 0 <= k < |indices| => CameraLabel(indices[k]))
  }

  lemma LabelsOfSnoc(indices: seq<nat>, i: nat)
    ensures LabelsOf(indices + [i]) == LabelsOf(indices) + [CameraLabel(i)]
  {
  }

  /** The list `detect_cameras` returns for the given probe outcomes. */
  function CameraList(probes: seq<bool>): seq<string> {
    var indices := AvailableIndices(probes);
    if indices == [] then [NoCameraLabel] else LabelsOf(indices)
  }

  /** Probes indices `0 .. |probes| - 1` in turn (`probes[i]` is whether
      reading one frame from camera `i` succeeded) and lists a label for
      each readable one, falling back to the "no camera" entry. */
  method DetectCameras(probes: seq<bool>) returns (available: seq<string>)
    ensures available == CameraList(probes)
    ensures available != []
  {
    available := [];
    for i := 0 to |probes|
      invariant available == LabelsOf(AvailableIndices(probes[..i]))
    {
      ghost var done := AvailableIndices(probes[..i]);
      assert probes[..i + 1] == probes[..i] + [probes[i]];
      AvailableIndicesSnoc(probes[..i], probes[i]);
      if probes[i] {
        LabelsOfSnoc(done, i);
        available := available + [CameraLabel(i)];
      }
    }
    assert probes[..|probes|] == probes;
    ghost var indices := AvailableIndices(probes);
    assert |available| == |indices|;
    if available == [] {
      // appending to the empty list leaves the fallback entry alone
      available := [NoCameraLabel];
    } else {
      assert CameraList(probes) == LabelsOf(indices);
    }
  }

  /** `int(cam_text.split()[-1])`; `None` where Python raises (no token at
      all, or a last token that is not an integer). */
  function ParseIndex(camText: string): Option<int> {
    var tokens := Split(camText);
    if tokens == [] then None else ParseInt(tokens[|tokens| - 1])
  }

  /** Reading the index back out of a label gives the index it was made
      from. */
  lemma ParseIndexOfLabel(i: nat)
    ensures ParseIndex(CameraLabel(i)) == Some(i)
  {
    var digits := NatToString(i);
    assert NoSpace(CameraWord);
    assert NoSpace(digits);
    SplitTwoWords(CameraWord, ' ', digits);
    assert CameraLabel(i) == CameraWord + [' '] + digits;
    ParseIntOfNatToString(i);
  }

  /** Every camera label passes the `startswith("Камера")` test, and the
      "no camera" entry fails it. */
  lemma LabelsAndSentinel(i: nat)
    ensures StartsWith(CameraLabel(i), CameraWord)
    ensures !StartsWith(NoCameraLabel, CameraWord)
  {
    assert CameraLabel(i)[..|CameraWord|] == CameraWord;
    assert NoCameraLabel[0] != CameraWord[0];
  }

  lemma CameraLabelInjective(i: nat, j: nat)
    requires CameraLabel(i) == CameraLabel(j)
    ensures i == j
  {
    ParseIndexOfLabel(i);
    ParseIndexOfLabel(j);
  }

  /** A camera whose probe succeeded is listed. */
  lemma ListedIfReadable(probes: seq<bool>, i: nat)
    requires i < |probes| && probes[i]
    ensures CameraLabel(i) in CameraList(probes)
  {
    var indices := AvailableIndices(probes);
    var k :| 0 <= k < |indices| && indices[k] == i;
    assert LabelsOf(indices)[k] == CameraLabel(i);
  }

  /** A listed camera is one whose probe succeeded. */
  lemma ReadableIfListed(probes: seq<bool>, i: nat)
    requires i < |probes| && CameraLabel(i) in CameraList(probes)
    ensures probes[i]
  {
    var indices := AvailableIndices(probes);
    var list := CameraList(probes);
    LabelsAndSentinel(i);
    if indices == [] {
      // the only entry is the "no camera" one, which no label equals
      assert false;
    }
    var k :| 0 <= k < |list| && list[k] == CameraLabel(i);
    assert list[k] == CameraLabel(indices[k]);
    CameraLabelInjective(i, indices[k]);
  }

  /** The list is never empty; it is the "no camera" entry alone exactly
      when no probe succeeded; otherwise index `i` is listed exactly when
      its probe succeeded. */
  lemma CameraListMeaning(probes: seq<bool>)
    ensures CameraList(probes) != []
    ensures CameraList(probes) == [NoCameraLabel] <==> forall i :: 0 <= i < |probes| ==> !probes[i]
    ensures forall i :: 0 <= i < |probes| ==> (CameraLabel(i) in CameraList(probes) <==> probes[i])
  {
    var indices := AvailableIndices(probes);
    var list := CameraList(probes);
    LabelsAndSentinel(0);
    if indices != [] {
      assert list[0] == CameraLabel(indices[0]);
      assert StartsWith(list[0], CameraWord) by { LabelsAndSentinel(indices[0]); }
    }
    forall i | 0 <= i < |probes| ensures CameraLabel(i) in list <==> probes[i] {
      if probes[i] {
        ListedIfReadable(probes, i);
      }
      if CameraLabel(i) in list {
        ReadableIfListed(probes, i);
      }
    }
  }

  /** Every entry but the "no camera" one reads back to an index, and the
      entries follow increasing index. */
  lemma CameraListOrder(probes: seq<bool>)
    ensures var list := CameraList(probes);
      forall a, b :: 0 <= a < b < |list| ==>
        ParseIndex(list[a]).Some? && ParseIndex(list[b]).Some? &&
        ParseIndex(list[a]).value < ParseIndex(list[b]).value
  {
    var indices := AvailableIndices(probes);
    var list := CameraList(probes);
    if indices != [] {
      forall k | 0 <= k < |list| ensures ParseIndex(list[k]) == Some(indices[k] as int) {
        ParseIndexOfLabel(indices[k]);
      }
    }
  }

  /** Whatever entry of the list is selected, `start_video` either rejects
      it at the `startswith` test (only the "no camera" entry) or reads
      back an index whose probe succeeded. */
  lemma SelectionOutcome(probes: seq<bool>, entry: string)
    requires entry in CameraList(probes)
    ensures !StartsWith(entry, CameraWord) <==> entry == NoCameraLabel
    ensures StartsWith(entry, CameraWord) ==>
      exists i :: 0 <= i < |probes| && probes[i] && ParseIndex(entry) == Some(i)
  {
    var indices := AvailableIndices(probes);
    LabelsAndSentinel(0);
    if indices != [] {
      var k :| 0 <= k < |indices| && CameraLabel(indices[k]) == entry;
      LabelsAndSentinel(indices[k]);
      ParseIndexOfLabel(indices[k]);
      assert entry != NoCameraLabel;
    }
  }

  /** When camera 0 reads a frame, the selector's initial entry is its
      label. */
  lemma FirstEntryIsCameraZero(probes: seq<bool>)
    requires |probes| > 0 && probes[0]
    ensures CameraList(probes)[0] == CameraLabel(0)
  {
    var indices := AvailableIndices(probes);
    assert 0 in indices;
  }

  lemma AvailableIndicesSnoc(probes: seq<bool>, b: bool)
    ensures AvailableIndices(probes + [b]) == AvailableIndices(probes) + (if b then [|probes|] else [])
  {
    assert (probes + [b])[..|probes|] == probes;
  }

  lemma FirstTwoIncrease(r: seq<nat>)
    requires forall j, k :: 0 <= j < k < |r| ==> r[j] < r[k]
    ensures |r| > 1 ==> r[0] < r[1]
  {
  }

  /** When exactly one probe succeeds, the list is that camera's label
      alone. */
  lemma SingleReadableCamera(probes: seq<bool>, i: nat)
    requires i < |probes| && probes[i]
    requires forall j :: 0 <= j < |probes| && j != i ==> !probes[j]
    ensures CameraList(probes) == [CameraLabel(i)]
  {
    var indices := AvailableIndices(probes);
    assert i in indices;
    forall k | 0 <= k < |indices| ensures indices[k] == i {
    }
    // a second entry would be `i` again, yet the indices strictly increase
    FirstTwoIncrease(indices);
    assert indices == [i];
    assert LabelsOf(indices)[0] == CameraLabel(i);
  }

  /** Five probed indices of which only index 2 reads a frame. */
  lemma OnlyIndexTwo()
    ensures CameraList([false, false, true, false, false]) == ["Камера 2"]
  {
    SingleReadableCamera([false, false, true, false, false], 2);
    assert NatToString(2) == "2";
    assert CameraLabel(2) == "Камера 2";
  }
}
