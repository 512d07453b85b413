/** The gallery of known faces that `FaceApp.load_known_faces` builds from
    the `known_faces` directory: one (label, embedding) pair per image file
    whose encoding yields at least one face, in directory-listing order. */
module Gallery {
  import opened Text

  /** A face embedding as the encoding library returns it; the model never
      looks inside one. */
  type Encoding = seq<real>

  /** One name from the directory listing, with the encodings the library
      would return for the image stored under it. */
  datatype DirEntry = DirEntry(filename: string, encodings: seq<Encoding>)

  /** `filename.lower().endswith((".jpg", ".png"))`. */
  predicate HasImageExtension(filename: string) {
    EndsWith(Lower(filename), ".jpg") || EndsWith(Lower(filename), ".png")
  }

  /** The extension test, character by character: a dot, then `jpg` or
      `png` with each letter in either case. */
  lemma HasImageExtensionMeaning(f: string)
    ensures HasImageExtension(f) <==>
      |f| >= 4 && f[|f| - 4] == '.' &&
      ((f[|f| - 3] in "jJ" && f[|f| - 2] in "pP" && f[|f| - 1] in "gG") ||
       (f[|f| - 3] in "pP" && f[|f| - 2] in "nN" && f[|f| - 1] in "gG"))
  {
    var n := |f|;
    if n >= 4 {
      var low := Lower(f);
      assert low[n - 4..] == [low[n - 4], low[n - 3], low[n - 2], low[n - 1]];
    }
  }

  /** The two tests an entry must pass to enter the gallery. */
  predicate Kept(e: DirEntry) {
    HasImageExtension(e.filename) && |e.encodings| > 0
  }

  /** The gallery label of a file: `os.path.splitext(filename)[0]`. */
  function Label(filename: string): string {
    SplitExtRoot(filename)
  }

  /** The positions in the listing that enter the gallery, in increasing
      order: exactly those of the kept entries. */
  function KeptIndices(listing: seq<DirEntry>): (r: seq<nat>)
    ensures forall k :: 0 <= k < |r| ==> r[k] < |listing|
    ensures forall j, k :: 0 <= j < k < |r| ==> r[j] < r[k]
    ensures forall i :: 0 <= i < |listing| ==> (Kept(listing[i]) <==> i in r)
  {
    if listing == [] then []
    else
      var n := |listing| - 1;
      var init := listing[..n];
      KeptIndices(init) + (if Kept(listing[n]) then [n] else [])
  }

  /** The kept positions of a listing without its last entry are a prefix
      of those of the whole listing and name the same entries. */
  lemma KeptIndicesOfInit(listing: seq<DirEntry>)
    requires listing != []
    ensures var init := listing[..|listing| - 1];
      var idx0 := KeptIndices(init);
      |idx0| <= |KeptIndices(listing)| &&
      forall k :: 0 <= k < |idx0| ==>
        KeptIndices(listing)[k] == idx0[k] && listing[idx0[k]] == init[idx0[k]]
  {
  }

  /** The names list after loading: one label per kept entry
      (`GalleryNamesMeaning`). */
  function GalleryNames(listing: seq<DirEntry>): seq<string> {
    if listing == [] then []
    else
      var n := |listing| - 1;
      GalleryNames(listing[..n]) + (if Kept(listing[n]) then [Label(listing[n].filename)] else [])
  }

  /** The encodings list after loading: one encoding per kept entry
      (`GalleryEncodingsMeaning`). */
  function GalleryEncodings(listing: seq<DirEntry>): seq<Encoding> {
    if listing == [] then []
    else
      var n := |listing| - 1;
      GalleryEncodings(listing[..n]) + (if Kept(listing[n]) then [listing[n].encodings[0]] else [])
  }

  /** The names list holds one label per kept entry, in listing order:
      that of the entry's file name. */
  lemma {:induction false} GalleryNamesMeaning(listing: seq<DirEntry>)
    ensures |GalleryNames(listing)| == |KeptIndices(listing)|
    ensures forall k :: 0 <= k < |KeptIndices(listing)| ==>
      GalleryNames(listing)[k] == Label(listing[KeptIndices(listing)[k]].filename)
  {
    if listing != [] {
      GalleryNamesMeaning(listing[..|listing| - 1]);
      KeptIndicesOfInit(listing);
    }
  }

  /** The encodings list holds one encoding per kept entry, in listing
      order: the first one found in that entry's image, so it is as long as
      the names list. */
  lemma {:induction false} GalleryEncodingsMeaning(listing: seq<DirEntry>)
    ensures |GalleryEncodings(listing)| == |KeptIndices(listing)|
    ensures forall k :: 0 <= k < |KeptIndices(listing)| ==>
      var e := listing[KeptIndices(listing)[k]];
      |e.encodings| > 0 && GalleryEncodings(listing)[k] == e.encodings[0]
  {
    if listing != [] {
      GalleryEncodingsMeaning(listing[..|listing| - 1]);
      KeptIndicesOfInit(listing);
    }
  }

  /** The label of an image file is its name without the final extension,
      provided something other than dots precedes that extension. */
  lemma LabelDropsExtension(filename: string)
    requires HasImageExtension(filename)
    requires '/' !in filename
    requires exists j :: 0 <= j < |filename| - 4 && filename[j] != '.'
    ensures Label(filename) == filename[..|filename| - 4]
  {
    var n := |filename|;
    var low := Lower(filename);
    assert low[n - 4..] == ".jpg" || low[n - 4..] == ".png";
    assert low[n - 4] == '.' by { assert low[n - 4] == low[n - 4..][0]; }
    forall j | n - 3 <= j < n ensures filename[j] != '.' && filename[j] != '/' {
      assert low[j] == low[n - 4..][j - (n - 4)];
    }
    var stem := filename[..n - 4];
    assert '/' !in stem by {
      forall j | 0 <= j < |stem| ensures stem[j] != '/' {
        assert stem[j] == filename[j];
      }
    }
    SplitExtRootDropsExtension(filename);
  }

  /** Loading a listing with one more entry at the end extends both lists
      by that entry's contribution. */
  lemma GallerySnoc(listing: seq<DirEntry>, e: DirEntry)
    ensures GalleryNames(listing + [e]) == GalleryNames(listing) + (if Kept(e) then [Label(e.filename)] else [])
    ensures GalleryEncodings(listing + [e]) == GalleryEncodings(listing) + (if Kept(e) then [e.encodings[0]] else [])
  {
    assert (listing + [e])[..|listing|] == listing;
  }

  /** A file named by a stem that does not start with a dot and holds no
      '/', followed by a `.jpg` or `.png` extension in any letter case, is an
      image whose label is the stem. */
  lemma LabelOfStem(stem: string, ext: string)
    requires stem != [] && stem[0] != '.' && '/' !in stem
    requires |ext| == 4 && (Lower(ext) == ".jpg" || Lower(ext) == ".png")
    ensures HasImageExtension(stem + ext) && Label(stem + ext) == stem
  {
    var p := stem + ext;
    var n := |p|;
    assert Lower(p)[n - 4..] == Lower(ext) by {
      forall j | 0 <= j < 4 ensures Lower(p)[n - 4..][j] == Lower(ext)[j] {
        assert p[n - 4 + j] == ext[j];
      }
    }
    assert '/' !in p by {
      forall j | 0 <= j < n ensures p[j] != '/' {
        if j < |stem| {
          assert p[j] == stem[j];
        } else {
          assert p[j] == ext[j - |stem|];
          assert Lower(ext)[j - |stem|] == LowerChar(ext[j - |stem|]);
        }
      }
    }
    assert p[0] != '.';
    LabelDropsExtension(p);
    assert p[..n - 4] == stem;
  }

  /** A listing of two kept entries loads both, in order. */
  lemma GalleryOfTwo(a: DirEntry, b: DirEntry)
    requires Kept(a) && Kept(b)
    ensures GalleryNames([a, b]) == [Label(a.filename), Label(b.filename)]
    ensures GalleryEncodings([a, b]) == [a.encodings[0], b.encodings[0]]
  {
    var none: seq<DirEntry> := [];
    var first := none + [a];
    GallerySnoc(none, a);
    GallerySnoc(first, b);
    assert first + [b] == [a, b];
  }

  /** Two images with the same stem and differently written extensions
      both enter the gallery under the same label, in listing order;
      nothing is deduplicated. */
  lemma DuplicateLabelsKept(stem: string, e: Encoding, f: Encoding)
    requires stem != [] && stem[0] != '.' && '/' !in stem
    ensures GalleryNames([DirEntry(stem + ".jpg", [e]), DirEntry(stem + ".PNG", [f])]) == [stem, stem]
    ensures GalleryEncodings([DirEntry(stem + ".jpg", [e]), DirEntry(stem + ".PNG", [f])]) == [e, f]
  {
    var a, b := DirEntry(stem + ".jpg", [e]), DirEntry(stem + ".PNG", [f]);
    assert Lower(".jpg") == ".jpg" && Lower(".PNG") == ".png";
    LabelOfStem(stem, ".jpg");
    LabelOfStem(stem, ".PNG");
    GalleryOfTwo(a, b);
  }
}
