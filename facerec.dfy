/** The face gallery and the nearest-match naming rule of simple_facerec.py.

    The face-recognition library (finding faces, computing encodings, comparing
    them) cannot be seen: an encoding is an abstract value, and what the library
    says about one observed face is given as an Observation. */
module FaceRec {

  /** A face encoding as the library computes it; nothing here looks inside one. */
  type Encoding

  /** The label given to a face that is matched to nobody ("not recognised"). */
  const Unknown: string := "Taninamadi"

  /** A gallery face is accepted only at a distance strictly below this. */
  const Threshold: real := 0.5

  /** One entry of the directory listing of the image root: its name, whether it
      is a directory, and for each image file in it the encodings the library
      finds in that image (one per face, possibly none). */
  datatype Entry = Entry(name: string, isDir: bool, images: seq<seq<Encoding>>)

  /** The two parallel lists the class keeps and the encoding file stores. */
  datatype Gallery = Gallery(encodings: seq<Encoding>, names: seq<string>)

  /** The encoding file: absent, or holding a pickled gallery. */
  datatype EncodingFile = Missing | Saved(gallery: Gallery)

  /** What the library reports for one observed face against a gallery of n
      entries: compare_faces' flags and face_distance's distances. */
  datatype Observation = Observation(matches: seq<bool>, distances: seq<real>)

  predicate Parallel(g: Gallery) {
    |g.encodings| == |g.names|
  }

  predicate Fits(o: Observation, n: nat) {
    |o.matches| == n && |o.distances| == n
  }

  // ---------------------------------------------------------------------------
  // Training: the gallery built by the nested loops over folders and images
  // ---------------------------------------------------------------------------

  /** One image: its first encoding is kept, with the folder's name, if it has any. */
  function AddImage(g: Gallery, name: string, faces: seq<Encoding>): Gallery {
    if |faces| > 0 then Gallery(g.encodings + [faces[0]], g.names + [name]) else g
  }

  /** The images of one folder, in order. */
  function AddImages(g: Gallery, name: string, images: seq<seq<Encoding>>): Gallery
    decreases |images|
  {
    if images == [] then g
    else AddImage(AddImages(g, name, images[..|images| - 1]), name, images[|images| - 1])
  }

  /** One listing entry: only directories are scanned. */
  function AddFolder(g: Gallery, e: Entry): Gallery {
    if e.isDir then AddImages(g, e.name, e.images) else g
  }

  /** The gallery trained from a whole listing, in listing order. */
  function Trained(root: seq<Entry>): Gallery
    decreases |root|
  {
    if root == [] then Gallery([], [])
    else AddFolder(Trained(root[..|root| - 1]), root[|root| - 1])
  }

  /** Names an image of the listing: the image-th file of the folder-th entry. */
  datatype ImageRef = ImageRef(folder: nat, image: nat)

  /** The image exists, sits in a directory, and has at least one face. */
  predicate Contributes(root: seq<Entry>, r: ImageRef) {
    r.folder < |root| && root[r.folder].isDir &&
    r.image < |root[r.folder].images| && |root[r.folder].images[r.image]| > 0
  }

  function FirstFace(root: seq<Entry>, r: ImageRef): Encoding
    requires Contributes(root, r)
  {
    root[r.folder].images[r.image][0]
  }

  /** Listing order, then image order within a folder. */
  predicate Before(a: ImageRef, b: ImageRef) {
    a.folder < b.folder || (a.folder == b.folder && a.image < b.image)
  }

  predicate InVisitOrder(p: seq<ImageRef>) {
    forall i, j :: 0 <= i < j < |p| ==> Before(p[i], p[j])
  }

  /** The images of one folder that have a face, in image order. */
  function ImageRefs(folder: nat, images: seq<seq<Encoding>>): (rs: seq<ImageRef>)
    ensures forall i :: 0 <= i < |rs| ==>
      rs[i].folder == folder && rs[i].image < |images| && |images[rs[i].image]| > 0
    ensures forall i, j :: 0 <= i < j < |rs| ==> rs[i].image < rs[j].image
    ensures forall k :: 0 <= k < |images| && |images[k]| > 0 ==> ImageRef(folder, k) in rs
    decreases |images|
  {
    if images == [] then []
    else
      var init := images[..|images| - 1];
      var rs0 := ImageRefs(folder, init);
      assert forall k :: 0 <= k < |init| ==> init[k] == images[k];
      rs0 + (if |images[|images| - 1]| > 0 then [ImageRef(folder, |images| - 1)] else [])
  }

  /** Every image of the listing that contributes to the gallery, in the order
      the nested loops visit them: an independent description of training. */
  function Provenance(root: seq<Entry>): (p: seq<ImageRef>)
    ensures forall i :: 0 <= i < |p| ==> Contributes(root, p[i])
    decreases |root|
  {
    if root == [] then []
    else
      var n := |root| - 1;
      var p0 := Provenance(root[..n]);
      assert forall i :: 0 <= i < |p0| ==> p0[i].folder < n && root[p0[i].folder] == root[..n][p0[i].folder];
      p0 + (if root[n].isDir then ImageRefs(n, root[n].images) else [])
  }

  /** g and p are parallel, and entry i of both lists comes from image p[i]: its
      first face, and the name of its folder. */
  ghost predicate Explains(root: seq<Entry>, g: Gallery, p: seq<ImageRef>) {
    |g.encodings| == |p| && |g.names| == |p| &&
    forall i :: 0 <= i < |p| ==>
      Contributes(root, p[i]) && g.encodings[i] == FirstFace(root, p[i]) &&
      g.names[i] == root[p[i].folder].name
  }

  /** What explains a gallery for a prefix of the listing explains it for the whole. */
  lemma {:induction false} ExplainsWiden(root: seq<Entry>, n: nat, g: Gallery, p: seq<ImageRef>)
    requires n <= |root|
    requires Explains(root[..n], g, p)
    ensures Explains(root, g, p)
  {
  }

  /** One more image of a directory: its first face is explained by that image. */
  lemma {:induction false} ExplainsAddImage(root: seq<Entry>, g: Gallery, p: seq<ImageRef>, folder: nat, k: nat)
    requires Explains(root, g, p)
    requires folder < |root| && root[folder].isDir && k < |root[folder].images|
    ensures var faces := root[folder].images[k];
      Explains(root, AddImage(g, root[folder].name, faces),
                     p + if |faces| > 0 then [ImageRef(folder, k)] else [])
  {
  }

  /** Scanning the first j images of a directory extends an explained gallery by
      exactly the first faces of those images that have one. */
  lemma {:induction false} AddImagesExplained(root: seq<Entry>, g: Gallery, p: seq<ImageRef>, folder: nat, j: nat)
    requires Explains(root, g, p)
    requires folder < |root| && root[folder].isDir && j <= |root[folder].images|
    ensures var images := root[folder].images[..j];
      Explains(root, AddImages(g, root[folder].name, images), p + ImageRefs(folder, images))
    decreases j
  {
    if j > 0 {
      var images := root[folder].images[..j];
      var init := images[..j - 1];
      assert init == root[folder].images[..j - 1];
      AddImagesExplained(root, g, p, folder, j - 1);
      ExplainsAddImage(root, AddImages(g, root[folder].name, init), p + ImageRefs(folder, init), folder, j - 1);
      assert images[j - 1] == root[folder].images[j - 1];
      var tail := if |images[j - 1]| > 0 then [ImageRef(folder, j - 1)] else [];
      assert ImageRefs(folder, images) == ImageRefs(folder, init) + tail;
      assert p + ImageRefs(folder, images) == (p + ImageRefs(folder, init)) + tail;
    } else {
      assert p + ImageRefs(folder, []) == p;
    }
  }

  /** Entry i of both lists comes from the same image, namely the i-th contributing
      image in visiting order; so the lists stay parallel. */
  lemma {:induction false} TrainedFromProvenance(root: seq<Entry>)
    ensures Explains(root, Trained(root), Provenance(root))
    decreases |root|
  {
    if root != [] {
      var n := |root| - 1;
      var init := root[..n];
      TrainedFromProvenance(init);
      var g0, p0 := Trained(init), Provenance(init);
      ExplainsWiden(root, n, g0, p0);
      if root[n].isDir {
        AddImagesExplained(root, g0, p0, n, |root[n].images|);
        assert root[n].images[..|root[n].images|] == root[n].images;
      } else {
        assert Provenance(root) == p0 + [];
      }
    }
  }

  lemma {:induction false} TrainedParallel(root: seq<Entry>)
    ensures Parallel(Trained(root))
  {
    TrainedFromProvenance(root);
  }

  /** Contributing images are visited folder by folder in listing order, and image
      by image within a folder. */
  lemma {:induction false} ProvenanceOrdered(root: seq<Entry>)
    ensures InVisitOrder(Provenance(root))
    decreases |root|
  {
    if root != [] {
      var n := |root| - 1;
      ProvenanceOrdered(root[..n]);
      var rs := if root[n].isDir then ImageRefs(n, root[n].images) else [];
      assert Provenance(root) == Provenance(root[..n]) + rs;
      OrderedAppendFolder(Provenance(root[..n]), rs, n);
    }
  }

  /** Appending the references of folder n, in image order, after references to
      earlier folders keeps visiting order. */
  lemma {:induction false} OrderedAppendFolder(p0: seq<ImageRef>, rs: seq<ImageRef>, n: nat)
    requires InVisitOrder(p0)
    requires forall i :: 0 <= i < |p0| ==> p0[i].folder < n
    requires forall i :: 0 <= i < |rs| ==> rs[i].folder == n
    requires forall i, j :: 0 <= i < j < |rs| ==> rs[i].image < rs[j].image
    ensures InVisitOrder(p0 + rs)
  {
    var p := p0 + rs;
    forall i, j | 0 <= i < j < |p| ensures Before(p[i], p[j]) {
      if j < |p0| {
        assert p[i] == p0[i] && p[j] == p0[j];
      } else if i < |p0| {
        assert p[i] == p0[i] && p[j] == rs[j - |p0|];
      } else {
        assert p[i] == rs[i - |p0|] && p[j] == rs[j - |p0|];
      }
    }
  }

  /** Every image of a directory that has at least one face contributes; together
      with Provenance's own contract, images without faces and non-directory
      entries contribute nothing. */
  lemma {:induction false} ProvenanceComplete(root: seq<Entry>, r: ImageRef)
    requires Contributes(root, r)
    ensures r in Provenance(root)
    decreases |root|
  {
    var n := |root| - 1;
    if r.folder < n {
      ProvenanceComplete(root[..n], r);
    }
  }

  /** Every stored name is the name of a directory of the listing. */
  lemma {:induction false} TrainedNamesAreFolders(root: seq<Entry>, name: string)
    requires name in Trained(root).names
    ensures exists f :: 0 <= f < |root| && root[f].isDir && root[f].name == name
  {
    TrainedFromProvenance(root);
    var g, p := Trained(root), Provenance(root);
    var i :| 0 <= i < |g.names| && g.names[i] == name;
    assert Contributes(root, p[i]);
  }

  /** A listing entry that is not a directory adds nothing. */
  lemma {:induction false} FileEntryIgnored(root: seq<Entry>, e: Entry)
    requires !e.isDir
    ensures Trained(root + [e]) == Trained(root)
  {
  }

  lemma {:induction false} AddImagesExtends(g: Gallery, name: string, images: seq<seq<Encoding>>)
    ensures var g' := AddImages(g, name, images);
      |g.encodings| <= |g'.encodings| && |g.names| <= |g'.names| &&
      g'.encodings[..|g.encodings|] == g.encodings && g'.names[..|g.names|] == g.names
    decreases |images|
  {
    if images != [] {
      AddImagesExtends(g, name, images[..|images| - 1]);
    }
  }

  /** Training only appends: what a prefix of the listing produced is kept in front. */
  lemma {:induction false} TrainedAppendOnly(root: seq<Entry>, e: Entry)
    ensures var g, g' := Trained(root), Trained(root + [e]);
      |g.encodings| <= |g'.encodings| && |g.names| <= |g'.names| &&
      g'.encodings[..|g.encodings|] == g.encodings && g'.names[..|g.names|] == g.names
  {
    assert (root + [e])[..|root|] == root;
    AddImagesExtends(Trained(root), e.name, e.images);
  }

  /** Training on a listing extended by any number of entries keeps what the
      shorter listing produced at the front of both lists. */
  lemma {:induction false} TrainedPrefix(root: seq<Entry>, rest: seq<Entry>)
    ensures var g, g' := Trained(root), Trained(root + rest);
      |g.encodings| <= |g'.encodings| && |g.names| <= |g'.names| &&
      g'.encodings[..|g.encodings|] == g.encodings && g'.names[..|g.names|] == g.names
    decreases |rest|
  {
    if rest != [] {
      var n := |rest| - 1;
      TrainedPrefix(root, rest[..n]);
      assert root + rest == (root + rest[..n]) + [rest[n]];
      TrainedAppendOnly(root + rest[..n], rest[n]);
      var g, g1, g2 := Trained(root), Trained(root + rest[..n]), Trained(root + rest);
      assert g2.encodings[..|g.encodings|] == g2.encodings[..|g1.encodings|][..|g.encodings|];
      assert g2.names[..|g.names|] == g2.names[..|g1.names|][..|g.names|];
    } else {
      assert root + rest == root;
    }
  }

  // ---------------------------------------------------------------------------
  // Detection: naming one observed face
  // ---------------------------------------------------------------------------

  /** k is the first index of a minimum of d (what numpy's argmin returns). */
  predicate IsFirstMin(d: seq<real>, k: int) {
    0 <= k < |d| &&
    (forall j :: 0 <= j < |d| ==> d[k] <= d[j]) &&
    (forall j :: 0 <= j < k ==> d[k] < d[j])
  }

  function ArgMin(d: seq<real>): (k: nat)
    requires |d| > 0
    ensures IsFirstMin(d, k)
    decreases |d|
  {
    if |d| == 1 then 0
    else
      var k := ArgMin(d[..|d| - 1]);
      assert forall j :: 0 <= j < |d| - 1 ==> d[..|d| - 1][j] == d[j];
      if d[|d| - 1] < d[k] then |d| - 1 else k
  }

  lemma {:induction false} FirstMinUnique(d: seq<real>, k: int, k': int)
    requires IsFirstMin(d, k) && IsFirstMin(d, k')
    ensures k == k'
  {
    assert d[k] <= d[k'] && d[k'] <= d[k];
  }

  /** The name given to one observed face: "Taninamadi" unless some flag is set
      and, at the first closest gallery entry, the flag is set and the distance
      is below the threshold. */
  function NameFor(names: seq<string>, o: Observation): (r: string)
    requires Fits(o, |names|)
    ensures r == Unknown || r in names
  {
    if true !in o.matches then Unknown
    else
      var k := ArgMin(o.distances);
      if o.matches[k] && o.distances[k] < Threshold then names[k] else Unknown
  }

  /** The decision, in terms of the first minimum alone: the outer "some flag is
      set" test never changes the outcome. */
  lemma {:induction false} NameForDecision(names: seq<string>, o: Observation, k: nat)
    requires Fits(o, |names|)
    requires IsFirstMin(o.distances, k)
    ensures NameFor(names, o) == if o.matches[k] && o.distances[k] < Threshold then names[k] else Unknown
  {
  }

  /** An empty gallery, or no flag set, always gives "Taninamadi". */
  lemma {:induction false} NoMatchIsUnknown(names: seq<string>, o: Observation)
    requires Fits(o, |names|)
    requires forall i :: 0 <= i < |o.matches| ==> !o.matches[i]
    ensures NameFor(names, o) == Unknown
  {
  }

  /** A gallery name other than the sentinel is returned only from the first
      closest entry, when that entry is flagged and strictly below the threshold. */
  lemma {:induction false} KnownNameOnlyAtFirstMin(names: seq<string>, o: Observation)
    requires Fits(o, |names|)
    requires NameFor(names, o) != Unknown
    ensures |names| > 0
    ensures var k := ArgMin(o.distances);
      o.matches[k] && o.distances[k] < Threshold && NameFor(names, o) == names[k]
  {
  }

  /** When the flags are "distance at most tol" for a tolerance tol of at least the
      threshold, the flags never matter: the name is that of the first closest
      entry if it is closer than the threshold. */
  lemma {:induction false} FlagsFromTolerance(names: seq<string>, o: Observation, tol: real)
    requires Fits(o, |names|)
    requires Threshold <= tol
    requires forall i :: 0 <= i < |names| ==> o.matches[i] == (o.distances[i] <= tol)
    ensures NameFor(names, o) ==
      if |names| > 0 && o.distances[ArgMin(o.distances)] < Threshold
      then names[ArgMin(o.distances)] else Unknown
  {
  }

  /** After training on a listing, every face is named "Taninamadi" or after a
      directory of that listing. */
  lemma {:induction false} DetectedNamesAreFolders(root: seq<Entry>, o: Observation)
    requires Fits(o, |Trained(root).names|)
    ensures var r := NameFor(Trained(root).names, o);
      r == Unknown || exists f :: 0 <= f < |root| && root[f].isDir && root[f].name == r
  {
    var r := NameFor(Trained(root).names, o);
    if r != Unknown {
      TrainedNamesAreFolders(root, r);
    }
  }

  // ---------------------------------------------------------------------------
  // The recogniser object
  // ---------------------------------------------------------------------------

  class SimpleFacerec {
    var knownFaceEncodings: seq<Encoding>
    var knownFaceNames: seq<string>

    /** The lists are parallel, as training produces them. */
    ghost predicate Valid()
      reads this
    {
      |knownFaceEncodings| == |knownFaceNames|
    }

    constructor ()
      ensures Valid()
      ensures knownFaceEncodings == [] && knownFaceNames == []
    {
      knownFaceEncodings := [];
      knownFaceNames := [];
    }

    /** Walks the listing and returns the gallery written to the encoding file. */
    method LoadAndTrainModel(root: seq<Entry>) returns (saved: Gallery)
      ensures saved == Trained(root)
      ensures Parallel(saved)
    {
      var encodings: seq<Encoding> := [];
      var names: seq<string> := [];
      var i := 0;
      while i < |root|
        invariant 0 <= i <= |root|
        invariant Gallery(encodings, names) == Trained(root[..i])
      {
        var folder := root[i];
        if folder.isDir {
          var j := 0;
          while j < |folder.images|
            invariant 0 <= j <= |folder.images|
            invariant Gallery(encodings, names) == AddImages(Trained(root[..i]), folder.name, folder.images[..j])
          {
            var faceEncodings := folder.images[j];
            if |faceEncodings| > 0 {
              encodings := encodings + [faceEncodings[0]];
              names := names + [folder.name];
            }
            assert folder.images[..j + 1][..j] == folder.images[..j];
            j := j + 1;
          }
          assert folder.images[..j] == folder.images;
        }
        assert root[..i + 1][..i] == root[..i];
        i := i + 1;
      }
      assert root[..i] == root;
      saved := Gallery(encodings, names);
      TrainedParallel(root);
    }

    /** A saved file replaces both lists together; a missing one changes nothing. */
    method LoadEncodingImages(file: EncodingFile)
      modifies this
      ensures file.Missing? ==>
        knownFaceEncodings == old(knownFaceEncodings) && knownFaceNames == old(knownFaceNames)
      ensures file.Saved? ==>
        knownFaceEncodings == file.gallery.encodings && knownFaceNames == file.gallery.names
      ensures file.Saved? ==> (Valid() <==> Parallel(file.gallery))
    {
      if file.Saved? {
        knownFaceEncodings, knownFaceNames := file.gallery.encodings, file.gallery.names;
      }
    }

    /** One name per observed face, in order, each given by the naming rule. */
    method DetectKnownFaces(faces: seq<Observation>) returns (faceNames: seq<string>)
      requires Valid()
      requires forall i :: 0 <= i < |faces| ==> Fits(faces[i], |knownFaceNames|)
      ensures |faceNames| == |faces|
      ensures forall i :: 0 <= i < |faces| ==> faceNames[i] == NameFor(knownFaceNames, faces[i])
      ensures forall i :: 0 <= i < |faces| ==> faceNames[i] == Unknown || faceNames[i] in knownFaceNames
    {
      faceNames := [];
      for i := 0 to |faces|
        invariant |faceNames| == i
        invariant forall k :: 0 <= k < i ==> faceNames[k] == NameFor(knownFaceNames, faces[k])
      {
        var face := faces[i];
        var name := Unknown;
        if true in face.matches {
          var bestMatchIndex := ArgMin(face.distances);
          if face.matches[bestMatchIndex] && face.distances[bestMatchIndex] < Threshold {
            name := knownFaceNames[bestMatchIndex];
          }
        }
        faceNames := faceNames + [name];
      }
    }
  }
}
