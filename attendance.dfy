/** The attendance sheet of yoklama.py: a JSON file of {name, zaman} records to
    which a name is appended only when it is not recorded yet.

    The file is a value (absent, or holding its records); reading the clock is a
    parameter: each call receives the time string it would have formatted. */
module Attendance {
  import FaceRec

  /** One attendance record: the name and the time ("zaman") it was first seen. */
  datatype Record = Record(name: string, zaman: string)

  /** The attendance file: absent, or holding a list of records. */
  datatype AttendanceFile = Missing | Stored(data: seq<Record>)

  /** The records read from the file; a missing file reads as no records. */
  function Contents(f: AttendanceFile): seq<Record> {
    match f
    case Missing => []
    case Stored(data) => data
  }

  /** The names of the records, in order. */
  function Names(data: seq<Record>): (r: seq<string>)
    ensures |r| == |data|
    ensures forall i :: 0 <= i < |data| ==> r[i] == data[i].name
  {
    if data == [] then [] else Names(data[..|data| - 1]) + [data[|data| - 1].name]
  }

  predicate Distinct(s: seq<string>) {
    forall i, j :: 0 <= i < j < |s| ==> s[i] != s[j]
  }

  /** The file after one call for `name` at time `zaman`: rewritten with one more
      record when the name is new, untouched otherwise. */
  function Mark(f: AttendanceFile, name: string, zaman: string): AttendanceFile {
    var data := Contents(f);
    if name in Names(data) then f else Stored(data + [Record(name, zaman)])
  }

  /** The file after one call per name of a frame, in order; clock[i] is the time
      read during the i-th call. */
  function MarkAll(f: AttendanceFile, faceNames: seq<string>, clock: seq<string>): AttendanceFile
    requires |clock| == |faceNames|
    decreases |faceNames|
  {
    if faceNames == [] then f
    else
      var n := |faceNames| - 1;
      Mark(MarkAll(f, faceNames[..n], clock[..n]), faceNames[n], clock[n])
  }

  // ---------------------------------------------------------------------------
  // One call
  // ---------------------------------------------------------------------------

  /** Whatever the file held, the name is recorded afterwards. */
  lemma {:induction false} MarkRecords(f: AttendanceFile, name: string, zaman: string)
    ensures name in Names(Contents(Mark(f, name, zaman)))
  {
  }

  /** A recorded name leaves the file as it was. */
  lemma {:induction false} MarkPresentUnchanged(f: AttendanceFile, name: string, zaman: string)
    requires name in Names(Contents(f))
    ensures Mark(f, name, zaman) == f
  {
  }

  /** A second call for the same name changes nothing, whatever its time. */
  lemma {:induction false} MarkIdempotent(f: AttendanceFile, name: string, t1: string, t2: string)
    ensures Mark(Mark(f, name, t1), name, t2) == Mark(f, name, t1)
  {
  }

  /** The records only grow at the end: the old ones stay in place, and a new name
      adds exactly one record, carrying that name and time. */
  lemma {:induction false} MarkAppendOnly(f: AttendanceFile, name: string, zaman: string)
    ensures var before, after := Contents(f), Contents(Mark(f, name, zaman));
      after[..|before|] == before &&
      (name in Names(before) ==> after == before) &&
      (name !in Names(before) ==> |after| == |before| + 1 && after[|before|] == Record(name, zaman))
  {
  }

  /** Names that were pairwise distinct stay pairwise distinct. */
  lemma {:induction false} MarkKeepsDistinct(f: AttendanceFile, name: string, zaman: string)
    requires Distinct(Names(Contents(f)))
    ensures Distinct(Names(Contents(Mark(f, name, zaman))))
  {
  }

  /** Only the records matter, not whether the file existed: a missing file and a
      file with the same records lead to the same records. In particular a missing
      file behaves exactly like an empty list. */
  lemma {:induction false} MarkDependsOnContents(f1: AttendanceFile, f2: AttendanceFile, name: string, zaman: string)
    requires Contents(f1) == Contents(f2)
    ensures Contents(Mark(f1, name, zaman)) == Contents(Mark(f2, name, zaman))
  {
  }

  lemma {:induction false} MissingIsEmpty(name: string, zaman: string)
    ensures Mark(Missing, name, zaman) == Mark(Stored([]), name, zaman)
    ensures Mark(Missing, name, zaman) == Stored([Record(name, zaman)])
  {
  }

  // ---------------------------------------------------------------------------
  // One frame
  // ---------------------------------------------------------------------------

  /** A missing file and any file with the same records lead to the same records
      after a whole frame. */
  lemma {:induction false} MarkAllDependsOnContents(f1: AttendanceFile, f2: AttendanceFile, faceNames: seq<string>, clock: seq<string>)
    requires |clock| == |faceNames|
    requires Contents(f1) == Contents(f2)
    ensures Contents(MarkAll(f1, faceNames, clock)) == Contents(MarkAll(f2, faceNames, clock))
    decreases |faceNames|
  {
    if faceNames != [] {
      var n := |faceNames| - 1;
      MarkAllDependsOnContents(f1, f2, faceNames[..n], clock[..n]);
      MarkDependsOnContents(MarkAll(f1, faceNames[..n], clock[..n]), MarkAll(f2, faceNames[..n], clock[..n]), faceNames[n], clock[n]);
    }
  }

  /** A frame keeps earlier records in place and keeps recorded names distinct. */
  lemma {:induction false} MarkAllKeeps(f: AttendanceFile, faceNames: seq<string>, clock: seq<string>)
    requires |clock| == |faceNames|
    ensures var before, after := Contents(f), Contents(MarkAll(f, faceNames, clock));
      |before| <= |after| && after[..|before|] == before
    ensures Distinct(Names(Contents(f))) ==> Distinct(Names(Contents(MarkAll(f, faceNames, clock))))
    decreases |faceNames|
  {
    if faceNames != [] {
      var n := |faceNames| - 1;
      var mid := MarkAll(f, faceNames[..n], clock[..n]);
      MarkAllKeeps(f, faceNames[..n], clock[..n]);
      MarkAppendOnly(mid, faceNames[n], clock[n]);
      if Distinct(Names(Contents(f))) {
        MarkKeepsDistinct(mid, faceNames[n], clock[n]);
      }
      var before, m, after := Contents(f), Contents(mid), Contents(MarkAll(f, faceNames, clock));
      assert after[..|before|] == after[..|m|][..|before|];
    }
  }

  /** Every name of the frame is recorded afterwards. */
  lemma {:induction false} MarkAllRecordsEach(f: AttendanceFile, faceNames: seq<string>, clock: seq<string>, k: nat)
    requires |clock| == |faceNames|
    requires k < |faceNames|
    ensures faceNames[k] in Names(Contents(MarkAll(f, faceNames, clock)))
    decreases |faceNames|
  {
    var n := |faceNames| - 1;
    var mid := MarkAll(f, faceNames[..n], clock[..n]);
    if k == n {
      MarkRecords(mid, faceNames[n], clock[n]);
    } else {
      MarkAllRecordsEach(f, faceNames[..n], clock[..n], k);
      MarkAppendOnly(mid, faceNames[n], clock[n]);
      var before, after := Contents(mid), Contents(Mark(mid, faceNames[n], clock[n]));
      var i :| 0 <= i < |before| && before[i].name == faceNames[k];
      assert after[i] == after[..|before|][i];
    }
  }

  /** Every record the frame adds is for a name of the frame. */
  lemma {:induction false} MarkAllAddsOnlyFrameNames(f: AttendanceFile, faceNames: seq<string>, clock: seq<string>)
    requires |clock| == |faceNames|
    ensures var before, after := Contents(f), Contents(MarkAll(f, faceNames, clock));
      forall i :: |before| <= i < |after| ==> after[i].name in faceNames
    decreases |faceNames|
  {
    if faceNames != [] {
      var n := |faceNames| - 1;
      var mid := MarkAll(f, faceNames[..n], clock[..n]);
      MarkAllAddsOnlyFrameNames(f, faceNames[..n], clock[..n]);
      MarkAllKeeps(f, faceNames[..n], clock[..n]);
      MarkAppendOnly(mid, faceNames[n], clock[n]);
      var before, m, after := Contents(f), Contents(mid), Contents(MarkAll(f, faceNames, clock));
      forall i | |before| <= i < |after| ensures after[i].name in faceNames {
        if i < |m| {
          assert after[i] == after[..|m|][i];
          assert m[i].name in faceNames[..n];
        } else {
          assert after[i].name == faceNames[n];
        }
      }
    }
  }

  /** A name occurring in distinct names occurs exactly once. */
  lemma {:induction false} DistinctOccursOnce(s: seq<string>, x: string)
    requires Distinct(s) && x in s
    ensures multiset(s)[x] == 1
    decreases |s|
  {
    var n := |s| - 1;
    assert s == s[..n] + [s[n]];
    if s[n] == x {
      assert x !in s[..n];
    } else {
      DistinctOccursOnce(s[..n], x);
    }
  }

  /** With distinct names before the frame, every name of the frame (the
      "Taninamadi" label included) occurs in the records exactly once after it. */
  lemma {:induction false} FrameRecordsEachOnce(f: AttendanceFile, faceNames: seq<string>, clock: seq<string>, k: nat)
    requires |clock| == |faceNames|
    requires Distinct(Names(Contents(f)))
    requires k < |faceNames|
    ensures multiset(Names(Contents(MarkAll(f, faceNames, clock))))[faceNames[k]] == 1
  {
    MarkAllKeeps(f, faceNames, clock);
    MarkAllRecordsEach(f, faceNames, clock, k);
    DistinctOccursOnce(Names(Contents(MarkAll(f, faceNames, clock))), faceNames[k]);
  }

  /** The label of unrecognised faces is not filtered out: it is recorded once. */
  lemma {:induction false} UnknownRecordedOnce(f: AttendanceFile, faceNames: seq<string>, clock: seq<string>)
    requires |clock| == |faceNames|
    requires Distinct(Names(Contents(f)))
    requires FaceRec.Unknown in faceNames
    ensures multiset(Names(Contents(MarkAll(f, faceNames, clock))))[FaceRec.Unknown] == 1
  {
    var k :| 0 <= k < |faceNames| && faceNames[k] == FaceRec.Unknown;
    FrameRecordsEachOnce(f, faceNames, clock, k);
  }

  /** A file whose records already hold every name of a frame is left as it was. */
  lemma {:induction false} MarkAllPresentUnchanged(f: AttendanceFile, faceNames: seq<string>, clock: seq<string>)
    requires |clock| == |faceNames|
    requires forall i :: 0 <= i < |faceNames| ==> faceNames[i] in Names(Contents(f))
    ensures MarkAll(f, faceNames, clock) == f
    decreases |faceNames|
  {
    if faceNames != [] {
      var n := |faceNames| - 1;
      MarkAllPresentUnchanged(f, faceNames[..n], clock[..n]);
    }
  }

  /** Processing the same frame again changes nothing, whatever the clock says. */
  lemma {:induction false} MarkAllIdempotent(f: AttendanceFile, faceNames: seq<string>, c1: seq<string>, c2: seq<string>)
    requires |c1| == |faceNames| && |c2| == |faceNames|
    ensures MarkAll(MarkAll(f, faceNames, c1), faceNames, c2) == MarkAll(f, faceNames, c1)
  {
    forall k | 0 <= k < |faceNames| ensures faceNames[k] in Names(Contents(MarkAll(f, faceNames, c1))) {
      MarkAllRecordsEach(f, faceNames, c1, k);
    }
    MarkAllPresentUnchanged(MarkAll(f, faceNames, c1), faceNames, c2);
  }

  lemma InitOfConcat<T>(a: seq<T>, b: seq<T>)
    requires b != []
    ensures (a + b)[..|a + b| - 1] == a + b[..|b| - 1]
    ensures (a + b)[|a + b| - 1] == b[|b| - 1]
  {
  }

  /** Processing two frames one after the other is processing their names as one
      longer frame; so what holds after any one frame holds after any sequence of
      frames. */
  lemma {:induction false} MarkAllConcat(f: AttendanceFile, a: seq<string>, ca: seq<string>, b: seq<string>, cb: seq<string>)
    requires |ca| == |a| && |cb| == |b|
    ensures MarkAll(f, a + b, ca + cb) == MarkAll(MarkAll(f, a, ca), b, cb)
    decreases |b|
  {
    if b == [] {
      assert a + b == a && ca + cb == ca;
    } else {
      var n := |b| - 1;
      InitOfConcat(a, b);
      InitOfConcat(ca, cb);
      calc {
        MarkAll(f, a + b, ca + cb);
        Mark(MarkAll(f, a + b[..n], ca + cb[..n]), b[n], cb[n]);
        { MarkAllConcat(f, a, ca, b[..n], cb[..n]); }
        Mark(MarkAll(MarkAll(f, a, ca), b[..n], cb[..n]), b[n], cb[n]);
        MarkAll(MarkAll(f, a, ca), b, cb);
      }
    }
  }

  /** Starting from no file, the recorded names are distinct after a frame. */
  lemma {:induction false} FromMissingDistinct(faceNames: seq<string>, clock: seq<string>)
    requires |clock| == |faceNames|
    ensures Distinct(Names(Contents(MarkAll(Missing, faceNames, clock))))
  {
    MarkAllKeeps(Missing, faceNames, clock);
  }

  /** The camera loop run over several frames, one after the other. */
  function MarkFrames(f: AttendanceFile, frames: seq<seq<string>>, clocks: seq<seq<string>>): AttendanceFile
    requires |clocks| == |frames|
    requires forall i :: 0 <= i < |frames| ==> |clocks[i]| == |frames[i]|
    decreases |frames|
  {
    if frames == [] then f
    else
      var n := |frames| - 1;
      MarkAll(MarkFrames(f, frames[..n], clocks[..n]), frames[n], clocks[n])
  }

  /** Starting from no file, the recorded names are distinct after any number of
      frames. */
  lemma {:induction false} FramesFromMissingDistinct(frames: seq<seq<string>>, clocks: seq<seq<string>>)
    requires |clocks| == |frames|
    requires forall i :: 0 <= i < |frames| ==> |clocks[i]| == |frames[i]|
    ensures Distinct(Names(Contents(MarkFrames(Missing, frames, clocks))))
    decreases |frames|
  {
    if frames != [] {
      var n := |frames| - 1;
      FramesFromMissingDistinct(frames[..n], clocks[..n]);
      MarkAllKeeps(MarkFrames(Missing, frames[..n], clocks[..n]), frames[n], clocks[n]);
    }
  }

  /** A frame in which every face is named "Taninamadi", processed from no file,
      leaves exactly one record: "Taninamadi" at the first face's time. */
  lemma {:induction false} OnlyUnknownFrame(faceNames: seq<string>, clock: seq<string>)
    requires |clock| == |faceNames| && |faceNames| > 0
    requires forall i :: 0 <= i < |faceNames| ==> faceNames[i] == FaceRec.Unknown
    ensures MarkAll(Missing, faceNames, clock) == Stored([Record(FaceRec.Unknown, clock[0])])
    decreases |faceNames|
  {
    var n := |faceNames| - 1;
    if n > 0 {
      OnlyUnknownFrame(faceNames[..n], clock[..n]);
      assert Names([Record(FaceRec.Unknown, clock[0])])[0] == FaceRec.Unknown;
    }
  }

  // ---------------------------------------------------------------------------
  // The file as a mutable object
  // ---------------------------------------------------------------------------

  /** The attendance file "yoklama.json" as the program sees it. */
  class AttendanceSheet {
    var file: AttendanceFile

    constructor (initial: AttendanceFile)
      ensures file == initial
    {
      file := initial;
    }

    /** Records `name` at time `zaman` unless it is recorded already; the file is
        rewritten only when a record is added. */
    method Yoklama(name: string, zaman: string) returns (written: bool)
      modifies this
      ensures written <==> name !in Names(Contents(old(file)))
      ensures !written ==> file == old(file)
      ensures file == Mark(old(file), name, zaman)
      ensures name in Names(Contents(file))
      ensures name in Names(Contents(old(file))) ==> file == old(file)
      ensures name !in Names(Contents(old(file))) ==>
        file == Stored(Contents(old(file)) + [Record(name, zaman)])
    {
      var data := Contents(file);
      var nameList := Names(data);
      written := false;
      if name !in nameList {
        var entry := Record(name, zaman);
        data := data + [entry];
        file := Stored(data);
        written := true;
      }
      MarkRecords(old(file), name, zaman);
    }

    /** The per-frame loop: one call per detected name, in order. */
    method ProcessFrame(faceNames: seq<string>, clock: seq<string>)
      requires |clock| == |faceNames|
      modifies this
      ensures file == MarkAll(old(file), faceNames, clock)
      ensures forall k :: 0 <= k < |faceNames| ==> faceNames[k] in Names(Contents(file))
      ensures Distinct(Names(Contents(old(file)))) ==> Distinct(Names(Contents(file)))
    {
      for i := 0 to |faceNames|
        invariant file == MarkAll(old(file), faceNames[..i], clock[..i])
      {
        assert faceNames[..i + 1][..i] == faceNames[..i] && clock[..i + 1][..i] == clock[..i];
        var _ := Yoklama(faceNames[i], clock[i]);
      }
      assert faceNames[..|faceNames|] == faceNames && clock[..|clock|] == clock;
      forall k | 0 <= k < |faceNames| ensures faceNames[k] in Names(Contents(file)) {
        MarkAllRecordsEach(old(file), faceNames, clock, k);
      }
      MarkAllKeeps(old(file), faceNames, clock);
    }

    /** One pass of the camera loop: name the observed faces, then record each name. */
    method HandleFrame(sfr: FaceRec.SimpleFacerec, faces: seq<FaceRec.Observation>, clock: seq<string>)
      returns (faceNames: seq<string>)
      requires sfr.Valid()
      requires forall i :: 0 <= i < |faces| ==> FaceRec.Fits(faces[i], |sfr.knownFaceNames|)
      requires |clock| == |faces|
      modifies this
      ensures |faceNames| == |faces|
      ensures forall i :: 0 <= i < |faces| ==> faceNames[i] == FaceRec.NameFor(sfr.knownFaceNames, faces[i])
      ensures file == MarkAll(old(file), faceNames, clock)
    {
      faceNames := sfr.DetectKnownFaces(faces);
      ProcessFrame(faceNames, clock);
    }
  }

  // ---------------------------------------------------------------------------
  // Start-up of the camera program
  // ---------------------------------------------------------------------------

  /** The start-up as written hands the image folder "images/" to the loader,
      which expects the encoding file. Where that read reports "not found", the
      recogniser keeps its two empty lists. */
  method StartupAsWritten() returns (sfr: FaceRec.SimpleFacerec)
    ensures sfr.Valid()
    ensures sfr.knownFaceEncodings == [] && sfr.knownFaceNames == []
  {
    sfr := new FaceRec.SimpleFacerec();
    sfr.LoadEncodingImages(FaceRec.Missing);
  }

  /** With the empty gallery of StartupAsWritten, every face of every frame is
      named "Taninamadi", so a frame with a face, processed from no attendance
      file, records that label and nothing else. */
  lemma {:induction false} StartupAsWrittenRecordsOnlyUnknown(faces: seq<FaceRec.Observation>, faceNames: seq<string>, clock: seq<string>)
    requires forall i :: 0 <= i < |faces| ==> FaceRec.Fits(faces[i], 0)
    requires |faceNames| == |faces| && |clock| == |faces| && |faces| > 0
    requires forall i :: 0 <= i < |faces| ==> faceNames[i] == FaceRec.NameFor([], faces[i])
    ensures MarkAll(Missing, faceNames, clock) == Stored([Record(FaceRec.Unknown, clock[0])])
  {
    forall i | 0 <= i < |faces| ensures faceNames[i] == FaceRec.Unknown {
      FaceRec.NoMatchIsUnknown([], faces[i]);
    }
    OnlyUnknownFrame(faceNames, clock);
  }

  /** With the same empty gallery and whatever records an earlier run left in
      the attendance file, the only records a frame adds are "Taninamadi". */
  lemma {:induction false} StartupAsWrittenAddsOnlyUnknown(f: AttendanceFile, faces: seq<FaceRec.Observation>, faceNames: seq<string>, clock: seq<string>)
    requires forall i :: 0 <= i < |faces| ==> FaceRec.Fits(faces[i], 0)
    requires |faceNames| == |faces| && |clock| == |faces|
    requires forall i :: 0 <= i < |faces| ==> faceNames[i] == FaceRec.NameFor([], faces[i])
    ensures var before, after := Contents(f), Contents(MarkAll(f, faceNames, clock));
      forall i :: |before| <= i < |after| ==> after[i].name == FaceRec.Unknown
  {
    forall i | 0 <= i < |faces| ensures faceNames[i] == FaceRec.Unknown {
      FaceRec.NoMatchIsUnknown([], faces[i]);
    }
    MarkAllAddsOnlyFrameNames(f, faceNames, clock);
  }

  /** The start-up that loads the encoding file an earlier training run over the
      image listing wrote. */
  method Startup(root: seq<FaceRec.Entry>) returns (sfr: FaceRec.SimpleFacerec)
    ensures sfr.Valid()
    ensures sfr.knownFaceEncodings == FaceRec.Trained(root).encodings
    ensures sfr.knownFaceNames == FaceRec.Trained(root).names
  {
    var trainer := new FaceRec.SimpleFacerec();
    var saved := trainer.LoadAndTrainModel(root);
    sfr := new FaceRec.SimpleFacerec();
    sfr.LoadEncodingImages(FaceRec.Saved(saved));
  }

  /** With the gallery Startup loads, a face whose first closest entry k is flagged
      and below the threshold is named after the directory of entry k, not
      "Taninamadi". */
  lemma {:induction false} StartupNamesStudents(root: seq<FaceRec.Entry>, o: FaceRec.Observation, k: nat)
    requires FaceRec.Fits(o, |FaceRec.Trained(root).names|)
    requires FaceRec.IsFirstMin(o.distances, k)
    requires o.matches[k] && o.distances[k] < FaceRec.Threshold
    ensures FaceRec.NameFor(FaceRec.Trained(root).names, o) == FaceRec.Trained(root).names[k]
    ensures exists f :: 0 <= f < |root| && root[f].isDir && root[f].name == FaceRec.Trained(root).names[k]
  {
    FaceRec.NameForDecision(FaceRec.Trained(root).names, o, k);
    FaceRec.TrainedNamesAreFolders(root, FaceRec.Trained(root).names[k]);
  }
}
