/** The face view the saver builds over an `IndexedFaceSet`'s corner-index
    array (the `Faces` class). Its code is not part of this model; what it
    is assumed to do is stated here: the array is a run of vertex indices per
    face, each run closed by the sentinel -1. `Split` is that reading as a
    reference definition, `Flatten` is its inverse, and `BuildFaces` is the
    one-pass scan that records each face as a (start, size) window into the
    shared array. */
module FaceTopology {
  import opened Sequences

  /** The end-of-face marker in a corner-index array. */
  const Sentinel: int := -1

  /** True when the array is empty or its last entry closes a face. */
  predicate Terminated(ci: seq<int>)
  {
    |ci| == 0 || ci[|ci| - 1] == Sentinel
  }

  /** Position of the first sentinel in `ci`, or `|ci|` when there is none. */
  function FirstSentinel(ci: seq<int>): (k: nat)
    ensures k <= |ci|
    ensures k < |ci| ==> ci[k] == Sentinel
    ensures Sentinel !in ci[..k]
  {
    if |ci| == 0 then 0
    else if ci[0] == Sentinel then 0
    else
      var k' := FirstSentinel(ci[1..]);
      assert ci[..1 + k'] == [ci[0]] + ci[1..][..k'];
      1 + k'
  }

  /** The faces of a corner-index array, in order. Every sentinel closes the
      current face (so two sentinels in a row give an empty face); a
      non-empty run after the last sentinel is a face as well, and nothing
      after a final sentinel is. */
  function Split(ci: seq<int>): (faces: seq<seq<int>>)
    ensures forall i :: 0 <= i < |faces| ==> Sentinel !in faces[i]
    decreases |ci|
  {
    if |ci| == 0 then []
    else
      var k := FirstSentinel(ci);
      if k == |ci| then [ci]
      else [ci[..k]] + Split(ci[k + 1..])
  }

  /** Writes faces back as a corner-index array, closing each with -1. */
  function Flatten(faces: seq<seq<int>>): (ci: seq<int>)
    ensures Terminated(ci)
  {
    if |faces| == 0 then []
    else faces[0] + [Sentinel] + Flatten(faces[1..])
  }

  /** Number of faces (`Faces::getNumberOfFaces`). */
  function FaceCount(ci: seq<int>): nat
  {
    |Split(ci)|
  }

  /** Number of corners of face `i` (`Faces::getFaceSize`). */
  function FaceSize(ci: seq<int>, i: nat): nat
    requires i < FaceCount(ci)
  {
    |Split(ci)[i]|
  }

  /** Vertex index at corner `j` of face `i` (`Faces::getFaceVertex`). */
  function FaceVertex(ci: seq<int>, i: nat, j: nat): int
    requires i < FaceCount(ci) && j < FaceSize(ci, i)
  {
    Split(ci)[i][j]
  }

  /** The first sentinel is determined by the three facts `FirstSentinel`
      promises: nothing before it is a sentinel and it is one. */
  lemma {:induction false} FirstSentinelUnique(ci: seq<int>, k: nat)
    requires k <= |ci|
    requires k < |ci| ==> ci[k] == Sentinel
    requires Sentinel !in ci[..k]
    ensures FirstSentinel(ci) == k
  {
    if |ci| == 0 {
    } else if ci[0] == Sentinel {
    } else {
      assert k > 0;
      assert ci[1..][..k - 1] == ci[1..k];
      assert forall x :: x in ci[1..k] ==> x in ci[..k];
      FirstSentinelUnique(ci[1..], k - 1);
    }
  }

  /** A run without sentinels, closed by one sentinel, is exactly one face. */
  lemma {:induction false} SplitClosedRun(run: seq<int>)
    requires Sentinel !in run
    ensures Split(run + [Sentinel]) == [run]
  {
    var ci := run + [Sentinel];
    assert ci[..|run|] == run;
    FirstSentinelUnique(ci, |run|);
    assert ci[|run| + 1..] == [];
  }

  /** A non-empty run without sentinels is one face; an empty one is none. */
  lemma {:induction false} SplitOpenRun(run: seq<int>)
    requires Sentinel !in run
    ensures Split(run) == if |run| == 0 then [] else [run]
  {
    if |run| > 0 {
      assert run[..|run|] == run;
      FirstSentinelUnique(run, |run|);
    }
  }

  /** Splitting distributes over concatenation at a face boundary. */
  lemma {:induction false} SplitAppend(a: seq<int>, b: seq<int>)
    requires Terminated(a)
    ensures Split(a + b) == Split(a) + Split(b)
    decreases |a|
  {
    if |a| == 0 {
      assert a + b == b;
    } else {
      var k := FirstSentinel(a);
      assert k < |a|;
      assert (a + b)[..k] == a[..k];
      FirstSentinelUnique(a + b, k);
      assert (a + b)[k + 1..] == a[k + 1..] + b;
      calc {
        Split(a + b);
        [a[..k]] + Split(a[k + 1..] + b);
        { SplitAppend(a[k + 1..], b); }
        [a[..k]] + (Split(a[k + 1..]) + Split(b));
        { AppendAssoc([a[..k]], Split(a[k + 1..]), Split(b)); }
        ([a[..k]] + Split(a[k + 1..])) + Split(b);
        Split(a) + Split(b);
      }
    }
  }

  /** Splitting a flattened face list gives the faces back. */
  lemma {:induction false} SplitFlatten(faces: seq<seq<int>>)
    requires forall i :: 0 <= i < |faces| ==> Sentinel !in faces[i]
    ensures Split(Flatten(faces)) == faces
  {
    if |faces| > 0 {
      SplitClosedRun(faces[0]);
      SplitFlatten(faces[1..]);
      assert Flatten(faces) == (faces[0] + [Sentinel]) + Flatten(faces[1..]);
      SplitAppend(faces[0] + [Sentinel], Flatten(faces[1..]));
      assert faces == [faces[0]] + faces[1..];
    }
  }

  /** `Flatten` on a non-empty face list, one step. */
  lemma {:induction false} FlattenCons(face: seq<int>, faces: seq<seq<int>>)
    ensures Flatten([face] + faces) == face + [Sentinel] + Flatten(faces)
  {
    assert ([face] + faces)[1..] == faces;
  }

  /** An array with no sentinel at all is one open face. */
  lemma {:induction false} FlattenSplitOpen(ci: seq<int>)
    requires |ci| > 0 && FirstSentinel(ci) == |ci|
    ensures Flatten(Split(ci)) == ci + [Sentinel]
  {
    assert ci[..|ci|] == ci;
    assert Split(ci) == [ci];
    FlattenCons(ci, []);
  }

  /** The first face of an array, flattened, is its prefix up to the first
      sentinel. */
  lemma {:induction false} FlattenSplitStep(ci: seq<int>)
    requires FirstSentinel(ci) < |ci|
    ensures Flatten(Split(ci))
         == ci[..FirstSentinel(ci)] + [Sentinel] + Flatten(Split(ci[FirstSentinel(ci) + 1..]))
  {
    var k := FirstSentinel(ci);
    assert Split(ci) == [ci[..k]] + Split(ci[k + 1..]);
    FlattenCons(ci[..k], Split(ci[k + 1..]));
  }

  /** Flattening the faces of an array gives the array back, with a closing
      sentinel added when the last face was left open. */
  lemma {:induction false} FlattenSplit(ci: seq<int>)
    ensures Terminated(ci) ==> Flatten(Split(ci)) == ci
    ensures !Terminated(ci) ==> Flatten(Split(ci)) == ci + [Sentinel]
    decreases |ci|
  {
    if |ci| > 0 {
      var k := FirstSentinel(ci);
      if k == |ci| {
        FlattenSplitOpen(ci);
      } else {
        var rest := ci[k + 1..];
        var head := ci[..k] + [Sentinel];
        assert ci == head + rest;
        FlattenSplitStep(ci);
        FlattenSplit(rest);
        if !Terminated(ci) {
          AppendAssoc(head, rest, [Sentinel]);
        }
      }
    }
  }

  /** Number of sentinels in a corner-index array. */
  function SentinelCount(ci: seq<int>): nat
  {
    multiset(ci)[Sentinel]
  }

  /** The number of faces is the number of sentinels, plus one when the
      array ends in an open face. */
  lemma {:induction false} FaceCountBySentinels(ci: seq<int>)
    ensures FaceCount(ci) == SentinelCount(ci) + if Terminated(ci) then 0 else 1
  {
    var faces := Split(ci);
    FlattenSplit(ci);
    SentinelsOfFlatten(faces);
    if !Terminated(ci) {
      assert Flatten(faces) == ci + [Sentinel];
      assert multiset(ci + [Sentinel]) == multiset(ci) + multiset{Sentinel};
    }
  }

  /** A flattened face list holds one sentinel per face. */
  lemma {:induction false} SentinelsOfFlatten(faces: seq<seq<int>>)
    requires forall i :: 0 <= i < |faces| ==> Sentinel !in faces[i]
    ensures SentinelCount(Flatten(faces)) == |faces|
  {
    if |faces| > 0 {
      SentinelsOfFlatten(faces[1..]);
      var rest := Flatten(faces[1..]);
      assert multiset(faces[0] + [Sentinel] + rest)
          == multiset(faces[0]) + multiset{Sentinel} + multiset(rest);
      assert multiset(faces[0])[Sentinel] == 0;
    }
  }

  /** One face of the adapter: a window into the corner-index array. */
  datatype Run = Run(start: nat, size: nat)

  /** Every window lies inside the array. */
  predicate RunsFit(ci: seq<int>, runs: seq<Run>)
  {
    forall i :: 0 <= i < |runs| ==> runs[i].start + runs[i].size <= |ci|
  }

  /** The face one window selects. */
  function Window(ci: seq<int>, r: Run): seq<int>
    requires r.start + r.size <= |ci|
  {
    ci[r.start..r.start + r.size]
  }

  /** The faces the windows select. */
  function Windows(ci: seq<int>, runs: seq<Run>): (faces: seq<seq<int>>)
    requires RunsFit(ci, runs)
    ensures |faces| == |runs|
  {
    if |runs| == 0 then []
    else Windows(ci, runs[..|runs| - 1]) + [Window(ci, runs[|runs| - 1])]
  }

  /** Adding a window adds the face it selects. */
  lemma {:induction false} WindowsSnoc(ci: seq<int>, runs: seq<Run>, r: Run)
    requires RunsFit(ci, runs) && r.start + r.size <= |ci|
    ensures RunsFit(ci, runs + [r])
    ensures Windows(ci, runs + [r]) == Windows(ci, runs) + [Window(ci, r)]
  {
    assert (runs + [r])[..|runs|] == runs;
  }

  /** Each window is the face at its own position. */
  lemma {:induction false} WindowAt(ci: seq<int>, runs: seq<Run>, i: nat)
    requires RunsFit(ci, runs) && i < |runs|
    ensures Windows(ci, runs)[i] == Window(ci, runs[i])
    decreases |runs|
  {
    if i < |runs| - 1 {
      WindowAt(ci, runs[..|runs| - 1], i);
    }
  }

  /** Closing the face that starts at `start` with the sentinel at `p`
      adds that face's window. */
  lemma {:induction false} CloseRun(ci: seq<int>, runs: seq<Run>, start: nat, p: nat)
    requires start <= p < |ci| && ci[p] == Sentinel
    requires Scanned(ci, runs, start, p)
    ensures Scanned(ci, runs + [Run(start, p - start)], p + 1, p + 1)
  {
    var pre := ci[..start];
    var run := ci[start..p];
    var r := Run(start, p - start);
    assert ci[..p + 1] == pre + (run + [Sentinel]);
    SplitThenFace(pre, run);
    WindowsSnoc(ci, runs, r);
    assert Window(ci, r) == run;
  }

  /** A face closed after a terminated prefix adds that face. */
  lemma {:induction false} SplitThenFace(pre: seq<int>, run: seq<int>)
    requires Terminated(pre) && Sentinel !in run
    ensures Split(pre + (run + [Sentinel])) == Split(pre) + [run]
  {
    SplitAppend(pre, run + [Sentinel]);
    SplitClosedRun(run);
  }

  /** After the last sentinel only an open face can remain. */
  lemma {:induction false} SplitTail(ci: seq<int>, start: nat)
    requires start <= |ci|
    requires Terminated(ci[..start]) && Sentinel !in ci[start..]
    ensures Split(ci) == Split(ci[..start]) + if start < |ci| then [ci[start..]] else []
  {
    var tail := ci[start..];
    assert ci == ci[..start] + tail;
    SplitAppend(ci[..start], tail);
    SplitOpenRun(tail);
  }

  /** After the scan, an open face left at the end gets its window too. */
  lemma {:induction false} CloseLastRun(ci: seq<int>, runs: seq<Run>, start: nat)
    requires start < |ci|
    requires Terminated(ci[..start]) && Sentinel !in ci[start..]
    requires RunsFit(ci, runs) && Windows(ci, runs) == Split(ci[..start])
    ensures RunsFit(ci, runs + [Run(start, |ci| - start)])
    ensures Windows(ci, runs + [Run(start, |ci| - start)]) == Split(ci)
  {
    var r := Run(start, |ci| - start);
    var tail := ci[start..];
    assert Split(ci) == Split(ci[..start]) + [tail] by {
      SplitTail(ci, start);
    }
    assert Windows(ci, runs + [r]) == Windows(ci, runs) + [tail] by {
      WindowsSnoc(ci, runs, r);
      assert Window(ci, r) == tail;
    }
  }

  /** Windows that select the faces answer the face-size and face-vertex
      queries directly. */
  lemma {:induction false} WindowLookup(ci: seq<int>, runs: seq<Run>)
    requires RunsFit(ci, runs) && Windows(ci, runs) == Split(ci)
    ensures |runs| == FaceCount(ci)
    ensures forall i :: 0 <= i < |runs| ==> runs[i].size == FaceSize(ci, i)
    ensures forall i, j :: 0 <= i < |runs| && 0 <= j < runs[i].size ==>
      ci[runs[i].start + j] == FaceVertex(ci, i, j)
  {
    forall i | 0 <= i < |runs|
      ensures runs[i].size == FaceSize(ci, i)
      ensures forall j :: 0 <= j < runs[i].size ==> ci[runs[i].start + j] == FaceVertex(ci, i, j)
    {
      WindowAt(ci, runs, i);
    }
  }

  /** The adapter's construction: one scan of the array that records each
      face's start offset and corner count, so that later face-size and
      face-vertex queries are direct lookups. The windows it records are
      exactly the faces of `Split`. */
  method BuildFaces(ci: seq<int>) returns (runs: seq<Run>)
    ensures RunsFit(ci, runs)
    ensures Windows(ci, runs) == Split(ci)
    ensures |runs| == FaceCount(ci)
    ensures forall i :: 0 <= i < |runs| ==> runs[i].size == FaceSize(ci, i)
    ensures forall i, j :: 0 <= i < |runs| && 0 <= j < runs[i].size ==>
      ci[runs[i].start + j] == FaceVertex(ci, i, j)
  {
    runs := [];
    var start := 0;
    var p := 0;
    while p < |ci|
      invariant 0 <= start <= p <= |ci|
      invariant Scanned(ci, runs, start, p)
    {
      if ci[p] == Sentinel {
        CloseRun(ci, runs, start, p);
        runs := runs + [Run(start, p - start)];
        start := p + 1;
      } else {
        ExtendRun(ci, runs, start, p);
      }
      p := p + 1;
    }
    FinishScanFits(ci, runs, start);
    runs := FinishScan(ci, runs, start);
  }

  /** What the scan knows after reading `ci[..p]`: the faces closed so far
      have their windows, and the face begun at `start` is still open. */
  predicate Scanned(ci: seq<int>, runs: seq<Run>, start: nat, p: nat)
    requires start <= p <= |ci|
  {
    && Terminated(ci[..start])
    && Sentinel !in ci[start..p]
    && RunsFit(ci, runs)
    && Windows(ci, runs) == Split(ci[..start])
  }

  /** A corner that is not a sentinel extends the open face. */
  lemma {:induction false} ExtendRun(ci: seq<int>, runs: seq<Run>, start: nat, p: nat)
    requires start <= p < |ci| && ci[p] != Sentinel
    requires Scanned(ci, runs, start, p)
    ensures Scanned(ci, runs, start, p + 1)
  {
    assert ci[start..p + 1] == ci[start..p] + [ci[p]];
  }

  /** The end of the scan: an open face left after the last sentinel gets
      its window. */
  function FinishScan(ci: seq<int>, runs: seq<Run>, start: nat): seq<Run>
  {
    if start < |ci| then runs + [Run(start, |ci| - start)] else runs
  }

  /** Once the whole array is scanned, the windows are the faces. */
  lemma {:induction false} FinishScanFits(ci: seq<int>, runs: seq<Run>, start: nat)
    requires start <= |ci| && Scanned(ci, runs, start, |ci|)
    ensures RunsFit(ci, FinishScan(ci, runs, start))
    ensures Windows(ci, FinishScan(ci, runs, start)) == Split(ci)
    ensures |FinishScan(ci, runs, start)| == FaceCount(ci)
    ensures forall i :: 0 <= i < |FinishScan(ci, runs, start)| ==>
      FinishScan(ci, runs, start)[i].size == FaceSize(ci, i)
    ensures forall i, j :: 0 <= i < |FinishScan(ci, runs, start)| && 0 <= j < FinishScan(ci, runs, start)[i].size ==>
      ci[FinishScan(ci, runs, start)[i].start + j] == FaceVertex(ci, i, j)
  {
    assert ci[start..|ci|] == ci[start..];
    if start < |ci| {
      CloseLastRun(ci, runs, start);
    } else {
      SplitTail(ci, start);
    }
    WindowLookup(ci, FinishScan(ci, runs, start));
  }
}
