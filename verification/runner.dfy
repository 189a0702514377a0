/** One run of `process_images` (app.py:39-65), taken as a single sequential step: the
    reset, the swap loop with its progress updates, enhancement and publication, and
    the `finally` that clears `processing` and removes both uploads. */
module Runner {
  import opened Common
  import opened Pipeline
  import opened Progress
  import opened State
  import opened Surfaces

  /** The swap loop (app.py:52-55): starting from the target image, swap the source face
      onto target faces `0 .. k-1`, each swap feeding the next, and record the progress
      written after each swap. A failing swap ends the loop; the progress written before
      it stands. */
  method SwapFaces(m: Models, target: Image, source: Face, faces: seq<Face>, k: nat)
    returns (out: Option<Image>, marks: seq<real>)
    requires k <= |faces|
    ensures out == SwapChain(m, target, source, faces[..k])
    ensures |marks| <= k
    ensures out.Some? ==> |marks| == k
    ensures forall j :: 0 <= j < |marks| ==> marks[j] == ProgressAt(j, k)
    ensures forall a, b :: 0 <= a < b < |marks| ==> marks[a] < marks[b]
    ensures out.Some? && k > 0 ==> marks[k - 1] == 90.0
    ensures out.None? ==>
      && |marks| < k
      && SwapChain(m, target, source, faces[..|marks|]).Some?
      && SwapChain(m, target, source, faces[..|marks| + 1]).None?
  {
    var img := target;
    var i := 0;
    marks := [];
    while i < k
      invariant 0 <= i <= k
      invariant |marks| == i
      invariant SwapChain(m, target, source, faces[..i]) == Some(img)
      invariant forall j :: 0 <= j < i ==> marks[j] == ProgressAt(j, k)
      invariant forall a, b :: 0 <= a < b < i ==> marks[a] < marks[b]
    {
      SwapChainStep(m, target, source, faces, i);
      match m.swap(img, faces[i], source) {
        case None =>
          SwapChainAppend(m, target, source, faces[..i + 1], faces[i + 1..k]);
          assert faces[..i + 1] + faces[i + 1..k] == faces[..k];
          assert |marks| == i;
          return None, marks;
        case Some(next) =>
          img := next;
      }
      forall a | 0 <= a < i
        ensures marks[a] < ProgressAt(i, k)
      {
        ProgressIncreases(a, i, k);
      }
      marks := marks + [ProgressAt(i, k)];
      i := i + 1;
    }
    assert faces[..k] == faces[..i];
    out := Some(img);
  }

  /** The two `os.remove` calls of the `finally`: when the first path is missing it raises
      and the second file stays; otherwise both files are gone (a missing second path
      raises too, with nothing left to remove). */
  function Cleanup(storage: set<Path>, sourcePath: Path, targetPath: Path): (after: set<Path>)
    ensures after <= storage
    ensures sourcePath in storage ==> after == storage - {sourcePath, targetPath}
    ensures sourcePath !in storage ==> after == storage
  {
    if sourcePath in storage then storage - {sourcePath, targetPath} else storage
  }

  /** One run. `trace` lists the slot as it stands after each group of writes: the reset,
      one progress update per completed swap, and (on success) the publication. `final`
      is the slot after the `finally`. `newId` stands for the fresh uuid. Nothing of the
      slot's previous contents survives a run: every field is overwritten by the reset. */
  method ProcessImages(m: Models, storage: set<Path>,
                       sourcePath: Path, targetPath: Path, numFaces: int, newId: string)
    returns (final: JobState, storage': set<Path>, trace: seq<JobState>)
    ensures |trace| >= 1 && trace[0] == Reset()
    ensures forall j :: 0 <= j < |trace| ==> trace[j].processing
    ensures forall j :: 0 <= j < |trace| ==> ResultQuery(trace[j]) == StillProcessing(StillProcessingMessage)
    ensures forall j :: 0 <= j < |trace| ==> Consistent(trace[j])
    ensures forall a, b :: 0 <= a < b < |trace| ==> trace[a].progress < trace[b].progress
    ensures Prepare(m, sourcePath, targetPath).Failure? ==> |trace| == 1
    ensures Prepare(m, sourcePath, targetPath).Success? ==>
      var k := SwapCount(numFaces, |Prepare(m, sourcePath, targetPath).value.targets|);
      && |trace| <= k + 2
      && (forall j :: 1 <= j < |trace| && j <= k ==> trace[j].progress == ProgressAt(j - 1, k))
      && (Output(m, sourcePath, targetPath, numFaces).Success? ==> |trace| == k + 2)
      && (Output(m, sourcePath, targetPath, numFaces) == Failure(EnhanceFailed) ==> |trace| == k + 1)
      && (Output(m, sourcePath, targetPath, numFaces) == Failure(SwapFailed) ==>
            var inp := Prepare(m, sourcePath, targetPath).value;
            && |trace| <= k
            && SwapChain(m, inp.target, inp.source, inp.targets[..|trace| - 1]).Some?
            && SwapChain(m, inp.target, inp.source, inp.targets[..|trace|]).None?)
    ensures forall j :: 0 <= j < |trace| && trace[j].result.Some? ==>
      j == |trace| - 1 && Output(m, sourcePath, targetPath, numFaces).Success?
    ensures forall j :: 0 <= j < |trace| && trace[j].resultId.Some? ==>
      j == |trace| - 1 && Output(m, sourcePath, targetPath, numFaces).Success?
    ensures final == trace[|trace| - 1].(processing := false)
    ensures Consistent(final)
    ensures final.result == Output(m, sourcePath, targetPath, numFaces).ToOption()
    ensures final.resultId ==
      if Output(m, sourcePath, targetPath, numFaces).Success? then Some(newId) else None
    ensures Output(m, sourcePath, targetPath, numFaces).Success? ==> final.progress == 100.0
    ensures storage' == Cleanup(storage, sourcePath, targetPath)
  {
    var slot := Reset();
    trace := [slot];
    var prepared := Prepare(m, sourcePath, targetPath);
    if prepared.Success? {
      var inp := prepared.value;
      var k := SwapCount(numFaces, |inp.targets|);
      var swapped, marks := SwapFaces(m, inp.target, inp.source, inp.targets, k);
      var updates := seq(|marks|, j requires 0 <= j < |marks| => slot.(progress := marks[j]));
      trace := trace + updates;
      if |marks| > 0 {
        slot := updates[|marks| - 1];
      }
      if swapped.Some? {
        var enhanced := Enhanced(m, swapped.value);
        if enhanced.Success? {
          slot := JobState(100.0, true, Some(enhanced.value), Some(newId));
          trace := trace + [slot];
        }
      }
    }
    final := slot.(processing := false);
    storage' := Cleanup(storage, sourcePath, targetPath);
  }
}
