/** The image pipeline of one run: reading the two uploads, detecting faces, swapping the
    source face onto target faces one after another, and enhancing the result
    (app.py:31-37, 46-57). The learned models are opaque collaborators. */
module Pipeline {
  import opened Common

  /** A decoded image; its pixels are never inspected by the job logic. */
  type Image

  /** A face found by the detector (box, landmarks, embedding). */
  type Face

  /** A location in upload storage. */
  type Path = string

  /** The external collaborators of a run. Each returns `None` where app.py raises
      (or, for `read`, where the image decoder yields nothing).
      - `read`: decode the image stored at a path;
      - `detect`: the faces found in an image, in the detector's own order;
      - `swap(img, target, source)`: paste `source` over face `target` of `img`;
      - `enhance`: the restoration pass over the whole image. */
  datatype Models = Models(
    read: Path -> Option<Image>,
    detect: Image -> Option<seq<Face>>,
    swap: (Image, Face, Face) -> Option<Image>,
    enhance: Image -> Option<Image>)

  /** Why a run ended without a result. */
  datatype RunError =
    | SourceUnreadable   // detection on the source raises because decoding gave nothing
    | TargetUnreadable   // detection on the target raises because decoding gave nothing
    | DetectionFailed
    | NoSourceFace       // the first-face access on an empty detection raises
    | SwapFailed
    | EnhanceFailed

  /** What a run works on once detection is done: the target image, the first face of
      the source image, and every face detected in the target. */
  datatype Inputs = Inputs(target: Image, source: Face, targets: seq<Face>)

  /** Reading and detection, in the order the run performs them: both images are read,
      then the source is detected and its first face taken, then the target is detected. */
  function Prepare(m: Models, sourcePath: Path, targetPath: Path): (r: Result<Inputs, RunError>)
    ensures r.Success? ==>
      && m.read(sourcePath).Some?
      && m.detect(m.read(sourcePath).value).Some?
      && |m.detect(m.read(sourcePath).value).value| > 0
      && r.value.source == m.detect(m.read(sourcePath).value).value[0]
      && m.read(targetPath) == Some(r.value.target)
      && m.detect(r.value.target) == Some(r.value.targets)
    ensures r.Success? <==>
      && m.read(sourcePath).Some?
      && m.detect(m.read(sourcePath).value).Some?
      && |m.detect(m.read(sourcePath).value).value| > 0
      && m.read(targetPath).Some?
      && m.detect(m.read(targetPath).value).Some?
    ensures r == Failure(NoSourceFace) <==>
      && m.read(sourcePath).Some?
      && m.detect(m.read(sourcePath).value) == Some([])
  {
    match m.read(sourcePath)
    case None => Failure(SourceUnreadable)
    case Some(img1) =>
      match m.detect(img1)
      case None => Failure(DetectionFailed)
      case Some(faces1) =>
        if |faces1| == 0 then Failure(NoSourceFace)
        else
          match m.read(targetPath)
          case None => Failure(TargetUnreadable)
          case Some(img2) =>
            match m.detect(img2)
            case None => Failure(DetectionFailed)
            case Some(faces2) => Success(Inputs(img2, faces1[0], faces2))
  }

  /** How many swaps a run performs: `min(num_faces, len(faces2))`, where a negative
      minimum means an empty `range`, so no swap. */
  function SwapCount(numFaces: int, detected: nat): (k: nat)
    ensures k <= detected
    ensures numFaces <= 0 ==> k == 0
    ensures 0 <= numFaces <= detected ==> k == numFaces
    ensures numFaces >= detected ==> k == detected
  {
    if numFaces <= 0 then 0
    else if numFaces < detected then numFaces
    else detected
  }

  /** Swaps `source` onto each face of `faces` in turn, each swap working on the
      previous swap's output; `None` as soon as one swap fails. */
  function SwapChain(m: Models, img: Image, source: Face, faces: seq<Face>): Option<Image>
    decreases |faces|
  {
    if |faces| == 0 then Some(img)
    else
      match m.swap(img, faces[0], source)
      case None => None
      case Some(next) => SwapChain(m, next, source, faces[1..])
  }

  /** Swapping over `a + b` is swapping over `a`, then over `b` starting from that output. */
  lemma {:induction false} SwapChainAppend(m: Models, img: Image, source: Face, a: seq<Face>, b: seq<Face>)
    ensures SwapChain(m, img, source, a + b) ==
      match SwapChain(m, img, source, a)
      case None => None
      case Some(mid) => SwapChain(m, mid, source, b)
    decreases |a|
  {
    if |a| == 0 {
      assert a + b == b;
    } else {
      assert (a + b)[0] == a[0];
      assert (a + b)[1..] == a[1..] + b;
      match m.swap(img, a[0], source)
      case None =>
      case Some(next) =>
        SwapChainAppend(m, next, source, a[1..], b);
    }
  }

  /** Swap `i` takes the output of the first `i` swaps and target face `i`. */
  lemma SwapChainStep(m: Models, img: Image, source: Face, faces: seq<Face>, i: nat)
    requires i < |faces|
    ensures SwapChain(m, img, source, faces[..i + 1]) ==
      match SwapChain(m, img, source, faces[..i])
      case None => None
      case Some(prev) => m.swap(prev, faces[i], source)
  {
    assert faces[..i + 1] == faces[..i] + [faces[i]];
    SwapChainAppend(m, img, source, faces[..i], [faces[i]]);
    match SwapChain(m, img, source, faces[..i])
    case None =>
    case Some(prev) =>
      assert [faces[i]][1..] == [];
      match m.swap(prev, faces[i], source)
      case None =>
      case Some(next) =>
  }

  /** The enhancement step, reporting a failing enhancer as `EnhanceFailed`. */
  function Enhanced(m: Models, img: Image): Result<Image, RunError>
  {
    match m.enhance(img)
    case None => Failure(EnhanceFailed)
    case Some(e) => Success(e)
  }

  /** The image a run publishes, or why it publishes none: detection, then
      `SwapCount` chained swaps over the first target faces, then enhancement. */
  function Output(m: Models, sourcePath: Path, targetPath: Path, numFaces: int): Result<Image, RunError>
  {
    match Prepare(m, sourcePath, targetPath)
    case Failure(e) => Failure(e)
    case Success(inp) =>
      var k := SwapCount(numFaces, |inp.targets|);
      match SwapChain(m, inp.target, inp.source, inp.targets[..k])
      case None => Failure(SwapFailed)
      case Some(swapped) => Enhanced(m, swapped)
  }

  /** A run has an output exactly when detection succeeds, every one of the `SwapCount`
      chained swaps succeeds, and the enhancer accepts the swapped image; the output is
      then the enhancer's image. */
  lemma OutputSucceeds(m: Models, sourcePath: Path, targetPath: Path, numFaces: int, r: Image)
    ensures Output(m, sourcePath, targetPath, numFaces) == Success(r) <==>
      && Prepare(m, sourcePath, targetPath).Success?
      && var inp := Prepare(m, sourcePath, targetPath).value;
         var swapped := SwapChain(m, inp.target, inp.source, inp.targets[..SwapCount(numFaces, |inp.targets|)]);
         && swapped.Some?
         && m.enhance(swapped.value) == Some(r)
  {
  }

  /** A source image without a detected face yields no output. */
  lemma NoSourceFaceFails(m: Models, sourcePath: Path, targetPath: Path, numFaces: int)
    requires m.read(sourcePath).Some?
    requires m.detect(m.read(sourcePath).value) == Some([])
    ensures Output(m, sourcePath, targetPath, numFaces) == Failure(NoSourceFace)
  {
  }

  /** With a non-positive face count, or no face in the target, nothing is swapped: the
      output is the enhanced, unmodified target image. */
  lemma NoSwapEnhancesTarget(m: Models, sourcePath: Path, targetPath: Path, numFaces: int)
    requires Prepare(m, sourcePath, targetPath).Success?
    requires numFaces <= 0 || |Prepare(m, sourcePath, targetPath).value.targets| == 0
    ensures Output(m, sourcePath, targetPath, numFaces) ==
      Enhanced(m, Prepare(m, sourcePath, targetPath).value.target)
  {
    var inp := Prepare(m, sourcePath, targetPath).value;
    assert inp.targets[..SwapCount(numFaces, |inp.targets|)] == [];
  }

  /** Asking for more faces than the target holds is the same as asking for exactly as
      many as it holds. */
  lemma FaceCountClamps(m: Models, sourcePath: Path, targetPath: Path, numFaces: int)
    requires Prepare(m, sourcePath, targetPath).Success?
    requires numFaces >= |Prepare(m, sourcePath, targetPath).value.targets|
    ensures Output(m, sourcePath, targetPath, numFaces) ==
      Output(m, sourcePath, targetPath, |Prepare(m, sourcePath, targetPath).value.targets|)
  {
  }
}
