# Face-swap job slot

A model of the single-slot job state machine of a small Flask face-swap service
(`app.py`). The service keeps one job slot — `progress`, `processing`, `result`,
`result_id` — that every upload overwrites. An admitted upload stores two images and
runs `process_images`: reset the slot, take the first face of the source image, swap it
onto the first `min(num_faces, len(faces2))` target faces one after another, writing
progress after each swap, enhance the image, publish it under a fresh id, and in a
`finally` clear `processing` and delete both uploads. Clients poll `/progress`, fetch
`/result` (202 / 200 / 404) and download the image by id.

Structure:

- `common.dfy` — `Option` and `Result`.
- `pipeline.dfy` — opaque `Image` and `Face`; the face-analysis, swapper and enhancer
  models (and image decoding) as a `Models` record of functions that may fail; the
  reference definition of a run's output (`Prepare`, `SwapCount`, `SwapChain`, `Output`).
- `progress.dfy` — the progress value written after each swap.
- `state.dfy` — the job slot, its initial and reset values, and its invariant.
- `surfaces.dfy` — `/progress`, `/result`, `/download/<id>`.
- `runner.dfy` — `process_images` as one sequential step, with the swap loop.
- `gateway.dfy` — `/upload`: admission, storing the files, running the job.

Behaviour of `app.py` that the model keeps:

- After the last swap the progress is exactly 90.
- A source image without a face is not checked: the first-face access raises. The
  `finally` still runs, so the run ends with `processing` false and no result.
- A negative `num_faces` is accepted. `range` of a negative number is empty, so it
  behaves like 0.

## Model

| member | source | states |
|---|---|---|
| State.Initial | app.py:26-29 | The slot starts consistent, with progress 0, processing false, and no result or id. |
| State.Reset | app.py:40-43 | Whatever the slot held before, a run starts with progress 0, processing true, and result and id both absent. |
| Pipeline.Prepare | app.py:46-50 | Preparation succeeds iff both images decode, detection succeeds on both, and the source has at least one face. The swap source is then the first face detected in the source image, and the targets are all faces detected in the target image. A source with no detected face fails with `NoSourceFace`, and only then. |
| Pipeline.SwapCount | app.py:53 | The swap count is the minimum of `num_faces` and the detected face count. A non-positive `num_faces` means no swap. It never exceeds the detected faces. |
| Pipeline.SwapChainAppend | app.py:52-54 | Sequential swaps compose: swapping over `a + b` is swapping over `b` starting from the output of `a`. One failure fails the chain. |
| Pipeline.SwapChainStep | app.py:53-54 | Swap `i` is applied to the output of swaps `0..i-1` and uses target face `i`. |
| Pipeline.OutputSucceeds | app.py:46-59 | A run publishes image `r` iff reading and detection succeed, all `SwapCount` chained swaps succeed, and the enhancer maps the swapped image to `r`. |
| Pipeline.NoSourceFaceFails | app.py:49 | A source image whose detection is empty yields no output. |
| Pipeline.NoSwapEnhancesTarget | app.py:52-57 | With `num_faces <= 0` or no target face, the output is the enhanced, unmodified target. |
| Pipeline.FaceCountClamps | app.py:53 | Asking for more faces than were detected gives the same output as asking for exactly the detected count. |
| Progress.ProgressAt | app.py:55 | The progress after a swap lies in (0, 90]. It is exactly 90 only after the last swap. |
| Progress.ProgressIncreases | app.py:53-55 | A later swap reports strictly more progress than an earlier one. |
| Runner.SwapFaces | app.py:52-55 | The loop's image equals the chained swaps over the first `k` target faces. Progress after swap `j` is `(j+1)/k*90`. The values strictly increase and end at 90 when all swaps succeed. On a failing swap the loop stops there: one progress value was written per earlier successful swap, and that swap is the first to fail. |
| Runner.Cleanup | app.py:61-65 | The `finally` removes both uploads, unless the first removal raises on a missing file. |
| Runner.ProcessImages | app.py:39-65 | The first snapshot of the trace is the reset state. In every snapshot of the trace processing is true, so `/result` says 202. Progress strictly increases within [0, 100]. Swap progress follows `(i+1)/k*90`. Success yields result = enhanced chained swap, the new id and progress 100. Of the snapshots, only the final publication carries a result or id. A failed swap leaves progress at the last successful swap. A failed enhancement leaves it after all `k` swaps. Failure leaves result and id absent. The run always ends with processing false and the uploads cleaned up. |
| Surfaces.ProgressQuery | app.py:100-102 | `/progress` returns exactly the current progress and processing flag. On a consistent slot the progress is within [0, 100]. |
| Surfaces.ResultQuery | app.py:104-114 | `/result` returns 202 iff processing. It returns 200 iff idle with a result, with that result and the current id. It returns 404 iff idle without a result. The 202 reply carries "Still processing" and the 404 reply carries "Result not found". |
| Surfaces.Download | app.py:116-135 | `/download/<id>` succeeds iff a result is present and its id equals `id`. The attachment is that result, named `face_swap_result.jpg`. Every other request gets 404. The 404 reply carries "Result not found". |
| Surfaces.NothingBeforeFirstRun | app.py:26-29 | Before any run, `/result` is 404 and no download succeeds. |
| Surfaces.DownloadIdUnique | app.py:118 | At most one id downloads the result. |
| Surfaces.ResultIdDownloads | app.py:109-118 | The id returned by `/result` downloads the same image `/result` returned. |
| Gateway.Admit | app.py:75-83 | A missing `file1` or `file2` is rejected as "Missing file". Otherwise an empty filename is rejected as "No selected file". Otherwise both filenames are admitted. |
| Gateway.Upload | app.py:73-98 | Status 400 iff the request is not admissible, and then nothing changes. On 200 the run completes and the uploads are removed. `/result` then reports the run's output under the new id, or 404. Only the new id downloads. After success, `/progress` reads (100, false). After a failed run, progress is the last value written. It is 0 when reading or detection fails. It is `f/k*90` when swap `f` is the first to fail (0 when `f` is 0). It is 90 when enhancement fails after `k > 0` swaps, and 0 when `k` is 0. |

## Left out

- Face analysis, the inswapper model and GFPGAN: these are the opaque, possibly failing functions of `Models`. Their model loading at start-up is left out too.
- Image decoding and encoding (`cv2.imread`, `cv2.imencode`, base64): `read` may yield nothing, and replies carry the image itself rather than JPEG bytes.
- `secure_filename` and `os.path.join`: these are the `savePath` parameter. Saving a file adds its path to an abstract set of stored paths, and `os.remove` takes it out.
- Two uploads whose sanitised names coincide share one path. The model keeps that single path in the set and lets the second removal raise harmlessly.
- Threading: a run is one atomic step that completes before the next request. Concurrent runs and their races on the shared slot are not modelled.
- Runner.ProcessImages: the four writes of the reset (app.py:40-43) are one step of the trace, so the trace does not show the moments between them. After `progress = 0`, `processing` may still be false, so `/result` can still return the previous result with 200. After `processing = True`, the previous result and id are still set, so `/download/<old id>` still succeeds.
- Runner.ProcessImages: the three writes of the publication (progress 100, result, id) are one step of the trace, so it does not show the moments in between them.
- `uuid.uuid4()`: the new id is a parameter. Nothing is claimed about its freshness.
- Progress uses exact `real` arithmetic, not IEEE floating point.
- Flask plumbing is left out: `render_template`, `MAX_CONTENT_LENGTH`, the `send_file` `TypeError` fallback, and the start-up code.
- The `int()` parse of `num_faces`, which raises on non-numeric input, is left out. `num_faces` arrives already parsed, and its default of 1 is the caller's.
- `if file1 and file2` is always true once both filenames are non-empty, so it is not a separate branch.
