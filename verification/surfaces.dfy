/** The read-only HTTP surfaces over the job slot: `/progress`, `/result` and
    `/download/<id>` (app.py:100-135). Image encoding is not modelled: replies carry the
    image itself. */
module Surfaces {
  import opened Common
  import opened Pipeline
  import opened State

  const StillProcessingMessage := "Still processing"
  const NotFoundMessage := "Result not found"
  const DownloadName := "face_swap_result.jpg"

  /** The JSON body of `/progress`. */
  datatype ProgressReply = ProgressReply(progress: real, processing: bool)

  /** `/progress`: the current pair, read as it is. */
  function ProgressQuery(s: JobState): (r: ProgressReply)
    ensures r.progress == s.progress && r.processing == s.processing
    ensures Consistent(s) ==> 0.0 <= r.progress <= 100.0
  {
    ProgressReply(s.progress, s.processing)
  }

  /** The replies of `/result`. */
  datatype ResultReply =
    | StillProcessing(message: string)
    | Completed(image: Image, resultId: Option<string>)
    | ResultNotFound(error: string)

  /** The HTTP status of a `/result` reply. */
  function ResultStatus(r: ResultReply): int {
    match r
    case StillProcessing(_) => 202
    case Completed(_, _) => 200
    case ResultNotFound(_) => 404
  }

  /** `/result`: 202 while a run is under way, otherwise 200 with the published image and
      its id, otherwise 404. */
  function ResultQuery(s: JobState): (r: ResultReply)
    ensures ResultStatus(r) == 202 <==> s.processing
    ensures ResultStatus(r) == 200 <==> !s.processing && s.result.Some?
    ensures ResultStatus(r) == 404 <==> !s.processing && s.result.None?
    ensures r.Completed? ==> Some(r.image) == s.result && r.resultId == s.resultId
    ensures r.StillProcessing? ==> r.message == StillProcessingMessage
    ensures r.ResultNotFound? ==> r.error == NotFoundMessage
    ensures Consistent(s) && r.Completed? ==> r.resultId.Some?
  {
    if s.processing then StillProcessing(StillProcessingMessage)
    else if s.result.Some? then Completed(s.result.value, s.resultId)
    else ResultNotFound(NotFoundMessage)
  }

  /** The replies of `/download/<id>`. */
  datatype DownloadReply = Attachment(image: Image, filename: string) | DownloadNotFound(error: string)

  /** `/download/<id>`: the published image as an attachment when `id` names it, else 404. */
  function Download(s: JobState, id: string): (r: DownloadReply)
    ensures r.Attachment? <==> s.result.Some? && s.resultId == Some(id)
    ensures r.Attachment? ==> Some(r.image) == s.result && r.filename == DownloadName
    ensures r.DownloadNotFound? ==> r.error == NotFoundMessage
  {
    if s.result.Some? && s.resultId == Some(id) then Attachment(s.result.value, DownloadName)
    else DownloadNotFound(NotFoundMessage)
  }

  /** Before any run, `/result` answers 404 and no id downloads anything. */
  lemma NothingBeforeFirstRun(id: string)
    ensures ResultQuery(Initial()) == ResultNotFound(NotFoundMessage)
    ensures Download(Initial(), id) == DownloadNotFound(NotFoundMessage)
  {
  }

  /** At most one id downloads anything. */
  lemma DownloadIdUnique(s: JobState, id1: string, id2: string)
    requires Download(s, id1).Attachment? && Download(s, id2).Attachment?
    ensures id1 == id2
  {
  }

  /** The id `/result` hands out downloads exactly the image `/result` returned. */
  lemma ResultIdDownloads(s: JobState)
    requires Consistent(s)
    requires ResultQuery(s).Completed?
    ensures Download(s, ResultQuery(s).resultId.value) ==
      Attachment(ResultQuery(s).image, DownloadName)
  {
  }
}
