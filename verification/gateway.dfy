/** `POST /upload` (app.py:73-98): admission of the two uploaded files, storing them, and
    starting a run. The run is taken to complete before the next request is served. */
module Gateway {
  import opened Common
  import opened Pipeline
  import opened Progress
  import opened State
  import opened Surfaces
  import opened Runner

  const MissingFile := "Missing file"
  const NoSelectedFile := "No selected file"
  const ProcessingStarted := "Processing started"

  /** One part of the multipart upload; only its client-side filename matters here. */
  datatype FileField = FileField(filename: string)

  /** An upload request: the file parts by field name, and `num_faces` already parsed. */
  datatype UploadRequest = UploadRequest(files: map<string, FileField>, numFaces: int)

  /** The two filenames of an admitted upload. */
  datatype Admission = Admission(sourceName: string, targetName: string)

  /** The replies of `/upload`. */
  datatype UploadReply = Started(message: string) | Rejected(error: string)

  /** The HTTP status of an `/upload` reply. */
  function UploadStatus(r: UploadReply): int {
    if r.Started? then 200 else 400
  }

  /** Whether the request carries both file parts, each with a non-empty filename. */
  predicate Admissible(req: UploadRequest) {
    && "file1" in req.files && "file2" in req.files
    && req.files["file1"].filename != "" && req.files["file2"].filename != ""
  }

  /** The checks made before anything is stored: a missing part first, then an empty
      filename. */
  function Admit(req: UploadRequest): (r: Result<Admission, string>)
    ensures r.Success? <==> Admissible(req)
    ensures r == Failure(MissingFile) <==> "file1" !in req.files || "file2" !in req.files
    ensures r == Failure(NoSelectedFile) <==>
      && "file1" in req.files && "file2" in req.files
      && (req.files["file1"].filename == "" || req.files["file2"].filename == "")
    ensures r.Success? ==>
      r.value == Admission(req.files["file1"].filename, req.files["file2"].filename)
  {
    if "file1" !in req.files || "file2" !in req.files then Failure(MissingFile)
    else
      var f1 := req.files["file1"];
      var f2 := req.files["file2"];
      if f1.filename == "" || f2.filename == "" then Failure(NoSelectedFile)
      else Success(Admission(f1.filename, f2.filename))
  }

  /** The whole mutable state of the service: the job slot and the upload storage. */
  datatype Server = Server(job: JobState, storage: set<Path>)

  /** Handles one upload. A rejected request changes nothing and starts no run. An
      admitted one stores both files at `savePath(filename)` (the sanitised name joined to
      the upload folder), runs the job to completion and replies 200; afterwards the
      uploads are gone and the surfaces report the run's outcome. A failed run leaves
      the last progress value it wrote. */
  method Upload(m: Models, server: Server, req: UploadRequest,
                savePath: string -> Path, newId: string)
    returns (reply: UploadReply, server': Server)
    ensures UploadStatus(reply) == 400 <==> !Admissible(req)
    ensures reply.Rejected? ==> reply.error == Admit(req).error && server' == server
    ensures reply.Started? ==>
      var p1 := savePath(req.files["file1"].filename);
      var p2 := savePath(req.files["file2"].filename);
      var out := Output(m, p1, p2, req.numFaces);
      && reply.message == ProcessingStarted
      && server'.storage == server.storage - {p1, p2}
      && !server'.job.processing
      && Consistent(server'.job)
      && ResultQuery(server'.job) ==
           (if out.Success? then Completed(out.value, Some(newId)) else ResultNotFound(NotFoundMessage))
      && (forall id :: Download(server'.job, id).Attachment? <==> out.Success? && id == newId)
      && (out.Success? ==> ProgressQuery(server'.job) == ProgressReply(100.0, false))
    ensures reply.Started? ==>
      var p1 := savePath(req.files["file1"].filename);
      var p2 := savePath(req.files["file2"].filename);
      var prep := Prepare(m, p1, p2);
      var out := Output(m, p1, p2, req.numFaces);
      && (prep.Failure? ==> server'.job.progress == 0.0)
      && (prep.Success? ==>
            var k := SwapCount(req.numFaces, |prep.value.targets|);
            && (out == Failure(EnhanceFailed) ==>
                  server'.job.progress == if k == 0 then 0.0 else 90.0)
            && (out == Failure(SwapFailed) ==>
                  exists f: nat ::
                    && f < k
                    && SwapChain(m, prep.value.target, prep.value.source, prep.value.targets[..f]).Some?
                    && SwapChain(m, prep.value.target, prep.value.source, prep.value.targets[..f + 1]).None?
                    && server'.job.progress == if f == 0 then 0.0 else ProgressAt(f - 1, k)))
  {
    var admitted := Admit(req);
    if admitted.Failure? {
      return Rejected(admitted.error), server;
    }
    var p1 := savePath(admitted.value.sourceName);
    var p2 := savePath(admitted.value.targetName);
    var stored := server.storage + {p1, p2};
    var final, storage', trace := ProcessImages(m, stored, p1, p2, req.numFaces, newId);
    var prep := Prepare(m, p1, p2);
    if prep.Success? && Output(m, p1, p2, req.numFaces) == Failure(SwapFailed) {
      var f := |trace| - 1;
      assert prep.value.targets[..f + 1] == prep.value.targets[..|trace|];
    }
    reply := Started(ProcessingStarted);
    server' := Server(final, storage');
  }
}
