/** The single job slot of the service: the four fields every request reads and every
    run overwrites (app.py:26-29). */
module State {
  import opened Common
  import opened Pipeline

  /** `progress` is a percentage, `processing` tells whether a run is under way, and
      `result` / `resultId` hold the last published image and the id that names it. */
  datatype JobState = JobState(
    progress: real,
    processing: bool,
    result: Option<Image>,
    resultId: Option<string>)

  /** The slot as the service starts: nothing run, nothing published. */
  function Initial(): (s: JobState)
    ensures Consistent(s)
    ensures s.progress == 0.0 && !s.processing
    ensures s.result.None? && s.resultId.None?
  {
    JobState(0.0, false, None, None)
  }

  /** The state every run starts from, whatever the slot held before (app.py:40-43). */
  function Reset(): (s: JobState)
    ensures Consistent(s)
    ensures s.processing && s.progress == 0.0
    ensures s.result.None? && s.resultId.None?
  {
    JobState(0.0, true, None, None)
  }

  /** A result is published together with its id, and progress is a percentage. */
  predicate Consistent(s: JobState) {
    && (s.result.Some? <==> s.resultId.Some?)
    && 0.0 <= s.progress <= 100.0
  }
}
