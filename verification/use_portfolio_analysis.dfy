/** The `usePortfolioAnalysis` hook as a state machine: its two pieces of
    React state, the four callbacks as transitions, and the two derived flags.
    The asynchronous collaborators are inputs: the preview `fileToBase64`
    produced (or the message it rejected with) and what `analyzePortfolio`
    returned (or the message of what it threw).  `analyzeImage` awaits the
    request, so it is two transitions, and other callbacks may run between
    them. */
module PortfolioHook {
  import opened Base
  import Api

  datatype Status = Idle | Loading | Success | Error

  /** `uploadState` */
  datatype UploadState = UploadState(status: Status, file: Option<Api.File>, preview: Option<string>,
                                     error: Option<string>)

  /** `analysisState`; the data is the parsed response `analyzePortfolio`
      resolved with. */
  datatype AnalysisState = AnalysisState(status: Status, data: Option<Api.Body>, error: Option<string>)

  datatype HookState = HookState(upload: UploadState, analysis: AnalysisState)

  const InvalidFileMessage: string := "유효하지 않은 파일입니다."
  const PreviewFailedMessage: string := "이미지 미리보기 생성에 실패했습니다."
  const NoFileMessage: string := "분석할 파일이 없습니다."
  const AnalysisFailedMessage: string := "분석 중 오류가 발생했습니다."

  const IdleUpload: UploadState := UploadState(Idle, None, None, None)
  const IdleAnalysis: AnalysisState := AnalysisState(Idle, None, None)
  const Initial: HookState := HookState(IdleUpload, IdleAnalysis)

  /** `isLoading` */
  predicate IsLoading(s: HookState)
  {
    s.analysis.status == Loading
  }

  /** `canAnalyze` */
  predicate CanAnalyze(s: HookState)
  {
    s.upload.status == Success && s.upload.file.Some?
  }

  /** `a || fallback` for a message. */
  function OrDefault(message: string, fallback: string): (r: string)
    ensures r != "" || fallback == ""
    ensures message != "" ==> r == message
    ensures message == "" ==> r == fallback
  {
    if message != "" then message else fallback
  }

  /** The shapes the hook ever gives its state: every status carries exactly
      the fields it is set with, and a held file is one the validator passed. */
  predicate UploadWellFormed(u: UploadState)
  {
    match u.status
    case Idle => u.file.None? && u.preview.None? && u.error.None?
    case Loading => false
    case Success => u.file.Some? && u.preview.Some? && u.error.None? && Api.ValidateImageFile(u.file.value).Valid?
    case Error => u.file.None? && u.preview.None? && u.error.Some? && u.error.value != ""
  }

  predicate AnalysisWellFormed(a: AnalysisState)
  {
    match a.status
    case Idle => a.data.None? && a.error.None?
    case Loading => a.data.None? && a.error.None?
    case Success => a.data.Some? && a.error.None?
    case Error => a.data.None? && a.error.Some? && a.error.value != ""
  }

  predicate WellFormed(s: HookState)
  {
    UploadWellFormed(s.upload) && AnalysisWellFormed(s.analysis)
  }

  /** `handleFileSelect(file)`, with `preview` the outcome of `fileToBase64`. */
  function HandleFileSelect(s: HookState, f: Api.File, preview: Result<string, string>): (r: HookState)
    // a file the validator refuses is dropped with its message; the analysis is untouched
    ensures Api.ValidateImageFile(f).Invalid? ==>
      r == s.(upload := UploadState(Error, None, None, Some(Api.ValidateImageFile(f).error)))
    // a good file with a preview is held, and the previous analysis is cleared
    ensures Api.ValidateImageFile(f).Valid? && preview.Ok? ==>
      r == HookState(UploadState(Success, Some(f), Some(preview.value), None), IdleAnalysis)
    // a preview failure reports its own message whatever the reader said
    ensures Api.ValidateImageFile(f).Valid? && preview.Err? ==>
      r == s.(upload := UploadState(Error, None, None, Some(PreviewFailedMessage)))
  {
    match Api.ValidateImageFile(f)
    case Invalid(e) => s.(upload := UploadState(Error, None, None, Some(OrDefault(e, InvalidFileMessage))))
    case Valid =>
      match preview
      case Ok(p) => HookState(UploadState(Success, Some(f), Some(p), None), IdleAnalysis)
      case Err(_) => s.(upload := UploadState(Error, None, None, Some(PreviewFailedMessage)))
  }

  /** The analysis state `analyzeImage()` sets once the request has
      settled: the response on success, the thrown message or the fallback
      on failure. */
  function Settled(outcome: Result<Api.Body, string>): (a: AnalysisState)
    ensures outcome.Ok? ==> a == AnalysisState(Success, Some(outcome.value), None)
    ensures outcome.Err? && outcome.error != "" ==> a == AnalysisState(Error, None, Some(outcome.error))
    ensures outcome.Err? && outcome.error == "" ==> a == AnalysisState(Error, None, Some(AnalysisFailedMessage))
  {
    match outcome
    case Ok(data) => AnalysisState(Success, Some(data), None)
    case Err(m) => AnalysisState(Error, None, Some(OrDefault(m, AnalysisFailedMessage)))
  }

  /** `analyzeImage()`: the analysis states it sets, in order, when nothing
      else runs while the request is in flight. */
  function AnalyzeSteps(s: HookState, outcome: Result<Api.Body, string>): (steps: seq<AnalysisState>)
    ensures |steps| >= 1
    ensures s.upload.file.None? ==> steps == [AnalysisState(Error, None, Some(NoFileMessage))]
    ensures s.upload.file.Some? ==> |steps| == 2 && steps[0] == AnalysisState(Loading, None, None)
    ensures s.upload.file.Some? && outcome.Ok? ==> steps[1] == AnalysisState(Success, Some(outcome.value), None)
    ensures s.upload.file.Some? && outcome.Err? ==>
      steps[1] == AnalysisState(Error, None, Some(OrDefault(outcome.error, AnalysisFailedMessage)))
    // an exception without a message shows the generic failure text
    ensures s.upload.file.Some? && outcome.Err? && outcome.error == "" ==>
      steps[1].error == Some(AnalysisFailedMessage)
  {
    if s.upload.file.None? then [AnalysisState(Error, None, Some(NoFileMessage))]
    else [AnalysisState(Loading, None, None), Settled(outcome)]
  }

  /** The synchronous part of `analyzeImage()`, up to the `await`: without a
      file it ends at once with an error, otherwise the analysis is loading. */
  function AnalyzeStart(s: HookState): (r: HookState)
    ensures r.upload == s.upload
    ensures IsLoading(r) <==> s.upload.file.Some?
    ensures s.upload.file.None? ==> r.analysis == AnalysisState(Error, None, Some(NoFileMessage))
  {
    if s.upload.file.None? then s.(analysis := AnalysisState(Error, None, Some(NoFileMessage)))
    else s.(analysis := AnalysisState(Loading, None, None))
  }

  /** The continuation after the `await`: it sets the analysis state on
      whatever state the hook is in by then, whatever file it now holds. */
  function AnalyzeFinish(current: HookState, outcome: Result<Api.Body, string>): (r: HookState)
    ensures r.upload == current.upload
    ensures !IsLoading(r)
    ensures r.analysis == Settled(outcome)
  {
    current.(analysis := Settled(outcome))
  }

  /** The state `analyzeImage()` leaves behind when no other callback runs
      while it waits. */
  function AnalyzeImage(s: HookState, outcome: Result<Api.Body, string>): (r: HookState)
    ensures r.upload == s.upload
    ensures !IsLoading(r)
    ensures r.analysis == AnalyzeSteps(s, outcome)[|AnalyzeSteps(s, outcome)| - 1]
  {
    var started := AnalyzeStart(s);
    if s.upload.file.None? then started else AnalyzeFinish(started, outcome)
  }

  /** `reset()` */
  function Reset(s: HookState): (r: HookState)
    ensures !IsLoading(r) && !CanAnalyze(r)
  {
    Initial
  }

  /** `removeFile()`: only the upload state is cleared. */
  function RemoveFile(s: HookState): (r: HookState)
    ensures r.analysis == s.analysis
    ensures !CanAnalyze(r)
  {
    s.(upload := IdleUpload)
  }

  /** The initial state is neither loading nor ready to analyse, and it is
      well formed. */
  lemma InitialState()
    ensures !IsLoading(Initial) && !CanAnalyze(Initial) && WellFormed(Initial)
  {
  }

  /** Every transition, and every intermediate state of an analysis, keeps
      the state well formed. */
  lemma TransitionsPreserveWellFormed(s: HookState, f: Api.File, preview: Result<string, string>,
                                      outcome: Result<Api.Body, string>)
    requires WellFormed(s)
    ensures WellFormed(HandleFileSelect(s, f, preview))
    ensures forall a :: a in AnalyzeSteps(s, outcome) ==> WellFormed(s.(analysis := a))
    ensures WellFormed(AnalyzeImage(s, outcome))
    ensures WellFormed(AnalyzeStart(s)) && WellFormed(AnalyzeFinish(s, outcome))
    ensures WellFormed(Reset(s)) && WellFormed(RemoveFile(s))
  {
    var v := Api.ValidateImageFile(f);
    if v.Invalid? {
      assert v.error != "";
    }
  }

  /** In a well-formed state the button is enabled exactly when a file is held. */
  lemma CanAnalyzeIffFileHeld(s: HookState)
    requires WellFormed(s)
    ensures CanAnalyze(s) <==> s.upload.file.Some?
  {
  }

  /** Selecting a valid file with a preview makes the hook ready to analyse
      and not loading; a refused file or a failed preview makes it not ready. */
  lemma SelectionReadiness(s: HookState, f: Api.File, preview: Result<string, string>)
    ensures CanAnalyze(HandleFileSelect(s, f, preview)) <==> Api.ValidateImageFile(f).Valid? && preview.Ok?
    ensures Api.ValidateImageFile(f).Valid? && preview.Ok? ==> !IsLoading(HandleFileSelect(s, f, preview))
  {
  }

  /** An analysis is in flight only while a file is held: the loading flag
      appears in the steps exactly when there is a file. */
  lemma LoadingOnlyWithFile(s: HookState, outcome: Result<Api.Body, string>)
    ensures (exists i :: 0 <= i < |AnalyzeSteps(s, outcome)| && AnalyzeSteps(s, outcome)[i].status == Loading)
      <==> s.upload.file.Some?
  {
    var steps := AnalyzeSteps(s, outcome);
    if s.upload.file.Some? {
      assert steps[0].status == Loading;
    }
  }

  /** Without a file nothing is sent: the outcome plays no part. */
  lemma NoFileNoCall(s: HookState, o1: Result<Api.Body, string>, o2: Result<Api.Body, string>)
    requires s.upload.file.None?
    ensures AnalyzeImage(s, o1) == AnalyzeImage(s, o2)
  {
  }

  /** `reset` forgets everything and `removeFile` followed by `reset` is a
      reset; removing twice is removing once. */
  lemma ResetAndRemove(s: HookState)
    ensures Reset(s) == Initial
    ensures Reset(RemoveFile(s)) == Reset(s)
    ensures RemoveFile(RemoveFile(s)) == RemoveFile(s)
    ensures RemoveFile(s).upload == Initial.upload
  {
  }

  /** The messages a user sees come from the validator, never the fallback:
      a refused file carries the validator's own text. */
  lemma RefusalCarriesValidatorMessage(s: HookState, f: Api.File, preview: Result<string, string>)
    requires f.mimeType !in Api.SupportedTypes
    ensures HandleFileSelect(s, f, preview).upload.error == Some(Api.TypeErrorMessage)
  {
  }

  /** The continuation of `analyzeImage()` does not look at the file: a file
      selected while a request is in flight ends up shown beside the result
      of the previous file's request. */
  lemma StaleResultLandsBesideNewFile(s: HookState, a: Api.File, pa: string, b: Api.File, pb: string,
                                      data: Api.Body)
    requires Api.ValidateImageFile(a).Valid? && Api.ValidateImageFile(b).Valid?
    ensures var inFlight := AnalyzeStart(HandleFileSelect(s, a, Ok(pa)));
      IsLoading(inFlight) && inFlight.upload.file == Some(a)
      && AnalyzeFinish(HandleFileSelect(inFlight, b, Ok(pb)), Ok(data))
         == HookState(UploadState(Success, Some(b), Some(pb), None), AnalysisState(Success, Some(data), None))
  {
  }

  /** Removing the file or resetting while a request is in flight leaves the
      hook loading with no file, and the late result still lands. */
  lemma ResultOutlivesRemoveAndReset(s: HookState, a: Api.File, pa: string, outcome: Result<Api.Body, string>)
    requires Api.ValidateImageFile(a).Valid?
    ensures var inFlight := AnalyzeStart(HandleFileSelect(s, a, Ok(pa)));
      IsLoading(RemoveFile(inFlight)) && RemoveFile(inFlight).upload.file.None?
      && AnalyzeFinish(RemoveFile(inFlight), outcome) == HookState(IdleUpload, Settled(outcome))
      && AnalyzeFinish(Reset(inFlight), outcome) == HookState(IdleUpload, Settled(outcome))
  {
  }
}
