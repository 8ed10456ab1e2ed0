/** The browser-side API helpers of `frontend/src/utils/api.ts`: the file
    check run before upload, and the decisions `analyzePortfolio` takes around
    its single POST.  The request itself is an input: the model receives what
    `fetch` produced (a status and a body, or a thrown error) and computes the
    value or the `ApiException` the function ends with.  A parsed body is
    represented by the two fields the code reads, `error` and `content`. */
module Api {
  import opened Base
  import Decimal
  import ImageUtils

  /** The parts of a browser `File` the checks read. */
  datatype File = File(name: string, mimeType: string, size: nat)

  const SupportedTypes: seq<string> := ["image/png", "image/jpeg", "image/jpg"]
  const MaxSize: nat := 10 * 1024 * 1024

  const TypeErrorMessage: string := "PNG, JPEG 파일만 업로드 가능합니다."
  const SizeErrorMessage: string := "파일 크기는 10MB 이하만 허용됩니다."

  /** `{ isValid, error? }` */
  datatype Validation = Valid | Invalid(error: string)

  /** `validateImageFile`: the type check, exact and case-sensitive, comes
      before the size check. */
  function ValidateImageFile(f: File): (r: Validation)
    ensures r.Valid? <==> f.mimeType in SupportedTypes && f.size <= MaxSize
    ensures r.Invalid? ==> r.error == (if f.mimeType in SupportedTypes then SizeErrorMessage else TypeErrorMessage)
  {
    if f.mimeType !in SupportedTypes then Invalid(TypeErrorMessage)
    else if f.size > MaxSize then Invalid(SizeErrorMessage)
    else Valid
  }

  /** A file of the wrong type reports the type error however large it is;
      11 MiB of JPEG is too large, exactly 10 MiB is not. */
  lemma FileCheckExamples(name: string, size: nat)
    ensures ValidateImageFile(File(name, "image/gif", size)) == Invalid(TypeErrorMessage)
    ensures ValidateImageFile(File(name, "image/jpeg", 11 * 1024 * 1024)) == Invalid(SizeErrorMessage)
    ensures ValidateImageFile(File(name, "image/jpeg", 10 * 1024 * 1024)) == Valid
    ensures ValidateImageFile(File(name, "image/png", 4)) == Valid
  {
    assert "image/gif" != SupportedTypes[0] && "image/gif" != SupportedTypes[1];
  }

  /** What the browser accepts the server accepts too: the same ceiling of
      10 MiB, and a type the server's default list admits. */
  lemma AcceptedFilesPassServerChecks(f: File)
    requires ValidateImageFile(f).Valid?
    ensures ImageUtils.IsSupportedImageType(f.mimeType, ImageUtils.DefaultAllowedMimeTypes)
    ensures f.size <= ImageUtils.MaxFileSize
  {
    ImageUtils.DefaultTypesAreNormalized();
    ImageUtils.DefaultSupportedTypes(f.mimeType);
    var d := ImageUtils.DefaultAllowedMimeTypes;
    assert f.mimeType == d[0] || f.mimeType == d[1] || f.mimeType == d[2];
  }

  /** The converse fails: the browser compares case-sensitively, the server
      lower-cases first, so an upper-case type is stopped only in the browser. */
  lemma BrowserStricterOnCase(name: string, size: nat)
    ensures ValidateImageFile(File(name, "IMAGE/JPEG", size)) == Invalid(TypeErrorMessage)
    ensures ImageUtils.IsSupportedImageType("IMAGE/JPEG", ImageUtils.DefaultAllowedMimeTypes)
  {
    assert "IMAGE/JPEG"[0] != SupportedTypes[0][0];
    assert "IMAGE/JPEG"[0] != SupportedTypes[1][0];
    assert "IMAGE/JPEG"[0] != SupportedTypes[2][0];
    ImageUtils.UpperCaseTypeAccepted();
  }

  /** `ApiException(message, status)` */
  datatype ApiException = ApiException(message: string, status: int)

  const NoFilesMessage: string := "분석할 파일이 없습니다."
  const TooManyFilesMessage: string := "최대 5개의 파일만 업로드 가능합니다."
  const BadFormatMessage: string := "잘못된 응답 형식"
  const TimeoutMessage: string := "요청 시간이 초과되었습니다. 다시 시도해 주세요."
  const NetworkMessage: string := "네트워크 오류가 발생했습니다. 인터넷 연결을 확인해 주세요."
  const MaxUploadFiles: nat := 5

  /** The JSON values a response field can hold, as JavaScript sees them;
      numbers are integers here. */
  datatype JsValue = Undefined | Null | Bool(b: bool) | Num(n: int) | Str(s: string) | Obj

  /** JavaScript truthiness. */
  predicate Truthy(v: JsValue)
  {
    match v
    case Undefined => false
    case Null => false
    case Bool(b) => b
    case Num(n) => n != 0
    case Str(s) => s != ""
    case Obj => true
  }

  /** `String(v)`, the text `new Error(v)` keeps, for a truthy value. */
  function JsString(v: JsValue): string
    requires Truthy(v)
  {
    match v
    case Bool(_) => "true"
    case Num(n) => Decimal.IntToDecimal(n)
    case Str(s) => s
    case Obj => "[object Object]"
  }

  /** What `response.json()` makes of a body.  `NotJson` rejects; `JsonNull`
      parses, but reading a field of it throws a `TypeError`; every other
      JSON value reads its `error` and `content` fields (`Undefined` when
      absent, as on a number or a string). */
  datatype Body = NotJson | JsonNull | JsonObject(error: JsValue, content: JsValue)

  /** How the `fetch` call ended: a response, or a thrown error by name
      (`AbortError` when the abort timer fired, `TypeError` when the network
      failed). */
  datatype FetchOutcome = Responded(status: int, body: Body) | Threw(name: string)

  /** What reaches the `catch` block. */
  datatype Thrown = RaisedApi(e: ApiException) | RaisedOther(name: string)

  predicate IsOkStatus(status: int)
  {
    200 <= status <= 299
  }

  /** The checks made before any request is built. */
  function Preflight(files: Option<seq<File>>): (r: Option<ApiException>)
    ensures r.Some? <==> files.None? || |files.value| == 0 || |files.value| > MaxUploadFiles
    ensures r.Some? ==> r.value.status == 400
  {
    if files.None? || |files.value| == 0 then Some(ApiException(NoFilesMessage, 400))
    else if |files.value| > MaxUploadFiles then Some(ApiException(TooManyFilesMessage, 400))
    else None
  }

  /** The message of the exception thrown for a non-OK response. */
  function ErrorResponseMessage(status: int, body: Body): string
  {
    match body
    case JsonObject(err, _) => if Truthy(err) then JsString(err) else "HTTP " + Decimal.IntToDecimal(status)
    case _ => "서버 오류 (" + Decimal.IntToDecimal(status) + ")"
  }

  /** `data.content` is a non-empty string: the check made on a parsed
      success body. */
  predicate HasContent(body: Body)
  {
    body.JsonObject? && body.content.Str? && body.content.s != ""
  }

  /** The body of the `try` block once `fetch` has returned: the parsed
      `data` itself is returned. */
  function HandleResponse(status: int, body: Body): (r: Result<Body, Thrown>)
    // success returns the parsed body, which carries a non-empty string content
    ensures r.Ok? <==> IsOkStatus(status) && HasContent(body)
    ensures r.Ok? ==> r.value == body
    // a non-OK status is an ApiException carrying that status
    ensures !IsOkStatus(status) ==>
      r == Err(RaisedApi(ApiException(ErrorResponseMessage(status, body), status)))
    // an OK JSON object without usable content is the bad-format 500
    ensures IsOkStatus(status) && body.JsonObject? && !HasContent(body) ==>
      r == Err(RaisedApi(ApiException(BadFormatMessage, 500)))
    // an OK body that does not parse, or whose fields cannot be read, throws a non-ApiException
    ensures IsOkStatus(status) && !body.JsonObject? ==> r.Err? && r.error.RaisedOther?
  {
    if !IsOkStatus(status) then Err(RaisedApi(ApiException(ErrorResponseMessage(status, body), status)))
    else
      match body
      case NotJson => Err(RaisedOther("SyntaxError"))
      case JsonNull => Err(RaisedOther("TypeError"))
      case JsonObject(_, content) =>
        if content.Str? && content.s != "" then Ok(body)
        else Err(RaisedApi(ApiException(BadFormatMessage, 500)))
  }

  /** The `catch` block: a timeout becomes 408, an `ApiException` passes
      through as it is, anything else becomes a network error with status 0. */
  function Classify(t: Thrown): (e: ApiException)
    ensures t.RaisedOther? && t.name == "AbortError" ==> e == ApiException(TimeoutMessage, 408)
    ensures t.RaisedApi? ==> e == t.e
    ensures t.RaisedOther? && t.name != "AbortError" ==> e == ApiException(NetworkMessage, 0)
  {
    match t
    case RaisedApi(e) => e
    case RaisedOther(name) =>
      if name == "AbortError" then ApiException(TimeoutMessage, 408) else ApiException(NetworkMessage, 0)
  }

  /** `analyzePortfolio`: the parsed response, or the exception it throws. */
  function AnalyzePortfolio(files: Option<seq<File>>, server: FetchOutcome): (r: Result<Body, ApiException>)
    // too few or too many files are refused with 400 whatever the server would do
    ensures Preflight(files).Some? ==> r == Err(Preflight(files).value)
    // a success is the server's parsed body, and it holds a non-empty string content
    ensures r.Ok? ==> server.Responded? && r.value == server.body && HasContent(r.value)
    // an OK JSON object without usable content is reported as the bad-format 500
    ensures (Preflight(files).None? && server.Responded? && IsOkStatus(server.status)
             && server.body.JsonObject? && !HasContent(server.body)) ==>
      r == Err(ApiException(BadFormatMessage, 500))
    // a non-OK response keeps its status, and its message follows the body
    ensures Preflight(files).None? && server.Responded? && !IsOkStatus(server.status) ==>
      r == Err(ApiException(ErrorResponseMessage(server.status, server.body), server.status))
    ensures Preflight(files).None? && server.Threw? ==>
      r.Err? && (r.error.status == 408 <==> server.name == "AbortError")
    // a thrown fetch is the timeout exception after an abort, the network exception otherwise
    ensures Preflight(files).None? && server.Threw? && server.name == "AbortError" ==>
      r == Err(ApiException(TimeoutMessage, 408))
    ensures Preflight(files).None? && server.Threw? && server.name != "AbortError" ==>
      r == Err(ApiException(NetworkMessage, 0))
  {
    match Preflight(files)
    case Some(e) => Err(e)
    case None =>
      var inner := match server
        case Threw(name) => Err(RaisedOther(name))
        case Responded(status, body) => HandleResponse(status, body);
      match inner
      case Ok(data) => Ok(data)
      case Err(t) => Err(Classify(t))
  }

  /** A call succeeds exactly when the file count is acceptable and an OK
      response carries a non-empty string `content`; it returns that body. */
  lemma SuccessIffWellFormed(files: Option<seq<File>>, server: FetchOutcome, data: Body)
    ensures AnalyzePortfolio(files, server) == Ok(data) <==>
      Preflight(files).None? && server.Responded? && IsOkStatus(server.status)
      && server.body == data && HasContent(data)
  {
  }

  /** The file-count checks need no server: the outcome is the same whatever
      `fetch` would have produced. */
  lemma PreflightNeedsNoServer(files: Option<seq<File>>, s1: FetchOutcome, s2: FetchOutcome)
    requires Preflight(files).Some?
    ensures AnalyzePortfolio(files, s1) == AnalyzePortfolio(files, s2)
  {
  }

  /** Where an error status comes from: the pre-flight 400, the timeout 408,
      the network 0, the malformed-success 500, or the server's own status. */
  lemma ErrorStatusOrigin(files: Option<seq<File>>, server: FetchOutcome)
    ensures var r := AnalyzePortfolio(files, server);
      r.Err? ==>
        r.error.status in {400, 408, 0, 500}
        || (server.Responded? && !IsOkStatus(server.status) && r.error.status == server.status)
  {
  }

  /** The three message forms of a non-OK response. */
  lemma ErrorMessageForms(status: int, v: JsValue, c: JsValue)
    ensures ErrorResponseMessage(status, NotJson) == "서버 오류 (" + Decimal.IntToDecimal(status) + ")"
    ensures ErrorResponseMessage(status, JsonNull) == "서버 오류 (" + Decimal.IntToDecimal(status) + ")"
    ensures Truthy(v) ==> ErrorResponseMessage(status, JsonObject(v, c)) == JsString(v)
    ensures v.Str? && v.s != "" ==> ErrorResponseMessage(status, JsonObject(v, c)) == v.s
    ensures !Truthy(v) ==> ErrorResponseMessage(status, JsonObject(v, c)) == "HTTP " + Decimal.IntToDecimal(status)
  {
  }

  /** An OK response whose body is not usable JSON is reported as a network
      error, status 0, not as a server error. */
  lemma UnparsableSuccessIsNetworkError(files: Option<seq<File>>, status: int)
    requires Preflight(files).None? && IsOkStatus(status)
    ensures AnalyzePortfolio(files, Responded(status, NotJson)) == Err(ApiException(NetworkMessage, 0))
    ensures AnalyzePortfolio(files, Responded(status, JsonNull)) == Err(ApiException(NetworkMessage, 0))
  {
  }
}
