/** `GeminiService`: markdown-response validation, the retry and backoff
    loop around the model call, and the result cache of
    `analyze_portfolio_image`.  The model, the image optimiser, the decoder
    and MD5 are collaborators given as function values. */
module GeminiService {
  import opened Base
  import opened PyText
  import Base64
  import ImageUtils
  import PortfolioModels

  /** `GEMINI_MAX_RETRIES` and `GEMINI_TIMEOUT` defaults. */
  const DefaultMaxRetries: int := 3
  const DefaultTimeout: int := 120

  const MinMarkdownLength: nat := 100
  const EmptyResponseMessage: string := "Gemini API에서 빈 응답 받음"
  const MarkdownTooShortMessage: string := "마크다운 텍스트가 너무 짧습니다."
  const MarkdownErrorPrefix: string := "마크다운 형식이 올바르지 않습니다: "
  const EncodingErrorPrefix: string := "이미지 인코딩 실패: "
  /** A representative message of the standard library's decoder for
      malformed base64; the actual text depends on the malformation. */
  const InvalidBase64Message: string := "Incorrect padding"

  /** `_validate_markdown_response`.  `None` is what the call loop returns when
      it makes no attempt.  Missing section headings only produce warnings,
      so they have no counterpart here. */
  function ValidateMarkdownResponse(text: Option<string>): (r: Result<string, string>)
    ensures r.Err? <==> text.None? || |Strip(text.value)| < MinMarkdownLength
    ensures r.Err? ==> r.error == MarkdownErrorPrefix + MarkdownTooShortMessage
    ensures r.Ok? ==> PortfolioModels.IsValidContent(r.value) && r.value == Strip(text.value)
  {
    match text
    case None => Err(MarkdownErrorPrefix + MarkdownTooShortMessage)
    case Some(t) =>
      StripSpec(t);
      if t == "" || |Strip(t)| < MinMarkdownLength then Err(MarkdownErrorPrefix + MarkdownTooShortMessage)
      else Ok(Strip(t))
  }

  /** The markdown validator and the response model's content validator agree:
      they accept the same texts and store the same value, so a validated
      markdown text passes into `AnalysisResponse` unchanged. */
  lemma MarkdownAcceptedByResponse(t: string)
    ensures ValidateMarkdownResponse(Some(t)).Ok? <==> PortfolioModels.ValidateContent(t).Ok?
    ensures ValidateMarkdownResponse(Some(t)).Ok? ==>
      PortfolioModels.ValidateContent(t) == ValidateMarkdownResponse(Some(t))
    ensures ValidateMarkdownResponse(Some(t)).Ok? ==>
      var m := ValidateMarkdownResponse(Some(t)).value;
      PortfolioModels.ValidateContent(m) == Ok(m)
  {
    if ValidateMarkdownResponse(Some(t)).Ok? {
      PortfolioModels.ValidContentIsFixedPoint(ValidateMarkdownResponse(Some(t)).value);
    }
  }

  /** One answer of the model to one request. */
  datatype Attempt =
    | Text(text: string)          // `response.text`; "" also stands for a missing response
    | Timeout                     // `asyncio.TimeoutError`
    | Failure(message: string)    // any other exception, by its message

  /** How `_call_gemini_api` ends. */
  datatype CallResult =
    | Returned(text: string)      // the stripped response text
    | NoAttempt                   // `max_retries <= 0`: the loop body never runs, `None` is returned
    | TimedOut(seconds: int)      // `TimeoutError` carrying the configured timeout
    | Raised(message: string)     // the last attempt's exception, re-raised as it was

  /** The result, the number of loop iterations, the image bytes sent to the
      model on each request, and the backoff delays slept, in order. */
  datatype CallTrace = CallTrace(result: CallResult, attempts: nat, sent: seq<Bytes>, delays: seq<nat>)

  function Pow2(k: nat): (r: nat)
    ensures r >= 1
  {
    if k == 0 then 1 else 2 * Pow2(k - 1)
  }

  /** What attempt `k` amounts to.  Each attempt base64-decodes the image
      first; `payload` is that decoding, `None` when it raises, which is an
      ordinary failure. */
  function AttemptOutcome(k: nat, payload: Option<Bytes>, respond: (nat, Bytes) -> Attempt): Attempt
  {
    match payload
    case None => Failure(InvalidBase64Message)
    case Some(p) => respond(k, p)
  }

  /** An attempt succeeds exactly when the response text is non-empty. */
  predicate Succeeds(a: Attempt)
  {
    a.Text? && a.text != ""
  }

  /** The exception a failed final attempt surfaces as. */
  function Surfaced(a: Attempt, timeout: int): CallResult
    requires !Succeeds(a)
  {
    match a
    case Timeout => TimedOut(timeout)
    case Failure(m) => Raised(m)
    case Text(_) => Raised(EmptyResponseMessage)
  }

  /** The loop of `_call_gemini_api` from iteration `k` on. */
  function CallFrom(k: nat, maxRetries: int, timeout: int, payload: Option<Bytes>,
                    respond: (nat, Bytes) -> Attempt): (t: CallTrace)
    ensures k >= maxRetries ==> t.result == NoAttempt && t.attempts == 0
    ensures k < maxRetries ==> 1 <= t.attempts <= maxRetries - k && !t.result.NoAttempt?
    ensures t.attempts > 0 ==> |t.delays| == t.attempts - 1
    ensures forall i :: 0 <= i < |t.delays| ==> t.delays[i] == Pow2(k + i)
    ensures |t.sent| == (if payload.Some? then t.attempts else 0)
    ensures forall p :: p in t.sent ==> payload == Some(p)
    // every attempt before the last one failed
    ensures forall j :: k <= j < k + t.attempts - 1 ==> !Succeeds(AttemptOutcome(j, payload, respond))
    // a text is that of the last attempt made, which succeeded
    ensures t.result.Returned? ==>
      Succeeds(AttemptOutcome(k + t.attempts - 1, payload, respond))
      && t.result.text == AttemptOutcome(k + t.attempts - 1, payload, respond).text
    // an exception comes from the final permitted attempt
    ensures (t.result.TimedOut? || t.result.Raised?) ==>
      t.attempts == maxRetries - k
      && !Succeeds(AttemptOutcome(maxRetries - 1, payload, respond))
      && t.result == Surfaced(AttemptOutcome(maxRetries - 1, payload, respond), timeout)
    decreases maxRetries - k
  {
    if k >= maxRetries then CallTrace(NoAttempt, 0, [], [])
    else
      var sentNow := match payload case None => [] case Some(p) => [p];
      var a := AttemptOutcome(k, payload, respond);
      if Succeeds(a) then CallTrace(Returned(a.text), 1, sentNow, [])
      else if k == maxRetries - 1 then CallTrace(Surfaced(a, timeout), 1, sentNow, [])
      else
        var rest := CallFrom(k + 1, maxRetries, timeout, payload, respond);
        assert k + (rest.attempts + 1) - 1 == (k + 1) + rest.attempts - 1;
        CallTrace(rest.result, rest.attempts + 1, sentNow + rest.sent, [Pow2(k)] + rest.delays)
  }

  /** `_call_gemini_api`: the image text is decoded on every attempt, and
      the text returned is the successful response stripped. */
  function CallGeminiApi(maxRetries: int, timeout: int, imageBase64: string,
                         respond: (nat, Bytes) -> Attempt): (t: CallTrace)
    ensures t.result.Returned? ==> IsStripped(t.result.text)
    ensures t.result.TimedOut? ==> t.result.seconds == timeout
  {
    var raw := CallFrom(0, maxRetries, timeout, Base64.Decode(imageBase64), respond);
    match raw.result
    case Returned(text) =>
      StripSpec(text);
      raw.(result := Returned(Strip(text)))
    case _ => raw
  }

  /** With no retries configured nothing is sent and nothing is returned. */
  lemma ZeroRetriesMakeNoCall(maxRetries: int, timeout: int, imageBase64: string,
                              respond: (nat, Bytes) -> Attempt)
    requires maxRetries <= 0
    ensures CallGeminiApi(maxRetries, timeout, imageBase64, respond) == CallTrace(NoAttempt, 0, [], [])
  {
  }

  /** The first successful attempt decides: if attempt `j` is the first to
      return text, the loop returns that text after `j - k + 1` attempts. */
  lemma {:induction false} FirstSuccessWins(k: nat, j: nat, maxRetries: int, timeout: int,
                                            payload: Option<Bytes>, respond: (nat, Bytes) -> Attempt)
    requires k <= j < maxRetries
    requires Succeeds(AttemptOutcome(j, payload, respond))
    requires forall i :: k <= i < j ==> !Succeeds(AttemptOutcome(i, payload, respond))
    ensures CallFrom(k, maxRetries, timeout, payload, respond).result
      == Returned(AttemptOutcome(j, payload, respond).text)
    ensures CallFrom(k, maxRetries, timeout, payload, respond).attempts == j - k + 1
    decreases j - k
  {
    var a := AttemptOutcome(k, payload, respond);
    if k < j {
      assert !Succeeds(a) && k != maxRetries - 1;
      FirstSuccessWins(k + 1, j, maxRetries, timeout, payload, respond);
    } else {
      assert CallFrom(k, maxRetries, timeout, payload, respond).result == Returned(a.text);
    }
  }

  /** `_call_gemini_api` returns the stripped text of the first attempt with
      a non-empty response, after exactly that many attempts. */
  lemma FirstSuccessReturnsStripped(j: nat, maxRetries: int, timeout: int, imageBase64: string,
                                    respond: (nat, Bytes) -> Attempt)
    requires j < maxRetries
    requires Succeeds(AttemptOutcome(j, Base64.Decode(imageBase64), respond))
    requires forall i :: 0 <= i < j ==> !Succeeds(AttemptOutcome(i, Base64.Decode(imageBase64), respond))
    ensures CallGeminiApi(maxRetries, timeout, imageBase64, respond).result
      == Returned(Strip(AttemptOutcome(j, Base64.Decode(imageBase64), respond).text))
    ensures CallGeminiApi(maxRetries, timeout, imageBase64, respond).attempts == j + 1
  {
    FirstSuccessWins(0, j, maxRetries, timeout, Base64.Decode(imageBase64), respond);
  }

  /** If every permitted attempt fails, the final one's exception surfaces
      after exactly `max_retries` attempts. */
  lemma {:induction false} AllFailuresSurfaceLast(k: nat, maxRetries: int, timeout: int,
                                                  payload: Option<Bytes>, respond: (nat, Bytes) -> Attempt)
    requires k < maxRetries
    requires forall i :: k <= i < maxRetries ==> !Succeeds(AttemptOutcome(i, payload, respond))
    ensures CallFrom(k, maxRetries, timeout, payload, respond).attempts == maxRetries - k
    ensures CallFrom(k, maxRetries, timeout, payload, respond).result
      == Surfaced(AttemptOutcome(maxRetries - 1, payload, respond), timeout)
    decreases maxRetries - k
  {
    if k < maxRetries - 1 {
      AllFailuresSurfaceLast(k + 1, maxRetries, timeout, payload, respond);
    }
  }

  /** The bytes placed in every model request are the bytes that were
      base64-encoded (section 4 of RFC 4648 round trip), one request per
      attempt. */
  lemma RequestCarriesEncodedBytes(maxRetries: int, timeout: int, image: Bytes,
                                   respond: (nat, Bytes) -> Attempt)
    ensures var t := CallGeminiApi(maxRetries, timeout, Base64.Encode(image), respond);
      (forall p :: p in t.sent ==> p == image) && |t.sent| == t.attempts
  {
    Base64.DecodeEncode(image);
  }

  /** The collaborators of `analyze_portfolio_image`. */
  datatype Collaborators = Collaborators(
    decode: Bytes -> ImageUtils.Decoded,           // the imaging library opening the bytes
    digest: Bytes -> string,                        // `hashlib.md5(data).hexdigest()`
    optimize: Bytes -> Result<Bytes, string>,       // `optimize_image`
    respond: (nat, Bytes) -> Attempt)               // the model, per attempt

  datatype Config = Config(maxRetries: int, timeout: int)

  /** The exceptions `analyze_portfolio_image` lets through. */
  datatype Fault =
    | ImageRejected(message: string)    // `ValueError` from `validate_image`
    | EncodingFailed(message: string)   // `ValueError` from `_encode_image_to_base64`
    | ApiTimeout(seconds: int)          // `TimeoutError` from the call loop
    | ApiFailed(message: string)        // the last attempt's exception
    | InvalidMarkdown(message: string)  // `ValueError` from `_validate_markdown_response`

  /** The markdown cache: MD5 hex digest of the raw upload -> validated text. */
  type Cache = map<string, string>

  datatype Analysis = Analysis(outcome: Result<string, Fault>, cache: Cache, attempts: nat, sent: seq<Bytes>)

  /** Every cached value is a validated markdown text. */
  predicate CacheValid(cache: Cache)
  {
    forall key :: key in cache ==> PortfolioModels.IsValidContent(cache[key])
  }

  /** The call loop run on the optimised bytes of an upload. */
  function CallOnOptimized(optimized: Bytes, cfg: Config, env: Collaborators): CallTrace
  {
    CallGeminiApi(cfg.maxRetries, cfg.timeout, Base64.Encode(optimized), env.respond)
  }

  /** Everything after a cache miss: encode, call, validate, store. */
  function AnalyzeMiss(cache: Cache, data: Bytes, useCache: bool, cfg: Config, env: Collaborators): (r: Analysis)
    // an optimiser failure is an encoding error, raised before any call
    ensures env.optimize(data).Err? ==>
      r == Analysis(Err(EncodingFailed(EncodingErrorPrefix + env.optimize(data).error)), cache, 0, [])
    // otherwise each way the call loop ends has its own outcome
    ensures env.optimize(data).Ok? ==>
      var t := CallOnOptimized(env.optimize(data).value, cfg, env);
      r.attempts == t.attempts && r.sent == t.sent
      && (t.result.TimedOut? ==> r.outcome == Err(ApiTimeout(cfg.timeout)))
      && (t.result.Raised? ==> r.outcome == Err(ApiFailed(t.result.message)))
      && (t.result.NoAttempt? ==> r.outcome == Err(InvalidMarkdown(MarkdownErrorPrefix + MarkdownTooShortMessage)))
      // a returned text is accepted iff it is long enough, and is then the result
      && (t.result.Returned? ==> (r.outcome.Ok? <==> |t.result.text| >= MinMarkdownLength))
      && (r.outcome.Ok? ==> t.result == Returned(r.outcome.value))
    ensures r.outcome.Err? ==> r.cache == cache
    ensures r.outcome.Ok? ==> PortfolioModels.IsValidContent(r.outcome.value)
    ensures r.outcome.Ok? ==> r.cache == if useCache then cache[env.digest(data) := r.outcome.value] else cache
    ensures forall p :: p in r.sent ==> env.optimize(data) == Ok(p)
    ensures |r.sent| <= r.attempts
    ensures cfg.maxRetries >= 0 ==> r.attempts <= cfg.maxRetries
  {
    match env.optimize(data)
    case Err(m) => Analysis(Err(EncodingFailed(EncodingErrorPrefix + m)), cache, 0, [])
    case Ok(optimized) =>
      var t := CallOnOptimized(optimized, cfg, env);
      RequestCarriesEncodedBytes(cfg.maxRetries, cfg.timeout, optimized, env.respond);
      match t.result
      case TimedOut(s) => Analysis(Err(ApiTimeout(s)), cache, t.attempts, t.sent)
      case Raised(m) => Analysis(Err(ApiFailed(m)), cache, t.attempts, t.sent)
      case Returned(text) =>
        StripOfStripped(text);
        Store(cache, data, useCache, env, Some(text), t)
      case NoAttempt => Store(cache, data, useCache, env, None, t)
  }

  /** Validates what the call loop returned and, when caching, stores it. */
  function Store(cache: Cache, data: Bytes, useCache: bool, env: Collaborators, text: Option<string>,
                 t: CallTrace): (r: Analysis)
    // the stored result is the model's text stripped, when long enough
    ensures r.outcome.Ok? <==> text.Some? && |Strip(text.value)| >= MinMarkdownLength
    ensures r.outcome.Ok? ==> r.outcome.value == Strip(text.value)
    ensures r.outcome.Err? ==> r.outcome.error == InvalidMarkdown(MarkdownErrorPrefix + MarkdownTooShortMessage)
    ensures r.outcome.Err? ==> r.cache == cache
    ensures r.outcome.Ok? ==> PortfolioModels.IsValidContent(r.outcome.value)
    ensures r.outcome.Ok? ==> r.cache == if useCache then cache[env.digest(data) := r.outcome.value] else cache
    ensures r.sent == t.sent && r.attempts == t.attempts
  {
    match ValidateMarkdownResponse(text)
    case Err(m) => Analysis(Err(InvalidMarkdown(m)), cache, t.attempts, t.sent)
    case Ok(markdown) =>
      var cache' := if useCache then cache[env.digest(data) := markdown] else cache;
      Analysis(Ok(markdown), cache', t.attempts, t.sent)
  }

  /** A valid upload whose digest the cache cannot answer for. */
  predicate Miss(cache: Cache, data: Bytes, useCache: bool, env: Collaborators)
  {
    ImageUtils.ValidateImage(data, env.decode).Ok? && !(useCache && env.digest(data) in cache)
  }

  /** `analyze_portfolio_image`: validate, look up, call, validate, store. */
  function AnalyzePortfolioImage(cache: Cache, data: Bytes, useCache: bool, cfg: Config,
                                 env: Collaborators): (r: Analysis)
    // validation comes first, whatever the cache holds
    ensures ImageUtils.ValidateImage(data, env.decode).Err? ==>
      r == Analysis(Err(ImageRejected(ImageUtils.Message(ImageUtils.ValidateImage(data, env.decode).error))), cache, 0, [])
    // a hit returns the stored text unchanged without calling the model
    ensures ImageUtils.ValidateImage(data, env.decode).Ok? && useCache && env.digest(data) in cache ==>
      r == Analysis(Ok(cache[env.digest(data)]), cache, 0, [])
    // any failure leaves the cache as it was
    ensures r.outcome.Err? ==> r.cache == cache
    // only a successful, validated result is stored, and only when caching
    ensures r.cache != cache ==>
      useCache && r.outcome.Ok? && r.cache == cache[env.digest(data) := r.outcome.value]
      && PortfolioModels.IsValidContent(r.outcome.value)
    // the model only ever sees the optimised bytes
    ensures forall p :: p in r.sent ==> env.optimize(data) == Ok(p)
    // on a miss, an optimiser failure is an encoding error
    ensures Miss(cache, data, useCache, env) && env.optimize(data).Err? ==>
      r.outcome == Err(EncodingFailed(EncodingErrorPrefix + env.optimize(data).error))
    // on a miss, a fresh result is the text the call loop returned for the optimised bytes
    ensures Miss(cache, data, useCache, env) && r.outcome.Ok? ==>
      env.optimize(data).Ok?
      && CallOnOptimized(env.optimize(data).value, cfg, env).result == Returned(r.outcome.value)
  {
    match ImageUtils.ValidateImage(data, env.decode)
    case Err(e) => Analysis(Err(ImageRejected(ImageUtils.Message(e))), cache, 0, [])
    case Ok(_) =>
      if useCache && env.digest(data) in cache then Analysis(Ok(cache[env.digest(data)]), cache, 0, [])
      else AnalyzeMiss(cache, data, useCache, cfg, env)
  }

  /** On a miss, the first attempt whose answer has text decides: its text,
      stripped, is returned and, when caching, stored under the upload's
      digest if it is long enough; otherwise it is an invalid-markdown error
      and the cache is untouched. */
  lemma FreshAnalysisIsModelText(cache: Cache, data: Bytes, useCache: bool, cfg: Config, env: Collaborators,
                                 optimized: Bytes, j: nat)
    requires Miss(cache, data, useCache, env) && env.optimize(data) == Ok(optimized)
    requires j < cfg.maxRetries
    requires Succeeds(env.respond(j, optimized))
    requires forall i :: 0 <= i < j ==> !Succeeds(env.respond(i, optimized))
    ensures var r := AnalyzePortfolioImage(cache, data, useCache, cfg, env);
      var x := Strip(env.respond(j, optimized).text);
      r.attempts == j + 1
      && (|x| >= MinMarkdownLength ==>
            r.outcome == Ok(x) && r.cache == (if useCache then cache[env.digest(data) := x] else cache))
      && (|x| < MinMarkdownLength ==>
            r.outcome == Err(InvalidMarkdown(MarkdownErrorPrefix + MarkdownTooShortMessage)) && r.cache == cache)
  {
    var encoded := Base64.Encode(optimized);
    Base64.DecodeEncode(optimized);
    FirstSuccessReturnsStripped(j, cfg.maxRetries, cfg.timeout, encoded, env.respond);
    StripIdempotent(env.respond(j, optimized).text);
  }

  /** On a miss, a model that times out on every attempt is asked
      `max_retries` times and the analysis fails with the configured timeout,
      leaving the cache alone. */
  lemma AllTimeoutsFailWithTimeout(cache: Cache, data: Bytes, useCache: bool, cfg: Config, env: Collaborators,
                                   optimized: Bytes)
    requires Miss(cache, data, useCache, env) && env.optimize(data) == Ok(optimized)
    requires cfg.maxRetries >= 1
    requires forall i :: 0 <= i < cfg.maxRetries ==> env.respond(i, optimized) == Timeout
    ensures var r := AnalyzePortfolioImage(cache, data, useCache, cfg, env);
      r.outcome == Err(ApiTimeout(cfg.timeout)) && r.cache == cache && r.attempts == cfg.maxRetries
  {
    var encoded := Base64.Encode(optimized);
    Base64.DecodeEncode(optimized);
    AllFailuresSurfaceLast(0, cfg.maxRetries, cfg.timeout, Some(optimized), env.respond);
  }

  /** The cache only ever holds validated text, so every result — fresh or
      cached — is a valid `AnalysisResponse` content. */
  lemma AnalyzePreservesCacheValid(cache: Cache, data: Bytes, useCache: bool, cfg: Config, env: Collaborators)
    requires CacheValid(cache)
    ensures var r := AnalyzePortfolioImage(cache, data, useCache, cfg, env);
      CacheValid(r.cache) && (r.outcome.Ok? ==> PortfolioModels.IsValidContent(r.outcome.value))
  {
  }

  /** A second request for the same bytes is served from the cache: same
      text, no model call, cache unchanged, whatever the model would say. */
  lemma RepeatRequestHitsCache(cache: Cache, data: Bytes, cfg: Config, env: Collaborators,
                               cfg2: Config, env2: Collaborators)
    requires AnalyzePortfolioImage(cache, data, true, cfg, env).outcome.Ok?
    requires env2.decode == env.decode && env2.digest == env.digest
    ensures var first := AnalyzePortfolioImage(cache, data, true, cfg, env);
      AnalyzePortfolioImage(first.cache, data, true, cfg2, env2) == Analysis(first.outcome, first.cache, 0, [])
  {
  }

  /** With caching switched off the cache is never read nor written. */
  lemma NoCacheNoStore(cache: Cache, data: Bytes, cfg: Config, env: Collaborators)
    ensures AnalyzePortfolioImage(cache, data, false, cfg, env).cache == cache
    ensures AnalyzePortfolioImage(cache, data, false, cfg, env) == AnalyzePortfolioImage(map[], data, false, cfg, env).(cache := cache)
  {
  }
}
