# Portfolio Evaluation MVP — a Dafny model of its validation and decision logic

The system takes screenshots of stock portfolios and returns an AI analysis in
markdown. A FastAPI backend validates each uploaded image. It optimises the image,
base64-encodes it and sends it to a Gemini model with retries and exponential
backoff. It then validates the markdown it gets back and caches that text by
the MD5 digest of the upload. A Next.js frontend checks files before upload and
calls the backend. It keeps an upload/analysis state machine in a React hook and
renders the result in tabs with accordions, a sortable score table and
colour-coded score badges.

The model covers the decision logic of that pipeline as pure Dafny functions
over immutable datatypes:

- `base.dfy` — `Option`, `Result`, bytes.
- `py_text.dfy` — the Python `str` behaviour the backend relies on: `strip()`
  with Python's whitespace set and ASCII `lower()`.
- `decimal.dfy` — decimal notation of status codes as the browser's template
  literals write them, checked against the value a digit string denotes.
- `base64.dfy` — base64 per section 4 of RFC 4648, with the round trip
  `Decode(Encode(bs)) == Some(bs)` proved.
- `image_utils.dfy` — `validate_image` as an ordered, short-circuiting check
  chain over an abstract decoder; `is_supported_image_type` and
  `guess_content_type`.
- `portfolio_models.dfy` — `AnalysisResponse` and its `validate_content`
  validator.
- `gemini_service.dfy` — `_validate_markdown_response`, the retry/backoff
  loop of `_call_gemini_api`, and the validate → cache lookup → call →
  validate → store discipline of `analyze_portfolio_image`. The model, the
  optimiser, the decoder and MD5 are function-valued parameters.
- `api.dfy` — `validateImageFile`, and the pre-flight checks, response
  handling and error classification of `analyzePortfolio`. The `fetch`
  outcome is an input.
- `use_portfolio_analysis.dfy` — the `usePortfolioAnalysis` hook as a state
  machine with a well-formedness invariant kept by every transition.
  `analyzeImage` is split at its `await` into a start and a finish
  transition, so other callbacks can run in between.
- `image_uploader.dfy` — the merge-and-truncate-to-5 rule and the picker and
  drop guards.
- `score_buckets.dfy`, `key_stock_analysis_tab.dfy`, `deep_dive_tab.dfy`,
  `all_stock_scores_tab.dfy` — the score clamp and colour bands, the two
  accordion kinds, the sort-state machine and a stable sort of numeric columns.

## Model

| member | source | states |
|---|---|---|
| PyText.StripLeft | backend/models/portfolio.py:38 | `lstrip()` removes only whitespace, and what remains starts with a non-whitespace character or is empty |
| PyText.StripRight | backend/models/portfolio.py:38 | `rstrip()` removes only whitespace, and what remains ends with a non-whitespace character or is empty |
| PyText.StripLeftIsSuffix | backend/models/portfolio.py:38 | `lstrip()` only removes a prefix: what remains is a suffix of the input |
| PyText.StripRightIsPrefix | backend/models/portfolio.py:38 | `rstrip()` only removes a suffix: what remains is a prefix of the input |
| PyText.StripSpec | backend/models/portfolio.py:36-38 | `strip()` yields a contiguous slice of the input with no leading or trailing whitespace, never longer than the input |
| PyText.StripOfStripped | backend/models/portfolio.py:38 | text with no surrounding whitespace is left unchanged by `strip()` |
| PyText.StripIdempotent | backend/models/portfolio.py:38 | stripping twice is the same as stripping once |
| PyText.LowerOfLowercase | backend/utils/image_utils.py:158 | text without capital letters is its own lower-case form |
| PyText.LowerIdempotent | backend/utils/image_utils.py:158 | lower-casing is idempotent |
| Decimal.NatToDecimal | frontend/src/utils/api.ts:60 | the decimal notation of a status code is a canonical digit string (digits only, no leading zero), "0" exactly for zero |
| Decimal.NatToDecimalValue | frontend/src/utils/api.ts:60 | the digits of the notation denote the number written |
| Decimal.DecimalValueAtLeastFirst | frontend/src/utils/api.ts:60 | a digit string is worth at least its leading digit |
| Decimal.DecimalOfValue | frontend/src/utils/api.ts:60 | every canonical digit string is the notation of the number it denotes, so notation and value are mutually inverse |
| Decimal.IntToDecimal | frontend/src/utils/api.ts:60 | a non-negative status is written as canonical digits denoting it; a negative one as '-' followed by canonical digits denoting its magnitude |
| Base64.Value | backend/services/gemini_service.py:149 | the decoder's alphabet lookup inverts the encoder's: a character with a value is the encoding of that value |
| Base64.ValueOfChar | backend/services/gemini_service.py:149 | every sextet's character decodes back to that sextet |
| Base64.EncodeLength | backend/services/gemini_service.py:136 | the encoding of n bytes has 4·⌈n/3⌉ characters, a multiple of 4 |
| Base64.DecodeGroup | backend/services/gemini_service.py:149 | a decoded quartet yields 1 to 3 bytes, and fewer than 3 only with padding |
| Base64.DecodeEncodeGroup | backend/services/gemini_service.py:136-149 | a full 3-byte group survives encoding then decoding |
| Base64.DecodeEncodeOne | backend/services/gemini_service.py:136-149 | a trailing single byte (`==` padding) survives the round trip |
| Base64.DecodeEncodeTwo | backend/services/gemini_service.py:136-149 | a trailing byte pair (`=` padding) survives the round trip |
| Base64.DecodeSingleGroup | backend/services/gemini_service.py:149 | a lone valid quartet decodes to its group |
| Base64.DecodeFullGroupThenRest | backend/services/gemini_service.py:149 | decoding distributes over a full quartet followed by a decodable rest |
| Base64.DecodeEncode | backend/services/gemini_service.py:131-151 | the bytes decoded on each attempt are exactly the optimised bytes that were encoded |
| Base64.EncodeAlphabet | backend/services/gemini_service.py:136 | every encoded character is an alphabet character or padding |
| ImageUtils.Inspect | backend/utils/image_utils.py:41-62 | the decode-block checks in order: undecodable, then format, then too small, then too large; no rejection iff the decoded image is acceptable |
| ImageUtils.ValidateImage | backend/utils/image_utils.py:21-68 | size error iff longer than 10 MiB, empty error iff 0 bytes, success iff size is in range and the decoded image is acceptable; every decode-block rejection is re-raised as an invalid-image error with its reason |
| ImageUtils.SizeChecksPrecedeDecoding | backend/utils/image_utils.py:34-38 | oversized or empty input gets the same verdict whatever the decoder says |
| ImageUtils.ModeIsIgnored | backend/utils/image_utils.py:55-59 | the colour mode never changes the verdict |
| ImageUtils.InvalidImageKeepsReason | backend/utils/image_utils.py:61-62 | a re-raised message is the invalid-image prefix followed by the inner reason |
| ImageUtils.AdmissionBoundaries | backend/utils/image_utils.py:34-53 | 11 MiB is too large, 0 bytes is empty, 50×100000 is too small, 100×100, 10000×10000 and 500×500 pass, GIF is an unsupported format |
| ImageUtils.NormalizedTypes | backend/utils/image_utils.py:158 | the configured types compare stripped and lower-cased, position by position |
| ImageUtils.SupportedTypeSpec | backend/utils/image_utils.py:156-158 | a type is supported iff its lower-cased form equals some configured type stripped and lower-cased |
| ImageUtils.NormalizedAsWritten | backend/utils/image_utils.py:17 | a configured type with no surrounding space and no capitals compares as written and is its own lower-case form |
| ImageUtils.DefaultTypesAreNormalized | backend/utils/image_utils.py:17 | normalising the default configuration leaves it unchanged; each default type is lower case |
| ImageUtils.DefaultSupportedTypes | backend/utils/image_utils.py:156-158 | with the defaults, a type is supported iff its lower-case form is image/jpeg, image/png or image/jpg |
| ImageUtils.UpperCaseTypeAccepted | backend/utils/image_utils.py:156-158 | "IMAGE/JPEG" is accepted |
| ImageUtils.NonImageTypesRefused | backend/utils/image_utils.py:156-158 | "" and "text/plain" are refused |
| ImageUtils.AfterLastDot | backend/utils/image_utils.py:166 | the extension contains no dot and is no longer than the name |
| ImageUtils.AfterLastDotIsSuffix | backend/utils/image_utils.py:166 | the extension is a suffix of the name, preceded by a dot unless it is the whole name |
| ImageUtils.GuessContentType | backend/utils/image_utils.py:161-173 | an empty name has no type; any guessed type is image/jpeg or image/png |
| ImageUtils.AfterLastDotOfJoin | backend/utils/image_utils.py:166 | the extension of `prefix.ext` is `ext` whatever the prefix holds |
| ImageUtils.AfterLastDotNoDot | backend/utils/image_utils.py:166 | a dot-free name is its own extension |
| ImageUtils.GuessByExtension | backend/utils/image_utils.py:166-173 | the guess depends only on the lower-cased extension |
| ImageUtils.GuessWithoutDot | backend/utils/image_utils.py:166-173 | a dot-free name is looked up as a whole |
| ImageUtils.GuessUpperCaseJpg | backend/utils/image_utils.py:166-173 | "TEST.JPG" gives image/jpeg |
| ImageUtils.GuessUnknownExtension | backend/utils/image_utils.py:166-173 | "document.txt" gives no type |
| ImageUtils.GuessNoExtension | backend/utils/image_utils.py:166-173 | "no_extension" gives no type |
| PortfolioModels.ValidateContent | backend/models/portfolio.py:35-38 | accepted iff at least 100 characters remain after stripping; the stored value is the stripped text, with no surrounding whitespace |
| PortfolioModels.ValidateIgnoresSurroundingSpace | backend/models/portfolio.py:36-38 | s and strip(s) get the same verdict and the same stored text |
| PortfolioModels.ValidateIdempotent | backend/models/portfolio.py:36-38 | re-validating stored content accepts it unchanged |
| PortfolioModels.ValidContentIsFixedPoint | backend/models/portfolio.py:35-38 | a string is a valid stored content iff validation accepts it unchanged |
| PortfolioModels.MakeAnalysisResponse | backend/models/portfolio.py:26-38 | the response exists iff its content validates, otherwise the too-short message; it stores the content stripped, with the processing time and request id as given; an omitted image count is 1 |
| GeminiService.ValidateMarkdownResponse | backend/services/gemini_service.py:202-228 | fails iff the text is absent or under 100 characters after stripping, with the wrapped too-short message; success returns the stripped text |
| GeminiService.MarkdownAcceptedByResponse | backend/services/gemini_service.py:206-224 | the markdown validator and the response validator accept the same texts and store the same value, so validated markdown passes into the response unchanged |
| GeminiService.CallFrom | backend/services/gemini_service.py:143-200 | at most `max_retries` attempts; every attempt before the last failed; a result is the text of the first attempt with non-empty text; after failed attempt k, other than the last, the delay is 2^k; a timeout or error surfaces only from the final attempt; each attempt sends the decoded payload |
| GeminiService.ZeroRetriesMakeNoCall | backend/services/gemini_service.py:143 | with `max_retries <= 0` nothing is sent and nothing is returned |
| GeminiService.FirstSuccessWins | backend/services/gemini_service.py:178-181 | if attempt j is the first from k on with non-empty text, the loop from k returns that text after j-k+1 attempts |
| GeminiService.CallGeminiApi | backend/services/gemini_service.py:141-200 | a text returned by `_call_gemini_api` has no surrounding whitespace; a timeout carries the configured number of seconds |
| GeminiService.FirstSuccessReturnsStripped | backend/services/gemini_service.py:143-181 | if attempt j is the first with non-empty text, `_call_gemini_api` returns that text stripped after j+1 attempts |
| GeminiService.AllFailuresSurfaceLast | backend/services/gemini_service.py:185-200 | if every attempt fails, all of them are made and the final one's exception surfaces: a timeout as `TimeoutError`, an empty text as the empty-response error, anything else unchanged |
| GeminiService.RequestCarriesEncodedBytes | backend/services/gemini_service.py:131-151 | every model request carries exactly the optimised bytes, one request per attempt |
| GeminiService.AnalyzeMiss | backend/services/gemini_service.py:261-278 | on a miss: an optimiser failure is an encoding error with no call; a timeout becomes the API timeout error with the configured seconds; another raised error becomes the API error with its message; no attempt becomes the invalid-markdown error; a returned text is the result iff it is at least 100 characters, and a result is always the call loop's returned text; failures leave the cache alone, and a result is stored under the raw bytes' digest only when caching |
| GeminiService.Store | backend/services/gemini_service.py:270-276 | the result exists iff the model's text, stripped, has at least 100 characters, and it is that stripped text; otherwise the invalid-markdown error; it is stored under the upload's digest only when caching |
| GeminiService.AnalyzePortfolioImage | backend/services/gemini_service.py:230-282 | validation precedes lookup; a hit returns the stored text with no call and no change; any failure leaves the cache unchanged; the cache changes only by storing validated text under the raw bytes' digest; the model only sees optimised bytes; on a miss an optimiser failure is the encoding error, and a fresh result is the text the call loop returned for the optimised bytes |
| GeminiService.FreshAnalysisIsModelText | backend/services/gemini_service.py:143-278 | on a miss, the first attempt with text decides: its stripped text is returned and, when caching, cached if at least 100 characters long; otherwise the invalid-markdown error with the cache untouched; one call per attempt up to that one |
| GeminiService.AllTimeoutsFailWithTimeout | backend/services/gemini_service.py:185-278 | on a miss, a model that times out every time is asked `max_retries` times, and the analysis fails with the configured timeout and leaves the cache alone |
| GeminiService.AnalyzePreservesCacheValid | backend/services/gemini_service.py:255-276 | the cache only ever holds validated text, so every result, fresh or cached, is valid response content |
| GeminiService.RepeatRequestHitsCache | backend/services/gemini_service.py:254-259 | a second request for the same bytes returns the same text from the cache, whatever the model would now say |
| GeminiService.NoCacheNoStore | backend/services/gemini_service.py:255-276 | with caching off, the cache is neither read nor written |
| Api.ValidateImageFile | frontend/src/utils/api.ts:101-121 | valid iff the type is exactly one of the three (case-sensitive) and the size is at most 10 MiB; the type error wins over the size error |
| Api.FileCheckExamples | frontend/src/utils/api.ts:103-117 | GIF of any size gets the type error, an 11 MiB JPEG the size error, exactly 10 MiB passes |
| Api.AcceptedFilesPassServerChecks | frontend/src/utils/api.ts:103-113 | a file the browser accepts has a type and a size the backend accepts too |
| Api.BrowserStricterOnCase | frontend/src/utils/api.ts:103-109 | "IMAGE/JPEG" is refused by the browser but accepted by the backend |
| Api.Preflight | frontend/src/utils/api.ts:31-37 | a missing, empty or over-five file list is refused with status 400 |
| Api.HandleResponse | frontend/src/utils/api.ts:58-80 | success iff the status is OK and the parsed body has a non-empty string `content`, and it is that body; a non-OK status throws an ApiException with that status; an OK JSON object without such content throws the bad-format 500; an unparsable or null OK body throws a non-ApiException error |
| Api.Classify | frontend/src/utils/api.ts:82-93 | AbortError becomes the 408 timeout exception with its message, an ApiException passes unchanged, anything else becomes the status-0 network error |
| Api.AnalyzePortfolio | frontend/src/utils/api.ts:29-94 | pre-flight refusals win; a success is the server's parsed body with non-empty string content; a non-OK response keeps its status with the body-derived message; an OK JSON object without usable content gives the bad-format 500; a thrown fetch gives the 408 timeout exception after an abort and the status-0 network exception otherwise |
| Api.SuccessIffWellFormed | frontend/src/utils/api.ts:72-80 | success with a given body iff the file count is acceptable and an OK response carries that body with a non-empty string `content` |
| Api.PreflightNeedsNoServer | frontend/src/utils/api.ts:31-37 | a pre-flight refusal does not depend on the server |
| Api.ErrorStatusOrigin | frontend/src/utils/api.ts:29-94 | every error status is 400, 408, 0 or 500, or the server's own non-OK status |
| Api.ErrorMessageForms | frontend/src/utils/api.ts:59-67 | a non-OK message is the truthy `error` field, else "HTTP <status>"; it is "서버 오류 (<status>)" when the body is not JSON or is JSON null |
| Api.UnparsableSuccessIsNetworkError | frontend/src/utils/api.ts:72-93 | an OK response without a usable JSON body is reported as the status-0 network error |
| PortfolioHook.OrDefault | frontend/src/hooks/usePortfolioAnalysis.tsx:38 | a non-empty message is kept, an empty one is replaced by the fallback |
| PortfolioHook.HandleFileSelect | frontend/src/hooks/usePortfolioAnalysis.tsx:30-69 | a refused file gives an upload error with the validator's message and leaves the analysis alone; a good file with a preview is held and clears the analysis; a preview failure gives its own message |
| PortfolioHook.Settled | frontend/src/hooks/usePortfolioAnalysis.tsx:92-102 | a resolved request gives success with the response; a rejection gives an error with its message, or "분석 중 오류가 발생했습니다." when the message is empty |
| PortfolioHook.AnalyzeSteps | frontend/src/hooks/usePortfolioAnalysis.tsx:74-104 | without a file: one error state and no call; with a file: loading, then success with the response or an error with the message, or the fallback when the message is empty |
| PortfolioHook.AnalyzeStart | frontend/src/hooks/usePortfolioAnalysis.tsx:75-89 | before the `await`: the upload is untouched; loading iff a file is held; without a file the no-file error |
| PortfolioHook.AnalyzeFinish | frontend/src/hooks/usePortfolioAnalysis.tsx:91-103 | after the `await`: the settled analysis state is set on the current state, whatever upload it holds, and loading ends |
| PortfolioHook.AnalyzeImage | frontend/src/hooks/usePortfolioAnalysis.tsx:74-104 | when nothing runs during the request, analysing never touches the upload state, never ends loading, and ends in the last analysis state of the steps |
| PortfolioHook.StaleResultLandsBesideNewFile | frontend/src/hooks/usePortfolioAnalysis.tsx:45-102 | a file selected while a request is in flight is shown with the previous file's result, because the continuation does not check which file is held |
| PortfolioHook.ResultOutlivesRemoveAndReset | frontend/src/hooks/usePortfolioAnalysis.tsx:91-133 | removing the file during a request leaves the hook loading with no file, and after a remove or a reset the late result still lands |
| PortfolioHook.Reset | frontend/src/hooks/usePortfolioAnalysis.tsx:109-121 | after a reset the hook is neither loading nor ready |
| PortfolioHook.RemoveFile | frontend/src/hooks/usePortfolioAnalysis.tsx:126-133 | removing the file keeps the analysis and disables analysing |
| PortfolioHook.InitialState | frontend/src/hooks/usePortfolioAnalysis.tsx:13-25 | initially not loading, not ready, well formed |
| PortfolioHook.TransitionsPreserveWellFormed | frontend/src/hooks/usePortfolioAnalysis.tsx:30-133 | every transition, the start and finish of an analysis on any well-formed state included, and every intermediate analysis state keeps the state well formed; a held file is always one the validator accepted |
| PortfolioHook.CanAnalyzeIffFileHeld | frontend/src/hooks/usePortfolioAnalysis.tsx:143 | in a well-formed state, `canAnalyze` holds iff a file is held |
| PortfolioHook.SelectionReadiness | frontend/src/hooks/usePortfolioAnalysis.tsx:32-68 | after a selection, `canAnalyze` holds iff the file was valid and its preview succeeded |
| PortfolioHook.LoadingOnlyWithFile | frontend/src/hooks/usePortfolioAnalysis.tsx:75-88 | the loading state is entered iff a file is held |
| PortfolioHook.NoFileNoCall | frontend/src/hooks/usePortfolioAnalysis.tsx:75-82 | without a file the API outcome plays no part |
| PortfolioHook.ResetAndRemove | frontend/src/hooks/usePortfolioAnalysis.tsx:109-133 | reset returns to the initial state; remove then reset is a reset; removing twice is removing once |
| PortfolioHook.RefusalCarriesValidatorMessage | frontend/src/hooks/usePortfolioAnalysis.tsx:32-39 | a file of an unsupported type shows the validator's type message, never the fallback |
| ImageUploader.MergeSelection | frontend/src/components/ImageUploader.tsx:25-33 | no callback iff the selection is missing or empty; otherwise the first min(5, old+new) entries of old followed by new |
| ImageUploader.MergeBounded | frontend/src/components/ImageUploader.tsx:30 | never more than five files are handed on |
| ImageUploader.MergeKeepsExisting | frontend/src/components/ImageUploader.tsx:29-30 | held files keep their places and order, and new ones follow in selection order |
| ImageUploader.FullSelectionUnchanged | frontend/src/components/ImageUploader.tsx:30 | with five files held, any selection hands on the same five |
| ImageUploader.MergeKeepsAllWhenRoom | frontend/src/components/ImageUploader.tsx:29-30 | when everything fits, nothing selected is dropped |
| ImageUploader.HandleDrop | frontend/src/components/ImageUploader.tsx:56-63 | a drop on a disabled uploader is ignored; otherwise it is a selection |
| ImageUploader.PickerOpensOnlyWithRoom | frontend/src/components/ImageUploader.tsx:66-70 | when the picker can open, a non-empty pick adds its first file after the held ones |
| ScoreBuckets.Clamp | frontend/src/components/tabs/KeyStockAnalysisTab.tsx:42 | the clamped score (also the bar width, and the same `clampScore` as DeepDiveTab.tsx:29) lies in [0, 100], equals the score inside that range, and is 0 below it and 100 above it |
| ScoreBuckets.BandOf | frontend/src/components/tabs/AllStockScoresTab.tsx:16-20 | green iff at least 80, yellow iff in [60, 80), red iff below 60 |
| ScoreBuckets.ClampKeepsBand | frontend/src/components/tabs/KeyStockAnalysisTab.tsx:28-33 | clamping never moves a score into another colour band |
| ScoreBuckets.BandMonotone | frontend/src/components/tabs/AllStockScoresTab.tsx:16-20 | a higher score never gets a worse colour |
| ScoreBuckets.ClampIdempotent | frontend/src/components/tabs/KeyStockAnalysisTab.tsx:42 | clamping is idempotent and changes only scores outside [0, 100] |
| KeyStockAnalysisTab.InitialAccordion | frontend/src/components/tabs/KeyStockAnalysisTab.tsx:24-26 | every card index, and only those, maps to criterion 0 |
| KeyStockAnalysisTab.ToggleCriterion | frontend/src/components/tabs/KeyStockAnalysisTab.tsx:44-49 | the clicked criterion flips, no other criterion of the card is open, every other card is untouched |
| KeyStockAnalysisTab.InitialShowsFirstCriterion | frontend/src/components/tabs/KeyStockAnalysisTab.tsx:24-26 | initially each card shows criterion 0 and only it |
| KeyStockAnalysisTab.AtMostOneOpen | frontend/src/components/tabs/KeyStockAnalysisTab.tsx:81 | a card never has two criteria open |
| KeyStockAnalysisTab.ToggleTwice | frontend/src/components/tabs/KeyStockAnalysisTab.tsx:44-49 | clicking an open criterion twice restores the map; clicking a closed one twice leaves the card with nothing open |
| KeyStockAnalysisTab.TogglesOnDifferentCardsCommute | frontend/src/components/tabs/KeyStockAnalysisTab.tsx:45-48 | clicks on different cards are independent |
| KeyStockAnalysisTab.BadgeAndProgressAgree | frontend/src/components/tabs/KeyStockAnalysisTab.tsx:28-40 | two scores share a badge colour iff they share a bar colour iff they share a clamped band |
| DeepDiveTab.ToggleOpportunity | frontend/src/components/tabs/DeepDiveTab.tsx:31-33 | the clicked item is open afterwards iff it was closed before, and nothing else is open |
| DeepDiveTab.ToggleSequences | frontend/src/components/tabs/DeepDiveTab.tsx:31-33 | closing and reopening restores; clicking another item moves the opening there |
| DeepDiveTab.InitiallyFirstOpen | frontend/src/components/tabs/DeepDiveTab.tsx:13 | the first opportunity is the one open before any click |
| DeepDiveTab.ColoursShareThresholds | frontend/src/components/tabs/DeepDiveTab.tsx:15-27 | badge and bar are both green iff the score is at least 80, both red iff below 60 |
| AllStockScoresTab.HandleSort | frontend/src/components/tabs/AllStockScoresTab.tsx:22-29 | the clicked column becomes current; a new column starts descending; the current column flips direction |
| AllStockScoresTab.DoubleClick | frontend/src/components/tabs/AllStockScoresTab.tsx:22-29 | two clicks on the current header restore the state; two on a new header leave it ascending |
| AllStockScoresTab.Insert | frontend/src/components/tabs/AllStockScoresTab.tsx:34-40 | inserting a row adds exactly one row and keeps the column numeric |
| AllStockScoresTab.InsertPermutes | frontend/src/components/tabs/AllStockScoresTab.tsx:34 | insertion neither loses nor duplicates a row |
| AllStockScoresTab.InsertKeepsLowerBound | frontend/src/components/tabs/AllStockScoresTab.tsx:38-40 | a lower bound on the ranks of the rows and the new row bounds the result |
| AllStockScoresTab.InsertSorted | frontend/src/components/tabs/AllStockScoresTab.tsx:34-40 | inserting into a table in comparator order keeps it in order |
| AllStockScoresTab.ConsSorted | frontend/src/components/tabs/AllStockScoresTab.tsx:34-40 | a row ranked no higher than every row of an ordered table can head it without breaking the order |
| AllStockScoresTab.SortByRank | frontend/src/components/tabs/AllStockScoresTab.tsx:34-40 | the sort returns a permutation of the rows in comparator order |
| AllStockScoresTab.SortedRows | frontend/src/components/tabs/AllStockScoresTab.tsx:31-48 | no sort column gives the rows as given; otherwise a permutation, non-decreasing ascending and non-increasing descending |
| AllStockScoresTab.SortingSortedIsIdentity | frontend/src/components/tabs/AllStockScoresTab.tsx:34-40 | a table already in comparator order is left exactly as it is |
| AllStockScoresTab.InsertLargestAppends | frontend/src/components/tabs/AllStockScoresTab.tsx:34-40 | a row ranked no lower than all others is placed last |
| AllStockScoresTab.TableColoursMatchCards | frontend/src/components/tabs/AllStockScoresTab.tsx:16-20 | the unclamped table colours agree with the clamped card bands, even outside [0, 100] |

## Left out

- Image processing: `optimize_image`, `get_image_info` and the imaging library's decoding are collaborators. The decoder is a function from bytes to format, size and mode; the optimiser is a function from bytes to bytes or an error message.
- The Gemini client call, its configuration, the Google Search tool and the service singleton: each attempt's outcome is a function of the attempt index and the payload.
- The prompt text of `_get_portfolio_analysis_prompt`: a constant with no logic.
- MD5: the cache key is an uninterpreted function of the raw bytes.
- `asyncio.sleep`: the model records the requested delays instead of sleeping. Logging, including the "search" substring check and the missing-section warnings, does not change control flow.
- Environment variables: `MAX_FILE_SIZE`, `ALLOWED_IMAGE_TYPES` and the retry and timeout settings take their default values. `is_supported_image_type` takes the list as a parameter.
- HTTP plumbing: the FastAPI routes, `UploadFile` reads, CORS, and `fetch`, `FormData`, `AbortController` and `FileReader` in the browser. The `fetch` outcome and the preview result are inputs.
- `processing_time` and other floating-point fields are carried but not constrained. Scores are integers, and `toFixed` and progress-bar widths are out of scope.
- PyText.Lower: lower-cases ASCII letters only. Python's `str.lower()` also maps non-ASCII capitals. The verdicts against the default MIME types still agree: no non-ASCII character lower-cases to a string that would make a refused type equal an allowed one. The Kelvin sign gives 'k', which no allowed type contains. U+0130 gives 'i' followed by a combining dot, which no allowed type contains either.
- Base64.Decode: it is strict, while Python's `b64decode` skips characters outside the alphabet. Every decoded string here comes from `Encode`, so the two agree on them.
- AllStockScoresTab.SortedRows: requires every row to hold a number in the sort column. Text columns sort with `localeCompare(..., 'ko')`, a locale collation that is not modelled. The tie order of the stable sort is implemented but not stated as a contract.
- Api.JsString: numbers are integers, so `NaN`, fractional values and the exponent form of magnitudes from 1e21 up are not modelled. Every non-string object, arrays included, stringifies as "[object Object]", although JavaScript writes an array element by element (`String([1,2])` is "1,2", `String([])` is "").
- Api.AnalyzePortfolio: a parsed body is represented by its `error` and `content` fields only. The success value is that body, which is what `analyzePortfolio` returns as `data`. Its other fields (images processed, processing time, request id) are not modelled.
- JSX rendering, DashboardTab, and the page, layout and display components: no logic beyond what is modelled above.

## Notes

- The code is followed where the design description differs from it:
  - The code has no structured two-step JSON pipeline, no multi-image cache key and no quota-specific error classification.
  - `analyze_portfolio_image` makes one markdown call.
  - Format rejections are re-raised as invalid-image errors.
- `usePortfolioAnalysis` passes the single held `File` to `analyzePortfolio`, which is declared to take an array. Likewise, the page hands the hook's single-file `handleFileSelect` to the uploader, which calls it with an array. The hook model takes the API outcome and the selected file as inputs, so these type mismatches between files lie outside it.
- The continuation of `analyzeImage` sets the analysis state without checking which file is held. A file selected, removed or reset while a request is in flight therefore sits beside the earlier request's result. PortfolioHook.StaleResultLandsBesideNewFile and PortfolioHook.ResultOutlivesRemoveAndReset state this behaviour as it is; it is not claimed as a defect.
