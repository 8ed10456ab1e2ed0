/** The markdown analysis response and its content validator. */
module PortfolioModels {
  import opened Base
  import opened PyText

  /** Minimum number of characters of analysis text, counted after `strip()`. */
  const MinContentLength: nat := 100

  const ContentTooShortMessage: string := "분석 결과는 최소 100자 이상이어야 합니다."

  /** `AnalysisResponse`: the stored content is the validated, stripped text. */
  datatype AnalysisResponse = AnalysisResponse(
    content: string,
    processingTime: real,
    requestId: string,
    imagesProcessed: int)

  /** Reference definition of a stored content value: long enough and with no
      surrounding whitespace. */
  predicate IsValidContent(c: string)
  {
    |c| >= MinContentLength && IsStripped(c)
  }

  /** `validate_content`: empty text, or text shorter than 100 characters once
      stripped, is refused; accepted text is stored stripped. */
  function ValidateContent(v: string): (r: Result<string, string>)
    ensures r.Ok? <==> |Strip(v)| >= MinContentLength
    ensures r.Ok? ==> IsValidContent(r.value) && r.value == Strip(v)
    ensures r.Err? ==> r.error == ContentTooShortMessage
  {
    StripSpec(v);
    if v == "" || |Strip(v)| < MinContentLength then Err(ContentTooShortMessage)
    else Ok(Strip(v))
  }

  /** Surrounding whitespace never changes the verdict nor the stored text. */
  lemma ValidateIgnoresSurroundingSpace(v: string)
    ensures ValidateContent(Strip(v)) == ValidateContent(v)
  {
    StripIdempotent(v);
  }

  /** Validation is idempotent: stored content is accepted again unchanged. */
  lemma ValidateIdempotent(v: string)
    requires ValidateContent(v).Ok?
    ensures ValidateContent(ValidateContent(v).value) == ValidateContent(v)
  {
    StripIdempotent(v);
  }

  /** A valid content value is exactly what validation accepts unchanged. */
  lemma ValidContentIsFixedPoint(c: string)
    ensures IsValidContent(c) <==> ValidateContent(c) == Ok(c)
  {
    if IsValidContent(c) {
      StripOfStripped(c);
    }
  }

  /** Building the response: the content validator runs, and an omitted
      image count defaults to 1. */
  function MakeAnalysisResponse(content: string, processingTime: real, requestId: string,
                                imagesProcessed: Option<int>): (r: Result<AnalysisResponse, string>)
    ensures r.Ok? <==> ValidateContent(content).Ok?
    ensures r.Ok? ==> IsValidContent(r.value.content) && r.value.requestId == requestId
    // the stored content is the text stripped, the other fields as given
    ensures r.Ok? ==> r.value.content == Strip(content) && r.value.processingTime == processingTime
    ensures r.Err? ==> r.error == ContentTooShortMessage
    ensures r.Ok? && imagesProcessed.None? ==> r.value.imagesProcessed == 1
    ensures r.Ok? && imagesProcessed.Some? ==> r.value.imagesProcessed == imagesProcessed.value
  {
    match ValidateContent(content)
    case Err(e) => Err(e)
    case Ok(c) =>
      var count := match imagesProcessed case Some(n) => n case None => 1;
      Ok(AnalysisResponse(c, processingTime, requestId, count))
  }
}
