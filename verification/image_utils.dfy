/** Admission checks for uploaded images (`validate_image`) and the two MIME
    helpers `is_supported_image_type` and `guess_content_type`.  Decoding is a
    collaborator: the model receives the decoder as a function from bytes to
    what the imaging library reports. */
module ImageUtils {
  import opened Base
  import opened PyText

  /** `MAX_FILE_SIZE` with its default value, 10 MiB. */
  const MaxFileSize: nat := 10485760

  /** `ALLOWED_MIME_TYPES` with its default value. */
  const DefaultAllowedMimeTypes: seq<string> := ["image/jpeg", "image/png", "image/jpg"]

  /** Formats accepted from the decoder. */
  const AllowedFormats: seq<string> := ["JPEG", "PNG", "JPG"]

  const MinDimension: int := 100
  const MaxDimension: int := 10000

  /** What opening the bytes with the imaging library yields. */
  datatype Decoded =
    | Undecodable(reason: string)
    | Image(format: string, width: int, height: int, mode: string)

  /** Reasons raised inside the decode block. */
  datatype Rejection =
    | UnsupportedFormat
    | TooSmall
    | TooLarge
    | DecoderFailure(message: string)

  datatype ImageError =
    | FileTooLarge
    | EmptyFile
    | InvalidImage(reason: Rejection)

  const InvalidImagePrefix: string := "유효하지 않은 이미지 파일입니다: "

  function RejectionText(r: Rejection): string
  {
    match r
    case UnsupportedFormat => "지원하지 않는 이미지 형식입니다. (지원: JPEG, PNG)"
    case TooSmall => "이미지 크기가 너무 작습니다. (최소 100x100)"
    case TooLarge => "이미지 크기가 너무 큽니다. (최대 10000x10000)"
    case DecoderFailure(m) => m
  }

  /** The text of the `ValueError` that `validate_image` raises. */
  function Message(e: ImageError): string
  {
    match e
    case FileTooLarge => "파일 크기가 10.0MB를 초과합니다."
    case EmptyFile => "빈 파일입니다."
    case InvalidImage(r) => InvalidImagePrefix + RejectionText(r)
  }

  /** Reference definition of an acceptable decoded image: an allowed format
      and both sides within [100, 10000]. */
  predicate Acceptable(d: Decoded)
  {
    d.Image? && d.format in AllowedFormats
    && MinDimension <= d.width <= MaxDimension
    && MinDimension <= d.height <= MaxDimension
  }

  /** The checks run on the opened image, in order: format, then too small,
      then too large.  The colour mode only produces a log line. */
  function Inspect(d: Decoded): (r: Option<Rejection>)
    ensures r.None? <==> Acceptable(d)
    ensures r == Some(UnsupportedFormat) <==> d.Image? && d.format !in AllowedFormats
    ensures r == Some(TooSmall) <==>
      d.Image? && d.format in AllowedFormats && (d.width < MinDimension || d.height < MinDimension)
    ensures r == Some(TooLarge) <==>
      d.Image? && d.format in AllowedFormats && d.width >= MinDimension && d.height >= MinDimension
      && (d.width > MaxDimension || d.height > MaxDimension)
    ensures d.Undecodable? ==> r == Some(DecoderFailure(d.reason))
  {
    match d
    case Undecodable(reason) => Some(DecoderFailure(reason))
    case Image(format, width, height, _) =>
      if format !in AllowedFormats then Some(UnsupportedFormat)
      else if width < MinDimension || height < MinDimension then Some(TooSmall)
      else if width > MaxDimension || height > MaxDimension then Some(TooLarge)
      else None
  }

  /** `validate_image`: size, then emptiness, then the decode block, whose
      every rejection is re-raised as an invalid-image error. */
  function ValidateImage(data: Bytes, decode: Bytes -> Decoded): (r: Result<(), ImageError>)
    ensures r == Err(FileTooLarge) <==> |data| > MaxFileSize
    ensures r == Err(EmptyFile) <==> |data| == 0
    ensures r.Ok? <==> 0 < |data| <= MaxFileSize && Acceptable(decode(data))
    ensures r.Err? && r.error.InvalidImage? ==>
      0 < |data| <= MaxFileSize && Inspect(decode(data)) == Some(r.error.reason)
  {
    if |data| > MaxFileSize then Err(FileTooLarge)
    else if |data| == 0 then Err(EmptyFile)
    else
      match Inspect(decode(data))
      case None => Ok(())
      case Some(reason) => Err(InvalidImage(reason))
  }

  /** The size and emptiness checks come before decoding: for such inputs the
      decoder's answer does not matter. */
  lemma SizeChecksPrecedeDecoding(data: Bytes, d1: Bytes -> Decoded, d2: Bytes -> Decoded)
    requires |data| > MaxFileSize || |data| == 0
    ensures ValidateImage(data, d1) == ValidateImage(data, d2)
  {
  }

  /** The colour mode never decides the verdict. */
  lemma ModeIsIgnored(data: Bytes, d1: Bytes -> Decoded, d2: Bytes -> Decoded)
    requires d1(data).Image? && d2(data).Image?
    requires d1(data).format == d2(data).format
    requires d1(data).width == d2(data).width && d1(data).height == d2(data).height
    ensures ValidateImage(data, d1) == ValidateImage(data, d2)
  {
  }

  /** Every rejection from the decode block keeps its own reason as the tail
      of the re-raised message. */
  lemma InvalidImageKeepsReason(r: Rejection)
    ensures var m := Message(InvalidImage(r));
      |m| >= |InvalidImagePrefix| && m[..|InvalidImagePrefix|] == InvalidImagePrefix
      && m[|InvalidImagePrefix|..] == RejectionText(r)
  {
  }

  /** The boundary cases of the test suite: an 11 MiB body, an empty body, a
      50 x 100000 image, the inclusive bounds and a 500 x 500 JPEG. */
  lemma AdmissionBoundaries(decode: Bytes -> Decoded, data: Bytes)
    ensures |data| == 11 * 1024 * 1024 ==> ValidateImage(data, decode) == Err(FileTooLarge)
    ensures |data| == 0 ==> ValidateImage(data, decode) == Err(EmptyFile)
    ensures 0 < |data| <= MaxFileSize && decode(data) == Image("JPEG", 50, 100000, "RGB") ==>
      ValidateImage(data, decode) == Err(InvalidImage(TooSmall))
    ensures 0 < |data| <= MaxFileSize && decode(data) == Image("PNG", 100, 100, "P") ==>
      ValidateImage(data, decode).Ok?
    ensures 0 < |data| <= MaxFileSize && decode(data) == Image("PNG", 10000, 10000, "RGBA") ==>
      ValidateImage(data, decode).Ok?
    ensures 0 < |data| <= MaxFileSize && decode(data) == Image("JPEG", 500, 500, "RGB") ==>
      ValidateImage(data, decode).Ok?
    ensures 0 < |data| <= MaxFileSize && decode(data) == Image("GIF", 500, 500, "P") ==>
      ValidateImage(data, decode) == Err(InvalidImage(UnsupportedFormat))
  {
  }

  /** The configured types as they are compared: stripped and lower-cased. */
  function NormalizedTypes(allowed: seq<string>): (r: seq<string>)
    ensures |r| == |allowed|
    ensures forall i :: 0 <= i < |allowed| ==> r[i] == Lower(Strip(allowed[i]))
  {
    if |allowed| == 0 then [] else [Lower(Strip(allowed[0]))] + NormalizedTypes(allowed[1..])
  }

  /** `is_supported_image_type`: the lower-cased type, not stripped, is one
      of the stripped, lower-cased configured types. */
  predicate IsSupportedImageType(contentType: string, allowed: seq<string>)
  {
    Lower(contentType) in NormalizedTypes(allowed)
  }

  /** A type is supported exactly when some configured entry, stripped and
      lower-cased, equals the lower-cased type. */
  lemma SupportedTypeSpec(contentType: string, allowed: seq<string>)
    ensures IsSupportedImageType(contentType, allowed) <==>
      exists i :: 0 <= i < |allowed| && Lower(Strip(allowed[i])) == Lower(contentType)
  {
    var n := NormalizedTypes(allowed);
    if IsSupportedImageType(contentType, allowed) {
      var i :| 0 <= i < |n| && n[i] == Lower(contentType);
      assert Lower(Strip(allowed[i])) == Lower(contentType);
    }
  }

  /** A configured type with no surrounding space and no capitals compares
      as written. */
  lemma NormalizedAsWritten(t: string)
    requires IsStripped(t)
    requires forall c :: c in t ==> !('A' <= c <= 'Z')
    ensures Lower(Strip(t)) == t && Lower(t) == t
  {
    StripOfStripped(t);
    LowerOfLowercase(t);
  }

  /** Stripping and lower-casing leave the default configuration as it is. */
  lemma DefaultTypesAreNormalized()
    ensures NormalizedTypes(DefaultAllowedMimeTypes) == DefaultAllowedMimeTypes
    ensures forall i :: 0 <= i < |DefaultAllowedMimeTypes| ==>
      Lower(DefaultAllowedMimeTypes[i]) == DefaultAllowedMimeTypes[i]
  {
    var d := DefaultAllowedMimeTypes;
    NormalizedAsWritten(d[0]);
    NormalizedAsWritten(d[1]);
    NormalizedAsWritten(d[2]);
    var n := NormalizedTypes(d);
    assert n[0] == d[0] && n[1] == d[1] && n[2] == d[2];
  }

  /** With the default configuration the accepted types are exactly the three
      image types, in any letter case. */
  lemma DefaultSupportedTypes(contentType: string)
    ensures IsSupportedImageType(contentType, DefaultAllowedMimeTypes) <==>
      Lower(contentType) in ["image/jpeg", "image/png", "image/jpg"]
  {
    DefaultTypesAreNormalized();
  }

  /** Letter case is ignored: an upper-case JPEG type is accepted. */
  lemma UpperCaseTypeAccepted()
    ensures IsSupportedImageType("IMAGE/JPEG", DefaultAllowedMimeTypes)
  {
    DefaultTypesAreNormalized();
    assert Lower("IMAGE/JPEG") == "image/jpeg";
  }

  /** An empty or non-image type is refused. */
  lemma NonImageTypesRefused()
    ensures !IsSupportedImageType("", DefaultAllowedMimeTypes)
    ensures !IsSupportedImageType("text/plain", DefaultAllowedMimeTypes)
  {
    DefaultTypesAreNormalized();
    assert Lower("") == "";
    assert "" !in DefaultAllowedMimeTypes;
    LowerOfLowercase("text/plain");
  }

  /** `name.split('.')[-1]`: the text after the last dot, or the whole name
      when it has none. */
  function AfterLastDot(name: string): (r: string)
    ensures '.' !in r
    ensures |r| <= |name|
    decreases |name|
  {
    if |name| == 0 then ""
    else if name[|name| - 1] == '.' then ""
    else AfterLastDot(name[..|name| - 1]) + [name[|name| - 1]]
  }

  /** The extension is a suffix of the name, preceded by a dot unless it is
      the whole name. */
  lemma {:induction false} AfterLastDotIsSuffix(name: string)
    ensures var r := AfterLastDot(name);
      r == name[|name| - |r|..] && (|r| < |name| ==> name[|name| - |r| - 1] == '.')
    decreases |name|
  {
    if |name| > 0 && name[|name| - 1] != '.' {
      var init := name[..|name| - 1];
      AfterLastDotIsSuffix(init);
      var r0 := AfterLastDot(init);
      assert name[|name| - |r0| - 1..] == init[|init| - |r0|..] + [name[|name| - 1]];
    }
  }

  /** The extension table of `guess_content_type`. */
  function MimeForExtension(ext: string): Option<string>
  {
    if ext == "jpg" || ext == "jpeg" then Some("image/jpeg")
    else if ext == "png" then Some("image/png")
    else None
  }

  /** `guess_content_type` */
  function GuessContentType(filename: string): (r: Option<string>)
    ensures filename == "" ==> r.None?
    ensures r.Some? ==> r.value == "image/jpeg" || r.value == "image/png"
  {
    if filename == "" then None else MimeForExtension(Lower(AfterLastDot(filename)))
  }

  /** The suffix after the last dot of a name is that name's extension. */
  lemma {:induction false} AfterLastDotOfJoin(prefix: string, ext: string)
    requires '.' !in ext
    ensures AfterLastDot(prefix + "." + ext) == ext
    decreases |ext|
  {
    var name := prefix + "." + ext;
    if |ext| == 0 {
    } else {
      var shorter := ext[..|ext| - 1];
      assert name[..|name| - 1] == prefix + "." + shorter;
      AfterLastDotOfJoin(prefix, shorter);
      assert ext == shorter + [ext[|ext| - 1]];
    }
  }

  /** A name without a dot is its own extension. */
  lemma {:induction false} AfterLastDotNoDot(name: string)
    requires '.' !in name
    ensures AfterLastDot(name) == name
    decreases |name|
  {
    if |name| > 0 {
      AfterLastDotNoDot(name[..|name| - 1]);
      assert name == name[..|name| - 1] + [name[|name| - 1]];
    }
  }

  /** The MIME type depends only on the lower-cased text after the last
      dot. */
  lemma GuessByExtension(prefix: string, ext: string)
    requires '.' !in ext
    ensures GuessContentType(prefix + "." + ext) == MimeForExtension(Lower(ext))
  {
    AfterLastDotOfJoin(prefix, ext);
  }

  /** A name without a dot is its own extension. */
  lemma GuessWithoutDot(name: string)
    requires name != "" && '.' !in name
    ensures GuessContentType(name) == MimeForExtension(Lower(name))
  {
    AfterLastDotNoDot(name);
  }

  /** An upper-case JPG extension maps to image/jpeg. */
  lemma GuessUpperCaseJpg()
    ensures GuessContentType("TEST.JPG") == Some("image/jpeg")
  {
    AfterLastDotOfJoin("TEST", "JPG");
    assert "TEST" + "." + "JPG" == "TEST.JPG";
    assert Lower("JPG") == "jpg";
  }

  /** An unknown extension has no MIME type. */
  lemma GuessUnknownExtension()
    ensures GuessContentType("document.txt") == None
  {
    var name := "document" + "." + "txt";
    assert name == "document.txt";
    AfterLastDotOfJoin("document", "txt");
    LowerOfLowercase("txt");
    assert MimeForExtension("txt") == None;
  }

  /** A dot-less name that is no known extension has no MIME type. */
  lemma GuessNoExtension()
    ensures GuessContentType("no_extension") == None
  {
    AfterLastDotNoDot("no_extension");
    LowerOfLowercase("no_extension");
    assert MimeForExtension("no_extension") == None;
  }
}
