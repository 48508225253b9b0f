/** The pure rules of `ImageService` (src/service/imagenService.js): validating an image,
    building its object key and public URL, recognising `data:<type>;base64,<data>` strings,
    the checks `uploadImage` and `uploadBase64Image` make before they store anything, and the
    way the three store operations turn a thrown error into a result. */
module ImageService {
  import opened JsText
  import opened NodePath
  import opened ImageConfig

  newtype byte = x: int | 0 <= x < 256

  /** The fields of a multer file object that the service reads. `size` is the size multer
      declares; `buffer` is the content. */
  datatype UploadedFile = UploadedFile(
    originalName: string,
    mimetype: string,
    size: int,
    buffer: seq<byte>)

  /** Why an operation failed. The texts built from floating-point megabyte figures are
      represented by their kind and the integer byte count. */
  datatype ImageError =
    | TypeNotAllowed(mimetype: string)
    | FileTooLarge(size: int)
    | EmptyBase64
    | InvalidBase64Format
    | Base64DecodeFailed
    | StoreFailure(message: string)
    | KeyNotProvided

  datatype Validation = Valid | Invalid(error: ImageError)

  /** `validateImage(file)`: the type allow-list is checked first, then the size ceiling,
      which a size equal to it passes. */
  function ValidateImage(cfg: Config, mimetype: string, size: int): (r: Validation)
    ensures r == Valid <==> mimetype in cfg.allowedTypes && !Exceeds(size, cfg.maxFileSize)
    ensures mimetype !in cfg.allowedTypes ==> r == Invalid(TypeNotAllowed(mimetype))
    ensures mimetype in cfg.allowedTypes && Exceeds(size, cfg.maxFileSize) ==>
      r == Invalid(FileTooLarge(size))
  {
    if mimetype !in cfg.allowedTypes then Invalid(TypeNotAllowed(mimetype))
    else if Exceeds(size, cfg.maxFileSize) then Invalid(FileTooLarge(size))
    else Valid
  }

  /** With the default 5 MiB ceiling an allowed image of exactly 5242880 bytes is accepted
      and one byte more is not. */
  lemma DefaultCeilingIsInclusive(cfg: Config, mimetype: string)
    requires cfg.maxFileSize == Number(DefaultMaxFileSize) && mimetype in cfg.allowedTypes
    ensures ValidateImage(cfg, mimetype, 5242880) == Valid
    ensures ValidateImage(cfg, mimetype, 5242881) == Invalid(FileTooLarge(5242881))
  {
  }

  /** `generateImageKey(originalName)` with `uuid` standing for `uuidv4()`: the folder, the
      identifier, then the original extension (possibly empty). */
  function GenerateImageKey(cfg: Config, originalName: string, uuid: string): (key: string)
    ensures StartsWith(key, cfg.folder) && EndsWith(key, ExtName(originalName))
    ensures |key| == |cfg.folder| + |uuid| + |ExtName(originalName)|
    ensures key[|cfg.folder|..|cfg.folder| + |uuid|] == uuid
  {
    cfg.folder + uuid + ExtName(originalName)
  }

  /** Keys are as unique as the identifiers: two `uuidv4()` values (always 36 characters)
      that differ give different keys, whatever the file names. */
  lemma KeysDifferWithIdentifiers(cfg: Config, name1: string, name2: string, u1: string, u2: string)
    requires |u1| == |u2| && u1 != u2
    ensures GenerateImageKey(cfg, name1, u1) != GenerateImageKey(cfg, name2, u2)
  {
  }

  /** The public URL of `key` in the configured bucket and region. */
  function UrlFor(cfg: Config, key: string): string {
    "https://" + cfg.bucket + ".s3." + cfg.region + ".amazonaws.com/" + key
  }

  /** `generateImageUrl(imageKey)`: null for a missing or empty key, otherwise the bucket's
      virtual-hosted URL ending with the key. */
  function GenerateImageUrl(cfg: Config, key: Option<string>): (url: Option<string>)
    ensures url.None? <==> key.None? || key.value == ""
    ensures url.Some? ==> url.value == UrlFor(cfg, key.value)
    ensures url.Some? ==>
      StartsWith(url.value, "https://" + cfg.bucket + ".s3.")
      && EndsWith(url.value, ".amazonaws.com/" + key.value)
  {
    if key.None? || key.value == "" then None else Some(UrlFor(cfg, key.value))
  }

  /** The characters of `[A-Za-z-+\/]`, the media-type group of the data-URL pattern. */
  predicate IsMimeChar(c: char) {
    ('A' <= c <= 'Z') || ('a' <= c <= 'z') || c == '-' || c == '+' || c == '/'
  }

  /** The two groups of a match of `/^data:([A-Za-z-+\/]+);base64,(.+)$/`. */
  datatype DataUrl = DataUrl(mimeType: string, data: string)

  /** `s` is matched by the data-URL pattern with groups `d`: both groups are non-empty, the
      media type uses only `[A-Za-z-+/]`, and the data holds no line terminator (which `.`
      does not match). This is the `data:<mediatype>;base64,<data>` form of RFC 2397,
      section 3, restricted to what the pattern admits. */
  predicate IsDataUrl(s: string, d: DataUrl) {
    && s == "data:" + d.mimeType + ";base64," + d.data
    && |d.mimeType| >= 1
    && (forall i :: 0 <= i < |d.mimeType| ==> IsMimeChar(d.mimeType[i]))
    && |d.data| >= 1
    && (forall i :: 0 <= i < |d.data| ==> !IsLineTerminator(d.data[i]))
  }

  /** The length of the longest prefix of `s` made of media-type characters. */
  function MimeRun(s: string): (n: nat)
    ensures n <= |s|
    ensures forall i :: 0 <= i < n ==> IsMimeChar(s[i])
    ensures n < |s| ==> !IsMimeChar(s[n])
    decreases |s|
  {
    if s == [] || !IsMimeChar(s[0]) then 0 else 1 + MimeRun(s[1..])
  }

  /** The run of media-type characters stops at the first other character. */
  lemma {:induction false} MimeRunStops(m: string, t: string)
    requires forall i :: 0 <= i < |m| ==> IsMimeChar(m[i])
    requires t != [] && !IsMimeChar(t[0])
    ensures MimeRun(m + t) == |m|
    decreases |m|
  {
    if m != [] {
      assert (m + t)[1..] == m[1..] + t;
      MimeRunStops(m[1..], t);
    } else {
      assert m + t == t;
    }
  }

  /** True when some character of `s` ends a line. */
  predicate HasLineTerminator(s: string) {
    exists i :: 0 <= i < |s| && IsLineTerminator(s[i])
  }

  /** Matching the data-URL pattern: the groups are unique, and this finds them. */
  function ParseDataUrl(s: string): (r: Option<DataUrl>)
    ensures r.Some? ==> IsDataUrl(s, r.value)
    ensures forall d :: IsDataUrl(s, d) ==> r == Some(d)
  {
    if !StartsWith(s, "data:") then None
    else
      var rest := s[5..];
      var n := MimeRun(rest);
      var tail := rest[n..];
      if n == 0 || !StartsWith(tail, ";base64,") || tail[8..] == "" || HasLineTerminator(tail[8..])
      then
        NoDataUrlUnlessParsed(s);
        None
      else
        assert s == "data:" + rest[..n] + ";base64," + tail[8..];
        ParsedIsTheOnlyMatch(s, DataUrl(rest[..n], tail[8..]));
        Some(DataUrl(rest[..n], tail[8..]))
  }

  /** If `s` matches with groups `d`, the parser's steps arrive at exactly `d`. */
  lemma ParseStepsOfMatch(s: string, d: DataUrl)
    requires IsDataUrl(s, d)
    ensures StartsWith(s, "data:")
    ensures MimeRun(s[5..]) == |d.mimeType|
    ensures s[5..][|d.mimeType|..] == ";base64," + d.data
  {
    assert s[..5] == "data:";
    assert s[5..] == d.mimeType + (";base64," + d.data);
    MimeRunStops(d.mimeType, ";base64," + d.data);
  }

  lemma NoDataUrlUnlessParsed(s: string)
    ensures forall d :: IsDataUrl(s, d) ==>
      StartsWith(s, "data:") && MimeRun(s[5..]) != 0
      && StartsWith(s[5..][MimeRun(s[5..])..], ";base64,")
      && s[5..][MimeRun(s[5..])..][8..] != ""
      && !HasLineTerminator(s[5..][MimeRun(s[5..])..][8..])
  {
    forall d | IsDataUrl(s, d)
      ensures StartsWith(s, "data:") && MimeRun(s[5..]) != 0
        && StartsWith(s[5..][MimeRun(s[5..])..], ";base64,")
        && s[5..][MimeRun(s[5..])..][8..] != ""
        && !HasLineTerminator(s[5..][MimeRun(s[5..])..][8..])
    {
      ParseStepsOfMatch(s, d);
      assert s[5..][|d.mimeType|..][8..] == d.data;
    }
  }

  lemma ParsedIsTheOnlyMatch(s: string, found: DataUrl)
    requires IsDataUrl(s, found)
    ensures forall d :: IsDataUrl(s, d) ==> d == found
  {
    forall d | IsDataUrl(s, d) ensures d == found {
      ParseStepsOfMatch(s, d);
      ParseStepsOfMatch(s, found);
      assert d.mimeType == s[5..][..|d.mimeType|];
      assert found.mimeType == s[5..][..|found.mimeType|];
      assert d.data == s[5..][|d.mimeType|..][8..];
      assert found.data == s[5..][|found.mimeType|..][8..];
    }
  }

  /** `isValidBase64Image(s)`: a non-empty string matched by the data-URL pattern whose
      media type is allowed. */
  function IsValidBase64Image(cfg: Config, s: Option<string>): (ok: bool)
    ensures ok <==> s.Some? && exists d :: IsDataUrl(s.value, d) && d.mimeType in cfg.allowedTypes
  {
    if s.None? || s.value == "" then false
    else
      match ParseDataUrl(s.value)
      case None => false
      case Some(d) => d.mimeType in cfg.allowedTypes
  }

  /** What is handed to the store: `PutObjectCommand`'s key, body and content type. */
  datatype PutRequest = PutRequest(key: string, body: seq<byte>, contentType: string)

  /** The decision taken before any store call: put this object, or fail with this error. */
  datatype Prepared = Ready(put: PutRequest) | Rejected(error: ImageError)

  /** The front half of `uploadImage(file)`: validate the declared type and size, then build
      the key from the original name. */
  function PrepareUpload(cfg: Config, file: UploadedFile, uuid: string): (p: Prepared)
    ensures p.Rejected? <==> ValidateImage(cfg, file.mimetype, file.size).Invalid?
    ensures p.Rejected? ==> p.error == ValidateImage(cfg, file.mimetype, file.size).error
    ensures p.Ready? ==> p.put == PutRequest(GenerateImageKey(cfg, file.originalName, uuid),
      file.buffer, file.mimetype)
  {
    match ValidateImage(cfg, file.mimetype, file.size)
    case Invalid(e) => Rejected(e)
    case Valid =>
      Ready(PutRequest(GenerateImageKey(cfg, file.originalName, uuid), file.buffer, file.mimetype))
  }

  /** `mimeType.split('/')[1]`: the text between the first '/' and the next one (or the
      end), or the text "undefined" that the template prints when the type has no '/'. */
  function MimeExtension(mimeType: string): (ext: string)
    ensures '/' !in mimeType ==> ext == "undefined"
    ensures '/' in mimeType ==>
      var rest := mimeType[RunWithout(mimeType, '/') + 1..];
      ext == rest[..RunWithout(rest, '/')]
  {
    var parts := Split(mimeType, '/');
    var n := RunWithout(mimeType, '/');
    if n == |mimeType| then
      SplitPieceAlone(mimeType, '/');
      "undefined"
    else
      var rest := mimeType[n + 1..];
      assert mimeType == mimeType[..n] + ['/'] + rest;
      SplitAfterPiece(mimeType[..n], rest, '/');
      SplitFirst(rest, '/');
      parts[1]
  }

  /** How the checks `uploadBase64Image` makes on the string itself end: the data URL's
      groups, or the error of the first check that failed. */
  datatype DataUrlCheck = Checked(url: DataUrl) | CheckFailed(error: ImageError)

  /** The first three checks of `uploadBase64Image(s)`, in order: empty or blank input, the
      data-URL shape, the allow-list. They pass exactly what `isValidBase64Image` accepts. */
  function CheckDataUrl(cfg: Config, input: Option<string>): (c: DataUrlCheck)
    ensures c.Checked? <==> IsValidBase64Image(cfg, input)
    ensures c.Checked? ==> IsDataUrl(input.value, c.url) && c.url.mimeType in cfg.allowedTypes
    ensures c.CheckFailed? ==>
      c.error == EmptyBase64 || c.error == InvalidBase64Format || c.error.TypeNotAllowed?
  {
    if input.None? || input.value == "" || Trim(input.value) == "" then
      if input.Some? && ParseDataUrl(input.value).Some? then
        DataUrlIsNotBlank(input.value, ParseDataUrl(input.value).value);
        CheckFailed(EmptyBase64)
      else CheckFailed(EmptyBase64)
    else
      match ParseDataUrl(input.value)
      case None => CheckFailed(InvalidBase64Format)
      case Some(d) =>
        if d.mimeType !in cfg.allowedTypes then CheckFailed(TypeNotAllowed(d.mimeType))
        else Checked(d)
  }

  /** The rest of the front half of `uploadBase64Image`, for a data URL that passed the
      first three checks: decode the data, compare its length with the ceiling, and name
      the object `folder + uuid + "." + subtype`. `decode` stands for
      `Buffer.from(data, 'base64')` (None models a decoder that throws). */
  function DecodeAndName(cfg: Config, d: DataUrl, decode: string -> Option<seq<byte>>,
                         uuid: string): (p: Prepared)
    ensures p.Rejected? ==> p.error == Base64DecodeFailed || p.error.FileTooLarge?
    ensures p.Ready? ==>
      && decode(d.data) == Some(p.put.body) && !Exceeds(|p.put.body|, cfg.maxFileSize)
      && p.put.key == cfg.folder + uuid + "." + MimeExtension(d.mimeType)
      && p.put.contentType == d.mimeType
  {
    match decode(d.data)
    case None => Rejected(Base64DecodeFailed)
    case Some(bytes) =>
      if Exceeds(|bytes|, cfg.maxFileSize) then Rejected(FileTooLarge(|bytes|))
      else Ready(PutRequest(cfg.folder + uuid + "." + MimeExtension(d.mimeType), bytes, d.mimeType))
  }

  /** The front half of `uploadBase64Image(s)`, with `uuid` standing for `uuidv4()`: the
      checks run in this order: empty or blank input, the data-URL shape, the allow-list,
      decoding, then `length > MAX_FILE_SIZE`. */
  function PrepareBase64Upload(cfg: Config, input: Option<string>,
                               decode: string -> Option<seq<byte>>, uuid: string): (p: Prepared)
    ensures p.Ready? ==> IsValidBase64Image(cfg, input)
    ensures p.Ready? ==>
      && StartsWith(p.put.key, cfg.folder + uuid + ".")
      && p.put.contentType in cfg.allowedTypes
      && !Exceeds(|p.put.body|, cfg.maxFileSize)
  {
    match CheckDataUrl(cfg, input)
    case CheckFailed(e) => Rejected(e)
    case Checked(d) =>
      var p := DecodeAndName(cfg, d, decode, uuid);
      if p.Ready? then
        ConcatPieces(cfg.folder + uuid + ".", MimeExtension(d.mimeType));
        p
      else p
  }

  /** A data URL is never blank: it starts with 'd'. */
  lemma DataUrlIsNotBlank(s: string, d: DataUrl)
    requires IsDataUrl(s, d)
    ensures s != "" && Trim(s) != ""
  {
    assert s[0] == 'd';
    assert !IsJsWhiteSpace(s[0]);
  }

  /** The first three rejections of `uploadBase64Image` each name the first check that
      fails, in order: empty input, shape, media type. */
  lemma Base64RejectionsInOrder(cfg: Config, input: Option<string>,
                                decode: string -> Option<seq<byte>>, uuid: string)
    ensures var p := PrepareBase64Upload(cfg, input, decode, uuid);
      (p == Rejected(EmptyBase64) <==> input.None? || IsBlank(input.value))
    ensures var p := PrepareBase64Upload(cfg, input, decode, uuid);
      (p == Rejected(InvalidBase64Format) <==>
        input.Some? && !IsBlank(input.value) && forall d :: !IsDataUrl(input.value, d))
    ensures var p := PrepareBase64Upload(cfg, input, decode, uuid);
      ((p.Rejected? && p.error.TypeNotAllowed?) <==>
        input.Some? && exists d :: IsDataUrl(input.value, d) && d.mimeType !in cfg.allowedTypes)
    ensures var p := PrepareBase64Upload(cfg, input, decode, uuid);
      (p.Rejected? && p.error.TypeNotAllowed? ==>
        exists d :: IsDataUrl(input.value, d) && d.mimeType == p.error.mimetype)
  {
    var c := CheckDataUrl(cfg, input);
    CheckRejectionsInOrder(cfg, input);
    if c.CheckFailed? {
      assert PrepareBase64Upload(cfg, input, decode, uuid) == Rejected(c.error);
    } else {
      assert PrepareBase64Upload(cfg, input, decode, uuid) == DecodeAndName(cfg, c.url, decode, uuid);
    }
  }

  /** The first three checks, on their own: each failure names the first check that fails. */
  lemma CheckRejectionsInOrder(cfg: Config, input: Option<string>)
    ensures var c := CheckDataUrl(cfg, input);
      (c == CheckFailed(EmptyBase64) <==> input.None? || IsBlank(input.value))
    ensures var c := CheckDataUrl(cfg, input);
      (c == CheckFailed(InvalidBase64Format) <==>
        input.Some? && !IsBlank(input.value) && forall d :: !IsDataUrl(input.value, d))
    ensures var c := CheckDataUrl(cfg, input);
      ((c.CheckFailed? && c.error.TypeNotAllowed?) <==>
        input.Some? && exists d :: IsDataUrl(input.value, d) && d.mimeType !in cfg.allowedTypes)
    ensures var c := CheckDataUrl(cfg, input);
      (c.CheckFailed? && c.error.TypeNotAllowed? ==>
        exists d :: IsDataUrl(input.value, d) && d.mimeType == c.error.mimetype)
  {
    if input.Some? {
      assert input.value == "" ==> IsBlank(input.value);
      match ParseDataUrl(input.value)
      case None =>
      case Some(d) => DataUrlIsNotBlank(input.value, d);
    }
  }

  /** After the first three checks pass, decoding is checked before size: the decoder
      failing and the decoded length exceeding the ceiling each reject exactly then. */
  lemma Base64LateRejections(cfg: Config, input: Option<string>,
                             decode: string -> Option<seq<byte>>, uuid: string)
    ensures var p := PrepareBase64Upload(cfg, input, decode, uuid);
      (p == Rejected(Base64DecodeFailed) <==>
        input.Some? && exists d :: (IsDataUrl(input.value, d) && d.mimeType in cfg.allowedTypes
                                    && decode(d.data).None?))
    ensures var p := PrepareBase64Upload(cfg, input, decode, uuid);
      ((p.Rejected? && p.error.FileTooLarge?) <==>
        input.Some? && exists d :: (IsDataUrl(input.value, d) && d.mimeType in cfg.allowedTypes
                                    && decode(d.data).Some?
                                    && Exceeds(|decode(d.data).value|, cfg.maxFileSize)))
  {
    var c := CheckDataUrl(cfg, input);
    if c.CheckFailed? {
      assert PrepareBase64Upload(cfg, input, decode, uuid) == Rejected(c.error);
      if input.Some? {
        forall d | IsDataUrl(input.value, d) ensures d.mimeType !in cfg.allowedTypes {
          DataUrlIsNotBlank(input.value, d);
        }
      }
    } else {
      assert PrepareBase64Upload(cfg, input, decode, uuid) == DecodeAndName(cfg, c.url, decode, uuid);
    }
  }

  /** The first three checks of `uploadBase64Image` accept exactly what
      `isValidBase64Image` accepts; after them only decoding and size can still reject. */
  lemma Base64UploadAgreesWithValidity(cfg: Config, input: Option<string>,
                                       decode: string -> Option<seq<byte>>, uuid: string)
    ensures !IsValidBase64Image(cfg, input) ==>
      PrepareBase64Upload(cfg, input, decode, uuid).Rejected?
    ensures IsValidBase64Image(cfg, input) ==>
      var d := ParseDataUrl(input.value).value;
      PrepareBase64Upload(cfg, input, decode, uuid) ==
        if decode(d.data).None? then Rejected(Base64DecodeFailed)
        else if Exceeds(|decode(d.data).value|, cfg.maxFileSize)
        then Rejected(FileTooLarge(|decode(d.data).value|))
        else Ready(PutRequest(cfg.folder + uuid + "." + MimeExtension(d.mimeType),
                              decode(d.data).value, d.mimeType))
  {
    if IsValidBase64Image(cfg, input) {
      DataUrlIsNotBlank(input.value, ParseDataUrl(input.value).value);
    }
  }

  /** What an accepted data URL is stored as: under the folder, the identifier and the
      media subtype, holding the decoded bytes, with the allowed media type as content type;
      a decoded length equal to the ceiling is accepted. */
  lemma Base64AcceptedUpload(cfg: Config, input: Option<string>,
                             decode: string -> Option<seq<byte>>, uuid: string)
    requires PrepareBase64Upload(cfg, input, decode, uuid).Ready?
    ensures var put := PrepareBase64Upload(cfg, input, decode, uuid).put;
      exists d :: IsDataUrl(input.value, d)
        && put.contentType == d.mimeType && d.mimeType in cfg.allowedTypes
        && decode(d.data) == Some(put.body) && !Exceeds(|put.body|, cfg.maxFileSize)
        && put.key == cfg.folder + uuid + "." + MimeExtension(d.mimeType)
  {
    var d := ParseDataUrl(input.value).value;
    assert IsDataUrl(input.value, d);
  }

  /** What `s3Client.send` threw: an `Error` with its message, or any other value. */
  datatype Thrown = ErrorWithMessage(message: string) | NotAnError

  /** How a call to the store ended. */
  datatype StoreOutcome = Completed | Threw(thrown: Thrown)

  const UploadInternalError: string := "Error interno del servidor al subir la imagen"
  const UnknownError: string := "Error desconocido"
  /** Kept as two literals: `AccessDeniedTextApart` and the other `*TextApart` lemmas compare
      single characters of it, and with one literal of this length the verifier does not
      find those characters. */
  const AccessDeniedText: string := "Error de permisos en S3. " + "Verificar credenciales AWS."
  const NoSuchBucketPrefix: string := "Bucket de S3 no encontrado: "
  const ConnectionText: string := "Error de conexión con AWS S3"
  const InvalidCredentialsText: string := "Credenciales AWS inválidas"
  const AwsErrorPrefix: string := "Error AWS: "
  const DeleteErrorText: string := "Error al eliminar la imagen"

  /** The error text `uploadImage` reports when the put throws. */
  function UploadFailureText(t: Thrown): (text: string)
    ensures t.ErrorWithMessage? ==> text == UploadInternalError + ": " + t.message
    ensures t.NotAnError? ==> text == UploadInternalError + ": " + UnknownError
  {
    UploadInternalError + ": " + (if t.ErrorWithMessage? then t.message else UnknownError)
  }

  /** The cases `uploadBase64Image` distinguishes in the message of a thrown `Error`. */
  datatype AwsFailure = AccessDenied | NoSuchBucket | ConnectionFailed | InvalidCredentials
                      | OtherAwsError(message: string)

  /** The first of AccessDenied, NoSuchBucket, NetworkError or ENOTFOUND, and
      InvalidAccessKeyId that the message contains decides the case; a message with none of
      them is reported as it is. */
  function ClassifyAwsError(m: string): (f: AwsFailure)
    ensures f == AccessDenied <==> Includes(m, "AccessDenied")
    ensures f == NoSuchBucket <==> !Includes(m, "AccessDenied") && Includes(m, "NoSuchBucket")
    ensures f == ConnectionFailed <==>
      !Includes(m, "AccessDenied") && !Includes(m, "NoSuchBucket")
      && (Includes(m, "NetworkError") || Includes(m, "ENOTFOUND"))
    ensures f == InvalidCredentials <==>
      !Includes(m, "AccessDenied") && !Includes(m, "NoSuchBucket")
      && !Includes(m, "NetworkError") && !Includes(m, "ENOTFOUND")
      && Includes(m, "InvalidAccessKeyId")
    ensures f.OtherAwsError? <==>
      !Includes(m, "AccessDenied") && !Includes(m, "NoSuchBucket")
      && !Includes(m, "NetworkError") && !Includes(m, "ENOTFOUND")
      && !Includes(m, "InvalidAccessKeyId")
    ensures f.OtherAwsError? ==> f.message == m
  {
    if Includes(m, "AccessDenied") then AccessDenied
    else if Includes(m, "NoSuchBucket") then NoSuchBucket
    else if Includes(m, "NetworkError") || Includes(m, "ENOTFOUND") then ConnectionFailed
    else if Includes(m, "InvalidAccessKeyId") then InvalidCredentials
    else OtherAwsError(m)
  }

  /** The text reported for each case; the bucket case names the configured bucket. Each
      text tells its case apart: only an unclassified message is reported after
      "Error AWS: ", only the bucket case after "Bucket de S3 no encontrado: ", and each of
      the three fixed texts belongs to one case. */
  function AwsFailureText(cfg: Config, f: AwsFailure): (text: string)
    ensures StartsWith(text, AwsErrorPrefix) <==> f.OtherAwsError?
    ensures f.OtherAwsError? ==> text[|AwsErrorPrefix|..] == f.message
    ensures StartsWith(text, NoSuchBucketPrefix) <==> f.NoSuchBucket?
    ensures f.NoSuchBucket? ==> text[|NoSuchBucketPrefix|..] == cfg.bucket
    ensures text == AccessDeniedText <==> f.AccessDenied?
    ensures text == ConnectionText <==> f.ConnectionFailed?
    ensures text == InvalidCredentialsText <==> f.InvalidCredentials?
    ensures text != UploadInternalError
  {
    match f
    case AccessDenied => AccessDeniedTextApart(); AccessDeniedText
    case NoSuchBucket => BucketTextApart(cfg.bucket); NoSuchBucketPrefix + cfg.bucket
    case ConnectionFailed => ConnectionTextApart(); ConnectionText
    case InvalidCredentials => InvalidCredentialsTextApart(); InvalidCredentialsText
    case OtherAwsError(m) => AwsTextApart(m); AwsErrorPrefix + m
  }

  /** The access text differs from the other fixed texts and the generic text, and starts
      with neither prefix. */
  lemma AccessDeniedTextApart()
    ensures !StartsWith(AccessDeniedText, AwsErrorPrefix)
    ensures !StartsWith(AccessDeniedText, NoSuchBucketPrefix)
    ensures AccessDeniedText != ConnectionText && AccessDeniedText != InvalidCredentialsText
    ensures AccessDeniedText != UploadInternalError
  {
    DifferAt(AccessDeniedText, AwsErrorPrefix, 6);
    DifferAt(AccessDeniedText, NoSuchBucketPrefix, 0);
    DifferAt(AccessDeniedText, ConnectionText, 9);
    DifferAt(AccessDeniedText, InvalidCredentialsText, 0);
    DifferAt(AccessDeniedText, UploadInternalError, 6);
  }

  /** The connection text differs from the other fixed texts and the generic text, and
      starts with neither prefix. */
  lemma ConnectionTextApart()
    ensures !StartsWith(ConnectionText, AwsErrorPrefix)
    ensures !StartsWith(ConnectionText, NoSuchBucketPrefix)
    ensures ConnectionText != AccessDeniedText && ConnectionText != InvalidCredentialsText
    ensures ConnectionText != UploadInternalError
  {
    DifferAt(ConnectionText, AwsErrorPrefix, 6);
    DifferAt(ConnectionText, NoSuchBucketPrefix, 0);
    DifferAt(ConnectionText, AccessDeniedText, 9);
    DifferAt(ConnectionText, InvalidCredentialsText, 0);
    DifferAt(ConnectionText, UploadInternalError, 6);
  }

  /** The credentials text differs from the other fixed texts and the generic text, and
      starts with neither prefix. */
  lemma InvalidCredentialsTextApart()
    ensures !StartsWith(InvalidCredentialsText, AwsErrorPrefix)
    ensures !StartsWith(InvalidCredentialsText, NoSuchBucketPrefix)
    ensures InvalidCredentialsText != AccessDeniedText && InvalidCredentialsText != ConnectionText
    ensures InvalidCredentialsText != UploadInternalError
  {
    DifferAt(InvalidCredentialsText, AwsErrorPrefix, 0);
    DifferAt(InvalidCredentialsText, NoSuchBucketPrefix, 0);
    DifferAt(InvalidCredentialsText, AccessDeniedText, 0);
    DifferAt(InvalidCredentialsText, ConnectionText, 0);
    DifferAt(InvalidCredentialsText, UploadInternalError, 0);
  }

  /** The bucket text starts with its own prefix and with no other text. */
  lemma BucketTextApart(bucket: string)
    ensures var text := NoSuchBucketPrefix + bucket;
      && StartsWith(text, NoSuchBucketPrefix) && text[|NoSuchBucketPrefix|..] == bucket
      && !StartsWith(text, AwsErrorPrefix)
      && text != AccessDeniedText && text != ConnectionText && text != InvalidCredentialsText
      && text != UploadInternalError
  {
    var text := NoSuchBucketPrefix + bucket;
    ConcatPieces(NoSuchBucketPrefix, bucket);
    assert text[0] == NoSuchBucketPrefix[0] == 'B';
    DifferAt(text, AwsErrorPrefix, 0);
    DifferAt(text, AccessDeniedText, 0);
    DifferAt(text, ConnectionText, 0);
    DifferAt(text, InvalidCredentialsText, 0);
    DifferAt(text, UploadInternalError, 0);
  }

  /** The text of an unclassified message starts with its own prefix and with no other text. */
  lemma AwsTextApart(m: string)
    ensures var text := AwsErrorPrefix + m;
      && StartsWith(text, AwsErrorPrefix) && text[|AwsErrorPrefix|..] == m
      && !StartsWith(text, NoSuchBucketPrefix)
      && text != AccessDeniedText && text != ConnectionText && text != InvalidCredentialsText
      && text != UploadInternalError
  {
    var text := AwsErrorPrefix + m;
    ConcatPieces(AwsErrorPrefix, m);
    assert text[0] == 'E' && text[6] == AwsErrorPrefix[6] == 'A';
    DifferAt(text, NoSuchBucketPrefix, 0);
    DifferAt(text, AccessDeniedText, 6);
    DifferAt(text, ConnectionText, 6);
    DifferAt(text, InvalidCredentialsText, 0);
    DifferAt(text, UploadInternalError, 6);
  }

  /** The error text `uploadBase64Image` reports when the put throws: the generic text for a
      thrown non-`Error` and only for it, the text of the message's case otherwise. */
  function Base64FailureText(cfg: Config, t: Thrown): (text: string)
    ensures text == UploadInternalError <==> t.NotAnError?
    ensures t.ErrorWithMessage? ==> text == AwsFailureText(cfg, ClassifyAwsError(t.message))
  {
    match t
    case NotAnError => UploadInternalError
    case ErrorWithMessage(m) => AwsFailureText(cfg, ClassifyAwsError(m))
  }

  /** The result of `uploadImage` and `uploadBase64Image`. */
  datatype UploadResult = Uploaded(imageUrl: Option<string>, imageKey: string)
                        | UploadFailed(error: ImageError)

  /** The result of `deleteImage`. */
  datatype DeleteResult = DeleteSucceeded | DeleteFailed(error: ImageError)

  /** `deleteImage(key)`'s verdict: a missing key fails before any store call; a completed
      delete succeeds, and so does one whose error says `NoSuchKey`, so deleting an absent
      key is a success; any other error fails with its message. */
  function DeleteVerdict(key: Option<string>, outcome: StoreOutcome): (r: DeleteResult)
    ensures key.None? || key.value == "" ==> r == DeleteFailed(KeyNotProvided)
    ensures r == DeleteSucceeded <==>
      (key.Some? && key.value != ""
       && (outcome.Completed? || (outcome.thrown.ErrorWithMessage?
                                  && Includes(outcome.thrown.message, "NoSuchKey"))))
    ensures (key.Some? && key.value != "" && outcome.Threw? && outcome.thrown.ErrorWithMessage?
             && !Includes(outcome.thrown.message, "NoSuchKey")) ==>
      r == DeleteFailed(StoreFailure(outcome.thrown.message))
    ensures key.Some? && key.value != "" && outcome == Threw(NotAnError) ==>
      r == DeleteFailed(StoreFailure(DeleteErrorText))
  {
    if key.None? || key.value == "" then DeleteFailed(KeyNotProvided)
    else
      match outcome
      case Completed => DeleteSucceeded
      case Threw(ErrorWithMessage(m)) =>
        if Includes(m, "NoSuchKey") then DeleteSucceeded else DeleteFailed(StoreFailure(m))
      case Threw(NotAnError) => DeleteFailed(StoreFailure(DeleteErrorText))
  }
}
