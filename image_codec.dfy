/**
 * `decodeBase64Image` and the decision part of `handleImageUpload` in
 * BookController: parse `data:image/<type>;base64,<payload>` (the `data:`
 * URL scheme of section 3 of RFC 2397), lower-case the type, check it
 * against the allow-list, decode the payload, and decide between no upload,
 * a rejection, or writing `<token>.<extension>`.
 */
module ImageCodec {
  import opened Wrappers
  import opened Text
  import Base64

  const SCHEME: string := "data:image/"
  const MARKER: string := ";base64,"
  const ALLOWED_TYPES: seq<string> := ["jpeg", "jpg", "png"]
  /** 2 MiB: the largest accepted decoded image, in bytes. */
  const MAX_IMAGE_BYTES: nat := 2 * 1024 * 1024

  datatype DecodedImage = DecodedImage(data: seq<Base64.byte>, extension: string)

  /** Length of the greedy `\w+` run at the start of `s` (0 when there is none). */
  function WordRun(s: string): (n: nat)
    ensures n <= |s| && IsWord(s[..n])
    ensures n < |s| ==> !IsWordChar(s[n])
  {
    if |s| == 0 || !IsWordChar(s[0]) then 0
    else
      var n := 1 + WordRun(s[1..]);
      assert s[..n] == [s[0]] + s[1..][..n - 1];
      n
  }

  /**
   * `preg_match('/^data:image\/(\w+);base64,/', $s, $type)`: the captured
   * `$type[1]`. A match is a non-empty word framed by the scheme and the
   * marker at the start of the input.
   */
  function MatchType(s: string): (r: Option<string>)
    ensures r.Some? ==> |r.value| > 0 && IsWord(r.value) && SCHEME + r.value + MARKER <= s
    ensures !(SCHEME <= s) ==> r.None?
  {
    if SCHEME <= s then
      var rest := s[|SCHEME|..];
      var n := WordRun(rest);
      if n > 0 && MARKER <= rest[n..] then
        assert s == SCHEME + rest;
        assert rest[..n + |MARKER|] == rest[..n] + MARKER;
        Some(rest[..n])
      else None
    else None
  }

  /** `decodeBase64Image`: the decoded bytes and the lower-cased type, or null. */
  function DecodeBase64Image(s: string): (r: Option<DecodedImage>)
    ensures r.Some? ==> MatchType(s).Some?
    ensures r.Some? ==> r.value.extension in ALLOWED_TYPES
  {
    match MatchType(s)
    case None => None
    case Some(t) =>
      // substr($s, strpos($s, ',') + 1); PHP's false + 1 is 1
      var start := match IndexOf(s, ',') case Some(k) => k + 1 case None => 1;
      var ext := ToLower(t);
      if ext !in ALLOWED_TYPES then None
      else
        match Base64.Decode(s[start..])
        case None => None
        case Some(data) => Some(DecodedImage(data, ext))
  }

  // ---------------------------------------------------------------------------
  // The shape of accepted inputs

  lemma {:induction false} WordRunOfWord(t: string, u: string)
    requires IsWord(t)
    requires |u| == 0 || !IsWordChar(u[0])
    ensures WordRun(t + u) == |t|
    decreases |t|
  {
    if |t| > 0 {
      assert (t + u)[1..] == t[1..] + u;
      WordRunOfWord(t[1..], u);
    } else {
      assert t + u == u;
    }
  }

  /** Every non-empty word framed by the scheme and the marker is captured. */
  lemma MatchTypeOfShape(t: string, p: string)
    requires |t| > 0 && IsWord(t)
    ensures MatchType(SCHEME + t + MARKER + p) == Some(t)
  {
    var s := SCHEME + t + MARKER + p;
    var rest := s[|SCHEME|..];
    assert rest == t + (MARKER + p);
    WordRunOfWord(t, MARKER + p);
    assert rest[..|t|] == t;
    assert rest[|t|..] == MARKER + p;
  }

  /** The first comma of an accepted input is the one ending the marker. */
  lemma FirstCommaEndsMarker(t: string, p: string)
    requires IsWord(t)
    ensures IndexOf(SCHEME + t + MARKER + p, ',') == Some(|SCHEME| + |t| + |MARKER| - 1)
  {
    var s := SCHEME + t + MARKER + p;
    var k := |SCHEME| + |t| + |MARKER| - 1;
    assert s[k] == ',';
    assert s[..k] == SCHEME + t + MARKER[..|MARKER| - 1];
    assert ',' !in t;
  }

  /**
   * Full characterisation: an input of the accepted shape decodes exactly when
   * its lower-cased type is allowed and its payload is valid base64; the data
   * is the decoding of everything after the first comma.
   */
  lemma DecodeBase64ImageOfShape(t: string, p: string)
    requires |t| > 0 && IsWord(t)
    ensures DecodeBase64Image(SCHEME + t + MARKER + p) ==
      if ToLower(t) !in ALLOWED_TYPES then None
      else match Base64.Decode(p)
        case None => None
        case Some(data) => Some(DecodedImage(data, ToLower(t)))
  {
    var s := SCHEME + t + MARKER + p;
    MatchTypeOfShape(t, p);
    FirstCommaEndsMarker(t, p);
    assert s[|SCHEME| + |t| + |MARKER|..] == p;
  }

  /** Encoding any bytes under an allowed type gives back those bytes and the type. */
  lemma DecodeOfEncoded(t: string, data: seq<Base64.byte>)
    requires |t| > 0 && IsWord(t) && ToLower(t) in ALLOWED_TYPES
    ensures DecodeBase64Image(SCHEME + t + MARKER + Base64.Encode(data)) == Some(DecodedImage(data, ToLower(t)))
  {
    DecodeBase64ImageOfShape(t, Base64.Encode(data));
    Base64.DecodeEncode(data);
  }

  /** The declared type is case-insensitive: "PNG" is stored as "png". */
  lemma UpperCasePngAccepted(p: string)
    ensures DecodeBase64Image(SCHEME + "PNG" + MARKER + p) ==
      match Base64.Decode(p)
      case None => None
      case Some(data) => Some(DecodedImage(data, "png"))
  {
    assert ToLower("PNG") == "png";
    DecodeBase64ImageOfShape("PNG", p);
  }

  /** A type outside the allow-list is refused whatever the payload. */
  lemma GifRejected(p: string)
    ensures DecodeBase64Image(SCHEME + "gif" + MARKER + p) == None
  {
    assert ToLower("gif") == "gif";
    DecodeBase64ImageOfShape("gif", p);
  }

  // ---------------------------------------------------------------------------
  // handleImageUpload: what to do with the `image` field

  datatype UploadError = InvalidImageData | ImageTooLarge

  datatype UploadPlan =
    | NoUpload
    | Rejected(error: UploadError)
    | Write(filename: string, data: seq<Base64.byte>)

  /**
   * The body of the guard: invalid data when decoding fails, too large above
   * 2 MiB, otherwise the decoded bytes go to `<token>.<extension>`.
   */
  function PlanDecoded(image: string, token: string): (r: UploadPlan)
    ensures !r.NoUpload?
    ensures r == Rejected(InvalidImageData) <==> DecodeBase64Image(image).None?
    ensures r == Rejected(ImageTooLarge) <==>
      DecodeBase64Image(image).Some? && |DecodeBase64Image(image).value.data| > MAX_IMAGE_BYTES
    ensures r.Write? ==>
      DecodeBase64Image(image).Some? && |r.data| <= MAX_IMAGE_BYTES &&
      r == Write(token + "." + DecodeBase64Image(image).value.extension, DecodeBase64Image(image).value.data)
  {
    match DecodeBase64Image(image)
    case None => Rejected(InvalidImageData)
    case Some(img) =>
      if |img.data| > MAX_IMAGE_BYTES then Rejected(ImageTooLarge)
      else Write(token + "." + img.extension, img.data)
  }

  /** The guard as written, `if ($base64Image)`: "" and "0" are skipped. */
  function PlanImageUploadAsWritten(image: Option<string>, token: string): (r: UploadPlan)
    ensures r.NoUpload? <==> !IsTruthy(image)
    ensures r == Rejected(InvalidImageData) <==> IsTruthy(image) && DecodeBase64Image(image.value).None?
    ensures r.Write? ==> IsTruthy(image) && DecodeBase64Image(image.value).Some? && |r.data| <= MAX_IMAGE_BYTES
  {
    if IsTruthy(image) then PlanDecoded(image.value, token) else NoUpload
  }

  /**
   * The guard as intended: skip only a missing or empty value, so that every
   * value the NotBlank rule accepts is decoded.
   */
  function PlanImageUpload(image: Option<string>, token: string): (r: UploadPlan)
    ensures r.NoUpload? <==> IsBlank(image)
    ensures r == Rejected(InvalidImageData) <==> !IsBlank(image) && DecodeBase64Image(image.value).None?
    ensures r == Rejected(ImageTooLarge) <==>
      !IsBlank(image) && DecodeBase64Image(image.value).Some? && |DecodeBase64Image(image.value).value.data| > MAX_IMAGE_BYTES
    ensures r.Write? ==> |r.data| <= MAX_IMAGE_BYTES
    ensures r.Write? ==> exists ext :: ext in ALLOWED_TYPES && r.filename == token + "." + ext
    ensures r.Write? ==>
      !IsBlank(image) && DecodeBase64Image(image.value).Some? &&
      r == Write(token + "." + DecodeBase64Image(image.value).value.extension, DecodeBase64Image(image.value).value.data)
  {
    if IsBlank(image) then NoUpload else PlanDecoded(image.value, token)
  }

  /** The size ceiling is inclusive: exactly 2 MiB is written, one byte more is refused. */
  lemma SizeCeilingInclusive(image: string, token: string, img: DecodedImage)
    requires DecodeBase64Image(image) == Some(img)
    ensures |img.data| == MAX_IMAGE_BYTES ==> PlanImageUpload(Some(image), token) == Write(token + "." + img.extension, img.data)
    ensures |img.data| == MAX_IMAGE_BYTES + 1 ==> PlanImageUpload(Some(image), token) == Rejected(ImageTooLarge)
  {
  }

  /** The two guards disagree only on "0". */
  lemma PlansAgreeExceptZero(image: Option<string>, token: string)
    requires image != Some("0")
    ensures PlanImageUploadAsWritten(image, token) == PlanImageUpload(image, token)
  {
  }

  /**
   * "0" passes NotBlank, yet the guard as written skips it: no file is
   * written and the stored image is left as it was; the intended guard
   * rejects it as invalid image data.
   */
  lemma ZeroImageSkippedAsWritten(token: string)
    ensures !IsBlank(Some("0"))
    ensures PlanImageUploadAsWritten(Some("0"), token) == NoUpload
    ensures PlanImageUpload(Some("0"), token) == Rejected(InvalidImageData)
  {
    assert !(SCHEME <= "0");
  }
}
