/** The decision skeleton of `image_generation_via_stable_diffusion` and
    `generateImageFromStabilityAPI`: key validation, dimension defaulting,
    the single upstream call taken as an abstract outcome, error messages
    and markdown assembly. */
module Generation {
  import opened Wrappers
  import opened Escape
  import opened Markdown
  import opened Decimal

  /** The configuration error's message. */
  const MissingKeyMessage: string := "Please set a Stable Diffusion " + "API Key in the plugin settings."

  /** Prefix the outer `catch` puts on every error raised inside its `try`. */
  const WrapPrefix: string := "Error: "

  const UpstreamErrorPrefix: string := "Stability API error: "
  const UpstreamErrorSeparator: string := ", Message: "

  const DefaultDimension: int := 1024

  /** A width or height setting after `Number(...)` coercion. An unset
      setting coerces to NaN, so it behaves like `NotANumber`. */
  datatype Dimension = Unset | Coerced(value: int) | NotANumber

  datatype Settings = Settings(stabilityAPIKey: Option<string>, width: Dimension, height: Dimension)

  /** The parts of the POST request that depend on the inputs. */
  datatype ImageRequest = ImageRequest(apiKey: string, prompt: Option<string>, width: int, height: int)

  /** How the single upstream call turned out: a response whose `ok` is true
      (carrying the first artifact's base64 data), a response whose `ok` is
      false (status code and body text), or any other error raised inside
      the call with its message: a rejected `fetch`, a rejected
      `response.text()` or `response.json()`, or the TypeError from reading
      `data.artifacts[0]` of an empty array. The outer `catch` rewraps all of
      them alike. */
  datatype Upstream =
    | Succeeded(artifactBase64: string)
    | Rejected(status: nat, body: string)
    | TransportFailed(message: string)

  /** What one call does: the request it sends, if any, and what it returns or throws. */
  datatype Invocation = Invocation(sent: Option<ImageRequest>, result: Result<string, string>)

  predicate StartsWith(s: string, prefix: string)
  {
    |prefix| <= |s| && s[..|prefix|] == prefix
  }

  /** `validateAPIKey`: fails, with the configuration message, exactly when the
      key is absent or empty (the falsy strings). */
  function ValidateAPIKey(apiKey: Option<string>): (r: Option<string>)
    ensures r.Some? <==> apiKey == None || apiKey == Some([])
    ensures r.Some? ==> r.value == MissingKeyMessage
  {
    match apiKey
    case None => Some(MissingKeyMessage)
    case Some(k) => if |k| == 0 then Some(MissingKeyMessage) else None
  }

  /** `Number(d) || 1024`: a coerced value that is non-zero (truthy) is kept;
      an unset value, zero or NaN falls back to 1024. */
  function ResolveDimension(d: Dimension): (r: int)
    ensures r != 0
    ensures d.Coerced? && d.value != 0 ==> r == d.value
    ensures !(d.Coerced? && d.value != 0) ==> r == DefaultDimension
  {
    match d
    case Coerced(v) => if v != 0 then v else DefaultDimension
    case _ => DefaultDimension
  }

  /** The message thrown for a response whose `ok` is false: it starts with
      the fixed prefix, and the status code and the body text can both be
      read back from what follows it. */
  function UpstreamErrorMessage(status: nat, body: string): (r: string)
    ensures StartsWith(r, UpstreamErrorPrefix)
    ensures ParseStatusAndBody(r[|UpstreamErrorPrefix|..]) == Some((status, body))
  {
    var rest := NatToDecimal(status) + (UpstreamErrorSeparator + body);
    var m := UpstreamErrorPrefix + NatToDecimal(status) + UpstreamErrorSeparator + body;
    assert m == UpstreamErrorPrefix + rest;
    assert m[..|UpstreamErrorPrefix|] == UpstreamErrorPrefix && m[|UpstreamErrorPrefix|..] == rest;
    ParseStatusAndBodyOf(status, body);
    m
  }

  /** `generateImageFromStabilityAPI` once the request is built: the
      markdown image on success, the thrown message otherwise. */
  function GenerateImageFromStabilityAPI(request: ImageRequest, upstream: Upstream): (r: Result<string, string>)
    ensures upstream.Succeeded? <==> r.Success?
    ensures upstream.Succeeded? ==> r.value == ImageMarkdown(request.prompt, upstream.artifactBase64)
    ensures upstream.Succeeded? && IsBase64(upstream.artifactBase64) ==>
      ReadImage(r.value) == Some((AltText(PromptText(request.prompt)), upstream.artifactBase64))
    ensures upstream.Rejected? ==> r.error == UpstreamErrorMessage(upstream.status, upstream.body)
    ensures upstream.TransportFailed? ==> r.error == upstream.message
  {
    match upstream
    case Succeeded(base64) => Success(ImageMarkdown(request.prompt, base64))
    case Rejected(status, body) => Failure(UpstreamErrorMessage(status, body))
    case TransportFailed(message) => Failure(message)
  }

  /** `image_generation_via_stable_diffusion`. The key is validated before
      the `try`, so a missing key is thrown as is and no request is sent;
      every error raised inside the `try` is rethrown with `Error: ` in front. */
  function ImageGenerationViaStableDiffusion(prompt: Option<string>, settings: Settings, upstream: Upstream): (r: Invocation)
    ensures ValidateAPIKey(settings.stabilityAPIKey).Some? <==> r.sent.None?
    ensures r.sent.None? ==> r.result == Failure(MissingKeyMessage)
    ensures r.sent.Some? ==>
      && r.sent.value.apiKey == settings.stabilityAPIKey.value
      && r.sent.value.prompt == prompt
      && r.sent.value.width == ResolveDimension(settings.width)
      && r.sent.value.height == ResolveDimension(settings.height)
    ensures r.sent.Some? ==> (r.result.Success? <==> upstream.Succeeded?)
    ensures r.sent.Some? && upstream.Succeeded? ==>
      r.result.value == ImageMarkdown(prompt, upstream.artifactBase64)
    ensures r.sent.Some? && upstream.Rejected? ==>
      r.result.error == WrapPrefix + UpstreamErrorMessage(upstream.status, upstream.body)
    ensures r.sent.Some? && upstream.TransportFailed? ==>
      r.result.error == WrapPrefix + upstream.message
  {
    match ValidateAPIKey(settings.stabilityAPIKey)
    case Some(message) => Invocation(None, Failure(message))
    case None =>
      var request := ImageRequest(
        settings.stabilityAPIKey.value, prompt,
        ResolveDimension(settings.width), ResolveDimension(settings.height));
      match GenerateImageFromStabilityAPI(request, upstream)
      case Success(md) => Invocation(Some(request), Success(md))
      case Failure(message) => Invocation(Some(request), Failure(WrapPrefix + message))
  }

  // ---------------------------------------------------------------------
  // Properties
  // ---------------------------------------------------------------------

  /** The missing-key message carries no `Error: ` prefix, so a caller can
      tell it from every error raised after the request was built. */
  lemma MissingKeyIsUnwrapped()
    ensures !StartsWith(MissingKeyMessage, WrapPrefix)
  {
    assert MissingKeyMessage[0] == 'P';
    assert WrapPrefix[0] == 'E';
  }

  /** An error surfaces unwrapped exactly when no request was sent. */
  lemma ErrorShapes(prompt: Option<string>, settings: Settings, upstream: Upstream)
    ensures var r := ImageGenerationViaStableDiffusion(prompt, settings, upstream);
      r.result.Failure? ==> (StartsWith(r.result.error, WrapPrefix) <==> r.sent.Some?)
  {
    MissingKeyIsUnwrapped();
  }

  /** A resolved dimension resolves to itself: passing on the value that was
      sent would send it again unchanged. */
  lemma ResolveDimensionIdempotent(d: Dimension)
    ensures ResolveDimension(Coerced(ResolveDimension(d))) == ResolveDimension(d)
  {
  }

  /** Reads a wrapped upstream error message back into its status code and body. */
  function ParseUpstreamError(message: string): Option<(nat, string)>
  {
    var prefix := WrapPrefix + UpstreamErrorPrefix;
    if !StartsWith(message, prefix) then None
    else ParseStatusAndBody(message[|prefix|..])
  }

  /** Reads `<status>, Message: <body>`. */
  function ParseStatusAndBody(s: string): Option<(nat, string)>
  {
    var digits := LeadingDigits(s);
    var tail := s[|digits|..];
    if |digits| == 0 || !StartsWith(tail, UpstreamErrorSeparator) then None
    else Some((DecimalValue(digits), tail[|UpstreamErrorSeparator|..]))
  }

  lemma ParseStatusAndBodyOf(status: nat, body: string)
    ensures ParseStatusAndBody(NatToDecimal(status) + (UpstreamErrorSeparator + body)) == Some((status, body))
  {
    var d := NatToDecimal(status);
    var rest := UpstreamErrorSeparator + body;
    LeadingDigitsOf(d, rest);
    assert (d + rest)[|d|..] == rest;
    assert rest[..|UpstreamErrorSeparator|] == UpstreamErrorSeparator;
    DecimalRoundTrip(status);
  }

  /** A response whose `ok` is false yields an error from which its status
      code and its body text are both recovered exactly. */
  lemma RejectedErrorRoundTrip(prompt: Option<string>, settings: Settings, status: nat, body: string)
    requires ValidateAPIKey(settings.stabilityAPIKey).None?
    ensures var r := ImageGenerationViaStableDiffusion(prompt, settings, Rejected(status, body));
      r.result.Failure? && ParseUpstreamError(r.result.error) == Some((status, body))
  {
    var r := ImageGenerationViaStableDiffusion(prompt, settings, Rejected(status, body));
    var inner := UpstreamErrorMessage(status, body);
    assert r.result == Failure(WrapPrefix + inner);
    StartsWithShift(WrapPrefix, UpstreamErrorPrefix, inner);
  }

  lemma StartsWithShift(q: string, p: string, s: string)
    requires StartsWith(s, p)
    ensures StartsWith(q + s, q + p) && (q + s)[|q + p|..] == s[|p|..]
  {
    assert (q + s)[..|q + p|] == q + s[..|p|];
  }

  /** On success the result is the markdown image of the escaped prompt and
      the payload, and it reads back as that prompt and payload. */
  lemma SucceededYieldsImage(prompt: Option<string>, settings: Settings, base64: string)
    requires ValidateAPIKey(settings.stabilityAPIKey).None?
    requires IsBase64(base64)
    ensures var r := ImageGenerationViaStableDiffusion(prompt, settings, Succeeded(base64));
      && r.result == Success(ImageMarkdown(prompt, base64))
      && ReadImage(r.result.value) == Some((AltText(PromptText(prompt)), base64))
  {
  }
}
