# Stable Diffusion XL image plugin — Dafny model

This project models the core of a small plugin that sends a text prompt to
the Stability AI text-to-image endpoint and returns the generated picture as
a markdown image with a base64 data URL. Its only algorithmic part is the
alt-text escaper `escapeAlt`; around it sit the API-key check, the
width/height defaulting, the two error messages and the markdown assembly
of `image_generation_via_stable_diffusion` and `generateImageFromStabilityAPI`.

Modules:

- `Wrappers` (`wrappers.dfy`): `Option` for values that may be `undefined`,
  `Result` for "returns a value or throws an error".
- `Replace` (`replace.dfy`): `ReplaceAll(s, c, rep)`, the behaviour of
  `text.replace(/c/g, rep)` for a one-character pattern and a replacement
  with no `$` (JavaScript expands `$&`, `$$` and the like in a replacement;
  none of the escaper's six replacements holds a `$`).
- `Escape` (`escape.dfy`): `EscapeAlt` is the six replacements composed in
  source order (backslash, newline, `[`, `]`, `<`, `>`), after the
  empty/absent short-circuit. It is proved equal to an order-free
  per-character rewriting, `EscapeEach`. That equality is what the
  "backslash first" order buys. The module also gives exact character
  counts of the output, shows every bracket is escaped, and characterises
  when the output equals the input and when escaping twice changes nothing.
- `Markdown` (`markdown.dfy`): the assembled image string
  `![alt](data:image/png;base64,payload)`, and a strict reader of it. The
  reader resolves backslash escapes of `\`, `[` and `]`, ends the alt text
  at the first unescaped `]` and rejects an unescaped `[`. It is stricter
  than CommonMark, which allows balanced brackets in link text. Reading the
  assembled string back gives the prompt, with newlines and angle brackets
  as the escaper rewrote them, and the payload. So, for this reader, no
  prompt can end the alt text early or lose a character.
- `Decimal` (`decimal.dfy`): how a template literal renders an HTTP status
  code, with a parser that reads it back.
- `Generation` (`generation.dfy`): the decision skeleton of the two
  generation functions as a total function. The network call is a
  parameter: the abstract outcome `Upstream`. The result records the request
  sent, if any, and the value returned or the message thrown.

The key is validated before the `try` block (implementation.js:18 and
implementation.js:20). So a missing key is thrown with its bare message and
no request is built. Only errors raised inside the `try` get the `Error: `
prefix.

## Model

| member | source | states |
|---|---|---|
| Replace.ReplaceAll | implementation.js:6-12 | a global one-character replace leaves a text without that character unchanged, and leaves no occurrence of it when the replacement does not contain it |
| Escape.EscapePipeline | implementation.js:6-12 | the six chained replacements leave no newline, `<` or `>`, never shorten the text, and return a text holding none of the six special characters unchanged |
| Replace.ReplaceAllConcat | implementation.js:6-12 | a global one-character replace acts on each character independently, so it distributes over concatenation |
| Escape.EscapeAlt | implementation.js:1-13 | absent or empty text gives the empty string; the output never contains a newline, `<` or `>`; every `[` or `]` in it is preceded by an odd run of backslashes; it is never shorter than the input |
| Escape.PipelineIsEscapeEach | implementation.js:6-12 | the six replacements in source order equal the per-character rewriting, so no replacement rewrites what an earlier one produced |
| Escape.EscapeEachBracketsEscaped | implementation.js:7-10 | after escaping, every bracket is preceded by an odd run of backslashes and the text ends in an even run, so doubled input backslashes never unescape a bracket |
| Escape.EscapeAltCounts | implementation.js:7-12 | output backslashes are twice the input's plus one per bracket; bracket counts are kept; each newline becomes exactly one space; no newline or angle bracket remains; the output is longer by one per backslash or bracket and three per angle bracket |
| Escape.EscapeAltConcat | implementation.js:6-12 | escaping a concatenation is the concatenation of the escapes |
| Escape.EscapeAltFixedPoint | implementation.js:6-12 | the escaper returns its input unchanged if and only if the input holds none of the six special characters |
| Escape.EscapeAltIdempotentIff | implementation.js:6-12 | escaping twice equals escaping once if and only if the input has no backslash and no square bracket |
| Escape.EscapeAltNotIdempotent | implementation.js:9 | escaping `[` twice differs from escaping it once |
| Escape.EscapeAltExampleBackslash | implementation.js:7 | `a\b` escapes to `a\\b` |
| Escape.EscapeAltExampleNewline | implementation.js:8 | `a` newline `b` escapes to `a b` |
| Escape.NewlineBetweenPlain | implementation.js:8 | a newline between two texts free of special characters becomes one space and nothing else changes |
| Escape.EscapeAltExampleBrackets | implementation.js:9-12 | `[x]<y>` escapes to `\[x\]&lt;y&gt;` |
| Escape.BackslashFirstMatters | implementation.js:7-10 | with backslash doubling moved last, `[` would come out preceded by an even run of backslashes, so unescaped; in source order it is escaped |
| Markdown.ReadEscapeAlt | implementation.js:1-13 | the escaped alt text followed by `]` reads back as the prompt, with newlines as spaces and angle brackets as entities, and the reader stops exactly at that `]` |
| Markdown.ImageMarkdown | implementation.js:70-71 | for a base64 payload, the assembled markdown image reads back as the prompt's alt text and that payload, whatever the prompt contains |
| Decimal.NatToDecimal | implementation.js:65 | a status code renders as a non-empty string of digits with no leading zero |
| Decimal.DecimalRoundTrip | implementation.js:65 | the rendered status code parses back to the same number |
| Generation.UpstreamErrorMessage | implementation.js:64-66 | the message starts with `Stability API error: `, and the status code and the body text are both recovered exactly from the rest |
| Generation.ValidateAPIKey | implementation.js:35-41 | fails if and only if the key is absent or empty, and then with exactly the configuration message |
| Generation.ResolveDimension | implementation.js:24-25 | a non-zero coerced value is passed on; unset, zero or NaN becomes 1024; the result is never zero |
| Generation.ResolveDimensionIdempotent | implementation.js:24-25 | passing on an already-resolved dimension leaves it unchanged |
| Generation.GenerateImageFromStabilityAPI | implementation.js:42-72 | succeeds exactly when the upstream call succeeded, and then returns exactly the markdown image of the escaped prompt and the first artifact's payload, which reads back as the prompt's alt text and the payload; a response whose `ok` is false throws `Stability API error: <status>, Message: <body>`; any other failure (a rejected `fetch`, a rejected `response.text()` or `response.json()`, or the TypeError from an empty `artifacts` array) throws its own message |
| Generation.ImageGenerationViaStableDiffusion | implementation.js:15-33 | no request is sent exactly when the key is missing, and then the bare configuration message is thrown; otherwise the request carries the key, the prompt and the resolved width and height, the call succeeds exactly when the upstream call did and then returns the markdown image, and every error from inside the `try` is rethrown with the `Error: ` prefix |
| Generation.MissingKeyIsUnwrapped | implementation.js:18-41 | the configuration message does not start with `Error: ` |
| Generation.ErrorShapes | implementation.js:15-33 | an error carries the `Error: ` prefix if and only if a request was sent |
| Generation.RejectedErrorRoundTrip | implementation.js:62-66 | for a response whose `ok` is false, both the status code and the body text can be recovered exactly from the thrown `Error: Stability API error: <status>, Message: <body>` |
| Generation.SucceededYieldsImage | implementation.js:69-71 | with a valid key and a successful response, the result is the markdown image of the escaped prompt and the payload, and it reads back as both |

## Left out

- The `fetch` call, its headers, the endpoint URL and the `async`/`await` sequencing: network I/O. The upstream is the abstract outcome `Upstream`, which the caller supplies.
- The fixed request-body fields (`cfg_scale`, `samples`, `steps`), `JSON.stringify` and `response.json()`: foreign serialisation. `ImageRequest` keeps only the fields that depend on the inputs.
- The `console.error` logging in the `catch` block: a side effect only.
- JavaScript's `Number()` coercion of arbitrary strings and floating-point values: a coerced dimension is an integer, NaN or unset. Fractions, infinities and `-0` are not modelled.
- The shape of the JSON body is not modelled. A first artifact without a `base64` field does not throw: the template literal writes `undefined` into the data URL and the call succeeds, which the caller expresses as `Succeeded("undefined")`. An empty or absent `artifacts` array makes `data.artifacts[0]` throw a TypeError, which the `catch` rewraps; its message is engine-specific, so the caller supplies it in `TransportFailed`.
- Generation.GenerateImageFromStabilityAPI: `Rejected` is not tied to a status outside 200-299, because the outcome is abstract; the model does not check that `ok` is false only for such statuses.
- Escape.EscapeAlt: a non-string argument is not modelled. Falsy non-strings short-circuit like `None`. Truthy non-strings throw in the source because they have no `replace`.
- Markdown.ReadLinkText is a reference reader used to state what "safe inside the alt text" means. It is not a full CommonMark parser: it does not decode entity references (a renderer shows `&amp;lt;` as `&lt;`, and because `&` is not escaped a prompt holding `&amp;` is shown as `&`), and it does not treat code spans (inside backticks a backslash stays literal, so `\[` there shows both characters).
- Strings: Dafny strings hold Unicode scalar values, while JavaScript strings are sequences of UTF-16 code units. Lone surrogates cannot be represented, and the lengths in `Escape.EscapeAltCounts` count code points, not `.length` units.
