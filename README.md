# ASCII-art endpoint: a verified model

This project models the text pipeline behind the `/api/ascii` endpoint of
a small Express service (`src/server.js`). The service turns text into
ASCII-art block letters.

A request passes through four stages:

- A method guard accepts only GET and POST.
- The text and the font are read from the query string (GET) or the JSON
  body (POST). A falsy font becomes `Standard`.
- A non-string text is rejected.
- The text is normalised, rendered and answered:
  - `normalizeMultilineText` turns the literal two characters `\n`, CRLF
    and lone CR into LF, splits the text into lines and right-trims each
    line.
  - It then rejects more than 10 lines (`too_many_lines`), then any line
    wider than 80 UTF-16 code units (`line_too_long`), then text whose
    lines are all whitespace (`empty_text`).
  - `renderAsciiMultiline` sends each non-blank line to the glyph backend
    (`figlet.text`). It right-trims the art it gets back, gives an empty
    segment for a blank line, aborts on the first backend error, and joins
    the segments with `"\n\n"`.
  - A thrown error is mapped to 400 `too_many_lines`, 400 `line_too_long`
    or 400 `invalid_text`. Any other error becomes 400 `invalid_font` when
    its lower-cased message contains `font`, and 500 `figlet_error`
    otherwise.

Modules:

- `Wrappers` holds `Option` and `Result`.
- `Types` holds the JavaScript values a request can carry, the thrown error
  (`JsError`: an optional `code` and an optional `message`) and the
  `Renderer` type.
- `JsText` models the JavaScript string built-ins the code uses. These are
  `trimEnd`, `trim`, `replace(/…/g, …)`, `split`, `join`, `includes`,
  `toLowerCase` and `.length`.
- `Normalize` models `normalizeMultilineText`.
- `Render` models `renderAsciiMultiline`.
- `Api` models the method guard, the request accessors and the two
  handlers.

How the model is built:

- The glyph backend is a parameter `render: (line, font) -> Result<art,
  error>`.
- Each method that calls it returns, as a ghost out-parameter, the
  sequence of lines it handed to the backend. Its contract ties that
  sequence to a specification function (`Render.Calls`,
  `Api.RequestCalls`).
- The loops of the source keep their form. These are the width check of
  `normalizeMultilineText` and the `push` loop of `renderAsciiMultiline`.
  They are `while` loops proved equal to the specification functions
  `Normalize.Normalized` and `Render.Joined`.

Two consequences of the code are worth knowing:

- The rendered block can end in whitespace. A trailing blank input line,
  as in `"A\n"` (split into `["A", ""]`), leaves the block ending in
  `"\n\n"`. `Render.TrailingBlankLine` proves this.
- The escape is replaced before CRLF. So a lone CR directly followed by a
  literal backslash-n becomes one CRLF and gives a single line break. A LF
  or a second lone CR in the same place gives a break of its own.
  `Normalize.CarriageReturnBeforeEscape` proves all three cases.

A request's non-string value (a number, boolean, `null`, array or object,
such as the array that `?font=a&font=b` produces) is carried by its JSON
text together with its truthiness. So distinct non-string fonts stay
distinct when they are echoed and when they are handed to the backend.

## Model

| member | source | states |
|---|---|---|
| JsText.TrimEnd | src/server.js:37 | definition of `trimEnd`, removing trailing whitespace; characterised by `JsText.TrimEndSpec` |
| JsText.IsWs | src/server.js:37-76 | definition of the characters `trimEnd`, `trimStart` and `trim` remove: the ECMAScript WhiteSpace set (TAB, VT, FF, SP, NBSP, ZWNBSP and every other Zs code point) and the LineTerminator set (LF, CR, LS, PS), used at :37, :47, :71 and :76; characterised by `JsText.TrimEndSpec` and `JsText.TrimStartSpec` |
| JsText.TrimStart | src/server.js:47 | definition of `trimStart`, the second half of `trim` here and at :71, removing leading whitespace; characterised by `JsText.TrimStartSpec` |
| JsText.Trim | src/server.js:47 | definition of `trim` as `trimStart` after `trimEnd`; characterised by `JsText.TrimEmptyIffBlank` |
| JsText.ReplaceAll | src/server.js:27 | definition of a global replace of a literal pattern, leftmost matches first, without overlap; characterised by the `ReplaceAll…` lemmas |
| JsText.Contains | src/server.js:107 | definition of `includes`; characterised by `JsText.ContainsIff` |
| JsText.JoinWith | src/server.js:79 | definition of `join`; characterised by `JsText.JoinSplit`, `JsText.SplitJoin` and `JsText.JoinWithSnoc` |
| JsText.JsLength | src/server.js:40 | `line.length` counts UTF-16 code units: at least one and at most two per code point |
| JsText.TrimEndSpec | src/server.js:37 | `trimEnd` keeps a prefix of the line. What it removes is all whitespace. What it keeps does not end in whitespace |
| JsText.TrimStartSpec | src/server.js:47 | `trimStart` keeps a suffix of the line. What it removes is all whitespace. What it keeps does not start with whitespace |
| JsText.TrimEndBlank | src/server.js:37 | `trimEnd` gives the empty string exactly when the line is all whitespace |
| JsText.TrimEmptyIffBlank | src/server.js:47 | `trim` gives the empty string exactly when the line is all whitespace |
| JsText.ContainsIff | src/server.js:107 | `includes` holds exactly when the substring occurs at some index |
| JsText.ReplaceAllAbsent | src/server.js:27 | a global replace of a pattern that does not occur leaves the text unchanged |
| JsText.ReplaceAllAppend | src/server.js:27 | a global replace of a pattern of one or two characters distributes over a concatenation when no match straddles the boundary |
| JsText.ReplaceAllRemovesChar | src/server.js:27 | replacing every occurrence of a character by text without it leaves no occurrence |
| JsText.ReplaceAllBlank | src/server.js:27 | replacing a pattern by whitespace in a whitespace text leaves it all whitespace |
| JsText.Split | src/server.js:28 | `split` on a character gives one more piece than the character's occurrences, and no piece contains it |
| JsText.JoinSplit | src/server.js:28 | joining the pieces of a split with the separator gives back the text |
| JsText.SplitJoin | src/server.js:28 | splitting a join of separator-free pieces gives back the pieces |
| JsText.SplitBlank | src/server.js:28 | every piece of a split whitespace text is all whitespace |
| JsText.JoinWithSnoc | src/server.js:79 | joining one more segment appends the separator and that segment |
| JsText.ToLower | src/server.js:107 | `toLowerCase` keeps the length and lowers every character independently |
| Normalize.Unified | src/server.js:27 | definition of the three chained replacements, in the source's order; characterised by `NoCarriageReturn`, `EscapedNewlineIsNewline`, `LineBreakStyles`, `MixedBreakStyles` and `CarriageReturnBeforeEscape` |
| Normalize.Lines | src/server.js:28 | definition of `text.split('\n')` on the unified text; characterised by `LineBreakStyles`, `MixedBreakStyles` and `TooManyLinesFirst` |
| Normalize.TooManyLines | src/server.js:32-34 | definition of the error thrown for more than 10 lines, with code `too_many_lines` and the message the 400 response at :109 echoes; characterised by `ValidatedOutcome` and `Api.ErrorClassification` |
| Normalize.LineTooLong | src/server.js:41-43 | definition of the error thrown for a line wider than 80, with code `line_too_long` and the message the 400 response at :112 echoes; characterised by `ValidatedOutcome` and `Api.ErrorClassification` |
| Normalize.EmptyText | src/server.js:49-51 | definition of the error thrown when every line is blank, with code `empty_text`; the 400 response at :114-115 replaces its message by the text-required message; characterised by `ValidatedOutcome`, `EmptyInputIsEmptyText`, `BlankTextIsEmptyText` and `Api.ErrorClassification` |
| Normalize.Validated | src/server.js:28-54 | definition of the checks on the split lines, in the source's order; characterised by `ValidatedOutcome` and `ValidatedSuccess` |
| Normalize.Normalized | src/server.js:26-55 | definition of what `normalizeMultilineText` returns or throws: `Validated` of the split lines of `Unified`; characterised by `ValidatedOutcome`, `TooManyLinesFirst`, `EmptyInputIsEmptyText`, `BlankLineIsEmptyText` and `BlankTextIsEmptyText` |
| Normalize.SomeLineTooLong | src/server.js:39-45 | definition of the width test of the loop: some line longer than 80 UTF-16 code units; characterised by `ValidatedOutcome` and `NormalizeMultilineText` |
| Normalize.HasAnyContent | src/server.js:47 | definition of `trimmedLines.some(l => l.trim().length > 0)`; characterised by `ValidatedOutcome` and `TrimmedLineHasContent` |
| Normalize.TrimmedLines | src/server.js:37 | `lines.map(l => l.trimEnd())`: one line out per line in, at the same index. Each is a prefix of its input line, so leading whitespace is kept. The tail it drops is all whitespace, and it does not itself end in whitespace |
| Normalize.NormalizeMultilineText | src/server.js:26-55 | the method with its width-check loop returns or throws exactly `Normalized` of the raw text |
| Normalize.NoCarriageReturn | src/server.js:27 | after the three replacements the text contains no CR |
| Normalize.EscapedNewlineIsNewline | src/server.js:27 | a literal backslash-n between two texts gives the same unified text and the same normalisation outcome as a real LF |
| Normalize.LineBreakStyles | src/server.js:27-28 | lines free of CR, LF and backslash-n, joined throughout by any one of LF, CRLF, CR or backslash-n, split back into exactly those lines |
| Normalize.MixedBreakStyles | src/server.js:27-28 | non-empty lines free of CR, LF and backslash-n, each pair joined by its own choice of LF, CRLF, CR or backslash-n, split back into exactly those lines |
| Normalize.ReplaceAllMixed | src/server.js:27 | a global replace of a pattern that occurs in no line and straddles no boundary replaces exactly the separators equal to it |
| Normalize.CarriageReturnBeforeEscape | src/server.js:27-28 | a lone CR followed by a literal backslash-n gives one break between two plain lines. A LF followed by backslash-n, or two CRs, gives two breaks, with an empty line between |
| Normalize.ValidatedOutcome | src/server.js:28-52 | each of the four outcomes, stated as an if-and-only-if on the split lines: more than 10 lines; otherwise some right-trimmed line wider than 80; otherwise every line all whitespace; otherwise success. So the checks apply in that order |
| Normalize.TooManyLinesFirst | src/server.js:28-35 | raw text gives `too_many_lines` exactly when the unified text holds at least 10 LFs, whatever its lines hold |
| Normalize.ValidatedSuccess | src/server.js:37-54 | on success there is one line per split line, in order. Each is its split line with only trailing whitespace removed (leading whitespace kept). There are at most 10 lines, none wider than 80, and at least one has a non-whitespace character |
| Normalize.ValidatedClean | src/server.js:37-54 | at most 10 lines that are already right-trimmed, fit the width and are not all blank come back unchanged |
| Normalize.TrimmedLineHasContent | src/server.js:47 | a right-trimmed line has content for `trim` exactly when the raw line is not all whitespace |
| Normalize.EmptyInputIsEmptyText | src/server.js:28-52 | the empty text splits into `[""]` and is rejected with `empty_text` |
| Normalize.BlankLineIsEmptyText | src/server.js:27-52 | any all-whitespace text without line breaks is rejected with `empty_text` |
| Normalize.BlankTextIsEmptyText | src/server.js:27-52 | any text whose unified form is all whitespace with fewer than 10 LFs is rejected with `empty_text`, whatever break styles it uses, including blank lines separated by a literal backslash-n |
| Normalize.UnifiedBlank | src/server.js:27 | the three replacements keep an all-whitespace text all whitespace |
| Render.Segment | src/server.js:71-76 | definition of one line's segment: `""` for a blank line, otherwise the right-trimmed art or the backend's error; characterised by `SegmentsSuccess` and `FirstFailure` |
| Render.Segments | src/server.js:69-77 | definition of the segments of all lines, stopping at the first error; characterised by `SegmentsSuccess`, `PrefixFailure` and `FirstFailure` |
| Render.Calls | src/server.js:70-76 | definition of the lines handed to the backend; characterised by `CallsOnSuccess`, `FirstFailure` and `NoBlankLineRendered` |
| Render.Rendered | src/server.js:66-80 | definition of what `renderAsciiMultiline` resolves to or rejects with: the error of `Normalized`, or `Joined` of its lines; characterised by `RenderAsciiMultiline`, `EscapedTwoLines` and `TrailingBlankLine` |
| Render.Joined | src/server.js:69-79 | definition of what the loop and the `join` produce from the normalised lines; characterised by `RenderLines`, `SegmentsSuccess` and `FirstFailure` |
| Render.RenderCalls | src/server.js:67-75 | definition of the lines `renderAsciiMultiline` hands to the backend: none when normalisation throws, otherwise `Calls` of the lines; characterised by `RenderAsciiMultiline`, `CallsOnSuccess`, `FirstFailure` and `NoBlankLineRendered` |
| Render.RenderAsciiMultiline | src/server.js:66-80 | the result is the normalisation error, or the joined rendering of the normalised lines: exactly `Rendered`. The lines sent to the backend are exactly `RenderCalls` |
| Render.RenderLines | src/server.js:69-79 | the loop with its `push` returns the segments of the lines joined with `"\n\n"`, or the first backend error. It sends the backend exactly the non-blank lines up to the first failure |
| Render.PrefixFailure | src/server.js:75 | once a line fails, later lines change neither the error nor the calls made: the request is aborted |
| Render.SegmentsSuccess | src/server.js:69-77 | rendering succeeds exactly when the backend accepts every non-blank line. Then there is one segment per line, in order: `""` for a blank line and the right-trimmed art for the others |
| Render.CallsOnSuccess | src/server.js:70-76 | on success the backend saw exactly the non-blank lines, in order |
| Render.FailureIndex | src/server.js:70-75 | a failed rendering has a failing line inside the input |
| Render.FirstFailure | src/server.js:70-75 | a failed rendering reports the backend's error for the first non-blank line it rejects. Every earlier line rendered, and the backend saw the non-blank lines up to that one and none after |
| Render.NoBlankLineRendered | src/server.js:71-74 | no blank line is ever sent to the backend |
| Render.TrailingBlankLine | src/server.js:71-79 | a successful rendering whose last normalised line is blank ends in the `"\n\n"` separator |
| Render.EscapedTwoLines | src/server.js:27-79 | two clean non-blank lines separated by a literal backslash-n render as the two right-trimmed arts joined by one blank line |
| Api.FromRequest | src/server.js:12-24 | definition of where a field is read: the query for GET, `req.body?.[key]` for any other method; characterised by `GetAndPostAgree` |
| Api.TextFromRequest | src/server.js:12-17 | definition of `getTextFromRequest` |
| Api.FontFromRequest | src/server.js:19-24 | definition of `getFontFromRequest` |
| Api.ErrorResponse | src/server.js:106-121 | definition of the `catch` of both handlers (also lines 140-155); characterised by `ErrorClassification` and `HandlersMapErrorsAlike` |
| Api.HandlerResponse | src/server.js:90-156 | definition of the GET and POST handler bodies for a given text-required message; characterised by `HandlersAgree`, `NonStringTextRejected` and `SuccessfulResponse` |
| Api.AsciiResponse | src/server.js:82-156 | definition of the method guard followed by the handler; characterised by `OtherMethodsRejected`, `GetAndPostAgree` and `SuccessfulResponse` |
| Api.Truthy | src/server.js:92 | definition of JavaScript truthiness as the logical-or fallback uses it: `undefined` and `""` are falsy, a non-string value by its own truthiness; characterised by `FontOrDefault` |
| Api.MessageText | src/server.js:107 | definition of the message text the font test reads (the message, or `''` when it is missing or empty); characterised by `ErrorClassification` |
| Api.MethodNotAllowed | src/server.js:83-85 | definition of the 405 response with `Allow: GET, POST` and `method_not_allowed`; characterised by `OtherMethodsRejected` |
| Api.MethodAllowed | src/server.js:83 | definition of the methods the guard lets through, GET and POST; characterised by `OtherMethodsRejected` and `HandleAsciiRequest` |
| Api.TextRequiredMessage | src/server.js:95 | definition of the message for a missing text, naming the query parameter for GET (here and at :115) and the body field for POST (at :129 and :149); characterised by `NonStringTextRejected` and `HandlersAgree` |
| Api.OutcomeResponse | src/server.js:98-121 | definition of the `then` (200 with text, font and art) and the `catch` (`ErrorResponse`) of a handler; characterised by `OutcomesAgree` and `SuccessfulResponse` |
| Api.RequestCalls | src/server.js:82-98 | definition of the lines a request hands to the backend: none for a rejected method or a non-string text, otherwise `RenderCalls`; characterised by `HandleAsciiRequest`, `OtherMethodsRejected`, `NonStringTextRejected`, `GetAndPostAgree` and `BlankTextRejected` |
| Api.FontOrDefault | src/server.js:92 | the font used is always truthy: a truthy requested font unchanged, any other becomes `Standard` |
| Api.HandleAsciiRequest | src/server.js:82-156 | the guard and the handlers give exactly `AsciiResponse` of the request, and send exactly `RequestCalls` of it to the backend |
| Api.FontTestIsCaseInsensitive | src/server.js:107 | the lower-cased message contains `font` exactly when the message holds `font` in some mix of letter cases |
| Api.ErrorClassification | src/server.js:106-121 | every error becomes 400 or 500 with an error body, and 500 exactly for `figlet_error`. The three validation codes map to their responses whatever the message says. Any other error is `invalid_font` 400 exactly when its message holds `font` in any case, and `figlet_error` 500 otherwise |
| Api.HandlersMapErrorsAlike | src/server.js:140-155 | the two `catch` blocks give every error the same status and code, and the same whole response except for `empty_text` |
| Api.HandlersAgree | src/server.js:90-156 | for the same text and font the two handlers give the same status, the same code, and the same whole response except the `invalid_text` message |
| Api.OtherMethodsRejected | src/server.js:82-88 | any method other than GET and POST gets 405 `method_not_allowed` with `Allow: GET, POST`, and nothing is rendered |
| Api.NonStringTextRejected | src/server.js:94-96 | a missing or non-string text gets 400 `invalid_text` with the handler's message, and nothing is rendered |
| Api.GetAndPostAgree | src/server.js:12-24 | a GET whose query carries the same text and font as a POST's body gets the same response (but for the `invalid_text` wording) and sends the same lines to the backend |
| Api.SuccessfulResponse | src/server.js:98-105 | a 200 response echoes the received text and the truthy font used, and carries the segments of the normalised lines joined by blank lines |
| Api.BlankTextRejected | src/server.js:114-116 | an all-whitespace text without line breaks gets 400 `invalid_text` with the handler's message, and nothing is rendered |

## Left out

- Express wiring is not part of this model. That covers `app.listen`, the JSON body parser and its 32 KB limit, the `/health` route, the 404 handler, the `invalid_json`/`internal_error` middleware and `console` logging. They are framework and I/O plumbing. The body parser and the error middleware answer a request whose JSON body fails to parse or exceeds 32 KB before the guard at src/server.js:82 runs, whatever its method (a PUT included). So `Api.OtherMethodsRejected` and the handlers describe requests whose body parsed.
- `/api/fonts` and the internals of `figlet.text` are not part of this model. The glyph backend is a parameter, a total and pure function of the line and the font. So every property holds for any backend whose answer depends only on the line and the font, and that always answers. A callback that never fires would leave the request at src/server.js:75 waiting, and the model does not capture that.
- `figletTextAsync` and the `async`/`await` mechanics are modelled as one sequential call that returns a `Result`. Only one request is modelled at a time.
- `public/app.js` is not part of this model. It is browser UI code.
- Strings are sequences of Unicode code points. Unpaired UTF-16 surrogates cannot be written. `.length` counts code points above U+FFFF twice.
- A backend that reports success with non-string data, and a `null` or non-`Error` rejection value, are not modelled. The error is a record with an optional string `code` and an optional string `message`, and `String(err?.message || '')` is modelled for string messages only.
- The model's `ErrorResponse` computes the case-insensitive `font` test only in the last branch. The source computes it before the validation codes are tested, but nothing observable depends on the order.
- A JSON body is modelled as a map from property names to values. A body that is absent or has no such property reads as `undefined`. Prototype properties are not modelled.
- JsText.ToLower: lowers only the ASCII letters A to Z. JavaScript's `toLowerCase` also lowers other letters, and U+0130 lowers to two characters. The font test at src/server.js:107 is unaffected. In Unicode's full lower-case mapping no character other than `F`, `O`, `N` and `T` lowers to a string containing `f`, `o`, `n` or `t`, and no character lowers to the empty string. So `includes('font')` on the lowered message gives the same answer under both mappings, and `Api.ErrorClassification` holds for JavaScript's mapping as well.
