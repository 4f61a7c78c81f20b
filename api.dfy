/**
  The `/api/ascii` endpoint: the method guard, where text and font are
  read from, the default font, the text type check, and the mapping of a
  thrown error to an HTTP status, error code and message.
*/
module Api {
  import opened Wrappers
  import opened JsText
  import opened Types
  import opened Normalize
  import opened Render

  /** An incoming request: its method, its parsed query string and its
      parsed JSON body (`undefined` when there was none). */
  datatype Request = Request(verb: string, query: map<string, JsValue>, body: Option<map<string, JsValue>>)

  /** A JSON response body. */
  datatype Body =
    | AsciiBody(text: string, font: JsValue, ascii: string)
    | ErrorBody(error: string, message: Option<string>)

  /** An HTTP response: status, the `Allow` header if set, and body. */
  datatype Response = Response(status: int, allow: Option<string>, body: Body)

  const DefaultFont := "Standard"
  const GetTextRequired := "Query param \"text\" \U{E9} obrigat\U{F3}rio."
  const PostTextRequired := "Body field \"text\" \U{E9} obrigat\U{F3}rio."

  /** `obj[key]`, `undefined` for a missing property. */
  function Property(obj: map<string, JsValue>, key: string): Option<JsValue> {
    if key in obj then Some(obj[key]) else None
  }

  /** `getTextFromRequest` and `getFontFromRequest`: the query for GET,
      `req.body?.[key]` for every other method. */
  function FromRequest(req: Request, key: string): Option<JsValue> {
    if req.verb == "GET" then Property(req.query, key)
    else if req.body.Some? then Property(req.body.value, key)
    else None
  }

  function TextFromRequest(req: Request): Option<JsValue> {
    FromRequest(req, "text")
  }

  function FontFromRequest(req: Request): Option<JsValue> {
    FromRequest(req, "font")
  }

  /** JavaScript truthiness; `undefined` is falsy. */
  predicate Truthy(v: Option<JsValue>) {
    match v
    case None => false
    case Some(JsString(s)) => s != []
    case Some(JsNonString(_, t)) => t
  }

  /** `font || 'Standard'`: the font handed to the backend is always
      truthy; a truthy font is kept as it is, any other becomes the
      default font. */
  function FontOrDefault(font: Option<JsValue>): (chosen: JsValue)
    ensures Truthy(Some(chosen))
    ensures Truthy(font) ==> Some(chosen) == font
    ensures !Truthy(font) ==> chosen == JsString(DefaultFont)
  {
    if Truthy(font) then font.value else JsString(DefaultFont)
  }

  /** The methods the guard lets through. */
  predicate MethodAllowed(verb: string) {
    verb == "GET" || verb == "POST"
  }

  /** The 405 response of the method guard. */
  function MethodNotAllowed(): Response {
    Response(405, Some("GET, POST"), ErrorBody("method_not_allowed", None))
  }

  /** The message for a missing text: the GET handler names the query
      parameter, the POST handler the body field. */
  function TextRequiredMessage(verb: string): string {
    if verb == "GET" then GetTextRequired else PostTextRequired
  }

  /** `String(err?.message || '')`. */
  function MessageText(err: JsError): string {
    match err.message
    case Some(m) => m
    case None => ""
  }

  predicate IsValidationCode(code: Option<string>) {
    code == Some(TooManyLinesCode) || code == Some(LineTooLongCode) || code == Some(EmptyTextCode)
  }

  /** The `catch` of both handlers: the validation codes first, then the
      font heuristic on the message (the source computes the heuristic
      first; it has no effect on the first three branches). */
  function ErrorResponse(err: JsError, textRequired: string): Response {
    if err.code == Some(TooManyLinesCode) then
      Response(400, None, ErrorBody("too_many_lines", err.message))
    else if err.code == Some(LineTooLongCode) then
      Response(400, None, ErrorBody("line_too_long", err.message))
    else if err.code == Some(EmptyTextCode) then
      Response(400, None, ErrorBody("invalid_text", Some(textRequired)))
    else
      var isFontMissing := Contains(ToLower(MessageText(err)), "font");
      Response(if isFontMissing then 400 else 500, None,
               ErrorBody(if isFontMissing then "invalid_font" else "figlet_error", err.message))
  }

  /** The body of the GET and of the POST handler, which differ only in
      the message for a missing text. */
  function HandlerResponse(text: Option<JsValue>, font: JsValue, textRequired: string, render: Renderer): Response {
    if !(text.Some? && text.value.JsString?) then
      Response(400, None, ErrorBody("invalid_text", Some(textRequired)))
    else
      OutcomeResponse(text.value.s, font, Rendered(text.value.s, font, render), textRequired)
  }

  /** The `then` and the `catch` of a handler: the rendered block, or the
      error mapped to a status. */
  function OutcomeResponse(text: string, font: JsValue, outcome: Result<string, JsError>, textRequired: string): Response {
    match outcome
    case Success(ascii) => Response(200, None, AsciiBody(text, font, ascii))
    case Failure(e) => ErrorResponse(e, textRequired)
  }

  /** The response to a request on `/api/ascii`. */
  function AsciiResponse(req: Request, render: Renderer): Response {
    if !MethodAllowed(req.verb) then MethodNotAllowed()
    else HandlerResponse(TextFromRequest(req), FontOrDefault(FontFromRequest(req)), TextRequiredMessage(req.verb), render)
  }

  /** The lines a request on `/api/ascii` sends to the backend. */
  ghost function RequestCalls(req: Request, render: Renderer): seq<string> {
    var text := TextFromRequest(req);
    if !MethodAllowed(req.verb) || !(text.Some? && text.value.JsString?) then []
    else RenderCalls(text.value.s, FontOrDefault(FontFromRequest(req)), render)
  }

  /** The method guard followed by the GET or the POST handler. */
  method HandleAsciiRequest(req: Request, render: Renderer) returns (resp: Response, ghost calls: seq<string>)
    ensures resp == AsciiResponse(req, render)
    ensures calls == RequestCalls(req, render)
  {
    calls := [];
    if req.verb != "GET" && req.verb != "POST" {
      resp := MethodNotAllowed();
      return;
    }
    var text := TextFromRequest(req);
    var font := FontOrDefault(FontFromRequest(req));
    var textRequired := TextRequiredMessage(req.verb);
    if !(text.Some? && text.value.JsString?) {
      resp := Response(400, None, ErrorBody("invalid_text", Some(textRequired)));
      return;
    }
    var r;
    r, calls := RenderAsciiMultiline(text.value.s, font, render);
    match r
    case Success(ascii) =>
      resp := Response(200, None, AsciiBody(text.value.s, font, ascii));
    case Failure(e) =>
      resp := ErrorResponse(e, textRequired);
  }

  /** `c` is one of the two cases of a letter. */
  predicate IsLetter(c: char, lower: char, upper: char) {
    c == lower || c == upper
  }

  /** The word "font" in any mix of cases starts at index `i` of `m`. */
  predicate FontAt(m: string, i: int) {
    0 <= i <= |m| - 4
    && IsLetter(m[i], 'f', 'F') && IsLetter(m[i + 1], 'o', 'O')
    && IsLetter(m[i + 2], 'n', 'N') && IsLetter(m[i + 3], 't', 'T')
  }

  /** The font heuristic finds "font" in the message whatever the case of
      its letters. */
  lemma FontTestIsCaseInsensitive(m: string)
    ensures Contains(ToLower(m), "font") <==> exists i :: FontAt(m, i)
  {
    var low := ToLower(m);
    ContainsIff(low, "font");
    forall i | OccursAt(low, "font", i) ensures FontAt(m, i) {
      LowerFontAt(m, i);
    }
    if exists i :: FontAt(m, i) {
      var i :| FontAt(m, i);
      LowerFontAt(m, i);
    }
  }

  /** After lowering, "font" starts at `i` exactly when the original has
      "font" there in some mix of cases. */
  lemma LowerFontAt(m: string, i: int)
    ensures OccursAt(ToLower(m), "font", i) <==> FontAt(m, i)
  {
    var low := ToLower(m);
    if 0 <= i <= |m| - 4 {
      var w := low[i..i + 4];
      assert w == [low[i], low[i + 1], low[i + 2], low[i + 3]];
      assert OccursAt(low, "font", i) <==> w == "font";
      LowerIsLetter(m[i], 'f', 'F');
      LowerIsLetter(m[i + 1], 'o', 'O');
      LowerIsLetter(m[i + 2], 'n', 'N');
      LowerIsLetter(m[i + 3], 't', 'T');
    }
  }

  /** Lowering gives a lower-case letter exactly from that letter in
      either case. */
  lemma LowerIsLetter(c: char, lower: char, upper: char)
    requires 'A' <= upper <= 'Z' && lower as int == upper as int + 32
    ensures LowerChar(c) == lower <==> IsLetter(c, lower, upper)
  {
  }

  /** Every error becomes a 400 or a 500 without an `Allow` header; the
      validation codes decide first, whatever the message says; any other
      error is `invalid_font` (400) exactly when its message contains
      "font" in any case, and `figlet_error` (500) otherwise. */
  lemma ErrorClassification(err: JsError, textRequired: string)
    ensures var r := ErrorResponse(err, textRequired);
      r.allow == None && r.body.ErrorBody? && (r.status == 400 || r.status == 500)
      && (r.status == 500 <==> r.body.error == "figlet_error")
    ensures err.code == Some(TooManyLinesCode) ==>
      ErrorResponse(err, textRequired) == Response(400, None, ErrorBody("too_many_lines", err.message))
    ensures err.code == Some(LineTooLongCode) ==>
      ErrorResponse(err, textRequired) == Response(400, None, ErrorBody("line_too_long", err.message))
    ensures err.code == Some(EmptyTextCode) ==>
      ErrorResponse(err, textRequired) == Response(400, None, ErrorBody("invalid_text", Some(textRequired)))
    ensures !IsValidationCode(err.code) ==>
      var invalidFont := Response(400, None, ErrorBody("invalid_font", err.message));
      (ErrorResponse(err, textRequired) == invalidFont <==> exists i :: FontAt(MessageText(err), i))
    ensures !IsValidationCode(err.code) ==>
      var figletError := Response(500, None, ErrorBody("figlet_error", err.message));
      (ErrorResponse(err, textRequired) == figletError <==> !exists i :: FontAt(MessageText(err), i))
  {
    FontTestIsCaseInsensitive(MessageText(err));
  }

  /** The GET and the POST handler map every error alike but for the
      wording of the `invalid_text` message. */
  lemma HandlersMapErrorsAlike(err: JsError, getMessage: string, postMessage: string)
    ensures ErrorResponse(err, getMessage).status == ErrorResponse(err, postMessage).status
    ensures ErrorResponse(err, getMessage).body.error == ErrorResponse(err, postMessage).body.error
    ensures err.code != Some(EmptyTextCode) ==> ErrorResponse(err, getMessage) == ErrorResponse(err, postMessage)
  {
  }

  /** The two handlers answer the same text and font alike but for the
      wording of the `invalid_text` message. */
  lemma HandlersAgree(text: Option<JsValue>, font: JsValue, getMessage: string, postMessage: string, render: Renderer)
    ensures var g, p := HandlerResponse(text, font, getMessage, render), HandlerResponse(text, font, postMessage, render);
      && g.status == p.status
      && (g.body.ErrorBody? <==> p.body.ErrorBody?)
      && (g.body.ErrorBody? ==> g.body.error == p.body.error)
      && (!(g.body.ErrorBody? && g.body.error == "invalid_text") ==> g == p)
  {
    if text.Some? && text.value.JsString? {
      OutcomesAgree(text.value.s, font, Rendered(text.value.s, font, render), getMessage, postMessage);
    }
  }

  /** `HandlersAgree` for a given outcome of the rendering. */
  lemma OutcomesAgree(text: string, font: JsValue, outcome: Result<string, JsError>, getMessage: string, postMessage: string)
    ensures var g, p := OutcomeResponse(text, font, outcome, getMessage), OutcomeResponse(text, font, outcome, postMessage);
      && g.status == p.status
      && (g.body.ErrorBody? <==> p.body.ErrorBody?)
      && (g.body.ErrorBody? ==> g.body.error == p.body.error)
      && (!(g.body.ErrorBody? && g.body.error == "invalid_text") ==> g == p)
  {
    if outcome.Failure? {
      HandlersMapErrorsAlike(outcome.error, getMessage, postMessage);
    }
  }

  /** A method other than GET and POST gets 405 with `Allow: GET, POST`
      and nothing is rendered. */
  lemma OtherMethodsRejected(req: Request, render: Renderer)
    requires !MethodAllowed(req.verb)
    ensures AsciiResponse(req, render).status == 405
    ensures AsciiResponse(req, render).allow == Some("GET, POST")
    ensures AsciiResponse(req, render).body == ErrorBody("method_not_allowed", None)
    ensures RequestCalls(req, render) == []
  {
  }

  /** A text that is missing or not a string gets 400 `invalid_text` and
      nothing is rendered. */
  lemma NonStringTextRejected(req: Request, render: Renderer)
    requires MethodAllowed(req.verb)
    requires TextFromRequest(req).None? || TextFromRequest(req).value.JsNonString?
    ensures AsciiResponse(req, render) == Response(400, None, ErrorBody("invalid_text", Some(TextRequiredMessage(req.verb))))
    ensures RequestCalls(req, render) == []
  {
  }

  /** A GET whose query carries the same text and font as a POST's body
      gets the same response, but for the wording of `invalid_text`, and
      sends the same lines to the backend. */
  lemma GetAndPostAgree(get: Request, post: Request, render: Renderer)
    requires get.verb == "GET" && post.verb == "POST"
    requires TextFromRequest(get) == TextFromRequest(post) && FontFromRequest(get) == FontFromRequest(post)
    ensures AsciiResponse(get, render).status == AsciiResponse(post, render).status
    ensures AsciiResponse(get, render).body.ErrorBody? <==> AsciiResponse(post, render).body.ErrorBody?
    ensures AsciiResponse(get, render).body.ErrorBody? ==>
      AsciiResponse(get, render).body.error == AsciiResponse(post, render).body.error
    ensures !(AsciiResponse(get, render).body.ErrorBody? && AsciiResponse(get, render).body.error == "invalid_text") ==>
      AsciiResponse(get, render) == AsciiResponse(post, render)
    ensures RequestCalls(get, render) == RequestCalls(post, render)
  {
    HandlersAgree(TextFromRequest(get), FontOrDefault(FontFromRequest(get)), GetTextRequired, PostTextRequired, render);
  }

  /** A 200 response carries the text as received, the truthy font used
      and the segments of the normalised lines joined by blank lines. */
  lemma SuccessfulResponse(req: Request, render: Renderer)
    requires AsciiResponse(req, render).status == 200
    ensures var body := AsciiResponse(req, render).body;
      && body.AsciiBody?
      && TextFromRequest(req) == Some(JsString(body.text))
      && body.font == FontOrDefault(FontFromRequest(req)) && Truthy(Some(body.font))
      && Normalized(body.text).Success?
      && Segments(Normalized(body.text).value, body.font, render).Success?
      && body.ascii == JoinWith(Segments(Normalized(body.text).value, body.font, render).value, Separator)
  {
    var text := TextFromRequest(req);
    var font := FontOrDefault(FontFromRequest(req));
    if text.Some? && text.value.JsString? {
      var r := Rendered(text.value.s, font, render);
      if r.Failure? {
        ErrorClassification(r.error, TextRequiredMessage(req.verb));
      }
    }
  }

  /** A text of whitespace without line breaks (such as "   ") is
      answered 400 `invalid_text` with the missing-text message, and
      nothing is rendered. */
  lemma BlankTextRejected(req: Request, render: Renderer, text: string)
    requires MethodAllowed(req.verb) && TextFromRequest(req) == Some(JsString(text))
    requires IsBlank(text) && '\n' !in text && '\r' !in text
    ensures AsciiResponse(req, render) == Response(400, None, ErrorBody("invalid_text", Some(TextRequiredMessage(req.verb))))
    ensures RequestCalls(req, render) == []
  {
    BlankLineIsEmptyText(text);
  }
}
