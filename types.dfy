/** Values that cross the boundary between the HTTP layer, the text
    pipeline and the glyph renderer. */
module Types {
  import opened Wrappers

  /** A JavaScript value read from a query string or a JSON body: a string,
      or any other value (number, boolean, null, array, object), told
      apart from the others by its JSON text and carrying its truthiness.
      A repeated query parameter (`?font=a&font=b`) is the array `["a","b"]`. */
  datatype JsValue = JsString(s: string) | JsNonString(json: string, truthy: bool)

  /** A thrown JavaScript `Error`: its `code` and `message` properties,
      either of which may be `undefined`. */
  datatype JsError = JsError(code: Option<string>, message: Option<string>)

  /** The glyph backend (`figlet.text`): one line of text and the font
      option in, the rendered art or the error it reports out. */
  type Renderer = (string, JsValue) -> Result<string, JsError>
}
