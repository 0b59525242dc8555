/** The interface the extension uses from the `tson-js` library and from the
    built-in `JSON` object.  Neither is part of this model: their behaviour
    enters every operation as the fields of a `Codecs` value, so each
    property holds for whatever the library does. */
module TsonJs {
  import opened Text
  import opened Wrappers

  /** A position the library reports, as `error.cursor`. */
  datatype Cursor = Cursor(line: nat, column: nat)

  /** A `TSONParseError`: a message, a start cursor and an optional end
      cursor. */
  datatype ParseError = ParseError(message: Text, cursor: Cursor, endCursor: Option<Cursor>)

  /** What `TSON.parse` can throw, told apart the way the extension's
      `instanceof` tests do. */
  datatype Thrown =
    | TsonParseError(error: ParseError)
    | TsonParseErrors(errors: seq<ParseError>)
    | OtherException

  /** The outcome of one call to `TSON.parse`. */
  datatype ParseOutcome<V> = Parsed(value: V) | Failed(thrown: Thrown)

  /** The four foreign functions, over the JavaScript value type `V`:
      `TSON.parse`, `TSON.stringify(value, pretty)`, `JSON.parse` (None when it
      throws) and `JSON.stringify` (with two-space indentation when the flag
      is set). */
  datatype Codecs<!V> = Codecs(
    parse: Text -> ParseOutcome<V>,
    stringify: (V, bool) -> Text,
    jsonParse: Text -> Option<V>,
    jsonStringify: (V, bool) -> Text)

  /** `TSON.stringify(value, false)` and `TSON.stringify(value, true)`. */
  function Compact<V>(lib: Codecs<V>, v: V): Text { lib.stringify(v, false) }
  function Pretty<V>(lib: Codecs<V>, v: V): Text { lib.stringify(v, true) }

  /** `JSON.stringify(value)` and `JSON.stringify(value, null, 2)`. */
  function JsonCompact<V>(lib: Codecs<V>, v: V): Text { lib.jsonStringify(v, false) }
  function JsonIndented<V>(lib: Codecs<V>, v: V): Text { lib.jsonStringify(v, true) }
}
