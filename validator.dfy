/** `TSONValidator`: diagnostics for `tson` documents (whole-document parse,
    bracket fallback) and for `tsonl` documents (one parse per line), kept in
    two collections keyed by document URI. */
module Validator {
  import opened Text
  import opened Wrappers
  import opened TsonJs
  import opened Diagnostics
  import opened Editor
  import opened Brackets
  import opened LineStream

  const InvalidLine: Text := "Invalid TSON object in line"

  /** One column-0 diagnostic on line k per error of a `TSONParseErrors`. */
  function ErrorsOnLine(k: nat, errors: seq<ParseError>): (r: seq<Diagnostic>)
    ensures |r| == |errors|
    ensures forall m :: 0 <= m < |errors| ==> r[m] == CreateDiagnostic(k, 0, errors[m].message)
  {
    seq(|errors|, m requires 0 <= m < |errors| => CreateDiagnostic(k, 0, errors[m].message))
  }

  /** What `validateTSONL` pushes for raw line k. */
  function LineDiagnostics<V>(lib: Codecs<V>, k: nat, line: Text): seq<Diagnostic> {
    var t := Trim(line);
    if IsPassThrough(t) then []
    else match lib.parse(t)
      case Parsed(_) => []
      case Failed(TsonParseError(e)) => [CreateDiagnostic(k, 0, e.message)]
      case Failed(TsonParseErrors(es)) => ErrorsOnLine(k, es)
      case Failed(OtherException) => [CreateDiagnostic(k, 0, InvalidLine)]
  }

  /** The diagnostics of each line, line k's at index k. */
  function LineBlocks<V>(lib: Codecs<V>, lines: seq<Text>): (r: seq<seq<Diagnostic>>)
    ensures |r| == |lines|
    ensures forall k :: 0 <= k < |lines| ==> r[k] == LineDiagnostics(lib, k, lines[k])
  {
    seq(|lines|, k requires 0 <= k < |lines| => LineDiagnostics(lib, k, lines[k]))
  }

  /** What `validateTSONL` collects: the diagnostics of every line, in line
      order. */
  function TsonlDiagnostics<V>(lib: Codecs<V>, text: Text): seq<Diagnostic> {
    Flatten(LineBlocks(lib, Split(text)))
  }

  /** The body of the loop of `validateTSONL` for raw line k: the
      diagnostics it pushes. */
  method CollectLine<V>(lib: Codecs<V>, k: nat, raw: Text) returns (pushed: seq<Diagnostic>)
    ensures pushed == LineDiagnostics(lib, k, raw)
  {
    pushed := [];
    var line := Trim(raw);
    if line == "" || StartsWith(line, "//") {
      return;
    }
    var outcome := lib.parse(line);
    if outcome.Failed? {
      match outcome.thrown {
        case TsonParseError(error) =>
          pushed := [CreateDiagnostic(k, 0, error.message)];
        case TsonParseErrors(errors) =>
          for m := 0 to |errors|
            invariant pushed == ErrorsOnLine(k, errors[..m])
          {
            assert ErrorsOnLine(k, errors[..m + 1]) == ErrorsOnLine(k, errors[..m]) + [CreateDiagnostic(k, 0, errors[m].message)];
            pushed := pushed + [CreateDiagnostic(k, 0, errors[m].message)];
          }
          assert errors[..|errors|] == errors;
        case OtherException =>
          pushed := [CreateDiagnostic(k, 0, InvalidLine)];
      }
    }
  }

  /** The loop of `validateTSONL`. */
  method CollectTsonlDiagnostics<V>(lib: Codecs<V>, text: Text) returns (diagnostics: seq<Diagnostic>)
    ensures diagnostics == TsonlDiagnostics(lib, text)
  {
    var lines := Split(text);
    ghost var blocks := LineBlocks(lib, lines);
    diagnostics := [];
    for i := 0 to |lines|
      invariant diagnostics == Flatten(blocks[..i])
    {
      var pushed := CollectLine(lib, i, lines[i]);
      assert blocks[..i + 1][..i] == blocks[..i];
      diagnostics := diagnostics + pushed;
    }
    assert blocks[..|lines|] == blocks;
  }

  /** Where `validateTSONL` reports: line k at column 0, one character wide,
      and only for a line that is neither blank nor a comment and failed to
      parse. */
  ghost predicate ReportsFailingLine<V>(lib: Codecs<V>, lines: seq<Text>, d: Diagnostic) {
    && d.startLine < |lines|
    && d.startCol == 0 && d.endLine == d.startLine && d.endCol == 1
    && !IsPassThrough(Trim(lines[d.startLine]))
    && lib.parse(Trim(lines[d.startLine])).Failed?
  }

  lemma LineDiagnosticsAt<V>(lib: Codecs<V>, lines: seq<Text>, k: nat)
    requires k < |lines|
    ensures forall d :: d in LineDiagnostics(lib, k, lines[k]) ==> ReportsFailingLine(lib, lines, d) && d.startLine == k
  {
  }

  lemma LineBlocksByLine<V>(lib: Codecs<V>, lines: seq<Text>)
    ensures BlocksByLine(LineBlocks(lib, lines))
  {
    forall k | 0 <= k < |lines| {
      LineDiagnosticsAt(lib, lines, k);
    }
  }

  /** Every diagnostic of a TSONL document sits at column 0 of a line that is
      neither blank nor a comment and failed to parse, one character wide;
      the lines never decrease. */
  lemma TsonlDiagnosticsAt<V>(lib: Codecs<V>, text: Text)
    ensures forall m :: 0 <= m < |TsonlDiagnostics(lib, text)| ==>
      ReportsFailingLine(lib, Split(text), TsonlDiagnostics(lib, text)[m])
    ensures forall m, p :: 0 <= m < p < |TsonlDiagnostics(lib, text)| ==>
      TsonlDiagnostics(lib, text)[m].startLine <= TsonlDiagnostics(lib, text)[p].startLine
  {
    var lines := Split(text);
    var blocks := LineBlocks(lib, lines);
    LineBlocksByLine(lib, lines);
    FlattenOrdered(blocks);
    FlattenMembers(blocks);
    forall m | 0 <= m < |Flatten(blocks)|
      ensures ReportsFailingLine(lib, lines, Flatten(blocks)[m])
    {
      var d := Flatten(blocks)[m];
      assert d in Flatten(blocks);
      var j :| 0 <= j < |blocks| && d in blocks[j];
      LineDiagnosticsAt(lib, lines, j);
    }
  }

  /** Line isolation: the diagnostics of a TSONL document that fall on line k
      are exactly those line k produces on its own: none for a blank,
      comment or parsable line, one for a single parse error, one per error
      of an error list, one "Invalid TSON object in line" for anything else. */
  lemma LineIsolation<V>(lib: Codecs<V>, text: Text, k: nat)
    requires k < |Split(text)|
    ensures OnLine(TsonlDiagnostics(lib, text), k) == LineDiagnostics(lib, k, Split(text)[k])
  {
    LineBlocksByLine(lib, Split(text));
    FlattenOnLine(LineBlocks(lib, Split(text)), k);
  }

  /** One diagnostic with the error's own range per error of a
      `TSONParseErrors`. */
  function ErrorsWithRanges(errors: seq<ParseError>): (r: seq<Diagnostic>)
    ensures |r| == |errors|
    ensures forall m :: 0 <= m < |errors| ==> r[m] == CreateDiagnosticWithError(errors[m])
  {
    seq(|errors|, m requires 0 <= m < |errors| => CreateDiagnosticWithError(errors[m]))
  }

  /** What `validateTSON` collects for a whole document. */
  function TsonDiagnostics<V>(lib: Codecs<V>, text: Text): seq<Diagnostic> {
    match lib.parse(text)
    case Parsed(_) => []
    case Failed(TsonParseError(e)) => [CreateDiagnosticWithError(e)]
    case Failed(TsonParseErrors(es)) => ErrorsWithRanges(es)
    case Failed(OtherException) => BracketDiagnostics(text)
  }

  /** The body of `validateTSON`: dispatch on what the parser threw; the
      bracket fallback runs only for an exception that is neither kind of
      parse error. */
  method CollectTsonDiagnostics<V>(lib: Codecs<V>, text: Text) returns (diagnostics: seq<Diagnostic>)
    ensures diagnostics == TsonDiagnostics(lib, text)
    ensures lib.parse(text).Parsed? ==> diagnostics == []
    ensures lib.parse(text).Failed? && lib.parse(text).thrown.TsonParseErrors? ==>
      |diagnostics| == |lib.parse(text).thrown.errors|
  {
    diagnostics := [];
    var outcome := lib.parse(text);
    if outcome.Failed? {
      match outcome.thrown {
        case TsonParseError(error) =>
          diagnostics := diagnostics + [CreateDiagnosticWithError(error)];
        case TsonParseErrors(errors) =>
          for m := 0 to |errors|
            invariant diagnostics == ErrorsWithRanges(errors[..m])
          {
            assert ErrorsWithRanges(errors[..m + 1]) == ErrorsWithRanges(errors[..m]) + [CreateDiagnosticWithError(errors[m])];
            diagnostics := diagnostics + [CreateDiagnosticWithError(errors[m])];
          }
          assert errors[..|errors|] == errors;
        case OtherException =>
          diagnostics := ValidateBasicBrackets(text, diagnostics);
      }
    }
  }

  /** A whole document that fails with a parse error, or a list of them,
      gets exactly the errors' own ranges and messages, in order, and no
      bracket report. */
  lemma ParseErrorsReportedAsThrown<V>(lib: Codecs<V>, text: Text)
    requires lib.parse(text).Failed? && !lib.parse(text).thrown.OtherException?
    ensures var errors := if lib.parse(text).thrown.TsonParseError? then [lib.parse(text).thrown.error]
                          else lib.parse(text).thrown.errors;
      |TsonDiagnostics(lib, text)| == |errors|
      && forall m :: 0 <= m < |errors| ==> TsonDiagnostics(lib, text)[m] == CreateDiagnosticWithError(errors[m])
  {
  }

  class TSONValidator {
    /** The "tson" and "tsonl" diagnostic collections, by document URI. */
    var tsonDiagnostics: map<Text, seq<Diagnostic>>
    var tsonlDiagnostics: map<Text, seq<Diagnostic>>

    constructor ()
      ensures tsonDiagnostics == map[] && tsonlDiagnostics == map[]
    {
      tsonDiagnostics := map[];
      tsonlDiagnostics := map[];
    }

    /** `validate`: "tson" documents go to the whole-document check, "tsonl"
        documents to the per-line check, anything else changes nothing. */
    method Validate<V>(lib: Codecs<V>, document: Document)
      modifies this
      ensures document.languageId == "tson" ==>
        tsonDiagnostics == old(tsonDiagnostics)[document.uri := TsonDiagnostics(lib, document.text)]
        && tsonlDiagnostics == old(tsonlDiagnostics)
      ensures document.languageId == "tsonl" ==>
        tsonlDiagnostics == old(tsonlDiagnostics)[document.uri := TsonlDiagnostics(lib, document.text)]
        && tsonDiagnostics == old(tsonDiagnostics)
      ensures document.languageId != "tson" && document.languageId != "tsonl" ==>
        tsonDiagnostics == old(tsonDiagnostics) && tsonlDiagnostics == old(tsonlDiagnostics)
    {
      var languageId := document.languageId;
      if languageId == "tson" {
        ValidateTSON(lib, document);
      } else if languageId == "tsonl" {
        ValidateTSONL(lib, document);
      }
    }

    /** `validateTSONL`: replaces the document's entry in the "tsonl"
        collection. */
    method ValidateTSONL<V>(lib: Codecs<V>, document: Document)
      modifies this
      ensures tsonlDiagnostics == old(tsonlDiagnostics)[document.uri := TsonlDiagnostics(lib, document.text)]
      ensures tsonDiagnostics == old(tsonDiagnostics)
    {
      var diagnostics := CollectTsonlDiagnostics(lib, document.text);
      tsonlDiagnostics := tsonlDiagnostics[document.uri := diagnostics];
    }

    /** `validateTSON`: replaces the document's entry in the "tson"
        collection. */
    method ValidateTSON<V>(lib: Codecs<V>, document: Document)
      modifies this
      ensures tsonDiagnostics == old(tsonDiagnostics)[document.uri := TsonDiagnostics(lib, document.text)]
      ensures tsonlDiagnostics == old(tsonlDiagnostics)
    {
      var diagnostics := CollectTsonDiagnostics(lib, document.text);
      tsonDiagnostics := tsonDiagnostics[document.uri := diagnostics];
    }
  }
}
