/** `TSONDocumentFormatter`: whole-document formatting for `tson`, per-line
    compact formatting for `tsonl`. */
module Formatter {
  import opened Text
  import opened Wrappers
  import opened TsonJs
  import opened LineStream

  /** `formatTSONText`: the pretty form of the parsed document, or the text
      as it was when parsing throws. */
  function FormatTSONText<V>(lib: Codecs<V>, text: Text): Text {
    match lib.parse(text)
    case Parsed(v) => Pretty(lib, v)
    case Failed(_) => text
  }

  /** The `try` block of `formatTSONLText`: parse the trimmed line and
      re-serialise it compactly. */
  function CompactLine<V>(lib: Codecs<V>): Text -> Option<Text> {
    t => match lib.parse(t)
      case Parsed(v) => Some(Compact(lib, v))
      case Failed(_) => None
  }

  /** `formatTSONLText`. */
  method FormatTSONLText<V>(lib: Codecs<V>, text: Text) returns (formatted: Text)
    ensures formatted == Rewrite(CompactLine(lib), text)
  {
    formatted := RewriteLines(CompactLine(lib), text);
  }

  /** Line k of the TSONL formatting is the trimmed line k when that is
      blank, a comment or unparsable, and its compact re-serialisation
      otherwise; the number of lines is kept when compact output is a single
      line. */
  lemma FormatTSONLLines<V>(lib: Codecs<V>, text: Text)
    requires forall v :: '\n' !in Compact(lib, v)
    ensures |Split(Rewrite(CompactLine(lib), text))| == |Split(text)|
    ensures forall k :: 0 <= k < |Split(text)| ==>
      Split(Rewrite(CompactLine(lib), text))[k] ==
        var t := Trim(Split(text)[k]);
        if IsPassThrough(t) || lib.parse(t).Failed? then t else Compact(lib, lib.parse(t).value)
  {
    assert SingleLine(CompactLine(lib)) by {
      forall t | CompactLine(lib)(t).Some?
        ensures '\n' !in CompactLine(lib)(t).value
      {
        assert CompactLine(lib)(t).value == Compact(lib, lib.parse(t).value);
      }
    }
    LineStructure(CompactLine(lib), text);
  }

  /** If compact output parses back to the value, carries no surrounding
      whitespace and holds no line feed, formatting a TSONL text twice gives
      what formatting it once gives. */
  lemma FormatTSONLIdempotent<V>(lib: Codecs<V>, text: Text)
    requires forall v :: lib.parse(Compact(lib, v)) == Parsed(v)
    requires forall v :: Trim(Compact(lib, v)) == Compact(lib, v) && '\n' !in Compact(lib, v)
    ensures Rewrite(CompactLine(lib), Rewrite(CompactLine(lib), text)) == Rewrite(CompactLine(lib), text)
  {
    var convert := CompactLine(lib);
    assert StableOnOutput(convert) by {
      forall t | convert(t).Some?
        ensures var s := convert(t).value;
          Trim(s) == s && '\n' !in s && (!IsPassThrough(s) ==> convert(s) == Some(s))
      {
        var v := lib.parse(t).value;
        var s := Compact(lib, v);
        assert convert(t).value == s;
        assert lib.parse(s) == Parsed(v);
        assert convert(s) == Some(Compact(lib, v));
      }
    }
    RewriteIdempotent(convert, text);
  }

  /** If pretty output parses back to the value, formatting a TSON document
      twice gives what formatting it once gives. */
  lemma FormatTSONTextIdempotent<V>(lib: Codecs<V>, text: Text)
    requires forall v :: lib.parse(Pretty(lib, v)) == Parsed(v)
    ensures FormatTSONText(lib, FormatTSONText(lib, text)) == FormatTSONText(lib, text)
  {
    if lib.parse(text).Parsed? {
      var v := lib.parse(text).value;
      assert lib.parse(Pretty(lib, v)) == Parsed(v);
    }
  }

  /** `provideDocumentFormattingEdits` and `provideDocumentRangeFormattingEdits`:
      the replacement text for the document (or the selected range), per-line
      iff the language id is "tsonl". */
  method FormatForLanguage<V>(lib: Codecs<V>, languageId: Text, text: Text) returns (formatted: Text)
    ensures languageId == "tsonl" ==> formatted == Rewrite(CompactLine(lib), text)
    ensures languageId != "tsonl" && lib.parse(text).Failed? ==> formatted == text
    ensures languageId != "tsonl" && lib.parse(text).Parsed? ==> formatted == Pretty(lib, lib.parse(text).value)
  {
    var isTSONL := languageId == "tsonl";
    if isTSONL {
      formatted := FormatTSONLText(lib, text);
    } else {
      formatted := FormatTSONText(lib, text);
    }
  }
}
