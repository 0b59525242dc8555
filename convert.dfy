/** The two conversion commands: TSON/TSONL to JSON/JSONL and back.  Each
    builds the target path from the source path and the new content from
    the old; reading the source, writing the target and the messages shown
    are not part of this model. */
module Convert {
  import opened Text
  import opened Wrappers
  import opened TsonJs
  import opened LineStream
  import opened Formatter

  /** What a conversion writes: the new file's path and its content. */
  datatype Conversion = Conversion(targetPath: Text, content: Text)

  /** `path.replace(/\.(stem|stem l)$/i, target)` for a lower-case ASCII
      `stem`: a trailing `.stem` or `.steml`, in any letter case, becomes
      `target`; a path with neither is returned as it is. */
  function ReplaceExtension(path: Text, stem: Text, target: Text): Text {
    var lower := ToLowerAscii(path);
    if EndsWith(lower, "." + stem + "l") then path[..|path| - |stem| - 2] + target
    else if EndsWith(lower, "." + stem) then path[..|path| - |stem| - 1] + target
    else path
  }

  /** The extension of a path, in any letter case, matches `.stem` or
      `.steml`. */
  predicate HasExtension(path: Text, stem: Text) {
    EndsWith(ToLowerAscii(path), "." + stem + "l") || EndsWith(ToLowerAscii(path), "." + stem)
  }

  lemma LowerOfAppend(p: Text, e: Text)
    ensures ToLowerAscii(p + e) == ToLowerAscii(p) + ToLowerAscii(e)
  {
    assert ToLowerAscii(p + e) == ToLowerAscii(p) + ToLowerAscii(e);
  }

  lemma EndsWithOfAppend(s: Text, e: Text)
    ensures EndsWith(s + e, e)
  {
    assert (s + e)[|s + e| - |e|..] == e;
  }

  /** A path ending in an extension that reads `.stem` or `.steml` in some
      letter case gets `target` in its place, and keeps everything before
      it. */
  lemma ReplaceMatchedExtension(p: Text, e: Text, stem: Text, target: Text)
    requires ToLowerAscii(e) == "." + stem || ToLowerAscii(e) == "." + stem + "l"
    requires stem != [] && stem[|stem| - 1] != 'l'
    ensures HasExtension(p + e, stem)
    ensures ReplaceExtension(p + e, stem, target) == p + target
  {
    var path := p + e;
    var lower := ToLowerAscii(path);
    LowerOfAppend(p, e);
    EndsWithOfAppend(ToLowerAscii(p), ToLowerAscii(e));
    if ToLowerAscii(e) == "." + stem {
      assert lower[|lower| - 1] == stem[|stem| - 1];
      assert !EndsWith(lower, "." + stem + "l");
      assert path[..|path| - |stem| - 1] == p;
    } else {
      assert path[..|path| - |stem| - 2] == p;
    }
  }

  /** A path whose extension is neither `.stem` nor `.steml` in any letter
      case is left as it is. */
  lemma ReplaceUnmatchedExtension(path: Text, stem: Text, target: Text)
    requires !HasExtension(path, stem)
    ensures ReplaceExtension(path, stem, target) == path
  {
  }

  /** The four extensions are already in lower case. */
  lemma ExtensionsInLowerCase()
    ensures ToLowerAscii(".tson") == ".tson" && ToLowerAscii(".tsonl") == ".tsonl"
    ensures ToLowerAscii(".json") == ".json" && ToLowerAscii(".jsonl") == ".jsonl"
  {
  }

  /** `isJSONL`: the path ends in `.jsonl` in any letter case. */
  predicate IsJsonlPath(path: Text) {
    EndsWith(ToLowerAscii(path), ".jsonl")
  }

  /** The `try` block of the TSONL-to-JSONL loop. */
  function TsonToJsonLine<V>(lib: Codecs<V>): Text -> Option<Text> {
    t => match lib.parse(t)
      case Parsed(v) => Some(JsonCompact(lib, v))
      case Failed(_) => None
  }

  /** The `try` block of the JSONL-to-TSONL loop. */
  function JsonToTsonLine<V>(lib: Codecs<V>): Text -> Option<Text> {
    t => match lib.jsonParse(t)
      case Some(v) => Some(Compact(lib, v))
      case None => None
  }

  /** What `handleConvertToJson` writes for a document with the given path,
      language id and text; None when a whole TSON document fails to parse
      and nothing is written. */
  function ToJson<V>(lib: Codecs<V>, path: Text, languageId: Text, content: Text): Option<Conversion> {
    var isTSONL := languageId == "tsonl";
    var target := ReplaceExtension(path, "tson", if isTSONL then ".jsonl" else ".json");
    if isTSONL then Some(Conversion(target, Rewrite(TsonToJsonLine(lib), content)))
    else match lib.parse(content)
      case Parsed(v) => Some(Conversion(target, JsonIndented(lib, v)))
      case Failed(_) => None
  }

  /** What `handleConvertToTSON` writes; line-wise exactly when the path
      ends in `.jsonl`. */
  function ToTson<V>(lib: Codecs<V>, path: Text, content: Text): Option<Conversion> {
    var isJSONL := IsJsonlPath(path);
    var target := ReplaceExtension(path, "json", if isJSONL then ".tsonl" else ".tson");
    if isJSONL then Some(Conversion(target, Rewrite(JsonToTsonLine(lib), content)))
    else match lib.jsonParse(content)
      case Some(v) => Some(Conversion(target, Pretty(lib, v)))
      case None => None
  }

  /** `handleConvertToJson` without the editor and the file system. */
  method ConvertToJson<V>(lib: Codecs<V>, path: Text, languageId: Text, content: Text) returns (r: Option<Conversion>)
    ensures r == ToJson(lib, path, languageId, content)
  {
    var isTSONL := languageId == "tsonl";
    var targetExtension := if isTSONL then ".jsonl" else ".json";
    var jsonContent;
    if isTSONL {
      jsonContent := RewriteLines(TsonToJsonLine(lib), content);
    } else {
      var outcome := lib.parse(content);
      if outcome.Failed? {
        return None;
      }
      jsonContent := JsonIndented(lib, outcome.value);
    }
    var jsonPath := ReplaceExtension(path, "tson", targetExtension);
    r := Some(Conversion(jsonPath, jsonContent));
  }

  /** `handleConvertToTSON` without the editor and the file system. */
  method ConvertToTson<V>(lib: Codecs<V>, path: Text, content: Text) returns (r: Option<Conversion>)
    ensures r == ToTson(lib, path, content)
  {
    var isJSONL := IsJsonlPath(path);
    var targetExtension := if isJSONL then ".tsonl" else ".tson";
    var tsonContent;
    if isJSONL {
      tsonContent := RewriteLines(JsonToTsonLine(lib), content);
    } else {
      var parsed := lib.jsonParse(content);
      if parsed.None? {
        return None;
      }
      tsonContent := Pretty(lib, parsed.value);
    }
    var tsonPath := ReplaceExtension(path, "json", targetExtension);
    r := Some(Conversion(tsonPath, tsonContent));
  }

  /** A TSON or TSONL document converts to a file beside it: `.tson` becomes
      `.json` and `.tsonl` becomes `.jsonl`, in any letter case, when the
      language id agrees with the extension; a whole document is converted
      exactly when it parses. */
  lemma ToJsonTarget<V>(lib: Codecs<V>, p: Text, e: Text, languageId: Text, content: Text)
    requires ToLowerAscii(e) == (if languageId == "tsonl" then ".tsonl" else ".tson")
    ensures ToJson(lib, p + e, languageId, content).Some? <==>
      (languageId == "tsonl" || lib.parse(content).Parsed?)
    ensures ToJson(lib, p + e, languageId, content).Some? ==>
      ToJson(lib, p + e, languageId, content).value.targetPath == p + (if languageId == "tsonl" then ".jsonl" else ".json")
  {
    assert "." + "tson" == ".tson" && "." + "tson" + "l" == ".tsonl";
    ReplaceMatchedExtension(p, e, "tson", if languageId == "tsonl" then ".jsonl" else ".json");
  }

  /** A JSON or JSONL file converts to a file beside it: `.json` becomes
      `.tson` and `.jsonl` becomes `.tsonl`, in any letter case; a whole
      document is converted exactly when it parses as JSON. */
  lemma ToTsonTarget<V>(lib: Codecs<V>, p: Text, e: Text, content: Text)
    requires ToLowerAscii(e) == ".json" || ToLowerAscii(e) == ".jsonl"
    ensures ToTson(lib, p + e, content).Some? <==>
      (ToLowerAscii(e) == ".jsonl" || lib.jsonParse(content).Some?)
    ensures ToTson(lib, p + e, content).Some? ==>
      ToTson(lib, p + e, content).value.targetPath == p + (if ToLowerAscii(e) == ".jsonl" then ".tsonl" else ".tson")
  {
    JsonlTest(p, e);
    var target := if ToLowerAscii(e) == ".jsonl" then ".tsonl" else ".tson";
    assert "." + "json" == ".json" && "." + "json" + "l" == ".jsonl";
    ReplaceMatchedExtension(p, e, "json", target);
    assert ReplaceExtension(p + e, "json", if IsJsonlPath(p + e) then ".tsonl" else ".tson") == p + target;
  }

  /** The `.jsonl` test of a JSON or JSONL extension holds exactly for the
      latter. */
  lemma JsonlTest(p: Text, e: Text)
    requires ToLowerAscii(e) == ".json" || ToLowerAscii(e) == ".jsonl"
    ensures IsJsonlPath(p + e) <==> ToLowerAscii(e) == ".jsonl"
  {
    LowerOfAppend(p, e);
    EndsWithOfAppend(ToLowerAscii(p), ToLowerAscii(e));
    if ToLowerAscii(e) == ".json" {
      var lower := ToLowerAscii(p + e);
      assert lower[|lower| - 1] == 'n';
    }
  }

  /** A path without a TSON extension keeps its name: only the content
      changes. */
  lemma ToJsonKeepsOtherPaths<V>(lib: Codecs<V>, path: Text, languageId: Text, content: Text)
    requires !HasExtension(path, "tson")
    requires ToJson(lib, path, languageId, content).Some?
    ensures ToJson(lib, path, languageId, content).value.targetPath == path
  {
  }

  /** JSONL output keeps the line structure when `JSON.stringify` output is
      one line: as many lines as the source, and line k is the JSON form of
      the trimmed TSON line k or, when that is blank, a comment or
      unparsable, the trimmed line itself. */
  lemma ToJsonlLines<V>(lib: Codecs<V>, text: Text)
    requires forall v :: '\n' !in JsonCompact(lib, v)
    ensures |Split(Rewrite(TsonToJsonLine(lib), text))| == |Split(text)|
    ensures forall k :: 0 <= k < |Split(text)| ==>
      Split(Rewrite(TsonToJsonLine(lib), text))[k] ==
        var t := Trim(Split(text)[k]);
        if IsPassThrough(t) || lib.parse(t).Failed? then t else JsonCompact(lib, lib.parse(t).value)
  {
    assert SingleLine(TsonToJsonLine(lib)) by {
      forall t | TsonToJsonLine(lib)(t).Some?
        ensures '\n' !in TsonToJsonLine(lib)(t).value
      {
        assert TsonToJsonLine(lib)(t).value == JsonCompact(lib, lib.parse(t).value);
      }
    }
    LineStructure(TsonToJsonLine(lib), text);
  }

  /** The same for TSONL output from JSONL. */
  lemma ToTsonlLines<V>(lib: Codecs<V>, text: Text)
    requires forall v :: '\n' !in Compact(lib, v)
    ensures |Split(Rewrite(JsonToTsonLine(lib), text))| == |Split(text)|
    ensures forall k :: 0 <= k < |Split(text)| ==>
      Split(Rewrite(JsonToTsonLine(lib), text))[k] ==
        var t := Trim(Split(text)[k]);
        if IsPassThrough(t) || lib.jsonParse(t).None? then t else Compact(lib, lib.jsonParse(t).value)
  {
    assert SingleLine(JsonToTsonLine(lib)) by {
      forall t | JsonToTsonLine(lib)(t).Some?
        ensures '\n' !in JsonToTsonLine(lib)(t).value
      {
        assert JsonToTsonLine(lib)(t).value == Compact(lib, lib.jsonParse(t).value);
      }
    }
    LineStructure(JsonToTsonLine(lib), text);
  }

  /** What the JSON library must do for TSONL to survive a trip through
      JSONL: compact JSON is one trimmed, non-comment line that parses back
      to the value, and a line TSON cannot parse JSON cannot parse either. */
  ghost predicate JsonlFaithful<V(!new)>(lib: Codecs<V>) {
    && (forall v :: Trim(JsonCompact(lib, v)) == JsonCompact(lib, v) && '\n' !in JsonCompact(lib, v)
                    && !IsPassThrough(JsonCompact(lib, v)))
    && (forall v :: lib.jsonParse(JsonCompact(lib, v)) == Some(v))
    && (forall t :: lib.parse(t).Failed? ==> lib.jsonParse(t).None?)
  }

  lemma JsonlRoundTripLine<V(!new)>(lib: Codecs<V>, line: Text)
    requires JsonlFaithful(lib)
    ensures RewriteLine(JsonToTsonLine(lib), RewriteLine(TsonToJsonLine(lib), line)) == RewriteLine(CompactLine(lib), line)
  {
    var t := Trim(line);
    TrimIdempotent(line);
    if !IsPassThrough(t) {
      match lib.parse(t)
      case Parsed(v) =>
        var s := JsonCompact(lib, v);
        assert RewriteLine(TsonToJsonLine(lib), line) == s;
        assert lib.jsonParse(s) == Some(v);
      case Failed(_) =>
        assert lib.jsonParse(t).None?;
    }
  }

  /** The content of a TSONL document converted to JSONL and back is what
      the TSONL formatter makes of it. */
  lemma JsonlRoundTripContent<V(!new)>(lib: Codecs<V>, content: Text)
    requires JsonlFaithful(lib)
    ensures Rewrite(JsonToTsonLine(lib), Rewrite(TsonToJsonLine(lib), content)) == Rewrite(CompactLine(lib), content)
  {
    assert SingleLine(TsonToJsonLine(lib)) by {
      forall t | TsonToJsonLine(lib)(t).Some?
        ensures '\n' !in TsonToJsonLine(lib)(t).value
      {
        assert TsonToJsonLine(lib)(t).value == JsonCompact(lib, lib.parse(t).value);
      }
    }
    forall line | '\n' !in line
      ensures RewriteLine(JsonToTsonLine(lib), RewriteLine(TsonToJsonLine(lib), line)) == RewriteLine(CompactLine(lib), line)
    {
      JsonlRoundTripLine(lib, line);
    }
    RewriteComposes(JsonToTsonLine(lib), TsonToJsonLine(lib), CompactLine(lib), content);
  }

  /** Converting a TSONL document to JSONL and the result back to TSONL
      gives the document as the TSONL formatter leaves it, under the name it
      had. */
  lemma JsonlRoundTrip<V(!new)>(lib: Codecs<V>, p: Text, content: Text)
    requires JsonlFaithful(lib)
    ensures ToJson(lib, p + ".tsonl", "tsonl", content).Some?
    ensures ToTson(lib, ToJson(lib, p + ".tsonl", "tsonl", content).value.targetPath,
                   ToJson(lib, p + ".tsonl", "tsonl", content).value.content)
            == Some(Conversion(p + ".tsonl", Rewrite(CompactLine(lib), content)))
  {
    var jsonl := Rewrite(TsonToJsonLine(lib), content);
    ExtensionsInLowerCase();
    ToJsonTarget(lib, p, ".tsonl", "tsonl", content);
    assert ToJson(lib, p + ".tsonl", "tsonl", content) == Some(Conversion(p + ".jsonl", jsonl));
    ToTsonTarget(lib, p, ".jsonl", jsonl);
    JsonlRoundTripContent(lib, content);
  }

  /** A `p.tson` document that parses converts to `p.json` holding its
      indented JSON form. */
  lemma ToJsonWhole<V>(lib: Codecs<V>, p: Text, content: Text)
    requires lib.parse(content).Parsed?
    ensures ToJson(lib, p + ".tson", "tson", content)
            == Some(Conversion(p + ".json", JsonIndented(lib, lib.parse(content).value)))
  {
    assert "tson" != "tsonl";
    ExtensionsInLowerCase();
    assert "." + "tson" == ".tson";
    ReplaceMatchedExtension(p, ".tson", "tson", ".json");
  }

  /** A `p.json` document that parses as JSON converts to `p.tson` holding
      its pretty TSON form. */
  lemma ToTsonWhole<V>(lib: Codecs<V>, p: Text, content: Text)
    requires lib.jsonParse(content).Some?
    ensures ToTson(lib, p + ".json", content)
            == Some(Conversion(p + ".tson", Pretty(lib, lib.jsonParse(content).value)))
  {
    ExtensionsInLowerCase();
    JsonlTest(p, ".json");
    assert "." + "json" == ".json";
    ReplaceMatchedExtension(p, ".json", "json", ".tson");
  }

  /** Converting a TSON document that parses to JSON and back gives the
      document as the TSON formatter leaves it, when indented JSON parses
      back to the value. */
  lemma JsonRoundTrip<V>(lib: Codecs<V>, p: Text, content: Text)
    requires forall v :: lib.jsonParse(JsonIndented(lib, v)) == Some(v)
    requires lib.parse(content).Parsed?
    ensures ToJson(lib, p + ".tson", "tson", content).Some?
    ensures ToTson(lib, ToJson(lib, p + ".tson", "tson", content).value.targetPath,
                   ToJson(lib, p + ".tson", "tson", content).value.content)
            == Some(Conversion(p + ".tson", FormatTSONText(lib, content)))
  {
    var v := lib.parse(content).value;
    var json := JsonIndented(lib, v);
    ToJsonWhole(lib, p, content);
    assert lib.jsonParse(json) == Some(v);
    ToTsonWhole(lib, p, json);
  }
}
