/** The per-line pipeline shared by TSONL formatting and the two line-wise
    conversions: split on line feeds, trim every line, push blank and `//`
    lines as they are after trimming, otherwise push the converted line or,
    when conversion throws, the trimmed line; join with line feeds. */
module LineStream {
  import opened Text
  import opened Wrappers

  /** A trimmed line the pipelines pass through without parsing. */
  predicate IsPassThrough(t: Text) {
    t == "" || StartsWith(t, "//")
  }

  /** What the loop pushes for one raw line; `convert` is the body of its
      `try` block, None when that throws. */
  function RewriteLine(convert: Text -> Option<Text>, line: Text): Text {
    var t := Trim(line);
    if IsPassThrough(t) then t
    else match convert(t)
      case Some(s) => s
      case None => t
  }

  function RewriteAll(convert: Text -> Option<Text>, lines: seq<Text>): (r: seq<Text>)
    ensures |r| == |lines|
    ensures forall k :: 0 <= k < |lines| ==> r[k] == RewriteLine(convert, lines[k])
  {
    seq(|lines|, k requires 0 <= k < |lines| => RewriteLine(convert, lines[k]))
  }

  /** The text the pipeline produces. */
  function Rewrite(convert: Text -> Option<Text>, text: Text): Text {
    Join(RewriteAll(convert, Split(text)))
  }

  /** The loop itself. */
  method RewriteLines(convert: Text -> Option<Text>, text: Text) returns (out: Text)
    ensures out == Rewrite(convert, text)
  {
    var lines := Split(text);
    var formattedLines: seq<Text> := [];
    for i := 0 to |lines|
      invariant |formattedLines| == i
      invariant forall k :: 0 <= k < i ==> formattedLines[k] == RewriteLine(convert, lines[k])
    {
      var trimmedLine := Trim(lines[i]);
      if trimmedLine == "" || StartsWith(trimmedLine, "//") {
        formattedLines := formattedLines + [trimmedLine];
        continue;
      }
      var converted := convert(trimmedLine);
      if converted.Some? {
        formattedLines := formattedLines + [converted.value];
      } else {
        formattedLines := formattedLines + [trimmedLine];
      }
    }
    assert formattedLines == RewriteAll(convert, lines);
    out := Join(formattedLines);
  }

  /** A conversion whose output never holds a line feed. */
  ghost predicate SingleLine(convert: Text -> Option<Text>) {
    forall t :: convert(t).Some? ==> '\n' !in convert(t).value
  }

  lemma RewriteAllSingleLines(convert: Text -> Option<Text>, text: Text)
    requires SingleLine(convert)
    ensures forall k :: 0 <= k < |Split(text)| ==> '\n' !in RewriteAll(convert, Split(text))[k]
  {
    var lines := Split(text);
    forall k | 0 <= k < |lines|
      ensures '\n' !in RewriteAll(convert, lines)[k]
    {
      TrimSpec(lines[k]);
    }
  }

  /** The line structure is kept: the output has exactly as many lines as
      the input, and output line k is what the loop pushed for input line k. */
  lemma LineStructure(convert: Text -> Option<Text>, text: Text)
    requires SingleLine(convert)
    ensures |Split(Rewrite(convert, text))| == |Split(text)|
    ensures forall k :: 0 <= k < |Split(text)| ==>
      Split(Rewrite(convert, text))[k] == RewriteLine(convert, Split(text)[k])
  {
    RewriteAllSingleLines(convert, text);
    SplitJoin(RewriteAll(convert, Split(text)));
  }

  /** A text made only of blank and comment lines without surrounding
      whitespace comes back unchanged, whatever the conversion does. */
  lemma PassThroughOnly(convert: Text -> Option<Text>, text: Text)
    requires forall k :: 0 <= k < |Split(text)| ==>
      IsPassThrough(Split(text)[k]) && Trim(Split(text)[k]) == Split(text)[k]
    ensures Rewrite(convert, text) == text
  {
    var lines := Split(text);
    assert RewriteAll(convert, lines) == lines;
    JoinSplit(text);
  }

  /** A conversion that is the identity on its own results: what it produces
      is trimmed, on one line, and converts to itself unless it is a blank or
      comment line. */
  ghost predicate StableOnOutput(convert: Text -> Option<Text>) {
    forall t :: convert(t).Some? ==>
      var s := convert(t).value;
      Trim(s) == s && '\n' !in s && (!IsPassThrough(s) ==> convert(s) == Some(s))
  }

  /** A line the loop pushed is left alone by a second run. */
  lemma RewriteLineStable(convert: Text -> Option<Text>, line: Text)
    requires StableOnOutput(convert)
    ensures RewriteLine(convert, RewriteLine(convert, line)) == RewriteLine(convert, line)
  {
    var t := Trim(line);
    TrimIdempotent(line);
    if !IsPassThrough(t) && convert(t).Some? {
      var s := convert(t).value;
      assert Trim(s) == s;
    }
  }

  /** Running the pipeline twice gives what running it once gives. */
  lemma RewriteIdempotent(convert: Text -> Option<Text>, text: Text)
    requires StableOnOutput(convert)
    ensures Rewrite(convert, Rewrite(convert, text)) == Rewrite(convert, text)
  {
    var once := RewriteAll(convert, Split(text));
    assert SingleLine(convert);
    RewriteAllSingleLines(convert, text);
    SplitJoin(once);
    forall k | 0 <= k < |once|
      ensures RewriteLine(convert, once[k]) == once[k]
    {
      RewriteLineStable(convert, Split(text)[k]);
    }
    assert RewriteAll(convert, once) == once;
  }

  /** Two pipelines run one after the other act as one pipeline, line by
      line, when the first never breaks a line. */
  lemma RewriteComposes(f: Text -> Option<Text>, g: Text -> Option<Text>, h: Text -> Option<Text>, text: Text)
    requires SingleLine(g)
    requires forall line ::
      '\n' !in line ==> RewriteLine(f, RewriteLine(g, line)) == RewriteLine(h, line)
    ensures Rewrite(f, Rewrite(g, text)) == Rewrite(h, text)
  {
    var lines := Split(text);
    var once := RewriteAll(g, lines);
    RewriteAllSingleLines(g, text);
    SplitJoin(once);
    assert RewriteAll(f, once) == RewriteAll(h, lines);
  }
}
