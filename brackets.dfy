/** The degraded bracket check `validateBasicBrackets` runs when the TSON
    parser fails with something other than a parse error: two independent
    counters for `{ }` and `[ ]`, comment lines skipped, a counter that falls
    below zero reported where it happens and reset, leftovers reported at the
    end. */
module Brackets {
  import opened Text
  import opened Diagnostics

  const UnexpectedBrace: Text := "Unexpected closing brace"
  const UnexpectedBracket: Text := "Unexpected closing bracket"

  function UnclosedBraces(n: nat): Text { NatToString(n) + " unclosed braces" }
  function UnclosedBrackets(n: nat): Text { NatToString(n) + " unclosed brackets" }

  /** The scanner's state between characters: both counters (never negative
      here) and the diagnostics pushed so far. */
  datatype ScanState = ScanState(brace: nat, bracket: nat, diagnostics: seq<Diagnostic>)

  const Start := ScanState(0, 0, [])

  /** A line the scanner skips: `//` follows its leading whitespace (which is
      the same as its trimmed form starting with `//`, see
      `CommentLineIsTrimmedComment`). */
  predicate IsCommentLine(line: Text) {
    StartsWith(line[TrimStartIndex(line, 0)..], "//")
  }

  /** The scanner's test is the source's `line.trim().startsWith("//")`. */
  lemma CommentLineIsTrimmedComment(line: Text)
    ensures IsCommentLine(line) <==> StartsWith(Trim(line), "//")
  {
    var a := TrimStartIndex(line, 0);
    var b := TrimEndIndex(line, a, |line|);
    TrimEndIndexSpec(line, a, |line|);
    assert Trim(line) == line[a..b];
    if IsCommentLine(line) {
      assert line[a] == '/' && line[a + 1] == '/';
      assert !IsWhitespace(line[a + 1]);
      assert b >= a + 2;
      assert Trim(line)[..2] == line[a..a + 2];
    }
    if StartsWith(Trim(line), "//") {
      assert line[a..][..2] == line[a..a + 2];
    }
  }

  /** One character `c` at line i, column j: a closing character that finds
      its counter at zero is reported there and leaves the counter at zero. */
  function Step(st: ScanState, c: char, i: nat, j: nat): ScanState {
    if c == '{' then st.(brace := st.brace + 1)
    else if c == '}' then
      if st.brace == 0 then st.(diagnostics := st.diagnostics + [CreateDiagnostic(i, j, UnexpectedBrace)])
      else st.(brace := st.brace - 1)
    else if c == '[' then st.(bracket := st.bracket + 1)
    else if c == ']' then
      if st.bracket == 0 then st.(diagnostics := st.diagnostics + [CreateDiagnostic(i, j, UnexpectedBracket)])
      else st.(bracket := st.bracket - 1)
    else st
  }

  /** The state after the first n characters of line i. */
  function ScanLine(st: ScanState, line: Text, i: nat, n: nat): ScanState
    requires n <= |line|
    decreases n
  {
    if n == 0 then st else Step(ScanLine(st, line, i, n - 1), line[n - 1], i, n - 1)
  }

  /** The state after the first n lines. */
  function ScanLines(lines: seq<Text>, n: nat): ScanState
    requires n <= |lines|
    decreases n
  {
    if n == 0 then Start
    else
      var st := ScanLines(lines, n - 1);
      if IsCommentLine(lines[n - 1]) then st else ScanLine(st, lines[n - 1], n - 1, |lines[n - 1]|)
  }

  /** The state after the whole text. */
  function Scan(text: Text): ScanState {
    ScanLines(Split(text), |Split(text)|)
  }

  /** The end-of-input reports: one per counter left above zero, on the last
      line at column 0. */
  function Leftovers(st: ScanState, last: nat): seq<Diagnostic> {
    (if st.brace > 0 then [CreateDiagnostic(last, 0, UnclosedBraces(st.brace))] else [])
    + (if st.bracket > 0 then [CreateDiagnostic(last, 0, UnclosedBrackets(st.bracket))] else [])
  }

  /** Everything `validateBasicBrackets` pushes for `text`. */
  function BracketDiagnostics(text: Text): seq<Diagnostic> {
    var st := Scan(text);
    st.diagnostics + Leftovers(st, |Split(text)| - 1)
  }

  /** `validateBasicBrackets`: appends the bracket diagnostics of `text` to
      the caller's `diagnostics`. */
  method ValidateBasicBrackets(text: Text, diagnostics: seq<Diagnostic>) returns (result: seq<Diagnostic>)
    ensures result == diagnostics + BracketDiagnostics(text)
  {
    var lines := Split(text);
    var braceCount: nat := 0;
    var bracketCount: nat := 0;
    result := diagnostics;
    for i := 0 to |lines|
      invariant braceCount == ScanLines(lines, i).brace
      invariant bracketCount == ScanLines(lines, i).bracket
      invariant result == diagnostics + ScanLines(lines, i).diagnostics
    {
      var line := lines[i];
      CommentLineIsTrimmedComment(line);
      if StartsWith(Trim(line), "//") {
        continue;
      }
      braceCount, bracketCount, result := ScanLineInto(line, i, braceCount, bracketCount, result, diagnostics, ScanLines(lines, i));
    }
    ghost var st := ScanLines(lines, |lines|);
    assert st == Scan(text);
    if braceCount > 0 {
      result := result + [CreateDiagnostic(|lines| - 1, 0, UnclosedBraces(braceCount))];
    }
    if bracketCount > 0 {
      result := result + [CreateDiagnostic(|lines| - 1, 0, UnclosedBrackets(bracketCount))];
    }
    assert result == diagnostics + (st.diagnostics + Leftovers(st, |lines| - 1));
  }

  /** The inner loop of `validateBasicBrackets` over the characters of line
      i: from counters and pushed diagnostics matching the scan state
      `before` (past the caller's own `base`) to those matching the state
      after the line. */
  method ScanLineInto(line: Text, i: nat, braces: nat, brackets: nat, pushed: seq<Diagnostic>,
                      ghost base: seq<Diagnostic>, ghost before: ScanState)
    returns (braceCount: nat, bracketCount: nat, result: seq<Diagnostic>)
    requires braces == before.brace && brackets == before.bracket && pushed == base + before.diagnostics
    ensures braceCount == ScanLine(before, line, i, |line|).brace
    ensures bracketCount == ScanLine(before, line, i, |line|).bracket
    ensures result == base + ScanLine(before, line, i, |line|).diagnostics
  {
    var braceInt: int := braces;
    var bracketInt: int := brackets;
    result := pushed;
    for j := 0 to |line|
      invariant braceInt >= 0 && bracketInt >= 0
      invariant braceInt == ScanLine(before, line, i, j).brace
      invariant bracketInt == ScanLine(before, line, i, j).bracket
      invariant result == base + ScanLine(before, line, i, j).diagnostics
    {
      var c := line[j];
      if c == '{' {
        braceInt := braceInt + 1;
      } else if c == '}' {
        braceInt := braceInt - 1;
      } else if c == '[' {
        bracketInt := bracketInt + 1;
      } else if c == ']' {
        bracketInt := bracketInt - 1;
      }
      if braceInt < 0 {
        result := result + [CreateDiagnostic(i, j, UnexpectedBrace)];
        braceInt := 0;
      }
      if bracketInt < 0 {
        result := result + [CreateDiagnostic(i, j, UnexpectedBracket)];
        bracketInt := 0;
      }
    }
    braceCount, bracketCount := braceInt, bracketInt;
  }

  // ---------------------------------------------------------------------
  // Counting

  /** Number of diagnostics in `ds` carrying `message`. */
  function CountMessage(ds: seq<Diagnostic>, message: Text): nat
    decreases |ds|
  {
    if ds == [] then 0
    else (if ds[|ds| - 1].message == message then 1 else 0) + CountMessage(ds[..|ds| - 1], message)
  }

  lemma {:induction false} CountMessageAppend(a: seq<Diagnostic>, b: seq<Diagnostic>, message: Text)
    ensures CountMessage(a + b, message) == CountMessage(a, message) + CountMessage(b, message)
    decreases |b|
  {
    if b == [] {
      assert a + b == a;
    } else {
      assert (a + b)[..|a + b| - 1] == a + b[..|b| - 1];
      CountMessageAppend(a, b[..|b| - 1], message);
    }
  }

  /** The characters the scanner reads from the first n lines: every
      non-comment line, concatenated. */
  function ScannedText(lines: seq<Text>, n: nat): Text
    requires n <= |lines|
    decreases n
  {
    if n == 0 then []
    else ScannedText(lines, n - 1) + (if IsCommentLine(lines[n - 1]) then [] else lines[n - 1])
  }

  /** Comment lines are ignored: two line sequences that agree except on
      lines that are comments in both scan to the same state. */
  lemma {:induction false} CommentLinesIgnored(a: seq<Text>, b: seq<Text>, n: nat)
    requires n <= |a| && n <= |b|
    requires forall k :: 0 <= k < n ==> a[k] == b[k] || (IsCommentLine(a[k]) && IsCommentLine(b[k]))
    ensures ScanLines(a, n) == ScanLines(b, n)
    decreases n
  {
    if n > 0 {
      CommentLinesIgnored(a, b, n - 1);
    }
  }

  /** Hence editing, adding to or removing the text of comment lines, while
      keeping them comments, leaves the fallback's diagnostics unchanged. */
  lemma CommentEditsInvisible(text: Text, edited: Text)
    requires |Split(text)| == |Split(edited)|
    requires forall k :: 0 <= k < |Split(text)| ==>
      Split(text)[k] == Split(edited)[k] || (IsCommentLine(Split(text)[k]) && IsCommentLine(Split(edited)[k]))
    ensures BracketDiagnostics(text) == BracketDiagnostics(edited)
  {
    CommentLinesIgnored(Split(text), Split(edited), |Split(text)|);
  }

  /** Characters other than the four brackets leave the state alone. */
  lemma {:induction false} ScanLineNeutral(st: ScanState, line: Text, i: nat, n: nat)
    requires n <= |line|
    requires forall k :: 0 <= k < n ==> line[k] !in "{}[]"
    ensures ScanLine(st, line, i, n) == st
    decreases n
  {
    if n > 0 {
      ScanLineNeutral(st, line, i, n - 1);
    }
  }

  /** One character: the balance of the next lemma, for a single step. */
  lemma StepBalance(p: ScanState, c: char, i: nat, j: nat)
    ensures var r := Step(p, c, i, j);
      r.brace + (if c == '}' then 1 else 0) + CountMessage(p.diagnostics, UnexpectedBrace)
        == p.brace + (if c == '{' then 1 else 0) + CountMessage(r.diagnostics, UnexpectedBrace)
    ensures var r := Step(p, c, i, j);
      r.bracket + (if c == ']' then 1 else 0) + CountMessage(p.diagnostics, UnexpectedBracket)
        == p.bracket + (if c == '[' then 1 else 0) + CountMessage(r.diagnostics, UnexpectedBracket)
  {
    var r := Step(p, c, i, j);
    if r.diagnostics != p.diagnostics {
      var d := r.diagnostics[|r.diagnostics| - 1];
      assert r.diagnostics == p.diagnostics + [d];
      assert (p.diagnostics + [d])[..|p.diagnostics|] == p.diagnostics;
    }
  }

  /** Over one line, each counter plus the closers it met equals its start
      value plus the openers it met plus the resets it reported; the other
      kind's characters do not enter. */
  lemma {:induction false} ScanLineBalance(st: ScanState, line: Text, i: nat, n: nat)
    requires n <= |line|
    ensures var r := ScanLine(st, line, i, n);
      r.brace + Count('}', line[..n]) + CountMessage(st.diagnostics, UnexpectedBrace)
        == st.brace + Count('{', line[..n]) + CountMessage(r.diagnostics, UnexpectedBrace)
    ensures var r := ScanLine(st, line, i, n);
      r.bracket + Count(']', line[..n]) + CountMessage(st.diagnostics, UnexpectedBracket)
        == st.bracket + Count('[', line[..n]) + CountMessage(r.diagnostics, UnexpectedBracket)
    decreases n
  {
    if n > 0 {
      ScanLineBalance(st, line, i, n - 1);
      var p := ScanLine(st, line, i, n - 1);
      assert line[..n][..n - 1] == line[..n - 1];
      assert line[..n][n - 1] == line[n - 1];
      StepBalance(p, line[n - 1], i, n - 1);
    }
  }

  /** Over the first n lines: the same balance, counted over the non-comment
      lines. */
  lemma {:induction false} ScanLinesBalance(lines: seq<Text>, n: nat)
    requires n <= |lines|
    ensures var r := ScanLines(lines, n); var s := ScannedText(lines, n);
      r.brace + Count('}', s) == Count('{', s) + CountMessage(r.diagnostics, UnexpectedBrace)
    ensures var r := ScanLines(lines, n); var s := ScannedText(lines, n);
      r.bracket + Count(']', s) == Count('[', s) + CountMessage(r.diagnostics, UnexpectedBracket)
    decreases n
  {
    if n > 0 {
      ScanLinesBalance(lines, n - 1);
      var prev := ScannedText(lines, n - 1);
      var line := lines[n - 1];
      if !IsCommentLine(line) {
        assert ScannedText(lines, n) == prev + line;
        BalanceAcrossLine(ScanLines(lines, n - 1), prev, line, n - 1);
      } else {
        assert ScannedText(lines, n) == prev + [];
        assert prev + [] == prev;
      }
    }
  }

  /** The balance over `prev` carries over one more scanned line. */
  lemma BalanceAcrossLine(st: ScanState, prev: Text, line: Text, i: nat)
    requires st.brace + Count('}', prev) == Count('{', prev) + CountMessage(st.diagnostics, UnexpectedBrace)
    requires st.bracket + Count(']', prev) == Count('[', prev) + CountMessage(st.diagnostics, UnexpectedBracket)
    ensures var r := ScanLine(st, line, i, |line|);
      r.brace + Count('}', prev + line) == Count('{', prev + line) + CountMessage(r.diagnostics, UnexpectedBrace)
    ensures var r := ScanLine(st, line, i, |line|);
      r.bracket + Count(']', prev + line) == Count('[', prev + line) + CountMessage(r.diagnostics, UnexpectedBracket)
  {
    ScanLineBalance(st, line, i, |line|);
    assert line[..|line|] == line;
    CountAppend('{', prev, line);
    CountAppend('}', prev, line);
    CountAppend('[', prev, line);
    CountAppend(']', prev, line);
  }

  /** The counter invariant: the final brace count plus the closing braces
      read equals the opening braces read plus the "Unexpected closing brace"
      reports, over the non-comment lines; likewise for brackets. */
  lemma CounterInvariant(text: Text)
    ensures var st := Scan(text); var s := ScannedText(Split(text), |Split(text)|);
      st.brace + Count('}', s) == Count('{', s) + CountMessage(BracketDiagnostics(text), UnexpectedBrace)
    ensures var st := Scan(text); var s := ScannedText(Split(text), |Split(text)|);
      st.bracket + Count(']', s) == Count('[', s) + CountMessage(BracketDiagnostics(text), UnexpectedBracket)
  {
    var lines := Split(text);
    var st := Scan(text);
    var s := ScannedText(lines, |lines|);
    var ds := BracketDiagnostics(text);
    assert st.brace + Count('}', s) == Count('{', s) + CountMessage(ds, UnexpectedBrace)
        && st.bracket + Count(']', s) == Count('[', s) + CountMessage(ds, UnexpectedBracket) by {
      assert st == ScanLines(lines, |lines|);
      assert ds == st.diagnostics + Leftovers(st, |lines| - 1);
      CounterInvariantOfLines(lines, |lines| - 1);
    }
  }

  /** The counter invariant over the scanned lines, once the end-of-input
      reports (on line `last`) are appended. */
  lemma CounterInvariantOfLines(lines: seq<Text>, last: nat)
    ensures var st := ScanLines(lines, |lines|); var s := ScannedText(lines, |lines|);
      st.brace + Count('}', s) == Count('{', s) + CountMessage(st.diagnostics + Leftovers(st, last), UnexpectedBrace)
    ensures var st := ScanLines(lines, |lines|); var s := ScannedText(lines, |lines|);
      st.bracket + Count(']', s) == Count('[', s) + CountMessage(st.diagnostics + Leftovers(st, last), UnexpectedBracket)
  {
    ScanLinesBalance(lines, |lines|);
    LeftoversAddNoUnexpected(ScanLines(lines, |lines|), last);
  }

  /** Appending the end-of-input reports leaves both "Unexpected closing"
      counts as they were. */
  lemma LeftoversAddNoUnexpected(st: ScanState, last: nat)
    ensures CountMessage(st.diagnostics + Leftovers(st, last), UnexpectedBrace) == CountMessage(st.diagnostics, UnexpectedBrace)
    ensures CountMessage(st.diagnostics + Leftovers(st, last), UnexpectedBracket) == CountMessage(st.diagnostics, UnexpectedBracket)
  {
    var left := Leftovers(st, last);
    CountMessageAppend(st.diagnostics, left, UnexpectedBrace);
    CountMessageAppend(st.diagnostics, left, UnexpectedBracket);
    LeftoversCarryNoUnexpected(st, last);
  }

  lemma {:induction false} CountMessageAbsent(ds: seq<Diagnostic>, message: Text)
    requires forall k :: 0 <= k < |ds| ==> ds[k].message != message
    ensures CountMessage(ds, message) == 0
    decreases |ds|
  {
    if ds != [] {
      CountMessageAbsent(ds[..|ds| - 1], message);
    }
  }

  lemma LeftoversCarryNoUnexpected(st: ScanState, last: nat)
    ensures CountMessage(Leftovers(st, last), UnexpectedBrace) == 0
    ensures CountMessage(Leftovers(st, last), UnexpectedBracket) == 0
  {
    var left := Leftovers(st, last);
    forall k | 0 <= k < |left|
      ensures left[k].message != UnexpectedBrace && left[k].message != UnexpectedBracket
    {
      assert '0' <= left[k].message[0] <= '9';
    }
    CountMessageAbsent(left, UnexpectedBrace);
    CountMessageAbsent(left, UnexpectedBracket);
  }

  // ---------------------------------------------------------------------
  // Where the reports are

  /** A diagnostic the scanner reports for a closing character: on one line,
      one character wide, at a `}` or `]` of a non-comment line. */
  ghost predicate ReportsClosingAt(lines: seq<Text>, d: Diagnostic) {
    && d.startLine < |lines|
    && !IsCommentLine(lines[d.startLine])
    && d.endLine == d.startLine
    && d.startCol < |lines[d.startLine]|
    && d.endCol == d.startCol + 1
    && ((d.message == UnexpectedBrace && lines[d.startLine][d.startCol] == '}')
        || (d.message == UnexpectedBracket && lines[d.startLine][d.startCol] == ']'))
  }

  /** Position order: by line, then by column. */
  predicate Before(a: Diagnostic, b: Diagnostic) {
    a.startLine < b.startLine || (a.startLine == b.startLine && a.startCol < b.startCol)
  }

  /** Within one line the new reports sit at closing characters of that line,
      left to right, after whatever the state already held. */
  lemma {:induction false} ScanLineReports(st: ScanState, line: Text, i: nat, n: nat)
    requires n <= |line|
    ensures var r := ScanLine(st, line, i, n);
      && |st.diagnostics| <= |r.diagnostics|
      && r.diagnostics[..|st.diagnostics|] == st.diagnostics
      && (forall k :: |st.diagnostics| <= k < |r.diagnostics| ==>
            && r.diagnostics[k].startLine == r.diagnostics[k].endLine == i
            && r.diagnostics[k].startCol < n
            && r.diagnostics[k].endCol == r.diagnostics[k].startCol + 1
            && ((r.diagnostics[k].message == UnexpectedBrace && line[r.diagnostics[k].startCol] == '}')
                || (r.diagnostics[k].message == UnexpectedBracket && line[r.diagnostics[k].startCol] == ']')))
      && (forall k, m :: |st.diagnostics| <= k < m < |r.diagnostics| ==>
            r.diagnostics[k].startCol < r.diagnostics[m].startCol)
    decreases n
  {
    if n > 0 {
      ScanLineReports(st, line, i, n - 1);
      StepReports(ScanLine(st, line, i, n - 1), line[n - 1], i, n - 1);
    }
  }

  /** One step pushes nothing, or one report at its own column for a
      closing character. */
  lemma StepReports(p: ScanState, c: char, i: nat, j: nat)
    ensures var r := Step(p, c, i, j);
      || r.diagnostics == p.diagnostics
      || (c == '}' && r.diagnostics == p.diagnostics + [CreateDiagnostic(i, j, UnexpectedBrace)])
      || (c == ']' && r.diagnostics == p.diagnostics + [CreateDiagnostic(i, j, UnexpectedBracket)])
  {
  }

  /** Every report of the line scan is a report at a closing character of
      one of the lines already read. */
  lemma {:induction false} ScanLinesReportClosers(lines: seq<Text>, n: nat)
    requires n <= |lines|
    ensures forall k :: 0 <= k < |ScanLines(lines, n).diagnostics| ==>
      ReportsClosingAt(lines, ScanLines(lines, n).diagnostics[k]) && ScanLines(lines, n).diagnostics[k].startLine < n
    decreases n
  {
    if n > 0 {
      ScanLinesReportClosers(lines, n - 1);
      var line := lines[n - 1];
      if !IsCommentLine(line) {
        var st := ScanLines(lines, n - 1);
        assert forall k :: 0 <= k < |st.diagnostics| ==> ReportsClosingAt(lines, st.diagnostics[k]) && st.diagnostics[k].startLine < n - 1;
        ScanLineReports(st, line, n - 1, |line|);
        assert ScanLines(lines, n) == ScanLine(st, line, n - 1, |line|);
        var ds := ScanLine(st, line, n - 1, |line|).diagnostics;
        forall k | 0 <= k < |ds|
          ensures ReportsClosingAt(lines, ds[k]) && ds[k].startLine < n
        {
          if k < |st.diagnostics| {
            assert ds[k] == st.diagnostics[k];
          } else {
            assert ds[k].startLine == n - 1;
            assert lines[ds[k].startLine] == line;
          }
        }
      }
    }
  }

  /** The reports of the line scan come in position order. */
  lemma {:induction false} ScanLinesReportsInOrder(lines: seq<Text>, n: nat)
    requires n <= |lines|
    ensures forall k, m :: 0 <= k < m < |ScanLines(lines, n).diagnostics| ==>
      Before(ScanLines(lines, n).diagnostics[k], ScanLines(lines, n).diagnostics[m])
    decreases n
  {
    if n > 0 {
      ScanLinesReportsInOrder(lines, n - 1);
      var line := lines[n - 1];
      if !IsCommentLine(line) {
        var st := ScanLines(lines, n - 1);
        ScanLinesReportClosers(lines, n - 1);
        assert forall k, m :: 0 <= k < m < |st.diagnostics| ==> Before(st.diagnostics[k], st.diagnostics[m]);
        ScanLineReports(st, line, n - 1, |line|);
        assert ScanLines(lines, n) == ScanLine(st, line, n - 1, |line|);
        var ds := ScanLine(st, line, n - 1, |line|).diagnostics;
        forall k, m | 0 <= k < m < |ds|
          ensures Before(ds[k], ds[m])
        {
          if m < |st.diagnostics| {
            assert ds[k] == st.diagnostics[k] && ds[m] == st.diagnostics[m];
            assert Before(st.diagnostics[k], st.diagnostics[m]);
          } else if k < |st.diagnostics| {
            assert ds[k] == st.diagnostics[k];
            assert st.diagnostics[k].startLine < n - 1;
            assert ds[m].startLine == n - 1;
          }
        }
      }
    }
  }

  lemma LeftoversAtEnd(st: ScanState, last: nat)
    ensures forall k :: 0 <= k < |Leftovers(st, last)| ==>
      Leftovers(st, last)[k].startLine == last && Leftovers(st, last)[k].startCol == 0
      && Leftovers(st, last)[k].endLine == last && Leftovers(st, last)[k].endCol == 1
  {
  }

  /** A diagnostic one character wide on one of the first `lineCount`
      lines. */
  predicate OneCharacterWithin(d: Diagnostic, lineCount: nat) {
    d.startLine < lineCount && d.endLine == d.startLine && d.endCol == d.startCol + 1
  }

  /** The reports made while scanning sit at a `}` or `]` of a non-comment
      line, in position order. */
  lemma ClosingReports(text: Text)
    ensures forall k :: 0 <= k < |Scan(text).diagnostics| ==>
      ReportsClosingAt(Split(text), Scan(text).diagnostics[k])
    ensures forall k, m :: 0 <= k < m < |Scan(text).diagnostics| ==>
      Before(Scan(text).diagnostics[k], Scan(text).diagnostics[m])
  {
    var lines := Split(text);
    ScanLinesReportClosers(lines, |lines|);
    ScanLinesReportsInOrder(lines, |lines|);
  }

  /** What comes after the scan: a final counter n > 0 adds exactly one
      "n unclosed braces" (or "brackets") report, on the last line at
      column 0, braces first; nothing is added for a counter at zero. */
  lemma EndOfInputReports(text: Text)
    ensures BracketDiagnostics(text)[..|Scan(text).diagnostics|] == Scan(text).diagnostics
    ensures |BracketDiagnostics(text)| == |Scan(text).diagnostics|
      + (if Scan(text).brace > 0 then 1 else 0) + (if Scan(text).bracket > 0 then 1 else 0)
    ensures Scan(text).brace > 0 ==>
      BracketDiagnostics(text)[|Scan(text).diagnostics|]
        == Diagnostic(|Split(text)| - 1, 0, |Split(text)| - 1, 1, UnclosedBraces(Scan(text).brace))
    ensures Scan(text).bracket > 0 ==>
      BracketDiagnostics(text)[|BracketDiagnostics(text)| - 1]
        == Diagnostic(|Split(text)| - 1, 0, |Split(text)| - 1, 1, UnclosedBrackets(Scan(text).bracket))
  {
  }

  /** Every diagnostic of the fallback is one character wide on a line of
      the text, and their starting lines never decrease. */
  lemma BracketDiagnosticsInOrder(text: Text)
    ensures forall k :: 0 <= k < |BracketDiagnostics(text)| ==>
      OneCharacterWithin(BracketDiagnostics(text)[k], |Split(text)|)
    ensures forall k, m :: 0 <= k < m < |BracketDiagnostics(text)| ==>
      BracketDiagnostics(text)[k].startLine <= BracketDiagnostics(text)[m].startLine
  {
    var lines := Split(text);
    var st := Scan(text);
    var left := Leftovers(st, |lines| - 1);
    var ds := BracketDiagnostics(text);
    assert ds == st.diagnostics + left;
    ClosingReports(text);
    LeftoversAtEnd(st, |lines| - 1);
    forall k | 0 <= k < |ds|
      ensures OneCharacterWithin(ds[k], |lines|)
    {
      if k < |st.diagnostics| {
        assert ds[k] == st.diagnostics[k];
        assert ReportsClosingAt(lines, st.diagnostics[k]);
      } else {
        assert ds[k] == left[k - |st.diagnostics|];
      }
    }
    forall k, m | 0 <= k < m < |ds|
      ensures ds[k].startLine <= ds[m].startLine
    {
      if m < |st.diagnostics| {
        assert ds[k] == st.diagnostics[k] && ds[m] == st.diagnostics[m];
        assert Before(st.diagnostics[k], st.diagnostics[m]);
      } else if k < |st.diagnostics| {
        assert ds[k] == st.diagnostics[k];
        assert ReportsClosingAt(lines, st.diagnostics[k]);
        assert ds[m] == left[m - |st.diagnostics|];
      } else {
        assert ds[k] == left[k - |st.diagnostics|] && ds[m] == left[m - |st.diagnostics|];
      }
    }
  }

  // ---------------------------------------------------------------------
  // Balanced input

  /** Every prefix of `s` has at least as many openers as closers, of each
      kind. */
  ghost predicate PrefixBalanced(s: Text) {
    forall m :: 0 <= m <= |s| ==>
      Count('{', s[..m]) >= Count('}', s[..m]) && Count('[', s[..m]) >= Count(']', s[..m])
  }

  /** While no prefix of the line would drive a counter below zero, the scan
      reports nothing and the counters follow the balance. */
  lemma {:induction false} ScanLineNoReset(st: ScanState, line: Text, i: nat, n: nat)
    requires n <= |line|
    requires forall m :: 0 <= m <= n ==>
      st.brace + Count('{', line[..m]) >= Count('}', line[..m])
      && st.bracket + Count('[', line[..m]) >= Count(']', line[..m])
    ensures ScanLine(st, line, i, n).diagnostics == st.diagnostics
    ensures ScanLine(st, line, i, n).brace == st.brace + Count('{', line[..n]) - Count('}', line[..n])
    ensures ScanLine(st, line, i, n).bracket == st.bracket + Count('[', line[..n]) - Count(']', line[..n])
    decreases n
  {
    if n > 0 {
      ScanLineNoReset(st, line, i, n - 1);
      assert line[..n][..n - 1] == line[..n - 1];
    }
  }

  lemma PrefixBalancedOfPrefix(prev: Text, line: Text)
    requires PrefixBalanced(prev + line)
    ensures PrefixBalanced(prev)
  {
    forall m | 0 <= m <= |prev|
      ensures Count('{', prev[..m]) >= Count('}', prev[..m]) && Count('[', prev[..m]) >= Count(']', prev[..m])
    {
      assert (prev + line)[..m] == prev[..m];
    }
  }

  /** Counters that hold the balance of `prev` never go below zero on a
      line that keeps `prev + line` balanced in every prefix. */
  lemma LineKeepsBalance(st: ScanState, prev: Text, line: Text)
    requires PrefixBalanced(prev + line)
    requires st.brace == Count('{', prev) - Count('}', prev)
    requires st.bracket == Count('[', prev) - Count(']', prev)
    ensures forall m :: 0 <= m <= |line| ==>
      st.brace + Count('{', line[..m]) >= Count('}', line[..m])
      && st.bracket + Count('[', line[..m]) >= Count(']', line[..m])
  {
    forall m | 0 <= m <= |line|
      ensures st.brace + Count('{', line[..m]) >= Count('}', line[..m])
        && st.bracket + Count('[', line[..m]) >= Count(']', line[..m])
    {
      assert (prev + line)[..|prev| + m] == prev + line[..m];
      CountAppend('{', prev, line[..m]);
      CountAppend('}', prev, line[..m]);
      CountAppend('[', prev, line[..m]);
      CountAppend(']', prev, line[..m]);
    }
  }

  /** The balance of `prev + line` is that of `prev` plus that of `line`. */
  lemma BalanceOfAppend(prev: Text, line: Text)
    ensures Count('{', prev + line) - Count('}', prev + line)
      == Count('{', prev) - Count('}', prev) + Count('{', line) - Count('}', line)
    ensures Count('[', prev + line) - Count(']', prev + line)
      == Count('[', prev) - Count(']', prev) + Count('[', line) - Count(']', line)
  {
    CountAppend('{', prev, line);
    CountAppend('}', prev, line);
    CountAppend('[', prev, line);
    CountAppend(']', prev, line);
  }

  /** One more non-comment line that keeps every prefix balanced: no
      report, and the counters hold the balance of everything read. */
  lemma NoResetOnLine(st: ScanState, prev: Text, line: Text, i: nat)
    requires PrefixBalanced(prev + line)
    requires st.diagnostics == []
    requires st.brace == Count('{', prev) - Count('}', prev)
    requires st.bracket == Count('[', prev) - Count(']', prev)
    ensures ScanLine(st, line, i, |line|).diagnostics == []
    ensures ScanLine(st, line, i, |line|).brace == Count('{', prev + line) - Count('}', prev + line)
    ensures ScanLine(st, line, i, |line|).bracket == Count('[', prev + line) - Count(']', prev + line)
  {
    LineKeepsBalance(st, prev, line);
    ScanLineNoReset(st, line, i, |line|);
    assert line[..|line|] == line;
    BalanceOfAppend(prev, line);
  }

  lemma {:induction false} ScanLinesNoReset(lines: seq<Text>, n: nat)
    requires n <= |lines|
    requires PrefixBalanced(ScannedText(lines, n))
    ensures ScanLines(lines, n).diagnostics == []
    ensures ScanLines(lines, n).brace == Count('{', ScannedText(lines, n)) - Count('}', ScannedText(lines, n))
    ensures ScanLines(lines, n).bracket == Count('[', ScannedText(lines, n)) - Count(']', ScannedText(lines, n))
    decreases n
  {
    if n > 0 {
      var prev := ScannedText(lines, n - 1);
      var line := lines[n - 1];
      if !IsCommentLine(line) {
        assert ScannedText(lines, n) == prev + line;
        PrefixBalancedOfPrefix(prev, line);
        ScanLinesNoReset(lines, n - 1);
        NoResetOnLine(ScanLines(lines, n - 1), prev, line, n - 1);
      } else {
        assert ScannedText(lines, n) == prev + [];
        assert prev + [] == prev;
        ScanLinesNoReset(lines, n - 1);
      }
    }
  }

  /** Input whose non-comment characters are balanced for both kinds, in
      every prefix and in total, yields no diagnostic. */
  lemma BalancedHasNoDiagnostics(text: Text)
    requires var s := ScannedText(Split(text), |Split(text)|);
      PrefixBalanced(s) && Count('{', s) == Count('}', s) && Count('[', s) == Count(']', s)
    ensures BracketDiagnostics(text) == []
  {
    var lines := Split(text);
    ScanLinesNoReset(lines, |lines|);
  }

  /** The scan of the single line `{"a": [1, 2}`, in two halves. */
  lemma ExampleFirstHalf(text: Text)
    requires text == "{\"a\": [1, 2}"
    ensures ScanLine(Start, text, 0, 6) == ScanState(1, 0, [])
  {
    assert text[..6] == "{\"a\": ";
    assert ScanLine(Start, text, 0, 1) == ScanState(1, 0, []);
    assert ScanLine(Start, text, 0, 2) == ScanState(1, 0, []);
    assert ScanLine(Start, text, 0, 3) == ScanState(1, 0, []);
    assert ScanLine(Start, text, 0, 4) == ScanState(1, 0, []);
    assert ScanLine(Start, text, 0, 5) == ScanState(1, 0, []);
  }

  lemma ExampleLineScan(text: Text)
    requires text == "{\"a\": [1, 2}"
    ensures ScanLine(Start, text, 0, |text|) == ScanState(0, 1, [])
  {
    ExampleFirstHalf(text);
    assert text[6..] == "[1, 2}";
    assert ScanLine(Start, text, 0, 7) == ScanState(1, 1, []);
    assert ScanLine(Start, text, 0, 8) == ScanState(1, 1, []);
    assert ScanLine(Start, text, 0, 9) == ScanState(1, 1, []);
    assert ScanLine(Start, text, 0, 10) == ScanState(1, 1, []);
    assert ScanLine(Start, text, 0, 11) == ScanState(1, 1, []);
  }

  /** The counters are independent: in `{"a": [1, 2}` the brace closes, the
      bracket does not, and the only report is "1 unclosed brackets" on line
      0. */
  lemma IndependentCounters(text: Text)
    requires text == "{\"a\": [1, 2}"
    ensures BracketDiagnostics(text) == [CreateDiagnostic(0, 0, "1 unclosed brackets")]
  {
    assert '\n' !in text;
    assert TrimStartIndex(text, 0) == 0;
    SingleLineScan(text);
    ExampleLineScan(text);
    OneUnclosedBracket();
  }

  /** A text without line feeds that is not a comment is scanned as one line,
      whose last line is line 0. */
  lemma SingleLineScan(text: Text)
    requires '\n' !in text && !IsCommentLine(text)
    ensures Split(text) == [text]
    ensures BracketDiagnostics(text) == ScanLine(Start, text, 0, |text|).diagnostics + Leftovers(ScanLine(Start, text, 0, |text|), 0)
  {
    SplitPrefix(text, "");
    assert text + "" == text && Split("") == [""] && Split(text) == [text];
    assert Scan(text) == ScanLines([text], 1);
    assert ScanLines([text], 1) == ScanLine(Start, text, 0, |text|);
  }

  /** The end-of-input report for a bracket count of 1 on line 0. */
  lemma OneUnclosedBracket()
    ensures Leftovers(ScanState(0, 1, []), 0) == [CreateDiagnostic(0, 0, "1 unclosed brackets")]
  {
    assert NatToString(1) == "1";
    assert UnclosedBrackets(1) == "1 unclosed brackets";
  }
}
