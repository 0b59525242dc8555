/** Diagnostics as the extension builds them: a range and a message.  Every
    diagnostic the extension creates has severity Error and source "TSON", so
    neither is stored. */
module Diagnostics {
  import opened Text
  import opened Wrappers
  import opened TsonJs

  datatype Diagnostic = Diagnostic(startLine: nat, startCol: nat, endLine: nat, endCol: nat, message: Text)

  /** `createDiagnostic`: a one-character range at (line, character). */
  function CreateDiagnostic(line: nat, character: nat, message: Text): (d: Diagnostic)
    ensures d.startLine == d.endLine == line
    ensures d.startCol == character && d.endCol == character + 1
    ensures d.message == message
  {
    Diagnostic(line, character, line, character + 1, message)
  }

  /** `createDiagnosticWithError`: the range runs from the error's cursor to
      its end cursor, and collapses to the cursor when there is no end. */
  function CreateDiagnosticWithError(err: ParseError): (d: Diagnostic)
    ensures d.startLine == err.cursor.line && d.startCol == err.cursor.column
    ensures err.endCursor.None? ==> d.endLine == d.startLine && d.endCol == d.startCol
    ensures err.endCursor.Some? ==>
      d.endLine == err.endCursor.value.line && d.endCol == err.endCursor.value.column
    ensures d.message == err.message
  {
    var endC := if err.endCursor.Some? then err.endCursor.value.column else err.cursor.column;
    var endL := if err.endCursor.Some? then err.endCursor.value.line else err.cursor.line;
    Diagnostic(err.cursor.line, err.cursor.column, endL, endC, err.message)
  }

  /** The diagnostics of `ds` that start on line `k`, in order. */
  function OnLine(ds: seq<Diagnostic>, k: nat): seq<Diagnostic>
    decreases |ds|
  {
    if ds == [] then []
    else OnLine(ds[..|ds| - 1], k) + (if ds[|ds| - 1].startLine == k then [ds[|ds| - 1]] else [])
  }

  lemma {:induction false} OnLineAppend(a: seq<Diagnostic>, b: seq<Diagnostic>, k: nat)
    ensures OnLine(a + b, k) == OnLine(a, k) + OnLine(b, k)
    decreases |b|
  {
    if b == [] {
      assert a + b == a;
    } else {
      assert (a + b)[..|a + b| - 1] == a + b[..|b| - 1];
      OnLineAppend(a, b[..|b| - 1], k);
    }
  }

  /** Nothing is kept from diagnostics that are all on other lines. */
  lemma {:induction false} OnLineOfOtherLines(ds: seq<Diagnostic>, k: nat)
    requires forall d :: d in ds ==> d.startLine != k
    ensures OnLine(ds, k) == []
    decreases |ds|
  {
    if ds != [] {
      OnLineOfOtherLines(ds[..|ds| - 1], k);
    }
  }

  /** Everything is kept from diagnostics that are all on the line. */
  lemma {:induction false} OnLineOfOneLine(ds: seq<Diagnostic>, k: nat)
    requires forall d :: d in ds ==> d.startLine == k
    ensures OnLine(ds, k) == ds
    decreases |ds|
  {
    if ds != [] {
      OnLineOfOneLine(ds[..|ds| - 1], k);
    }
  }

  /** Per-line blocks of diagnostics laid end to end. */
  function Flatten(blocks: seq<seq<Diagnostic>>): seq<Diagnostic>
    decreases |blocks|
  {
    if blocks == [] then [] else Flatten(blocks[..|blocks| - 1]) + blocks[|blocks| - 1]
  }

  /** Block j holds only diagnostics that start on line j. */
  ghost predicate BlocksByLine(blocks: seq<seq<Diagnostic>>) {
    forall j, d :: 0 <= j < |blocks| && d in blocks[j] ==> d.startLine == j
  }

  lemma BlocksByLinePrefix(blocks: seq<seq<Diagnostic>>, n: nat)
    requires BlocksByLine(blocks) && n <= |blocks|
    ensures BlocksByLine(blocks[..n])
  {
    forall j, d | 0 <= j < n && d in blocks[..n][j]
      ensures d.startLine == j
    {
      assert blocks[..n][j] == blocks[j];
    }
  }

  /** Every diagnostic of a flattening comes from one of the blocks. */
  lemma {:induction false} FlattenMembers(blocks: seq<seq<Diagnostic>>)
    ensures forall d :: d in Flatten(blocks) ==> exists j :: 0 <= j < |blocks| && d in blocks[j]
    decreases |blocks|
  {
    if blocks != [] {
      var init := blocks[..|blocks| - 1];
      FlattenMembers(init);
      forall d | d in Flatten(blocks)
        ensures exists j :: 0 <= j < |blocks| && d in blocks[j]
      {
        if d in Flatten(init) {
          var j :| 0 <= j < |init| && d in init[j];
          assert init[j] == blocks[j];
        } else {
          assert d in blocks[|blocks| - 1];
        }
      }
    }
  }

  /** The diagnostics of a flattening that fall on line k are block k. */
  lemma {:induction false} FlattenOnLine(blocks: seq<seq<Diagnostic>>, k: nat)
    requires BlocksByLine(blocks)
    ensures k < |blocks| ==> OnLine(Flatten(blocks), k) == blocks[k]
    ensures k >= |blocks| ==> OnLine(Flatten(blocks), k) == []
    decreases |blocks|
  {
    if blocks != [] {
      var n := |blocks|;
      var init := blocks[..n - 1];
      var last := blocks[n - 1];
      assert Flatten(blocks) == Flatten(init) + last;
      BlocksByLinePrefix(blocks, n - 1);
      FlattenOnLine(init, k);
      OnLineAppend(Flatten(init), last, k);
      assert forall d :: d in last ==> d.startLine == n - 1;
      if k == n - 1 {
        OnLineOfOneLine(last, k);
        assert OnLine(Flatten(blocks), k) == [] + last;
      } else {
        OnLineOfOtherLines(last, k);
        assert OnLine(Flatten(blocks), k) == OnLine(Flatten(init), k) + [];
        if k < n - 1 {
          assert init[k] == blocks[k];
        }
      }
    }
  }

  /** A flattening of blocks by line is ordered by start line. */
  lemma {:induction false} FlattenOrdered(blocks: seq<seq<Diagnostic>>)
    requires BlocksByLine(blocks)
    ensures forall m, p :: 0 <= m < p < |Flatten(blocks)| ==> Flatten(blocks)[m].startLine <= Flatten(blocks)[p].startLine
    decreases |blocks|
  {
    if blocks != [] {
      var n := |blocks|;
      var init := blocks[..n - 1];
      var last := blocks[n - 1];
      BlocksByLinePrefix(blocks, n - 1);
      FlattenOrdered(init);
      FlattenMembers(init);
      var prev := Flatten(init);
      var ds := Flatten(blocks);
      assert ds == prev + last;
      forall m, p | 0 <= m < p < |ds|
        ensures ds[m].startLine <= ds[p].startLine
      {
        if p < |prev| {
          assert ds[m] == prev[m] && ds[p] == prev[p];
        } else if m < |prev| {
          assert ds[m] == prev[m] && ds[m] in prev;
          var j :| 0 <= j < |init| && ds[m] in init[j];
          assert init[j] == blocks[j];
          assert ds[p] == last[p - |prev|] && ds[p] in last;
        } else {
          assert ds[m] == last[m - |prev|] && ds[p] == last[p - |prev|];
          assert ds[m] in last && ds[p] in last;
        }
      }
    }
  }
}

/** The host editor's view of an open document: its URI, its language
    identifier and its text. */
module Editor {
  import opened Text

  datatype Document = Document(uri: Text, languageId: Text, text: Text)
}
