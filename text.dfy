/** String operations the extension takes from JavaScript: `split("\n")`,
    `join("\n")`, `trim()`, `startsWith`, `endsWith`, `toLowerCase` and the
    decimal rendering of a number in a template literal.  Text is a sequence
    of Unicode scalar values; code-unit (UTF-16) details are not modelled. */
module Text {

  type Text = string

  /** The characters `String.prototype.trim` removes: ECMAScript WhiteSpace
      and LineTerminator code points. */
  predicate IsWhitespace(c: char) {
    c == ' ' || c == '\t' || c == '\n' || c == '\r' || c == '\U{000B}' || c == '\U{000C}'
    || c == '\U{00A0}' || c == '\U{1680}' || ('\U{2000}' <= c <= '\U{200A}')
    || c == '\U{2028}' || c == '\U{2029}' || c == '\U{202F}' || c == '\U{205F}'
    || c == '\U{3000}' || c == '\U{FEFF}'
  }

  predicate StartsWith(s: Text, prefix: Text) {
    |prefix| <= |s| && s[..|prefix|] == prefix
  }

  predicate EndsWith(s: Text, suffix: Text) {
    |suffix| <= |s| && s[|s| - |suffix|..] == suffix
  }

  /** Index of the first non-whitespace character at or after `i`. */
  function TrimStartIndex(s: Text, i: nat): (a: nat)
    requires i <= |s|
    ensures i <= a <= |s|
    decreases |s| - i
  {
    if i < |s| && IsWhitespace(s[i]) then TrimStartIndex(s, i + 1) else i
  }

  /** One past the last non-whitespace character of `s[a..j]` (or `a`). */
  function TrimEndIndex(s: Text, a: nat, j: nat): (b: nat)
    requires a <= j <= |s|
    ensures a <= b <= j
    decreases j
  {
    if j > a && IsWhitespace(s[j - 1]) then TrimEndIndex(s, a, j - 1) else j
  }

  lemma {:induction false} TrimStartIndexSpec(s: Text, i: nat)
    requires i <= |s|
    ensures forall k :: i <= k < TrimStartIndex(s, i) ==> IsWhitespace(s[k])
    ensures TrimStartIndex(s, i) < |s| ==> !IsWhitespace(s[TrimStartIndex(s, i)])
    decreases |s| - i
  {
    if i < |s| && IsWhitespace(s[i]) {
      TrimStartIndexSpec(s, i + 1);
    }
  }

  lemma {:induction false} TrimEndIndexSpec(s: Text, a: nat, j: nat)
    requires a <= j <= |s|
    ensures forall k :: TrimEndIndex(s, a, j) <= k < j ==> IsWhitespace(s[k])
    ensures TrimEndIndex(s, a, j) > a ==> !IsWhitespace(s[TrimEndIndex(s, a, j) - 1])
    decreases j
  {
    if j > a && IsWhitespace(s[j - 1]) {
      TrimEndIndexSpec(s, a, j - 1);
    }
  }

  /** `s.trim()`: the infix of `s` left after removing leading and trailing
      whitespace. */
  function Trim(s: Text): (r: Text)
    ensures |r| <= |s|
  {
    var a := TrimStartIndex(s, 0);
    var b := TrimEndIndex(s, a, |s|);
    s[a..b]
  }

  /** What trimming removes: the result is the infix of the input left
      after dropping whitespace at both ends, it has no whitespace at either
      end, it holds only characters of the input, and it is empty exactly
      when the input is all whitespace. */
  lemma TrimSpec(s: Text)
    ensures Trim(s) != [] ==> !IsWhitespace(Trim(s)[0]) && !IsWhitespace(Trim(s)[|Trim(s)| - 1])
    ensures forall c :: c in Trim(s) ==> c in s
    ensures (forall k :: 0 <= k < |s| ==> IsWhitespace(s[k])) <==> Trim(s) == []
    ensures exists a, b ::
              && 0 <= a <= b <= |s| && Trim(s) == s[a..b]
              && (forall k :: 0 <= k < a ==> IsWhitespace(s[k]))
              && (forall k :: b <= k < |s| ==> IsWhitespace(s[k]))
  {
    var a := TrimStartIndex(s, 0);
    var b := TrimEndIndex(s, a, |s|);
    TrimStartIndexSpec(s, 0);
    TrimEndIndexSpec(s, a, |s|);
    assert Trim(s) == s[a..b];
    forall c | c in s[a..b]
      ensures c in s
    {
      var k :| 0 <= k < b - a && s[a..b][k] == c;
      assert s[a + k] == c;
    }
    if forall k :: 0 <= k < |s| ==> IsWhitespace(s[k]) {
      assert a == |s|;
    }
    if b == a {
      assert a == |s|;
    }
  }

  /** Trimming is idempotent. */
  lemma TrimIdempotent(s: Text)
    ensures Trim(Trim(s)) == Trim(s)
  {
    TrimSpec(s);
    TrimOfTrimmed(Trim(s));
  }

  /** A text without surrounding whitespace is its own trim. */
  lemma TrimOfTrimmed(s: Text)
    requires s != [] ==> !IsWhitespace(s[0]) && !IsWhitespace(s[|s| - 1])
    ensures Trim(s) == s
  {
    var a := TrimStartIndex(s, 0);
    assert a == 0;
    var b := TrimEndIndex(s, a, |s|);
    assert b == |s|;
  }

  /** `s.split("\n")`: the pieces of `s` between line feeds; never empty. */
  function Split(s: Text): (lines: seq<Text>)
    ensures |lines| >= 1
    ensures forall k :: 0 <= k < |lines| ==> '\n' !in lines[k]
    decreases |s|
  {
    if s == [] then [""]
    else
      var rest := Split(s[1..]);
      if s[0] == '\n' then [""] + rest
      else [[s[0]] + rest[0]] + rest[1..]
  }

  /** `lines.join("\n")`. */
  function Join(lines: seq<Text>): Text
    decreases |lines|
  {
    if |lines| == 0 then ""
    else if |lines| == 1 then lines[0]
    else lines[0] + "\n" + Join(lines[1..])
  }

  /** Joining the pieces of a split gives back the text. */
  lemma {:induction false} JoinSplit(s: Text)
    ensures Join(Split(s)) == s
    decreases |s|
  {
    if s != [] {
      var rest := Split(s[1..]);
      JoinSplit(s[1..]);
      if s[0] == '\n' {
        assert Split(s) == [""] + rest;
        assert Join(Split(s)) == "" + "\n" + Join(rest);
        assert s == [s[0]] + s[1..];
      } else {
        var lines := [[s[0]] + rest[0]] + rest[1..];
        assert Split(s) == lines;
        if |rest| == 1 {
          assert Join(lines) == [s[0]] + rest[0];
          assert s == [s[0]] + s[1..];
        } else {
          assert lines[1..] == rest[1..];
          assert Join(rest) == rest[0] + "\n" + Join(rest[1..]);
          assert Join(lines) == ([s[0]] + rest[0]) + "\n" + Join(rest[1..]);
          assert s == [s[0]] + s[1..];
        }
      }
    }
  }

  /** Splitting `a + rest` where `a` holds no line feed glues `a` onto the
      first piece of `rest`. */
  lemma {:induction false} SplitPrefix(a: Text, rest: Text)
    requires '\n' !in a
    ensures Split(a + rest) == [a + Split(rest)[0]] + Split(rest)[1..]
    decreases |a|
  {
    if a != [] {
      assert (a + rest)[1..] == a[1..] + rest;
      assert (a + rest)[0] == a[0];
      SplitPrefix(a[1..], rest);
      assert [a[0]] + (a[1..] + Split(rest)[0]) == a + Split(rest)[0];
    } else {
      var lines := Split(rest);
      assert a + rest == rest && a + lines[0] == lines[0];
      assert lines == [lines[0]] + lines[1..];
    }
  }

  /** Splitting a join of line-feed-free pieces gives back the pieces. */
  lemma {:induction false} SplitJoin(lines: seq<Text>)
    requires |lines| >= 1
    requires forall k :: 0 <= k < |lines| ==> '\n' !in lines[k]
    ensures Split(Join(lines)) == lines
    decreases |lines|
  {
    if |lines| == 1 {
      SplitPrefix(lines[0], "");
      assert lines[0] + "" == lines[0];
    } else {
      var tail := Join(lines[1..]);
      SplitJoin(lines[1..]);
      assert Join(lines) == lines[0] + ("\n" + tail);
      SplitPrefix(lines[0], "\n" + tail);
      assert ("\n" + tail)[1..] == tail;
      assert Split("\n" + tail) == [""] + lines[1..];
      assert lines[0] + "" == lines[0];
    }
  }

  /** Number of occurrences of `c` in `s`. */
  function Count(c: char, s: Text): nat
    decreases |s|
  {
    if s == [] then 0 else (if s[|s| - 1] == c then 1 else 0) + Count(c, s[..|s| - 1])
  }

  lemma {:induction false} CountAppend(c: char, a: Text, b: Text)
    ensures Count(c, a + b) == Count(c, a) + Count(c, b)
    decreases |b|
  {
    if b == [] {
      assert a + b == a;
    } else {
      assert (a + b)[..|a + b| - 1] == a + b[..|b| - 1];
      CountAppend(c, a, b[..|b| - 1]);
    }
  }

  /** A split yields one more piece than there are line feeds. */
  lemma {:induction false} SplitLength(s: Text)
    ensures |Split(s)| == Count('\n', s) + 1
    decreases |s|
  {
    if s != [] {
      SplitLength(s[1..]);
      assert s == [s[0]] + s[1..];
      CountAppend('\n', [s[0]], s[1..]);
    }
  }

  /** ASCII upper-case letters mapped to lower case, everything else kept. */
  function ToLowerAscii(s: Text): (r: Text)
    ensures |r| == |s|
    ensures forall k :: 0 <= k < |s| ==> r[k] == LowerAscii(s[k])
  {
    seq(|s|, k requires 0 <= k < |s| => LowerAscii(s[k]))
  }

  function LowerAscii(c: char): char {
    if 'A' <= c <= 'Z' then (c as int + 32) as char else c
  }

  /** Decimal digits of `n`, as a template literal renders a non-negative
      integer. */
  function NatToString(n: nat): (r: Text)
    ensures |r| >= 1
    ensures forall k :: 0 <= k < |r| ==> '0' <= r[k] <= '9'
    decreases n
  {
    if n < 10 then [Digit(n)] else NatToString(n / 10) + [Digit(n % 10)]
  }

  function Digit(d: nat): (c: char)
    requires d < 10
    ensures '0' <= c <= '9'
  {
    ('0' as int + d) as char
  }

  /** The number a string of decimal digits denotes, most significant digit
      first. */
  function DecimalValue(r: Text): nat
    decreases |r|
  {
    if r == [] then 0 else 10 * DecimalValue(r[..|r| - 1]) + DigitValue(r[|r| - 1])
  }

  function DigitValue(c: char): nat {
    if '0' <= c <= '9' then c as int - '0' as int else 0
  }

  /** The rendering of `n` is its decimal numeral: it denotes `n`, and it has
      no leading zero unless `n` is 0. */
  lemma {:induction false} NatToStringDecimal(n: nat)
    ensures DecimalValue(NatToString(n)) == n
    ensures n >= 1 ==> NatToString(n)[0] != '0'
    decreases n
  {
    if n < 10 {
      assert NatToString(n) == [Digit(n)];
      assert [Digit(n)][..0] == [];
    } else {
      var init := NatToString(n / 10);
      NatToStringDecimal(n / 10);
      assert NatToString(n) == init + [Digit(n % 10)];
      assert (init + [Digit(n % 10)])[..|init|] == init;
      assert (init + [Digit(n % 10)])[0] == init[0];
    }
  }
}
