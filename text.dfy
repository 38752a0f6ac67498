/**
  String helpers shared by the outline parser, the renderer and the editor:
  the whitespace that `String.prototype.trim` removes, trimming, splitting on
  the line-break pattern `\r?\n`, and joining with a separator.
 */
module Text {

  /** The ECMAScript WhiteSpace and LineTerminator code points, which `trim` and `trimStart` strip. */
  predicate IsWhitespace(c: char) {
    || c == '\t' || c == '\n' || c == '\U{000B}' || c == '\U{000C}' || c == '\r' || c == ' '
    || c == '\U{00A0}' || c == '\U{1680}' || ('\U{2000}' <= c <= '\U{200A}')
    || c == '\U{2028}' || c == '\U{2029}' || c == '\U{202F}' || c == '\U{205F}'
    || c == '\U{3000}' || c == '\U{FEFF}'
  }

  predicate AllWhitespace(s: string) {
    forall i :: 0 <= i < |s| ==> IsWhitespace(s[i])
  }

  /** Number of leading whitespace characters, `s.length - s.trimStart().length`. */
  function LeadingWhitespace(s: string): (n: nat)
    ensures n <= |s|
    ensures AllWhitespace(s[..n])
    ensures n < |s| ==> !IsWhitespace(s[n])
  {
    if s == [] || !IsWhitespace(s[0]) then 0
    else
      var n := 1 + LeadingWhitespace(s[1..]);
      assert s[..n] == [s[0]] + s[1..][..n - 1];
      n
  }

  /** Number of trailing whitespace characters. */
  function TrailingWhitespace(s: string): (n: nat)
    ensures n <= |s|
    ensures AllWhitespace(s[|s| - n..])
    ensures n < |s| ==> !IsWhitespace(s[|s| - 1 - n])
  {
    if s == [] || !IsWhitespace(s[|s| - 1]) then 0
    else
      var n := 1 + TrailingWhitespace(s[..|s| - 1]);
      assert s[|s| - n..] == s[..|s| - 1][|s| - n..] + [s[|s| - 1]];
      n
  }

  /**
    `s.trim()`: the longest infix that neither starts nor ends with whitespace,
    from the end of the leading whitespace to the start of the trailing whitespace.
   */
  function Trim(s: string): (r: string)
    ensures LeadingWhitespace(s) + |r| <= |s|
    ensures r == s[LeadingWhitespace(s)..LeadingWhitespace(s) + |r|]
    ensures AllWhitespace(s[LeadingWhitespace(s) + |r|..])
    ensures r == [] || (!IsWhitespace(r[0]) && !IsWhitespace(r[|r| - 1]))
    ensures r == [] <==> AllWhitespace(s)
  {
    var a := LeadingWhitespace(s);
    if a == |s| then
      assert forall i :: 0 <= i < |s| ==> s[..a][i] == s[i];
      []
    else
      var b := |s| - TrailingWhitespace(s);
      assert forall i :: b <= i < |s| ==> s[b..][i - b] == s[i];
      s[a..b]
  }

  /**
    `s.split(/\r?\n/)`: the pieces between line breaks, where a line break is
    "\r\n" or "\n", matched leftmost first.
   */
  function SplitLines(s: string): (r: seq<string>)
    ensures |r| >= 1
    ensures forall k :: 0 <= k < |r| ==> '\n' !in r[k]
    decreases |s|
  {
    if s == [] then [""]
    else if s[0] == '\n' then [""] + SplitLines(s[1..])
    else if |s| >= 2 && s[0] == '\r' && s[1] == '\n' then [""] + SplitLines(s[2..])
    else
      var rest := SplitLines(s[1..]);
      [[s[0]] + rest[0]] + rest[1..]
  }

  /** `parts.join(sep)`. */
  function JoinWith(parts: seq<string>, sep: string): (r: string)
    ensures |parts| == 1 ==> r == parts[0]
  {
    if parts == [] then ""
    else if |parts| == 1 then parts[0]
    else parts[0] + sep + JoinWith(parts[1..], sep)
  }

  /** The text with every "\r\n" written as "\n". */
  function NormalizeNewlines(s: string): (r: string)
    decreases |s|
  {
    if s == [] then ""
    else if |s| >= 2 && s[0] == '\r' && s[1] == '\n' then "\n" + NormalizeNewlines(s[2..])
    else [s[0]] + NormalizeNewlines(s[1..])
  }

  lemma {:induction false} NormalizeWithoutCR(s: string)
    requires '\r' !in s
    ensures NormalizeNewlines(s) == s
    decreases |s|
  {
    if s != [] {
      assert '\r' !in s[1..] by {
        forall k | 0 <= k < |s[1..]| ensures s[1..][k] != '\r' { assert s[1..][k] == s[k + 1]; }
      }
      NormalizeWithoutCR(s[1..]);
      assert s == [s[0]] + s[1..];
    }
  }

  lemma JoinCons(c: char, a: string, t: seq<string>)
    ensures JoinWith([[c] + a] + t, "\n") == [c] + JoinWith([a] + t, "\n")
  {
    if t != [] {
      assert ([[c] + a] + t)[1..] == t;
      assert ([a] + t)[1..] == t;
    }
  }

  /** Joining the split pieces with "\n" gives back the text, with each "\r\n" read as "\n". */
  lemma {:induction false} SplitJoin(s: string)
    ensures JoinWith(SplitLines(s), "\n") == NormalizeNewlines(s)
    decreases |s|
  {
    if s == [] {
    } else if s[0] == '\n' {
      SplitJoin(s[1..]);
      assert ([""] + SplitLines(s[1..]))[1..] == SplitLines(s[1..]);
    } else if |s| >= 2 && s[0] == '\r' && s[1] == '\n' {
      SplitJoin(s[2..]);
      assert ([""] + SplitLines(s[2..]))[1..] == SplitLines(s[2..]);
    } else {
      var rest := SplitLines(s[1..]);
      SplitJoin(s[1..]);
      JoinCons(s[0], rest[0], rest[1..]);
      assert [rest[0]] + rest[1..] == rest;
    }
  }

  /** For text without "\r", splitting on line breaks and joining with "\n" is the identity. */
  lemma SplitJoinWithoutCR(s: string)
    requires '\r' !in s
    ensures JoinWith(SplitLines(s), "\n") == s
  {
    SplitJoin(s);
    NormalizeWithoutCR(s);
  }

  /**
    A break-free prefix `a` glues onto the first piece of whatever follows it,
    unless `a` ends with "\r" and the rest starts with "\n" (then the two form one break).
   */
  lemma {:induction false} SplitLinesPrefix(a: string, t: string)
    requires '\n' !in a
    requires !(|a| > 0 && a[|a| - 1] == '\r' && |t| > 0 && t[0] == '\n')
    ensures SplitLines(a + t) == [a + SplitLines(t)[0]] + SplitLines(t)[1..]
    decreases |a|
  {
    if a == [] {
      assert a + t == t;
      assert a + SplitLines(t)[0] == SplitLines(t)[0];
      assert [SplitLines(t)[0]] + SplitLines(t)[1..] == SplitLines(t);
    } else {
      var s := a + t;
      assert s[0] == a[0];
      assert s[1..] == a[1..] + t;
      assert '\n' !in a[1..] by {
        forall k | 0 <= k < |a[1..]| ensures a[1..][k] != '\n' { assert a[1..][k] == a[k + 1]; }
      }
      SplitLinesPrefix(a[1..], t);
      if |a| >= 2 {
        assert s[1] == a[1];
      } else if |t| > 0 {
        assert s[1] == t[0];
      }
      assert [a[0]] + (a[1..] + SplitLines(t)[0]) == a + SplitLines(t)[0];
    }
  }

  /** A line followed by "\n" or "\r\n" splits off as exactly that line. */
  lemma SplitLinesLine(a: string, term: string, b: string)
    requires '\n' !in a
    requires term == "\r\n" || (term == "\n" && (a == [] || a[|a| - 1] != '\r'))
    ensures SplitLines(a + term + b) == [a] + SplitLines(b)
  {
    assert a + term + b == a + (term + b);
    SplitLinesPrefix(a, term + b);
    if term == "\n" {
      assert (term + b)[1..] == b;
    } else {
      assert (term + b)[0] == '\r' && (term + b)[1] == '\n';
      assert (term + b)[2..] == b;
      assert SplitLines(term + b) == [""] + SplitLines(b);
    }
    assert a + "" == a;
  }

  /** A text with no line break is a single piece. */
  lemma SplitLinesSingle(a: string)
    requires '\n' !in a
    ensures SplitLines(a) == [a]
  {
    SplitLinesPrefix(a, "");
    assert a + "" == a;
  }

  /** The last character is "\r", which the "\n" joined after it would turn into a "\r\n" break. */
  predicate EndsInCR(s: string) {
    |s| > 0 && s[|s| - 1] == '\r'
  }

  /**
    Joining lines with "\n" and splitting again gives back the lines, when no
    line holds a "\n" and none but the last ends in "\r".
   */
  lemma {:induction false} JoinSplit(parts: seq<string>)
    requires |parts| >= 1
    requires forall k :: 0 <= k < |parts| ==> '\n' !in parts[k]
    requires forall k :: 0 <= k < |parts| - 1 ==> !EndsInCR(parts[k])
    ensures SplitLines(JoinWith(parts, "\n")) == parts
  {
    if |parts| == 1 {
      SplitLinesSingle(parts[0]);
    } else {
      JoinSplit(parts[1..]);
      SplitLinesLine(parts[0], "\n", JoinWith(parts[1..], "\n"));
      assert [parts[0]] + parts[1..] == parts;
    }
  }

  /** Every piece of an all-whitespace text is all whitespace. */
  lemma {:induction false} SplitLinesWhitespace(s: string)
    requires AllWhitespace(s)
    ensures forall k :: 0 <= k < |SplitLines(s)| ==> AllWhitespace(SplitLines(s)[k])
    decreases |s|
  {
    if s == [] {
    } else if s[0] == '\n' {
      SplitLinesWhitespace(s[1..]);
      assert forall k :: 1 <= k < |SplitLines(s)| ==> SplitLines(s)[k] == SplitLines(s[1..])[k - 1];
    } else if |s| >= 2 && s[0] == '\r' && s[1] == '\n' {
      SplitLinesWhitespace(s[2..]);
      assert forall k :: 1 <= k < |SplitLines(s)| ==> SplitLines(s)[k] == SplitLines(s[2..])[k - 1];
    } else {
      var rest := SplitLines(s[1..]);
      SplitLinesWhitespace(s[1..]);
      assert AllWhitespace([s[0]] + rest[0]) by {
        forall i | 0 <= i < |[s[0]] + rest[0]| ensures IsWhitespace(([s[0]] + rest[0])[i]) {
          if i > 0 { assert ([s[0]] + rest[0])[i] == rest[0][i - 1]; }
        }
      }
      assert forall k :: 1 <= k < |SplitLines(s)| ==> SplitLines(s)[k] == rest[k];
    }
  }
}
