/**
  The selection-aware line editor: a text and a global selection are cut into
  lines, each with the part of the selection that falls on it (offsets relative
  to the line); lines are edited in place; the text is joined again with "\n"
  and the global selection is rebuilt from the first selected line and the end
  of the first contiguous run of selected lines.
 */
module Editing {
  import opened Text
  import opened Options

  // ---------------------------------------------------------------------------
  // Selections

  /** A pair of offsets; (-1, -1) is the "no selection here" sentinel. */
  datatype Selection = Selection(start: int, end: int) {
    /** `isValid`: neither offset is -1 (other negative offsets still count as valid). */
    predicate IsValid() {
      start != -1 && end != -1
    }

    function Length(): int {
      end - start
    }

    function MoveBy(diff: int): (r: Selection)
      ensures r.Length() == Length()
      ensures r.start >= start <==> diff >= 0
    {
      Selection(start + diff, end + diff)
    }
  }

  /** `new Selection()`. */
  const NoSelection := Selection(-1, -1)

  /** Offset `p` lies in the closed range of `s`. */
  predicate Covers(s: Selection, p: int) {
    s.start <= p <= s.end
  }

  /**
    `getLineSelection`: the part of a relative selection that falls on a line of
    the given length. A caret exactly at the end of the line still falls on it.
   */
  function GetLineSelection(line: string, sel: Selection): (r: Selection)
    ensures r == NoSelection <==> sel.end < 0 || sel.start > |line|
    ensures r != NoSelection ==> r.IsValid() && 0 <= r.start <= |line| && 0 <= r.end <= |line|
  {
    if sel.end < 0 || sel.start > |line| then NoSelection
    else
      Selection(if sel.start < 0 then 0 else sel.start, if sel.end < |line| then sel.end else |line|)
  }

  /**
    For a well-ordered selection, a line gets the sentinel exactly when the
    selection touches none of its offsets `0..|line|`, and otherwise the
    offsets that are both in the selection and on the line.
   */
  lemma LineSelectionIsOverlap(line: string, sel: Selection)
    requires sel.start <= sel.end
    ensures GetLineSelection(line, sel) == NoSelection <==> forall p :: 0 <= p <= |line| ==> !Covers(sel, p)
    ensures GetLineSelection(line, sel) != NoSelection ==>
      var r := GetLineSelection(line, sel);
      r.start <= r.end && forall p :: Covers(r, p) <==> Covers(sel, p) && 0 <= p <= |line|
  {
    if GetLineSelection(line, sel) != NoSelection {
      assert Covers(sel, if sel.start < 0 then 0 else sel.start);
    }
  }

  /** A line's text split into its content and its terminator. */
  datatype LineParts = LineParts(content: string, lineBreak: string)

  /** `extractLineBreak`: `text.split(/(\r?\n)$/)`, the terminator at the very end, if any. */
  function ExtractLineBreak(text: string): (r: LineParts)
    ensures r.content + r.lineBreak == text
    ensures r.lineBreak == "" || r.lineBreak == "\n" || r.lineBreak == "\r\n"
    ensures r.lineBreak == "" ==> text == [] || text[|text| - 1] != '\n'
    ensures r.lineBreak == "\n" ==> r.content == [] || r.content[|r.content| - 1] != '\r'
  {
    if |text| >= 2 && text[|text| - 2] == '\r' && text[|text| - 1] == '\n' then
      LineParts(text[..|text| - 2], "\r\n")
    else if |text| >= 1 && text[|text| - 1] == '\n' then
      LineParts(text[..|text| - 1], "\n")
    else
      LineParts(text, "")
  }

  // ---------------------------------------------------------------------------
  // Cutting a text into lines: `value.match(/^.*(?:\r?\n|$)/gm)`

  /** The characters that end a line for `.`, `^` and `$` in a JavaScript regular expression. */
  predicate IsLineTerminator(c: char) {
    c == '\n' || c == '\r' || c == '\U{2028}' || c == '\U{2029}'
  }

  /** A line's content holds no line terminator. */
  predicate NoLineTerminator(s: string) {
    forall i :: 0 <= i < |s| ==> !IsLineTerminator(s[i])
  }

  /** How far `.*` reaches: the longest prefix without a line terminator. */
  function LineBodyLength(s: string): (n: nat)
    ensures n <= |s|
    ensures forall k :: 0 <= k < n ==> !IsLineTerminator(s[k])
    ensures n < |s| ==> IsLineTerminator(s[n])
  {
    if s == [] || IsLineTerminator(s[0]) then 0 else 1 + LineBodyLength(s[1..])
  }

  /**
    The matches of /^.*(?:\r?\n|$)/gm found from position `p` on: a match starts
    where `^` holds (the start, or just after a line terminator), takes the line
    body and then "\r\n" or "\n" if one follows; after an empty match the search
    moves on by one position.
   */
  function LineMatchesFrom(text: string, p: nat): (r: seq<string>)
    ensures p <= |text| + 1 ==> |r| <= |text| + 1 - p
    decreases |text| + 1 - p
  {
    if p > |text| then []
    else if p > 0 && !IsLineTerminator(text[p - 1]) then LineMatchesFrom(text, p + 1)
    else [MatchAt(text, p)] + LineMatchesFrom(text, NextStart(text, p))
  }

  /** The match at a line start `p`: the line body, then "\r\n" or "\n" if one follows. */
  function MatchAt(text: string, p: nat): string
    requires p <= |text|
  {
    text[p..MatchEnd(text, p + LineBodyLength(text[p..]))]
  }

  /** A match, without its terminator, holds no line terminator. */
  lemma MatchHasNoBreak(text: string, p: nat)
    requires p <= |text|
    ensures NoLineTerminator(ExtractLineBreak(MatchAt(text, p)).content)
  {
    var b := LineBodyLength(text[p..]);
    BodyHasNoTerminator(text, p);
    MatchContentIsBody(text, p, b, MatchEnd(text, p + b));
  }

  /** A match holds no line terminator once its own terminator is taken off. */
  predicate MatchWithoutBreak(m: string) {
    NoLineTerminator(ExtractLineBreak(m).content)
  }

  predicate MatchesWithoutBreaks(matches: seq<string>) {
    forall k :: 0 <= k < |matches| ==> MatchWithoutBreak(matches[k])
  }

  /** A property of every element survives putting one more element that has it in front. */
  lemma ConsAll(P: string -> bool, m: string, rest: seq<string>)
    requires P(m) && forall k :: 0 <= k < |rest| ==> P(rest[k])
    ensures forall k :: 0 <= k < |[m] + rest| ==> P(([m] + rest)[k])
  {
    var ms := [m] + rest;
    forall k | 0 <= k < |ms| ensures P(ms[k]) {
      if k > 0 {
        assert ms[k] == rest[k - 1];
      }
    }
  }

  /** No match found from `p` on holds a line terminator once its own terminator is taken off. */
  lemma {:induction false} MatchesHaveNoBreaks(text: string, p: nat)
    ensures MatchesWithoutBreaks(LineMatchesFrom(text, p))
    decreases |text| + 1 - p
  {
    if p > |text| {
    } else if p > 0 && !IsLineTerminator(text[p - 1]) {
      MatchesHaveNoBreaks(text, p + 1);
    } else {
      MatchHasNoBreak(text, p);
      MatchesHaveNoBreaks(text, NextStart(text, p));
      ConsAll(MatchWithoutBreak, MatchAt(text, p), LineMatchesFrom(text, NextStart(text, p)));
    }
  }

  lemma BodyHasNoTerminator(text: string, p: nat)
    requires p <= |text|
    ensures NoLineTerminator(text[p..p + LineBodyLength(text[p..])])
  {
    var b := LineBodyLength(text[p..]);
    var body := text[p..p + b];
    forall i | 0 <= i < |body| ensures !IsLineTerminator(body[i]) {
      assert body[i] == text[p..][i];
    }
  }

  /** A match without its terminator is its line body. */
  lemma MatchContentIsBody(text: string, p: nat, b: nat, e: nat)
    requires p + b <= e <= |text| && e <= p + b + 2
    requires NoLineTerminator(text[p..p + b])
    requires e == p + b + 1 ==> text[p + b] == '\n'
    requires e == p + b + 2 ==> text[p + b] == '\r' && text[p + b + 1] == '\n'
    ensures ExtractLineBreak(text[p..e]).content == text[p..p + b]
  {
    var m := text[p..e];
    if b > 0 {
      assert text[p..p + b][b - 1] == m[b - 1];
    }
    if e == p + b + 2 {
      assert m[..|m| - 2] == text[p..p + b];
    } else if e == p + b + 1 {
      assert m[..|m| - 1] == text[p..p + b];
    }
  }

  /** Where the search goes on after the match at `p`: its end, or one further after an empty match. */
  function NextStart(text: string, p: nat): (r: nat)
    requires p <= |text|
    ensures r > p
  {
    var e := MatchEnd(text, p + LineBodyLength(text[p..]));
    if e == p then e + 1 else e
  }

  /** Where a match whose line body ends at `q` ends: after "\r\n" or "\n" if one follows, else at `q`. */
  function MatchEnd(text: string, q: nat): (e: nat)
    requires q <= |text|
    ensures q <= e <= |text| && e <= q + 2
    ensures e == q + 1 ==> text[q] == '\n'
    ensures e == q + 2 ==> text[q] == '\r' && text[q + 1] == '\n'
    ensures e == q && q < |text| ==> text[q] != '\n' && (text[q] == '\r' ==> q + 1 == |text| || text[q + 1] != '\n')
  {
    if q + 1 < |text| && text[q] == '\r' && text[q + 1] == '\n' then q + 2
    else if q < |text| && text[q] == '\n' then q + 1
    else q
  }

  /** All the matches: at least one, since the pattern also matches the empty line at the end. */
  function LineMatches(text: string): (r: seq<string>)
    ensures 1 <= |r| <= |text| + 1
  {
    LineMatchesFrom(text, 0)
  }

  /** `list.join("")`. */
  function Concat(parts: seq<string>): string
  {
    if parts == [] then "" else parts[0] + Concat(parts[1..])
  }

  lemma {:induction false} ConcatAppend(a: seq<string>, b: seq<string>)
    ensures Concat(a + b) == Concat(a) + Concat(b)
  {
    if a != [] {
      assert (a + b)[1..] == a[1..] + b;
      ConcatAppend(a[1..], b);
    } else {
      assert a + b == b;
    }
  }

  /** Line breaks the model reads as the source does: every "\r" starts a "\r\n", and no U+2028 or U+2029. */
  predicate WellFormedBreaks(text: string) {
    && (forall k :: 0 <= k < |text| ==> text[k] != '\U{2028}' && text[k] != '\U{2029}')
    && (forall k :: 0 <= k < |text| && text[k] == '\r' ==> k + 1 < |text| && text[k + 1] == '\n')
  }

  /**
    `M` are the matches of text `t` and `L` its lines: one match per line, each
    the line plus its terminator, together covering `t`; without "\r" every
    terminator is "\n", and the last match has none.
   */
  ghost predicate Follows(M: seq<string>, L: seq<string>, t: string) {
    && |M| == |L| > 0
    && (forall k :: 0 <= k < |M| ==> ExtractLineBreak(M[k]).content == L[k])
    && Concat(M) == t
    && ('\r' !in t ==> forall k :: 0 <= k < |M| - 1 ==> M[k] == L[k] + "\n")
    && M[|M| - 1] == L[|L| - 1]
  }

  /** A line with its terminator in front of matches that follow the lines of `t`. */
  lemma FollowsCons(body: string, term: string, M: seq<string>, L: seq<string>, t: string)
    requires Follows(M, L, t)
    requires '\n' !in body && '\r' !in body
    requires term == "\n" || term == "\r\n"
    ensures Follows([body + term] + M, [body] + L, body + term + t)
  {
    ConsContents(body, term, M, L);
    ConsConcat(body + term, M, t);
    ConsWithoutCR(body, term, M, L, t);
  }

  lemma ConsContents(body: string, term: string, M: seq<string>, L: seq<string>)
    requires |M| == |L| && forall k :: 0 <= k < |M| ==> ExtractLineBreak(M[k]).content == L[k]
    requires '\r' !in body
    requires term == "\n" || term == "\r\n"
    ensures forall k :: 0 <= k < |M| + 1 ==> ExtractLineBreak(([body + term] + M)[k]).content == ([body] + L)[k]
  {
    assert ExtractLineBreak(body + term).content == body by {
      if term == "\n" && |body| > 0 {
        assert (body + term)[|body| - 1] == body[|body| - 1];
      }
    }
  }

  lemma ConsConcat(m: string, M: seq<string>, t: string)
    requires Concat(M) == t
    ensures Concat([m] + M) == m + t
  {
    assert ([m] + M)[1..] == M;
  }

  lemma ConsWithoutCR(body: string, term: string, M: seq<string>, L: seq<string>, t: string)
    requires |M| == |L| > 0
    requires '\r' !in t ==> forall k :: 0 <= k < |M| - 1 ==> M[k] == L[k] + "\n"
    requires term == "\n" || term == "\r\n"
    ensures '\r' !in body + term + t ==>
      forall k :: 0 <= k < |M| ==> ([body + term] + M)[k] == ([body] + L)[k] + "\n"
  {
    if '\r' !in body + term + t {
      assert (body + term + t)[|body|] == term[0];
      assert '\r' !in t by {
        forall k | 0 <= k < |t| ensures t[k] != '\r' { assert t[k] == (body + term + t)[|body| + |term| + k]; }
      }
    }
  }

  /** One step of the match loop at a line start: the line body, then the terminator it takes. */
  lemma MatchStep(text: string, p: nat) returns (body: string, e: nat)
    requires p <= |text| && (p == 0 || IsLineTerminator(text[p - 1]))
    ensures p + |body| <= |text| && body == text[p..p + |body|]
    ensures forall k :: 0 <= k < |body| ==> !IsLineTerminator(body[k])
    ensures p + |body| < |text| ==> IsLineTerminator(text[p + |body|])
    ensures e == MatchEnd(text, p + |body|)
    ensures MatchAt(text, p) == text[p..e]
    ensures NextStart(text, p) == if e == p then e + 1 else e
    ensures LineMatchesFrom(text, p) == [MatchAt(text, p)] + LineMatchesFrom(text, NextStart(text, p))
  {
    body := LineBodyAt(text, p);
    e := MatchEnd(text, p + |body|);
  }

  /** The line body `.*` matches from `p`: the characters up to the next line terminator. */
  lemma LineBodyAt(text: string, p: nat) returns (body: string)
    requires p <= |text|
    ensures |body| == LineBodyLength(text[p..])
    ensures p + |body| <= |text| && body == text[p..p + |body|]
    ensures forall k :: 0 <= k < |body| ==> !IsLineTerminator(body[k])
    ensures p + |body| < |text| ==> IsLineTerminator(text[p + |body|])
  {
    var n := LineBodyLength(text[p..]);
    body := text[p..p + n];
    assert forall k :: 0 <= k < n ==> body[k] == text[p..][k];
    if p + n < |text| {
      assert text[p + n] == text[p..][n];
    }
  }

  /** A line start at the end of the text: the one match is the rest of the text. */
  lemma MatchesAtEnd(text: string, p: nat, body: string)
    requires p <= |text| && (p == 0 || IsLineTerminator(text[p - 1]))
    requires p + |body| == |text| && body == text[p..p + |body|]
    requires forall k :: 0 <= k < |body| ==> !IsLineTerminator(body[k])
    requires LineMatchesFrom(text, p) == [text[p..|text|]] + LineMatchesFrom(text, if |text| == p then |text| + 1 else |text|)
    ensures Follows(LineMatchesFrom(text, p), SplitLines(text[p..]), text[p..])
  {
    assert text[p..] == body;
    assert '\n' !in body;
    SplitLinesSingle(body);
    if |body| > 0 {
      assert !IsLineTerminator(text[|text| - 1]) by {
        assert body[|body| - 1] == text[|text| - 1];
      }
    }
    assert LineMatchesFrom(text, p) == [body];
    assert Concat([body]) == body by {
      assert [body][1..] == [];
    }
  }

  lemma WellFormedAt(text: string, q: nat)
    requires WellFormedBreaks(text) && q < |text|
    ensures text[q] != '\U{2028}' && text[q] != '\U{2029}'
    ensures text[q] == '\r' ==> q + 1 < |text| && text[q + 1] == '\n'
  {
  }

  /** The text from a line start before a break: the line body, the terminator, the rest. */
  lemma BreakPieces(text: string, p: nat, body: string, e: nat) returns (term: string)
    requires p + |body| < e <= |text| && body == text[p..p + |body|]
    requires e == p + |body| + 1 ==> text[p + |body|] == '\n'
    requires e == p + |body| + 2 ==> text[p + |body|] == '\r' && text[p + |body| + 1] == '\n'
    requires e <= p + |body| + 2
    ensures term == "\n" || term == "\r\n"
    ensures text[p..e] == body + term
    ensures text[p..] == body + term + text[e..]
  {
    var q := p + |body|;
    term := if e == q + 2 then "\r\n" else "\n";
    assert text[q..e] == term;
    assert text[p..e] == text[p..q] + text[q..e];
    assert text[p..] == text[p..e] + text[e..];
  }

  /** A line and its terminator in front of matches that follow the lines of the rest. */
  lemma MatchesAtBreak(body: string, term: string, rest: string, M: seq<string>)
    requires '\n' !in body && '\r' !in body
    requires term == "\n" || term == "\r\n"
    requires Follows(M, SplitLines(rest), rest)
    ensures Follows([body + term] + M, SplitLines(body + term + rest), body + term + rest)
  {
    SplitLinesLine(body, term, rest);
    FollowsCons(body, term, M, SplitLines(rest), rest);
  }

  /** With well-formed breaks, a line body that stops before the end stops at "\n" or "\r\n". */
  lemma NextLineStart(text: string, p: nat, body: string, e: nat)
    requires WellFormedBreaks(text)
    requires p + |body| < |text| && IsLineTerminator(text[p + |body|])
    requires e == MatchEnd(text, p + |body|)
    ensures p + |body| < e <= |text| && text[e - 1] == '\n'
  {
    WellFormedAt(text, p + |body|);
  }

  /** The matches at a line start before a break, given that the matches after it follow the rest. */
  lemma MatchesBeforeBreak(text: string, p: nat, body: string, e: nat)
    requires p + |body| < e <= |text| && body == text[p..p + |body|]
    requires forall k :: 0 <= k < |body| ==> !IsLineTerminator(body[k])
    requires e == MatchEnd(text, p + |body|)
    requires LineMatchesFrom(text, p) == [text[p..e]] + LineMatchesFrom(text, e)
    requires Follows(LineMatchesFrom(text, e), SplitLines(text[e..]), text[e..])
    ensures Follows(LineMatchesFrom(text, p), SplitLines(text[p..]), text[p..])
  {
    var term := BreakPieces(text, p, body, e);
    assert '\n' !in body && '\r' !in body;
    MatchesAtBreak(body, term, text[e..], LineMatchesFrom(text, e));
  }

  /** With well-formed breaks, the matches from a line start follow the lines `SplitLines` finds. */
  lemma {:induction false} MatchesFollowSplit(text: string, p: nat)
    requires WellFormedBreaks(text)
    requires p <= |text| && (p == 0 || text[p - 1] == '\n')
    ensures Follows(LineMatchesFrom(text, p), SplitLines(text[p..]), text[p..])
    decreases |text| - p
  {
    var body, e := MatchStep(text, p);
    if p + |body| == |text| {
      MatchesAtEnd(text, p, body);
    } else {
      NextLineStart(text, p, body, e);
      MatchesFollowSplit(text, e);
      MatchesBeforeBreak(text, p, body, e);
    }
  }

  /** The contents of the lines made from `matches`: each match without its terminator. */
  function ContentsOf(matches: seq<string>): (r: seq<string>)
    ensures |r| == |matches|
    ensures forall k :: 0 <= k < |r| ==> r[k] == ExtractLineBreak(matches[k]).content
  {
    seq(|matches|, k requires 0 <= k < |matches| => ExtractLineBreak(matches[k]).content)
  }

  /**
    The selection each line made from `matches` gets: the global selection moved back by
    the length of everything before the line, terminators included, then clipped to the line.
   */
  function MatchSelections(matches: seq<string>, sel: Selection): (r: seq<Selection>)
    ensures |r| == |matches|
  {
    seq(|matches|, k requires 0 <= k < |matches| => MatchSelectionAt(matches, sel, k))
  }

  /** The selection of the line made from match `k`. */
  function MatchSelectionAt(matches: seq<string>, sel: Selection, k: nat): Selection
    requires k < |matches|
  {
    GetLineSelection(ExtractLineBreak(matches[k]).content, sel.MoveBy(-(|Concat(matches[..k])| as int)))
  }

  /** The contents of the lines an editor is built from. */
  function EditorContents(text: string): (r: seq<string>)
    ensures |r| == |LineMatches(text)|
  {
    ContentsOf(LineMatches(text))
  }

  /** The selection each line of an editor built from `text` gets. */
  function EditorSelections(text: string, sel: Selection): (r: seq<Selection>)
    ensures |r| == |LineMatches(text)|
  {
    MatchSelections(LineMatches(text), sel)
  }

  /** No line of an editor holds a line terminator, whatever the text. */
  lemma EditorLinesHaveNoBreaks(text: string)
    ensures forall k :: 0 <= k < |EditorContents(text)| ==> NoLineTerminator(EditorContents(text)[k])
  {
    MatchesHaveNoBreaks(text, 0);
  }

  /** With well-formed breaks the editor's lines are exactly the lines `SplitLines` finds. */
  lemma EditorContentsSplit(text: string)
    requires WellFormedBreaks(text)
    ensures EditorContents(text) == SplitLines(text)
  {
    MatchesFollowSplit(text, 0);
    assert text[0..] == text;
  }

  /**
    Building an editor and joining its lines with "\n" gives the text back,
    with every "\r\n" turned into "\n"; a text without "\r" comes back unchanged.
   */
  lemma EditorTextRoundTrip(text: string)
    requires WellFormedBreaks(text)
    ensures JoinWith(EditorContents(text), "\n") == NormalizeNewlines(text)
    ensures '\r' !in text ==> JoinWith(EditorContents(text), "\n") == text
  {
    EditorContentsSplit(text);
    SplitJoin(text);
    if '\r' !in text {
      NormalizeWithoutCR(text);
    }
  }

  // ---------------------------------------------------------------------------
  // Rebuilding the global selection from the lines

  /**
    Where line `k` starts in the text the editor writes back, as `getSelectionStart`
    computes it: the earlier lines joined with "\n", plus the "\n" before line `k`.
   */
  function Offset(lines: seq<string>, k: nat): nat
    requires k <= |lines|
  {
    |JoinWith(lines[..k], "\n")| + (if k > 0 then 1 else 0)
  }

  lemma {:induction false} JoinWithSnoc(parts: seq<string>, x: string)
    requires |parts| > 0
    ensures JoinWith(parts + [x], "\n") == JoinWith(parts, "\n") + "\n" + x
  {
    if |parts| == 1 {
      assert (parts + [x])[1..] == [x];
    } else {
      assert (parts + [x])[1..] == parts[1..] + [x];
      JoinWithSnoc(parts[1..], x);
    }
  }

  /** Each line starts one "\n" after the end of the line before it. */
  lemma OffsetStep(lines: seq<string>, k: nat)
    requires k < |lines|
    ensures Offset(lines, k + 1) == Offset(lines, k) + |lines[k]| + 1
  {
    assert lines[..k + 1] == lines[..k] + [lines[k]];
    if k > 0 {
      JoinWithSnoc(lines[..k], lines[k]);
    }
  }

  /** Line `j` ends before any later line starts. */
  lemma {:induction false} OffsetsIncrease(lines: seq<string>, j: nat, k: nat)
    requires j < k < |lines|
    ensures Offset(lines, j) + |lines[j]| < Offset(lines, k)
    decreases k - j
  {
    OffsetStep(lines, j);
    if j + 1 < k {
      OffsetsIncrease(lines, j + 1, k);
    }
  }

  /** The length of the joined text. */
  lemma JoinedLength(lines: seq<string>)
    requires |lines| > 0
    ensures |JoinWith(lines, "\n")| == Offset(lines, |lines| - 1) + |lines[|lines| - 1]|
  {
    var n := |lines|;
    assert lines == lines[..n - 1] + [lines[n - 1]];
    if n > 1 {
      JoinWithSnoc(lines[..n - 1], lines[n - 1]);
    }
  }

  lemma {:induction false} JoinWithAppend(a: seq<string>, b: seq<string>)
    requires |a| > 0 && |b| > 0
    ensures JoinWith(a + b, "\n") == JoinWith(a, "\n") + "\n" + JoinWith(b, "\n")
  {
    assert (a + b)[0] == a[0];
    if |a| == 1 {
      assert (a + b)[1..] == b;
    } else {
      assert (a + b)[1..] == a[1..] + b;
      JoinWithAppend(a[1..], b);
    }
  }

  /** The joined text starts with the first line. */
  lemma JoinWithHead(parts: seq<string>)
    requires |parts| > 0
    ensures |parts[0]| <= |JoinWith(parts, "\n")| && JoinWith(parts, "\n")[..|parts[0]|] == parts[0]
  {
  }

  /**
    Line `k` sits at `Offset(lines, k)` in the text the editor writes back,
    right after the "\n" that ends the line before it.
   */
  lemma LineAtOffset(lines: seq<string>, k: nat)
    requires k < |lines|
    ensures Offset(lines, k) + |lines[k]| <= |JoinWith(lines, "\n")|
    ensures JoinWith(lines, "\n")[Offset(lines, k)..Offset(lines, k) + |lines[k]|] == lines[k]
    ensures k > 0 ==> JoinWith(lines, "\n")[Offset(lines, k) - 1] == '\n'
  {
    var tail := lines[k..];
    JoinWithHead(tail);
    assert tail[0] == lines[k];
    if k > 0 {
      assert lines == lines[..k] + tail;
      JoinWithAppend(lines[..k], tail);
      var before := JoinWith(lines[..k], "\n");
      var t := JoinWith(tail, "\n");
      assert JoinWith(lines, "\n") == before + "\n" + t;
      assert (before + "\n" + t)[|before| + 1..|before| + 1 + |lines[k]|] == t[..|lines[k]|];
    } else {
      assert lines == tail;
    }
  }

  /** The first index at or after `k` whose selection satisfies `isSelected`. */
  function FirstSelectedFrom(sels: seq<Selection>, k: nat): (r: Option<nat>)
    requires k <= |sels|
    ensures r.Some? ==> k <= r.value < |sels| && sels[r.value].IsValid()
    ensures r.Some? ==> forall j :: k <= j < r.value ==> !sels[j].IsValid()
    ensures r.None? ==> forall j :: k <= j < |sels| ==> !sels[j].IsValid()
    decreases |sels| - k
  {
    if k == |sels| then None
    else if sels[k].IsValid() then Some(k)
    else FirstSelectedFrom(sels, k + 1)
  }

  /** Line `k` is selected and the next one (if any) is not: it closes a run. */
  predicate EndsRun(sels: seq<Selection>, k: nat)
    requires k < |sels|
  {
    sels[k].IsValid() && (k + 1 == |sels| || !sels[k + 1].IsValid())
  }

  /** The first index at or after `k` that closes a run of selected lines. */
  function FirstRunEndFrom(sels: seq<Selection>, k: nat): (r: Option<nat>)
    requires k <= |sels|
    ensures r.Some? ==> k <= r.value < |sels| && EndsRun(sels, r.value)
    ensures r.Some? ==> forall j :: k <= j < r.value ==> !EndsRun(sels, j)
    ensures r.None? ==> forall j :: k <= j < |sels| ==> !EndsRun(sels, j)
    decreases |sels| - k
  {
    if k == |sels| then None
    else if EndsRun(sels, k) then Some(k)
    else FirstRunEndFrom(sels, k + 1)
  }

  /** If line `k` is selected, some run closes at or after it. */
  lemma {:induction false} RunEndExists(sels: seq<Selection>, k: nat)
    requires k < |sels| && sels[k].IsValid()
    ensures FirstRunEndFrom(sels, 0).Some?
    decreases |sels| - k
  {
    if !EndsRun(sels, k) {
      RunEndExists(sels, k + 1);
    }
  }

  /** `getSelectionStart`: `None` where the source fails because no line is selected. */
  function SelectionStartOf(lines: seq<string>, sels: seq<Selection>): (r: Option<int>)
    requires |lines| == |sels|
    ensures r.None? <==> forall k :: 0 <= k < |sels| ==> !sels[k].IsValid()
  {
    match FirstSelectedFrom(sels, 0)
    case None => None
    case Some(i) => Some(Offset(lines, i) + sels[i].start)
  }

  /** `getSelectionEnd`: the end offset of the last line of the first run of selected lines. */
  function SelectionEndOf(lines: seq<string>, sels: seq<Selection>): (r: Option<int>)
    requires |lines| == |sels|
    ensures r.None? <==> forall k :: 0 <= k < |sels| ==> !sels[k].IsValid()
  {
    match FirstRunEndFrom(sels, 0)
    case None =>
      assert forall k :: 0 <= k < |sels| ==> !sels[k].IsValid() by {
        forall k | 0 <= k < |sels| ensures !sels[k].IsValid() {
          if sels[k].IsValid() { RunEndExists(sels, k); }
        }
      }
      None
    case Some(i) => Some(Offset(lines, i) + sels[i].end)
  }

  /** The `selection` getter: `None` where the source fails because no line is selected. */
  function SelectionOf(lines: seq<string>, sels: seq<Selection>): (r: Option<Selection>)
    requires |lines| == |sels|
    ensures r.None? <==> forall k :: 0 <= k < |sels| ==> !sels[k].IsValid()
  {
    match (SelectionStartOf(lines, sels), SelectionEndOf(lines, sels))
    case (Some(s), Some(e)) => Some(Selection(s, e))
    case _ => None
  }

  /** The per-line selections of a global selection over lines joined with "\n". */
  function LineSelections(lines: seq<string>, sel: Selection): (r: seq<Selection>)
    ensures |r| == |lines|
  {
    seq(|lines|, k requires 0 <= k < |lines| => GetLineSelection(lines[k], sel.MoveBy(-(Offset(lines, k) as int))))
  }

  /** The line whose range, end included, holds offset `x`, searching from line `k`. */
  lemma {:induction false} LineOf(lines: seq<string>, x: int, k: nat) returns (a: nat)
    requires k < |lines|
    requires Offset(lines, k) <= x <= Offset(lines, |lines| - 1) + |lines[|lines| - 1]|
    ensures k <= a < |lines| && Offset(lines, a) <= x <= Offset(lines, a) + |lines[a]|
    decreases |lines| - k
  {
    if x <= Offset(lines, k) + |lines[k]| {
      a := k;
    } else {
      OffsetStep(lines, k);
      a := LineOf(lines, x, k + 1);
    }
  }

  /** Line `k` is selected exactly when it lies between the line of `s` and the line of `e`. */
  lemma SelectedBetween(lines: seq<string>, s: int, e: int, a: nat, b: nat, k: nat)
    requires a <= b < |lines| && k < |lines| && s <= e
    requires Offset(lines, a) <= s <= Offset(lines, a) + |lines[a]|
    requires Offset(lines, b) <= e <= Offset(lines, b) + |lines[b]|
    ensures LineSelections(lines, Selection(s, e))[k].IsValid() <==> a <= k <= b
  {
    if k < a { OffsetsIncrease(lines, k, a); }
    if a < k { OffsetsIncrease(lines, a, k); }
    if k < b { OffsetsIncrease(lines, k, b); }
    if b < k { OffsetsIncrease(lines, b, k); }
    assert LineSelections(lines, Selection(s, e))[k]
        == GetLineSelection(lines[k], Selection(s - Offset(lines, k), e - Offset(lines, k)));
  }

  /** The selected lines are exactly those from the line of `s` to the line of `e`. */
  lemma SelectedExactly(lines: seq<string>, s: int, e: int, a: nat, b: nat)
    requires a <= b < |lines| && s <= e
    requires Offset(lines, a) <= s <= Offset(lines, a) + |lines[a]|
    requires Offset(lines, b) <= e <= Offset(lines, b) + |lines[b]|
    ensures forall k :: 0 <= k < |lines| ==> (LineSelections(lines, Selection(s, e))[k].IsValid() <==> a <= k <= b)
  {
    forall k | 0 <= k < |lines|
      ensures LineSelections(lines, Selection(s, e))[k].IsValid() <==> a <= k <= b
    {
      SelectedBetween(lines, s, e, a, b, k);
    }
  }

  /** When the selected lines are exactly `a..b`, the first selected line is `a` and the first run ends at `b`. */
  lemma RunBounds(sels: seq<Selection>, a: nat, b: nat)
    requires a <= b < |sels|
    requires forall k :: 0 <= k < |sels| ==> (sels[k].IsValid() <==> a <= k <= b)
    ensures FirstSelectedFrom(sels, 0) == Some(a)
    ensures FirstRunEndFrom(sels, 0) == Some(b)
  {
    var first := FirstSelectedFrom(sels, 0);
    assert sels[a].IsValid();
    assert first.Some? && first.value <= a;
    assert sels[first.value].IsValid();
    assert EndsRun(sels, b);
    var runEnd := FirstRunEndFrom(sels, 0);
    assert runEnd.Some? && runEnd.value <= b;
    assert EndsRun(sels, runEnd.value);
  }

  /**
    The round trip the text-area adapter relies on: cutting a selection
    `(s, e)` with `0 <= s <= e` within the text into per-line selections and
    rebuilding it gives `(s, e)` back. The selected lines form one run.
   */
  lemma SelectionRoundTrip(lines: seq<string>, s: int, e: int)
    requires |lines| > 0
    requires 0 <= s <= e <= |JoinWith(lines, "\n")|
    ensures SelectionOf(lines, LineSelections(lines, Selection(s, e))) == Some(Selection(s, e))
  {
    JoinedLength(lines);
    var a := LineOf(lines, s, 0);
    var b := LineOf(lines, e, 0);
    if b < a {
      OffsetsIncrease(lines, b, a);
    }
    RoundTripBetween(lines, s, e, a, b);
  }

  /** The round trip, once the lines holding the start and the end are known. */
  lemma RoundTripBetween(lines: seq<string>, s: int, e: int, a: nat, b: nat)
    requires a <= b < |lines| && s <= e
    requires Offset(lines, a) <= s <= Offset(lines, a) + |lines[a]|
    requires Offset(lines, b) <= e <= Offset(lines, b) + |lines[b]|
    ensures SelectionOf(lines, LineSelections(lines, Selection(s, e))) == Some(Selection(s, e))
  {
    var sels := LineSelections(lines, Selection(s, e));
    SelectedExactly(lines, s, e, a, b);
    RunBounds(sels, a, b);
    ClippedEnds(lines, s, e, a, b);
    Rebuilt(lines, sels, a, b);
  }

  /** The selection line `k` gets is the global one moved back by the line's offset, then clipped. */
  lemma LineSelectionAt(lines: seq<string>, sel: Selection, k: nat)
    requires k < |lines|
    ensures LineSelections(lines, sel)[k]
         == GetLineSelection(lines[k], Selection(sel.start - Offset(lines, k), sel.end - Offset(lines, k)))
  {
  }

  /** Clipping to a line that holds the start leaves the start where it was. */
  lemma ClipKeepsStart(line: string, off: int, s: int, e: int)
    requires off <= s <= off + |line| && s <= e
    ensures off + GetLineSelection(line, Selection(s - off, e - off)).start == s
  {
  }

  /** Clipping to a line that holds the end leaves the end where it was. */
  lemma ClipKeepsEnd(line: string, off: int, s: int, e: int)
    requires off <= e <= off + |line| && s <= e
    ensures off + GetLineSelection(line, Selection(s - off, e - off)).end == e
  {
  }

  /** The first selected line keeps the start, the last line of the run the end. */
  lemma ClippedEnds(lines: seq<string>, s: int, e: int, a: nat, b: nat)
    requires a <= b < |lines| && s <= e
    requires Offset(lines, a) <= s <= Offset(lines, a) + |lines[a]|
    requires Offset(lines, b) <= e <= Offset(lines, b) + |lines[b]|
    ensures Offset(lines, a) + LineSelections(lines, Selection(s, e))[a].start == s
    ensures Offset(lines, b) + LineSelections(lines, Selection(s, e))[b].end == e
  {
    LineSelectionAt(lines, Selection(s, e), a);
    LineSelectionAt(lines, Selection(s, e), b);
    ClipKeepsStart(lines[a], Offset(lines, a), s, e);
    ClipKeepsEnd(lines[b], Offset(lines, b), s, e);
  }

  /** The rebuilt selection runs from the start on line `a` to the end on line `b`. */
  lemma Rebuilt(lines: seq<string>, sels: seq<Selection>, a: nat, b: nat)
    requires |lines| == |sels|
    requires FirstSelectedFrom(sels, 0) == Some(a) && FirstRunEndFrom(sels, 0) == Some(b)
    ensures SelectionOf(lines, sels) == Some(Selection(Offset(lines, a) + sels[a].start, Offset(lines, b) + sels[b].end))
  {
    assert SelectionStartOf(lines, sels) == Some(Offset(lines, a) + sels[a].start);
    assert SelectionEndOf(lines, sels) == Some(Offset(lines, b) + sels[b].end);
  }

  /** With no line selected (e.g. after `removeSelection`) there is no selection to read. */
  lemma NothingSelected(lines: seq<string>)
    ensures SelectionOf(lines, seq(|lines|, _ => NoSelection)) == None
  {
  }

  /** Without "\r", the matches before line `k` are as long as the offset `getSelectionStart` gives it. */
  lemma {:induction false} PrefixOffsets(M: seq<string>, cs: seq<string>, k: nat)
    requires k < |M| == |cs|
    requires forall j :: 0 <= j < k ==> M[j] == cs[j] + "\n"
    ensures |Concat(M[..k])| == Offset(cs, k)
  {
    if k > 0 {
      PrefixOffsets(M, cs, k - 1);
      assert M[..k] == M[..k - 1] + [M[k - 1]];
      ConcatAppend(M[..k - 1], [M[k - 1]]);
      assert Concat([M[k - 1]]) == M[k - 1] by {
        assert [M[k - 1]][1..] == [];
      }
      OffsetStep(cs, k - 1);
    }
  }

  /** For a text without "\r", each line starts in the original text where `getSelectionStart` puts it. */
  lemma MatchOffsets(text: string, k: nat)
    requires WellFormedBreaks(text) && '\r' !in text
    requires k < |LineMatches(text)|
    ensures |Concat(LineMatches(text)[..k])| == Offset(EditorContents(text), k)
  {
    MatchesFollowSplit(text, 0);
    assert text[0..] == text;
    EditorContentsSplit(text);
    PrefixOffsets(LineMatches(text), EditorContents(text), k);
  }

  /** For a text without "\r" the editor's per-line selections are those of the joined lines. */
  lemma EditorSelectionsAreLineSelections(text: string, sel: Selection)
    requires WellFormedBreaks(text) && '\r' !in text
    ensures EditorSelections(text, sel) == LineSelections(EditorContents(text), sel)
  {
    forall k | 0 <= k < |EditorContents(text)|
      ensures EditorSelections(text, sel)[k] == LineSelections(EditorContents(text), sel)[k]
    {
      EditorSelectionAt(text, sel, k);
    }
  }

  lemma EditorSelectionAt(text: string, sel: Selection, k: nat)
    requires WellFormedBreaks(text) && '\r' !in text
    requires k < |LineMatches(text)|
    ensures EditorSelections(text, sel)[k] == LineSelections(EditorContents(text), sel)[k]
  {
    MatchOffsets(text, k);
    LineFromMatchAt(LineMatches(text), sel, k);
    LineSelectionAt(EditorContents(text), sel, k);
  }

  /** Line `k` of the lines made from `matches`: its content and its clipped selection. */
  lemma LineFromMatchAt(matches: seq<string>, sel: Selection, k: nat)
    requires k < |matches|
    ensures ContentsOf(matches)[k] == ExtractLineBreak(matches[k]).content
    ensures MatchSelections(matches, sel)[k]
         == GetLineSelection(ContentsOf(matches)[k], sel.MoveBy(-(|Concat(matches[..k])| as int)))
  {
    SelectionFromMatchAt(matches, sel, k, ExtractLineBreak(matches[k]).content, |Concat(matches[..k])|);
  }

  lemma SelectionFromMatchAt(matches: seq<string>, sel: Selection, k: nat, content: string, before: nat)
    requires k < |matches|
    requires content == ExtractLineBreak(matches[k]).content && before == |Concat(matches[..k])|
    ensures MatchSelections(matches, sel)[k] == GetLineSelection(content, sel.MoveBy(-(before as int)))
  {
    assert MatchSelections(matches, sel)[k] == MatchSelectionAt(matches, sel, k);
  }

  /**
    For a text without "\r" and a selection `0 <= s <= e <= |text|`, an editor
    built from them reports the same selection.
   */
  lemma EditorSelectionRoundTrip(text: string, sel: Selection)
    requires WellFormedBreaks(text) && '\r' !in text
    requires 0 <= sel.start <= sel.end <= |text|
    ensures SelectionOf(EditorContents(text), EditorSelections(text, sel)) == Some(sel)
  {
    EditorSelectionsAreLineSelections(text, sel);
    EditorTextRoundTrip(text);
    EditorContentsSplit(text);
    SelectionRoundTrip(EditorContents(text), sel.start, sel.end);
  }

  /** What an editor built from `text` and `sel` gives back, as its constructor promises. */
  lemma EditorRoundTrips(text: string, sel: Selection)
    ensures WellFormedBreaks(text) ==> JoinWith(EditorContents(text), "\n") == NormalizeNewlines(text)
    ensures WellFormedBreaks(text) && '\r' !in text && 0 <= sel.start <= sel.end <= |text| ==>
      SelectionOf(EditorContents(text), EditorSelections(text, sel)) == Some(sel)
  {
    if WellFormedBreaks(text) {
      EditorTextRoundTrip(text);
      if '\r' !in text && 0 <= sel.start <= sel.end <= |text| {
        EditorSelectionRoundTrip(text, sel);
      }
    }
  }

  // ---------------------------------------------------------------------------
  // Line edits, as functions of the value and the selection

  /** Two spaces, what `indent` prepends. */
  const IndentUnit := "  "

  /** A valid selection moves by `diff`; the sentinel stays. */
  function ShiftIfValid(sel: Selection, diff: int): (r: Selection)
    ensures !sel.IsValid() ==> r == sel
    ensures sel.IsValid() ==> r.Length() == sel.Length() && r.start == sel.start + diff
  {
    if sel.IsValid() then sel.MoveBy(diff) else sel
  }

  /** How many leading spaces `value.replace(/^( {1,2})/, "")` removes: up to two, never a tab. */
  function OutdentWidth(value: string): (w: nat)
    ensures w <= 2 && w <= |value|
    ensures forall k :: 0 <= k < w ==> value[k] == ' '
    ensures w < 2 && w < |value| ==> value[w] != ' '
  {
    if |value| >= 2 && value[0] == ' ' && value[1] == ' ' then 2
    else if |value| >= 1 && value[0] == ' ' then 1
    else 0
  }

  /** After an outdent by `diff`, a valid selection moves back by `diff` but not below 0. */
  function OutdentSelection(sel: Selection, diff: nat): (r: Selection)
    ensures !sel.IsValid() ==> r == sel
    ensures sel.IsValid() ==> r.start >= 0 && r.end >= 0
    ensures sel.IsValid() ==> r.start == (if sel.start < diff then 0 else sel.start - diff)
    ensures sel.IsValid() ==> r.end == (if sel.end < diff then 0 else sel.end - diff)
    ensures sel.IsValid() && sel.start >= diff && sel.end >= diff ==> r == sel.MoveBy(-(diff as int))
  {
    if sel.IsValid() then
      Selection(if sel.start - diff < 0 then 0 else sel.start - diff,
                if sel.end - diff < 0 then 0 else sel.end - diff)
    else sel
  }

  /** `String.prototype.substring` clamps its arguments to `0..length`. */
  function Clamp(x: int, length: nat): (r: nat)
    ensures r <= length
    ensures 0 <= x <= length ==> r == x
    ensures x < 0 ==> r == 0
    ensures x > length ==> r == length
  {
    if x < 0 then 0 else if x > length then length else x
  }

  /** The value after `insertTextBeforeSelection`: text before the selection, the new text, text after it. */
  function Splice(value: string, sel: Selection, text: string): (r: string)
    ensures 0 <= sel.start <= sel.end <= |value| ==>
      && |r| == |value| - sel.Length() + |text|
      && r[..sel.start] == value[..sel.start]
      && r[sel.start..sel.start + |text|] == text
      && r[sel.start + |text|..] == value[sel.end..]
  {
    value[..Clamp(sel.start, |value|)] + text + value[Clamp(sel.end, |value|)..]
  }

  /** The leading run of spaces, `value.match(/^( *)/)[0]`. */
  function LeadingSpaces(value: string): (r: string)
    ensures |r| <= |value| && r == value[..|r|]
    ensures forall k :: 0 <= k < |r| ==> r[k] == ' '
    ensures |r| < |value| ==> value[|r|] != ' '
  {
    if value == [] || value[0] != ' ' then ""
    else
      var r := [' '] + LeadingSpaces(value[1..]);
      assert value == [value[0]] + value[1..];
      r
  }

  /** Indenting keeps the selection on the same characters. */
  lemma IndentKeepsSelectedText(value: string, sel: Selection)
    requires 0 <= sel.start <= sel.end <= |value|
    ensures ShiftIfValid(sel, |IndentUnit|).IsValid()
    ensures ShiftIfValid(sel, |IndentUnit|).end <= |IndentUnit + value|
    ensures (IndentUnit + value)[ShiftIfValid(sel, |IndentUnit|).start..ShiftIfValid(sel, |IndentUnit|).end]
         == value[sel.start..sel.end]
  {
    var v := IndentUnit + value;
    assert v[sel.start + 2..sel.end + 2] == value[sel.start..sel.end];
  }

  /** Outdenting right after an indent restores the value and the selection. */
  lemma OutdentUndoesIndent(value: string, sel: Selection)
    requires !sel.IsValid() || (sel.start >= 0 && sel.end >= 0)
    ensures OutdentWidth(IndentUnit + value) == 2
    ensures (IndentUnit + value)[2..] == value
    ensures OutdentSelection(ShiftIfValid(sel, 2), 2) == sel
  {
    assert (IndentUnit + value)[0] == ' ' && (IndentUnit + value)[1] == ' ';
  }

  /** Outdenting keeps a selection that starts after the removed spaces on the same characters. */
  lemma OutdentKeepsSelectedText(value: string, sel: Selection)
    requires OutdentWidth(value) <= sel.start <= sel.end <= |value|
    ensures OutdentSelection(sel, OutdentWidth(value)).IsValid()
    ensures var w := OutdentWidth(value);
            var r := OutdentSelection(sel, w);
            r.end <= |value| - w && value[w..][r.start..r.end] == value[sel.start..sel.end]
  {
    var w := OutdentWidth(value);
    var r := OutdentSelection(sel, w);
    assert r == Selection(sel.start - w, sel.end - w);
    var rest := value[w..];
    assert forall i :: 0 <= i < sel.end - sel.start ==> rest[r.start..r.end][i] == value[sel.start + i];
  }

  /**
    Tab on a caret: the text goes in at the caret, the caret ends up right after
    it, and taking the text out again gives the old value.
   */
  lemma InsertAtCaret(value: string, at: int, text: string)
    requires 0 <= at <= |value|
    ensures Splice(value, Selection(at, at), text) == value[..at] + text + value[at..]
    ensures Selection(at, at).MoveBy(|text|) == Selection(at + |text|, at + |text|)
    ensures Splice(value, Selection(at, at), text)[..at] + Splice(value, Selection(at, at), text)[at + |text|..] == value
  {
    var r := Splice(value, Selection(at, at), text);
    assert value == value[..at] + value[at..];
  }

  // ---------------------------------------------------------------------------
  // Lines and the editor

  /** `indexOf` by reference: the first position holding `x`, or -1. */
  function IndexOf<T(==)>(s: seq<T>, x: T): (i: int)
    ensures i == -1 <==> x !in s
    ensures i != -1 ==> 0 <= i < |s| && s[i] == x && x !in s[..i]
  {
    if s == [] then -1
    else if s[0] == x then 0
    else
      var j := IndexOf(s[1..], x);
      if j == -1 then -1
      else
        assert s[..j + 1] == [s[0]] + s[1..][..j];
        j + 1
  }

  /**
    `splice(indexOf(after) + 1, 0, x)`: `x` right after the first `after`, or
    first when `after` is absent; taking `x` out gives back the old sequence.
   */
  function InsertAfter<T(==)>(s: seq<T>, x: T, after: T): (r: seq<T>)
    ensures |r| == |s| + 1
    ensures r[IndexOf(s, after) + 1] == x
    ensures after in s ==> r[IndexOf(s, after)] == after
    ensures r[..IndexOf(s, after) + 1] + r[IndexOf(s, after) + 2..] == s
  {
    var i := IndexOf(s, after) + 1;
    var r := s[..i] + [x] + s[i..];
    assert r[..i] + r[i + 1..] == s[..i] + s[i..];
    r
  }

  class Line {
    var value: string
    var selection: Selection

    constructor(value: string, selection: Selection)
      ensures this.value == value && this.selection == selection
    {
      this.value := value;
      this.selection := selection;
    }

    /** `Line.fromRelativeSelection`: drop the terminator and clip the selection to the content. */
    static method FromRelativeSelection(text: string, relativeSelection: Selection) returns (line: Line)
      ensures fresh(line)
      ensures line.value == ExtractLineBreak(text).content
      ensures line.selection == GetLineSelection(line.value, relativeSelection)
    {
      var parts := ExtractLineBreak(text);
      var lineSelection := GetLineSelection(parts.content, relativeSelection);
      line := new Line(parts.content, lineSelection);
    }

    /** `Line.fromText`: a line with the caret at its end. */
    static method FromText(text: string) returns (line: Line)
      ensures fresh(line) && line.value == text && line.IsCursorAtEnd()
    {
      line := new Line(text, Selection(|text|, |text|));
    }

    function IsSelected(): bool
      reads this
    {
      selection.IsValid()
    }

    function HasTextSelected(): bool
      reads this
    {
      selection.Length() > 0
    }

    function IsCursorAtEnd(): bool
      reads this
    {
      selection.start == |value| && selection.end == |value|
    }

    /** `indent`: two spaces in front; a valid selection moves with the text. */
    method Indent()
      modifies this
      ensures value == IndentUnit + old(value)
      ensures selection == ShiftIfValid(old(selection), |IndentUnit|)
    {
      value := IndentUnit + value;
      if selection.IsValid() {
        selection := selection.MoveBy(|IndentUnit|);
      }
    }

    /** `outdent`: up to two leading spaces go; a valid selection moves back as far, not below 0. */
    method Outdent()
      modifies this
      ensures value == old(value)[OutdentWidth(old(value))..]
      ensures selection == OutdentSelection(old(selection), OutdentWidth(old(value)))
    {
      var newValue := value[OutdentWidth(value)..];
      var diff := |value| - |newValue|;
      value := newValue;
      if selection.IsValid() {
        selection := Selection(if selection.start - diff < 0 then 0 else selection.start - diff,
                               if selection.end - diff < 0 then 0 else selection.end - diff);
      }
    }

    /**
      `insertTextBeforeSelection`: fails (`ok` false, nothing changed) without a
      selection; otherwise the selected range is replaced by `text` and both ends
      move forward by its length.
     */
    method InsertTextBeforeSelection(text: string) returns (ok: bool)
      modifies this
      ensures ok == old(selection).IsValid()
      ensures !ok ==> value == old(value) && selection == old(selection)
      ensures ok ==> value == Splice(old(value), old(selection), text)
      ensures ok ==> selection == old(selection).MoveBy(|text|)
    {
      if !selection.IsValid() {
        return false;
      }
      var before := value[..Clamp(selection.start, |value|)];
      var after := value[Clamp(selection.end, |value|)..];
      value := before + text + after;
      selection := selection.MoveBy(|text|);
      return true;
    }

    /** `getIndentation`. */
    function GetIndentation(): string
      reads this
    {
      LeadingSpaces(value)
    }

    /** `removeSelection`. */
    method RemoveSelection()
      modifies this
      ensures value == old(value) && selection == NoSelection
    {
      selection := NoSelection;
    }

    /** `setSelectionToEnd`: a caret at the end of the content. */
    method SetSelectionToEnd()
      modifies this
      ensures value == old(value) && IsCursorAtEnd()
    {
      selection := Selection(|value|, |value|);
    }

    function ToString(): string
      reads this
    {
      value
    }
  }

  function ValuesOf(ls: seq<Line>): (r: seq<string>)
    reads ls
    ensures |r| == |ls| && forall k :: 0 <= k < |ls| ==> r[k] == ls[k].value
  {
    if ls == [] then [] else [ls[0].value] + ValuesOf(ls[1..])
  }

  function SelectionsOf(ls: seq<Line>): (r: seq<Selection>)
    reads ls
    ensures |r| == |ls| && forall k :: 0 <= k < |ls| ==> r[k] == ls[k].selection
  {
    if ls == [] then [] else [ls[0].selection] + SelectionsOf(ls[1..])
  }

  /** The lines whose selection is valid, in order. */
  function SelectedOf(ls: seq<Line>): (r: seq<Line>)
    reads ls
    ensures |r| <= |ls|
    ensures forall k :: 0 <= k < |r| ==> r[k] in ls && r[k].IsSelected()
    ensures forall k :: 0 <= k < |ls| && ls[k].IsSelected() ==> ls[k] in r
  {
    if ls == [] then []
    else if ls[0].IsSelected() then [ls[0]] + SelectedOf(ls[1..])
    else SelectedOf(ls[1..])
  }

  /** Filtering keeps order: the selected lines of `a + b` are those of `a`, then those of `b`. */
  lemma {:induction false} SelectedOfAppend(a: seq<Line>, b: seq<Line>)
    ensures SelectedOf(a + b) == SelectedOf(a) + SelectedOf(b)
  {
    if a == [] {
      assert a + b == b;
    } else {
      assert (a + b)[0] == a[0];
      assert (a + b)[1..] == a[1..] + b;
      SelectedOfAppend(a[1..], b);
    }
  }

  /** `line` is what `Line.fromRelativeSelection` makes of match `m`, which starts at `start` in the text. */
  predicate MadeFrom(line: Line, m: string, start: int, sel: Selection)
    reads line
  {
    && line.value == ExtractLineBreak(m).content
    && line.selection == GetLineSelection(line.value, sel.MoveBy(-start))
  }

  /** Lines without line breaks, joined with "\n", split back into the same lines. */
  lemma BreakFreeJoinSplits(values: seq<string>)
    ensures |values| > 0 && (forall k :: 0 <= k < |values| ==> '\n' !in values[k] && '\r' !in values[k]) ==>
      SplitLines(JoinWith(values, "\n")) == values
  {
    if |values| > 0 && (forall k :: 0 <= k < |values| ==> '\n' !in values[k] && '\r' !in values[k]) {
      JoinSplit(values);
    }
  }

  /** The first `|made|` lines the loop makes from `textLines`, each with the start of its match. */
  predicate MadeUpTo(made: seq<Line>, starts: seq<int>, textLines: seq<string>, sel: Selection)
    reads made
  {
    && |made| == |starts| <= |textLines|
    && (forall k :: 0 <= k < |made| ==> starts[k] == |Concat(textLines[..k])|)
    && (forall k :: 0 <= k < |made| ==> MadeFrom(made[k], textLines[k], starts[k], sel))
  }

  lemma MadeStep(made: seq<Line>, starts: seq<int>, textLines: seq<string>, sel: Selection, line: Line, startPos: int)
    requires MadeUpTo(made, starts, textLines, sel) && |made| < |textLines|
    requires startPos == |Concat(textLines[..|made|])|
    requires MadeFrom(line, textLines[|made|], startPos, sel)
    ensures MadeUpTo(made + [line], starts + [startPos], textLines, sel)
  {
    var made', starts' := made + [line], starts + [startPos];
    forall k | 0 <= k < |made'|
      ensures starts'[k] == |Concat(textLines[..k])| && MadeFrom(made'[k], textLines[k], starts'[k], sel)
    {
      if k < |made| {
        assert made'[k] == made[k] && starts'[k] == starts[k];
      }
    }
  }

  /** The constructor's loop: one fresh line per match, in order. */
  method MakeLines(textLines: seq<string>, selection: Selection) returns (made: seq<Line>, ghost starts: seq<int>)
    ensures |made| == |starts| == |textLines|
    ensures forall k :: 0 <= k < |made| ==> fresh(made[k])
    ensures forall k :: 0 <= k < |made| ==> starts[k] == |Concat(textLines[..k])|
    ensures forall k :: 0 <= k < |made| ==> MadeFrom(made[k], textLines[k], starts[k], selection)
  {
    made := [];
    starts := [];
    for index := 0 to |textLines|
      invariant |made| == index
      invariant forall k :: 0 <= k < index ==> fresh(made[k])
      invariant MadeUpTo(made, starts, textLines, selection)
    {
      var startPos := |Concat(textLines[..index])|;
      var line := Line.FromRelativeSelection(textLines[index], selection.MoveBy(-(startPos as int)));
      MadeStep(made, starts, textLines, selection, line, startPos);
      made := made + [line];
      starts := starts + [startPos];
    }
  }

  /** The lines the loop makes from `matches` have the contents and selections the matches give. */
  lemma MadeLinesAreEditorLines(matches: seq<string>, selection: Selection, made: seq<Line>, starts: seq<int>)
    requires |made| == |starts| == |matches|
    requires forall k :: 0 <= k < |made| ==> starts[k] == |Concat(matches[..k])|
    requires forall k :: 0 <= k < |made| ==> MadeFrom(made[k], matches[k], starts[k], selection)
    ensures ValuesOf(made) == ContentsOf(matches)
    ensures SelectionsOf(made) == MatchSelections(matches, selection)
  {
    forall k | 0 <= k < |made|
      ensures made[k].value == ContentsOf(matches)[k] && made[k].selection == MatchSelections(matches, selection)[k]
    {
      MadeLineIsEditorLine(matches, selection, made[k], k);
    }
  }

  lemma MadeLineIsEditorLine(matches: seq<string>, selection: Selection, line: Line, k: nat)
    requires k < |matches|
    requires MadeFrom(line, matches[k], |Concat(matches[..k])|, selection)
    ensures line.value == ContentsOf(matches)[k] && line.selection == MatchSelections(matches, selection)[k]
  {
    LineFromMatchAt(matches, selection, k);
  }

  class Editor {
    var lines: seq<Line>

    /**
      `new Editor(value, selection)`: one line per match of the line pattern,
      each with the global selection moved back by the length of the text before it.
     */
    constructor(value: string, selection: Selection)
      ensures forall k :: 0 <= k < |lines| ==> fresh(lines[k])
      ensures Values() == EditorContents(value)
      ensures Selections() == EditorSelections(value, selection)
      ensures WellFormedBreaks(value) ==> ToString() == NormalizeNewlines(value)
      ensures WellFormedBreaks(value) && '\r' !in value && 0 <= selection.start <= selection.end <= |value| ==>
        CurrentSelection() == Some(selection)
    {
      var textLines := LineMatches(value);
      var made;
      ghost var starts;
      made, starts := MakeLines(textLines, selection);
      MadeLinesAreEditorLines(textLines, selection, made, starts);
      lines := made;
      new;
      EditorRoundTrips(value, selection);
    }

    function Values(): seq<string>
      reads this, lines
    {
      ValuesOf(lines)
    }

    function Selections(): seq<Selection>
      reads this, lines
    {
      SelectionsOf(lines)
    }

    /** The `selectedLines` getter. */
    function SelectedLines(): (r: seq<Line>)
      reads this, lines
      ensures forall k :: 0 <= k < |r| ==> r[k] in lines && r[k].IsSelected()
      ensures forall k :: 0 <= k < |lines| && lines[k].IsSelected() ==> lines[k] in r
    {
      SelectedOf(lines)
    }

    /** The `hasTextSelected` getter. */
    function HasTextSelected(): bool
      reads this, lines
    {
      exists k :: 0 <= k < |lines| && lines[k].HasTextSelected()
    }

    /** The `selection` getter; `None` where the source fails for want of a selected line. */
    function CurrentSelection(): (r: Option<Selection>)
      reads this, lines
      ensures r.None? <==> forall k :: 0 <= k < |lines| ==> !lines[k].IsSelected()
    {
      SelectionOf(Values(), Selections())
    }

    /** `insertLineAfter`: `newLine` right after `after`, or first if `after` is not a line here. */
    method InsertLineAfter(newLine: Line, after: Line)
      modifies this
      ensures lines == InsertAfter(old(lines), newLine, after)
    {
      var lineIdx := IndexOf(lines, after);
      lines := lines[..lineIdx + 1] + [newLine] + lines[lineIdx + 1..];
    }

    /** `removeSelection`: every line loses its selection, so the `selection` getter has nothing to read. */
    method RemoveSelection()
      modifies lines
      ensures Values() == old(Values())
      ensures forall k :: 0 <= k < |lines| ==> lines[k].selection == NoSelection
      ensures CurrentSelection() == None
      ensures !HasTextSelected()
    {
      for i := 0 to |lines|
        invariant forall k :: 0 <= k < |lines| ==> lines[k].value == old(lines[k].value)
        invariant forall k :: 0 <= k < i ==> lines[k].selection == NoSelection
      {
        lines[i].RemoveSelection();
      }
    }

    /** `toString`: the lines joined with "\n" (a "\r\n" terminator is not kept). */
    function ToString(): (r: string)
      reads this, lines
      ensures |lines| > 0 && (forall k :: 0 <= k < |lines| ==> '\n' !in lines[k].value && '\r' !in lines[k].value) ==>
        SplitLines(r) == Values()
    {
      BreakFreeJoinSplits(Values());
      JoinWith(Values(), "\n")
    }
  }
}
