/**
  The outline parser: text is split into lines, blank lines are dropped, each
  remaining line becomes an item with its trimmed name and its indent width,
  and each item gets a depth from the nearest earlier item that is indented
  strictly less.
 */
module Parser {
  import opened Text
  import opened Options

  /** One outline line as `parseLine` returns it. */
  datatype RawItem = RawItem(name: string, indent: nat)

  /** An item after level resolution (the source's ItemWithHierarchy). */
  datatype Item = Item(name: string, indent: nat, level: nat, hasChildren: bool)

  /** `parseLine`: the trimmed text and the count of leading whitespace characters, each counting 1. */
  function ParseLine(line: string): (r: RawItem)
    ensures r.indent <= |line| && AllWhitespace(line[..r.indent])
    ensures r.indent < |line| ==> !IsWhitespace(line[r.indent])
    ensures r.indent + |r.name| <= |line| && r.name == line[r.indent..r.indent + |r.name|]
    ensures AllWhitespace(line[r.indent + |r.name|..])
    ensures r.name == [] || (!IsWhitespace(r.name[0]) && !IsWhitespace(r.name[|r.name| - 1]))
  {
    RawItem(Trim(line), LeadingWhitespace(line))
  }

  /** The filter `line.trim().length > 0`. */
  predicate IsBlank(line: string)
    ensures IsBlank(line) <==> AllWhitespace(line)
  {
    Trim(line) == []
  }

  /** The lines that are not blank, in their original order. */
  function NonBlankLines(lines: seq<string>): (r: seq<string>)
    ensures |r| <= |lines|
    ensures forall k :: 0 <= k < |r| ==> !IsBlank(r[k])
  {
    if lines == [] then []
    else if IsBlank(lines[0]) then NonBlankLines(lines[1..])
    else [lines[0]] + NonBlankLines(lines[1..])
  }

  /** The filter judges the first line on its own and keeps it ahead of the rest. */
  lemma NonBlankCons(line: string, rest: seq<string>)
    ensures NonBlankLines([line] + rest) == (if IsBlank(line) then [] else [line]) + NonBlankLines(rest)
  {
    assert ([line] + rest)[0] == line;
    assert ([line] + rest)[1..] == rest;
  }

  lemma AppendAssoc(x: seq<string>, y: seq<string>, z: seq<string>)
    ensures x + (y + z) == (x + y) + z
  {
  }

  /** Filtering distributes over concatenation: order is kept and every line is judged on its own. */
  lemma {:induction false} NonBlankLinesAppend(a: seq<string>, b: seq<string>)
    ensures NonBlankLines(a + b) == NonBlankLines(a) + NonBlankLines(b)
  {
    if a == [] {
      assert a + b == b;
    } else {
      var line, rest := a[0], a[1..];
      var kept: seq<string> := if IsBlank(line) then [] else [line];
      assert a == [line] + rest;
      assert a + b == [line] + (rest + b);
      NonBlankCons(line, rest + b);
      NonBlankCons(line, rest);
      NonBlankLinesAppend(rest, b);
      AppendAssoc(kept, NonBlankLines(rest), NonBlankLines(b));
    }
  }

  /** The split/filter/map part of `parseInput`, before levels are assigned. */
  function ParseItems(input: string): (r: seq<RawItem>)
    ensures forall k :: 0 <= k < |r| ==> r[k].name != []
    ensures |r| <= |SplitLines(input)|
  {
    ParseEach(NonBlankLines(SplitLines(input)))
  }

  /** The filter keeps only lines it was given. */
  lemma {:induction false} NonBlankFromLines(lines: seq<string>)
    ensures forall k :: 0 <= k < |NonBlankLines(lines)| ==> NonBlankLines(lines)[k] in lines
  {
    if lines != [] {
      NonBlankFromLines(lines[1..]);
      NonBlankCons(lines[0], lines[1..]);
      assert [lines[0]] + lines[1..] == lines;
    }
  }

  /**
    A parsed name holds no "\n" (it comes from one `\r?\n` piece) and does not
    end in "\r" (trimming removes it), so the names can be written one per line.
   */
  lemma ParsedNamesAreLines(input: string)
    ensures forall k :: 0 <= k < |ParseItems(input)| ==>
      '\n' !in ParseItems(input)[k].name && !EndsInCR(ParseItems(input)[k].name)
  {
    var lines := NonBlankLines(SplitLines(input));
    NonBlankFromLines(SplitLines(input));
    forall k | 0 <= k < |ParseItems(input)|
      ensures '\n' !in ParseItems(input)[k].name && !EndsInCR(ParseItems(input)[k].name)
    {
      var line := lines[k];
      var r := ParseLine(line);
      assert ParseItems(input)[k] == r;
      assert '\n' !in line;
      forall c | c in r.name ensures c != '\n' {
        var i :| 0 <= i < |r.name| && r.name[i] == c;
        assert line[r.indent + i] == c;
      }
    }
  }

  /** Text made only of whitespace and line breaks (including the empty text) gives no items. */
  lemma BlankInputGivesNoItems(input: string)
    requires AllWhitespace(input)
    ensures ParseItems(input) == []
  {
    var lines := SplitLines(input);
    SplitLinesWhitespace(input);
    AllBlank(lines);
  }

  lemma {:induction false} AllBlank(lines: seq<string>)
    requires forall k :: 0 <= k < |lines| ==> AllWhitespace(lines[k])
    ensures NonBlankLines(lines) == []
  {
    if lines != [] {
      AllBlank(lines[1..]);
    }
  }

  /**
    One item per non-blank line, in source order: the first line (ended by "\n"
    or "\r\n") contributes its own item, if it is not blank, ahead of the items of the rest.
   */
  lemma ParseItemsFirstLine(a: string, term: string, b: string)
    requires '\n' !in a
    requires term == "\r\n" || (term == "\n" && (a == [] || a[|a| - 1] != '\r'))
    ensures ParseItems(a + term + b) == (if IsBlank(a) then [] else [ParseLine(a)]) + ParseItems(b)
  {
    SplitLinesLine(a, term, b);
    NonBlankCons(a, SplitLines(b));
    var head := if IsBlank(a) then [] else [a];
    var tail := NonBlankLines(SplitLines(b));
    assert ParseEach(head) == (if IsBlank(a) then [] else [ParseLine(a)]);
    ParseEachAppend(head, tail);
  }

  /** The `map(parseLine)` step, item by item. */
  function ParseEach(lines: seq<string>): (r: seq<RawItem>)
    ensures |r| == |lines|
    ensures forall k :: 0 <= k < |r| ==> r[k] == ParseLine(lines[k])
  {
    seq(|lines|, k requires 0 <= k < |lines| => ParseLine(lines[k]))
  }

  lemma ParseEachAppend(x: seq<string>, y: seq<string>)
    ensures ParseEach(x + y) == ParseEach(x) + ParseEach(y)
  {
    var l := ParseEach(x + y);
    var m := ParseEach(x) + ParseEach(y);
    forall k | 0 <= k < |l| ensures l[k] == m[k] {
      if k < |x| {
        assert (x + y)[k] == x[k];
      } else {
        assert (x + y)[k] == y[k - |x|];
      }
    }
  }

  /** A text with no line break gives one item, its parsed line, unless it is blank. */
  lemma ParseItemsSingleLine(a: string)
    requires '\n' !in a
    ensures ParseItems(a) == if IsBlank(a) then [] else [ParseLine(a)]
  {
    SplitLinesSingle(a);
    assert [a][1..] == [];
  }

  // ---------------------------------------------------------------------------
  // Level resolution

  /**
    The latest index below `j` whose item is indented strictly less than item
    `i`: the element `Array.prototype.find` meets first in the reversed list.
   */
  function ParentBelow(items: seq<RawItem>, i: nat, j: nat): (p: Option<nat>)
    requires i < |items| && j <= i
    ensures p.Some? ==> p.value < j && items[p.value].indent < items[i].indent
    ensures p.Some? ==> forall k :: p.value < k < j ==> items[k].indent >= items[i].indent
    ensures p.None? ==> forall k :: 0 <= k < j ==> items[k].indent >= items[i].indent
    decreases j
  {
    if j == 0 then None
    else if items[j - 1].indent < items[i].indent then Some(j - 1)
    else ParentBelow(items, i, j - 1)
  }

  /** The nearest earlier item indented strictly less than item `i`, if any. */
  function Parent(items: seq<RawItem>, i: nat): Option<nat>
    requires i < |items|
  {
    ParentBelow(items, i, i)
  }

  /** Depth of item `i`: 0 without a parent, one more than the parent's depth otherwise. */
  function Level(items: seq<RawItem>, i: nat): (r: nat)
    requires i < |items|
    ensures r <= i
    decreases i
  {
    match Parent(items, i)
    case None => 0
    case Some(p) => Level(items, p) + 1
  }

  /** Item `i` has children iff the next item exists and is deeper. */
  predicate HasChildren(items: seq<RawItem>, i: nat)
    requires i < |items|
  {
    i + 1 < |items| && Level(items, i + 1) > Level(items, i)
  }

  /** What `calculateLevel` returns: the items in order, each with its level and children flag. */
  function Leveled(items: seq<RawItem>): (r: seq<Item>)
    ensures |r| == |items|
  {
    seq(|items|, i requires 0 <= i < |items| =>
      Item(items[i].name, items[i].indent, Level(items, i), HasChildren(items, i)))
  }

  /** The facts above determine the parent: any index with them is the one `Parent` finds. */
  lemma ParentIs(items: seq<RawItem>, i: nat, p: nat)
    requires p < i < |items|
    requires items[p].indent < items[i].indent
    requires forall k :: p < k < i ==> items[k].indent >= items[i].indent
    ensures Parent(items, i) == Some(p)
  {
  }

  /** With no earlier item indented less, there is no parent. */
  lemma NoParent(items: seq<RawItem>, i: nat)
    requires i < |items|
    requires forall k :: 0 <= k < i ==> items[k].indent >= items[i].indent
    ensures Parent(items, i) == None
  {
  }

  /**
    If every item after `q` up to `i` is indented deeper than item `q`, then
    item `i` is at least one level deeper than item `q`.
   */
  lemma {:induction false} LevelBelowOpenAncestor(items: seq<RawItem>, q: nat, i: nat)
    requires q < i < |items|
    requires forall k :: q < k <= i ==> items[q].indent < items[k].indent
    ensures Level(items, i) >= Level(items, q) + 1
    decreases i
  {
    var p := Parent(items, i);
    if p.Some? && p.value > q {
      LevelBelowOpenAncestor(items, q, p.value);
    }
  }

  /**
    Neighbouring levels: depth rises by exactly one when the indent grows, and
    does not rise otherwise; so it never rises by more than one.
   */
  lemma LevelStep(items: seq<RawItem>, i: nat)
    requires i + 1 < |items|
    ensures items[i].indent < items[i + 1].indent ==> Level(items, i + 1) == Level(items, i) + 1
    ensures items[i + 1].indent <= items[i].indent ==> Level(items, i + 1) <= Level(items, i)
    ensures Level(items, i + 1) <= Level(items, i) + 1
  {
    if items[i].indent < items[i + 1].indent {
      ParentIs(items, i + 1, i);
    } else {
      var p := Parent(items, i + 1);
      if p.Some? {
        LevelBelowOpenAncestor(items, p.value, i);
      }
    }
  }

  lemma {:induction false} ParentBelowSameIndent(items: seq<RawItem>, i: nat, i': nat, j: nat)
    requires i < |items| && i' < |items| && j <= i && j <= i'
    requires items[i].indent == items[i'].indent
    ensures ParentBelow(items, i, j) == ParentBelow(items, i', j)
    decreases j
  {
    if j > 0 {
      ParentBelowSameIndent(items, i, i', j - 1);
    }
  }

  /** Two neighbours with equal indents are siblings at the same level. */
  lemma EqualIndentEqualLevel(items: seq<RawItem>, i: nat)
    requires i + 1 < |items|
    requires items[i].indent == items[i + 1].indent
    ensures Level(items, i + 1) == Level(items, i)
  {
    ParentBelowSameIndent(items, i + 1, i, i);
    assert Parent(items, i + 1) == ParentBelow(items, i + 1, i);
  }

  /** `hasChildren` amounts to "the next item is indented deeper"; the last item has none. */
  lemma HasChildrenIffDeeperNext(items: seq<RawItem>, i: nat)
    requires i < |items|
    ensures HasChildren(items, i) <==> i + 1 < |items| && items[i].indent < items[i + 1].indent
  {
    if i + 1 < |items| {
      LevelStep(items, i);
    }
  }

  /** Indents related by `<` in the same way, pair by pair. */
  ghost predicate SameIndentOrder(a: seq<RawItem>, b: seq<RawItem>)
  {
    |a| == |b| &&
    forall j, k :: 0 <= j < |a| && 0 <= k < |a| ==> (a[j].indent < a[k].indent <==> b[j].indent < b[k].indent)
  }

  lemma {:induction false} ParentBelowOrderInvariant(a: seq<RawItem>, b: seq<RawItem>, i: nat, j: nat)
    requires SameIndentOrder(a, b)
    requires i < |a| && j <= i
    ensures ParentBelow(a, i, j) == ParentBelow(b, i, j)
    decreases j
  {
    if j > 0 {
      assert a[j - 1].indent < a[i].indent <==> b[j - 1].indent < b[i].indent;
      ParentBelowOrderInvariant(a, b, i, j - 1);
    }
  }

  /** Levels depend only on how indents compare, never on their size. */
  lemma {:induction false} LevelOrderInvariant(a: seq<RawItem>, b: seq<RawItem>, i: nat)
    requires SameIndentOrder(a, b)
    requires i < |a|
    ensures Level(a, i) == Level(b, i)
    decreases i
  {
    ParentBelowOrderInvariant(a, b, i, i);
    var p := Parent(a, i);
    if p.Some? {
      LevelOrderInvariant(a, b, p.value);
    }
  }

  /** Replacing every indent by its image under a strictly increasing map keeps every level. */
  lemma LevelsUnderIncreasingRemap(items: seq<RawItem>, f: nat -> nat, i: nat)
    requires forall x: nat, y: nat :: x < y ==> f(x) < f(y)
    requires i < |items|
    ensures Level(seq(|items|, k requires 0 <= k < |items| => items[k].(indent := f(items[k].indent))), i)
         == Level(items, i)
  {
    var b := seq(|items|, k requires 0 <= k < |items| => items[k].(indent := f(items[k].indent)));
    forall j, k | 0 <= j < |items| && 0 <= k < |items|
      ensures items[j].indent < items[k].indent <==> b[j].indent < b[k].indent
    {
      if items[k].indent < items[j].indent {
        assert f(items[k].indent) < f(items[j].indent);
      } else if items[k].indent == items[j].indent {
      } else {
        assert f(items[j].indent) < f(items[k].indent);
      }
    }
    LevelOrderInvariant(b, items, i);
  }

  /**
    The first loop of `calculateLevel`: each item is unshifted, with its level,
    onto an accumulator that therefore holds the items latest first; the parent
    is the first accumulator entry that `find` meets with a smaller indent.
   */
  method LevelsLatestFirst(items: seq<RawItem>) returns (reversed: seq<Item>)
    ensures |reversed| == |items|
    ensures forall k :: 0 <= k < |items| ==>
      reversed[|items| - 1 - k] == Item(items[k].name, items[k].indent, Level(items, k), false)
  {
    reversed := [];
    for i := 0 to |items|
      invariant |reversed| == i
      invariant forall k :: 0 <= k < i ==>
        reversed[i - 1 - k] == Item(items[k].name, items[k].indent, Level(items, k), false)
    {
      var item := items[i];
      var j := FindShallower(reversed, item.indent);
      var level := 0;
      if j < |reversed| {
        level := reversed[j].level + 1;
      }
      ParentFromFind(items, reversed, i, j);
      UnshiftKeepsLevels(items, reversed, i, Item(item.name, item.indent, level, false));
      reversed := [Item(item.name, item.indent, level, false)] + reversed;
    }
  }

  /** Unshifting item `i` with its level keeps the accumulator latest first. */
  lemma UnshiftKeepsLevels(items: seq<RawItem>, reversed: seq<Item>, i: nat, x: Item)
    requires i < |items| && |reversed| == i
    requires forall k :: 0 <= k < i ==>
      reversed[i - 1 - k] == Item(items[k].name, items[k].indent, Level(items, k), false)
    requires x == Item(items[i].name, items[i].indent, Level(items, i), false)
    ensures forall k :: 0 <= k < i + 1 ==>
      ([x] + reversed)[i - k] == Item(items[k].name, items[k].indent, Level(items, k), false)
  {
    forall k | 0 <= k < i + 1
      ensures ([x] + reversed)[i - k] == Item(items[k].name, items[k].indent, Level(items, k), false)
    {
      if k < i {
        assert ([x] + reversed)[i - k] == reversed[i - 1 - k];
      }
    }
  }

  /** `find`: the position of the first entry indented less than `indent`, or the length if none is. */
  method FindShallower(entries: seq<Item>, indent: nat) returns (j: nat)
    ensures j <= |entries|
    ensures forall k :: 0 <= k < j ==> entries[k].indent >= indent
    ensures j < |entries| ==> entries[j].indent < indent
  {
    j := 0;
    while j < |entries| && entries[j].indent >= indent
      invariant j <= |entries|
      invariant forall k :: 0 <= k < j ==> entries[k].indent >= indent
    {
      j := j + 1;
    }
  }

  /** What `find` meets first in the latest-first accumulator is the parent. */
  lemma ParentFromFind(items: seq<RawItem>, reversed: seq<Item>, i: nat, j: nat)
    requires i < |items| && |reversed| == i && j <= i
    requires forall k :: 0 <= k < i ==>
      reversed[i - 1 - k] == Item(items[k].name, items[k].indent, Level(items, k), false)
    requires forall k :: 0 <= k < j ==> reversed[k].indent >= items[i].indent
    requires j < i ==> reversed[j].indent < items[i].indent
    ensures j < i ==> Parent(items, i) == Some(i - 1 - j) && Level(items, i) == reversed[j].level + 1
    ensures j == i ==> Parent(items, i) == None && Level(items, i) == 0
  {
    forall k | i - 1 - j < k < i ensures items[k].indent >= items[i].indent {
      assert reversed[i - 1 - k].indent == items[k].indent;
    }
    if j < i {
      var p := i - 1 - j;
      assert reversed[j] == Item(items[p].name, items[p].indent, Level(items, p), false) by {
        assert reversed[i - 1 - p] == reversed[j];
      }
      ParentIs(items, i, p);
    } else {
      NoParent(items, i);
    }
  }

  /** `Array.prototype.reverse`, in place. */
  method ReverseInPlace(a: array<Item>)
    modifies a
    ensures forall k :: 0 <= k < a.Length ==> a[k] == old(a[a.Length - 1 - k])
  {
    var n := a.Length;
    var lo := 0;
    while lo < n / 2
      invariant 0 <= lo <= n / 2
      invariant forall k :: 0 <= k < lo ==> a[k] == old(a[n - 1 - k]) && a[n - 1 - k] == old(a[k])
      invariant forall k :: lo <= k < n - lo ==> a[k] == old(a[k])
    {
      a[lo], a[n - 1 - lo] := a[n - 1 - lo], a[lo];
      lo := lo + 1;
    }
  }

  /** The closing `forEach`: each item has children iff the next item's level is greater. */
  method MarkChildren(a: array<Item>)
    modifies a
    ensures forall k :: 0 <= k < a.Length ==> a[k] == old(a[k]).(hasChildren := k + 1 < a.Length && old(a[k + 1]).level > old(a[k]).level)
  {
    for idx := 0 to a.Length
      invariant forall k :: 0 <= k < idx ==> a[k] == old(a[k]).(hasChildren := k + 1 < a.Length && old(a[k + 1]).level > old(a[k]).level)
      invariant forall k :: idx <= k < a.Length ==> a[k] == old(a[k])
    {
      a[idx] := a[idx].(hasChildren := idx + 1 < a.Length && a[idx + 1].level > a[idx].level);
    }
  }

  /** `calculateLevel`: levels from the nearest shallower predecessor, then the children flags. */
  method CalculateLevel(items: seq<RawItem>) returns (r: seq<Item>)
    ensures r == Leveled(items)
  {
    var reversed := LevelsLatestFirst(items);
    var n := |reversed|;
    var a := new Item[n](k requires 0 <= k < n => reversed[k]);
    ReverseInPlace(a);
    ghost var ordered := a[..];
    assert forall k :: 0 <= k < n ==> ordered[k] == Item(items[k].name, items[k].indent, Level(items, k), false) by {
      forall k | 0 <= k < n ensures ordered[k] == Item(items[k].name, items[k].indent, Level(items, k), false) {
        assert ordered[k] == reversed[n - 1 - k];
      }
    }
    MarkChildren(a);
    r := a[..];
    MarkedAreLeveled(items, ordered, r);
  }

  /** Items carrying their levels, once `hasChildren` is set from the next item, are `Leveled(items)`. */
  lemma MarkedAreLeveled(items: seq<RawItem>, ordered: seq<Item>, r: seq<Item>)
    requires |ordered| == |r| == |items|
    requires forall k :: 0 <= k < |items| ==> ordered[k] == Item(items[k].name, items[k].indent, Level(items, k), false)
    requires forall k :: 0 <= k < |r| ==>
      r[k] == ordered[k].(hasChildren := k + 1 < |r| && ordered[k + 1].level > ordered[k].level)
    ensures r == Leveled(items)
  {
  }

  /** `parseInput`: split, drop blank lines, parse each line, then resolve levels. */
  method ParseInput(input: string) returns (r: seq<Item>)
    ensures r == Leveled(ParseItems(input))
    ensures forall k :: 0 <= k < |r| ==> r[k].name != []
    ensures |r| > 0 ==> r[0].level == 0
    ensures forall k :: 0 <= k < |r| - 1 ==> r[k + 1].level <= r[k].level + 1
    ensures |r| > 0 ==> !r[|r| - 1].hasChildren
  {
    var items := ParseItems(input);
    r := CalculateLevel(items);
    forall k | 0 <= k < |r| ensures r[k].name == items[k].name && r[k].level == Level(items, k) {
      assert r[k] == Leveled(items)[k];
    }
    forall k | 0 <= k < |r| - 1 ensures r[k + 1].level <= r[k].level + 1 {
      LevelStep(items, k);
    }
    if |r| > 0 {
      assert r[|r| - 1] == Leveled(items)[|r| - 1];
    }
  }
}
