/**
  The ASCII tree renderer: each item gets one connector token per level of
  depth, tokens become three-character glyphs, items with children get a
  trailing "/", and the lines are joined with "\n".
 */
module Output {
  import opened Text
  import opened Parser

  /** The connector tokens of a line's prefix. */
  datatype Ascii = Child | LastChild | Indent | Path

  /** `ASCII_MAPPING`: every glyph is three characters wide. */
  function Glyph(a: Ascii): (g: string)
    ensures |g| == 3
    ensures '\n' !in g && '\r' !in g
  {
    match a
    case Child => "\U{251C}\U{2500}\U{2500}"
    case LastChild => "\U{2514}\U{2500}\U{2500}"
    case Indent => "   "
    case Path => "\U{2502}  "
  }

  /** Distinct tokens draw distinct glyphs, so a prefix can be read back from the text. */
  lemma GlyphInjective(a: Ascii, b: Ascii)
    requires Glyph(a) == Glyph(b)
    ensures a == b
  {
    assert Glyph(a)[0] == Glyph(b)[0];
  }

  /** `ascii.map(a => ASCII_MAPPING[a]).join("")`. */
  function Glyphs(codes: seq<Ascii>): (r: string)
    ensures |r| == 3 * |codes|
    ensures '\n' !in r && '\r' !in r
  {
    if codes == [] then "" else Glyph(codes[0]) + Glyphs(codes[1..])
  }

  /** Column `c` of the prefix text is exactly the glyph of token `c`. */
  lemma {:induction false} GlyphsAt(codes: seq<Ascii>, c: nat)
    requires c < |codes|
    ensures Glyphs(codes)[3 * c..3 * c + 3] == Glyph(codes[c])
  {
    if c > 0 {
      GlyphsAt(codes[1..], c - 1);
      assert Glyphs(codes)[3 * c..3 * c + 3] == Glyphs(codes[1..])[3 * (c - 1)..3 * (c - 1) + 3];
    }
  }

  // ---------------------------------------------------------------------------
  // What the two forward scans look for

  /**
    Some item after `i` and before `end` sits at depth `l`, and no item between
    them is shallower than `l`: the column for depth `l` goes on below item `i`.
   */
  ghost predicate ContinuesBefore(items: seq<Item>, i: nat, l: nat, end: nat)
    requires i < |items| && end <= |items|
  {
    exists j :: i < j < end && items[j].level == l && forall k :: i < k < j ==> items[k].level >= l
  }

  ghost predicate Continues(items: seq<Item>, i: nat, l: nat)
    requires i < |items|
  {
    ContinuesBefore(items, i, l, |items|)
  }

  /**
    The prefix item `i` should get: one token per level; the last is CHILD when
    a sibling follows and LAST_CHILD otherwise; an earlier column for depth `l`
    is PATH when depth `l` continues below the item and INDENT otherwise.
   */
  ghost function Prefix(items: seq<Item>, i: nat): (p: seq<Ascii>)
    requires i < |items|
    ensures |p| == items[i].level
  {
    var depth := items[i].level;
    seq(depth, c requires 0 <= c < depth =>
      if c == depth - 1 then (if Continues(items, i, depth) then Child else LastChild)
      else if Continues(items, i, c + 1) then Path
      else Indent)
  }

  /** An item decorated with its prefix tokens (the source's ItemWithAscii). */
  datatype Decorated = Decorated(item: Item, ascii: seq<Ascii>)

  /**
    `findSiblings`: scan forward from the item; a later item at the same level
    answers true, a shallower one answers false.
   */
  method FindSiblings(items: seq<Item>, itemIdx: nat) returns (found: bool)
    requires itemIdx < |items|
    ensures found <==> Continues(items, itemIdx, items[itemIdx].level)
  {
    var mainLevel := items[itemIdx].level;
    var idx := itemIdx + 1;
    while idx < |items|
      invariant itemIdx < idx <= |items|
      invariant forall k :: itemIdx < k < idx ==> items[k].level > mainLevel
    {
      var level := items[idx].level;
      if level == mainLevel {
        return true;
      }
      if level < mainLevel {
        return false;
      }
      idx := idx + 1;
    }
    return false;
  }

  /**
    `findSubsequentLevels`: the ancestor depths in `1..level-1` whose column goes
    on below the item. The scan keeps a shrinking upper bound and stops at the
    first top-level item.
   */
  method FindSubsequentLevels(items: seq<Item>, itemIdx: nat) returns (levels: set<nat>)
    requires itemIdx < |items|
    ensures forall l :: l in levels <==> 1 <= l < items[itemIdx].level && Continues(items, itemIdx, l)
  {
    var minLevel := 1;
    var maxLevel: int := items[itemIdx].level - 1;
    levels := {};
    var idx := itemIdx + 1;
    ghost var lowest := itemIdx;
    while idx < |items|
      invariant itemIdx < idx <= |items|
      invariant maxLevel <= items[itemIdx].level - 1
      invariant forall k :: itemIdx < k < idx ==> items[k].level >= 1 && items[k].level >= maxLevel
      invariant lowest == itemIdx ==> maxLevel == items[itemIdx].level - 1
      invariant lowest != itemIdx ==> itemIdx < lowest < idx && items[lowest].level == maxLevel
      invariant forall l :: l in levels <==> 1 <= l < items[itemIdx].level && ContinuesBefore(items, itemIdx, l, idx)
    {
      var level := items[idx].level;
      if minLevel <= level <= maxLevel {
        levels := levels + {level};
        maxLevel := level;
        lowest := idx;
      } else if level < minLevel {
        CutOff(items, itemIdx, idx);
        return;
      }
      idx := idx + 1;
    }
  }

  /** Once a top-level item is reached, nothing later can continue a column of depth 1 or more. */
  lemma CutOff(items: seq<Item>, i: nat, stop: nat)
    requires i < stop < |items| && items[stop].level == 0
    ensures forall l :: l >= 1 ==> (ContinuesBefore(items, i, l, |items|) <==> ContinuesBefore(items, i, l, stop + 1))
  {
  }

  /**
    `addAsciiCodes`: for each item, INDENT for every ancestor column, then the
    branch token from `findSiblings`, then PATH over the columns that
    `findSubsequentLevels` reports; the items themselves are copied unchanged.
   */
  method AddAsciiCodes(items: seq<Item>) returns (result: seq<Decorated>)
    ensures |result| == |items|
    ensures forall i :: 0 <= i < |items| ==> result[i].item == items[i]
    ensures forall i :: 0 <= i < |items| ==> result[i].ascii == Prefix(items, i)
  {
    result := [];
    for idx := 0 to |items|
      invariant |result| == idx
      invariant forall i :: 0 <= i < idx ==> result[i] == Decorated(items[i], Prefix(items, i))
    {
      var item := items[idx];
      var levelsUpToCurrent := if item.level - 1 > 0 then item.level - 1 else 0;
      var ascii := seq(levelsUpToCurrent, _ => Indent);
      if item.level > 0 {
        var hasSubsequentChildren := FindSiblings(items, idx);
        ascii := ascii + [if hasSubsequentChildren then Child else LastChild];
      }
      var pending := FindSubsequentLevels(items, idx);
      ghost var all := pending;
      ghost var base := ascii;
      while pending != {}
        invariant pending <= all
        invariant |ascii| == item.level
        invariant forall c :: 0 <= c < |ascii| ==> ascii[c] == if c + 1 in all - pending then Path else base[c]
        decreases pending
      {
        var level :| level in pending;
        ascii := ascii[level - 1 := Path];
        pending := pending - {level};
      }
      assert ascii == Prefix(items, idx);
      result := result + [Decorated(item, ascii)];
    }
  }

  /** `s.endsWith(suffix)`; every string ends with the empty suffix, so no "/" is added to a file. */
  predicate EndsWith(s: string, suffix: string)
    ensures suffix == [] ==> EndsWith(s, suffix)
    ensures EndsWith(s, suffix) ==> |suffix| <= |s| && s == s[..|s| - |suffix|] + suffix
  {
    |suffix| <= |s| && s[|s| - |suffix|..] == suffix
  }

  /**
    One output line: the glyphs of the prefix, the name, and "/" when the item
    has children and the name does not already end with "/".
   */
  function RenderLine(d: Decorated): (r: string)
    ensures |r| >= 3 * |d.ascii| + |d.item.name|
    ensures r[..3 * |d.ascii|] == Glyphs(d.ascii)
    ensures r[3 * |d.ascii|..3 * |d.ascii| + |d.item.name|] == d.item.name
    ensures !d.item.hasChildren ==> r == Glyphs(d.ascii) + d.item.name
    ensures d.item.hasChildren ==> EndsWith(r, "/")
    ensures d.item.hasChildren && !EndsWith(d.item.name, "/") ==> r == Glyphs(d.ascii) + d.item.name + "/"
    ensures EndsWith(d.item.name, "/") ==> r == Glyphs(d.ascii) + d.item.name
  {
    var suffix := if d.item.hasChildren then "/" else "";
    Glyphs(d.ascii) + d.item.name + (if EndsWith(d.item.name, suffix) then "" else suffix)
  }

  /** The rendered lines of the whole list, in order. */
  ghost function RenderedLines(items: seq<Item>): (lines: seq<string>)
    ensures |lines| == |items|
  {
    seq(|items|, i requires 0 <= i < |items| => RenderLine(Decorated(items[i], Prefix(items, i))))
  }

  /** The rendered tree: the lines joined with "\n". */
  ghost function Render(items: seq<Item>): string
  {
    JoinWith(RenderedLines(items), "\n")
  }

  /** `convertItemsToText`. */
  method ConvertItemsToText(items: seq<Item>) returns (text: string)
    ensures text == Render(items)
  {
    var decorated := AddAsciiCodes(items);
    var lines := seq(|decorated|, i requires 0 <= i < |decorated| => RenderLine(decorated[i]));
    assert lines == RenderedLines(items);
    text := JoinWith(lines, "\n");
  }

  // ---------------------------------------------------------------------------
  // Properties of the rendering

  /** Every line's prefix is `3 * level` characters long and made of the token glyphs, column by column. */
  lemma PrefixWidth(items: seq<Item>, i: nat, c: nat)
    requires i < |items| && c < items[i].level
    ensures RenderedLines(items)[i][..3 * items[i].level] == Glyphs(Prefix(items, i))
    ensures RenderedLines(items)[i][3 * c..3 * c + 3] == Glyph(Prefix(items, i)[c])
  {
    var line := RenderedLines(items)[i];
    var g := Glyphs(Prefix(items, i));
    GlyphsAt(Prefix(items, i), c);
    assert line[3 * c..3 * c + 3] == line[..3 * items[i].level][3 * c..3 * c + 3];
  }

  /** The last prefix column is a branch (CHILD or LAST_CHILD), every earlier one INDENT or PATH. */
  lemma PrefixShape(items: seq<Item>, i: nat)
    requires i < |items|
    ensures items[i].level > 0 ==> Prefix(items, i)[items[i].level - 1] in {Child, LastChild}
    ensures forall c :: 0 <= c < items[i].level - 1 ==> Prefix(items, i)[c] in {Indent, Path}
  {
  }

  /** A stroke that leaves a line downwards (CHILD or PATH). */
  predicate GoesDown(a: Ascii) {
    a == Child || a == Path
  }

  /** A stroke that reaches a line from above (anything but INDENT). */
  predicate ComesFromAbove(a: Ascii) {
    a != Indent
  }

  /**
    The connectors line up: in every column both neighbouring lines reach, the
    upper line draws a stroke downwards exactly when the lower line draws one
    coming from above; and a column that only the upper line reaches has no stroke leaving it.
   */
  lemma ConnectorsAlign(items: seq<Item>, i: nat, c: nat)
    requires i + 1 < |items| && c < items[i].level
    ensures c < items[i + 1].level ==>
      (GoesDown(Prefix(items, i)[c]) <==> ComesFromAbove(Prefix(items, i + 1)[c]))
    ensures c >= items[i + 1].level ==> !GoesDown(Prefix(items, i)[c])
  {
    var l := c + 1;
    assert GoesDown(Prefix(items, i)[c]) <==> Continues(items, i, l);
    if Continues(items, i, l) {
      var j :| i < j < |items| && items[j].level == l && forall k :: i < k < j ==> items[k].level >= l;
      if j > i + 1 {
        assert items[i + 1].level >= l;
        assert ContinuesBefore(items, i + 1, l, |items|) by {
          assert i + 1 < j < |items| && items[j].level == l && forall k :: i + 1 < k < j ==> items[k].level >= l;
        }
      }
    }
    if c < items[i + 1].level {
      if l == items[i + 1].level {
        assert ContinuesBefore(items, i, l, |items|) by {
          assert i < i + 1 < |items| && items[i + 1].level == l;
        }
      } else if Continues(items, i + 1, l) {
        var j :| i + 1 < j < |items| && items[j].level == l && forall k :: i + 1 < k < j ==> items[k].level >= l;
        assert ContinuesBefore(items, i, l, |items|) by {
          assert i < j < |items| && items[j].level == l && forall k :: i < k < j ==> items[k].level >= l;
        }
      }
    }
  }

  /** A lone top-level item renders as its name, e.g. `file.txt`. */
  lemma RenderSingleTopLevel(name: string, indent: nat)
    ensures Render([Item(name, indent, 0, false)]) == name
  {
    var items := [Item(name, indent, 0, false)];
    assert Prefix(items, 0) == [];
    assert RenderedLines(items) == [name];
  }

  /** A folder with one file: "src/" then "└──file.txt", with no space after the glyph. */
  lemma RenderFolderWithFile()
    ensures Render([Item("src", 0, 0, true), Item("file.txt", 2, 1, false)]) == "src/\n\U{2514}\U{2500}\U{2500}file.txt"
  {
    var items := [Item("src", 0, 0, true), Item("file.txt", 2, 1, false)];
    FolderLine(items);
    FileLine(items);
    RenderTwoLines(items, "src/", "\U{2514}\U{2500}\U{2500}file.txt");
    FolderWithFileText();
  }

  lemma FolderWithFileText()
    ensures "src/" + "\n" + "\U{2514}\U{2500}\U{2500}file.txt" == "src/\n\U{2514}\U{2500}\U{2500}file.txt"
  {
  }

  lemma FolderLine(items: seq<Item>)
    requires items == [Item("src", 0, 0, true), Item("file.txt", 2, 1, false)]
    ensures RenderLine(Decorated(items[0], Prefix(items, 0))) == "src/"
  {
    assert Prefix(items, 0) == [];
    assert !EndsWith("src", "/") by { assert "src"[2] != '/'; }
  }

  lemma FileLine(items: seq<Item>)
    requires items == [Item("src", 0, 0, true), Item("file.txt", 2, 1, false)]
    ensures RenderLine(Decorated(items[1], Prefix(items, 1))) == "\U{2514}\U{2500}\U{2500}file.txt"
  {
    assert !Continues(items, 1, 1);
    assert Prefix(items, 1) == [LastChild];
    assert Glyphs([LastChild]) == Glyph(LastChild) + Glyphs([]);
  }

  lemma RenderTwoLines(items: seq<Item>, first: string, second: string)
    requires |items| == 2
    requires RenderLine(Decorated(items[0], Prefix(items, 0))) == first
    requires RenderLine(Decorated(items[1], Prefix(items, 1))) == second
    ensures Render(items) == first + "\n" + second
  {
    assert RenderedLines(items) == [first, second];
    assert [first, second][1..] == [second];
  }

  /** A rendered line has a "\n" or ends in "\r" only if its name does. */
  lemma LineEndsAsName(glyphs: string, name: string, line: string)
    requires '\n' !in glyphs && '\r' !in glyphs
    requires '\n' !in name && !EndsInCR(name)
    requires line == glyphs + name || line == glyphs + name + "/"
    ensures '\n' !in line && !EndsInCR(line)
  {
    if line != glyphs + name {
      assert line[|line| - 1] == '/';
    } else if name == [] {
      assert line == glyphs;
    } else {
      assert line[|line| - 1] == name[|name| - 1];
    }
  }

  /** Splitting the rendered text on line breaks gives back one line per item, in order. */
  lemma RenderSplitsIntoLines(items: seq<Item>)
    requires |items| > 0
    requires forall i :: 0 <= i < |items| ==> '\n' !in items[i].name && !EndsInCR(items[i].name)
    ensures SplitLines(Render(items)) == RenderedLines(items)
  {
    var lines := RenderedLines(items);
    forall k | 0 <= k < |lines| ensures '\n' !in lines[k] && !EndsInCR(lines[k]) {
      var d := Decorated(items[k], Prefix(items, k));
      assert lines[k] == RenderLine(d);
      LineEndsAsName(Glyphs(d.ascii), d.item.name, lines[k]);
    }
    JoinSplit(lines);
  }

  /** The tree rendered from any outline splits back into one line per parsed item. */
  lemma ParsedTreeSplitsIntoLines(input: string)
    requires |ParseItems(input)| > 0
    ensures SplitLines(Render(Leveled(ParseItems(input)))) == RenderedLines(Leveled(ParseItems(input)))
  {
    var items := Leveled(ParseItems(input));
    ParsedNamesAreLines(input);
    assert forall i :: 0 <= i < |items| ==> items[i].name == ParseItems(input)[i].name;
    RenderSplitsIntoLines(items);
  }
}
