/**
 * Serializing and parsing back. The serializer writes a tree as an indented list;
 * the parser reads such a list back into a tree of the same shape and labels (fresh
 * identities), provided every label is a single line without surrounding whitespace
 * and the root is not the virtual root.
 */
module RoundTrip {
  import opened Wrappers
  import opened Strings
  import opened Nodes
  import opened MarkdownParser
  import opened TreeToMarkdown
  import opened Seqs

  /** The (depth, label) items of a subtree in pre-order: what its lines say. */
  function Flatten(t: Tree, depth: nat): (r: seq<Item>)
    ensures |r| == Size(t) && r[0] == Item(depth, t.text)
  {
    [Item(depth, t.text)] + FlattenAll(t.children, depth + 1)
  }

  function FlattenAll(ts: seq<Tree>, depth: nat): (r: seq<Item>)
    ensures |r| == SizeAll(ts)
  {
    if ts == [] then [] else Flatten(ts[0], depth) + FlattenAll(ts[1..], depth)
  }

  /** Every label of the tree survives the trip through one list line. */
  predicate AllClean(t: Tree) {
    CleanLabel(t.text) && AllCleanAll(t.children)
  }

  predicate AllCleanAll(ts: seq<Tree>) {
    ts == [] || (AllClean(ts[0]) && AllCleanAll(ts[1..]))
  }

  /** The indentation of a written line is its depth. */
  lemma RenderIndent(depth: nat, text: string)
    requires text != []
    ensures LeadingSpaces(Render(depth, text)) == 2 * depth
    ensures IndentLevel(Render(depth, text)[..2 * depth]) == depth
  {
    var ind := Indent(depth);
    assert Render(depth, text) == ind + ("- " + text);
    assert Render(depth, text)[..2 * depth] == ind;
    SpacesUpTo(Render(depth, text), 2 * depth);
  }

  /** The label of a written line strips back to itself. */
  lemma RenderLabel(depth: nat, text: string)
    requires CleanLabel(text)
    ensures Strip(Render(depth, text)[2 * depth + 1..]) == text
  {
    assert Render(depth, text)[2 * depth + 1..] == " " + text;
    StripAfterSpaces(" ", text);
    StripClean(text);
  }

  /** One written line reads back as the item it was written from. */
  lemma RenderMatches(depth: nat, text: string)
    requires CleanLabel(text)
    ensures MatchList(Render(depth, text)) == Some(Item(depth, text))
  {
    RenderIndent(depth, text);
    RenderLabel(depth, text);
  }

  // ---------------------------------------------------------------------------
  // Reading the written lines back as items
  // ---------------------------------------------------------------------------

  lemma {:induction false} ExtractedConcat(a: seq<string>, b: seq<string>, d: Dialect)
    ensures Extracted(a + b, d) == Extracted(a, d) + Extracted(b, d)
    decreases |b|
  {
    if b == [] {
      assert a + b == a;
    } else {
      var init, last := b[..|b| - 1], b[|b| - 1];
      assert b == init + [last];
      assert a + b == (a + init) + [last];
      ExtractedConcat(a, init, d);
      ExtractedSnoc(a + init, last, d);
      ExtractedSnoc(init, last, d);
      AppendAssoc(Extracted(a, d), Extracted(init, d), LineItems(d, last));
    }
  }

  /** One more line adds that line's item, if any, at the end. */
  lemma ExtractedSnoc(s: seq<string>, line: string, d: Dialect)
    ensures Extracted(s + [line], d) == Extracted(s, d) + LineItems(d, line)
  {
    assert (s + [line])[..|s|] == s;
  }

  lemma ExtractedSingle(line: string, d: Dialect)
    ensures Extracted([line], d) == LineItems(d, line)
  {
    assert [line][..0] == [];
  }

  /** The lines written for a subtree read back as its flattened items. */
  lemma {:induction false} NodeLinesRead(t: Tree, depth: nat)
    requires AllClean(t)
    ensures Extracted(NodeLines(t, depth), ListDialect) == Flatten(t, depth)
    decreases t, 1
  {
    RenderMatches(depth, t.text);
    ExtractedSingle(Render(depth, t.text), ListDialect);
    ExtractedConcat([Render(depth, t.text)], ChildLines(t.children, depth + 1), ListDialect);
    ChildLinesRead(t.children, depth + 1);
  }

  lemma {:induction false} ChildLinesRead(ts: seq<Tree>, depth: nat)
    requires AllCleanAll(ts)
    ensures Extracted(ChildLines(ts, depth), ListDialect) == FlattenAll(ts, depth)
    decreases ts, 0
  {
    if ts != [] {
      NodeLinesRead(ts[0], depth);
      ChildLinesRead(ts[1..], depth);
      ExtractedConcat(NodeLines(ts[0], depth), ChildLines(ts[1..], depth), ListDialect);
    }
  }

  // ---------------------------------------------------------------------------
  // Rebuilding the outline from the items
  // ---------------------------------------------------------------------------

  /** A subtree's items start at its depth and go no shallower. */
  lemma {:induction false} FlattenLevels(t: Tree, depth: nat)
    ensures forall k :: 0 <= k < |Flatten(t, depth)| ==> Flatten(t, depth)[k].level >= depth
    decreases t, 1
  {
    FlattenAllLevels(t.children, depth + 1);
  }

  lemma {:induction false} FlattenAllLevels(ts: seq<Tree>, depth: nat)
    ensures forall k :: 0 <= k < |FlattenAll(ts, depth)| ==> FlattenAll(ts, depth)[k].level >= depth
    decreases ts, 0
  {
    if ts != [] {
      FlattenLevels(ts[0], depth);
      FlattenAllLevels(ts[1..], depth);
    }
  }

  /** A slice that spells out a concatenation spells out each part. */
  lemma SliceSplit<T>(s: seq<T>, lo: nat, hi: nat, a: seq<T>, b: seq<T>)
    requires lo + |a| + |b| == hi <= |s|
    requires s[lo..hi] == a + b
    ensures s[lo..lo + |a|] == a
    ensures s[lo + |a|..hi] == b
  {
    assert s[lo..lo + |a|] == s[lo..hi][..|a|];
    assert s[lo + |a|..hi] == s[lo..hi][|a|..];
  }

  /** Items spelled out by a slice keep the slice's lower bound on levels. */
  lemma SliceLevels(items: seq<Item>, lo: nat, hi: nat, xs: seq<Item>, bound: int)
    requires lo <= hi <= |items| && items[lo..hi] == xs
    requires forall k :: 0 <= k < |xs| ==> xs[k].level >= bound
    ensures forall j :: lo <= j < hi ==> items[j].level >= bound
  {
    forall j | lo <= j < hi
      ensures items[j].level >= bound
    {
      assert items[j] == xs[j - lo];
    }
  }

  lemma ShapesCons(x: Tree, rest: seq<Tree>)
    ensures Shapes([x] + rest) == [Shape(x)] + Shapes(rest)
  {
    assert ([x] + rest)[1..] == rest;
  }

  /** Items [lo, hi) spell out the flattening of `ts` at `depth`. */
  ghost predicate FlattenedAt(items: seq<Item>, lo: nat, hi: nat, ts: seq<Tree>, depth: nat) {
    hi == lo + SizeAll(ts) <= |items| && items[lo..hi] == FlattenAll(ts, depth)
  }

  /** Where the items of the first of several flattened trees end. */
  lemma FirstRunEnds(items: seq<Item>, lo: nat, hi: nat, ts: seq<Tree>, depth: nat)
    requires ts != [] && FlattenedAt(items, lo, hi, ts, depth)
    ensures RunEnd(items, lo, hi) == lo + Size(ts[0])
    ensures items[lo].text == ts[0].text
    ensures FlattenedAt(items, lo + 1, lo + Size(ts[0]), ts[0].children, depth + 1)
    ensures FlattenedAt(items, lo + Size(ts[0]), hi, ts[1..], depth)
  {
    var t0, rest := ts[0], ts[1..];
    var a, b := Flatten(t0, depth), FlattenAll(rest, depth);
    var m := lo + |a|;
    SliceSplit(items, lo, hi, a, b);
    var kids := FlattenAll(t0.children, depth + 1);
    SliceSplit(items, lo, m, [Item(depth, t0.text)], kids);
    assert items[lo] == items[lo..m][0];
    FlattenAllLevels(t0.children, depth + 1);
    SliceLevels(items, lo + 1, m, kids, depth + 1);
    if m < hi {
      assert items[m] == b[0] by { assert items[m] == items[m..hi][0]; }
      assert b[0] == Flatten(rest[0], depth)[0];
    }
    ScanUnique(items, depth, lo + 1, hi, m);
  }

  /** Outline reading of a run of flattened items gives back the trees' shapes. */
  lemma {:induction false} ForestOfFlattened(items: seq<Item>, lo: nat, hi: nat, ts: seq<Tree>, depth: nat, next: Id)
    requires FlattenedAt(items, lo, hi, ts, depth)
    ensures Shapes(BuildForest(items, lo, hi, next)) == Shapes(ts)
    decreases SizeAll(ts)
  {
    if ts != [] {
      var m := lo + Size(ts[0]);
      FirstRunEnds(items, lo, hi, ts, depth);
      ForestOfFlattened(items, lo + 1, m, ts[0].children, depth + 1, next);
      ForestOfFlattened(items, m, hi, ts[1..], depth, next);
      FlattenedStep(items, lo, m, hi, ts, next);
    }
  }

  lemma FlattenedStep(items: seq<Item>, lo: nat, m: nat, hi: nat, ts: seq<Tree>, next: Id)
    requires ts != [] && lo < m <= hi <= |items| && RunEnd(items, lo, hi) == m
    requires items[lo].text == ts[0].text
    requires Shapes(BuildForest(items, lo + 1, m, next)) == Shapes(ts[0].children)
    requires Shapes(BuildForest(items, m, hi, next)) == Shapes(ts[1..])
    ensures Shapes(BuildForest(items, lo, hi, next)) == Shapes(ts)
  {
    var first := Node(next + lo, items[lo].text, BuildForest(items, lo + 1, m, next));
    var rest := BuildForest(items, m, hi, next);
    ForestHead(items, lo, hi, m, next);
    assert Shape(first) == Shape(ts[0]);
    ShapesCons(first, rest);
    ShapesCons(ts[0], ts[1..]);
    assert ts == [ts[0]] + ts[1..];
  }

  // ---------------------------------------------------------------------------
  // The round trip
  // ---------------------------------------------------------------------------

  lemma RenderOneLine(depth: nat, text: string)
    requires '\n' !in text
    ensures '\n' !in Render(depth, text)
  {
    var r := Render(depth, text);
    forall k | 0 <= k < |r|
      ensures r[k] != '\n'
    {
      if k >= 2 * depth + 2 {
        assert r[k] == r[2 * depth + 2..][k - 2 * depth - 2];
      } else if k < 2 * depth {
        assert r[k] == Indent(depth)[k];
      }
    }
  }

  /** No written line holds a line feed. */
  lemma {:induction false} NodeLinesOneLine(t: Tree, depth: nat)
    requires AllClean(t)
    ensures forall k :: 0 <= k < |NodeLines(t, depth)| ==> '\n' !in NodeLines(t, depth)[k]
    decreases t, 1
  {
    RenderOneLine(depth, t.text);
    ChildLinesOneLine(t.children, depth + 1);
  }

  lemma {:induction false} ChildLinesOneLine(ts: seq<Tree>, depth: nat)
    requires AllCleanAll(ts)
    ensures forall k :: 0 <= k < |ChildLines(ts, depth)| ==> '\n' !in ChildLines(ts, depth)[k]
    decreases ts, 0
  {
    if ts != [] {
      NodeLinesOneLine(ts[0], depth);
      ChildLinesOneLine(ts[1..], depth);
    }
  }

  /** The written text begins with the first line. */
  /** The serializer only looks at labels and nesting, never at identities. */
  lemma {:induction false} NodeLinesByShape(a: Tree, b: Tree, depth: nat)
    requires Shape(a) == Shape(b)
    ensures NodeLines(a, depth) == NodeLines(b, depth)
    decreases a, 1
  {
    ChildLinesByShape(a.children, b.children, depth + 1);
  }

  lemma {:induction false} ChildLinesByShape(as_: seq<Tree>, bs: seq<Tree>, depth: nat)
    requires Shapes(as_) == Shapes(bs)
    ensures ChildLines(as_, depth) == ChildLines(bs, depth)
    decreases as_, 0
  {
    if as_ != [] {
      assert Shapes(as_)[0] == Shapes(bs)[0];
      assert Shapes(as_)[1..] == Shapes(bs)[1..];
      NodeLinesByShape(as_[0], bs[0], depth);
      ChildLinesByShape(as_[1..], bs[1..], depth);
    }
  }

  /** `convert` of two trees with the same shape is the same text. */
  lemma ConvertByShape(a: Tree, b: Tree)
    requires Shape(a) == Shape(b)
    ensures Convert(Some(a)) == Convert(Some(b))
  {
    NodeLinesByShape(a, b, 0);
    ChildLinesByShape(a.children, b.children, 0);
  }

  /** Reading the lines written for a clean tree gives the tree of its flattened items. */
  lemma ParseWritten(t: Tree, next: Id)
    requires AllClean(t)
    ensures ParseOutline(Join(NodeLines(t, 0)), next) == Some(Assemble(Flatten(t, 0), next))
  {
    var lines := NodeLines(t, 0);
    var text := Join(lines);
    NodeLinesOneLine(t, 0);
    SplitJoin(lines);
    assert text[0] == '-';
    assert !Blank(text);
    NodeLinesRead(t, 0);
  }

  /** The tree of a tree's flattened items has the tree's shape. */
  lemma AssembleFlattened(t: Tree, next: Id)
    ensures Shape(Assemble(Flatten(t, 0), next)) == Shape(t)
  {
    var items := Flatten(t, 0);
    assert items[1..|items|] == FlattenAll(t.children, 1);
    ForestOfFlattened(items, 1, |items|, t.children, 1, next);
  }

  /**
   * Parsing what the serializer wrote gives back a tree of the same shape and
   * labels, with fresh identities, for a tree whose labels are clean single lines
   * and whose root is not the virtual root.
   */
  lemma RoundTrip(t: Tree, next: Id)
    requires AllClean(t) && t.text != VirtualRootLabel
    ensures ParseOutline(Convert(Some(t)), next).Some?
    ensures Shape(ParseOutline(Convert(Some(t)), next).value) == Shape(t)
  {
    assert Convert(Some(t)) == Join(NodeLines(t, 0));
    ParseWritten(t, next);
    AssembleFlattened(t, next);
  }

  /** Serializing, parsing and serializing again gives the first text back. */
  lemma ConvertParseConvert(t: Tree, next: Id)
    requires AllClean(t) && t.text != VirtualRootLabel
    ensures ParseOutline(Convert(Some(t)), next).Some?
    ensures Convert(ParseOutline(Convert(Some(t)), next)) == Convert(Some(t))
  {
    RoundTrip(t, next);
    ConvertByShape(ParseOutline(Convert(Some(t)), next).value, t);
  }

  // ---------------------------------------------------------------------------
  // Trees that come out of the parser
  // ---------------------------------------------------------------------------

  /** A tree all of whose labels are clean passes the round-trip requirement. */
  lemma {:induction false} AllCleanFromLabels(t: Tree)
    requires forall x :: InSubtree(x, t) ==> CleanLabel(x.text)
    ensures AllClean(t)
    decreases t, 1
  {
    AllCleanAllFromLabels(t.children);
  }

  lemma {:induction false} AllCleanAllFromLabels(ts: seq<Tree>)
    requires forall i, x :: 0 <= i < |ts| && InSubtree(x, ts[i]) ==> CleanLabel(x.text)
    ensures AllCleanAll(ts)
    decreases ts, 0
  {
    if ts != [] {
      AllCleanFromLabels(ts[0]);
      forall i, x | 0 <= i < |ts[1..]| && InSubtree(x, ts[1..][i])
        ensures CleanLabel(x.text)
      {
        assert ts[1..][i] == ts[i + 1];
      }
      AllCleanAllFromLabels(ts[1..]);
    }
  }

  /** A parsed tree whose labels are all non-empty and whose root is not the virtual
      root is serialized, parsed and serialized again to the same text. */
  lemma ParsedStable(text: string, next: Id, next': Id)
    requires ParseOutline(text, next).Some?
    requires ParseOutline(text, next).value.text != VirtualRootLabel
    requires forall x :: InSubtree(x, ParseOutline(text, next).value) ==> x.text != []
    ensures Convert(ParseOutline(Convert(ParseOutline(text, next)), next')) == Convert(ParseOutline(text, next))
  {
    var t := ParseOutline(text, next).value;
    ParsedLabels(text, next);
    forall x | InSubtree(x, t)
      ensures CleanLabel(x.text)
    {
      StrippedClean(x.text);
    }
    AllCleanFromLabels(t);
    ConvertParseConvert(t, next');
  }

  /** Blank labels break the round trip: the line `-  ` (marker and two spaces) is
      read as a root with the empty label, which is written back as `- `, which is
      not a list line, so reading the written text gives no tree at all. The
      corrected reading does not accept `-  ` as an item. */
  lemma EmptyLabelBreaksRoundTrip()
    ensures ParseOutline("-  ", 0) == Some(Node(0, "", []))
    ensures Convert(Some(Node(0, "", []))) == "- "
    ensures ParseOutline("- ", 0) == None
    ensures Convert(ParseOutline(Convert(ParseOutline("-  ", 0)), 0)) != Convert(ParseOutline("-  ", 0))
    ensures ParseOutlineStrict("-  ", 0) == None
  {
    ReadBlankLabel();
    ReadBareMarker();
    WriteBlankLabel();
  }

  /** The empty label is written as the bare marker line. */
  lemma WriteBlankLabel()
    ensures Convert(Some(Node(0, "", []))) == "- "
  {
    assert Indent(0) == [];
    assert Render(0, "") == "- ";
    assert ChildLines([], 1) == [];
    assert NodeLines(Node(0, "", []), 0) == ["- "];
  }

  /** `-  ` is one list item with the empty label, and no heading. */
  lemma ReadBlankLabel()
    ensures ParseOutline("-  ", 0) == Some(Node(0, "", []))
    ensures ParseOutlineStrict("-  ", 0) == None
  {
    var line := "-  ";
    SplitLine(line, []);
    BlankLabelLine();
    ExtractedSingle(line, ListDialect);
    ExtractedSingle(line, HeadingDialect);
    assert !Blank(line) by {
      assert !IsSpace(line[0]);
    }
    assert Assemble([Item(0, "")], 0) == Node(0, "", []);
  }

  lemma BlankLabelLine()
    ensures MatchList("-  ") == Some(Item(0, ""))
    ensures MatchHeading("-  ") == None
  {
    var line := "-  ";
    SpacesUpTo(line, 0);
    HashesUpTo(line, 0);
    assert line[..0] == [] && line[1..] == "  ";
  }

  /** `- ` is neither a list item nor a heading. */
  lemma ReadBareMarker()
    ensures ParseOutline("- ", 0) == None
  {
    var line := "- ";
    SplitLine(line, []);
    SpacesUpTo(line, 0);
    HashesUpTo(line, 0);
    ExtractedSingle(line, ListDialect);
    ExtractedSingle(line, HeadingDialect);
  }

  /** The corrected reading keeps the round trip for every tree it produces whose
      root is not the virtual root: what it reads from the serializer's text is what
      the original reading gives, and serializing that again gives the same text. */
  lemma StrictParseStable(text: string, next: Id, next': Id)
    requires ParseOutlineStrict(text, next).Some?
    requires ParseOutlineStrict(text, next).value.text != VirtualRootLabel
    ensures ParseOutlineStrict(Convert(ParseOutlineStrict(text, next)), next') ==
            ParseOutline(Convert(ParseOutlineStrict(text, next)), next')
    ensures Convert(ParseOutlineStrict(Convert(ParseOutlineStrict(text, next)), next')) ==
            Convert(ParseOutlineStrict(text, next))
  {
    var t := ParseOutlineStrict(text, next).value;
    StrictLabelsClean(text, next);
    AllCleanFromLabels(t);
    var w := Convert(Some(t));
    assert w == Join(NodeLines(t, 0));
    ParseWritten(t, next');
    WrittenItemsKept(t, next');
    ConvertParseConvert(t, next');
  }

  /** The serializer's text for a clean tree has only non-empty labels, so the
      corrected reading keeps every list item of it. */
  lemma WrittenItemsKept(t: Tree, next: Id)
    requires AllClean(t)
    ensures ParseOutlineStrict(Join(NodeLines(t, 0)), next) == ParseOutline(Join(NodeLines(t, 0)), next)
  {
    var text := Join(NodeLines(t, 0));
    NodeLinesOneLine(t, 0);
    SplitJoin(NodeLines(t, 0));
    NodeLinesRead(t, 0);
    FlattenClean(t, 0);
    assert NonEmptyLabels(Flatten(t, 0)) == Flatten(t, 0);
    ParseWritten(t, next);
  }

  /** Every item written for a clean subtree has a non-empty label. */
  lemma {:induction false} FlattenClean(t: Tree, depth: nat)
    requires AllClean(t)
    ensures forall k :: 0 <= k < |Flatten(t, depth)| ==> Flatten(t, depth)[k].text != []
    decreases t, 1
  {
    FlattenAllClean(t.children, depth + 1);
  }

  lemma {:induction false} FlattenAllClean(ts: seq<Tree>, depth: nat)
    requires AllCleanAll(ts)
    ensures forall k :: 0 <= k < |FlattenAll(ts, depth)| ==> FlattenAll(ts, depth)[k].text != []
    decreases ts, 0
  {
    if ts != [] {
      FlattenClean(ts[0], depth);
      FlattenAllClean(ts[1..], depth);
    }
  }
}
