/**
 * The outline parser (src/parser/markdown_parser.py).
 *
 * The text is split on line feeds; each line is recognised by one of two line
 * predicates that spell out the parser's two regular expressions. If any line is a
 * list item, only list items are used; otherwise heading lines are. The first item
 * becomes the root and every later item is attached, through a level -> node
 * "stack", under the nearest earlier item with a smaller level, or under the root
 * when there is none.
 */
module MarkdownParser {
  import opened Wrappers
  import opened Strings
  import opened Nodes

  /** One recognised line: its level and its stripped label. */
  datatype Item = Item(level: int, text: string)

  /** The two line syntaxes the parser knows. */
  datatype Dialect = ListDialect | HeadingDialect

  // ---------------------------------------------------------------------------
  // Line recognition
  // ---------------------------------------------------------------------------

  /** The length of the whitespace run that starts the line. */
  function LeadingSpaces(s: string): (n: nat)
    ensures n <= |s|
    ensures forall k :: 0 <= k < n ==> IsSpace(s[k])
    ensures n < |s| ==> !IsSpace(s[n])
  {
    if s != [] && IsSpace(s[0]) then 1 + LeadingSpaces(s[1..]) else 0
  }

  /** The number of `#` characters that start the line. */
  function LeadingHashes(s: string): (n: nat)
    ensures n <= |s|
    ensures forall k :: 0 <= k < n ==> s[k] == '#'
    ensures n < |s| ==> s[n] != '#'
  {
    if s != [] && s[0] == '#' then 1 + LeadingHashes(s[1..]) else 0
  }

  /** The number of tab characters in the indentation. */
  function CountTabs(s: string): (n: nat)
    ensures n <= |s|
    ensures (forall k :: 0 <= k < |s| ==> s[k] != '\t') ==> n == 0
    ensures (forall k :: 0 <= k < |s| ==> s[k] == '\t') ==> n == |s|
  {
    if s == [] then 0 else (if s[0] == '\t' then 1 else 0) + CountTabs(s[1..])
  }

  /** `len(indent.replace('\t', '  ')) // 2`: a tab counts as two characters. */
  function IndentLevel(indent: string): (r: nat)
    ensures |indent| / 2 <= r <= |indent|
    ensures (forall k :: 0 <= k < |indent| ==> indent[k] == ' ') ==> r == |indent| / 2
    ensures (forall k :: 0 <= k < |indent| ==> indent[k] == '\t') ==> r == |indent|
  {
    (|indent| + CountTabs(indent)) / 2
  }

  /**
   * The list pattern `^(\s*)[-*]\s+(.+)$` on a line without line feeds.
   * The indentation group is the whole leading whitespace run (the marker is not
   * whitespace, so a shorter run cannot match). After the marker, `\s+(.+)` needs a
   * whitespace character followed by at least one more character; whatever the
   * engine puts in the label group, stripping it gives the stripped rest of the line.
   */
  function MatchList(line: string): (r: Option<Item>)
    ensures r.Some? ==> r.value.level >= 0
  {
    var w := LeadingSpaces(line);
    if w + 2 < |line| && (line[w] == '-' || line[w] == '*') && IsSpace(line[w + 1])
    then Some(Item(IndentLevel(line[..w]), Strip(line[w + 1..])))
    else None
  }

  /**
   * The heading pattern `^(#{1,6})\s+(.+)$` on a line without line feeds: one to six
   * `#` (a seventh `#` cannot be whitespace, so longer runs never match), then a
   * whitespace character and at least one more character.
   */
  function MatchHeading(line: string): (r: Option<Item>)
    ensures r.Some? ==> 1 <= r.value.level <= 6
  {
    var h := LeadingHashes(line);
    if 1 <= h <= 6 && h + 1 < |line| && IsSpace(line[h])
    then Some(Item(h, Strip(line[h..])))
    else None
  }

  /** The list pattern matches `line` with the indentation group `line[..i]`, the
      marker at `i`, the `\s+` run over `line[i + 1..j]` and the label group
      `line[j..]`, which is not empty. */
  ghost predicate ListShape(line: string, i: int, j: int) {
    0 <= i && i + 2 <= j < |line|
    && (forall k :: 0 <= k < i ==> IsSpace(line[k]))
    && (line[i] == '-' || line[i] == '*')
    && (forall k :: i < k < j ==> IsSpace(line[k]))
  }

  /** The heading pattern matches `line` with `line[..h]` as the `#{1,6}` group, the
      `\s+` run over `line[h..j]` and the label group `line[j..]`, not empty. */
  ghost predicate HeadingShape(line: string, h: int, j: int) {
    1 <= h <= 6 && h < j < |line|
    && (forall k :: 0 <= k < h ==> line[k] == '#')
    && (forall k :: h <= k < j ==> IsSpace(line[k]))
  }

  /** A line without line feeds yields a list item exactly when the list pattern
      matches it. */
  lemma MatchListIff(line: string)
    requires '\n' !in line
    ensures MatchList(line).Some? <==> exists i, j :: ListShape(line, i, j)
  {
    var w := LeadingSpaces(line);
    if MatchList(line).Some? {
      assert ListShape(line, w, w + 2);
    }
    if exists i, j :: ListShape(line, i, j) {
      var i, j :| ListShape(line, i, j);
      SpacesUpTo(line, i);
    }
  }

  /** Whatever way the list pattern matches, the item holds the indentation level of
      the group and the stripped label group. */
  lemma ListShapeReads(line: string, i: int, j: int)
    requires ListShape(line, i, j)
    ensures MatchList(line) == Some(Item(IndentLevel(line[..i]), Strip(line[j..])))
  {
    ListIndent(line, i, j);
    ListMarkerAt(line, i, j);
    ListGap(line, i, j);
  }

  /** The indentation group of a list match is the whole leading whitespace run. */
  lemma ListIndent(line: string, i: int, j: int)
    requires ListShape(line, i, j)
    ensures LeadingSpaces(line) == i
  {
    SpacesUpTo(line, i);
  }

  /** The label group of a list match strips to the stripped rest after the marker. */
  lemma ListGap(line: string, i: int, j: int)
    requires ListShape(line, i, j)
    ensures Strip(line[i + 1..]) == Strip(line[j..])
  {
    GapStripped(line, i + 1, j);
  }

  /** With the marker at the end of the leading whitespace, the item read holds the
      rest of the line after the marker. */
  lemma ListMarkerAt(line: string, i: int, j: int)
    requires ListShape(line, i, j) && LeadingSpaces(line) == i
    ensures MatchList(line) == Some(Item(IndentLevel(line[..i]), Strip(line[i + 1..])))
  {
  }

  /** Whitespace between `a` and `j` makes no difference once the rest is stripped. */
  lemma GapStripped(line: string, a: nat, j: nat)
    requires a <= j <= |line|
    requires forall k :: a <= k < j ==> IsSpace(line[k])
    ensures Strip(line[a..]) == Strip(line[j..])
  {
    var gap, rest := line[a..j], line[j..];
    assert line[a..] == gap + rest;
    assert forall k :: 0 <= k < |gap| ==> gap[k] == line[a + k];
    StripAfterSpaces(gap, rest);
  }

  /** A whitespace run ended by another character is the leading whitespace run. */
  lemma {:induction false} SpacesUpTo(s: string, i: nat)
    requires i < |s| && !IsSpace(s[i])
    requires forall k :: 0 <= k < i ==> IsSpace(s[k])
    ensures LeadingSpaces(s) == i
  {
    if i > 0 {
      SpacesUpTo(s[1..], i - 1);
    }
  }

  /** A run of `#` ended by another character is the leading run of `#`. */
  lemma {:induction false} HashesUpTo(s: string, i: nat)
    requires i < |s| && s[i] != '#'
    requires forall k :: 0 <= k < i ==> s[k] == '#'
    ensures LeadingHashes(s) == i
  {
    if i > 0 {
      HashesUpTo(s[1..], i - 1);
    }
  }

  /** A line without line feeds yields a heading item exactly when the heading
      pattern matches it. */
  lemma MatchHeadingIff(line: string)
    requires '\n' !in line
    ensures MatchHeading(line).Some? <==> exists h, j :: HeadingShape(line, h, j)
  {
    var h := LeadingHashes(line);
    if MatchHeading(line).Some? {
      assert HeadingShape(line, h, h + 1);
    }
    if exists h', j :: HeadingShape(line, h', j) {
      var h', j :| HeadingShape(line, h', j);
      HashesUpTo(line, h');
    }
  }

  /** Whatever way the heading pattern matches, the item's level is the number of
      `#` and its text the stripped label group. */
  lemma HeadingShapeReads(line: string, h: int, j: int)
    requires HeadingShape(line, h, j)
    ensures MatchHeading(line) == Some(Item(h, Strip(line[j..])))
  {
    HashesUpTo(line, h);
    GapStripped(line, h, j);
  }

  function MatchLine(d: Dialect, line: string): Option<Item> {
    match d
    case ListDialect => MatchList(line)
    case HeadingDialect => MatchHeading(line)
  }

  /** The item a single line contributes: none, or the one its pattern gives. */
  function LineItems(d: Dialect, line: string): (r: seq<Item>)
    ensures |r| <= 1
    ensures r == [] <==> MatchLine(d, line).None?
  {
    match MatchLine(d, line)
    case Some(item) => [item]
    case None => []
  }

  /** The items of the lines that match the dialect's pattern, in line order. */
  function Extracted(lines: seq<string>, d: Dialect): (r: seq<Item>)
    ensures |r| <= |lines|
  {
    if lines == [] then []
    else Extracted(lines[..|lines| - 1], d) + LineItems(d, lines[|lines| - 1])
  }

  /** Some line matches the dialect's pattern. */
  predicate AnyMatch(lines: seq<string>, d: Dialect) {
    exists k :: 0 <= k < |lines| && MatchLine(d, lines[k]).Some?
  }

  /** Some element satisfies `p` exactly when one before the last does or the last does. */
  lemma ExistsSnoc<T>(s: seq<T>, init: seq<T>, last: T, p: T -> bool)
    requires s == init + [last]
    ensures (exists k :: 0 <= k < |s| && p(s[k])) <==>
            (exists k :: 0 <= k < |init| && p(init[k])) || p(last)
  {
    var n := |init|;
    if p(s[n]) {
    } else if exists k :: 0 <= k < n && p(init[k]) {
      var k :| 0 <= k < n && p(init[k]);
      assert s[k] == init[k];
    } else {
      forall k | 0 <= k < |s|
        ensures !p(s[k])
      {
        if k < n {
          assert s[k] == init[k];
        }
      }
    }
  }

  lemma AnyMatchSnoc(lines: seq<string>, d: Dialect)
    requires lines != []
    ensures AnyMatch(lines, d) <==>
            AnyMatch(lines[..|lines| - 1], d) || MatchLine(d, lines[|lines| - 1]).Some?
  {
    var n := |lines| - 1;
    assert lines == lines[..n] + [lines[n]];
    ExistsSnoc(lines, lines[..n], lines[n], (line: string) => MatchLine(d, line).Some?);
  }

  /** No item is extracted exactly when no line matches the dialect's pattern. */
  lemma {:induction false} ExtractedEmpty(lines: seq<string>, d: Dialect)
    ensures Extracted(lines, d) == [] <==> !AnyMatch(lines, d)
  {
    if lines != [] {
      var n := |lines| - 1;
      ExtractedEmpty(lines[..n], d);
      AnyMatchSnoc(lines, d);
    }
  }

  lemma ExtractedPrefix(lines: seq<string>, i: nat, d: Dialect)
    requires i < |lines|
    ensures Extracted(lines[..i + 1], d) == Extracted(lines[..i], d) + LineItems(d, lines[i])
  {
    assert lines[..i + 1][..i] == lines[..i];
  }

  /** One pass of the extraction loop: a matching line appends its item, any other
      line adds nothing. */
  lemma ExtractStep(lines: seq<string>, i: nat, d: Dialect, m: Option<Item>)
    requires i < |lines| && m == MatchLine(d, lines[i])
    ensures m.Some? ==> Extracted(lines[..i + 1], d) == Extracted(lines[..i], d) + [m.value]
    ensures m.None? ==> Extracted(lines[..i + 1], d) == Extracted(lines[..i], d)
  {
    ExtractedPrefix(lines, i, d);
    if m.None? {
      assert Extracted(lines[..i], d) + [] == Extracted(lines[..i], d);
    }
  }

  /** `_extract_list_items` and `_extract_headings`: split the text, then keep the
      item of every line that matches the dialect's pattern. */
  method Extract(text: string, d: Dialect) returns (items: seq<Item>)
    ensures items == Extracted(Split(text), d)
  {
    items := ExtractLines(Split(text), d);
  }

  /** The loop over the lines. */
  method ExtractLines(lines: seq<string>, d: Dialect) returns (items: seq<Item>)
    ensures items == Extracted(lines, d)
  {
    items := [];
    var i := 0;
    while i < |lines|
      invariant 0 <= i <= |lines|
      invariant items == Extracted(lines[..i], d)
    {
      var m := MatchLine(d, lines[i]);
      ExtractStep(lines, i, d, m);
      if m.Some? {
        items := items + [m.value];
      }
      i := i + 1;
    }
    assert lines[..|lines|] == lines;
  }

  // ---------------------------------------------------------------------------
  // The level stack
  // ---------------------------------------------------------------------------

  lemma {:induction false} HasMax(s: set<int>)
    requires s != {}
    ensures exists m :: m in s && forall k :: k in s ==> k <= m
  {
    if forall y :: y !in s {
      assert false;
    }
    var x :| x in s;
    if s - {x} == {} {
      assert s == {x};
    } else {
      HasMax(s - {x});
      var m :| m in s - {x} && forall k :: k in s - {x} ==> k <= m;
      var top := if x > m then x else m;
      forall k | k in s ensures k <= top {
        if k != x { assert k in s - {x}; }
      }
      assert top in s;
    }
  }

  /** `max([l for l in keys if l < bound])`, or nothing when that list is empty. */
  function MaxBelow(keys: set<int>, bound: int): (r: Option<int>)
    ensures r.None? <==> forall k :: k in keys ==> k >= bound
    ensures r.Some? ==> r.value in keys && r.value < bound
    ensures r.Some? ==> forall k :: k in keys && k < bound ==> k <= r.value
  {
    var below := set k | k in keys && k < bound;
    assert forall k :: k in keys && k < bound ==> k in below;
    if below == {} then None
    else
      HasMax(below);
      var m :| m in below && forall k :: k in below ==> k <= m;
      assert forall k :: k in keys && k < bound ==> k in below;
      Some(m)
  }

  /** `_find_parent`: the node stored under the greatest level strictly below `level`. */
  function FindParent<T>(level: int, stack: map<int, T>): (r: Option<T>)
    ensures r.None? <==> forall k :: k in stack ==> k >= level
    ensures r.Some? ==> exists k :: k in stack && k < level && r.value == stack[k] &&
                                    forall k' :: k' in stack && k' < level ==> k' <= k
  {
    var m := MaxBelow(stack.Keys, level);
    assert m.None? <==> forall k :: k in stack ==> k >= level;
    match m
    case None => None
    case Some(k) => Some(stack[k])
  }

  /** Closing the branches an item at `level` ends: every key at or above `level` is
      dropped, then `level` maps to the new node. */
  function PlaceOnStack<T>(stack: map<int, T>, level: int, x: T): (r: map<int, T>)
    ensures level in r && r[level] == x
    ensures forall k :: k in r ==> k <= level
    ensures forall k {:trigger k in r} :: k in stack && k < level ==> k in r
    ensures forall k {:trigger r[k]} :: k in stack && k < level ==> r[k] == stack[k]
    ensures forall k :: k in r && k != level ==> k in stack
  {
    (stack - (set k | k in stack && k >= level))[level := x]
  }

  // ---------------------------------------------------------------------------
  // Where each item goes
  // ---------------------------------------------------------------------------

  /** The last index in [lo, hi) whose item has a level below `bound`. */
  function LastBelow(items: seq<Item>, lo: nat, hi: nat, bound: int): (r: Option<nat>)
    requires lo <= hi <= |items|
    ensures r.Some? ==> lo <= r.value < hi && items[r.value].level < bound
    decreases hi - lo
  {
    if lo == hi then None
    else if items[hi - 1].level < bound then Some(hi - 1)
    else LastBelow(items, lo, hi - 1, bound)
  }

  /** Nothing after the index found (or nothing at all, when none is found) is below `bound`. */
  lemma {:induction false} LastBelowNearest(items: seq<Item>, lo: nat, hi: nat, bound: int)
    requires lo <= hi <= |items|
    ensures LastBelow(items, lo, hi, bound).None? ==> forall j :: lo <= j < hi ==> items[j].level >= bound
    ensures LastBelow(items, lo, hi, bound).Some? ==> forall j :: LastBelow(items, lo, hi, bound).value < j < hi ==> items[j].level >= bound
    decreases hi - lo
  {
    if lo < hi && items[hi - 1].level >= bound {
      LastBelowNearest(items, lo, hi - 1, bound);
    }
  }

  /** The index of the item that item `i` is attached under: the nearest earlier item
      with a smaller level, or the root (item 0) when there is none. */
  function ParentIndex(items: seq<Item>, i: nat): (r: nat)
    requires 0 < i < |items|
    ensures r < i
  {
    match LastBelow(items, 0, i, items[i].level)
    case Some(j) => j
    case None => 0
  }

  /** The first index from `k` on (below `hi`) whose level is at most `bound`, else `hi`. */
  function Scan(items: seq<Item>, bound: int, k: nat, hi: nat): (r: nat)
    requires k <= hi <= |items|
    ensures k <= r <= hi
    ensures r < hi ==> items[r].level <= bound
    decreases hi - k
  {
    if k == hi then hi
    else if items[k].level <= bound then k
    else Scan(items, bound, k + 1, hi)
  }

  /** Every item the scan passes over is deeper than `bound`. */
  lemma {:induction false} ScanSkips(items: seq<Item>, bound: int, k: nat, hi: nat)
    requires k <= hi <= |items|
    ensures forall j :: k <= j < Scan(items, bound, k, hi) ==> items[j].level > bound
    decreases hi - k
  {
    if k < hi && items[k].level > bound {
      ScanSkips(items, bound, k + 1, hi);
    }
  }

  /** Where the run of deeper items after item `lo` ends: item `lo`'s subtree is [lo, RunEnd). */
  function RunEnd(items: seq<Item>, lo: nat, hi: nat): (r: nat)
    requires lo < hi <= |items|
    ensures lo < r <= hi
  {
    Scan(items, items[lo].level, lo + 1, hi)
  }

  /**
   * The outline reading of items [lo, hi): the first item owns the run of deeper
   * items that follows it, and the rest forms the next trees. Item k becomes the
   * node with identity next + k.
   */
  function BuildForest(items: seq<Item>, lo: nat, hi: nat, next: Id): seq<Tree>
    requires lo <= hi <= |items|
    decreases hi - lo
  {
    if lo == hi then []
    else
      var e := RunEnd(items, lo, hi);
      [Node(next + lo, items[lo].text, BuildForest(items, lo + 1, e, next))] + BuildForest(items, e, hi, next)
  }

  /** One unfolding of the outline reading, once the first run's end is known. */
  lemma ForestHead(items: seq<Item>, lo: nat, hi: nat, m: nat, next: Id)
    requires lo < hi <= |items| && RunEnd(items, lo, hi) == m
    ensures BuildForest(items, lo, hi, next) ==
            [Node(next + lo, items[lo].text, BuildForest(items, lo + 1, m, next))] + BuildForest(items, m, hi, next)
  {
  }

  /** A stretch that is one run reads as a single tree. */
  lemma ForestSingle(items: seq<Item>, lo: nat, hi: nat, next: Id)
    requires lo < hi <= |items| && RunEnd(items, lo, hi) == hi
    ensures BuildForest(items, lo, hi, next) == [Node(next + lo, items[lo].text, BuildForest(items, lo + 1, hi, next))]
  {
    ForestHead(items, lo, hi, hi, next);
    assert BuildForest(items, hi, hi, next) == [];
  }

  /** The tree of the first `hi` items: item 0 is the root, whatever its level. */
  function AssembleUpTo(items: seq<Item>, hi: nat, next: Id): Tree
    requires 1 <= hi <= |items|
  {
    Node(next, items[0].text, BuildForest(items, 1, hi, next))
  }

  function Assemble(items: seq<Item>, next: Id): Tree
    requires |items| > 0
  {
    AssembleUpTo(items, |items|, next)
  }

  /** `parent.add_child(new_node)` for a fresh leaf and a parent on the path from the
      root to the most recently added node, which is where every node the level stack
      holds lies. */
  function AttachOnSpine(t: Tree, pid: Id, x: Tree): (r: Tree)
  {
    if t.id == pid then Node(t.id, t.text, t.children + [x])
    else if t.children == [] then t
    else Node(t.id, t.text, t.children[..|t.children| - 1] + [AttachOnSpine(t.children[|t.children| - 1], pid, x)])
  }

  /** Attaching keeps the root and every child but the last: only the right-hand
      edge of the tree, where the stack's nodes lie, grows. */
  lemma AttachOnSpineKeeps(t: Tree, pid: Id, x: Tree)
    ensures AttachOnSpine(t, pid, x).id == t.id && AttachOnSpine(t, pid, x).text == t.text
    ensures |AttachOnSpine(t, pid, x).children| == |t.children| + (if t.id == pid then 1 else 0)
    ensures t.children != [] ==>
              AttachOnSpine(t, pid, x).children[..|t.children| - 1] == t.children[..|t.children| - 1]
    ensures t.id == pid ==> AttachOnSpine(t, pid, x).children[|t.children|] == x
  {
  }

  // ---------------------------------------------------------------------------
  // Growing the outline one item at a time
  // ---------------------------------------------------------------------------

  lemma ScanUnique(items: seq<Item>, bound: int, k: nat, hi: nat, r: nat)
    requires k <= r <= hi <= |items|
    requires forall j :: k <= j < r ==> items[j].level > bound
    requires r < hi ==> items[r].level <= bound
    ensures Scan(items, bound, k, hi) == r
    decreases hi - k
  {
    if k < r {
      ScanUnique(items, bound, k + 1, hi, r);
    }
  }

  /** How the end of a run moves when one more item is taken into account. */
  lemma ScanExtend(items: seq<Item>, bound: int, k: nat, hi: nat)
    requires k <= hi < |items|
    ensures Scan(items, bound, k, hi + 1) ==
            if Scan(items, bound, k, hi) < hi then Scan(items, bound, k, hi)
            else if items[hi].level <= bound then hi
            else hi + 1
  {
    var r := Scan(items, bound, k, hi);
    ScanSkips(items, bound, k, hi);
    var r' := if r < hi then r else if items[hi].level <= bound then hi else hi + 1;
    ScanUnique(items, bound, k, hi + 1, r');
  }

  lemma LastBelowUnique(items: seq<Item>, lo: nat, hi: nat, bound: int, r: Option<nat>)
    requires lo <= hi <= |items|
    requires r.None? ==> forall j :: lo <= j < hi ==> items[j].level >= bound
    requires r.Some? ==> lo <= r.value < hi && items[r.value].level < bound
    requires r.Some? ==> forall j :: r.value < j < hi ==> items[j].level >= bound
    ensures LastBelow(items, lo, hi, bound) == r
  {
  }

  /** Searching [lo, hi) backwards is searching [e, hi), then [lo, e). */
  lemma LastBelowSplit(items: seq<Item>, lo: nat, e: nat, hi: nat, bound: int)
    requires lo <= e <= hi <= |items|
    ensures LastBelow(items, lo, hi, bound) ==
            if LastBelow(items, e, hi, bound).Some? then LastBelow(items, e, hi, bound) else LastBelow(items, lo, e, bound)
  {
    var r := if LastBelow(items, e, hi, bound).Some? then LastBelow(items, e, hi, bound) else LastBelow(items, lo, e, bound);
    LastBelowNearest(items, e, hi, bound);
    LastBelowNearest(items, lo, e, bound);
    LastBelowUnique(items, lo, hi, bound, r);
  }

  /**
   * Taking item `hi` into the forest of [lo, hi): when no earlier item of the range
   * has a smaller level, the item starts a new tree of its own; otherwise it becomes
   * the last child of the nearest such item, which lies on the right-hand edge of the
   * last tree.
   */
  ghost predicate ForestGrows(items: seq<Item>, lo: nat, hi: nat, next: Id)
    requires lo <= hi < |items|
  {
    var F := BuildForest(items, lo, hi, next);
    var F' := BuildForest(items, lo, hi + 1, next);
    var leaf := Node(next + hi, items[hi].text, []);
    var r := LastBelow(items, lo, hi, items[hi].level);
    && (r.None? ==> F' == F + [leaf])
    && (r.Some? ==> F != [] && F' == F[..|F| - 1] + [AttachOnSpine(F[|F| - 1], next + r.value, leaf)])
  }

  lemma {:induction false} ForestStep(items: seq<Item>, lo: nat, hi: nat, next: Id)
    requires lo <= hi < |items|
    ensures ForestGrows(items, lo, hi, next)
    decreases hi - lo, 4
  {
    if lo == hi {
      ForestFromEmpty(items, hi, next);
    } else if RunEnd(items, lo, hi) < hi {
      StepAfterRun(items, lo, hi, next);
    } else if items[hi].level <= items[lo].level {
      StepCloses(items, lo, hi, next);
    } else {
      StepInsideRun(items, lo, hi, next);
    }
  }

  lemma {:induction false} StepAfterRun(items: seq<Item>, lo: nat, hi: nat, next: Id)
    requires lo < hi < |items| && RunEnd(items, lo, hi) < hi
    ensures ForestGrows(items, lo, hi, next)
    decreases hi - lo, 0
  {
    ScanExtend(items, items[lo].level, lo + 1, hi);
    ForestStep(items, RunEnd(items, lo, hi), hi, next);
    ForestAfterRun(items, lo, hi, next);
  }

  lemma StepCloses(items: seq<Item>, lo: nat, hi: nat, next: Id)
    requires lo < hi < |items| && RunEnd(items, lo, hi) == hi
    requires items[hi].level <= items[lo].level
    ensures ForestGrows(items, lo, hi, next)
  {
    ScanExtend(items, items[lo].level, lo + 1, hi);
    ForestCloses(items, lo, hi, next);
  }

  lemma {:induction false} StepInsideRun(items: seq<Item>, lo: nat, hi: nat, next: Id)
    requires lo < hi < |items| && RunEnd(items, lo, hi) == hi
    requires items[hi].level > items[lo].level
    ensures ForestGrows(items, lo, hi, next)
    decreases hi - lo, 3
  {
    ScanExtend(items, items[lo].level, lo + 1, hi);
    ForestInsideRun(items, lo, hi, next);
  }

  lemma ForestFromEmpty(items: seq<Item>, hi: nat, next: Id)
    requires hi < |items|
    ensures ForestGrows(items, hi, hi, next)
  {
    assert RunEnd(items, hi, hi + 1) == hi + 1;
    assert BuildForest(items, hi, hi + 1, next) == [Node(next + hi, items[hi].text, [])];
  }

  /** Item `hi` lies beyond the run of item `lo`: it goes where it goes in [e, hi). */
  lemma ForestAfterRun(items: seq<Item>, lo: nat, hi: nat, next: Id)
    requires lo < hi < |items|
    requires RunEnd(items, lo, hi) < hi
    requires RunEnd(items, lo, hi + 1) == RunEnd(items, lo, hi)
    requires ForestGrows(items, RunEnd(items, lo, hi), hi, next)
    ensures ForestGrows(items, lo, hi, next)
  {
    var L := items[hi].level;
    var e := RunEnd(items, lo, hi);
    var N := Node(next + lo, items[lo].text, BuildForest(items, lo + 1, e, next));
    var F := BuildForest(items, lo, hi, next);
    var G := BuildForest(items, e, hi, next);
    assert F == [N] + G;
    assert BuildForest(items, lo, hi + 1, next) == [N] + BuildForest(items, e, hi + 1, next);
    LastBelowSplit(items, lo, e, hi, L);
    match LastBelow(items, e, hi, L)
    case Some(j) =>
      assert F[..|F| - 1] == [N] + G[..|G| - 1];
      assert F[|F| - 1] == G[|G| - 1];
    case None =>
      ScanSkips(items, items[lo].level, lo + 1, hi);
      LastBelowNearest(items, e, hi, L);
      LastBelowUnique(items, lo, e, L, None);
  }

  /** Item `hi` is no deeper than item `lo` and closes its run: it starts a new tree. */
  lemma ForestCloses(items: seq<Item>, lo: nat, hi: nat, next: Id)
    requires lo < hi < |items|
    requires RunEnd(items, lo, hi) == hi
    requires items[hi].level <= items[lo].level
    requires RunEnd(items, lo, hi + 1) == hi
    ensures ForestGrows(items, lo, hi, next)
  {
    var N := Node(next + lo, items[lo].text, BuildForest(items, lo + 1, hi, next));
    var leaf := Node(next + hi, items[hi].text, []);
    assert BuildForest(items, lo, hi, next) == [N];
    ForestFromEmpty(items, hi, next);
    assert BuildForest(items, hi, hi + 1, next) == [leaf];
    assert BuildForest(items, lo, hi + 1, next) == [N] + [leaf];
    ScanSkips(items, items[lo].level, lo + 1, hi);
    LastBelowUnique(items, lo, hi, items[hi].level, None);
  }

  /** The two readings of `ForestGrows`, one per case of the parent search. */
  lemma {:induction false} GrowsWithoutParent(items: seq<Item>, lo: nat, hi: nat, next: Id)
    requires lo <= hi < |items|
    requires LastBelow(items, lo, hi, items[hi].level).None?
    ensures BuildForest(items, lo, hi + 1, next) == BuildForest(items, lo, hi, next) + [Node(next + hi, items[hi].text, [])]
    decreases hi - lo, 5
  {
    ForestStep(items, lo, hi, next);
  }

  lemma {:induction false} GrowsUnderParent(items: seq<Item>, lo: nat, hi: nat, next: Id, j: nat)
    requires lo <= hi < |items|
    requires LastBelow(items, lo, hi, items[hi].level) == Some(j)
    ensures BuildForest(items, lo, hi, next) != []
    ensures BuildForest(items, lo, hi + 1, next) ==
            BuildForest(items, lo, hi, next)[..|BuildForest(items, lo, hi, next)| - 1] +
            [AttachOnSpine(BuildForest(items, lo, hi, next)[|BuildForest(items, lo, hi, next)| - 1], next + j, Node(next + hi, items[hi].text, []))]
    decreases hi - lo, 5
  {
    ForestStep(items, lo, hi, next);
  }

  /** Item `hi` is deeper than item `lo` and extends its run: it goes into that subtree. */
  lemma ForestInsideRun(items: seq<Item>, lo: nat, hi: nat, next: Id)
    requires lo < hi < |items|
    requires RunEnd(items, lo, hi) == hi
    requires items[hi].level > items[lo].level
    requires RunEnd(items, lo, hi + 1) == hi + 1
    ensures ForestGrows(items, lo, hi, next)
    decreases hi - lo, 2
  {
    var L := items[hi].level;
    LastBelowSplit(items, lo, lo + 1, hi, L);
    if LastBelow(items, lo + 1, hi, L).Some? {
      InsideRunNestedGrows(items, lo, hi, next);
    } else {
      assert LastBelow(items, lo, lo + 1, L) == Some(lo);
      InsideRunDirectGrows(items, lo, hi, next);
    }
  }

  /** The new item's parent lies inside the run below item `lo`. */
  lemma InsideRunNestedGrows(items: seq<Item>, lo: nat, hi: nat, next: Id)
    requires lo < hi < |items|
    requires RunEnd(items, lo, hi) == hi && RunEnd(items, lo, hi + 1) == hi + 1
    requires LastBelow(items, lo + 1, hi, items[hi].level).Some?
    requires LastBelow(items, lo, hi, items[hi].level) == LastBelow(items, lo + 1, hi, items[hi].level)
    ensures ForestGrows(items, lo, hi, next)
    decreases hi - lo, 1
  {
    var N := Node(next + lo, items[lo].text, BuildForest(items, lo + 1, hi, next));
    var N' := Node(next + lo, items[lo].text, BuildForest(items, lo + 1, hi + 1, next));
    ForestSingle(items, lo, hi, next);
    ForestSingle(items, lo, hi + 1, next);
    InsideRunNested(items, lo, hi, next);
    GrowsInSingleTree(items, lo, hi, next, N, N', LastBelow(items, lo + 1, hi, items[hi].level).value);
  }

  /** Item `lo` itself is the new item's parent. */
  lemma InsideRunDirectGrows(items: seq<Item>, lo: nat, hi: nat, next: Id)
    requires lo < hi < |items|
    requires RunEnd(items, lo, hi) == hi && RunEnd(items, lo, hi + 1) == hi + 1
    requires LastBelow(items, lo + 1, hi, items[hi].level).None?
    requires LastBelow(items, lo, hi, items[hi].level) == Some(lo)
    ensures ForestGrows(items, lo, hi, next)
    decreases hi - lo, 1
  {
    var N := Node(next + lo, items[lo].text, BuildForest(items, lo + 1, hi, next));
    var N' := Node(next + lo, items[lo].text, BuildForest(items, lo + 1, hi + 1, next));
    ForestSingle(items, lo, hi, next);
    ForestSingle(items, lo, hi + 1, next);
    InsideRunDirect(items, lo, hi, next);
    GrowsInSingleTree(items, lo, hi, next, N, N', lo);
  }

  /** A one-tree forest grows by attaching the new leaf on that tree's spine. */
  lemma GrowsInSingleTree(items: seq<Item>, lo: nat, hi: nat, next: Id, N: Tree, N': Tree, j: nat)
    requires lo <= hi < |items|
    requires BuildForest(items, lo, hi, next) == [N]
    requires BuildForest(items, lo, hi + 1, next) == [N']
    requires LastBelow(items, lo, hi, items[hi].level) == Some(j)
    requires AttachOnSpine(N, next + j, Node(next + hi, items[hi].text, [])) == N'
    ensures ForestGrows(items, lo, hi, next)
  {
    var F := [N];
    assert F[..|F| - 1] + [AttachOnSpine(F[|F| - 1], next + j, Node(next + hi, items[hi].text, []))] == [N'];
  }

  lemma {:induction false} InsideRunNested(items: seq<Item>, lo: nat, hi: nat, next: Id)
    requires lo < hi < |items|
    requires LastBelow(items, lo + 1, hi, items[hi].level).Some?
    ensures var j := LastBelow(items, lo + 1, hi, items[hi].level).value;
            AttachOnSpine(Node(next + lo, items[lo].text, BuildForest(items, lo + 1, hi, next)), next + j, Node(next + hi, items[hi].text, [])) ==
            Node(next + lo, items[lo].text, BuildForest(items, lo + 1, hi + 1, next))
    decreases hi - lo, 0
  {
    var j := LastBelow(items, lo + 1, hi, items[hi].level).value;
    GrowsUnderParent(items, lo + 1, hi, next, j);
    AttachBelowRoot(next + lo, items[lo].text, BuildForest(items, lo + 1, hi, next), next + j, Node(next + hi, items[hi].text, []));
  }

  lemma {:induction false} InsideRunDirect(items: seq<Item>, lo: nat, hi: nat, next: Id)
    requires lo < hi < |items|
    requires LastBelow(items, lo + 1, hi, items[hi].level).None?
    ensures AttachOnSpine(Node(next + lo, items[lo].text, BuildForest(items, lo + 1, hi, next)), next + lo, Node(next + hi, items[hi].text, [])) ==
            Node(next + lo, items[lo].text, BuildForest(items, lo + 1, hi + 1, next))
    decreases hi - lo, 0
  {
    GrowsWithoutParent(items, lo + 1, hi, next);
    AttachAtRoot(next + lo, items[lo].text, BuildForest(items, lo + 1, hi, next), Node(next + hi, items[hi].text, []));
  }

  lemma AttachAtRoot(id: Id, text: string, cs: seq<Tree>, x: Tree)
    ensures AttachOnSpine(Node(id, text, cs), id, x) == Node(id, text, cs + [x])
  {
  }

  lemma AttachBelowRoot(id: Id, text: string, cs: seq<Tree>, pid: Id, x: Tree)
    requires id != pid && cs != []
    ensures AttachOnSpine(Node(id, text, cs), pid, x) ==
            Node(id, text, cs[..|cs| - 1] + [AttachOnSpine(cs[|cs| - 1], pid, x)])
  {
  }

  /**
   * The declarative reading of the level stack: item `i` is attached under the
   * nearest earlier item whose level is smaller, or under the root when there is no
   * such item.
   */
  lemma AssembleStep(items: seq<Item>, i: nat, next: Id)
    requires 1 <= i < |items|
    ensures AssembleUpTo(items, i + 1, next) ==
            AttachOnSpine(AssembleUpTo(items, i, next), next + ParentIndex(items, i), Node(next + i, items[i].text, []))
  {
    ForestStep(items, 1, i, next);
    LastBelowSplit(items, 0, 1, i, items[i].level);
  }

  // ---------------------------------------------------------------------------
  // The level stack mirrors the open branches
  // ---------------------------------------------------------------------------

  /** Item `j` is still open after the first `i` items: no later one was at its level or shallower. */
  ghost predicate Open(items: seq<Item>, j: nat, i: nat)
    requires j < i <= |items|
  {
    forall k :: j < k < i ==> items[k].level > items[j].level
  }

  /** After the first `i` items, the stack maps the level of each open item to that
      item's node, and holds nothing else. */
  ghost predicate StackMirrors(items: seq<Item>, i: nat, next: Id, stack: map<int, Id>)
    requires i <= |items|
  {
    StackHoldsOpen(items, i, next, stack) && OpenOnStack(items, i, stack)
  }

  /** Every entry of the stack is the node of an open item, under that item's level. */
  ghost predicate StackHoldsOpen(items: seq<Item>, i: nat, next: Id, stack: map<int, Id>)
    requires i <= |items|
  {
    forall L {:trigger stack[L]} :: L in stack ==> EntryOpen(items, i, next, L, stack[L])
  }

  /** Node `v` is the node of an open item at `level`. */
  ghost predicate EntryOpen(items: seq<Item>, i: nat, next: Id, level: int, v: Id)
    requires i <= |items|
  {
    next <= v < next + i && items[v - next].level == level && Open(items, v - next, i)
  }

  /** The level of every open item is on the stack. */
  ghost predicate OpenOnStack(items: seq<Item>, i: nat, stack: map<int, Id>)
    requires i <= |items|
  {
    forall j {:trigger Open(items, j, i)} :: 0 <= j < i && Open(items, j, i) ==> items[j].level in stack
  }

  lemma OpenUnique(items: seq<Item>, a: nat, b: nat, i: nat)
    requires a < i && b < i && i <= |items|
    requires Open(items, a, i) && Open(items, b, i)
    requires items[a].level == items[b].level
    ensures a == b
  {
  }

  /** The level stack after the first `i` items have been placed. */
  function StackAfter(items: seq<Item>, i: nat, next: Id): map<int, Id>
    requires 1 <= i <= |items|
  {
    if i == 1 then map[items[0].level := next]
    else PlaceOnStack<Id>(StackAfter(items, i - 1, next), items[i - 1].level, next + i - 1)
  }

  /** The stack built from the first `i` items mirrors their open items. */
  ghost predicate MirrorsAfter(items: seq<Item>, i: nat, next: Id)
    requires 1 <= i <= |items|
  {
    StackMirrors(items, i, next, StackAfter(items, i, next))
  }

  /** The stack always mirrors the open items. */
  lemma {:induction false} StackAfterMirrors(items: seq<Item>, i: nat, next: Id)
    requires 1 <= i <= |items|
    ensures MirrorsAfter(items, i, next)
  {
    if i == 1 {
      StackAtStart(items, next);
    } else {
      StackAfterMirrors(items, i - 1, next);
      StackAfterStep(items, i, next);
    }
  }

  lemma StackAfterStep(items: seq<Item>, i: nat, next: Id)
    requires 2 <= i <= |items|
    requires MirrorsAfter(items, i - 1, next)
    ensures MirrorsAfter(items, i, next)
  {
    var h := i - 1;
    var prev := StackAfter(items, h, next);
    assert StackAfter(items, i, next) == PlaceOnStack<Id>(prev, items[h].level, next + h);
    StackStep(items, h, next, prev);
  }

  lemma StackAtStart(items: seq<Item>, next: Id)
    requires 1 <= |items|
    ensures MirrorsAfter(items, 1, next)
  {
    var stack := StackAfter(items, 1, next);
    assert stack == map[items[0].level := next];
    assert Open(items, 0, 1);
    assert StackHoldsOpen(items, 1, next, stack);
    assert OpenOnStack(items, 1, stack);
  }

  /** `_find_parent` on the stack finds the node of the nearest earlier item with a
      smaller level, and nothing when there is none. */
  lemma ParentFromStack(items: seq<Item>, i: nat, next: Id)
    requires 0 < i < |items|
    ensures LastBelow(items, 0, i, items[i].level).None? ==> FindParent(items[i].level, StackAfter(items, i, next)) == None
    ensures LastBelow(items, 0, i, items[i].level).Some? ==>
              FindParent(items[i].level, StackAfter(items, i, next)) == Some(next + LastBelow(items, 0, i, items[i].level).value)
  {
    var stack := StackAfter(items, i, next);
    StackAfterMirrors(items, i, next);
    var r := LastBelow(items, 0, i, items[i].level);
    LastBelowNearest(items, 0, i, items[i].level);
    if r.None? {
      NoParentOnStack(items, i, next, stack);
    } else {
      NearestOnStack(items, i, next, stack, r.value);
    }
  }

  lemma NoParentOnStack(items: seq<Item>, i: nat, next: Id, stack: map<int, Id>)
    requires i < |items|
    requires StackHoldsOpen(items, i, next, stack)
    requires forall j :: 0 <= j < i ==> items[j].level >= items[i].level
    ensures FindParent(items[i].level, stack) == None
  {
    forall K | K in stack ensures K >= items[i].level {
      assert items[stack[K] - next].level == K;
    }
  }

  lemma NearestOnStack(items: seq<Item>, i: nat, next: Id, stack: map<int, Id>, j: nat)
    requires j < i < |items|
    requires StackMirrors(items, i, next, stack)
    requires items[j].level < items[i].level
    requires forall k :: j < k < i ==> items[k].level >= items[i].level
    ensures FindParent(items[i].level, stack) == Some(next + j)
  {
    ParentOnStack(items, i, next, stack, j);
    NothingCloserOnStack(items, i, next, stack, j);
  }

  /** The nearest item with a smaller level is open, so its node is on the stack. */
  lemma ParentOnStack(items: seq<Item>, i: nat, next: Id, stack: map<int, Id>, j: nat)
    requires j < i < |items|
    requires StackMirrors(items, i, next, stack)
    requires items[j].level < items[i].level
    requires forall k :: j < k < i ==> items[k].level >= items[i].level
    ensures items[j].level in stack && stack[items[j].level] == next + j
  {
    assert Open(items, j, i);
    OpenUnique(items, j, stack[items[j].level] - next, i);
  }

  /** No stack level strictly between that item's level and the new item's level. */
  lemma NothingCloserOnStack(items: seq<Item>, i: nat, next: Id, stack: map<int, Id>, j: nat)
    requires j < i < |items|
    requires StackHoldsOpen(items, i, next, stack)
    requires items[j].level < items[i].level
    requires forall k :: j < k < i ==> items[k].level >= items[i].level
    ensures forall K :: K in stack && K < items[i].level ==> K <= items[j].level
  {
    forall K | K in stack && K < items[i].level ensures K <= items[j].level {
      var jk := stack[K] - next;
      assert items[jk].level == K && Open(items, jk, i);
      if jk < j {
        assert items[j].level > K;
      }
    }
  }

  /** Placing item `i` keeps the stack mirroring the open items. */
  lemma StackStep(items: seq<Item>, i: nat, next: Id, stack: map<int, Id>)
    requires i < |items|
    requires StackMirrors(items, i, next, stack)
    ensures StackMirrors(items, i + 1, next, PlaceOnStack<Id>(stack, items[i].level, next + i))
  {
    StackStepHolds(items, i, next, stack);
    StackStepOpen(items, i, next, stack);
  }

  lemma StackStepHolds(items: seq<Item>, i: nat, next: Id, stack: map<int, Id>)
    requires i < |items|
    requires StackHoldsOpen(items, i, next, stack)
    ensures StackHoldsOpen(items, i + 1, next, PlaceOnStack<Id>(stack, items[i].level, next + i))
  {
    var L := items[i].level;
    var stack' := PlaceOnStack<Id>(stack, L, next + i);
    forall K | K in stack'
      ensures EntryOpen(items, i + 1, next, K, stack'[K])
    {
      if K != L {
        assert K in stack && K < L && stack'[K] == stack[K];
        EntryStaysOpen(items, i, next, stack, K);
      }
    }
  }

  /** An entry below the new item's level names an item the new item leaves open. */
  lemma EntryStaysOpen(items: seq<Item>, i: nat, next: Id, stack: map<int, Id>, K: int)
    requires i < |items|
    requires StackHoldsOpen(items, i, next, stack)
    requires K in stack && K < items[i].level
    ensures EntryOpen(items, i + 1, next, K, stack[K])
  {
  }

  lemma StackStepOpen(items: seq<Item>, i: nat, next: Id, stack: map<int, Id>)
    requires i < |items|
    requires OpenOnStack(items, i, stack)
    ensures OpenOnStack(items, i + 1, PlaceOnStack<Id>(stack, items[i].level, next + i))
  {
    var L := items[i].level;
    var stack' := PlaceOnStack<Id>(stack, L, next + i);
    forall j | 0 <= j < i + 1 && Open(items, j, i + 1) ensures items[j].level in stack' {
      if j < i {
        assert Open(items, j, i);
        assert items[j].level < L;
      }
    }
  }

  /**
   * `_build_tree_from_list` and `_build_tree` (the two are the same algorithm): the
   * first item is the root; every later item is attached under the stack's parent
   * for its level, or under the root, and then the stack is updated.
   */
  method BuildTree(items: seq<Item>, next: Id) returns (root: Option<Tree>)
    ensures items == [] ==> root == None
    ensures items != [] ==> root == Some(Assemble(items, next))
  {
    if items == [] {
      return None;
    }
    var t := Node(next, items[0].text, []);
    var stack: map<int, Id> := map[items[0].level := next];
    var i := 1;
    while i < |items|
      invariant 1 <= i <= |items|
      invariant t == AssembleUpTo(items, i, next)
      invariant stack == StackAfter(items, i, next)
    {
      var level := items[i].level;
      var newNode := Node(next + i, items[i].text, []);
      var parent := FindParent(level, stack);
      ParentFromStack(items, i, next);
      AssembleStep(items, i, next);
      ghost var pid := next + ParentIndex(items, i);
      if parent.Some? {
        assert parent.value == pid;
        t := AttachOnSpine(t, parent.value, newNode);
      } else {
        assert next == pid;
        t := AttachOnSpine(t, next, newNode);
      }
      assert t == AssembleUpTo(items, i + 1, next);
      stack := PlaceOnStack<Id>(stack, level, next + i);
      i := i + 1;
    }
    return Some(t);
  }

  // ---------------------------------------------------------------------------
  // What the built tree holds
  // ---------------------------------------------------------------------------

  /** `ns` are the nodes of items lo, lo + 1, ..., hi - 1 in that order, item k as the
      node numbered next + k. */
  ghost predicate Numbered(ns: seq<Tree>, items: seq<Item>, lo: nat, hi: nat, next: Id) {
    && lo + |ns| == hi <= |items|
    && forall k :: 0 <= k < |ns| ==> ns[k].id == next + lo + k && ns[k].text == items[lo + k].text
  }

  lemma NumberedConcat(a: seq<Tree>, b: seq<Tree>, items: seq<Item>, lo: nat, mid: nat, hi: nat, next: Id)
    requires Numbered(a, items, lo, mid, next)
    requires Numbered(b, items, mid, hi, next)
    ensures Numbered(a + b, items, lo, hi, next)
  {
    forall k | 0 <= k < |a + b| ensures (a + b)[k].id == next + lo + k && (a + b)[k].text == items[lo + k].text {
      if k >= |a| {
        assert (a + b)[k] == b[k - |a|];
      }
    }
  }

  /** The pre-order walk of the forest of items [lo, hi) visits exactly those items, in order. */
  lemma {:induction false} ForestPreOrder(items: seq<Item>, lo: nat, hi: nat, next: Id)
    requires lo <= hi <= |items|
    ensures Numbered(PreOrderAll(BuildForest(items, lo, hi, next)), items, lo, hi, next)
    decreases hi - lo
  {
    if lo < hi {
      var e := RunEnd(items, lo, hi);
      ForestPreOrder(items, lo + 1, e, next);
      ForestPreOrder(items, e, hi, next);
      PreOrderStep(items, lo, hi, e, next);
    }
  }

  lemma PreOrderStep(items: seq<Item>, lo: nat, hi: nat, e: nat, next: Id)
    requires lo < e <= hi <= |items| && RunEnd(items, lo, hi) == e
    requires Numbered(PreOrderAll(BuildForest(items, lo + 1, e, next)), items, lo + 1, e, next)
    requires Numbered(PreOrderAll(BuildForest(items, e, hi, next)), items, e, hi, next)
    ensures Numbered(PreOrderAll(BuildForest(items, lo, hi, next)), items, lo, hi, next)
  {
    var N := Node(next + lo, items[lo].text, BuildForest(items, lo + 1, e, next));
    ForestHead(items, lo, hi, e, next);
    NumberedNode(N, items, lo, e, next);
    NumberedCons(N, BuildForest(items, e, hi, next), items, lo, e, hi, next);
  }

  /** A node numbered `lo` over children numbered from `lo + 1` is numbered from `lo`. */
  lemma NumberedNode(N: Tree, items: seq<Item>, lo: nat, hi: nat, next: Id)
    requires lo < |items| && N.id == next + lo && N.text == items[lo].text
    requires Numbered(PreOrderAll(N.children), items, lo + 1, hi, next)
    ensures Numbered(PreOrder(N), items, lo, hi, next)
  {
    assert Numbered([N], items, lo, lo + 1, next);
    NumberedConcat([N], PreOrderAll(N.children), items, lo, lo + 1, hi, next);
  }

  lemma NumberedCons(N: Tree, G: seq<Tree>, items: seq<Item>, lo: nat, mid: nat, hi: nat, next: Id)
    requires Numbered(PreOrder(N), items, lo, mid, next)
    requires Numbered(PreOrderAll(G), items, mid, hi, next)
    ensures Numbered(PreOrderAll([N] + G), items, lo, hi, next)
  {
    assert ([N] + G)[0] == N && ([N] + G)[1..] == G;
    NumberedConcat(PreOrder(N), PreOrderAll(G), items, lo, mid, hi, next);
  }

  /**
   * Every item becomes exactly one node: walking the built tree in pre-order gives
   * the items in input order, item k as the node numbered next + k with its label.
   */
  lemma AssemblePreOrder(items: seq<Item>, next: Id)
    requires |items| > 0
    ensures |PreOrder(Assemble(items, next))| == |items|
    ensures forall k :: 0 <= k < |items| ==>
              PreOrder(Assemble(items, next))[k].id == next + k &&
              PreOrder(Assemble(items, next))[k].text == items[k].text
  {
    AssembleNumbered(items, next);
  }

  lemma AssembleNumbered(items: seq<Item>, next: Id)
    requires |items| > 0
    ensures Numbered(PreOrder(Assemble(items, next)), items, 0, |items|, next)
  {
    ForestPreOrder(items, 1, |items|, next);
    NumberedNode(Assemble(items, next), items, 0, |items|, next);
  }

  // ---------------------------------------------------------------------------
  // parse
  // ---------------------------------------------------------------------------

  /** Whether the text is empty or all whitespace (`not markdown_text.strip()`). */
  function Blank(text: string): (r: bool)
    ensures r <==> forall k :: 0 <= k < |text| ==> IsSpace(text[k])
  {
    Strip(text) == []
  }

  /**
   * `parse`: nothing for blank text; otherwise the tree of the list items when any
   * line is a list item, else the tree of the headings, else nothing. Item k
   * becomes node next + k.
   */
  function ParseOutline(text: string, next: Id): (r: Option<Tree>)
    ensures Blank(text) ==> r == None
    ensures r.Some? ==> r.value.id == next
  {
    if Blank(text) then None
    else
      var items := Extracted(Split(text), ListDialect);
      if items != [] then Some(Assemble(items, next))
      else
        var headings := Extracted(Split(text), HeadingDialect);
        if headings == [] then None else Some(Assemble(headings, next))
  }

  /** Every item label has been through `strip()` and lies on one line. */
  ghost predicate StrippedItems(items: seq<Item>) {
    forall k :: 0 <= k < |items| ==> Strip(items[k].text) == items[k].text && '\n' !in items[k].text
  }

  /** The label a pattern reads from a single line is stripped and has no line feed. */
  lemma MatchLineStripped(d: Dialect, line: string)
    requires '\n' !in line
    ensures StrippedItems(LineItems(d, line))
  {
    var a := if d.ListDialect? then LeadingSpaces(line) + 1 else LeadingHashes(line);
    if MatchLine(d, line).Some? {
      assert a <= |line| && MatchLine(d, line).value.text == Strip(line[a..]);
      StrippedRest(line, a);
    }
  }

  /** The stripped rest of a line is stripped and has no line feed. */
  lemma StrippedRest(line: string, a: nat)
    requires '\n' !in line && a <= |line|
    ensures Strip(Strip(line[a..])) == Strip(line[a..]) && '\n' !in Strip(line[a..])
  {
    StripTwice(line[a..]);
    assert '\n' !in line[a..];
    StripOneLine(line[a..]);
  }

  lemma {:induction false} ExtractedStripped(lines: seq<string>, d: Dialect)
    requires forall k :: 0 <= k < |lines| ==> '\n' !in lines[k]
    ensures StrippedItems(Extracted(lines, d))
  {
    if lines != [] {
      var init := lines[..|lines| - 1];
      ExtractedStripped(init, d);
      MatchLineStripped(d, lines[|lines| - 1]);
      var a, b := Extracted(init, d), LineItems(d, lines[|lines| - 1]);
      assert forall k :: |a| <= k < |a| + |b| ==> (a + b)[k] == b[k - |a|];
    }
  }

  /** Every node of a tree built from items carries the label of one of them. */
  lemma AssembledLabels(items: seq<Item>, next: Id, x: Tree)
    requires |items| > 0 && InSubtree(x, Assemble(items, next))
    ensures exists k :: 0 <= k < |items| && x.text == items[k].text
  {
    var t := Assemble(items, next);
    AssemblePreOrder(items, next);
    PreOrderMembers(t, x);
    var k :| 0 <= k < |PreOrder(t)| && PreOrder(t)[k] == x;
    assert x.text == items[k].text;
  }

  /** Every label of a parsed tree survives `strip()` unchanged and lies on one line. */
  lemma ParsedLabels(text: string, next: Id)
    requires ParseOutline(text, next).Some?
    ensures forall x :: InSubtree(x, ParseOutline(text, next).value) ==>
              Strip(x.text) == x.text && '\n' !in x.text
  {
    var d := if Extracted(Split(text), ListDialect) != [] then ListDialect else HeadingDialect;
    var items := Extracted(Split(text), d);
    ExtractedStripped(Split(text), d);
    forall x | InSubtree(x, ParseOutline(text, next).value)
      ensures Strip(x.text) == x.text && '\n' !in x.text
    {
      AssembledLabels(items, next, x);
    }
  }

  method Parse(text: string, next: Id) returns (root: Option<Tree>)
    ensures root == ParseOutline(text, next)
  {
    if Blank(text) {
      return None;
    }
    var items := Extract(text, ListDialect);
    if items != [] {
      root := BuildTree(items, next);
      return;
    }
    var headings := Extract(text, HeadingDialect);
    if headings == [] {
      return None;
    }
    root := BuildTree(headings, next);
  }

  /**
   * Which lines decide the result: a tree comes out exactly when the text is not
   * blank and some line is a list item or a heading.
   */
  lemma ParseSomeIff(text: string, next: Id)
    ensures ParseOutline(text, next).Some? <==>
              !Blank(text) && (AnyMatch(Split(text), ListDialect) || AnyMatch(Split(text), HeadingDialect))
  {
    var lines := Split(text);
    ExtractedEmpty(lines, ListDialect);
    ExtractedEmpty(lines, HeadingDialect);
  }

  /** As soon as one line is a list item, the tree is built from the list items alone
      and headings are ignored. */
  lemma ListLinesWin(text: string, next: Id)
    requires !Blank(text) && AnyMatch(Split(text), ListDialect)
    ensures Extracted(Split(text), ListDialect) != []
    ensures ParseOutline(text, next) == Some(Assemble(Extracted(Split(text), ListDialect), next))
  {
    var lines := Split(text);
    ExtractedEmpty(lines, ListDialect);
  }

  // ---------------------------------------------------------------------------
  // Corrected reading: blank labels do not make an item
  // ---------------------------------------------------------------------------

  /** The items whose stripped label is not empty, in order: what the two patterns
      would give with a label group that has to hold a non-whitespace character. */
  function NonEmptyLabels(items: seq<Item>): (r: seq<Item>)
    ensures |r| <= |items|
    ensures forall k :: 0 <= k < |r| ==> r[k].text != [] && r[k] in items
    ensures (forall k :: 0 <= k < |items| ==> items[k].text != []) ==> r == items
  {
    if items == [] then []
    else
      var rest := NonEmptyLabels(items[1..]);
      assert forall k :: 1 <= k < |items| ==> items[k] == items[1..][k - 1];
      if items[0].text != [] then [items[0]] + rest else rest
  }

  /** `parse` with the label group required to hold something besides whitespace:
      a list or heading line whose label strips to nothing is not an item. */
  function ParseOutlineStrict(text: string, next: Id): (r: Option<Tree>)
    ensures Blank(text) ==> r == None
    ensures r.Some? ==> r.value.id == next
  {
    if Blank(text) then None
    else
      var items := NonEmptyLabels(Extracted(Split(text), ListDialect));
      if items != [] then Some(Assemble(items, next))
      else
        var headings := NonEmptyLabels(Extracted(Split(text), HeadingDialect));
        if headings == [] then None else Some(Assemble(headings, next))
  }

  /** The kept labels of stripped items are clean single lines. */
  lemma NonEmptyClean(items: seq<Item>)
    requires StrippedItems(items)
    ensures forall k :: 0 <= k < |NonEmptyLabels(items)| ==> CleanLabel(NonEmptyLabels(items)[k].text)
  {
    forall k | 0 <= k < |NonEmptyLabels(items)|
      ensures CleanLabel(NonEmptyLabels(items)[k].text)
    {
      var t := NonEmptyLabels(items)[k].text;
      var i :| 0 <= i < |items| && items[i] == NonEmptyLabels(items)[k];
      assert Strip(items[i].text) == t && '\n' !in t;
      StrippedClean(t);
    }
  }

  /** Every label of a tree read by the corrected parser is a clean, non-empty
      single line. */
  lemma StrictLabelsClean(text: string, next: Id)
    requires ParseOutlineStrict(text, next).Some?
    ensures forall x :: InSubtree(x, ParseOutlineStrict(text, next).value) ==> CleanLabel(x.text)
  {
    var d := if NonEmptyLabels(Extracted(Split(text), ListDialect)) != [] then ListDialect else HeadingDialect;
    var items := NonEmptyLabels(Extracted(Split(text), d));
    assert ParseOutlineStrict(text, next).value == Assemble(items, next);
    ExtractedStripped(Split(text), d);
    NonEmptyClean(Extracted(Split(text), d));
    forall x | InSubtree(x, Assemble(items, next))
      ensures CleanLabel(x.text)
    {
      AssembledLabels(items, next, x);
    }
  }
}
