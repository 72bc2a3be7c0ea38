# Mind map core, modelled in Dafny

This project models the core of a small mind-map editor. Its domain objects are
`Node`, a labelled node with a parent and an ordered list of children, and
`MindMap`, a title and an optional root. An outline parser turns indented
Markdown lists or headings into a node tree. A serializer writes a tree back as
an indented Markdown list. From the drag-and-drop item, two parts are modelled:
the test that stops a node from being dropped into its own subtree, and the rule
that picks the drop target under the pointer.

Files:

- `wrappers.dfy` holds `Option`.
- `seqs.dfy` holds associativity of append.
- `strings.dfy` models the Python `str` operations used: whitespace,
  `strip`, `split('\n')` and `'\n'.join`.
- `nodes.dfy` models nodes.
  - `Nodes.Arena` is the mutable store of node records. Each record sits in a map
    keyed by identity. `add_child` and `remove_child` update records in place.
  - `Nodes.Tree` is the value of a node with everything below it. It is what the
    traversals and the parser work on.
- `parser.dfy` models the parser.
  - Line recognition follows the two regular expressions.
  - The level-stack tree builder `BuildTree` is proved equal to `Assemble`, a
    declarative reading of the outline: every item owns the run of deeper items
    that follows it.
- `serializer.dfy` models the serializer.
- `roundtrip.dfy` proves that parsing what the serializer wrote gives back a
  tree of the same shape and labels.
- `mindmap.dfy` models the mind map container.
- `node_item.dfy` models the descendant test and the hover-target rule.

Identities are natural numbers drawn from a counter. A parse numbers its items
`next`, `next + 1`, and so on.

## Model

| member | source | states |
|---|---|---|
| Nodes.PreOrder | src/domain/mindmap.py:61-71 | The pre-order list of a tree has one entry per node and starts with the node itself. |
| Nodes.PreOrderMembers | src/domain/mindmap.py:61-71 | A node occurs in the pre-order walk exactly when it lies in the subtree. |
| Nodes.RemoveFirst | src/domain/node.py:91 | `list.remove` on a present element shortens the list by one. On an absent one it changes nothing. Every other element keeps its membership. |
| Nodes.FirstIndex | src/domain/node.py:91 | The position `list.remove` acts on holds the element, and no earlier position does. |
| Nodes.RemoveFirstSplits | src/domain/node.py:91 | `list.remove` deletes exactly the first occurrence. The elements before and after it keep their order. |
| Nodes.RemoveFirstNoDup | src/domain/node.py:91 | On a list without repeats, `remove` leaves no occurrence and no repeats. |
| Nodes.DetachFromParent | src/domain/node.py:89-91 | Only the old parent's record changes: its child list loses the child. Every other record and the key set are unchanged. |
| Nodes.AppendChild | src/domain/node.py:93-95 | The child is appended to the parent's list only when it is not already there. No other record changes. |
| Nodes.AddChildMap | src/domain/node.py:80-96 | `add_child` keeps the set of nodes. Afterwards `c`'s parent is `p` and `c` is in `p`'s list. The full effect is `AddChildEffect`. |
| Nodes.AddChildEffect | src/domain/node.py:80-96 | On a consistent store, `add_child` has this effect: `c` is last in `p`'s list, `c`'s parent is `p`, and a different old parent has lost `c`. Every other record, every other parent pointer and all labels and presentation data are unchanged. |
| Nodes.AddChildMoves | src/domain/node.py:89-96 | After `add_child`: the same nodes exist, `c`'s parent is `p`, the old parent's list lost `c`, and `c`'s own children are kept. |
| Nodes.AddChildAppends | src/domain/node.py:89-95 | On a consistent store, `p`'s new list is its old list without `c`, followed by `c`. A re-added child therefore moves to the end. |
| Nodes.AddChildFrame | src/domain/node.py:80-96 | Nodes other than `p`, `c` and `c`'s old parent are untouched. No other parent pointer changes. No label or presentation datum changes. |
| Nodes.AddChildPlacement | src/domain/node.py:80-96 | After `add_child`, `c` is the last child of `p`, `p`'s list has no repeats, and `c` is in no other node's list. |
| Nodes.MoveConsistent | src/domain/node.py:80-96 | The move `add_child` performs keeps parent pointers and child lists in agreement. |
| Nodes.AddChildConsistent | src/domain/node.py:80-96 | `add_child` preserves the invariant that `x.parent == p` exactly when `x` is in `p.children`, with no repeats. |
| Nodes.RemoveChildMap | src/domain/node.py:98-107 | `remove_child` keeps the set of nodes. For an actual child it clears the child's parent. For any other node the store is unchanged. The full effect is `RemoveChildEffect`. |
| Nodes.RemoveChildEffect | src/domain/node.py:98-107 | `remove_child` deletes an actual child from the list and clears its parent, touching nothing else. For a node that is not a child, the store is unchanged. |
| Nodes.DetachLeavesNoTrace | src/domain/node.py:105-107 | After removing an actual child, no child list mentions it and no list has repeats. |
| Nodes.DetachConsistent | src/domain/node.py:98-107 | Detaching an actual child keeps parent pointers and child lists in agreement. |
| Nodes.RemoveChildConsistent | src/domain/node.py:98-107 | `remove_child` preserves that agreement, whatever its argument. |
| Nodes.Arena.NewNode | src/domain/node.py:13-28 | A new node gets a fresh identity, no parent, no children, position (0, 0) and the given label and font data. The invariant is kept. |
| Nodes.Arena.AddChild | src/domain/node.py:80-96 | The in-place update equals `AddChildMap` and keeps the invariant. |
| Nodes.Arena.RemoveChild | src/domain/node.py:98-107 | The in-place update equals `RemoveChildMap` and keeps the invariant. |
| Nodes.Arena.Children | src/domain/node.py:50-53 | Returns the node's child list as a value, so the caller cannot change the node through it. |
| Nodes.Arena.SetText | src/domain/node.py:40-43 | Only the label of that node changes. |
| Nodes.Arena.SetFontSize | src/domain/node.py:65-68 | Only the font size of that node changes. |
| Nodes.Arena.SetFontColor | src/domain/node.py:75-78 | Only the font colour of that node changes. |
| Nodes.Arena.SetPosition | src/domain/node.py:109-117 | Only the position of that node changes. |
| Strings.Strip | src/parser/markdown_parser.py:31 | The result has no whitespace at either end. It is empty exactly when the input is all whitespace. |
| Strings.StripTwice | src/parser/markdown_parser.py:87 | `strip()` is idempotent: a stripped label strips to itself. |
| Strings.StripOneLine | src/parser/markdown_parser.py:87 | Stripping a single line gives a single line. |
| Strings.StrippedClean | src/parser/markdown_parser.py:87 | A non-empty single line that `strip()` leaves alone has no whitespace at either end. |
| Strings.Split | src/parser/markdown_parser.py:57 | There is at least one piece, and no piece holds a line feed. Joining the pieces gives the text back. |
| Strings.Join | src/parser/tree_to_markdown.py:39 | The joined text starts with the first line, followed by a line feed when more lines follow. Its inverse is `SplitJoin`. |
| Strings.SplitJoin | src/parser/tree_to_markdown.py:39 | Splitting the join of line-feed-free lines gives back exactly those lines. |
| MarkdownParser.LeadingSpaces | src/parser/markdown_parser.py:19 | The result is the length of the maximal leading whitespace run, the `(\s*)` group. |
| MarkdownParser.LeadingHashes | src/parser/markdown_parser.py:17 | The result is the length of the maximal leading `#` run. |
| MarkdownParser.CountTabs | src/parser/markdown_parser.py:86 | The tab count is at most the length. It is 0 for an indentation without tabs and the length for one of tabs only. |
| MarkdownParser.IndentLevel | src/parser/markdown_parser.py:84-86 | Two spaces or one tab make one level: spaces alone give half their number, tabs alone give their number, and mixtures lie in between. |
| MarkdownParser.MatchList | src/parser/markdown_parser.py:82-88 | A matched list line has a non-negative level. Its exact reading is `MatchListIff` and `ListShapeReads`. |
| MarkdownParser.MatchHeading | src/parser/markdown_parser.py:60-64 | A matched heading has a level from 1 to 6. Its exact reading is `MatchHeadingIff` and `HeadingShapeReads`. |
| MarkdownParser.MatchListIff | src/parser/markdown_parser.py:19 | On a line without line feeds, a list item is read exactly when `^(\s*)[-*]\s+(.+)$` matches: a whitespace run, a `-` or `*`, at least one whitespace character, then at least one more character. |
| MarkdownParser.ListShapeReads | src/parser/markdown_parser.py:82-88 | For every way the list pattern can match, the item holds the level of the indentation group and the stripped label group. |
| MarkdownParser.MatchHeadingIff | src/parser/markdown_parser.py:17 | On a line without line feeds, a heading is read exactly when `^(#{1,6})\s+(.+)$` matches: one to six `#`, at least one whitespace character, then at least one more character. |
| MarkdownParser.HeadingShapeReads | src/parser/markdown_parser.py:60-64 | For every way the heading pattern can match, the level is the number of `#` and the text the stripped label group. |
| MarkdownParser.SpacesUpTo | src/parser/markdown_parser.py:19 | A whitespace run ended by another character is the leading whitespace run. |
| MarkdownParser.HashesUpTo | src/parser/markdown_parser.py:17 | A run of `#` ended by another character is the leading run of `#`. |
| MarkdownParser.LineItems | src/parser/markdown_parser.py:59-64 | A line gives at most one item, and none exactly when its pattern does not match. |
| MarkdownParser.Extracted | src/parser/markdown_parser.py:68-90 | There are never more items than lines. |
| MarkdownParser.ExtractedEmpty | src/parser/markdown_parser.py:56-66 | No item is extracted exactly when no line matches the pattern. |
| MarkdownParser.Extract | src/parser/markdown_parser.py:46-90 | Extraction yields exactly the items of the matching lines, in line order. |
| MarkdownParser.ExtractStep | src/parser/markdown_parser.py:81-88 | One pass of the line loop appends the line's item when the pattern matches, and adds nothing otherwise. |
| MarkdownParser.ExtractLines | src/parser/markdown_parser.py:81-88 | The line loop equals the declarative extraction. |
| MarkdownParser.MaxBelow | src/parser/markdown_parser.py:189-194 | The result is the greatest key below the bound. It is none exactly when every key is at or above the bound. |
| MarkdownParser.FindParent | src/parser/markdown_parser.py:177-195 | `_find_parent` returns the node stored under the greatest level strictly below `level`. It returns nothing exactly when no such level is present. |
| MarkdownParser.PlaceOnStack | src/parser/markdown_parser.py:124-130 | The new node is under `level`. Keys at or above `level` are gone. Keys below it keep their nodes. No new key appears. |
| MarkdownParser.LastBelow | src/parser/markdown_parser.py:115-122 | A found index lies in range and has a smaller level. |
| MarkdownParser.LastBelowNearest | src/parser/markdown_parser.py:115-122 | No item after the found index has a smaller level. With no index found, no item in range does. |
| MarkdownParser.ParentIndex | src/parser/markdown_parser.py:115-122 | The item an item is attached under comes before it. |
| MarkdownParser.AttachOnSpineKeeps | src/parser/markdown_parser.py:118-122 | Attaching a node keeps the root and all children but the last. Only the right-hand edge grows, and a node attached under the root becomes its last child. |
| MarkdownParser.ForestStep | src/parser/markdown_parser.py:112-130 | Adding one item to the outline reading follows one rule. It becomes the last child of the nearest earlier item with a smaller level, on the right-hand edge of the last tree. With no such item, it starts a new tree. |
| MarkdownParser.AssembleStep | src/parser/markdown_parser.py:112-122 | The tree of `i + 1` items is the tree of `i` items with item `i` attached under its parent index. With no smaller earlier level, the parent is the root. |
| MarkdownParser.StackAfterMirrors | src/parser/markdown_parser.py:124-130 | After each item, the level stack maps the level of each still-open item to its node, and holds nothing else. |
| MarkdownParser.ParentFromStack | src/parser/markdown_parser.py:116-122 | The stack lookup returns the node of the nearest earlier item with a smaller level. It returns nothing when there is none, so the item goes under the root. |
| MarkdownParser.BuildTree | src/parser/markdown_parser.py:92-132 | The level-stack loop builds exactly `Assemble` of the items, and nothing for no items. The same algorithm is `_build_tree` at lines 134-175. |
| MarkdownParser.ForestPreOrder | src/parser/markdown_parser.py:112-130 | The pre-order walk of the outline reading of a range of items visits exactly those items, in order. |
| MarkdownParser.AssemblePreOrder | src/parser/markdown_parser.py:105-130 | Every item becomes exactly one node. The pre-order walk of the built tree gives the items in input order, with their labels. |
| MarkdownParser.Blank | src/parser/markdown_parser.py:31 | Text counts as blank exactly when every character is whitespace. |
| MarkdownParser.ParseOutline | src/parser/markdown_parser.py:21-44 | Blank text gives nothing. A tree's root is the first item. |
| MarkdownParser.ExtractedStripped | src/parser/markdown_parser.py:59-88 | Every extracted label is stripped and lies on one line. |
| MarkdownParser.AssembledLabels | src/parser/markdown_parser.py:105-130 | Every node of a built tree carries the label of one of the items. |
| MarkdownParser.ParsedLabels | src/parser/markdown_parser.py:21-88 | Every label of a parsed tree is unchanged by `strip()` and holds no line feed. |
| MarkdownParser.NonEmptyLabels | src/parser/markdown_parser.py:17-19 | The corrected patterns keep only items with a non-empty label, in order. When every label is non-empty, nothing is dropped. |
| MarkdownParser.ParseOutlineStrict | src/parser/markdown_parser.py:21-44 | The corrected `parse` (see Findings): blank text gives nothing, and a tree's root is the first kept item. |
| MarkdownParser.NonEmptyClean | src/parser/markdown_parser.py:17-19 | The labels the corrected patterns keep are clean single lines. |
| MarkdownParser.StrictLabelsClean | src/parser/markdown_parser.py:21-44 | Every label of a tree read by the corrected `parse` is a clean, non-empty single line. |
| MarkdownParser.Parse | src/parser/markdown_parser.py:21-44 | `parse` equals the declarative `ParseOutline`. |
| MarkdownParser.ParseSomeIff | src/parser/markdown_parser.py:31-44 | A tree comes out exactly when the text is not blank and some line is a list item or a heading. |
| MarkdownParser.ListLinesWin | src/parser/markdown_parser.py:34-37 | Once any line is a list item, the tree is built from the list items alone and headings are ignored. |
| TreeToMarkdown.Indent | src/parser/tree_to_markdown.py:51 | The indentation is `2 * depth` spaces. |
| TreeToMarkdown.Render | src/parser/tree_to_markdown.py:53 | A line is the indentation, then `- `, then the label unchanged. |
| TreeToMarkdown.NodeLines | src/parser/tree_to_markdown.py:41-57 | A subtree gives one line per node, and its own line comes first. |
| TreeToMarkdown.ChildLines | src/parser/tree_to_markdown.py:55-57 | The children give one line per node of their subtrees. |
| TreeToMarkdown.RootLines | src/parser/tree_to_markdown.py:32-37 | The virtual root writes only its children's lines. Any other root writes its own line first, at depth 0. |
| TreeToMarkdown.Convert | src/parser/tree_to_markdown.py:17-39 | No tree gives the empty text. |
| TreeToMarkdown.ConvertNode | src/parser/tree_to_markdown.py:41-57 | The recursive appender adds exactly the subtree's lines to the caller's list. |
| TreeToMarkdown.ConvertTree | src/parser/tree_to_markdown.py:17-39 | `convert` equals the declarative `Convert`. |
| RoundTrip.Flatten | src/parser/tree_to_markdown.py:41-57 | The (depth, label) items written for a subtree: one per node, its own first. |
| RoundTrip.RenderIndent | src/parser/markdown_parser.py:84-86 | The indentation of a written line reads back as its depth. |
| RoundTrip.RenderMatches | src/parser/markdown_parser.py:82-88 | A written line is recognised as a list item with the depth and the label it was written with, when the label is clean. |
| RoundTrip.NodeLinesRead | src/parser/markdown_parser.py:68-90 | The lines written for a clean subtree are extracted as its flattened items. |
| RoundTrip.NodeLinesOneLine | src/parser/tree_to_markdown.py:41-57 | No written line holds a line feed. |
| RoundTrip.NodeLinesByShape | src/parser/tree_to_markdown.py:41-57 | The written lines depend only on labels and nesting, never on identities. |
| RoundTrip.ConvertByShape | src/parser/tree_to_markdown.py:17-39 | Two trees of the same shape are written as the same text. |
| RoundTrip.ForestOfFlattened | src/parser/markdown_parser.py:92-132 | Reading flattened items back as an outline gives forests of the original shape. |
| RoundTrip.AssembleFlattened | src/parser/markdown_parser.py:92-132 | The tree built from a tree's flattened items has that tree's shape. |
| RoundTrip.ParseWritten | src/parser/markdown_parser.py:21-44 | Parsing the text written for a clean tree builds the tree of its flattened items. |
| RoundTrip.RoundTrip | src/parser/markdown_parser.py:21-44 | Parsing serialized text always gives a tree, with the original's shape and labels. This holds when labels are clean single lines and the root is not the virtual root. |
| RoundTrip.ConvertParseConvert | src/parser/tree_to_markdown.py:17-39 | Serializing, parsing and serializing again gives the first text back. |
| RoundTrip.AllCleanFromLabels | src/parser/tree_to_markdown.py:41-57 | A tree all of whose labels are clean meets the round-trip requirement. |
| RoundTrip.ParsedStable | src/parser/markdown_parser.py:21-44 | A parsed tree with non-empty labels, whose root is not labelled as the virtual root, is serialized, parsed and serialized again to the same text. |
| RoundTrip.EmptyLabelBreaksRoundTrip | src/parser/markdown_parser.py:19 | `-  ` parses to a root with the empty label, which is written as `- `, which parses to nothing. So serializing, parsing and serializing again changes the text. The corrected `parse` reads nothing from `-  `. |
| RoundTrip.WriteBlankLabel | src/parser/tree_to_markdown.py:41-57 | The empty label is written as `- `. |
| RoundTrip.ReadBlankLabel | src/parser/markdown_parser.py:21-44 | `-  ` parses to a single node with the empty label. The corrected `parse` reads nothing from it. |
| RoundTrip.ReadBareMarker | src/parser/markdown_parser.py:21-44 | `- ` is neither a list item nor a heading, so it parses to nothing. |
| RoundTrip.BlankLabelLine | src/parser/markdown_parser.py:82-88 | The line `-  ` is a list item at level 0 with the empty label, and not a heading. |
| RoundTrip.StrictParseStable | src/parser/markdown_parser.py:21-44 | For every tree the corrected `parse` produces whose root is not the virtual root: it reads the serialized text the same way as the original `parse`, and serializing, parsing and serializing again gives the same text. |
| RoundTrip.WrittenItemsKept | src/parser/tree_to_markdown.py:17-57 | On the serializer's text for a clean tree, the corrected `parse` reads the same tree as the original. |
| RoundTrip.FlattenClean | src/parser/tree_to_markdown.py:41-57 | Every item written for a clean subtree has a non-empty label. |
| MindMaps.AllNodes | src/domain/mindmap.py:47-59 | No root gives no nodes. Otherwise there is one entry per node, the root first. |
| MindMaps.FindFirst | src/domain/mindmap.py:83-87 | The result is the first node carrying the identity. It is none exactly when no node carries it. |
| MindMaps.AllNodesMembers | src/domain/mindmap.py:47-71 | The listed nodes are exactly the nodes of the root's subtree. |
| MindMaps.FindInSubtree | src/domain/mindmap.py:73-87 | A node is found exactly when some node of the subtree carries the identity. What is found lies in the subtree. |
| MindMaps.MindMap.constructor | src/domain/mindmap.py:13-21 | The map has the given title and no root. |
| MindMaps.MindMap.Untitled | src/domain/mindmap.py:13-21 | The map has the title "Untitled" and no root. |
| MindMaps.MindMap.SetTitle | src/domain/mindmap.py:28-31 | Only the title changes. |
| MindMaps.MindMap.SetRoot | src/domain/mindmap.py:38-45 | Only the root changes. |
| MindMaps.MindMap.Clear | src/domain/mindmap.py:89-91 | The root is dropped, so no nodes are listed. The title is kept. |
| MindMaps.MindMap.GetAllNodes | src/domain/mindmap.py:47-59 | `get_all_nodes` lists the root's subtree in pre-order. |
| MindMaps.MindMap.CollectNodes | src/domain/mindmap.py:61-71 | The recursive collector appends exactly the subtree's pre-order walk. |
| MindMaps.MindMap.FindNodeById | src/domain/mindmap.py:73-87 | `find_node_by_id` returns the first listed node with the identity. |
| NodeItems.CheckRecursive | src/presentation/node_item.py:160-166 | The search answers yes on the target itself, and on a leaf it answers whether the leaf is the target. Its full meaning is `CheckRecursiveFinds`. |
| NodeItems.CheckChildren | src/presentation/node_item.py:163-166 | The loop over the children answers yes exactly when the search succeeds for some child. |
| NodeItems.IsDescendant | src/presentation/node_item.py:150-168 | The dragged node counts as its own descendant. |
| NodeItems.CheckRecursiveFinds | src/presentation/node_item.py:160-166 | The recursive search answers yes exactly when some node of the subtree is the target. |
| NodeItems.IsDescendantIff | src/presentation/node_item.py:150-168 | `_is_descendant` is true exactly when the node is in the dragged node's subtree. |
| NodeItems.CanDropOn | src/presentation/node_item.py:143-145 | An item that passes the filter is a node item, and its node is not the dragged node. |
| NodeItems.FirstDropTarget | src/presentation/node_item.py:140-148 | The target is the first scene item that is a node item, not the dragged one, and not showing a descendant. It is none exactly when no item qualifies. |
| NodeItems.DropTargetOutsideSubtree | src/presentation/node_item.py:143-148 | A drop target is never the dragged item, nor an item showing a node of the dragged subtree. |
| NodeItems.NodeItem.constructor | src/presentation/node_item.py:19-33 | A new item shows its node at its depth and offers no drop target. |
| NodeItems.NodeItem.UpdateHoverTarget | src/presentation/node_item.py:128-148 | After the update, the hover target is exactly `FirstDropTarget` of the items under the pointer. |

## Left out

- Qt rendering is not modelled: painting, the bounding box, colours by depth and the mouse event handlers other than the hover-target rule.
- `set_highlight` is not modelled. It only repaints.
- The drop handler is not part of this model. `MindMapView._on_node_dropped` (src/presentation/mindmap_view.py) moves the dropped node with `remove_child` on its old parent and `add_child` on the target, then redraws. The main window then re-serializes the tree. Those two core operations are modelled (`Nodes.Arena.RemoveChild`, `Nodes.Arena.AddChild`); the view code around them is not.
- The scene's `items(pos)` query is a parameter of `UpdateHoverTarget`, a sequence of node items and other graphics, topmost first. The geometry that decides it is not modelled.
- Node identities are natural numbers from a counter, not random UUID strings. The model relies only on uniqueness, which the counter guarantees.
- Nodes are compared by identity, like the Python objects (which define no `__eq__`).
- Strings.IsSpace is the set of 29 characters Python's `str.isspace()` accepts, which `strip()` and `\s` in a `str` pattern use too. Python takes the set from its Unicode database; a later Unicode version that changed it is not followed.
- MarkdownParser.MatchList: the regular expression engine is replaced by a direct reading of the pattern. The label is the stripped rest of the line, which is what the pattern's label group strips to. `MatchListIff` and `ListShapeReads` state that this agrees with every match of the pattern on lines without line feeds, the only lines `split('\n')` produces; `MatchHeading` likewise.
- MarkdownParser.ParseOutline: the parser's output is a `Tree` value, not linked `Node` objects. Position and font data of the new nodes are their defaults and are not represented.
- MarkdownParser.ParseOutline never synthesizes a virtual root for several top-level items, because the code does not. The first item is always the root, and later items with no smaller earlier level become children of that root. Only the serializer knows the virtual-root label.
- RoundTrip.ParsedStable: excludes a root labelled `__virtual_root__`. A text whose first item carries that label, with two children at the next level, is written back as two top-level lines, which parse as one node with one child; the text changes. Such an input needs the reserved label typed literally.
- RoundTrip.StrictParseStable: excludes a root labelled `__virtual_root__`, for the same reason.
- RoundTrip.RoundTrip: stated for trees whose labels are non-empty single lines without surrounding whitespace, and whose root is not labelled as the virtual root. Other labels do not survive `strip()` or line splitting, and a virtual root is not written.
- MindMaps.MindMap: the root is held as a `Tree` value, a snapshot of the node and its subtree. Changes made through other references to the same `Node` objects (aliasing) are not captured.
- Nodes.Arena.AddChild: requires the store to be consistent, which every operation keeps. On an inconsistent store, Python's `list.remove` would raise `ValueError`; that error path is not modelled.
- Nodes.AddChildMap does not check for cycles, like the source. Its properties are stated without assuming the result is a tree.
- MindMaps.AllNodes, MindMaps.MindMap.CollectNodes, TreeToMarkdown.NodeLines, TreeToMarkdown.ConvertNode and NodeItems.CheckRecursive work on finite `Tree` values, which cannot be cyclic. In the source, `a.add_child(b)` followed by `b.add_child(a)` makes a cycle of `Node` objects. `_collect_nodes`, `_convert_node` and `check_recursive` then recurse until Python raises `RecursionError`. That failure is not modelled.
- No function reads a `Tree` out of a `Nodes.Arena`. The store and the tree values are two separate views of nodes, and the model does not connect them.
- NodeItems.NodeItem: `node` is a `Tree` value, a snapshot taken when the item is drawn. Like `MindMaps.MindMap`'s root, it does not follow later changes made through other references.

## Findings

| source | as written | input that shows it | evidently intended | confidence | as-written member | corrected member |
|---|---|---|---|---|---|---|
| src/parser/markdown_parser.py:19 | The label group `(.+)` also accepts whitespace only. Stripped, it gives the empty label, which `_convert_node` writes as `- `, a line the pattern rejects. | The text `-  ` (a marker and two spaces) parses to one node with the empty label. That node is written as `- `, which parses to nothing, so the written text changes from `- ` to the empty text. | A list or heading line whose label strips to nothing is not an item. Then every parsed tree, except one whose root is labelled as the virtual root, survives serializing, parsing and serializing again. | not executed | MarkdownParser.ParseOutline, RoundTrip.EmptyLabelBreaksRoundTrip | MarkdownParser.ParseOutlineStrict, RoundTrip.StrictParseStable |

The rest of the model keeps `ParseOutline`, the reading as written. `ParseOutlineStrict` is the corrected reading; `StrictParseStable` proves the intended property for it.
