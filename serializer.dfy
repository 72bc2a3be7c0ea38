/**
 * The serializer (src/parser/tree_to_markdown.py): a tree becomes an indented
 * Markdown list, one line per node in pre-order, two spaces of indentation per
 * level of depth. A root labelled with the virtual-root marker is not written
 * itself; its children are written at depth 0.
 */
module TreeToMarkdown {
  import opened Wrappers
  import opened Strings
  import opened Nodes
  import opened Seqs

  /** The label of the synthetic root that stands for several top-level trees. */
  const VirtualRootLabel: string := "__virtual_root__"

  /** `"  " * depth` */
  function Indent(depth: nat): (r: string)
    ensures |r| == 2 * depth
    ensures forall k :: 0 <= k < |r| ==> r[k] == ' '
  {
    var r := Repeat("  ", depth);
    assert forall k :: 0 <= k < |r| ==> r[k] in "  ";
    r
  }

  /** `f"{indent}- {node.text}"` */
  function Render(depth: nat, text: string): (r: string)
    ensures |r| == 2 * depth + 2 + |text|
    ensures r[2 * depth] == '-' && r[2 * depth + 1] == ' '
    ensures r[2 * depth + 2..] == text
  {
    Indent(depth) + "- " + text
  }

  /** `_convert_node`: the lines of a subtree, the node first, then each child's
      subtree one level deeper. */
  function NodeLines(t: Tree, depth: nat): (r: seq<string>)
    ensures |r| == Size(t)
    ensures r[0] == Render(depth, t.text)
  {
    [Render(depth, t.text)] + ChildLines(t.children, depth + 1)
  }

  function ChildLines(ts: seq<Tree>, depth: nat): (r: seq<string>)
    ensures |r| == SizeAll(ts)
  {
    if ts == [] then [] else NodeLines(ts[0], depth) + ChildLines(ts[1..], depth)
  }

  /** The lines `convert` collects for a root. */
  function RootLines(root: Tree): (r: seq<string>)
    ensures root.text == VirtualRootLabel ==> |r| == SizeAll(root.children)
    ensures root.text != VirtualRootLabel ==> |r| == Size(root) && r[0] == Render(0, root.text)
  {
    if root.text == VirtualRootLabel then ChildLines(root.children, 0) else NodeLines(root, 0)
  }

  /** `convert`: the empty text for no tree, else the collected lines joined by line feeds. */
  function Convert(root: Option<Tree>): (r: string)
    ensures root.None? ==> r == ""
  {
    match root
    case None => ""
    case Some(t) => Join(RootLines(t))
  }

  lemma {:induction false} ChildLinesSnoc(ts: seq<Tree>, i: nat, depth: nat)
    requires i < |ts|
    ensures ChildLines(ts[..i + 1], depth) == ChildLines(ts[..i], depth) + NodeLines(ts[i], depth)
  {
    if i == 0 {
      assert ts[..1] == [ts[0]];
      assert ChildLines([ts[0]], depth) == NodeLines(ts[0], depth) + ChildLines([], depth);
    } else {
      assert ts[..i + 1][1..] == ts[1..][..i];
      assert ts[..i][1..] == ts[1..][..i - 1];
      ChildLinesSnoc(ts[1..], i - 1, depth);
    }
  }

  /** `_convert_node`, appending to the caller's list of lines. */
  method ConvertNode(node: Tree, depth: nat, lines: seq<string>) returns (out: seq<string>)
    ensures out == lines + NodeLines(node, depth)
    decreases node
  {
    out := lines + [Render(depth, node.text)];
    ghost var head := out;
    var i := 0;
    while i < |node.children|
      invariant 0 <= i <= |node.children|
      invariant out == head + ChildLines(node.children[..i], depth + 1)
    {
      ghost var before := ChildLines(node.children[..i], depth + 1);
      ChildLinesSnoc(node.children, i, depth + 1);
      out := ConvertNode(node.children[i], depth + 1, out);
      AppendAssoc(head, before, NodeLines(node.children[i], depth + 1));
      i := i + 1;
    }
    assert node.children[..|node.children|] == node.children;
  }

  /** `convert`. */
  method ConvertTree(root: Option<Tree>) returns (text: string)
    ensures text == Convert(root)
  {
    if root.None? {
      return "";
    }
    var t := root.value;
    var lines: seq<string> := [];
    if t.text == VirtualRootLabel {
      var i := 0;
      while i < |t.children|
        invariant 0 <= i <= |t.children|
        invariant lines == ChildLines(t.children[..i], 0)
      {
        ChildLinesSnoc(t.children, i, 0);
        lines := ConvertNode(t.children[i], 0, lines);
        i := i + 1;
      }
      assert t.children[..|t.children|] == t.children;
    } else {
      lines := ConvertNode(t, 0, lines);
      assert lines == NodeLines(t, 0);
    }
    assert lines == RootLines(t);
    text := Join(lines);
  }
}
