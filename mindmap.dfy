/**
 * The mind map container (src/domain/mindmap.py): a title and an optional root
 * node. Its queries walk the root's subtree in pre-order: `get_all_nodes` lists
 * every node, `find_node_by_id` returns the first node with a given identity.
 */
module MindMaps {
  import opened Wrappers
  import opened Nodes
  import opened Seqs

  /** The title of a map created without one. */
  const DefaultTitle: string := "Untitled"

  /** What `get_all_nodes` lists: nothing without a root, else the root's subtree in
      pre-order, root first. */
  function AllNodes(root: Option<Tree>): (r: seq<Tree>)
    ensures root.None? ==> r == []
    ensures root.Some? ==> |r| == Size(root.value) && r[0] == root.value
  {
    if root.None? then [] else PreOrder(root.value)
  }

  /** The first node of `ns` whose identity is `id`, if any. */
  function FindFirst(ns: seq<Tree>, id: Id): (r: Option<Tree>)
    ensures r.None? <==> forall k :: 0 <= k < |ns| ==> ns[k].id != id
    ensures r.Some? ==> r.value.id == id && r.value in ns
    ensures r.Some? ==> exists k :: 0 <= k < |ns| && ns[k] == r.value && forall j :: 0 <= j < k ==> ns[j].id != id
  {
    if ns == [] then None
    else if ns[0].id == id then Some(ns[0])
    else
      var r := FindFirst(ns[1..], id);
      assert forall k :: 1 <= k < |ns| ==> ns[k] == ns[1..][k - 1];
      r
  }

  /** The listed nodes are exactly the nodes of the root's subtree. */
  lemma AllNodesMembers(root: Tree, x: Tree)
    ensures x in AllNodes(Some(root)) <==> InSubtree(x, root)
  {
    PreOrderMembers(root, x);
  }

  /** `find_node_by_id` finds something exactly when some node of the subtree carries
      the identity, and what it finds is such a node. */
  lemma FindInSubtree(root: Tree, id: Id)
    ensures FindFirst(AllNodes(Some(root)), id).Some? <==> exists x :: InSubtree(x, root) && x.id == id
    ensures FindFirst(AllNodes(Some(root)), id).Some? ==> InSubtree(FindFirst(AllNodes(Some(root)), id).value, root)
  {
    var ns := AllNodes(Some(root));
    var r := FindFirst(ns, id);
    if r.Some? {
      AllNodesMembers(root, r.value);
    }
    if exists x :: InSubtree(x, root) && x.id == id {
      var x :| InSubtree(x, root) && x.id == id;
      AllNodesMembers(root, x);
      var k :| 0 <= k < |ns| && ns[k] == x;
      assert ns[k].id == id;
    }
  }

  class MindMap {
    var title: string
    var root: Option<Tree>

    /** `MindMap(title)`: no root yet. */
    constructor (title: string)
      ensures this.title == title && root == None
    {
      this.title := title;
      root := None;
    }

    /** `MindMap()`: the default title and no root. */
    constructor Untitled()
      ensures title == DefaultTitle && root == None
    {
      title := DefaultTitle;
      root := None;
    }

    /** The `title` setter. */
    method SetTitle(value: string)
      modifies this
      ensures title == value && root == old(root)
    {
      title := value;
    }

    /** `set_root`: replaces the root, keeps the title. */
    method SetRoot(node: Tree)
      modifies this
      ensures root == Some(node) && title == old(title)
    {
      root := Some(node);
    }

    /** `clear`: drops the root, keeps the title. */
    method Clear()
      modifies this
      ensures root == None && title == old(title)
      ensures AllNodes(root) == []
    {
      root := None;
    }

    /** `get_all_nodes`. */
    method GetAllNodes() returns (nodes: seq<Tree>)
      ensures nodes == AllNodes(root)
    {
      if root.None? {
        return [];
      }
      nodes := CollectNodes(root.value, []);
    }

    /** `_collect_nodes`: appends the node, then each child's subtree in list order. */
    method CollectNodes(node: Tree, nodes: seq<Tree>) returns (out: seq<Tree>)
      ensures out == nodes + PreOrder(node)
      decreases node
    {
      out := nodes + [node];
      ghost var head := out;
      var i := 0;
      while i < |node.children|
        invariant 0 <= i <= |node.children|
        invariant out == head + PreOrderAll(node.children[..i])
      {
        ghost var before := PreOrderAll(node.children[..i]);
        PreOrderAllSnoc(node.children, i);
        out := CollectNodes(node.children[i], out);
        AppendAssoc(head, before, PreOrder(node.children[i]));
        i := i + 1;
      }
      assert node.children[..|node.children|] == node.children;
      AppendAssoc(nodes, [node], PreOrderAll(node.children));
    }

    /** `find_node_by_id`: scans the listed nodes and returns the first match. */
    method FindNodeById(id: Id) returns (r: Option<Tree>)
      ensures r == FindFirst(AllNodes(root), id)
    {
      var all := GetAllNodes();
      var i := 0;
      while i < |all|
        invariant 0 <= i <= |all|
        invariant FindFirst(all, id) == FindFirst(all[i..], id)
      {
        if all[i].id == id {
          return Some(all[i]);
        }
        assert all[i..][1..] == all[i + 1..];
        i := i + 1;
      }
      return None;
    }
  }
}
