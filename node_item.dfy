/**
 * The part of the drag-and-drop item (src/presentation/node_item.py) that decides
 * where a dragged node may be dropped: the descendant test and the choice of the
 * hover target among the scene items under the pointer. Painting, highlighting
 * and the Qt event plumbing are not modelled.
 */
module NodeItems {
  import opened Wrappers
  import opened Nodes

  /** `check_recursive(current)`: the current node is the target, or some child's
      subtree holds it; children are tried in list order and the first hit wins.
      Nodes are compared by identity. */
  function CheckRecursive(current: Tree, target: Tree): (r: bool)
    ensures current.id == target.id ==> r
    ensures current.children == [] ==> (r <==> current.id == target.id)
    decreases current, 1
  {
    current.id == target.id || CheckChildren(current.children, target)
  }

  /** The `for child in current.children` loop of `check_recursive`. */
  function CheckChildren(ts: seq<Tree>, target: Tree): (r: bool)
    ensures r <==> exists i :: 0 <= i < |ts| && CheckRecursive(ts[i], target)
    decreases ts, 0
  {
    if ts == [] then false
    else
      assert forall i :: 1 <= i < |ts| ==> ts[i] == ts[1..][i - 1];
      CheckRecursive(ts[0], target) || CheckChildren(ts[1..], target)
  }

  /** `_is_descendant(node)`: whether `node` is in the subtree of the dragged node,
      the dragged node itself included. */
  function IsDescendant(dragged: Tree, node: Tree): (r: bool)
    ensures dragged.id == node.id ==> r
  {
    CheckRecursive(dragged, node)
  }

  /** The search answers yes exactly when some node of the subtree has the target's
      identity. */
  lemma {:induction false} CheckRecursiveFinds(current: Tree, target: Tree)
    ensures CheckRecursive(current, target) <==> exists x :: InSubtree(x, current) && x.id == target.id
    decreases current, 1
  {
    CheckChildrenFinds(current.children, target);
    if exists x :: InSubtree(x, current) && x.id == target.id {
      var x :| InSubtree(x, current) && x.id == target.id;
      if x != current {
        var i :| 0 <= i < |current.children| && InSubtree(x, current.children[i]);
        assert InSubtree(x, current.children[i]) && x.id == target.id;
      }
    }
    if CheckChildren(current.children, target) {
      var i, x :| 0 <= i < |current.children| && InSubtree(x, current.children[i]) && x.id == target.id;
      assert InSubtree(x, current);
    }
  }

  lemma {:induction false} CheckChildrenFinds(ts: seq<Tree>, target: Tree)
    ensures CheckChildren(ts, target) <==>
            exists i, x :: 0 <= i < |ts| && InSubtree(x, ts[i]) && x.id == target.id
    decreases ts, 0
  {
    if ts != [] {
      CheckRecursiveFinds(ts[0], target);
      CheckChildrenFinds(ts[1..], target);
      if exists i, x :: 0 <= i < |ts| && InSubtree(x, ts[i]) && x.id == target.id {
        var i, x :| 0 <= i < |ts| && InSubtree(x, ts[i]) && x.id == target.id;
        if i > 0 {
          assert ts[1..][i - 1] == ts[i];
        }
      }
      if exists i, x :: 0 <= i < |ts[1..]| && InSubtree(x, ts[1..][i]) && x.id == target.id {
        var i, x :| 0 <= i < |ts[1..]| && InSubtree(x, ts[1..][i]) && x.id == target.id;
        assert ts[1..][i] == ts[i + 1];
      }
    }
  }

  /** The descendant test in terms of the subtree: true exactly when the node's
      identity occurs among the dragged node's subtree. */
  lemma IsDescendantIff(dragged: Tree, node: Tree)
    ensures IsDescendant(dragged, node) <==> exists x :: InSubtree(x, dragged) && x.id == node.id
  {
    CheckRecursiveFinds(dragged, node);
  }

  /** What `scene.items(pos)` yields: node items and other graphics, topmost first. */
  datatype SceneItem = NodeAt(item: NodeItem) | OtherGraphic

  /** The filter of `_update_hover_target`: a node item other than the dragged one
      whose node is not in the dragged node's subtree. */
  function CanDropOn(candidate: SceneItem, dragged: NodeItem): (r: bool)
    ensures r ==> candidate.NodeAt? && candidate.item.node.id != dragged.node.id
  {
    candidate.NodeAt? && candidate.item != dragged && !IsDescendant(dragged.node, candidate.item.node)
  }

  /** The hover target `_update_hover_target` settles on: the first candidate that
      passes the filter, or none. */
  function FirstDropTarget(items: seq<SceneItem>, dragged: NodeItem): (r: Option<NodeItem>)
    ensures r.None? <==> forall k :: 0 <= k < |items| ==> !CanDropOn(items[k], dragged)
    ensures r.Some? ==> exists k :: 0 <= k < |items| && items[k] == NodeAt(r.value) && CanDropOn(items[k], dragged) &&
                          forall j :: 0 <= j < k ==> !CanDropOn(items[j], dragged)
  {
    if items == [] then None
    else if CanDropOn(items[0], dragged) then Some(items[0].item)
    else
      var r := FirstDropTarget(items[1..], dragged);
      assert forall k :: 1 <= k < |items| ==> items[k] == items[1..][k - 1];
      r
  }

  /** A drop target is never the dragged item, nor an item showing a node of the
      dragged node's subtree. */
  lemma DropTargetOutsideSubtree(items: seq<SceneItem>, dragged: NodeItem)
    requires FirstDropTarget(items, dragged).Some?
    ensures FirstDropTarget(items, dragged).value != dragged
    ensures forall x :: InSubtree(x, dragged.node) ==> x.id != FirstDropTarget(items, dragged).value.node.id
  {
    var t := FirstDropTarget(items, dragged).value;
    var k :| 0 <= k < |items| && items[k] == NodeAt(t) && CanDropOn(items[k], dragged);
    IsDescendantIff(dragged.node, t.node);
  }

  /** A node as drawn in the scene, with the drop target it currently offers. */
  class NodeItem {
    const node: Tree
    const depth: nat
    var hoverTarget: Option<NodeItem>

    constructor (node: Tree, depth: nat)
      ensures this.node == node && this.depth == depth && hoverTarget == None
    {
      this.node := node;
      this.depth := depth;
      hoverTarget := None;
    }

    /** `_update_hover_target`: clear the previous target, then keep the first
        candidate under the pointer that passes the filter. */
    method UpdateHoverTarget(items: seq<SceneItem>)
      modifies this
      ensures hoverTarget == FirstDropTarget(items, this)
    {
      hoverTarget := None;
      var i := 0;
      while i < |items|
        invariant 0 <= i <= |items|
        invariant hoverTarget == None
        invariant FirstDropTarget(items, this) == FirstDropTarget(items[i..], this)
      {
        var item := items[i];
        if item.NodeAt? && item.item != this {
          if !IsDescendant(node, item.item.node) {
            hoverTarget := Some(item.item);
            break;
          }
        }
        assert items[i..][1..] == items[i + 1..];
        i := i + 1;
      }
    }
  }
}
