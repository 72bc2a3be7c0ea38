/**
 * The node model of the mind map (src/domain/node.py).
 *
 * A node has an identity, a label, an optional parent and an ordered list of
 * children, plus presentation data (position, font size, font colour) that the
 * core carries but never interprets.
 *
 * Two views are given:
 *  - `Arena`, the mutable store: every node record is kept in a map from
 *    identity to record, so the parent pointer and the child lists are plain
 *    identities and `AddChild` / `RemoveChild` update up to three records in place;
 *  - `Tree`, the value of one node together with everything below it, which is
 *    what the traversals (pre-order collection, serialisation, the descendant
 *    test) and the parser work on.
 */
module Nodes {
  import opened Wrappers

  /** Node identities: drawn from a counter, never reused. */
  type Id = nat

  // ---------------------------------------------------------------------------
  // Trees as values
  // ---------------------------------------------------------------------------

  /** A node and, recursively, its children in list order. */
  datatype Tree = Node(id: Id, text: string, children: seq<Tree>)

  /** The number of nodes in a tree. */
  function Size(t: Tree): (r: nat)
    ensures r >= 1
  {
    1 + SizeAll(t.children)
  }

  function SizeAll(ts: seq<Tree>): nat {
    if ts == [] then 0 else Size(ts[0]) + SizeAll(ts[1..])
  }

  /** The nodes of a tree in pre-order: the node, then each child's subtree in list order. */
  function PreOrder(t: Tree): (r: seq<Tree>)
    ensures |r| == Size(t) && r[0] == t
  {
    [t] + PreOrderAll(t.children)
  }

  function PreOrderAll(ts: seq<Tree>): (r: seq<Tree>)
    ensures |r| == SizeAll(ts)
  {
    if ts == [] then [] else PreOrder(ts[0]) + PreOrderAll(ts[1..])
  }

  /** `x` is `t` itself or lies in the subtree of one of `t`'s children. */
  ghost predicate InSubtree(x: Tree, t: Tree)
    decreases t
  {
    x == t || exists i :: 0 <= i < |t.children| && InSubtree(x, t.children[i])
  }

  /** The pre-order walk visits exactly the nodes of the subtree. */
  lemma {:induction false} PreOrderMembers(t: Tree, x: Tree)
    ensures x in PreOrder(t) <==> InSubtree(x, t)
    decreases t, 1
  {
    PreOrderAllMembers(t.children, x);
  }

  lemma {:induction false} PreOrderAllMembers(ts: seq<Tree>, x: Tree)
    ensures x in PreOrderAll(ts) <==> exists i :: 0 <= i < |ts| && InSubtree(x, ts[i])
    decreases ts, 0
  {
    if ts != [] {
      PreOrderMembers(ts[0], x);
      PreOrderAllMembers(ts[1..], x);
      if exists i :: 0 <= i < |ts| && InSubtree(x, ts[i]) {
        var i :| 0 <= i < |ts| && InSubtree(x, ts[i]);
        if i > 0 {
          assert ts[1..][i - 1] == ts[i];
        }
      }
      if exists i :: 0 <= i < |ts[1..]| && InSubtree(x, ts[1..][i]) {
        var i :| 0 <= i < |ts[1..]| && InSubtree(x, ts[1..][i]);
        assert ts[1..][i] == ts[i + 1];
      }
    }
  }

  /** The walk of one more sibling appends that sibling's walk. */
  lemma {:induction false} PreOrderAllSnoc(ts: seq<Tree>, i: nat)
    requires i < |ts|
    ensures PreOrderAll(ts[..i + 1]) == PreOrderAll(ts[..i]) + PreOrder(ts[i])
  {
    if i == 0 {
      assert ts[..1] == [ts[0]];
      assert PreOrderAll([ts[0]]) == PreOrder(ts[0]) + PreOrderAll([]);
    } else {
      assert ts[..i + 1][1..] == ts[1..][..i];
      assert ts[..i][1..] == ts[1..][..i - 1];
      PreOrderAllSnoc(ts[1..], i - 1);
    }
  }

  /** A tree with its identities erased: what "same shape and labels" compares. */
  datatype Outline = Outline(text: string, kids: seq<Outline>)

  function Shape(t: Tree): Outline {
    Outline(t.text, Shapes(t.children))
  }

  function Shapes(ts: seq<Tree>): (r: seq<Outline>)
    ensures |r| == |ts|
  {
    if ts == [] then [] else [Shape(ts[0])] + Shapes(ts[1..])
  }

  // ---------------------------------------------------------------------------
  // The arena of node records
  // ---------------------------------------------------------------------------

  /** The fields of one `Node` object. */
  datatype NodeRec = NodeRec(
    text: string,
    parent: Option<Id>,
    children: seq<Id>,
    position: (int, int),
    fontSize: Option<int>,
    fontColor: Option<string>)

  /** The record of a freshly constructed node: no parent, no children, position (0, 0). */
  function NewRec(text: string, fontSize: Option<int>, fontColor: Option<string>): NodeRec {
    NodeRec(text, None, [], (0, 0), fontSize, fontColor)
  }

  predicate NoDup(s: seq<Id>) {
    forall i, j :: 0 <= i < j < |s| ==> s[i] != s[j]
  }

  /** The parent pointers and the child lists agree: `x.parent == p` exactly when
      `x` occurs in `p.children`, and no child list repeats a node. */
  ghost predicate Consistent(m: map<Id, NodeRec>) {
    ParentsListed(m) && ListsWithoutRepeats(m) && ChildrenPointBack(m)
  }

  /** A node with a parent occurs in that parent's child list. */
  ghost predicate ParentsListed(m: map<Id, NodeRec>) {
    forall x {:trigger m[x].parent} :: x in m && m[x].parent.Some? ==>
      m[x].parent.value in m && x in m[m[x].parent.value].children
  }

  ghost predicate ListsWithoutRepeats(m: map<Id, NodeRec>) {
    forall p :: p in m ==> NoDup(m[p].children)
  }

  /** A node listed as a child records that parent. */
  ghost predicate ChildrenPointBack(m: map<Id, NodeRec>) {
    forall p, y :: p in m && y in m[p].children ==> y in m && m[y].parent == Some(p)
  }

  /** Python's `list.remove(x)` when `x` is present: the first occurrence is deleted. */
  function RemoveFirst(s: seq<Id>, x: Id): (r: seq<Id>)
    ensures x !in s ==> r == s
    ensures x in s ==> |r| == |s| - 1
    ensures forall y :: y != x ==> (y in r <==> y in s)
  {
    if s == [] then []
    else if s[0] == x then s[1..]
    else [s[0]] + RemoveFirst(s[1..], x)
  }

  /** `list.index(x)`: the position of the first occurrence. */
  function FirstIndex(s: seq<Id>, x: Id): (i: nat)
    requires x in s
    ensures i < |s| && s[i] == x && x !in s[..i]
  {
    if s[0] == x then 0
    else
      var i := FirstIndex(s[1..], x);
      assert s[..i + 1] == [s[0]] + s[1..][..i];
      i + 1
  }

  /** `list.remove(x)` deletes the first occurrence of `x` and keeps the rest in order. */
  lemma {:induction false} RemoveFirstSplits(s: seq<Id>, x: Id)
    requires x in s
    ensures RemoveFirst(s, x) == s[..FirstIndex(s, x)] + s[FirstIndex(s, x) + 1..]
  {
    if s[0] != x {
      var t := s[1..];
      RemoveFirstSplits(t, x);
      var i := FirstIndex(t, x);
      assert s[..i + 1] == [s[0]] + t[..i];
      assert s[i + 2..] == t[i + 1..];
    }
  }

  /** On a list without repeats, `remove` deletes the only occurrence. */
  lemma {:induction false} RemoveFirstNoDup(s: seq<Id>, x: Id)
    requires NoDup(s)
    ensures NoDup(RemoveFirst(s, x)) && x !in RemoveFirst(s, x)
  {
    if s != [] && s[0] != x {
      assert NoDup(s[1..]);
      RemoveFirstNoDup(s[1..], x);
      assert s[0] !in s[1..];
    } else if s != [] {
      assert NoDup(s[1..]);
      assert s[0] !in s[1..];
    }
  }

  /** `p.add_child(c)`: detach `c` from its current parent, append it to `p`'s
      list unless it is already there, and make `p` its parent. No cycle check. */
  function AddChildMap(m: map<Id, NodeRec>, p: Id, c: Id): (r: map<Id, NodeRec>)
    requires p in m && c in m
    ensures r.Keys == m.Keys
    ensures r[c].parent == Some(p) && c in r[p].children
  {
    var m2 := AppendChild(DetachFromParent(m, c), p, c);
    m2[c := m2[c].(parent := Some(p))]
  }

  /** `child._parent._children.remove(child)` when `child` has a parent. */
  function DetachFromParent(m: map<Id, NodeRec>, c: Id): (m1: map<Id, NodeRec>)
    requires c in m
    ensures m1.Keys == m.Keys
    ensures forall x :: x in m && m[c].parent != Some(x) ==> m1[x] == m[x]
    ensures forall x :: x in m && m[c].parent == Some(x) ==>
              m1[x] == m[x].(children := RemoveFirst(m[x].children, c))
  {
    var q := m[c].parent;
    if q.Some? && q.value in m
    then m[q.value := m[q.value].(children := RemoveFirst(m[q.value].children, c))]
    else m
  }

  /** `if child not in self._children: self._children.append(child)`. */
  function AppendChild(m: map<Id, NodeRec>, p: Id, c: Id): (m2: map<Id, NodeRec>)
    requires p in m
    ensures m2.Keys == m.Keys
    ensures forall x :: x in m && x != p ==> m2[x] == m[x]
    ensures m2[p] == if c in m[p].children then m[p] else m[p].(children := m[p].children + [c])
  {
    if c in m[p].children then m else m[p := m[p].(children := m[p].children + [c])]
  }

  /** `p.remove_child(c)`: only an actual child is removed, and its parent cleared. */
  function RemoveChildMap(m: map<Id, NodeRec>, p: Id, c: Id): (r: map<Id, NodeRec>)
    requires p in m && c in m
    ensures r.Keys == m.Keys
    ensures c in m[p].children ==> r[c].parent == None
    ensures c !in m[p].children ==> r == m
  {
    if c in m[p].children then
      var m1 := m[p := m[p].(children := RemoveFirst(m[p].children, c))];
      m1[c := m1[c].(parent := None)]
    else m
  }

  /** Two records carry the same label and presentation data. */
  predicate SameData(a: NodeRec, b: NodeRec) {
    a.text == b.text && a.position == b.position && a.fontSize == b.fontSize && a.fontColor == b.fontColor
  }

  /** The state after moving `c` under `p`, as `add_child` leaves it: `c` is last in
      `p`'s list (and nowhere else in it) with parent `p`; a different old parent has
      lost it; labels, presentation data and every other node are untouched. */
  ghost predicate MovedUnder(m: map<Id, NodeRec>, m': map<Id, NodeRec>, p: Id, c: Id)
    requires p in m && c in m
  {
    && m'.Keys == m.Keys
    && m'[c].parent == Some(p)
    && m'[p].children == RemoveFirst(m[p].children, c) + [c]
    && (forall q :: q in m && q != p && m[c].parent == Some(q) ==>
          m'[q].children == RemoveFirst(m[q].children, c))
    && (c != p && m[c].parent != Some(c) ==> m'[c].children == m[c].children)
    && (forall x :: x in m && x != p && x != c && m[c].parent != Some(x) ==> m'[x] == m[x])
    && (forall x :: x in m && x != c ==> m'[x].parent == m[x].parent)
    && (forall x :: x in m ==> SameData(m'[x], m[x]))
  }

  /** What `add_child` does, on a consistent store. */
  lemma AddChildEffect(m: map<Id, NodeRec>, p: Id, c: Id)
    requires Consistent(m) && p in m && c in m
    ensures MovedUnder(m, AddChildMap(m, p, c), p, c)
  {
    AddChildMoves(m, p, c);
    AddChildAppends(m, p, c);
    AddChildFrame(m, p, c);
  }

  /** The records `add_child` changes: `c` and `c`'s old parent. */
  lemma AddChildMoves(m: map<Id, NodeRec>, p: Id, c: Id)
    requires p in m && c in m
    ensures var m' := AddChildMap(m, p, c);
      && m'.Keys == m.Keys
      && m'[c].parent == Some(p)
      && (forall q :: q in m && q != p && m[c].parent == Some(q) ==>
            m'[q].children == RemoveFirst(m[q].children, c))
      && (c != p && m[c].parent != Some(c) ==> m'[c].children == m[c].children)
  {
  }

  /** On a consistent store, `c` ends up last in `p`'s list and nowhere else in it. */
  lemma AddChildAppends(m: map<Id, NodeRec>, p: Id, c: Id)
    requires Consistent(m) && p in m && c in m
    ensures AddChildMap(m, p, c)[p].children == RemoveFirst(m[p].children, c) + [c]
  {
    var m1 := DetachFromParent(m, c);
    var m2 := AppendChild(m1, p, c);
    RemoveFirstNoDup(m[p].children, c);
    assert c !in m1[p].children by {
      if m[c].parent == Some(p) {
        assert m1[p].children == RemoveFirst(m[p].children, c);
      } else {
        assert c !in m[p].children;
      }
    }
    assert m2[p].children == m1[p].children + [c];
  }

  /** The records `add_child` leaves alone, and the data it never touches. */
  lemma AddChildFrame(m: map<Id, NodeRec>, p: Id, c: Id)
    requires p in m && c in m
    ensures var m' := AddChildMap(m, p, c);
      && (forall x :: x in m && x != p && x != c && m[c].parent != Some(x) ==> m'[x] == m[x])
      && (forall x :: x in m && x != c ==> m'[x].parent == m[x].parent)
      && (forall x :: x in m ==> SameData(m'[x], m[x]))
  {
  }

  /** After `add_child`, `c` is in `p`'s list exactly once and in no other list. */
  lemma AddChildPlacement(m: map<Id, NodeRec>, m': map<Id, NodeRec>, p: Id, c: Id)
    requires Consistent(m) && p in m && c in m && MovedUnder(m, m', p, c)
    ensures m'[p].children[|m'[p].children| - 1] == c
    ensures NoDup(m'[p].children)
    ensures forall x :: x in m' && x != p ==> c !in m'[x].children
  {
    RemoveFirstNoDup(m[p].children, c);
    var s := RemoveFirst(m[p].children, c);
    assert m'[p].children == s + [c];
    forall x | x in m' && x != p ensures c !in m'[x].children {
      if m[c].parent == Some(x) {
        RemoveFirstNoDup(m[x].children, c);
      } else if x == c {
        assert c !in m[c].children;
      } else {
        assert c !in m[x].children;
      }
    }
  }

  /** Moving a node keeps the parent pointers and child lists in agreement: the
      invariant `add_child` preserves. */
  lemma MoveConsistent(m: map<Id, NodeRec>, m': map<Id, NodeRec>, p: Id, c: Id)
    requires Consistent(m) && p in m && c in m && MovedUnder(m, m', p, c)
    ensures Consistent(m')
  {
    AddChildPlacement(m, m', p, c);
    MoveParentsListed(m, m', p, c);
    assert MoveDone(m, m', p, c);
    MoveChildrenPointBack(m, m', p, c);
    forall p' | p' in m' ensures NoDup(m'[p'].children) {
      if p' != p && m[c].parent == Some(p') {
        RemoveFirstNoDup(m[p'].children, c);
      }
    }
  }

  lemma {:induction false} MoveParentsListed(m: map<Id, NodeRec>, m': map<Id, NodeRec>, p: Id, c: Id)
    requires Consistent(m) && p in m && c in m && MovedUnder(m, m', p, c)
    ensures ParentsListed(m')
  {
    forall x | x in m' && m'[x].parent.Some?
      ensures m'[x].parent.value in m' && x in m'[m'[x].parent.value].children
    {
      if x != c {
        var px := m[x].parent.value;
        assert x in m[px].children;
        if px == p {
          assert x in RemoveFirst(m[p].children, c);
        } else if m[c].parent == Some(px) {
          assert x in RemoveFirst(m[px].children, c);
        } else if px == c {
          assert m'[c].children == m[c].children;
        }
      }
    }
  }

  lemma {:induction false} MoveChildrenPointBack(m: map<Id, NodeRec>, m': map<Id, NodeRec>, p: Id, c: Id)
    requires MoveDone(m, m', p, c)
    ensures ChildrenPointBack(m')
  {
    forall p' | p' in m'
      ensures forall y :: y in m'[p'].children ==> y in m' && m'[y].parent == Some(p')
    {
      MovedListPointsBack(m, m', p, c, p');
    }
  }

  lemma MovedListPointsBack(m: map<Id, NodeRec>, m': map<Id, NodeRec>, p: Id, c: Id, p': Id)
    requires MoveDone(m, m', p, c) && p' in m'
    ensures forall y :: y in m'[p'].children ==> y in m' && m'[y].parent == Some(p')
  {
    forall y | y in m'[p'].children
      ensures y in m' && m'[y].parent == Some(p')
    {
      MovedChildPointsBack(m, m', p, c, p', y);
    }
  }

  /** What the point-back half of the proof needs of a move from a consistent store:
      children pointed back before, `c` moved from its old parent's list to the end of
      `p`'s list and into no other, and every other record and parent pointer is kept. */
  ghost predicate MoveDone(m: map<Id, NodeRec>, m': map<Id, NodeRec>, p: Id, c: Id) {
    && ChildrenPointBack(m) && p in m && c in m
    && m'.Keys == m.Keys
    && m'[c].parent == Some(p)
    && m'[p].children == RemoveFirst(m[p].children, c) + [c]
    && (forall q :: q in m && q != p && m[c].parent == Some(q) ==>
          m'[q].children == RemoveFirst(m[q].children, c))
    && (forall x :: x in m && x != p && x != c && m[c].parent != Some(x) ==> m'[x] == m[x])
    && (forall x :: x in m && x != c ==> m'[x].parent == m[x].parent)
    && (c != p && m[c].parent != Some(c) ==> m'[c].children == m[c].children)
    && (forall x :: x in m' && x != p ==> c !in m'[x].children)
  }

  /** A child other than the moved node was in the same list before the move; the
      moved node is only in `p`'s list. */
  lemma MovedChildPointsBack(m: map<Id, NodeRec>, m': map<Id, NodeRec>, p: Id, c: Id, p': Id, y: Id)
    requires MoveDone(m, m', p, c)
    requires p' in m' && y in m'[p'].children
    ensures y in m' && m'[y].parent == Some(p')
  {
    if y == c {
      assert p' == p;
      return;
    }
    assert p' in m;
    assert y in m[p'].children by {
      if p' == p {
        assert y in RemoveFirst(m[p].children, c);
      } else if m[c].parent == Some(p') {
        assert y in RemoveFirst(m[p'].children, c);
      }
    }
    assert y in m && m[y].parent == Some(p');
  }

  /** `add_child` keeps the parent pointers and child lists in agreement. */
  lemma AddChildConsistent(m: map<Id, NodeRec>, p: Id, c: Id)
    requires Consistent(m) && p in m && c in m
    ensures Consistent(AddChildMap(m, p, c))
  {
    AddChildEffect(m, p, c);
    MoveConsistent(m, AddChildMap(m, p, c), p, c);
  }

  /** The state after `remove_child` detached an actual child `c` from `p`. */
  ghost predicate Detached(m: map<Id, NodeRec>, m': map<Id, NodeRec>, p: Id, c: Id)
    requires p in m && c in m
  {
    && m'.Keys == m.Keys
    && m'[p].children == RemoveFirst(m[p].children, c)
    && m'[c].parent == None
    && (c != p ==> m'[c].children == m[c].children && m'[p].parent == m[p].parent)
    && (forall x :: x in m && x != p && x != c ==> m'[x] == m[x])
    && (forall x :: x in m ==> SameData(m'[x], m[x]))
  }

  /** What `remove_child` does: an actual child is deleted from the list and its parent
      cleared; on anything else the store is unchanged. */
  lemma RemoveChildEffect(m: map<Id, NodeRec>, p: Id, c: Id)
    requires Consistent(m) && p in m && c in m
    ensures c in m[p].children ==> Detached(m, RemoveChildMap(m, p, c), p, c)
    ensures c !in m[p].children ==> RemoveChildMap(m, p, c) == m
  {
  }

  /** Detaching a child keeps the parent pointers and child lists in agreement. */
  lemma {:induction false} DetachConsistent(m: map<Id, NodeRec>, m': map<Id, NodeRec>, p: Id, c: Id)
    requires Consistent(m) && p in m && c in m && c in m[p].children && Detached(m, m', p, c)
    ensures Consistent(m')
    ensures forall x :: x in m' ==> c !in m'[x].children
  {
    DetachLeavesNoTrace(m, m', p, c);
    DetachParentsListed(m, m', p, c);
    DetachChildrenPointBack(m, m', p, c);
  }

  lemma {:induction false} DetachLeavesNoTrace(m: map<Id, NodeRec>, m': map<Id, NodeRec>, p: Id, c: Id)
    requires Consistent(m) && p in m && c in m && c in m[p].children && Detached(m, m', p, c)
    ensures ListsWithoutRepeats(m')
    ensures forall x :: x in m' ==> c !in m'[x].children
  {
    RemoveFirstNoDup(m[p].children, c);
    forall x | x in m' ensures c !in m'[x].children && NoDup(m'[x].children) {
      if x == p {
      } else if x == c {
        assert m'[c].children == m[c].children;
        assert c !in m[c].children by {
          if c in m[c].children {
            assert false;
          }
        }
      } else {
        assert m'[x] == m[x];
        assert c !in m[x].children by {
          if c in m[x].children {
            assert false;
          }
        }
      }
    }
  }

  lemma {:induction false} DetachChildrenPointBack(m: map<Id, NodeRec>, m': map<Id, NodeRec>, p: Id, c: Id)
    requires Consistent(m) && p in m && c in m && c in m[p].children && Detached(m, m', p, c)
    requires forall x :: x in m' ==> c !in m'[x].children
    ensures ChildrenPointBack(m')
  {
    forall p', y | p' in m' && y in m'[p'].children
      ensures y in m' && m'[y].parent == Some(p')
    {
      DetachedChildPointsBack(m, m', p, c, p', y);
    }
  }

  /** A child left in some list after `remove_child` was in that list before. */
  lemma DetachedChildPointsBack(m: map<Id, NodeRec>, m': map<Id, NodeRec>, p: Id, c: Id, p': Id, y: Id)
    requires Consistent(m) && p in m && c in m && c in m[p].children && Detached(m, m', p, c)
    requires p' in m' && y in m'[p'].children && y != c
    ensures y in m' && m'[y].parent == Some(p')
  {
    assert y in m[p'].children by {
      if p' == p {
        assert y in RemoveFirst(m[p].children, c);
      } else if p' == c {
        assert m'[c].children == m[c].children;
      } else {
        assert m'[p'] == m[p'];
      }
    }
    assert m[y].parent == Some(p');
    if y == p {
      assert m'[p].parent == m[p].parent;
    } else {
      assert m'[y] == m[y];
    }
  }

  lemma {:induction false} DetachParentsListed(m: map<Id, NodeRec>, m': map<Id, NodeRec>, p: Id, c: Id)
    requires Consistent(m) && p in m && c in m && c in m[p].children && Detached(m, m', p, c)
    ensures ParentsListed(m')
  {
    forall x | x in m' && m'[x].parent.Some?
      ensures m'[x].parent.value in m' && x in m'[m'[x].parent.value].children
    {
      var px := m[x].parent.value;
      assert x in m[px].children;
      if px == p {
        assert x in RemoveFirst(m[p].children, c);
      }
    }
  }

  /** `remove_child` keeps the parent pointers and child lists in agreement. */
  lemma RemoveChildConsistent(m: map<Id, NodeRec>, p: Id, c: Id)
    requires Consistent(m) && p in m && c in m
    ensures Consistent(RemoveChildMap(m, p, c))
  {
    RemoveChildEffect(m, p, c);
    if c in m[p].children {
      DetachConsistent(m, RemoveChildMap(m, p, c), p, c);
    }
  }

  /** The mutable store of all `Node` objects. */
  class Arena {
    /** Every node's record, by identity. */
    var nodes: map<Id, NodeRec>
    /** The next identity to hand out; larger than every identity in use. */
    var nextId: Id

    ghost predicate Valid()
      reads this
    {
      Consistent(nodes) && forall x :: x in nodes ==> x < nextId
    }

    constructor ()
      ensures Valid() && nodes == map[]
    {
      nodes := map[];
      nextId := 0;
    }

    /** `Node(text, font_size, font_color)`: a fresh identity, no parent, no children, position (0, 0). */
    method NewNode(text: string, fontSize: Option<int>, fontColor: Option<string>) returns (id: Id)
      requires Valid()
      modifies this
      ensures Valid()
      ensures id !in old(nodes)
      ensures nodes == old(nodes)[id := NewRec(text, fontSize, fontColor)]
    {
      id := nextId;
      nodes := nodes[id := NewRec(text, fontSize, fontColor)];
      nextId := nextId + 1;
    }

    /** `p.add_child(c)`. */
    method AddChild(p: Id, c: Id)
      requires Valid() && p in nodes && c in nodes
      modifies this
      ensures Valid()
      ensures nodes == AddChildMap(old(nodes), p, c) && nextId == old(nextId)
    {
      AddChildConsistent(nodes, p, c);
      AddChildEffect(nodes, p, c);
      var q := nodes[c].parent;
      if q.Some? {
        nodes := nodes[q.value := nodes[q.value].(children := RemoveFirst(nodes[q.value].children, c))];
      }
      if c !in nodes[p].children {
        nodes := nodes[p := nodes[p].(children := nodes[p].children + [c])];
      }
      nodes := nodes[c := nodes[c].(parent := Some(p))];
    }

    /** `p.remove_child(c)`. */
    method RemoveChild(p: Id, c: Id)
      requires Valid() && p in nodes && c in nodes
      modifies this
      ensures Valid()
      ensures nodes == RemoveChildMap(old(nodes), p, c) && nextId == old(nextId)
    {
      RemoveChildConsistent(nodes, p, c);
      if c in nodes[p].children {
        nodes := nodes[p := nodes[p].(children := RemoveFirst(nodes[p].children, c))];
        nodes := nodes[c := nodes[c].(parent := None)];
      }
    }

    /** The `children` property: a copy of the list, so the caller cannot change the node through it. */
    method Children(p: Id) returns (cs: seq<Id>)
      requires p in nodes
      ensures cs == nodes[p].children
    {
      cs := nodes[p].children;
    }

    /** The `text` setter. */
    method SetText(x: Id, value: string)
      requires Valid() && x in nodes
      modifies this
      ensures Valid() && nextId == old(nextId)
      ensures nodes == old(nodes)[x := old(nodes)[x].(text := value)]
    {
      nodes := nodes[x := nodes[x].(text := value)];
    }

    /** The `font_size` setter. */
    method SetFontSize(x: Id, value: Option<int>)
      requires Valid() && x in nodes
      modifies this
      ensures Valid() && nextId == old(nextId)
      ensures nodes == old(nodes)[x := old(nodes)[x].(fontSize := value)]
    {
      nodes := nodes[x := nodes[x].(fontSize := value)];
    }

    /** The `font_color` setter. */
    method SetFontColor(x: Id, value: Option<string>)
      requires Valid() && x in nodes
      modifies this
      ensures Valid() && nextId == old(nextId)
      ensures nodes == old(nodes)[x := old(nodes)[x].(fontColor := value)]
    {
      nodes := nodes[x := nodes[x].(fontColor := value)];
    }

    /** `set_position(x, y)`. */
    method SetPosition(n: Id, x: int, y: int)
      requires Valid() && n in nodes
      modifies this
      ensures Valid() && nextId == old(nextId)
      ensures nodes == old(nodes)[n := old(nodes)[n].(position := (x, y))]
    {
      nodes := nodes[n := nodes[n].(position := (x, y))];
    }
  }
}
