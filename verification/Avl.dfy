// The AVL tree of linked nodes with parent pointers.
module Avl {
  import opened Orders
  import opened Wrappers
  import opened AvlShape

  class AVLNode {
    var key: Key
    var data: Data
    var parent: AVLNode?
    var left: AVLNode?
    var right: AVLNode?
    var height: int

    constructor (parent: AVLNode?, key: Key, data: Data)
      ensures this.key == key && this.data == data && this.parent == parent
      ensures left == null && right == null && height == 1
    {
      this.key := key;
      this.data := data;
      this.parent := parent;
      left := null;
      right := null;
      height := 1;
    }
  }

  type Shape = Tree<AVLNode>

  ghost function Refs(t: Shape): set<AVLNode> {
    if t.Leaf? then {} else Refs(t.left) + {t.ref} + Refs(t.right)
  }

  // No node stands for two places of the tree.
  ghost predicate Distinct(t: Shape) {
    t.Node? ==>
      && t.ref !in Refs(t.left) && t.ref !in Refs(t.right) && Refs(t.left) !! Refs(t.right)
      && Distinct(t.left) && Distinct(t.right)
  }

  function Top(t: Shape): AVLNode? {
    if t.Leaf? then null else t.ref
  }

  // The node t.ref holds what t says; its children point back to it.
  ghost predicate Holds(t: Shape)
    requires t.Node?
    reads t.ref
  {
    && t.ref.key == t.key && t.ref.data == t.data && t.ref.height == t.height
    && t.ref.left == Top(t.left) && t.ref.right == Top(t.right)
  }

  // The nodes form the tree t under the parent p.
  ghost predicate Linked(t: Shape, p: AVLNode?)
    reads Refs(t)
  {
    t.Node? ==> Holds(t) && t.ref.parent == p && Linked(t.left, t.ref) && Linked(t.right, t.ref)
  }

  function HeightOf(a: AVLNode?): int
    reads a
  {
    if a == null then 0 else a.height
  }

  function BalanceOf(a: AVLNode): int
    reads a, a.left, a.right
  {
    HeightOf(a.left) - HeightOf(a.right)
  }

  // The node above a subtree, if any.
  ghost function Above(y: AVLNode?): set<AVLNode> {
    if y == null then {} else {y}
  }

  // One step of the links from y down to a: y's child a has become x, all else in y
  // is as before.
  twostate predicate Relinked(y: AVLNode?, a: AVLNode?, new x: AVLNode?)
    reads Above(y)
  {
    y != null ==>
      && y.left == (if old(y.left) == a then x else old(y.left))
      && y.right == (if old(y.left) != a && old(y.right) == a then x else old(y.right))
      && y.parent == old(y.parent) && y.key == old(y.key) && y.data == old(y.data) && y.height == old(y.height)
  }

  ghost predicate Hangs(a: AVLNode?, y: AVLNode?)
    reads Above(y)
  {
    y != null ==> y.left == a || y.right == a
  }

  // m keeps clear of the nodes ns, and below its top node also of that.
  ghost predicate Clear(m: Shape, ns: set<AVLNode>, all: set<AVLNode>) {
    && Refs(m) !! ns && Refs(m) <= all
    && (m.Node? ==>
      && m.ref in Refs(m)
      && Refs(m.left) <= Refs(m) && m.ref !in Refs(m.left)
      && Refs(m.right) <= Refs(m) && m.ref !in Refs(m.right))
  }

  lemma ClearOf(m: Shape, ns: set<AVLNode>, all: set<AVLNode>)
    requires Distinct(m) && Refs(m) !! ns && Refs(m) <= all
    ensures Clear(m, ns, all)
  {
  }

  lemma Subtrees(m: Shape)
    requires m.Node? && Distinct(m)
    ensures Refs(m) == Refs(m.left) + {m.ref} + Refs(m.right)
    ensures Distinct(m.left) && Distinct(m.right)
    ensures m.ref !in Refs(m.left) && m.ref !in Refs(m.right) && Refs(m.left) !! Refs(m.right)
    ensures m.left.Node? ==> m.left.ref in Refs(m.left)
    ensures m.right.Node? ==> m.right.ref in Refs(m.right)
  {
  }

  lemma RotateRightRefs(t: Shape)
    requires t.Node? && t.left.Node? && Distinct(t)
    ensures Distinct(RotateRight(t)) && Refs(RotateRight(t)) == Refs(t)
  {
  }

  lemma RotateLeftRefs(t: Shape)
    requires t.Node? && t.right.Node? && Distinct(t)
    ensures Distinct(RotateLeft(t)) && Refs(RotateLeft(t)) == Refs(t)
  {
  }

  // What a right rotation leaves alone: l and r, and what hangs below m.
  lemma RightParts(t: Shape, y: AVLNode?)
    requires t.Node? && t.left.Node? && Distinct(t) && y !in Refs(t)
    ensures var l, m, r, ns := t.left.left, t.left.right, t.right, {t.ref, t.left.ref} + Above(y);
      && t.ref != t.left.ref && t.ref in Refs(t) && t.left.ref in Refs(t)
      && Clear(l, ns, Refs(t)) && Clear(m, ns, Refs(t)) && Clear(r, ns, Refs(t)) && Refs(m) !! Refs(l)
         && Refs(m) !! Refs(r)
  {
    hide Distinct, Refs, Clear;
    var l, m, r, ns := t.left.left, t.left.right, t.right, {t.ref, t.left.ref} + Above(y);
    Subtrees(t);
    Subtrees(t.left);
    ClearOf(l, ns, Refs(t));
    ClearOf(m, ns, Refs(t));
    ClearOf(r, ns, Refs(t));
  }

  lemma LeftParts(t: Shape, y: AVLNode?)
    requires t.Node? && t.right.Node? && Distinct(t) && y !in Refs(t)
    ensures var l, m, r, ns := t.left, t.right.left, t.right.right, {t.ref, t.right.ref} + Above(y);
      && t.ref != t.right.ref && t.ref in Refs(t) && t.right.ref in Refs(t)
      && Clear(l, ns, Refs(t)) && Clear(m, ns, Refs(t)) && Clear(r, ns, Refs(t)) && Refs(m) !! Refs(l)
         && Refs(m) !! Refs(r)
  {
    hide Distinct, Refs, Clear;
    var l, m, r, ns := t.left, t.right.left, t.right.right, {t.ref, t.right.ref} + Above(y);
    Subtrees(t);
    Subtrees(t.right);
    ClearOf(l, ns, Refs(t));
    ClearOf(m, ns, Refs(t));
    ClearOf(r, ns, Refs(t));
  }

  lemma Unfold(t: Shape, p: AVLNode?)
    requires t.Node? && Linked(t, p)
    ensures Holds(t) && t.ref.parent == p && Linked(t.left, t.ref) && Linked(t.right, t.ref)
    ensures HeightOf(t.ref.left) == Height(t.left) && HeightOf(t.ref.right) == Height(t.right)
  {
  }

  lemma Fold(t: Shape, p: AVLNode?)
    requires t.Node? && Holds(t) && t.ref.parent == p && Linked(t.left, t.ref) && Linked(t.right, t.ref)
    ensures Linked(t, p) && HeightOf(Top(t)) == Height(t)
  {
  }

  // The pointer assignments of right_rotate.
  method RightLinks(a: AVLNode, x: AVLNode, t1: AVLNode?, y: AVLNode?)
    requires a.left == x && x.right == t1 && a.parent == y && a != x && t1 !in {a, x} && y !in {a, x} + Above(t1)
    requires Hangs(a, y)
    modifies a`parent, a`left, x`right, x`parent, Above(t1)`parent, Above(y)`left, Above(y)`right
    ensures a.parent == x && a.left == t1 && x.right == a && x.parent == y && (t1 != null ==> t1.parent == a)
    ensures Relinked(y, a, x)
  {
    a.parent := x;
    a.left := t1;
    x.right := a;
    x.parent := y;
    if y != null {
      if a == y.left {
        y.left := x;
      } else {
        y.right := x;
      }
    }
    if t1 != null {
      t1.parent := a;
    }
  }

  method LeftLinks(a: AVLNode, x: AVLNode, t1: AVLNode?, y: AVLNode?)
    requires a.right == x && x.left == t1 && a.parent == y && a != x && t1 !in {a, x} && y !in {a, x} + Above(t1)
    requires Hangs(a, y)
    modifies a`parent, a`right, x`left, x`parent, Above(t1)`parent, Above(y)`left, Above(y)`right
    ensures a.parent == x && a.right == t1 && x.left == a && x.parent == y && (t1 != null ==> t1.parent == a)
    ensures Relinked(y, a, x)
  {
    a.parent := x;
    a.right := t1;
    x.left := a;
    x.parent := y;
    if t1 != null {
      t1.parent := a;
    }
    if y != null {
      if a == y.left {
        y.left := x;
      } else {
        y.right := x;
      }
    }
  }

  method RightRotate(a: AVLNode, ghost t: Shape, ghost y: AVLNode?, ghost s: set<AVLNode>)
    requires t.Node? && t.left.Node? && t.ref == a && Distinct(t) && Linked(t, y)
    requires s == Refs(t) && y !in s && Hangs(a, y)
    modifies s, Above(y)
    ensures Linked(RotateRight(t), y) && Relinked(y, a, t.left.ref)
    ensures Distinct(RotateRight(t)) && Refs(RotateRight(t)) == s
  {
    hide Distinct, Linked, Refs;
    ghost var m := t.left.right;
    RightParts(t, y);
    RotateRightRefs(t);
    Unfold(t, y);
    Unfold(t.left, a);
    if m.Node? { Unfold(m, t.left.ref); }
    var x := a.left;
    RightLinks(a, x, x.right, a.parent);
    if m.Node? { Fold(m, a); }
    a.height := Max(HeightOf(a.left), HeightOf(a.right)) + 1;
    Fold(Fix(t.(left := m)), x);
    x.height := Max(HeightOf(x.left), HeightOf(x.right)) + 1;
    Fold(RotateRight(t), y);
  }

  method LeftRotate(a: AVLNode, ghost t: Shape, ghost y: AVLNode?, ghost s: set<AVLNode>)
    requires t.Node? && t.right.Node? && t.ref == a && Distinct(t) && Linked(t, y)
    requires s == Refs(t) && y !in s && Hangs(a, y)
    modifies s, Above(y)
    ensures Linked(RotateLeft(t), y) && Relinked(y, a, t.right.ref)
    ensures Distinct(RotateLeft(t)) && Refs(RotateLeft(t)) == s
  {
    hide Distinct, Linked, Refs;
    ghost var m := t.right.left;
    LeftParts(t, y);
    RotateLeftRefs(t);
    Unfold(t, y);
    Unfold(t.right, a);
    if m.Node? { Unfold(m, t.right.ref); }
    var x := a.right;
    LeftLinks(a, x, x.left, a.parent);
    if m.Node? { Fold(m, a); }
    a.height := Max(HeightOf(a.left), HeightOf(a.right)) + 1;
    Fold(Fix(t.(right := m)), x);
    x.height := Max(HeightOf(x.left), HeightOf(x.right)) + 1;
    Fold(RotateLeft(t), y);
  }

  // Another left subtree under the same top node.
  lemma NewLeft(t: Shape, l: Shape)
    requires t.Node? && Distinct(t) && Distinct(l) && Refs(l) !! Refs(t.right) + {t.ref}
    ensures Distinct(t.(left := l)) && Refs(t.(left := l)) == Refs(t) - Refs(t.left) + Refs(l)
  {
  }

  lemma NewRight(t: Shape, r: Shape)
    requires t.Node? && Distinct(t) && Distinct(r) && Refs(r) !! Refs(t.left) + {t.ref}
    ensures Distinct(t.(right := r)) && Refs(t.(right := r)) == Refs(t) - Refs(t.right) + Refs(r)
  {
  }

  lemma NewEntry(t: Shape, k: Key, d: Data)
    requires t.Node? && Distinct(t)
    ensures Distinct(t.(key := k, data := d)) && Refs(t.(key := k, data := d)) == Refs(t)
  {
  }

  class AVLTree {
    const compare: (Key, Key) -> int
    var root: AVLNode?
    ghost var shape: Shape
    ghost var nodes: set<AVLNode>

    // The two rotations of the left heavy case.
    method RotateFromLeft(node: AVLNode, ghost t: Shape, ghost y: AVLNode?, ghost s: set<AVLNode>)
      requires t.Node? && Positive(t.left) && Positive(t.right) && Balance(t) > 1 && t.ref == node && Distinct(t)
      requires Linked(t, y)
      requires s == Refs(t) && y !in s && Hangs(node, y)
      modifies s, Above(y)
      ensures var r := AvlShape.Rotate(t);
        Linked(r, y) && Relinked(y, node, r.ref) && Distinct(r) && Refs(r) == s && node.parent == r.ref
          && r.ref.parent == y
    {
      hide Distinct, Linked, Refs;
      Unfold(t, y);
      Unfold(t.left, node);
      Subtrees(t);
      if BalanceOf(node.left) >= 0 {
        RightRotate(node, t, y, s);
      } else {
        ghost var l := RotateLeft(t.left);
        LeftRotate(node.left, t.left, node, Refs(t.left));
        Fold(t.(left := l), y);
        NewLeft(t, l);
        RightRotate(node, t.(left := l), y, s);
      }
      Unfold(AvlShape.Rotate(t), y);
      Unfold(AvlShape.Rotate(t).right, AvlShape.Rotate(t).ref);
    }

    method RotateFromRight(node: AVLNode, ghost t: Shape, ghost y: AVLNode?, ghost s: set<AVLNode>)
      requires t.Node? && Positive(t.left) && Positive(t.right) && Balance(t) < -1 && t.ref == node && Distinct(t)
      requires Linked(t, y)
      requires s == Refs(t) && y !in s && Hangs(node, y)
      modifies s, Above(y)
      ensures var r := AvlShape.Rotate(t);
        Linked(r, y) && Relinked(y, node, r.ref) && Distinct(r) && Refs(r) == s && node.parent == r.ref
          && r.ref.parent == y
    {
      hide Distinct, Linked, Refs;
      Unfold(t, y);
      Unfold(t.right, node);
      Subtrees(t);
      if BalanceOf(node.right) <= 0 {
        LeftRotate(node, t, y, s);
      } else {
        ghost var r := RotateRight(t.right);
        RightRotate(node.right, t.right, node, Refs(t.right));
        Fold(t.(right := r), y);
        NewRight(t, r);
        LeftRotate(node, t.(right := r), y, s);
      }
      Unfold(AvlShape.Rotate(t), y);
      Unfold(AvlShape.Rotate(t).left, AvlShape.Rotate(t).ref);
    }

    // Rebalance at node, whatever the stored heights are; the root of the tree follows.
    method Rotate(node: AVLNode, ghost t: Shape, ghost y: AVLNode?, ghost s: set<AVLNode>)
      requires t.Node? && Positive(t.left) && Positive(t.right) && t.ref == node && Distinct(t) && Linked(t, y)
      requires s == Refs(t) && y !in s && Hangs(node, y) && (y == null ==> root == node)
      modifies `root, s, Above(y)
      ensures var r := AvlShape.Rotate(t);
        Linked(r, y) && Relinked(y, node, r.ref) && Distinct(r) && Refs(r) == s
          && root == if y == null then r.ref else old(root)
    {
      hide Distinct, Linked, Refs;
      Unfold(t, y);
      Subtrees(t);
      if BalanceOf(node) > 1 {
        RotateFromLeft(node, t, y, s);
        if node.parent.parent == null {
          root := node.parent;
        }
      } else if BalanceOf(node) < -1 {
        if node.parent == null {
          root := node.right;
        }
        RotateFromRight(node, t, y, s);
        if node.parent.parent == null {
          root := node.parent;
        }
      } else {
        node.height := Max(HeightOf(node.left), HeightOf(node.right)) + 1;
        Fold(Fix(t), y);
        FixRefs(t);
      }
    }

    method SetNode(node: AVLNode, key: Key, data: Data, ghost t: Shape, ghost y: AVLNode?, ghost s: set<AVLNode>)
      returns (ghost n: AVLNode)
      requires t.Node? && Positive(t) && t.ref == node && Distinct(t) && Linked(t, y)
      requires s == Refs(t) && y !in s && Hangs(node, y) && (y == null ==> root == node)
      modifies `root, s, Above(y)
      ensures fresh(n)
      ensures var r := Insert(t, compare, key, data, n);
        Linked(r, y) && Distinct(r) && Refs(r) == s + {n} && Relinked(y, node, r.ref)
          && root == if y == null then r.ref else old(root)
      decreases t
    {
      hide Distinct, Linked, Refs, AvlShape.Rotate;
      Unfold(t, y);
      Subtrees(t);
      var cmp := compare(node.key, key);
      if cmp >= 0 {
        n := SetLeft(node, key, data, t, y, s);
        ghost var t' := t.(left := Insert(t.left, compare, key, data, n));
        Rotate(node, t', y, s + {n});
      } else {
        n := SetRight(node, key, data, t, y, s);
        ghost var t' := t.(right := Insert(t.right, compare, key, data, n));
        Rotate(node, t', y, s + {n});
      }
    }

    // Descend to the left child, or create it.
    method SetLeft(node: AVLNode, key: Key, data: Data, ghost t: Shape, ghost y: AVLNode?, ghost s: set<AVLNode>)
      returns (ghost n: AVLNode)
      requires t.Node? && Positive(t) && t.ref == node && Distinct(t) && Linked(t, y) && s == Refs(t)
      modifies `root, s
      ensures fresh(n) && root == old(root)
      ensures var t' := t.(left := Insert(t.left, compare, key, data, n));
        Linked(t', y) && Distinct(t') && Refs(t') == s + {n}
      decreases t, 0
    {
      hide Distinct, Linked, Refs, AvlShape.Rotate;
      Unfold(t, y);
      Subtrees(t);
      if node.left != null {
        n := SetNode(node.left, key, data, t.left, node, Refs(t.left));
      } else {
        var c := new AVLNode(node, key, data);
        node.left := c;
        n := c;
        Created(c, key, data, node);
      }
      ghost var l := Insert(t.left, compare, key, data, n);
      Fold(t.(left := l), y);
      NewLeft(t, l);
    }

    method SetRight(node: AVLNode, key: Key, data: Data, ghost t: Shape, ghost y: AVLNode?, ghost s: set<AVLNode>)
      returns (ghost n: AVLNode)
      requires t.Node? && Positive(t) && t.ref == node && Distinct(t) && Linked(t, y) && s == Refs(t)
      modifies `root, s
      ensures fresh(n) && root == old(root)
      ensures var t' := t.(right := Insert(t.right, compare, key, data, n));
        Linked(t', y) && Distinct(t') && Refs(t') == s + {n}
      decreases t, 0
    {
      hide Distinct, Linked, Refs, AvlShape.Rotate;
      Unfold(t, y);
      Subtrees(t);
      if node.right != null {
        n := SetNode(node.right, key, data, t.right, node, Refs(t.right));
      } else {
        var c := new AVLNode(node, key, data);
        node.right := c;
        n := c;
        Created(c, key, data, node);
      }
      ghost var r := Insert(t.right, compare, key, data, n);
      Fold(t.(right := r), y);
      NewRight(t, r);
    }

    // Put v where node hangs.
    method ReplaceInParent(node: AVLNode, v: AVLNode?)
      requires Hangs(node, node.parent) && node.parent != node && v != node && (v == null || v != node.parent)
      modifies `root, Above(node.parent)`left, Above(node.parent)`right, Above(v)`parent
      ensures Relinked(node.parent, node, v) && (v != null ==> v.parent == node.parent)
      ensures root == if node.parent == null then v else old(root)
    {
      if node.parent != null {
        if node == node.parent.left {
          node.parent.left := v;
        } else {
          node.parent.right := v;
        }
      } else {
        root := v;
      }
      if v != null {
        v.parent := node.parent;
      }
    }

    // Unlink a node with at most one child, c being its subtree.
    method Unlink(node: AVLNode, v: AVLNode?, ghost t: Shape, ghost c: Shape, ghost y: AVLNode?, ghost s: set<AVLNode>)
      requires t.Node? && t.ref == node && Distinct(t) && Linked(t, y) && s == Refs(t) && y !in s && Hangs(node, y)
      requires ((c == t.left && t.right.Leaf?) || (c == t.right && t.left.Leaf?)) && v == Top(c)
      modifies `root, s, Above(y)
      ensures Linked(c, y) && Distinct(c) && Refs(c) == s - {node} && Relinked(y, node, Top(c))
      ensures root == if y == null then Top(c) else old(root)
      ensures node.key == old(node.key) && node.data == old(node.data)
    {
      hide Distinct, Linked, Refs;
      Subtrees(t);
      Unfold(t, y);
      NoRefs(if c == t.left then t.right else t.left);
      if c.Node? {
        Subtrees(c);
        Unfold(c, node);
      } else {
        LinkedLeaf(c, y);
      }
      ReplaceInParent(node, v);
      if c.Node? { Fold(c, y); }
    }

    method Swap(a: AVLNode, b: AVLNode)
      modifies a`key, a`data, b`key, b`data
      ensures a.key == old(b.key) && a.data == old(b.data) && b.key == old(a.key) && b.data == old(a.data)
    {
      var k := b.key;
      b.key := a.key;
      a.key := k;
      var d := b.data;
      b.data := a.data;
      a.data := d;
    }

    // Unlink the leftmost node of node's right subtree t; its entry was changed since
    // the snapshot was taken.
    method CutMin(successor: AVLNode, node: AVLNode, ghost t: Shape, ghost s: set<AVLNode>,
        ghost before: map<AVLNode, Cell>)
      requires t.Node? && Distinct(t) && LinkedIn(t, node, before) && s == Refs(t) && node !in s
      requires successor == Min(t).ref
      requires before.Keys == s && forall o :: o in s ==>
        Snapshot(s)[o] == before[o].(key := Snapshot(s)[o].key, data := Snapshot(s)[o].data)
      requires forall o :: o in s && o != successor ==> Snapshot(s)[o] == before[o]
      requires node.right == t.ref && node.left !in s
      modifies `root, s`left, s`right, s`parent, node`left, node`right
      ensures Linked(DeleteMin(t), node) && root == old(root)
      ensures node.right == Top(DeleteMin(t)) && node.left == old(node.left)
    {
      hide Distinct, Linked, Refs, LinkedIn;
      MinInside(t, node);
      MinCell(t, node, before);
      assert Snapshot(s)[successor].parent == before[successor].parent
        && Snapshot(s)[successor].right == before[successor].right;
      ReplaceInParent(successor, successor.right);
      ghost var after := Snapshot(s);
      MinUnlinked(t, node, before, after);
      SnapshotLinked(DeleteMin(t), node, s);
    }

    // Find the successor of node in its right subtree t, swap the entries and unlink it.
    method CutSuccessor(node: AVLNode, ghost t: Shape, ghost s: set<AVLNode>) returns (successor: AVLNode)
      requires t.Node? && Distinct(t) && Linked(t, node) && s == Refs(t) && node !in s
      requires node.right == t.ref && node.left !in s
      modifies `root, s, node
      ensures Linked(DeleteMin(t), node) && successor == Min(t).ref && root == old(root)
      ensures node.key == Min(t).key && node.data == Min(t).data && node.right == Top(DeleteMin(t))
      ensures node.left == old(node.left) && node.parent == old(node.parent) && node.height == old(node.height)
      ensures successor.key == old(node.key) && successor.data == old(node.data)
    {
      hide Distinct, Linked, Refs, LinkedIn;
      MinInside(t, node);
      ghost var before := Snapshot(s);
      SnapshotLinked(t, node, s);
      MinCell(t, node, before);
      assert before[Min(t).ref].key == Min(t).ref.key && before[Min(t).ref].data == Min(t).ref.data;
      successor := FindMin(node.right, t, node);
      Swap(successor, node);
      CutMin(successor, node, t, s, before);
    }

    // The successor's entry moves up to node, the successor is unlinked.
    method UnlinkSuccessor(node: AVLNode, ghost t: Shape, ghost y: AVLNode?, ghost s: set<AVLNode>)
      returns (successor: AVLNode)
      requires t.Node? && t.left.Node? && t.right.Node? && t.ref == node && Distinct(t) && Linked(t, y)
      requires s == Refs(t) && y !in s
      modifies `root, s
      ensures var m := Min(t.right); var r := t.(key := m.key, data := m.data, right := DeleteMin(t.right));
        Linked(r, y) && Distinct(r) && Refs(r) == s - {successor} && successor == m.ref && successor in s
      ensures successor.key == t.key && successor.data == t.data && root == old(root)
    {
      hide Distinct, Linked, Refs, Min, DeleteMin;
      ghost var m, d := Min(t.right), DeleteMin(t.right);
      Subtrees(t);
      Unfold(t, y);
      MinInside(t.right, node);
      successor := CutSuccessor(node, t.right, Refs(t.right));
      NewRight(t, d);
      NewEntry(t.(right := d), m.key, m.data);
      Fold(t.(key := m.key, data := m.data, right := d), y);
    }

    method DeleteTopNode(node: AVLNode, ghost t: Shape, ghost y: AVLNode?, ghost s: set<AVLNode>)
      returns (deleted: AVLNode)
      requires t.Node? && t.ref == node && Distinct(t) && Linked(t, y) && s == Refs(t) && y !in s && Hangs(node, y)
      requires y == null ==> root == node
      modifies `root, s, Above(y)
      ensures var r := DeleteTop(t);
        Linked(r, y) && Distinct(r) && Refs(r) == s - {deleted} && Relinked(y, node, Top(r))
          && root == if y == null then Top(r) else old(root)
      ensures deleted in s && deleted.key == t.key && deleted.data == t.data
    {
      hide Distinct, Linked, Refs;
      Unfold(t, y);
      Subtrees(t);
      if node.left != null && node.right != null {
        deleted := UnlinkSuccessor(node, t, y, s);
      } else if node.left != null {
        Unlink(node, node.left, t, t.left, y, s);
        deleted := node;
      } else if node.right != null {
        Unlink(node, node.right, t, t.right, y, s);
        deleted := node;
      } else {
        Unlink(node, null, t, t.right, y, s);
        deleted := node;
      }
    }

    // Search for the key and unlink what is found; no height is repaired afterwards.
    method DeleteNode(node: AVLNode, key: Key, ghost t: Shape, ghost y: AVLNode?, ghost s: set<AVLNode>)
      returns (deleted: AVLNode?)
      requires t.Node? && t.ref == node && Distinct(t) && Linked(t, y) && s == Refs(t) && y !in s && Hangs(node, y)
      requires y == null ==> root == node
      modifies `root, s, Above(y)
      ensures var r := AvlShape.Delete(t, compare, key);
        Linked(r, y) && Distinct(r) && Refs(r) == s - Above(deleted) && Relinked(y, node, Top(r))
          && root == if y == null then Top(r) else old(root)
      ensures var f := Find(t, compare, key);
        if deleted == null then f.Leaf? else f.Node? && deleted in s && deleted.key == f.key && deleted.data == f.data
      decreases t
    {
      hide Distinct, Linked, Refs, DeleteTop;
      Unfold(t, y);
      Subtrees(t);
      var cmp := compare(node.key, key);
      if cmp > 0 {
        NoRefs(t.left);
        if node.left != null {
          deleted := DeleteNode(node.left, key, t.left, node, Refs(t.left));
        } else {
          deleted := null;
        }
        ghost var l := AvlShape.Delete(t.left, compare, key);
        Fold(t.(left := l), y);
        NewLeft(t, l);
      } else if cmp < 0 {
        NoRefs(t.right);
        if node.right != null {
          deleted := DeleteNode(node.right, key, t.right, node, Refs(t.right));
        } else {
          deleted := null;
        }
        ghost var r := AvlShape.Delete(t.right, compare, key);
        Fold(t.(right := r), y);
        NewRight(t, r);
      } else {
        deleted := DeleteTopNode(node, t, y, s);
      }
    }

    // The whole tree: what the fields hold, and that the search order and the heights
    // allow every operation.
    ghost predicate Valid()
      reads this, nodes
    {
      && nodes == Refs(shape) && root == Top(shape) && Distinct(shape) && Linked(shape, null)
      && Positive(shape) && Ordered(shape, compare) && TotalPreorder(compare)
    }

    constructor (compare: (Key, Key) -> int)
      requires TotalPreorder(compare)
      ensures Valid() && shape == Leaf && fresh(nodes) && this.compare == compare
    {
      this.compare := compare;
      root := null;
      shape := Leaf;
      nodes := {};
    }

    method Set(key: Key, data: Data) returns (ghost n: AVLNode)
      requires Valid()
      modifies this, nodes
      ensures Valid() && fresh(nodes - old(nodes)) && root != null
      ensures fresh(n) && shape == Insert(old(shape), compare, key, data, n)
      ensures Entries(shape) == old(Entries(shape)) + multiset{(key, data)}
      ensures exists i :: PutAt(old(InOrder(shape)), InOrder(shape), compare, key, data, i)
      ensures old(Avl(shape)) ==> Avl(shape)
    {
      hide Distinct, Linked, Refs, Ordered, Positive, Entries, Avl, TotalPreorder, AvlShape.Rotate, InOrder, FrontOf;
      NoRefs(shape);
      if root == null {
        var c := new AVLNode(null, key, data);
        root := c;
        n := c;
        Created(c, key, data, null);
      } else {
        n := SetNode(root, key, data, shape, null, nodes);
      }
      InsertOrdered(shape, compare, key, data, n);
      ghost var i := InsertInOrder(shape, compare, key, data, n);
      FrontBounds(InOrder(shape), compare, key, i);
      assert PutAt(InOrder(shape), InOrder(Insert(shape, compare, key, data, n)), compare, key, data, i);
      if Avl(shape) { InsertAvl(shape, compare, key, data, n); }
      shape := Insert(shape, compare, key, data, n);
      nodes := nodes + {n};
    }

    // The recursion of getnode on the links.
    method GetNode(node: AVLNode, key: Key, ghost t: Shape, ghost p: AVLNode?)
      returns (found: AVLNode?, ghost visits: nat)
      requires t.Node? && t.ref == node && Linked(t, p)
      ensures visits == Visits(t, compare, key)
      ensures found == Top(Find(t, compare, key))
      ensures found != null ==> found.data == Find(t, compare, key).data
      decreases t
    {
      visits := 0;
      var cmp := compare(node.key, key);
      if cmp == 0 {
        return node, 1;
      } else if cmp < 0 {
        if node.right != null {
          found, visits := GetNode(node.right, key, t.right, node);
        } else {
          found := null;
        }
      } else {
        if node.left != null {
          found, visits := GetNode(node.left, key, t.left, node);
        } else {
          found := null;
        }
      }
      visits := visits + 1;
    }

    // Of several entries with the key, the highest one answers. The number of nodes looked
    // at is logarithmic while the tree is balanced.
    method Get(key: Key) returns (data: Option<Data>, ghost visits: nat)
      requires Valid()
      ensures match data
        case None => Absent(Entries(shape), compare, key)
        case Some(d) => exists e :: e in Entries(shape) && compare(e.0, key) == 0 && e.1 == d
      ensures var f := Find(shape, compare, key); data == if f.Leaf? then None else Some(f.data)
      ensures visits == Visits(shape, compare, key)
      ensures Avl(shape) ==> Pow2(visits / 2) <= |Entries(shape)| + 1
    {
      hide Distinct, Linked, Refs, Ordered, Positive, Entries, TotalPreorder, Find, Avl;
      FindCorrect(shape, compare, key);
      if Avl(shape) { SearchIsLogarithmic(shape, compare, key); }
      if root == null {
        LeafFinds(shape, compare, key);
        return None, 0;
      }
      var node;
      node, visits := GetNode(root, key, shape, null);
      ghost var f := Find(shape, compare, key);
      if node == null {
        return None, visits;
      }
      assert (f.key, f.data) in Entries(shape);
      return Some(node.data), visits;
    }

    // Removes one entry with the key and returns its data, if there is one.
    method Delete(key: Key) returns (data: Option<Data>)
      requires Valid()
      modifies this, nodes
      ensures Valid() && nodes <= old(nodes) && shape == AvlShape.Delete(old(shape), compare, key)
      ensures old(Avl(shape)) ==> (Avl(shape) <==> old(Keeps(shape, compare, key)))
      ensures match data
        case None => shape == old(shape) && Absent(old(Entries(shape)), compare, key)
        case Some(d) =>
          && (exists k: Key :: compare(k, key) == 0 && old(Entries(shape)) == Entries(shape) + multiset{(k, d)})
          && exists i :: TakenAt(old(InOrder(shape)), InOrder(shape), compare, key, d, i)
    {
      hide Distinct, Linked, Refs, Ordered, Positive, TotalPreorder, Entries;
      hide AvlShape.Delete, Find, Avl, Keeps, InOrder;
      if Avl(shape) { DeleteAvl(shape, compare, key); }
      LeafFinds(shape, compare, key);
      data := None;
      FindCorrect(shape, compare, key);
      if Find(shape, compare, key).Leaf? {
        AbsentKept(shape, compare, key);
      } else {
        ghost var f := Find(shape, compare, key);
        ghost var i := DeleteInOrder(shape, compare, key);
        assert TakenAt(InOrder(shape), InOrder(AvlShape.Delete(shape, compare, key)), compare, key, f.data, i);
      }
      DeleteOrdered(shape, compare, key);
      if root != null {
        ghost var f := Find(shape, compare, key);
        var node := DeleteNode(root, key, shape, null, nodes);
        if node != null {
          data := Some(node.data);
        }
        shape := AvlShape.Delete(shape, compare, key);
        nodes := nodes - Above(node);
      }
    }
  }

  method FindMin(node: AVLNode, ghost t: Shape, ghost p: AVLNode?) returns (m: AVLNode)
    requires t.Node? && t.ref == node && Linked(t, p)
    ensures m == Min(t).ref
  {
    m := node;
    ghost var u, q := t, p;
    while m.left != null
      invariant u.Node? && u.ref == m && Linked(u, q) && Min(u) == Min(t)
      decreases u
    {
      u, q := u.left, u.ref;
      m := m.left;
    }
  }

  lemma NoRefs(t: Shape)
    ensures t.Leaf? ==> Refs(t) == {}
  {
  }

  lemma LinkedLeaf(t: Shape, p: AVLNode?)
    requires t.Leaf?
    ensures Linked(t, p) && Distinct(t) && Refs(t) == {}
  {
  }

  lemma FixRefs(t: Shape)
    requires t.Node? && Distinct(t)
    ensures Distinct(Fix(t)) && Refs(Fix(t)) == Refs(t)
  {
  }

  lemma Created(n: AVLNode, key: Key, data: Data, p: AVLNode?)
    requires n.key == key && n.data == data && n.parent == p && n.left == null && n.right == null && n.height == 1
    ensures var t := Node(Leaf, n, key, data, 1, Leaf); Linked(t, p) && Distinct(t) && Refs(t) == {n}
  {
  }

  // ----- unlinking the leftmost node ---------------------------------------------

  // The fields of nodes at one moment.
  datatype Cell = Cell(key: Key, data: Data, parent: AVLNode?, left: AVLNode?, right: AVLNode?, height: int)

  ghost function Snapshot(s: set<AVLNode>): map<AVLNode, Cell>
    reads s
  {
    map o | o in s :: Cell(o.key, o.data, o.parent, o.left, o.right, o.height)
  }

  // Linked, at the moment of the snapshot m.
  ghost predicate LinkedIn(t: Shape, p: AVLNode?, m: map<AVLNode, Cell>) {
    t.Node? ==>
      && t.ref in m && m[t.ref] == Cell(t.key, t.data, p, Top(t.left), Top(t.right), t.height)
      && LinkedIn(t.left, t.ref, m) && LinkedIn(t.right, t.ref, m)
  }

  lemma {:induction false} SnapshotLinked(t: Shape, p: AVLNode?, s: set<AVLNode>)
    requires Refs(t) <= s
    ensures Linked(t, p) <==> LinkedIn(t, p, Snapshot(s))
  {
    if t.Node? {
      SnapshotLinked(t.left, t.ref, s);
      SnapshotLinked(t.right, t.ref, s);
    }
  }

  // The node above the leftmost one.
  ghost function MinParent(t: Shape, p: AVLNode?): AVLNode?
    requires t.Node?
  {
    if t.left.Leaf? then p else MinParent(t.left, t.ref)
  }

  lemma {:induction false} MinInside(t: Shape, p: AVLNode?)
    requires t.Node? && Distinct(t) && p !in Refs(t)
    ensures var m, q, r := Min(t).ref, MinParent(t, p), Top(Min(t).right);
      && m in Refs(t) && (q == p || q in Refs(t)) && q != m && (r != null ==> r in Refs(t) && r != m && r != q)
    ensures Refs(DeleteMin(t)) == Refs(t) - {Min(t).ref} && Distinct(DeleteMin(t))
    decreases t
  {
    if t.left.Node? {
      MinInside(t.left, t.ref);
    }
  }

  // The leftmost node as the snapshot shows it.
  lemma {:induction false} MinCell(t: Shape, p: AVLNode?, m: map<AVLNode, Cell>)
    requires t.Node? && Distinct(t) && LinkedIn(t, p, m) && p !in Refs(t)
    ensures var u, q := Min(t), MinParent(t, p);
      && u.ref in m && m[u.ref] == Cell(u.key, u.data, q, null, Top(u.right), u.height)
      && (if t.left.Leaf? then q == p && u == t else q in m && q in Refs(t) && m[q].left == u.ref)
    decreases t
  {
    if t.left.Node? {
      MinCell(t.left, t.ref, m);
    }
  }

  // The parent q of the leftmost node gets that node's right child r as left child.
  ghost function Bypass(c: Cell, o: AVLNode, q: AVLNode?, r: AVLNode?): Cell {
    c.(left := if o == q then r else c.left, parent := if o == r then q else c.parent)
  }

  lemma {:induction false} MinUnlinked(t: Shape, p: AVLNode?, m: map<AVLNode, Cell>, m': map<AVLNode, Cell>)
    requires t.Node? && Distinct(t) && LinkedIn(t, p, m) && p !in Refs(t)
    requires forall o :: o in Refs(t) && o != Min(t).ref ==>
      o in m && o in m' && m'[o] == Bypass(m[o], o, MinParent(t, p), Top(Min(t).right))
    ensures LinkedIn(DeleteMin(t), p, m')
    decreases t
  {
    if t.left.Node? {
      MinInside(t.left, t.ref);
      if t.left.left.Node? { MinInside(t.left.left, t.left.ref); }
      MinUnlinked(t.left, t.ref, m, m');
      KeptLinked(t.right, t.ref, m, m');
    } else if t.right.Node? {
      KeptLinked(t.right.left, t.right.ref, m, m');
      KeptLinked(t.right.right, t.right.ref, m, m');
    }
  }

  lemma {:induction false} KeptLinked(t: Shape, p: AVLNode?, m: map<AVLNode, Cell>, m': map<AVLNode, Cell>)
    requires LinkedIn(t, p, m) && forall o :: o in Refs(t) ==> o in m && o in m' && m'[o] == m[o]
    ensures LinkedIn(t, p, m')
  {
    if t.Node? {
      KeptLinked(t.left, t.ref, m, m');
      KeptLinked(t.right, t.ref, m, m');
    }
  }
}
