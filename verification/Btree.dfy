/** The balanced search tree of src/btree.hpp: nodes with a parent pointer, a link back to the
    `Root` that is set on the top node only, and a balance field. */
module Btree {
  import opened Trees
  import opened Ordering
  import opened Arithmetic
  import opened Rebalancing
  import opened Sequences

  /** `char` is taken as a signed byte. */
  newtype Int8 = x: int | -128 <= x < 128

  class Root<K(!new), V> {
    var ptr: Node?<K, V>
    ghost var tree: Tree<Node<K, V>>

    constructor ()
      ensures ptr == null && tree == Leaf
    {
      ptr := null;
      tree := Leaf;
    }

    /** The nodes form a balanced tree under this root, with every parent, root link and balance field right. */
    ghost predicate Valid()
      reads this, Nodes(tree)
    {
      Located(Top, tree, this) && Avl(tree)
    }

    ghost method SetTree(t: Tree<Node<K, V>>)
      requires Located(Top, t, this)
      modifies this`tree
      ensures tree == t && Located(Top, t, this)
    {
      tree := t;
    }

    /** The first node in order with an equal key, if there is one; otherwise the node with the free slot for the key.
        The number of links followed is logarithmic in the number of nodes. */
    method Find(fx: K, less: (K, K) -> bool) returns (node: Node?<K, V>, ghost i: nat, ghost steps: nat)
      requires Valid() && StrictWeakOrder(less) && Sorted(less, Keys(Inorder(tree)))
      ensures node == null <==> tree == Leaf
      ensures node != null ==>
        && i < |Inorder(tree)| && Inorder(tree)[i] == node
        && FoundAt(less, fx, Keys(Inorder(tree)), i, node.left == null, node.right == null)
      ensures Pow2(steps / 2) <= |Inorder(tree)| + 1
    {
      LogarithmicHeight(tree);
      assert allocated(Nodes(tree));
      if ptr != null {
        ghost var c, s;
        node, c, s, steps := ptr.Find(fx, less, tree);
        i := FoundIndex(less, fx, c, s);
        LocateComposed(Top, c, s, tree, this);
        Pow2Monotone(steps / 2, Height(tree) / 2);
      } else {
        node, i, steps := null, 0, 0;
      }
    }

    /** Inserts a detached node; i is its position. A node with an equal key stays in front of it. */
    method InsertNode(node: Node<K, V>, less: (K, K) -> bool) returns (ghost i: nat)
      requires Valid() && StrictWeakOrder(less) && Sorted(less, Keys(Inorder(tree)))
      requires node.hDiff == 0 && node.left == null && node.right == null && node !in Nodes(tree)
      modifies this, Nodes(tree), node
      ensures Valid() && Sorted(less, Keys(Inorder(tree)))
      ensures InsertedAt(old(Inorder(tree)), node, i, Inorder(tree))
      ensures i == old(Landing(less, node.x, tree)) && BehindEqual(less, old(Keys(Inorder(tree))), node.x, i)
    {
      hide Landing, Leading;
      assert allocated(Nodes(tree));
      LandingBehind(less, node.x, tree);
      if ptr != null {
        node.root := null;
        i := ptr.InsertNode(node, less, Top, tree, this);
      } else {
        node.root := this;
        node.parent := null;
        ptr := node;
        i := 0;
        NoLanding<K, V>(less, node.x);
        tree := Single(node);
        assert Linked(tree, null, this) && Avl(tree);
      }
    }

    method Insert(k: K, v: V, less: (K, K) -> bool) returns (node: Node<K, V>, ghost i: nat)
      requires Valid() && StrictWeakOrder(less) && Sorted(less, Keys(Inorder(tree)))
      modifies this, Nodes(tree)
      ensures fresh(node) && node.x == k && node.v == v
      ensures Valid() && Sorted(less, Keys(Inorder(tree)))
      ensures InsertedAt(old(Inorder(tree)), node, i, Inorder(tree))
      ensures i == old(Landing(less, k, tree)) && BehindEqual(less, old(Keys(Inorder(tree))), k, i)
    {
      hide Landing;
      assert allocated(Nodes(tree));
      node := new Node(k, v);
      i := InsertNode(node, less);
    }

    /** The iterator at the first node, or at the end when the tree is empty. */
    method Begin() returns (it: Iterator<K, V>)
      requires Valid()
      ensures fresh(it) && it.At(0, Top, tree, this)
    {
      assert allocated(Nodes(tree));
      var first := ptr;
      if first != null {
        first := first.Leftmost(Top, Top, tree, tree, this);
      }
      it := new Iterator(ptr, null, first);
    }

    method End() returns (it: Iterator<K, V>)
      requires Valid()
      ensures fresh(it) && it.At(|Inorder(tree)|, Top, tree, this)
    {
      assert allocated(Nodes(tree));
      it := new Iterator(ptr, null, null);
    }

    /** Records the tree that the nodes now form. */
    ghost method Settle(c: Context<Node<K, V>>, t: Tree<Node<K, V>>)
      requires Located(c, t, this) && Settled(c, t)
      modifies this`tree
      ensures Located(Top, tree, this) && Avl(tree)
      ensures tree == Plug(c, t)
    {
      LocatedPlug(c, t, this);
      PlugAvl(c, t);
      tree := Plug(c, t);
    }
  }

  /** A reference to a `unique_ptr` that owns a node. */
  datatype Slot<K(!new), V> =
    | LeftOf(owner: Node<K, V>)
    | RightOf(owner: Node<K, V>)
    | AtRoot(top: Root<K, V>)
    | NoSlot
  {
    ghost function Owner(): set<object> {
      match this
      case LeftOf(o) => {o}
      case RightOf(o) => {o}
      case AtRoot(r) => {r}
      case NoSlot => {}
    }

    /** The node that the slot owns. */
    function Held(): Node?<K, V>
      requires !NoSlot?
      reads Owner()
    {
      match this
      case LeftOf(o) => o.left
      case RightOf(o) => o.right
      case AtRoot(t) => t.ptr
    }

    method Store(n: Node?<K, V>)
      requires !NoSlot?
      modifies Owner()
      ensures Stored(n)
    {
      match this
      case LeftOf(o) => o.left := n;
      case RightOf(o) => o.right := n;
      case AtRoot(t) => t.ptr := n;
    }

    /** The slot holds n, and nothing else of its owner has changed. */
    twostate predicate Stored(new n: Node?<K, V>)
      reads Owner()
    {
      match this
      case LeftOf(o) => o.left == n && o.right == old(o.right) && o.SameLinks()
      case RightOf(o) => o.right == n && o.left == old(o.left) && o.SameLinks()
      case AtRoot(t) => t.ptr == n && t.tree == old(t.tree)
      case NoSlot => true
    }
  }

  class Node<K(!new), V> {
    var parent: Node?<K, V>
    var root: Root?<K, V>
    var hDiff: Int8
    const x: K
    const v: V
    var left: Node?<K, V>
    var right: Node?<K, V>

    constructor (k: K, value: V)
      ensures x == k && v == value
      ensures parent == null && root == null && hDiff == 0 && left == null && right == null
    {
      x, v := k, value;
      parent, root, hDiff, left, right := null, null, 0, null, null;
    }

    function ParentPtr(): Slot<K, V>
      reads this, parent
    {
      if parent != null then
        if parent.left == this then LeftOf(parent) else RightOf(parent)
      else if root != null then AtRoot(root)
      else NoSlot
    }

    /** The parent, the root link and the balance field are unchanged. */
    twostate predicate SameLinks()
      reads this
    {
      parent == old(parent) && root == old(root) && hDiff == old(hDiff)
    }

    /** Lifts the right child above this node; the new top takes this node's place. */
    method RotRight() returns (top: Node<K, V>)
      requires right != null && !ParentPtr().NoSlot?
      requires right != this && this !in ParentPtr().Owner() && right !in ParentPtr().Owner()
      requires right.left != null ==> right.left != this && right.left != right && right.left !in ParentPtr().Owner()
      requires -2 <= hDiff <= 2 && -2 <= right.hDiff <= 2
      modifies this, right, right.left, ParentPtr().Owner()
      ensures top == old(right) && old(ParentPtr()).Stored(top)
      ensures left == old(left) && right == old(right.left) && parent == top && root == old(right.root)
      ensures top.left == this && top.right == old(right.right) && top.parent == old(parent) && top.root == old(root)
      ensures right != null ==>
        right.parent == this && right.left == old(right.left.left) && right.right == old(right.left.right) &&
        right.root == old(right.left.root) && right.hDiff == old(right.left.hDiff)
      ensures (hDiff as int, top.hDiff as int) == LiftRightDiffs(old(hDiff) as int, old(right.hDiff) as int)
    {
      var slot := ParentPtr();
      top := right;
      slot.Store(top);
      right := top.left;
      if right != null {
        right.parent := this;
      }
      top.left := this;
      top.parent := parent;
      parent := top;
      top.root, root := root, top.root;
      AdjustRight(top);
    }

    method RotRightAt(ghost c: Context<Node<K, V>>, ghost t: Tree<Node<K, V>>, ghost r: Root<K, V>)
      returns (top: Node<K, V>)
      requires t.Branch? && t.node == this && t.right.Branch?
      requires -2 <= t.diff <= 2 && -2 <= t.right.diff <= 2
      requires Located(c, t, r)
      modifies Nodes(t), ContextNodes(c), r
      ensures r.tree == old(r.tree)
      ensures top == LiftRight(t).node
      ensures Located(c, LiftRight(t), r)
    {
      hide Distinct, Nodes, Inorder, Height, Avl;
      SlotOfLocated(c, t, r);
      RightParts(t);
      ghost var rl := t.right.left;
      assert allocated(Nodes(t)) && allocated(ContextNodes(c));
      assert allocated(Nodes(t.left)) && allocated(Nodes(rl)) && allocated(Nodes(t.right.right));
      assert Linked(t.right, this, null) && Linked(rl, t.right.node, null);
      top := RotRight();
      assert LinkedContext(c, top, r) by {
        ContextStored((c, r));
      }
      assert Linked(LiftRight(t), ParentIn(c), RootIn(c, r)) by {
        RotatedRight(t);
      }
      LiftRightNodes(t);
    }

    method AdjustRight(top: Node<K, V>)
      requires top != this && -2 <= hDiff <= 2 && -2 <= top.hDiff <= 2
      modifies this`hDiff, top`hDiff
      ensures (hDiff as int, top.hDiff as int) == LiftRightDiffs(old(hDiff) as int, old(top.hDiff) as int)
    {
      if top.hDiff <= 0 {
        hDiff := hDiff - 1;
      } else {
        hDiff := hDiff - (top.hDiff + 1);
      }
      if hDiff >= 0 {
        top.hDiff := top.hDiff - 1;
      } else {
        top.hDiff := top.hDiff + (hDiff - 1);
      }
    }

    /** Lifts the left child above this node; the new top takes this node's place. */
    method RotLeft() returns (top: Node<K, V>)
      requires left != null && !ParentPtr().NoSlot?
      requires left != this && this !in ParentPtr().Owner() && left !in ParentPtr().Owner()
      requires left.right != null ==> left.right != this && left.right != left && left.right !in ParentPtr().Owner()
      requires -2 <= hDiff <= 2 && -2 <= left.hDiff <= 2
      modifies this, left, left.right, ParentPtr().Owner()
      ensures top == old(left) && old(ParentPtr()).Stored(top)
      ensures right == old(right) && left == old(left.right) && parent == top && root == old(left.root)
      ensures top.right == this && top.left == old(left.left) && top.parent == old(parent) && top.root == old(root)
      ensures left != null ==>
        left.parent == this && left.right == old(left.right.right) && left.left == old(left.right.left) &&
        left.root == old(left.right.root) && left.hDiff == old(left.right.hDiff)
      ensures (hDiff as int, top.hDiff as int) == LiftLeftDiffs(old(hDiff) as int, old(left.hDiff) as int)
    {
      var slot := ParentPtr();
      top := left;
      slot.Store(top);
      left := top.right;
      if left != null {
        left.parent := this;
      }
      top.right := this;
      top.parent := parent;
      parent := top;
      top.root, root := root, top.root;
      AdjustLeft(top);
    }

    method RotLeftAt(ghost c: Context<Node<K, V>>, ghost t: Tree<Node<K, V>>, ghost r: Root<K, V>)
      returns (top: Node<K, V>)
      requires t.Branch? && t.node == this && t.left.Branch?
      requires -2 <= t.diff <= 2 && -2 <= t.left.diff <= 2
      requires Located(c, t, r)
      modifies Nodes(t), ContextNodes(c), r
      ensures r.tree == old(r.tree)
      ensures top == LiftLeft(t).node
      ensures Located(c, LiftLeft(t), r)
    {
      hide Distinct, Nodes, Inorder, Height, Avl;
      SlotOfLocated(c, t, r);
      LeftParts(t);
      ghost var lr := t.left.right;
      assert allocated(Nodes(t)) && allocated(ContextNodes(c));
      assert allocated(Nodes(t.right)) && allocated(Nodes(lr)) && allocated(Nodes(t.left.left));
      assert Linked(t.left, this, null) && Linked(lr, t.left.node, null);
      top := RotLeft();
      assert LinkedContext(c, top, r) by {
        ContextStored((c, r));
      }
      assert Linked(LiftLeft(t), ParentIn(c), RootIn(c, r)) by {
        RotatedLeft(t);
      }
      LiftLeftNodes(t);
    }

    method AdjustLeft(top: Node<K, V>)
      requires top != this && -2 <= hDiff <= 2 && -2 <= top.hDiff <= 2
      modifies this`hDiff, top`hDiff
      ensures (hDiff as int, top.hDiff as int) == LiftLeftDiffs(old(hDiff) as int, old(top.hDiff) as int)
    {
      if top.hDiff >= 0 {
        hDiff := hDiff + 1;
      } else {
        hDiff := hDiff - (top.hDiff - 1);
      }
      if hDiff <= 0 {
        top.hDiff := top.hDiff + 1;
      } else {
        top.hDiff := top.hDiff + (hDiff + 1);
      }
    }

    /** `h_diff++` or `h_diff--` on the node that heads t. */
    method Tilt(rInc: bool, ghost c: Context<Node<K, V>>, ghost t: Tree<Node<K, V>>, ghost r: Root<K, V>)
      requires t.Branch? && t.node == this && -2 <= t.diff <= 2 && Located(c, t, r)
      modifies this`hDiff
      ensures Located(c, Tilted(t, rInc), r)
    {
      if rInc {
        hDiff := hDiff + 1;
      } else {
        hDiff := hDiff - 1;
      }
    }

    /** The rotations for a node whose right side is two higher. */
    method RotateHeavyRight(ghost c: Context<Node<K, V>>, ghost t: Tree<Node<K, V>>, ghost r: Root<K, V>)
      returns (top: Node<K, V>)
      requires Overweight(t, 2) && t.node == this
      requires t.right.Branch? && (t.right.diff == -1 ==> t.right.left.Branch?)
      requires Located(c, t, r)
      modifies Nodes(t), ContextNodes(c), r
      ensures r.tree == old(r.tree)
      ensures FixRight(t).Branch? && top == FixRight(t).node && Located(c, FixRight(t), r)
    {
      ghost var u := t;
      assert Linked(t.right, this, null);
      if right.hDiff == -1 {
        InnerRight(t);
        assert Avl(t.right) && Avl(t.right.left);
        ZoomRight(c, t, r);
        u := t.(right := LiftLeft(t.right));
        var mid := right.RotLeftAt(InRight(t.left, this, t.diff, c), t.right, r);
        ZoomRight(c, u, r);
        assert right.hDiff == 1 || right.hDiff == 2;
      }
      top := RotRightAt(c, u, r);
    }

    /** The rotations for a node whose left side is two higher. */
    method RotateHeavyLeft(ghost c: Context<Node<K, V>>, ghost t: Tree<Node<K, V>>, ghost r: Root<K, V>)
      returns (top: Node<K, V>)
      requires Overweight(t, -2) && t.node == this
      requires t.left.Branch? && (t.left.diff == 1 ==> t.left.right.Branch?)
      requires Located(c, t, r)
      modifies Nodes(t), ContextNodes(c), r
      ensures r.tree == old(r.tree)
      ensures FixLeft(t).Branch? && top == FixLeft(t).node && Located(c, FixLeft(t), r)
    {
      ghost var u := t;
      assert Linked(t.left, this, null);
      if left.hDiff == 1 {
        InnerLeft(t);
        assert Avl(t.left) && Avl(t.left.right);
        ZoomLeft(c, t, r);
        u := t.(left := LiftRight(t.left));
        var mid := left.RotRightAt(InLeft(this, t.diff, t.right, c), t.left, r);
        ZoomLeft(c, u, r);
        assert left.hDiff == -1 || left.hDiff == -2;
      }
      top := RotLeftAt(c, u, r);
    }

    /** The body of the climb for `r_inc`: go tells whether the parent is next, with rInc for it. */
    method RaiseDiff(isRight: bool, rem: bool, ghost c: Context<Node<K, V>>, ghost t: Tree<Node<K, V>>,
                     ghost r: Root<K, V>)
      returns (node: Node<K, V>, go: bool, rInc: bool, ghost s: Tree<Node<K, V>>)
      requires t.Branch? && t.node == this && Located(c, t, r) && OffBalance(c, t, true, rem)
      modifies Nodes(t), ContextNodes(c), r
      ensures r.tree == old(r.tree)
      ensures s.Branch? && s.node == node && Located(c, s, r) && Inorder(s) == Inorder(t)
      ensures go ==> Climbing(c, s, rem) && rInc == (isRight != rem)
      ensures !go ==> Settled(c, s)
    {
      node, s, rInc := this, Tilted(t, true), true;
      Tilt(true, c, t, r);
      if node.hDiff >= 2 {
        FixDecides(c, t, true, rem);
        node := RotateHeavyRight(c, s, r);
        s := FixRight(s);
        if rem && node.hDiff != -1 {
          go, rInc := true, !isRight;
        } else if !rem && node.hDiff == -1 {
          go, rInc := true, isRight;
        } else {
          go := false;
        }
      } else {
        TiltDecides(c, t, true, rem);
        if node.hDiff > 0 && !rem {
          go, rInc := true, isRight;
        } else if node.hDiff <= 0 && rem {
          go, rInc := true, !isRight;
        } else {
          go := false;
        }
      }
    }

    /** The body of the climb for `!r_inc`: go tells whether the parent is next, with rInc for it. */
    method LowerDiff(isRight: bool, rem: bool, ghost c: Context<Node<K, V>>, ghost t: Tree<Node<K, V>>,
                     ghost r: Root<K, V>)
      returns (node: Node<K, V>, go: bool, rInc: bool, ghost s: Tree<Node<K, V>>)
      requires t.Branch? && t.node == this && Located(c, t, r) && OffBalance(c, t, false, rem)
      modifies Nodes(t), ContextNodes(c), r
      ensures r.tree == old(r.tree)
      ensures s.Branch? && s.node == node && Located(c, s, r) && Inorder(s) == Inorder(t)
      ensures go ==> Climbing(c, s, rem) && rInc == (isRight != rem)
      ensures !go ==> Settled(c, s)
    {
      node, s, rInc := this, Tilted(t, false), false;
      Tilt(false, c, t, r);
      if node.hDiff <= -2 {
        FixDecides(c, t, false, rem);
        node := RotateHeavyLeft(c, s, r);
        s := FixLeft(s);
        if rem && node.hDiff != 1 {
          go, rInc := true, !isRight;
        } else if !rem && node.hDiff == 1 {
          go, rInc := true, isRight;
        } else {
          go := false;
        }
      } else {
        TiltDecides(c, t, false, rem);
        if node.hDiff < 0 && !rem {
          go, rInc := true, isRight;
        } else if node.hDiff >= 0 && rem {
          go, rInc := true, !isRight;
        } else {
          go := false;
        }
      }
    }

    /** Climbs from this node, whose subtree t0 is off balance, until the height change is absorbed. */
    method Rebalance(inc: bool, rem: bool, ghost c0: Context<Node<K, V>>, ghost t0: Tree<Node<K, V>>,
                     ghost r: Root<K, V>)
      returns (node: Node?<K, V>, ghost steps: nat)
      requires t0.Branch? && t0.node == this && Located(c0, t0, r) && OffBalance(c0, t0, inc, rem)
      modifies Nodes(t0), ContextNodes(c0), r
      ensures Located(Top, r.tree, r) && Avl(r.tree)
      ensures Inorder(r.tree) == Inorder(Plug(c0, t0))
      ensures steps <= Depth(c0) + 1 <= Height(Plug(c0, t0))
    {
      hide Inorder, OffBalance, Plug, Avl, Linked, LinkedContext;
      node, steps := this, 0;
      PlugHeight(c0, t0);
      var rInc := inc;
      ghost var c, t := c0, t0;
      while node != null
        invariant Located(c, t, r) && Inorder(Plug(c, t)) == Inorder(Plug(c0, t0))
        invariant Nodes(t) + ContextNodes(c) == Nodes(t0) + ContextNodes(c0)
        invariant steps + Depth(c) + (if node == null then 0 else 1) <= Depth(c0) + 1
        invariant node == null ==> c == Top && Avl(t)
        invariant node != null ==> t.Branch? && t.node == node && OffBalance(c, t, rInc, rem)
        decreases c, node != null
      {
        steps := steps + 1;
        var isRight := node.parent != null && node.parent.right == node;
        IsRightInContext(c, t, r);
        var go;
        ghost var s;
        if rInc {
          node, go, rInc, s := node.RaiseDiff(isRight, rem, c, t, r);
        } else {
          node, go, rInc, s := node.LowerDiff(isRight, rem, c, t, r);
        }
        PlugSameInorder(c, s, t);
        t := s;
        if !go {
          break;
        }
        LocatedAbove(c, t, r);
        node := node.parent;
        if c != Top {
          ClimbStep(c, t, rem);
          c, t := c.up, Above(c, t);
        }
      }
      r.Settle(c, t);
    }

    /** The first equal node in order, or the node below which the key belongs. */
    method Find(fx: K, less: (K, K) -> bool, ghost t: Tree<Node<K, V>>)
      returns (node: Node<K, V>, ghost c: Context<Node<K, V>>, ghost s: Tree<Node<K, V>>, ghost steps: nat)
      requires t.Branch? && t.node == this && Linked(t, parent, root)
      requires StrictWeakOrder(less) && Sorted(less, Keys(Inorder(t)))
      ensures s.Branch? && s.node == node && Plug(c, s) == t
      ensures Found(less, fx, c, s)
      ensures steps <= Height(t)
    {
      node := this;
      var eq: bool;
      c, s, steps := Top, t, 0;
      while true
        invariant s.Branch? && s.node == node && Linked(s, node.parent, node.root)
        invariant Plug(c, s) == t && Sorted(less, Keys(Inorder(s)))
        invariant AllLess(less, Keys(Before(c)), fx) && AllGreater(less, Keys(After(c)), fx)
        invariant steps + Height(s) <= Height(t)
        decreases s
      {
        var lt := less(fx, node.x);
        var gt := less(node.x, fx);
        eq := !lt && !gt;
        SortedParts(less, s, fx);
        if node.left != null && lt {
          DescendLeft(less, c, s, fx);
          c, s, steps := InLeft(s.node, s.diff, s.right, c), s.left, steps + 1;
          node := node.left;
        } else if gt && node.right != null {
          DescendRight(less, c, s, fx);
          c, s, steps := InRight(s.left, s.node, s.diff, c), s.right, steps + 1;
          node := node.right;
        } else {
          break;
        }
      }
      if eq {
        node, c, s, steps := node.FirstEqual(fx, less, c, s, steps);
      }
    }

    /** The second half of `find`: walks from an equal node to the first equal one. */
    method FirstEqual(fx: K, less: (K, K) -> bool, ghost c0: Context<Node<K, V>>, ghost s0: Tree<Node<K, V>>,
                      ghost done: nat)
      returns (node: Node<K, V>, ghost c: Context<Node<K, V>>, ghost s: Tree<Node<K, V>>, ghost steps: nat)
      requires s0.Branch? && s0.node == this && Linked(s0, parent, root)
      requires StrictWeakOrder(less) && Sorted(less, Keys(Inorder(s0))) && Equivalent(less, fx, x)
      requires AllLess(less, Keys(Before(c0)), fx)
      ensures s.Branch? && s.node == node && Plug(c, s) == Plug(c0, s0)
      ensures Equivalent(less, fx, node.x) && AllLess(less, Keys(Before(c) + Inorder(s.left)), fx)
      ensures steps <= done + Height(s0)
    {
      hide StrictWeakOrder, Sorted, AllLess, NoneGreater, Avl, Narrowed, Inorder, Keys, Before, Plug;
      node := this;
      c, s := c0, s0;
      NarrowToEqual(less, fx, c, s, Plug(c0, s0));
      var next := node.left;
      assert Linked(s.left, this, null);
      ghost var up, u := InLeft(s.node, s.diff, s.right, c), s.left;
      steps := done + 1;
      while next != null
        invariant s.Branch? && s.node == node && Equivalent(less, fx, node.x)
        invariant Narrowed(less, fx, c, s, up, u, Plug(c0, s0)) && AtTop(next, u)
        invariant steps + Height(u) <= done + Height(s0)
        decreases Height(u)
      {
        ghost var h := Height(u);
        while next != null && !less(fx, next.x) && !less(next.x, fx)
          invariant s.Branch? && s.node == node && Equivalent(less, fx, node.x)
          invariant Narrowed(less, fx, c, s, up, u, Plug(c0, s0)) && AtTop(next, u)
          invariant steps + Height(u) <= done + Height(s0)
          invariant Height(u) <= h && (Height(u) == h ==> next != null)
          decreases Height(u)
        {
          NarrowedParts(less, fx, c, s, up, u, Plug(c0, s0));
          NarrowToEqual(less, fx, up, u, Plug(c0, s0));
          assert Linked(u.left, next, null);
          node, c, s := next, up, u;
          next := next.left;
          up, u, steps := InLeft(u.node, u.diff, u.right, up), u.left, steps + 1;
        }
        if next != null {
          NotPast(less, fx, c, s, up, u, Plug(c0, s0));
        }
        while next != null && less(next.x, fx)
          invariant Narrowed(less, fx, c, s, up, u, Plug(c0, s0)) && AtTop(next, u)
          invariant steps + Height(u) <= done + Height(s0)
          invariant Height(u) <= h && (Height(u) == h ==> next != null && less(next.x, fx))
          decreases Height(u)
        {
          NarrowPastLess(less, fx, c, s, up, u, Plug(c0, s0));
          assert Linked(u.right, next, null);
          next := next.right;
          up, u, steps := InRight(u.left, u.node, u.diff, up), u.right, steps + 1;
        }
      }
      NarrowedParts(less, fx, c, s, up, u, Plug(c0, s0));
    }

    /** `this->left = node`, for a node without a left child. */
    method AttachLeft(node: Node<K, V>, ghost c: Context<Node<K, V>>, ghost s: Tree<Node<K, V>>, ghost r: Root<K, V>)
      requires s.Branch? && s.node == this && s.left == Leaf && Located(c, s, r)
      requires node.Detached() && node !in Nodes(s) && node !in ContextNodes(c)
      modifies this`left, node`parent
      ensures Located(c, s.(left := Single(node)), r)
    {
      left := node;
      left.parent := this;
    }

    method AttachRight(node: Node<K, V>, ghost c: Context<Node<K, V>>, ghost s: Tree<Node<K, V>>, ghost r: Root<K, V>)
      requires s.Branch? && s.node == this && s.right == Leaf && Located(c, s, r)
      requires node.Detached() && node !in Nodes(s) && node !in ContextNodes(c)
      modifies this`right, node`parent
      ensures Located(c, s.(right := Single(node)), r)
    {
      right := node;
      right.parent := this;
    }

    /** Hangs a new node below this one and repairs the balance upwards. */
    method GrowLeft(node: Node<K, V>, ghost c: Context<Node<K, V>>, ghost s: Tree<Node<K, V>>, ghost r: Root<K, V>)
      requires s.Branch? && s.node == this && s.left == Leaf && Located(c, s, r) && Avl(Plug(c, s))
      requires node.Detached() && node !in Nodes(s) && node !in ContextNodes(c)
      modifies Nodes(s), ContextNodes(c), r, node
      ensures r.Valid() && Inorder(r.tree) == Inorder(Plug(c, s.(left := Single(node))))
    {
      HangBalance(c, s, node, false);
      AttachLeft(node, c, s, r);
      var top, steps := Rebalance(false, false, c, s.(left := Single(node)), r);
    }

    method GrowRight(node: Node<K, V>, ghost c: Context<Node<K, V>>, ghost s: Tree<Node<K, V>>, ghost r: Root<K, V>)
      requires s.Branch? && s.node == this && s.right == Leaf && Located(c, s, r) && Avl(Plug(c, s))
      requires node.Detached() && node !in Nodes(s) && node !in ContextNodes(c)
      modifies Nodes(s), ContextNodes(c), r, node
      ensures r.Valid() && Inorder(r.tree) == Inorder(Plug(c, s.(right := Single(node))))
    {
      HangBalance(c, s, node, true);
      AttachRight(node, c, s, r);
      var top, steps := Rebalance(true, false, c, s.(right := Single(node)), r);
    }

    /** A node that is not part of a tree, as the constructor leaves it. */
    ghost predicate Detached()
      reads this
    {
      root == null && hDiff == 0 && left == null && right == null
    }

    /** Inserts a detached node in the subtree t0, whose keys and the node's key fit between the surrounding ones;
        i is its position in the in-order sequence. */
    method InsertNode(node: Node<K, V>, less: (K, K) -> bool,
                      ghost c0: Context<Node<K, V>>, ghost t0: Tree<Node<K, V>>, ghost r: Root<K, V>)
      returns (ghost i: nat)
      requires t0.Branch? && t0.node == this && Located(c0, t0, r) && Avl(Plug(c0, t0))
      requires node.Detached() && node !in Nodes(t0) && node !in ContextNodes(c0)
      requires StrictWeakOrder(less) && Sorted(less, Keys(Inorder(Plug(c0, t0))))
      requires NoneGreater(less, Keys(Before(c0)), node.x) && NoneLess(less, Keys(After(c0)), node.x)
      modifies Nodes(t0), ContextNodes(c0), r, node
      ensures r.Valid() && Placed(less, Inorder(Plug(c0, t0)), node, i, Inorder(r.tree))
      ensures i == |Before(c0)| + Landing(less, node.x, t0)
      ensures BehindEqual(less, Keys(Inorder(t0)), node.x, Landing(less, node.x, t0))
      decreases Height(t0)
    {
      hide Landing, BehindEqual;
      SortedContext(less, c0, t0);
      LandingBehind(less, node.x, t0);
      assert allocated(Nodes(t0)) && allocated(ContextNodes(c0));
      var res;
      ghost var whole, s;
      res, whole, s, i := FindPlace(node, less, c0, t0, r);
      var lt := less(node.x, res.x);
      if lt {
        res.GrowLeft(node, whole, s, r);
      } else if less(res.x, node.x) || res.right == null {
        res.GrowRight(node, whole, s, r);
      } else {
        ZoomRight(whole, s, r);
        i := res.right.InsertNode(node, less, InRight(s.left, s.node, s.diff, whole), s.right, r);
      }
    }

    /** `find`, with what it means for an insertion. */
    method FindPlace(node: Node<K, V>, less: (K, K) -> bool,
                     ghost c0: Context<Node<K, V>>, ghost t0: Tree<Node<K, V>>, ghost r: Root<K, V>)
      returns (res: Node<K, V>, ghost whole: Context<Node<K, V>>, ghost s: Tree<Node<K, V>>, ghost i: nat)
      requires t0.Branch? && t0.node == this && Located(c0, t0, r) && Avl(Plug(c0, t0))
      requires StrictWeakOrder(less) && Sorted(less, Keys(Inorder(Plug(c0, t0))))
      requires NoneGreater(less, Keys(Before(c0)), node.x) && NoneLess(less, Keys(After(c0)), node.x)
      ensures s.Branch? && s.node == res && Located(whole, s, r) && Height(s) <= Height(t0)
      ensures Plug(whole, s) == Plug(c0, t0) && Nodes(s) + ContextNodes(whole) == Nodes(t0) + ContextNodes(c0)
      ensures less(node.x, res.x) ==>
        s.left == Leaf && Placed(less, Inorder(Plug(c0, t0)), node, i, Inorder(Plug(whole, s.(left := Single(node)))))
      ensures !less(node.x, res.x) && s.right == Leaf ==>
        Placed(less, Inorder(Plug(c0, t0)), node, i, Inorder(Plug(whole, s.(right := Single(node)))))
      ensures less(res.x, node.x) ==> s.right == Leaf && !less(node.x, res.x)
      ensures less(node.x, res.x) || s.right == Leaf ==> i == |Before(c0)| + Landing(less, node.x, t0)
      ensures !less(node.x, res.x) && s.right.Branch? ==>
        |Before(InRight(s.left, s.node, s.diff, whole))| + Landing(less, node.x, s.right) ==
        |Before(c0)| + Landing(less, node.x, t0)
      ensures var below := InRight(s.left, s.node, s.diff, whole);
        !less(node.x, res.x) ==>
          NoneGreater(less, Keys(Before(below)), node.x) && NoneLess(less, Keys(After(below)), node.x)
    {
      hide Plug, Compose, Inorder, Keys, Landing;
      assert Sorted(less, Keys(Inorder(t0))) by {
        SortedContext(less, c0, t0);
      }
      assert allocated(Nodes(t0)) && allocated(ContextNodes(c0));
      ghost var c, steps;
      res, c, s, steps := Find(node.x, less, t0);
      whole := Compose(c0, c);
      LocateComposed(c0, c, s, t0, r);
      LandingFound(less, node.x, c, s);
      ComposeInorder(c0, c);
      if less(node.x, res.x) {
        i := PlaceLeft(less, node, c0, c, s, t0);
      } else {
        i := 0;
        if s.right == Leaf {
          i := PlaceRight(less, node, c0, c, s, t0);
        }
        FoundFitsRight(less, node.x, c0, c, s, t0);
      }
    }

    /** Puts the only child, if any, in the place of this node. */
    method Bypass(ghost c: Context<Node<K, V>>, ghost t: Tree<Node<K, V>>, ghost r: Root<K, V>)
      requires t.Branch? && t.node == this && Located(c, t, r) && (t.left == Leaf || t.right == Leaf)
      modifies Nodes(t), ContextNodes(c), r
      ensures r.tree == old(r.tree) && parent == old(parent)
      ensures left == null && right == null
      ensures Located(c, OnlyChild(t), r) && ParentIn(c) == parent
      ensures Nodes(OnlyChild(t)) == Nodes(t) - {this} && this !in ContextNodes(c)
    {
      hide Distinct, Nodes, Inorder, Height, Avl;
      SlotOfLocated(c, t, r);
      OwnParts(t);
      LeafNodes<Node<K, V>>();
      ghost var u := OnlyChild(t);
      assert Linked(t.left, this, null) && Linked(t.right, this, null);
      assert allocated(Nodes(t)) && allocated(ContextNodes(c)) && allocated(Nodes(u));
      TakeOut();
      assert LinkedContext(c, TopOf(u), r) by {
        ContextStored((c, r));
      }
    }

    method TakeOut()
      requires left == null || right == null
      requires left != this && right != this && !ParentPtr().NoSlot? && this !in ParentPtr().Owner()
      requires left != null ==> left !in ParentPtr().Owner()
      requires right != null ==> right !in ParentPtr().Owner()
      modifies this, left, right, ParentPtr().Owner()
      ensures var child := if old(left) != null then old(left) else old(right);
        && old(ParentPtr()).Stored(child)
        && (child != null ==> (
             && child.parent == old(parent) && child.root == old(root)
             && child.left == old(child.left) && child.right == old(child.right) && child.hDiff == old(child.hDiff)))
      ensures left == null && right == null && SameLinks()
    {
      var ptr := ParentPtr();
      var ret: Node?<K, V> := null;
      if left != null && right == null {
        ret, left := left, null;
      } else if right != null && left == null {
        ret, right := right, null;
      }
      if ret != null {
        ret.parent := parent;
        ret.root := root;
      }
      ptr.Store(ret);
    }

    /** `ret` takes the place of this node, with its children, balance field, parent and root link. */
    method TakeOver(ret: Node<K, V>)
      requires ret != this && ret.left == null && ret.right == null
      requires left != null && left != this && left != ret
      requires right != null ==> right != this && right != ret && right != left
      requires !ParentPtr().NoSlot? && this !in ParentPtr().Owner() && ret !in ParentPtr().Owner() &&
        left !in ParentPtr().Owner()
      requires right != null ==> right !in ParentPtr().Owner()
      modifies this, ret, left, right, ParentPtr().Owner()
      ensures left == null && right == null && SameLinks()
      ensures ret.left == old(left) && ret.right == old(right)
      ensures ret.hDiff == old(hDiff) && ret.parent == old(parent) && ret.root == old(root)
      ensures var l := old(left);
        l.parent == ret && l.root == old(l.root) && l.hDiff == old(l.hDiff) && l.left == old(l.left) &&
          l.right == old(l.right)
      ensures var r := old(right); r != null ==>
        r.parent == ret && r.root == old(r.root) && r.hDiff == old(r.hDiff) && r.left == old(r.left) &&
          r.right == old(r.right)
      ensures old(ParentPtr()).Stored(ret)
    {
      var ptr := ParentPtr();
      var prevRight: Node?<K, V> := null;
      if right != null {
        prevRight, right := right, null;
        prevRight.parent := ret;
      }
      if left != null {
        ret.left, left := left, null;
        ret.left.parent := ret;
      }
      ret.hDiff := hDiff;
      ret.right := prevRight;
      ret.parent := parent;
      ret.root := root;
      ptr.Store(ret);
    }

    method TakeOverAt(ret: Node<K, V>, ghost c: Context<Node<K, V>>, ghost t: Tree<Node<K, V>>, ghost q: Node<K, V>,
                      ghost r: Root<K, V>)
      requires t.Branch? && t.node == this && t.left.Branch? && Vacated(c, t, q, r)
      requires ret !in Nodes(t) && ret !in ContextNodes(c) && ret.left == null && ret.right == null
      modifies Nodes(t), ContextNodes(c), r, ret
      ensures r.tree == old(r.tree) && left == null && right == null
      ensures Located(c, t.(node := ret), r)
    {
      hide Distinct, Nodes, Inorder, Height, Avl;
      SlotOfVacated(c, t, q, r);
      OwnParts(t);
      assert allocated(Nodes(t)) && allocated(ContextNodes(c)) && allocated(Nodes(t.left)) && allocated(Nodes(t.right));
      TakeOver(ret);
      assert LinkedContext(c, ret, r) by {
        ContextStored((c, r));
      }
      assert Linked(t.left, ret, null);
      assert Linked(t.right, ret, null);
      SameNodesButTop(t, ret);
    }

    /** Finds the slot of the in-order successor: the leftmost node of the right subtree. */
    method NextSlot(ghost c: Context<Node<K, V>>, ghost t: Tree<Node<K, V>>, ghost r: Root<K, V>)
      returns (rl: Slot<K, V>, ghost cs: Context<Node<K, V>>, ghost u: Tree<Node<K, V>>)
      requires t.Branch? && t.node == this && t.right.Branch? && Located(c, t, r)
      ensures Plug(cs, u) == t.right && u.Branch? && u.left == Leaf && AllLeft(cs)
      ensures rl == SlotIn(Compose(InRight(t.left, this, t.diff, c), cs), r) && !rl.NoSlot? && !rl.AtRoot?
      ensures Located(Compose(InRight(t.left, this, t.diff, c), cs), u, r)
      ensures rl.Held() == u.node
    {
      ghost var c1 := InRight(t.left, this, t.diff, c);
      ZoomRight(c, t, r);
      rl, cs, u := RightOf(this), Top, t.right;
      while rl.Held().left != null
        invariant u.Branch? && Plug(cs, u) == t.right && AllLeft(cs)
        invariant Located(Compose(c1, cs), u, r) && rl == SlotIn(Compose(c1, cs), r) && rl.Held() == u.node &&
          !rl.NoSlot? && !rl.AtRoot?
        decreases u
      {
        ZoomLeft(Compose(c1, cs), u, r);
        rl := LeftOf(rl.Held());
        cs, u := InLeft(u.node, u.diff, u.right, cs), u.left;
      }
    }

    /** Takes the node out of the slot rl that holds it, leaving its right child there. */
    method TakeFrom(rl: Slot<K, V>, prevParent: Node<K, V>)
      requires !rl.NoSlot? && !rl.AtRoot? && rl.Held() == this && left == null && this !in rl.Owner()
      requires right != null ==> right != this && right !in rl.Owner()
      modifies this, right, rl.Owner()
      ensures right == null && left == null && SameLinks() && rl.Stored(old(right))
      ensures var child := old(right); child != null ==>
        child.parent == prevParent && child.root == old(child.root) && child.hDiff == old(child.hDiff) &&
        child.left == old(child.left) && child.right == old(child.right)
    {
      rl.Store(null);
      if right != null {
        var child := right;
        rl.Store(child);
        right := null;
        child.parent := prevParent;
      }
    }

    method TakeFromAt(rl: Slot<K, V>, prevParent: Node<K, V>, ghost c: Context<Node<K, V>>, ghost u: Tree<Node<K, V>>,
                      ghost r: Root<K, V>)
      requires u.Branch? && u.node == this && u.left == Leaf && Located(c, u, r) && rl == SlotIn(c, r) && c != Top
      modifies Nodes(u), ContextNodes(c), r
      ensures r.tree == old(r.tree) && right == null && left == null
      ensures LinkedContext(c, TopOf(u.right), r) && Linked(u.right, prevParent, null)
    {
      SlotOfLocated(c, u, r);
      ghost var sr := u.right;
      assert Linked(sr, this, null) && Distinct(sr);
      assert allocated(Nodes(u)) && allocated(ContextNodes(c)) && allocated(Nodes(sr));
      assert sr.Branch? ==> Nodes(sr.left) <= Nodes(sr) && Nodes(sr.right) <= Nodes(sr);
      TakeFrom(rl, prevParent);
      ContextStored((c, r));
    }

    /** Takes the in-order successor out of the right subtree. */
    method TakeNext(ghost c: Context<Node<K, V>>, ghost t: Tree<Node<K, V>>, ghost r: Root<K, V>)
      returns (ret: Node<K, V>, prevParent: Node<K, V>, leftChild: bool, ghost cs: Context<Node<K, V>>,
        ghost u: Tree<Node<K, V>>)
      requires t.Branch? && t.node == this && t.right.Branch? && Located(c, t, r)
      modifies Nodes(t), ContextNodes(c), r
      ensures r.tree == old(r.tree)
      ensures Plug(cs, u) == t.right && u.Branch? && u.left == Leaf && u.node == ret && AllLeft(cs)
      ensures leftChild == (cs != Top) && prevParent == (if cs == Top then ret else ParentIn(cs))
      ensures ret.left == null && ret.right == null
      ensures Vacated(c, t.(right := Plug(cs, u.right)), if leftChild then this else ret, r)
    {
      var rl;
      assert allocated(Nodes(t)) && allocated(ContextNodes(c));
      rl, cs, u := NextSlot(c, t, r);
      ghost var c1 := InRight(t.left, this, t.diff, c);
      ret := rl.Held();
      SlotOfLocated(Compose(c1, cs), u, r);
      PlugTop(cs, u);
      leftChild := ret != right;
      prevParent := if leftChild then ret.parent else ret;
      LocateComposed(c1, cs, u, t.right, r);
      ret.TakeFromAt(rl, prevParent, Compose(c1, cs), u, r);
      VacatedBelow(c, t, cs, u, prevParent, r);
    }

    /** Removes this node from the tree of r; i was its position in the in-order sequence. */
    method Remove(ghost r: Root<K, V>) returns (ret: Node<K, V>, ghost i: nat)
      requires r.Valid() && this in Nodes(r.tree)
      modifies Nodes(r.tree), r
      ensures ret == this && left == null && right == null
      ensures r.Valid() && this !in Nodes(r.tree)
      ensures InsertedAt(Inorder(r.tree), this, i, old(Inorder(r.tree)))
    {
      ghost var (c, t) := Locate(r.tree, this);
      LocatedPlug(c, t, r);
      PlugNodes(c, t);
      if left != null && right != null {
        i := RemoveInner(c, t, r);
      } else {
        i := RemoveOuter(c, t, r);
      }
      ret := this;
      RemovedNode(r.tree, this, i, old(r.tree));
    }

    /** The node has two children: the in-order successor takes its place. */
    method RemoveInner(ghost c: Context<Node<K, V>>, ghost t: Tree<Node<K, V>>, ghost r: Root<K, V>)
      returns (ghost i: nat)
      requires t.Branch? && t.node == this && t.left.Branch? && t.right.Branch? && Located(c, t, r) && Avl(Plug(c, t))
      modifies Nodes(t), ContextNodes(c), r
      ensures left == null && right == null && r.Valid()
      ensures InsertedAt(Inorder(r.tree), this, i, Inorder(Plug(c, t)))
    {
      var prevParent, leftChild;
      ghost var whole, u;
      prevParent, leftChild, whole, u, i := Splice(c, t, r);
      prevParent.RepairFrom(leftChild, whole, u, r);
    }

    /** Puts the successor in the place of this node; prevParent is the lowest node whose subtree has shrunk. */
    method Splice(ghost c: Context<Node<K, V>>, ghost t: Tree<Node<K, V>>, ghost r: Root<K, V>)
      returns (prevParent: Node<K, V>, leftChild: bool, ghost whole: Context<Node<K, V>>, ghost u: Tree<Node<K, V>>,
        ghost i: nat)
      requires t.Branch? && t.node == this && t.left.Branch? && t.right.Branch? && Located(c, t, r) && Avl(Plug(c, t))
      modifies Nodes(t), ContextNodes(c), r
      ensures left == null && right == null && r.tree == old(r.tree)
      ensures Located(whole, u, r) && Climbing(whole, u, true)
      ensures whole != Top && prevParent == ParentIn(whole) && leftChild == whole.InLeft?
      ensures Nodes(u) + ContextNodes(whole) == Nodes(t) + ContextNodes(c) - {this}
      ensures InsertedAt(Inorder(Plug(whole, u)), this, i, Inorder(Plug(c, t)))
    {
      var ret;
      ghost var cs, u0;
      ret, prevParent, leftChild, cs, u0 := Replace(c, t, r);
      whole, u := Compose(InRight(t.left, ret, t.diff, c), cs), u0.right;
      assert Climbing(whole, u, true) && Plug(whole, u) == Plug(c, SpliceTree(t, cs, u0)) by {
        SplicedShape(c, t, cs, u0);
      }
      SpliceTreeInorder(t, cs, u0);
      i := PlugWithout(c, SpliceTree(t, cs, u0), t);
      LocateSpliced(c, SpliceTree(t, cs, u0), cs, u, r);
    }

    method Replace(ghost c: Context<Node<K, V>>, ghost t: Tree<Node<K, V>>, ghost r: Root<K, V>)
      returns (ret: Node<K, V>, prevParent: Node<K, V>, leftChild: bool, ghost cs: Context<Node<K, V>>,
        ghost u: Tree<Node<K, V>>)
      requires t.Branch? && t.node == this && t.left.Branch? && t.right.Branch? && Located(c, t, r)
      modifies Nodes(t), ContextNodes(c), r
      ensures left == null && right == null && r.tree == old(r.tree)
      ensures Plug(cs, u) == t.right && u.Branch? && u.left == Leaf && u.node == ret && AllLeft(cs)
      ensures leftChild == (cs != Top) && prevParent == (if cs == Top then ret else ParentIn(cs))
      ensures Located(c, SpliceTree(t, cs, u), r)
      ensures Nodes(SpliceTree(t, cs, u)) == Nodes(t) - {this} && this !in ContextNodes(c)
    {
      assert allocated(Nodes(t)) && allocated(ContextNodes(c));
      ret, prevParent, leftChild, cs, u := TakeNext(c, t, r);
      SplicedNodes(c, t, cs, u);
      TakeOverAt(ret, c, t.(right := Plug(cs, u.right)), if leftChild then this else ret, r);
    }

    /** The node has at most one child, which takes its place. */
    method RemoveOuter(ghost c: Context<Node<K, V>>, ghost t: Tree<Node<K, V>>, ghost r: Root<K, V>)
      returns (ghost i: nat)
      requires t.Branch? && t.node == this && (t.left == Leaf || t.right == Leaf) && Located(c, t, r) && Avl(Plug(c, t))
      modifies Nodes(t), ContextNodes(c), r
      ensures left == null && right == null && r.Valid()
      ensures InsertedAt(Inorder(r.tree), this, i, Inorder(Plug(c, t)))
    {
      ghost var u := OnlyChild(t);
      i := BypassedTree(c, t);
      SlotOfLocated(c, t, r);
      var isLeft := ParentPtr().LeftOf?;
      Bypass(c, t, r);
      if parent != null {
        parent.RepairFrom(isLeft, c, u, r);
      } else {
        r.Settle(c, u);
      }
    }

    /** The subtree u below this node has become one lower. */
    method RepairFrom(leftChild: bool, ghost c: Context<Node<K, V>>, ghost u: Tree<Node<K, V>>, ghost r: Root<K, V>)
      requires c != Top && this == ParentIn(c) && leftChild == c.InLeft?
      requires Located(c, u, r) && Climbing(c, u, true)
      modifies Nodes(u), ContextNodes(c), r
      ensures r.Valid() && Inorder(r.tree) == Inorder(Plug(c, u))
    {
      LocatedAbove(c, u, r);
      ClimbStep(c, u, true);
      var top, steps := Rebalance(leftChild, true, c.up, Above(c, u), r);
    }

    /** This node's links agree with those of its parent and children, all of which are in `family`. */
    ghost predicate Kin(family: set<Node<K, V>>, r: Root<K, V>)
      reads this, family, r
    {
      && (left != null ==> left in family && left.parent == this && left != right && left != this)
      && (right != null ==> right in family && right.parent == this && right != this)
      && (parent == null <==> r.ptr == this) && root == (if parent == null then r else null)
      && (parent != null ==> parent in family && parent != this && (parent.left == this || parent.right == this))
    }

    /** Empties the two owning slots; a slot inside one of the two nodes is redirected to the other node. */
    method Release(other: Node<K, V>) returns (pptr: Slot<K, V>, opptr: Slot<K, V>)
      requires this != other && !ParentPtr().NoSlot? && !other.ParentPtr().NoSlot?
      requires parent != this && other.parent != other && !(parent == other && other.parent == this)
      modifies ParentPtr().Owner(), other.ParentPtr().Owner()
      ensures pptr == Redirected(old(ParentPtr()), this, other) &&
        opptr == Redirected(old(other.ParentPtr()), this, other)
      ensures forall o: Node<K, V> :: old(allocated(o)) ==> (
        && o.SameLinks()
        && o.left == (if LeftOf(o) == old(ParentPtr()) || LeftOf(o) == old(other.ParentPtr()) then null
             else old(o.left))
        && o.right == (if RightOf(o) == old(ParentPtr()) || RightOf(o) == old(other.ParentPtr()) then null
             else old(o.right)))
      ensures forall o: Root<K, V> :: old(allocated(o)) ==> (
        && o.tree == old(o.tree)
        && o.ptr == (if AtRoot(o) == old(ParentPtr()) || AtRoot(o) == old(other.ParentPtr()) then null else old(o.ptr)))
    {
      pptr, opptr := ParentPtr(), other.ParentPtr();
      pptr.Store(null);
      opptr.Store(null);
      if parent == other {
        pptr := if pptr == LeftOf(other) then LeftOf(this) else RightOf(this);
      } else if other.parent == this {
        opptr := if opptr == LeftOf(this) then LeftOf(other) else RightOf(other);
      }
    }

    method SwapFields(other: Node<K, V>)
      requires this != other
      modifies this, other
      ensures left == old(other.left) && right == old(other.right) && other.left == old(left) &&
        other.right == old(right)
      ensures parent == old(other.parent) && root == old(other.root) && hDiff == old(other.hDiff)
      ensures other.parent == old(parent) && other.root == old(root) && other.hDiff == old(hDiff)
    {
      left, other.left := other.left, left;
      right, other.right := other.right, right;
      parent, other.parent := other.parent, parent;
      root, other.root := other.root, root;
      hDiff, other.hDiff := other.hDiff, hDiff;
    }

    method PutBack(other: Node<K, V>, pptr: Slot<K, V>, opptr: Slot<K, V>)
      requires !pptr.NoSlot? && !opptr.NoSlot? && pptr != opptr
      modifies pptr.Owner(), opptr.Owner()
      ensures forall o: Node<K, V> :: old(allocated(o)) ==> (
        && o.SameLinks()
        && o.left == (if LeftOf(o) == pptr then other else if LeftOf(o) == opptr then this else old(o.left))
        && o.right == (if RightOf(o) == pptr then other else if RightOf(o) == opptr then this else old(o.right)))
      ensures forall o: Root<K, V> :: old(allocated(o)) ==> (
        && o.tree == old(o.tree)
        && o.ptr == (if AtRoot(o) == pptr then other else if AtRoot(o) == opptr then this else old(o.ptr)))
    {
      pptr.Store(other);
      opptr.Store(this);
    }

    /** Release, and the exchange of all the fields: the nodes have traded places, in slots that are empty. */
    method Detach(other: Node<K, V>) returns (pptr: Slot<K, V>, opptr: Slot<K, V>)
      requires this != other && !ParentPtr().NoSlot? && !other.ParentPtr().NoSlot?
      requires parent != this && other.parent != other && !(parent == other && other.parent == this)
      modifies this, other, ParentPtr().Owner(), other.ParentPtr().Owner()
      ensures pptr == Redirected(old(ParentPtr()), this, other) &&
        opptr == Redirected(old(other.ParentPtr()), this, other)
      ensures forall n: Node<K, V> :: old(allocated(n)) ==>
        var m := if n == this then other else if n == other then this else n;
        && m.left == (if LeftOf(n) == old(ParentPtr()) || LeftOf(n) == old(other.ParentPtr()) then null
             else old(n.left))
        && m.right == (if RightOf(n) == old(ParentPtr()) || RightOf(n) == old(other.ParentPtr()) then null
             else old(n.right))
        && m.root == old(n.root) && m.hDiff == old(n.hDiff) && m.parent == old(n.parent)
      ensures forall o: Root<K, V> :: old(allocated(o)) ==> (
        && o.tree == old(o.tree)
        && o.ptr == (if AtRoot(o) == old(ParentPtr()) || AtRoot(o) == old(other.ParentPtr()) then null else old(o.ptr)))
    {
      pptr, opptr := Release(other);
      SwapFields(other);
    }

    method MoveLinks(other: Node<K, V>)
      requires this != other && !ParentPtr().NoSlot? && !other.ParentPtr().NoSlot? && ParentPtr() != other.ParentPtr()
      requires parent != this && other.parent != other && !(parent == other && other.parent == this)
      modifies this, other, ParentPtr().Owner(), other.ParentPtr().Owner()
      ensures forall n: Node<K, V> :: old(allocated(n)) ==>
        Relinked(n, this, other, old(ParentPtr()), old(other.ParentPtr()))
      ensures forall o: Root<K, V> :: old(allocated(o)) ==> (
        && o.tree == old(o.tree)
        && o.ptr == (if AtRoot(o) == old(ParentPtr()) then other else if AtRoot(o) == old(other.ParentPtr()) then this
             else old(o.ptr)))
    {
      var pptr, opptr := Detach(other);
      PutBack(other, pptr, opptr);
      forall n: Node<K, V> | old(allocated(n))
        ensures Relinked(n, this, other, old(ParentPtr()), old(other.ParentPtr()))
      {
        var m := if n == this then other else if n == other then this else n;
        RedirectedSame(old(ParentPtr()), this, other, n, m);
        RedirectedSame(old(other.ParentPtr()), this, other, n, m);
      }
    }

    /** Gives the children of both nodes their new parent. */
    method AdoptChildren(other: Node<K, V>, ghost family: set<Node<K, V>>)
      requires this != other
      modifies left, right, other.left, other.right
      ensures forall n :: n in family ==> old(allocated(n)) ==>
        && n.left == old(n.left) && n.right == old(n.right) && n.root == old(n.root) && n.hDiff == old(n.hDiff)
        && n.parent == (if n == other.left || n == other.right then other else if n == left || n == right then this
             else old(n.parent))
    {
      if right != null {
        right.parent := this;
      }
      if left != null {
        left.parent := this;
      }
      if other.right != null {
        other.right.parent := other;
      }
      if other.left != null {
        other.left.parent := other;
      }
    }

    /** After MoveLinks the owning fields are right; the parents of the children are still the old ones. */
    method Move(other: Node<K, V>, ghost family: set<Node<K, V>>, ghost r: Root<K, V>)
      requires this != other && this in family && other in family && IsFamily(family, r)
      requires !(parent == other && other.parent == this)
      modifies family, r
      ensures r.ptr == Other(old(r.ptr), this, other) && r.tree == old(r.tree)
      ensures forall n :: n in family ==> old(allocated(n)) && Moved(n, this, other)
    {
      assert old(allocated(family));
      assert Kin(family, r) && other.Kin(family, r);
      MoveLinks(other);
      forall n | n in family ensures Moved(n, this, other) {
        assert old(n.Kin(family, r)) && Relinked(n, this, other, old(ParentPtr()), old(other.ParentPtr()));
      }
    }

    /** Move, and which nodes are then the children that still have to be adopted. */
    method MoveAll(other: Node<K, V>, ghost family: set<Node<K, V>>, ghost r: Root<K, V>)
      requires this != other && this in family && other in family && IsFamily(family, r)
      requires !(parent == other && other.parent == this)
      modifies family, r
      ensures r.ptr == Other(old(r.ptr), this, other) && r.tree == old(r.tree)
      ensures forall n :: n in family ==> old(allocated(n)) && Moved(n, this, other) && Orphaned(n, this, other)
      ensures Orphans(this, other) <= family
    {
      assert old(allocated(family));
      assert Kin(family, r) && other.Kin(family, r);
      Move(other, family, r);
      assert Moved(this, this, other) && Moved(other, this, other);
      forall n | n in family ensures Orphaned(n, this, other) {
        assert old(n.Kin(family, r));
      }
    }

    /** Every field of every node is the old one seen through the exchange of the two nodes. */
    method Exchange(other: Node<K, V>, ghost family: set<Node<K, V>>, ghost r: Root<K, V>)
      requires this != other && this in family && other in family && IsFamily(family, r)
      requires !(parent == other && other.parent == this)
      modifies family, r
      ensures r.ptr == Other(old(r.ptr), this, other) && r.tree == old(r.tree)
      ensures forall n :: n in family ==> old(allocated(n)) && Exchanged(n, this, other)
    {
      assert old(allocated(family));
      MoveAll(other, family, r);
      AdoptChildren(other, family);
      forall n | n in family ensures Exchanged(n, this, other) {
        var m := if n == this then other else if n == other then this else n;
        assert m in family;
      }
    }

    /** Exchanges the positions of this node and `other` in the tree of r. */
    method SwapPositions(other: Node<K, V>, ghost r: Root<K, V>)
      requires r.Valid() && this in Nodes(r.tree) && other in Nodes(r.tree) && this != other
      modifies Nodes(r.tree), r
      ensures r.Valid() && r.tree == Renamed(old(r.tree), this, other)
      ensures Inorder(r.tree) == SwappedSeq(old(Inorder(r.tree)), this, other)
    {
      ghost var t := r.tree;
      assert allocated(Nodes(t));
      TreeFamily(t, r);
      NoCycle(t, this, other, r);
      Exchange(other, Nodes(t), r);
      RenamedLinked(Renaming(t, Nodes(t), this, other));
      RenamedShape(t, this, other);
      RenamedInorder(t, this, other);
      RenamedTop(t, this, other);
      r.SetTree(Renamed(t, this, other));
    }

    /** The leftmost node below this one, which heads u, in the subtree t. */
    method Leftmost(ghost z0: Context<Node<K, V>>, ghost c: Context<Node<K, V>>, ghost u0: Tree<Node<K, V>>,
                    ghost t: Tree<Node<K, V>>, ghost r: Root<K, V>)
      returns (node: Node<K, V>)
      requires u0.Branch? && u0.node == this && Plug(z0, u0) == t && Located(c, t, r)
      ensures |Before(z0)| < |Inorder(t)| && node == Inorder(t)[|Before(z0)|]
    {
      LocateComposed(c, z0, u0, t, r);
      node := this;
      ghost var z, u := z0, u0;
      while node.left != null
        invariant u.Branch? && node == u.node && Plug(z, u) == t && Located(Compose(c, z), u, r)
        invariant |Before(z)| == |Before(z0)|
        decreases u
      {
        ZoomLeft(Compose(c, z), u, r);
        z, u := InLeft(u.node, u.diff, u.right, z), u.left;
        node := node.left;
      }
      AtIndex(z, u);
    }

    method Rightmost(ghost z0: Context<Node<K, V>>, ghost c: Context<Node<K, V>>, ghost u0: Tree<Node<K, V>>,
                     ghost t: Tree<Node<K, V>>, ghost r: Root<K, V>)
      returns (node: Node<K, V>)
      requires u0.Branch? && u0.node == this && Plug(z0, u0) == t && Located(c, t, r)
      ensures var i := |Before(z0)| + |Inorder(u0)| - 1; 0 <= i < |Inorder(t)| && node == Inorder(t)[i]
    {
      LocateComposed(c, z0, u0, t, r);
      node := this;
      ghost var z, u := z0, u0;
      while node.right != null
        invariant u.Branch? && node == u.node && Plug(z, u) == t && Located(Compose(c, z), u, r)
        invariant |Before(z)| + |Inorder(u)| == |Before(z0)| + |Inorder(u0)|
        decreases u
      {
        ZoomRight(Compose(c, z), u, r);
        z, u := InRight(u.left, u.node, u.diff, z), u.right;
        node := node.right;
      }
      AtLast(z, u);
    }

    /** The next node in order inside the subtree t, or the node above t, `end`. */
    method Successor(end: Node?<K, V>, ghost i: nat, ghost c: Context<Node<K, V>>, ghost t: Tree<Node<K, V>>,
                     ghost r: Root<K, V>)
      returns (next: Node?<K, V>)
      requires Located(c, t, r) && end == ParentIn(c) && i < |Inorder(t)| && Inorder(t)[i] == this
      ensures next == (if i + 1 < |Inorder(t)| then Inorder(t)[i + 1] else end)
    {
      ghost var (z, u) := LocateIndex(t, i);
      LocateComposed(c, z, u, t, r);
      if right != null {
        next := right.Leftmost(InRight(u.left, u.node, u.diff, z), c, u.right, t, r);
      } else {
        next := ClimbFromRight(end, i + 1, z, u, c, t, r);
      }
    }

    /** Up while the node is a right child, then one more step. */
    method ClimbFromRight(end: Node?<K, V>, ghost i: nat, ghost z0: Context<Node<K, V>>, ghost u0: Tree<Node<K, V>>,
                          ghost c: Context<Node<K, V>>, ghost t: Tree<Node<K, V>>, ghost r: Root<K, V>)
      returns (next: Node?<K, V>)
      requires end == ParentIn(c) && u0.Branch? && u0.node == this && Plug(z0, u0) == t &&
        Located(Compose(c, z0), u0, r)
      requires |Before(z0)| + |Inorder(u0)| == i
      ensures next == (if i < |Inorder(t)| then Inorder(t)[i] else end)
    {
      var current := this;
      ghost var z, u := z0, u0;
      ClimbFacts(c, z, u, r);
      while current.parent != end && current.parent.right == current
        invariant u.Branch? && current == u.node && Plug(z, u) == t && Located(Compose(c, z), u, r)
        invariant |Before(z)| + |Inorder(u)| == i
        invariant Upward(c, z, current)
        decreases z
      {
        ClimbOnce(c, z, u, r);
        current := current.parent;
        z, u := z.up, Above(z, u);
      }
      ClimbIndex(z, u);
      next := current.parent;
    }

    method Predecessor(end: Node?<K, V>, ghost i: nat, ghost c: Context<Node<K, V>>, ghost t: Tree<Node<K, V>>,
                       ghost r: Root<K, V>)
      returns (prev: Node?<K, V>)
      requires Located(c, t, r) && end == ParentIn(c) && i < |Inorder(t)| && Inorder(t)[i] == this
      ensures prev == (if i > 0 then Inorder(t)[i - 1] else end)
    {
      ghost var (z, u) := LocateIndex(t, i);
      LocateComposed(c, z, u, t, r);
      if left != null {
        prev := left.Rightmost(InLeft(u.node, u.diff, u.right, z), c, u.left, t, r);
      } else {
        prev := ClimbFromLeft(end, i, z, u, c, t, r);
      }
    }

    method ClimbFromLeft(end: Node?<K, V>, ghost i: nat, ghost z0: Context<Node<K, V>>, ghost u0: Tree<Node<K, V>>,
                         ghost c: Context<Node<K, V>>, ghost t: Tree<Node<K, V>>, ghost r: Root<K, V>)
      returns (prev: Node?<K, V>)
      requires end == ParentIn(c) && u0.Branch? && u0.node == this && Plug(z0, u0) == t &&
        Located(Compose(c, z0), u0, r)
      requires |Before(z0)| == i
      ensures prev == (if 0 < i <= |Inorder(t)| then Inorder(t)[i - 1] else end)
    {
      var current := this;
      ghost var z, u := z0, u0;
      ClimbFacts(c, z, u, r);
      while current.parent != end && current.parent.left == current
        invariant u.Branch? && current == u.node && Plug(z, u) == t && Located(Compose(c, z), u, r)
        invariant |Before(z)| == i
        invariant Upward(c, z, current)
        decreases z
      {
        ClimbOnce(c, z, u, r);
        current := current.parent;
        z, u := z.up, Above(z, u);
      }
      ClimbIndex(z, u);
      prev := current.parent;
    }
  }

  ghost function TopOf<K(!new), V>(t: Tree<Node<K, V>>): Node?<K, V> {
    match t
    case Leaf => null
    case Branch(_, n, _, _) => n
  }

  /** The fields of every node are the ones the tree prescribes; the top node has parent p and root link r. */
  ghost predicate Linked<K(!new), V>(t: Tree<Node<K, V>>, p: Node?<K, V>, r: Root?<K, V>)
    reads Nodes(t)
  {
    match t
    case Leaf => true
    case Branch(lt, n, d, rt) =>
      && n.parent == p && n.root == r && n.hDiff as int == d
      && n.left == TopOf(lt) && n.right == TopOf(rt)
      && Linked(lt, n, null) && Linked(rt, n, null)
  }

  ghost function ParentIn<K(!new), V>(c: Context<Node<K, V>>): Node?<K, V> {
    match c
    case Top => null
    case InLeft(n, _, _, _) => n
    case InRight(_, n, _, _) => n
  }

  ghost function RootIn<K(!new), V>(c: Context<Node<K, V>>, r: Root<K, V>): Root?<K, V> {
    if c.Top? then r else null
  }

  ghost function SlotIn<K(!new), V>(c: Context<Node<K, V>>, r: Root<K, V>): Slot<K, V> {
    match c
    case Top => AtRoot(r)
    case InLeft(n, _, _, _) => LeftOf(n)
    case InRight(_, n, _, _) => RightOf(n)
  }

  /** The nodes around the hole are linked, and the hole holds the node `hole`. */
  ghost predicate LinkedContext<K(!new), V>(c: Context<Node<K, V>>, hole: Node?<K, V>, r: Root<K, V>)
    reads ContextNodes(c), r
  {
    match c
    case Top => r.ptr == hole
    case InLeft(n, d, rt, up) =>
      && n.parent == ParentIn(up) && n.root == RootIn(up, r) && n.hDiff as int == d
      && n.left == hole && n.right == TopOf(rt)
      && Linked(rt, n, null) && LinkedContext(up, n, r)
    case InRight(lt, n, d, up) =>
      && n.parent == ParentIn(up) && n.root == RootIn(up, r) && n.hDiff as int == d
      && n.left == TopOf(lt) && n.right == hole
      && Linked(lt, n, null) && LinkedContext(up, n, r)
  }

  /** The subtree t sits in the hole of c, in the tree owned by r. */
  ghost predicate Located<K(!new), V>(c: Context<Node<K, V>>, t: Tree<Node<K, V>>, r: Root<K, V>)
    reads Nodes(t), ContextNodes(c), r
  {
    && LinkedContext(c, TopOf(t), r) && Linked(t, ParentIn(c), RootIn(c, r))
    && DistinctContext(c) && Distinct(t) && Nodes(t) !! ContextNodes(c)
  }

  lemma SlotOfLocated<K(!new), V>(c: Context<Node<K, V>>, t: Tree<Node<K, V>>, r: Root<K, V>)
    requires Located(c, t, r) && t.Branch?
    ensures t.node.ParentPtr() == SlotIn(c, r)
    ensures forall n: Node<K, V> :: n in Nodes(t) ==> n !in SlotIn(c, r).Owner()
  {
    match c
    case Top =>
    case InLeft(n, _, _, _) =>
    case InRight(lt, n, _, _) => assert lt.Branch? ==> lt.node in Nodes(lt);
  }

  lemma {:induction false} LocatedPlug<K(!new), V>(c: Context<Node<K, V>>, t: Tree<Node<K, V>>, r: Root<K, V>)
    ensures Located(c, t, r) <==> Located(Top, Plug(c, t), r)
    decreases c
  {
    match c
    case Top =>
    case InLeft(n, d, rt, up) => LocatedPlug(up, Branch(t, n, d, rt), r);
    case InRight(lt, n, d, up) => LocatedPlug(up, Branch(lt, n, d, t), r);
  }

  lemma LeafNodes<N>()
    ensures Nodes<N>(Leaf) == {} && Distinct<N>(Leaf)
  {
  }

  /** The parts of a tree are disjoint. */
  lemma OwnParts<N>(t: Tree<N>)
    requires t.Branch? && Distinct(t)
    ensures t.node !in Nodes(t.left) + Nodes(t.right) && Nodes(t) == Nodes(t.left) + Nodes(t.right) + {t.node}
    ensures Nodes(t.left) !! Nodes(t.right) && Distinct(t.left) && Distinct(t.right)
    ensures ChildParts(t.left) && ChildParts(t.right)
  {
  }

  /** The parts of a tree whose right child is lifted are disjoint. */
  lemma RightParts<N>(t: Tree<N>)
    requires t.Branch? && t.right.Branch? && Distinct(t)
    ensures var n, top, parts := t.node, t.right.node, Nodes(t.left) + Nodes(t.right.left) + Nodes(t.right.right);
      n != top && n !in parts && top !in parts && Nodes(t) == parts + {n, top}
    ensures Nodes(t.left) !! Nodes(t.right.left) !! Nodes(t.right.right)
    ensures ChildParts(t.right.left)
  {
    hide Nodes, Distinct;
    OwnParts(t);
    OwnParts(t.right);
  }

  lemma LeftParts<N>(t: Tree<N>)
    requires t.Branch? && t.left.Branch? && Distinct(t)
    ensures var n, top, parts := t.node, t.left.node, Nodes(t.left.left) + Nodes(t.left.right) + Nodes(t.right);
      n != top && n !in parts && top !in parts && Nodes(t) == parts + {n, top}
    ensures Nodes(t.left.left) !! Nodes(t.left.right) !! Nodes(t.right)
    ensures ChildParts(t.left.right)
  {
    hide Nodes, Distinct;
    OwnParts(t);
    OwnParts(t.left);
  }

  ghost predicate ChildParts<N>(t: Tree<N>) {
    t.Branch? ==>
      && t.node in Nodes(t) && t.node !in Nodes(t.left) && t.node !in Nodes(t.right)
      && Nodes(t.left) <= Nodes(t) && Nodes(t.right) <= Nodes(t)
  }

  /** What RotRight has done to the nodes, seen as a tree. */
  twostate lemma RotatedRight<K(!new), V>(t: Tree<Node<K, V>>)
    requires t.Branch? && t.right.Branch? && Distinct(t) && old(Linked(t, t.node.parent, t.node.root))
    requires old(allocated(Nodes(t.left)) && allocated(Nodes(t.right.left)) && allocated(Nodes(t.right.right)))
    requires unchanged(Nodes(t.left)) && unchanged(Nodes(t.right.right))
    requires var n, top := t.node, t.right.node;
      && n.left == old(n.left) && n.right == old(top.left) && n.parent == top && n.root == old(top.root)
      && top.left == n && top.right == old(top.right) && top.parent == old(n.parent) && top.root == old(n.root)
      && (n.hDiff as int, top.hDiff as int) == LiftRightDiffs(t.diff, t.right.diff)
    requires var rl := t.right.left;
      rl.Branch? ==> (
        && unchanged(Nodes(rl.left)) && unchanged(Nodes(rl.right))
        && rl.node.parent == t.node && rl.node.left == old(rl.node.left) && rl.node.right == old(rl.node.right)
        && rl.node.root == old(rl.node.root) && rl.node.hDiff == old(rl.node.hDiff))
    ensures Linked(LiftRight(t), old(t.node.parent), old(t.node.root))
  {
    var n, top, rl := t.node, t.right.node, t.right.left;
    assert old(Linked(t.right, n, null)) && old(Linked(rl, top, null));
    assert Linked(t.left, n, null) && Linked(t.right.right, top, null) && Linked(rl, n, null);
  }

  /** What RotLeft has done to the nodes, seen as a tree. */
  twostate lemma RotatedLeft<K(!new), V>(t: Tree<Node<K, V>>)
    requires t.Branch? && t.left.Branch? && Distinct(t) && old(Linked(t, t.node.parent, t.node.root))
    requires old(allocated(Nodes(t.right)) && allocated(Nodes(t.left.right)) && allocated(Nodes(t.left.left)))
    requires unchanged(Nodes(t.right)) && unchanged(Nodes(t.left.left))
    requires var n, top := t.node, t.left.node;
      && n.right == old(n.right) && n.left == old(top.right) && n.parent == top && n.root == old(top.root)
      && top.right == n && top.left == old(top.left) && top.parent == old(n.parent) && top.root == old(n.root)
      && (n.hDiff as int, top.hDiff as int) == LiftLeftDiffs(t.diff, t.left.diff)
    requires var lr := t.left.right;
      lr.Branch? ==> (
        && unchanged(Nodes(lr.left)) && unchanged(Nodes(lr.right))
        && lr.node.parent == t.node && lr.node.left == old(lr.node.left) && lr.node.right == old(lr.node.right)
        && lr.node.root == old(lr.node.root) && lr.node.hDiff == old(lr.node.hDiff))
    ensures Linked(LiftLeft(t), old(t.node.parent), old(t.node.root))
  {
    var n, top, lr := t.node, t.left.node, t.left.right;
    assert old(Linked(t.left, n, null)) && old(Linked(lr, top, null));
    assert Linked(t.right, n, null) && Linked(t.left.left, top, null) && Linked(lr, n, null);
  }

  /** The owning slot of the hole has been given another node; `at` is the context and the root. */
  twostate lemma ContextStored<K(!new), V>(at: (Context<Node<K, V>>, Root<K, V>))
    requires DistinctContext(at.0) && old(LinkedContext(at.0, SlotIn(at.0, at.1).Held(), at.1))
    requires old(allocated(ContextNodes(at.0)))
    requires SlotIn(at.0, at.1).Stored(SlotIn(at.0, at.1).Held())
    requires unchanged(ContextNodes(at.0) - (if at.0.Top? then {} else {at.0.node}))
    requires !at.0.Top? ==> unchanged(at.1)
    ensures LinkedContext(at.0, SlotIn(at.0, at.1).Held(), at.1)
  {
    match at.0
    case Top =>
    case InLeft(m, d, rt, up) => assert unchanged(Nodes(rt)) && unchanged(ContextNodes(up));
    case InRight(lt, m, d, up) => assert unchanged(Nodes(lt)) && unchanged(ContextNodes(up));
  }

  lemma LocatedAbove<K(!new), V>(c: Context<Node<K, V>>, t: Tree<Node<K, V>>, r: Root<K, V>)
    requires Located(c, t, r)
    ensures t.Branch? ==> t.node.parent == ParentIn(c)
    ensures c != Top ==>
      Located(c.up, Above(c, t), r) && Nodes(Above(c, t)) + ContextNodes(c.up) == Nodes(t) + ContextNodes(c)
  {
  }

  lemma ZoomRight<K(!new), V>(c: Context<Node<K, V>>, t: Tree<Node<K, V>>, r: Root<K, V>)
    requires t.Branch?
    ensures Located(c, t, r) <==> Located(InRight(t.left, t.node, t.diff, c), t.right, r)
  {
  }

  lemma ZoomLeft<K(!new), V>(c: Context<Node<K, V>>, t: Tree<Node<K, V>>, r: Root<K, V>)
    requires t.Branch?
    ensures Located(c, t, r) <==> Located(InLeft(t.node, t.diff, t.right, c), t.left, r)
  {
  }

  lemma IsRightInContext<K(!new), V>(c: Context<Node<K, V>>, t: Tree<Node<K, V>>, r: Root<K, V>)
    requires Located(c, t, r) && t.Branch?
    ensures t.node.parent != null && t.node.parent.right == t.node <==> c.InRight?
  {
    if c.InLeft? && c.right.Branch? {
      assert c.right.node in Nodes(c.right);
    }
  }

  // ---------- Order ----------

  ghost function Keys<K(!new), V>(s: seq<Node<K, V>>): seq<K> {
    seq(|s|, i requires 0 <= i < |s| => s[i].x)
  }

  lemma KeysConcat<K(!new), V>(a: seq<Node<K, V>>, b: seq<Node<K, V>>)
    ensures Keys(a + b) == Keys(a) + Keys(b)
  {
  }

  /** What `find` returns: the node that heads s, in the context c. */
  ghost predicate Found<K(!new), V>(less: (K, K) -> bool, fx: K, c: Context<Node<K, V>>, s: Tree<Node<K, V>>)
    requires s.Branch?
  {
    if Equivalent(less, fx, s.node.x) then
      AllLess(less, Keys(Before(c) + Inorder(s.left)), fx)
    else
      && AllLess(less, Keys(Before(c)), fx) && AllGreater(less, Keys(After(c)), fx)
      && (if less(fx, s.node.x) then s.left == Leaf && AllGreater(less, Keys(Inorder(s.right)), fx)
          else s.right == Leaf && AllLess(less, Keys(Inorder(s.left)), fx))
  }

  lemma SortedParts<K(!new), V>(less: (K, K) -> bool, s: Tree<Node<K, V>>, fx: K)
    requires StrictWeakOrder(less) && s.Branch? && Sorted(less, Keys(Inorder(s)))
    ensures Split(less, Keys(Inorder(s)), Keys(Inorder(s.left)), s.node.x, Keys(Inorder(s.right)), fx)
  {
    KeysAround(s);
    SplitAt(less, Keys(Inorder(s.left)), s.node.x, Keys(Inorder(s.right)), fx);
  }

  lemma KeysAround<K(!new), V>(s: Tree<Node<K, V>>)
    requires s.Branch?
    ensures Keys(Inorder(s)) == Keys(Inorder(s.left)) + [s.node.x] + Keys(Inorder(s.right))
  {
    KeysThree(Inorder(s.left), [s.node], Inorder(s.right));
    assert Keys([s.node]) == [s.node.x];
  }

  /** The search for an earlier equal node than the top of s has come down to u: everything before u
      is less, nothing in u is greater, and u is all that is left between the two. */
  ghost predicate Narrowed<K(!new), V>(less: (K, K) -> bool, fx: K, c: Context<Node<K, V>>, s: Tree<Node<K, V>>,
                                       up: Context<Node<K, V>>, u: Tree<Node<K, V>>, whole: Tree<Node<K, V>>)
  {
    && s.Branch? && Plug(c, s) == whole && Plug(up, u) == whole
    && Sorted(less, Keys(Inorder(u))) && NoneGreater(less, Keys(Inorder(u)), fx)
    && AllLess(less, Keys(Before(up)), fx)
    && Before(up) + Inorder(u) == Before(c) + Inorder(s.left)
  }

  /** `next` is the top of the linked subtree u. */
  ghost predicate AtTop<K(!new), V>(next: Node?<K, V>, u: Tree<Node<K, V>>)
    reads Nodes(u)
  {
    next == TopOf(u) && (u.Branch? ==> Linked(u, u.node.parent, u.node.root))
  }

  lemma NarrowedParts<K(!new), V>(less: (K, K) -> bool, fx: K, c: Context<Node<K, V>>, s: Tree<Node<K, V>>,
                                  up: Context<Node<K, V>>, u: Tree<Node<K, V>>, whole: Tree<Node<K, V>>)
    requires Narrowed(less, fx, c, s, up, u, whole)
    ensures Plug(c, s) == Plug(up, u) == whole && Sorted(less, Keys(Inorder(u))) && AllLess(less, Keys(Before(up)), fx)
    ensures u == Leaf ==> AllLess(less, Keys(Before(c) + Inorder(s.left)), fx)
  {
    assert u == Leaf ==> Before(up) + Inorder(u) == Before(up);
  }

  lemma NotPast<K(!new), V>(less: (K, K) -> bool, fx: K, c: Context<Node<K, V>>, s: Tree<Node<K, V>>,
                            up: Context<Node<K, V>>, u: Tree<Node<K, V>>, whole: Tree<Node<K, V>>)
    requires StrictWeakOrder(less) && u.Branch? && Narrowed(less, fx, c, s, up, u, whole)
    ensures !less(fx, u.node.x)
  {
    SortedParts(less, u, fx);
  }

  lemma NarrowToEqual<K(!new), V>(less: (K, K) -> bool, fx: K, up: Context<Node<K, V>>, u: Tree<Node<K, V>>,
                        whole: Tree<Node<K, V>>)
    requires StrictWeakOrder(less) && u.Branch? && Equivalent(less, fx, u.node.x)
    requires Plug(up, u) == whole && Sorted(less, Keys(Inorder(u))) && AllLess(less, Keys(Before(up)), fx)
    ensures Narrowed(less, fx, up, u, InLeft(u.node, u.diff, u.right, up), u.left, whole)
  {
    SortedParts(less, u, fx);
  }

  lemma NarrowPastLess<K(!new), V>(less: (K, K) -> bool, fx: K, c: Context<Node<K, V>>, s: Tree<Node<K, V>>,
                                   up: Context<Node<K, V>>, u: Tree<Node<K, V>>, whole: Tree<Node<K, V>>)
    requires StrictWeakOrder(less) && u.Branch? && less(u.node.x, fx) && Narrowed(less, fx, c, s, up, u, whole)
    ensures Narrowed(less, fx, c, s, InRight(u.left, u.node, u.diff, up), u.right, whole)
  {
    SortedParts(less, u, fx);
    DescendRight(less, up, u, fx);
    assert Before(InRight(u.left, u.node, u.diff, up)) + Inorder(u.right) == Before(up) + Inorder(u);
  }

  lemma DescendLeft<K(!new), V>(less: (K, K) -> bool, c: Context<Node<K, V>>, s: Tree<Node<K, V>>, fx: K)
    requires s.Branch? && less(fx, s.node.x) && AllGreater(less, Keys(Inorder(s.right)), fx) &&
      AllGreater(less, Keys(After(c)), fx)
    ensures AllGreater(less, Keys(After(InLeft(s.node, s.diff, s.right, c))), fx)
  {
    assert Keys(After(InLeft(s.node, s.diff, s.right, c))) == [s.node.x] + Keys(Inorder(s.right)) + Keys(After(c));
  }

  lemma DescendRight<K(!new), V>(less: (K, K) -> bool, c: Context<Node<K, V>>, s: Tree<Node<K, V>>, fx: K)
    requires s.Branch? && less(s.node.x, fx) && AllLess(less, Keys(Inorder(s.left)), fx) &&
      AllLess(less, Keys(Before(c)), fx)
    ensures AllLess(less, Keys(Before(InRight(s.left, s.node, s.diff, c))), fx)
  {
    assert Keys(Before(InRight(s.left, s.node, s.diff, c))) == Keys(Before(c)) + Keys(Inorder(s.left)) + [s.node.x];
  }

  ghost function Single<N>(n: N): Tree<N> {
    Branch(Leaf, n, 0, Leaf)
  }

  lemma SortedContext<K(!new), V>(less: (K, K) -> bool, c: Context<Node<K, V>>, t: Tree<Node<K, V>>)
    requires Sorted(less, Keys(Inorder(Plug(c, t))))
    ensures Sorted(less, Keys(Inorder(t)))
  {
    PlugInorder(c, t);
    var whole, part := Keys(Inorder(Plug(c, t))), Keys(Inorder(t));
    assert forall i :: 0 <= i < |part| ==> part[i] == whole[|Before(c)| + i];
  }

  lemma LocateComposed<K(!new), V>(c0: Context<Node<K, V>>, c: Context<Node<K, V>>, s: Tree<Node<K, V>>,
                         t0: Tree<Node<K, V>>, r: Root<K, V>)
    requires Plug(c, s) == t0
    ensures Plug(Compose(c0, c), s) == Plug(c0, t0)
    ensures Located(c0, t0, r) <==> Located(Compose(c0, c), s, r)
    ensures Nodes(t0) + ContextNodes(c0) == Nodes(s) + ContextNodes(Compose(c0, c))
    ensures Height(s) <= Height(t0)
  {
    ComposePlug(c0, c, s);
    LocatedPlug(c0, t0, r);
    LocatedPlug(Compose(c0, c), s, r);
    PlugNodes(c0, t0);
    PlugNodes(Compose(c0, c), s);
    PlugHeight(c, s);
  }

  /** A new leaf below s leaves s off balance by one, and everything else as it was. */
  lemma HangBalance<N>(c: Context<N>, s: Tree<N>, n: N, onRight: bool)
    requires s.Branch? && Avl(Plug(c, s)) && (if onRight then s.right == Leaf else s.left == Leaf)
    ensures OffBalance(c, if onRight then s.(right := Single(n)) else s.(left := Single(n)), onRight, false)
  {
    PlugAvl(c, s);
    assert Height(Single(n)) == 1 && Avl(Single(n));
  }

  lemma HangLeftInorder<N>(c: Context<N>, s: Tree<N>, n: N)
    requires s.Branch? && s.left == Leaf
    ensures Inorder(Plug(c, s)) == Before(c) + (Inorder(s) + After(c))
    ensures Inorder(Plug(c, s.(left := Single(n)))) == Before(c) + [n] + (Inorder(s) + After(c))
  {
    var b, a := Before(c), After(c);
    assert Inorder(s.(left := Single(n))) == [n] + Inorder(s);
    PlugInorder(c, s);
    PlugInorder(c, s.(left := Single(n)));
    JoinRight(b, n, Inorder(s), a);
  }

  lemma HangRightInorder<N>(c: Context<N>, s: Tree<N>, n: N)
    requires s.Branch? && s.right == Leaf
    ensures Inorder(Plug(c, s)) == (Before(c) + Inorder(s)) + After(c)
    ensures Inorder(Plug(c, s.(right := Single(n)))) == (Before(c) + Inorder(s)) + [n] + After(c)
  {
    PlugInorder(c, s);
    PlugInorder(c, s.(right := Single(n)));
    assert Inorder(Single(n)) == [n];
    assert Inorder(s) == Inorder(s.left) + [s.node];
    assert Inorder(s.(right := Single(n))) == Inorder(s) + [n];
  }

  lemma KeysThree<K(!new), V>(a: seq<Node<K, V>>, b: seq<Node<K, V>>, c: seq<Node<K, V>>)
    ensures Keys(a + b + c) == Keys(a) + Keys(b) + Keys(c)
    ensures Keys(a + (b + c)) == Keys(a) + (Keys(b) + Keys(c))
  {
    KeysConcat(a, b);
    KeysConcat(b, c);
    KeysConcat(a + b, c);
    KeysConcat(a, b + c);
  }

  lemma ComposedKeys<K(!new), V>(c0: Context<Node<K, V>>, c: Context<Node<K, V>>)
    ensures Keys(Before(Compose(c0, c))) == Keys(Before(c0)) + Keys(Before(c))
    ensures Keys(After(Compose(c0, c))) == Keys(After(c)) + Keys(After(c0))
  {
    ComposeInorder(c0, c);
    KeysConcat(Before(c0), Before(c));
    KeysConcat(After(c), After(c0));
  }

  lemma AllLessNoneGreater<K(!new)>(less: (K, K) -> bool, s: seq<K>, k: K)
    requires StrictWeakOrder(less)
    ensures AllLess(less, s, k) ==> NoneGreater(less, s, k)
    ensures AllGreater(less, s, k) ==> NoneLess(less, s, k)
  {
  }

  /** The key of a search fits between the nodes before and after the place the search has found. */
  lemma FoundFitsLeft<K(!new), V>(less: (K, K) -> bool, fx: K, c0: Context<Node<K, V>>, c: Context<Node<K, V>>,
                        s: Tree<Node<K, V>>)
    requires StrictWeakOrder(less) && s.Branch? && Found(less, fx, c, s) && less(fx, s.node.x)
    requires NoneGreater(less, Keys(Before(c0)), fx) && NoneLess(less, Keys(After(c0)), fx)
    ensures NoneGreater(less, Keys(Before(Compose(c0, c))), fx)
    ensures NoneLess(less, Keys(Inorder(s) + After(Compose(c0, c))), fx)
  {
    hide StrictWeakOrder, NoneGreater, NoneLess, Compose, Before, After, Found;
    var whole := Compose(c0, c);
    FoundLeftParts(less, fx, c, s);
    ComposedKeys(c0, c);
    AllLessNoneGreater(less, Keys(Before(c)), fx);
    AllLessNoneGreater(less, Keys(After(c)), fx);
    AllLessNoneGreater(less, Keys(Inorder(s.right)), fx);
    NoneGreaterAppend(less, Keys(Before(c0)), Keys(Before(c)), fx);
    NoneLessAppend(less, Keys(After(c)), Keys(After(c0)), fx);
    KeysThree([s.node], Inorder(s.right), After(whole));
    NoneLessAppend(less, Keys([s.node]) + Keys(Inorder(s.right)), Keys(After(whole)), fx);
    NoneLessAppend(less, Keys([s.node]), Keys(Inorder(s.right)), fx);
  }

  lemma FoundLeftParts<K(!new), V>(less: (K, K) -> bool, fx: K, c: Context<Node<K, V>>, s: Tree<Node<K, V>>)
    requires StrictWeakOrder(less) && s.Branch? && Found(less, fx, c, s) && less(fx, s.node.x)
    ensures AllLess(less, Keys(Before(c)), fx) && AllGreater(less, Keys(After(c)), fx) &&
      AllGreater(less, Keys(Inorder(s.right)), fx)
    ensures Inorder(s) == [s.node] + Inorder(s.right) && NoneLess(less, Keys([s.node]), fx)
  {
  }

  lemma FoundFitsRight<K(!new), V>(less: (K, K) -> bool, fx: K, c0: Context<Node<K, V>>, c: Context<Node<K, V>>,
                         s: Tree<Node<K, V>>, t0: Tree<Node<K, V>>)
    requires StrictWeakOrder(less) && s.Branch? && Plug(c, s) == t0 && Found(less, fx, c, s) && !less(fx, s.node.x)
    requires Sorted(less, Keys(Inorder(t0)))
    requires NoneGreater(less, Keys(Before(c0)), fx) && NoneLess(less, Keys(After(c0)), fx)
    ensures NoneGreater(less, Keys(Before(Compose(c0, c)) + Inorder(s.left) + [s.node]), fx)
    ensures NoneLess(less, Keys(After(Compose(c0, c))), fx)
  {
    var whole := Compose(c0, c);
    ComposedKeys(c0, c);
    FoundNeighbours(less, fx, c, s, t0);
    NoneLessAppend(less, Keys(After(c)), Keys(After(c0)), fx);
    NoneGreaterAppend(less, Keys(Before(c0)), Keys(Before(c)), fx);
    KeysThree(Before(whole), Inorder(s.left), [s.node]);
    NoneGreaterAppend(less, Keys(Before(whole)) + Keys(Inorder(s.left)), Keys([s.node]), fx);
    NoneGreaterAppend(less, Keys(Before(whole)), Keys(Inorder(s.left)), fx);
  }

  lemma FoundNeighbours<K(!new), V>(less: (K, K) -> bool, fx: K, c: Context<Node<K, V>>, s: Tree<Node<K, V>>,
                          t0: Tree<Node<K, V>>)
    requires StrictWeakOrder(less) && s.Branch? && Plug(c, s) == t0 && Found(less, fx, c, s) && !less(fx, s.node.x)
    requires Sorted(less, Keys(Inorder(t0)))
    ensures NoneGreater(less, Keys(Before(c)), fx) && NoneGreater(less, Keys(Inorder(s.left)), fx)
    ensures NoneLess(less, Keys(After(c)), fx)
  {
    AllLessNoneGreater(less, Keys(Before(c)), fx);
    AllLessNoneGreater(less, Keys(Inorder(s.left)), fx);
    AllLessNoneGreater(less, Keys(After(c)), fx);
    if Equivalent(less, fx, s.node.x) {
      KeysConcat(Before(c), Inorder(s.left));
      AllLessNoneGreater(less, Keys(Before(c) + Inorder(s.left)), fx);
      NoneGreaterAppend(less, Keys(Before(c)), Keys(Inorder(s.left)), fx);
      SuffixNoneLess(less, c, s);
      NoneLessDown(less, Keys(After(c)), s.node.x, fx);
    }
  }

  /** In a sorted tree nothing after a subtree is less than its top. */
  lemma SuffixNoneLess<K(!new), V>(less: (K, K) -> bool, c: Context<Node<K, V>>, s: Tree<Node<K, V>>)
    requires s.Branch? && Sorted(less, Keys(Inorder(Plug(c, s))))
    ensures NoneLess(less, Keys(After(c)), s.node.x)
  {
    PlugInorder(c, s);
    var all, m := Inorder(Plug(c, s)), |Before(c)| + |Inorder(s.left)|;
    assert all[m] == s.node;
    forall i | 0 <= i < |After(c)| ensures !less(After(c)[i].x, s.node.x) {
      var j := |Before(c)| + |Inorder(s)| + i;
      assert all[j] == After(c)[i];
      assert !less(Keys(all)[j], Keys(all)[m]);
    }
  }

  /** The new node's place in the order. */
  lemma SortedWith<K(!new), V>(less: (K, K) -> bool, a: seq<Node<K, V>>, node: Node<K, V>, b: seq<Node<K, V>>)
    requires StrictWeakOrder(less) && Sorted(less, Keys(a + b))
    requires NoneGreater(less, Keys(a), node.x) && NoneLess(less, Keys(b), node.x)
    ensures Sorted(less, Keys(a + [node] + b))
  {
    KeysConcat(a, b);
    KeysThree(a, [node], b);
    assert Keys([node]) == [node.x];
    SortedInsert(less, Keys(a), node.x, Keys(b));
  }

  lemma PlaceLeft<K(!new), V>(less: (K, K) -> bool, node: Node<K, V>, c0: Context<Node<K, V>>, c: Context<Node<K, V>>,
                    s: Tree<Node<K, V>>, t0: Tree<Node<K, V>>)
    returns (i: nat)
    requires StrictWeakOrder(less) && s.Branch? && Plug(c, s) == t0 && Found(less, node.x, c, s) &&
      less(node.x, s.node.x)
    requires Avl(Plug(c0, t0)) && Sorted(less, Keys(Inorder(Plug(c0, t0))))
    requires NoneGreater(less, Keys(Before(c0)), node.x) && NoneLess(less, Keys(After(c0)), node.x)
    ensures s.left == Leaf
    ensures i == |Before(Compose(c0, c))|
    ensures var whole, was, t := Compose(c0, c), Inorder(Plug(c0, t0)), s.(left := Single(node));
      Placed(less, was, node, i, Inorder(Plug(whole, t)))
  {
    var whole := Compose(c0, c);
    i := |Before(whole)|;
    ComposePlug(c0, c, s);
    HangLeftInorder(whole, s, node);
    FoundFitsLeft(less, node.x, c0, c, s);
    SortedWith(less, Before(whole), node, Inorder(s) + After(whole));
  }

  lemma PlaceRight<K(!new), V>(less: (K, K) -> bool, node: Node<K, V>, c0: Context<Node<K, V>>, c: Context<Node<K, V>>,
                     s: Tree<Node<K, V>>, t0: Tree<Node<K, V>>)
    returns (i: nat)
    requires StrictWeakOrder(less) && s.Branch? && Plug(c, s) == t0 && Found(less, node.x, c, s) &&
      !less(node.x, s.node.x) && s.right == Leaf
    requires Avl(Plug(c0, t0)) && Sorted(less, Keys(Inorder(Plug(c0, t0)))) && Sorted(less, Keys(Inorder(t0)))
    requires NoneGreater(less, Keys(Before(c0)), node.x) && NoneLess(less, Keys(After(c0)), node.x)
    ensures i == |Before(Compose(c0, c))| + |Inorder(s)|
    ensures var whole, was, t := Compose(c0, c), Inorder(Plug(c0, t0)), s.(right := Single(node));
      Placed(less, was, node, i, Inorder(Plug(whole, t)))
  {
    var whole := Compose(c0, c);
    i := |Before(whole)| + |Inorder(s)|;
    ComposePlug(c0, c, s);
    HangRightInorder(whole, s, node);
    FoundFitsRight(less, node.x, c0, c, s, t0);
    assert Before(whole) + Inorder(s) == Before(whole) + Inorder(s.left) + [s.node];
    SortedWith(less, Before(whole) + Inorder(s), node, After(whole));
  }

  /** `now` is `was` with the node put in at position i, and is sorted. */
  ghost predicate Placed<K(!new), V>(less: (K, K) -> bool, was: seq<Node<K, V>>, node: Node<K, V>, i: nat,
                           now: seq<Node<K, V>>)
  {
    InsertedAt(was, node, i, now) && Sorted(less, Keys(now))
  }

  /** s is the sequence `was` with x put in at position i. */
  ghost predicate InsertedAt<T>(was: seq<T>, x: T, i: nat, s: seq<T>) {
    i <= |was| && s == was[..i] + [x] + was[i..]
  }

  // ---------- Among equal keys ----------

  /** How many keys at the front are less than k. */
  ghost function Leading<K>(less: (K, K) -> bool, s: seq<K>, k: K): (n: nat)
    ensures n <= |s|
  {
    if s != [] && less(s[0], k) then 1 + Leading(less, s[1..], k) else 0
  }

  lemma {:induction false} LeadingIs<K(!new)>(less: (K, K) -> bool, s: seq<K>, k: K, n: nat)
    requires n <= |s| && (forall j :: 0 <= j < n ==> less(s[j], k)) && (n < |s| ==> !less(s[n], k))
    ensures Leading(less, s, k) == n
  {
    if n > 0 { LeadingIs(less, s[1..], k, n - 1); }
  }

  /** The subtree of the node at position i. */
  ghost function SubtreeAt<N>(t: Tree<N>, i: nat): (s: Tree<N>)
    requires i < |Inorder(t)|
    ensures s.Branch? && s.node == Inorder(t)[i] && Height(s) <= Height(t)
  {
    var l := |Inorder(t.left)|;
    if i < l then SubtreeAt(t.left, i) else if i == l then t else SubtreeAt(t.right, i - l - 1)
  }

  /** The position of a new node: without an equal key, behind all that are less; otherwise behind the first equal node,
      and among the nodes below it to the right by the same rule. */
  ghost function Landing<K(!new), V>(less: (K, K) -> bool, k: K, t: Tree<Node<K, V>>): nat
    decreases Height(t)
  {
    var first := Leading(less, Keys(Inorder(t)), k);
    if first < |Inorder(t)| && !less(k, Inorder(t)[first].x) then
      first + 1 + Landing(less, k, SubtreeAt(t, first).right)
    else first
  }

  /** If there are equal keys, the one in front of position i is one of them. */
  ghost predicate BehindEqual<K(!new)>(less: (K, K) -> bool, s: seq<K>, k: K, i: nat) {
    i <= |s| && ((exists j :: 0 <= j < |s| && Equivalent(less, s[j], k)) ==> i > 0 && Equivalent(less, s[i - 1], k))
  }

  lemma {:induction false} SubtreePlace<N>(c: Context<N>, s: Tree<N>)
    requires s.Branch?
    ensures |Before(c)| + |Inorder(s.left)| < |Inorder(Plug(c, s))|
    ensures SubtreeAt(Plug(c, s), |Before(c)| + |Inorder(s.left)|) == s
  {
    PlugInorder(c, s);
    SubtreeInside(c, s, |Inorder(s.left)|);
  }

  /** Positions inside a subtree. */
  lemma {:induction false} SubtreeInside<N>(c: Context<N>, s: Tree<N>, i: nat)
    requires i < |Inorder(s)|
    ensures |Before(c)| + i < |Inorder(Plug(c, s))|
    ensures SubtreeAt(Plug(c, s), |Before(c)| + i) == SubtreeAt(s, i)
    decreases c
  {
    match c
    case Top =>
    case InLeft(n, d, r, up) => SubtreeInside(up, Branch(s, n, d, r), i);
    case InRight(l, n, d, up) => SubtreeInside(up, Branch(l, n, d, s), |Inorder(l)| + 1 + i);
  }

  /** The right subtree of the node at position i comes right behind it. */
  lemma {:induction false} RightOfPlace<N>(t: Tree<N>, i: nat)
    requires i < |Inorder(t)|
    ensures var r := Inorder(SubtreeAt(t, i).right);
      i + 1 + |r| <= |Inorder(t)| && forall j :: 0 <= j < |r| ==> r[j] == Inorder(t)[i + 1 + j]
  {
    var l := |Inorder(t.left)|;
    if i < l {
      RightOfPlace(t.left, i);
    } else if i > l {
      RightOfPlace(t.right, i - l - 1);
    }
  }

  lemma NoLanding<K(!new), V>(less: (K, K) -> bool, k: K)
    ensures Landing<K, V>(less, k, Leaf) == 0
  {
    LandingSplit<K, V>(less, k, Leaf);
  }

  /** Either the new node goes in front of a key that is greater, or behind the first equal one. */
  lemma LandingSplit<K(!new), V>(less: (K, K) -> bool, k: K, t: Tree<Node<K, V>>)
    ensures var ks, first := Keys(Inorder(t)), Leading(less, Keys(Inorder(t)), k);
      && |ks| == |Inorder(t)| && (forall j :: 0 <= j < first ==> less(ks[j], k))
      && (first == |ks| || less(k, ks[first]) ==> Landing(less, k, t) == first)
      && (first < |ks| && !less(k, ks[first]) ==>
            Equivalent(less, ks[first], k) &&
            Landing(less, k, t) == first + 1 + Landing(less, k, SubtreeAt(t, first).right))
  {
    LeadingLess(less, Keys(Inorder(t)), k);
  }

  lemma RightKeys<K(!new), V>(less: (K, K) -> bool, t: Tree<Node<K, V>>, i: nat)
    requires i < |Inorder(t)| && Sorted(less, Keys(Inorder(t)))
    ensures var ks, rs := Keys(Inorder(t)), Keys(Inorder(SubtreeAt(t, i).right));
      && |ks| == |Inorder(t)| && i + 1 + |rs| <= |ks| && (forall j :: 0 <= j < |rs| ==> rs[j] == ks[i + 1 + j])
      && Sorted(less, rs) && NoneLess(less, rs, ks[i])
  {
    hide SubtreeAt, Inorder;
    RightOfPlace(t, i);
    var ks, rs := Keys(Inorder(t)), Keys(Inorder(SubtreeAt(t, i).right));
    assert forall j :: 0 <= j < |rs| ==> rs[j] == ks[i + 1 + j];
  }

  lemma NoEqual<K(!new)>(less: (K, K) -> bool, s: seq<K>, k: K, i: nat)
    requires StrictWeakOrder(less) && Sorted(less, s) && i <= |s|
    requires (forall j :: 0 <= j < i ==> less(s[j], k)) && (i < |s| ==> less(k, s[i]))
    ensures forall j :: 0 <= j < |s| ==> !Equivalent(less, s[j], k)
  {
    forall j | 0 <= j < |s| ensures !Equivalent(less, s[j], k) {
      assert j > i ==> !less(s[j], s[i]);
    }
  }

  /** A new node lands behind an equal one, if there is one. */
  lemma {:induction false} LandingBehind<K(!new), V>(less: (K, K) -> bool, k: K, t: Tree<Node<K, V>>)
    requires StrictWeakOrder(less) && Sorted(less, Keys(Inorder(t)))
    ensures BehindEqual(less, Keys(Inorder(t)), k, Landing(less, k, t))
    decreases Height(t)
  {
    hide SubtreeAt, Leading, Keys, Inorder, Landing, Sorted;
    var ks, first := Keys(Inorder(t)), Leading(less, Keys(Inorder(t)), k);
    LandingSplit(less, k, t);
    if first == |ks| || less(k, ks[first]) {
      NoEqual(less, ks, k, first);
    } else {
      var right := SubtreeAt(t, first).right;
      RightKeys(less, t, first);
      LandingBehind(less, k, right);
      var rs, i := Keys(Inorder(right)), Landing(less, k, right);
      LandingSplit(less, k, right);
      if i > 0 {
        assert !less(rs[0], ks[first]);
        assert Equivalent(less, rs[0], k);
        assert rs[i - 1] == ks[first + 1 + (i - 1)];
      }
    }
  }

  /** What a search for an equal key finds stays the same: the first of the equal nodes. */
  lemma FirstStays<K(!new), V>(less: (K, K) -> bool, was: seq<Node<K, V>>, node: Node<K, V>, i: nat,
                               now: seq<Node<K, V>>, fx: K, first: nat)
    requires StrictWeakOrder(less) && InsertedAt(was, node, i, now) && BehindEqual(less, Keys(was), node.x, i)
    requires first < |was| && Equivalent(less, was[first].x, fx) && Equivalent(less, node.x, fx)
    requires forall j :: 0 <= j < first ==> less(was[j].x, fx)
    ensures first < i && now[first] == was[first] && now[..first] == was[..first]
  {
    var ks := Keys(was);
    assert Equivalent(less, ks[first], node.x);
    assert Equivalent(less, ks[i - 1], node.x);
    assert Equivalent(less, was[i - 1].x, fx);
  }

  /** How the place that a search finds lies to that of a new node. */
  lemma LandingFound<K(!new), V>(less: (K, K) -> bool, fx: K, c: Context<Node<K, V>>, s: Tree<Node<K, V>>)
    requires StrictWeakOrder(less) && s.Branch? && Found(less, fx, c, s)
    ensures Landing(less, fx, Plug(c, s)) ==
      if less(fx, s.node.x) then |Before(c)|
      else if less(s.node.x, fx) || s.right == Leaf then |Before(c)| + |Inorder(s)|
      else |Before(c)| + |Inorder(s.left)| + 1 + Landing(less, fx, s.right)
  {
    hide SubtreeAt, Leading, Before, Keys, Inorder, Plug, Found, Landing;
    var t := Plug(c, s);
    var i := FoundIndex(less, fx, c, s);
    var ks := Keys(Inorder(t));
    SubtreePlace(c, s);
    LeafSides(s);
    LandingSplit(less, fx, t);
    LandingSplit(less, fx, s.right);
    assert ks[i] == s.node.x by { KeyAt(Inorder(t), i); }
    LeadingIs(less, ks, fx, if less(s.node.x, fx) then i + 1 else i);
  }

  lemma KeyAt<K(!new), V>(s: seq<Node<K, V>>, i: nat)
    requires i < |s|
    ensures |Keys(s)| == |s| && Keys(s)[i] == s[i].x
  {
  }

  lemma LeafSides<N>(s: Tree<N>)
    requires s.Branch?
    ensures s.left == Leaf ==> |Inorder(s.left)| == 0
    ensures s.right == Leaf ==> |Inorder(s.right)| == 0 && |Inorder(s)| == |Inorder(s.left)| + 1
  {
  }

  lemma {:induction false} LeadingLess<K(!new)>(less: (K, K) -> bool, s: seq<K>, k: K)
    ensures var n := Leading(less, s, k);
      (forall j :: 0 <= j < n ==> less(s[j], k)) && (n < |s| ==> !less(s[n], k))
  {
    if s != [] && less(s[0], k) { LeadingLess(less, s[1..], k); }
  }

  ghost function OnlyChild<N>(t: Tree<N>): Tree<N>
    requires t.Branch?
  {
    if t.left.Branch? then t.left else t.right
  }

  /** Like `Located`, but the right subtree's top node has parent q. */
  ghost predicate Vacated<K(!new), V>(c: Context<Node<K, V>>, t: Tree<Node<K, V>>, q: Node<K, V>, r: Root<K, V>)
    reads Nodes(t), ContextNodes(c), r
  {
    && t.Branch? && t.node.parent == ParentIn(c) && t.node.root == RootIn(c, r) && t.node.hDiff as int == t.diff
    && t.node.left == TopOf(t.left) && t.node.right == TopOf(t.right)
    && Linked(t.left, t.node, null) && Linked(t.right, q, null)
    && LinkedContext(c, t.node, r)
    && DistinctContext(c) && Distinct(t) && Nodes(t) !! ContextNodes(c)
  }

  lemma SlotOfVacated<K(!new), V>(c: Context<Node<K, V>>, t: Tree<Node<K, V>>, q: Node<K, V>, r: Root<K, V>)
    requires Vacated(c, t, q, r)
    ensures t.node.ParentPtr() == SlotIn(c, r)
    ensures forall n: Node<K, V> :: n in Nodes(t) ==> n !in SlotIn(c, r).Owner()
    ensures forall n: Node<K, V> :: n in SlotIn(c, r).Owner() ==> n in ContextNodes(c)
  {
    match c
    case Top =>
    case InLeft(n, _, _, _) =>
    case InRight(lt, n, _, _) => assert lt.Branch? ==> lt.node in Nodes(lt);
  }

  lemma SameNodesButTop<N>(t: Tree<N>, n: N)
    requires t.Branch? && Distinct(t) && n !in Nodes(t)
    ensures Distinct(t.(node := n)) && Nodes(t.(node := n)) == Nodes(t) - {t.node} + {n}
  {
  }

  /** The nodes below a context that has lost the leftmost node. */
  lemma VacatedBelow<K(!new), V>(c: Context<Node<K, V>>, t: Tree<Node<K, V>>, cs: Context<Node<K, V>>,
                       u: Tree<Node<K, V>>, q: Node<K, V>, r: Root<K, V>)
    requires t.Branch? && Distinct(t) && DistinctContext(c) && Nodes(t) !! ContextNodes(c)
    requires u.Branch? && u.left == Leaf && Plug(cs, u) == t.right
    requires var c2 := Compose(InRight(t.left, t.node, t.diff, c), cs);
      LinkedContext(c2, TopOf(u.right), r) && Linked(u.right, q, null) && (cs != Top ==> q == ParentIn(c2))
    ensures Vacated(c, t.(right := Plug(cs, u.right)), if cs != Top then t.node else q, r)
  {
    var c1 := InRight(t.left, t.node, t.diff, c);
    var s := t.(right := Plug(cs, u.right));
    PlugNodes(cs, u);
    PlugNodes(cs, u.right);
    PlugDistinct(cs, u);
    PlugDistinct(cs, u.right);
    assert Distinct(s) && Nodes(s) <= Nodes(t);
    if cs != Top {
      ComposeNodes(c1, cs);
      assert Located(Compose(c1, cs), u.right, r);
      LocateComposed(c1, cs, u.right, s.right, r);
      ZoomRight(c, s, r);
    }
  }

  lemma {:induction false} ComposeNodes<N>(outer: Context<N>, inner: Context<N>)
    ensures ContextNodes(Compose(outer, inner)) == ContextNodes(outer) + ContextNodes(inner)
    ensures DistinctContext(Compose(outer, inner)) <==>
            DistinctContext(outer) && DistinctContext(inner) && ContextNodes(outer) !! ContextNodes(inner)
    decreases inner
  {
    match inner
    case Top =>
    case InLeft(_, _, _, up) => ComposeNodes(outer, up);
    case InRight(_, _, _, up) => ComposeNodes(outer, up);
  }

  lemma {:induction false} PlugTop<N>(c: Context<N>, t: Tree<N>)
    requires t.Branch? && Distinct(Plug(c, t))
    ensures Plug(c, t).Branch? && (c == Top <==> Plug(c, t).node == t.node)
    ensures c != Top ==> Plug(c, t).node in ContextNodes(c)
    decreases c
  {
    PlugDistinct(c, t);
    match c
    case Top =>
    case InLeft(n, d, r, up) => PlugTop(up, Branch(t, n, d, r));
    case InRight(l, n, d, up) => PlugTop(up, Branch(l, n, d, t));
  }

  ghost predicate AllLeft<N>(c: Context<N>) {
    match c
    case Top => true
    case InLeft(_, _, _, up) => AllLeft(up)
    case InRight(_, _, _, _) => false
  }

  /** Taking a leaf or the node above an only child out of a balanced tree. */
  lemma BypassedTree<N>(c: Context<N>, t: Tree<N>) returns (i: nat)
    requires t.Branch? && (t.left == Leaf || t.right == Leaf) && Avl(Plug(c, t))
    ensures var u := OnlyChild(t);
      && Climbing(c, u, true) && (c == Top ==> Settled(c, u))
      && InsertedAt(Inorder(Plug(c, u)), t.node, i, Inorder(Plug(c, t)))
  {
    var u := OnlyChild(t);
    PlugAvl(c, t);
    assert Inorder(u) == Inorder(t.left) + Inorder(t.right);
    i := PlugWithout(c, u, t);
  }

  lemma PlugWithout<N>(c: Context<N>, s: Tree<N>, t: Tree<N>) returns (i: nat)
    requires t.Branch? && Inorder(s) == Inorder(t.left) + Inorder(t.right)
    ensures InsertedAt(Inorder(Plug(c, s)), t.node, i, Inorder(Plug(c, t)))
  {
    i := |Before(c)| + |Inorder(t.left)|;
    PlugInorder(c, s);
    PlugInorder(c, t);
    SplitAround(Before(c), Inorder(t.left), t.node, Inorder(t.right), After(c));
  }

  lemma NotAmong<N>(now: seq<N>, n: N, i: nat, was: seq<N>)
    requires NoDuplicates(was) && InsertedAt(now, n, i, was)
    ensures n !in now
  {
    hide NoDuplicates;
    NoDuplicatesConcat(now[..i], n, now[i..]);
    assert now == now[..i] + now[i..];
  }

  /** Taking a node out of a sorted tree leaves it sorted. */
  lemma RemovalStaysSorted<K(!new), V>(less: (K, K) -> bool, now: seq<Node<K, V>>, n: Node<K, V>, i: nat,
                             was: seq<Node<K, V>>)
    requires InsertedAt(now, n, i, was) && Sorted(less, Keys(was))
    ensures Sorted(less, Keys(now))
  {
    forall j, k | 0 <= j < k < |now| ensures !less(Keys(now)[k], Keys(now)[j]) {
      var j', k' := if j < i then j else j + 1, if k < i then k else k + 1;
      assert now[j] == was[j'] && now[k] == was[k'];
      assert !less(Keys(was)[k'], Keys(was)[j']);
    }
  }

  lemma RemovedNode<N>(now: Tree<N>, n: N, i: nat, was: Tree<N>)
    requires Distinct(was) && InsertedAt(Inorder(now), n, i, Inorder(was))
    ensures n !in Nodes(now)
  {
    hide Inorder, Distinct;
    DistinctInorder(was);
    InorderNodes(now);
    NotAmong(Inorder(now), n, i, Inorder(was));
  }

  /** The leftmost node of the right subtree, taken out and put in the place of the node that is removed. */
  ghost function SpliceTree<N>(t: Tree<N>, cs: Context<N>, u: Tree<N>): Tree<N>
    requires t.Branch? && u.Branch?
  {
    Branch(t.left, u.node, t.diff, Plug(cs, u.right))
  }

  lemma WithoutNode<N>(c: Context<N>, u: Tree<N>)
    requires u.Branch? && u.left == Leaf && Distinct(Plug(c, u))
    ensures Nodes(Plug(c, u)) == Nodes(Plug(c, u.right)) + {u.node} && u.node !in Nodes(Plug(c, u.right))
  {
    PlugDistinct(c, u);
    PlugNodes(c, u);
    PlugNodes(c, u.right);
    assert Nodes(u) == {u.node} + Nodes(u.right);
  }

  lemma SplicedNodes<N>(c: Context<N>, t: Tree<N>, cs: Context<N>, u: Tree<N>)
    requires t.Branch? && Plug(cs, u) == t.right && u.Branch? && u.left == Leaf
    requires Distinct(t) && Nodes(t) !! ContextNodes(c)
    ensures Nodes(SpliceTree(t, cs, u)) == Nodes(t) - {t.node}
    ensures u.node !in Nodes(t.(right := Plug(cs, u.right))) && u.node !in ContextNodes(c) && u.node in Nodes(t)
  {
    hide Distinct, Nodes, Plug;
    OwnParts(t);
    WithoutNode(cs, u);
    SplicedParts(t, cs, u);
    Shuffle(Nodes(t.left), t.node, Nodes(t.right), u.node, Nodes(Plug(cs, u.right)));
  }

  lemma SplicedParts<N>(t: Tree<N>, cs: Context<N>, u: Tree<N>)
    requires t.Branch? && u.Branch?
    ensures Nodes(SpliceTree(t, cs, u)) == Nodes(t.left) + {u.node} + Nodes(Plug(cs, u.right))
    ensures Nodes(t.(right := Plug(cs, u.right))) == Nodes(t.left) + {t.node} + Nodes(Plug(cs, u.right))
  {
  }

  lemma Shuffle<T>(l: set<T>, n: T, r: set<T>, m: T, rest: set<T>)
    requires r == rest + {m} && m !in rest && n !in l && n !in r && l !! r
    ensures l + {m} + rest == l + {n} + r - {n} && m !in l + {n} + rest
  {
  }

  lemma SplicedShape<N>(c: Context<N>, t: Tree<N>, cs: Context<N>, u: Tree<N>)
    requires t.Branch? && Plug(cs, u) == t.right && u.Branch? && u.left == Leaf && Avl(Plug(c, t))
    ensures var s, whole := SpliceTree(t, cs, u), Compose(InRight(t.left, u.node, t.diff, c), cs);
      Plug(whole, u.right) == Plug(c, s) && Climbing(whole, u.right, true)
  {
    hide Avl, AvlContext, Height, Compose, Climbing;
    var outer := InRight(t.left, u.node, t.diff, c);
    ComposePlug(outer, cs, u.right);
    RenamedAvl(c, t, u.node);
    ComposePlug(outer, cs, u);
    WithoutRoot(Compose(outer, cs), u);
  }

  lemma RenamedAvl<N>(c: Context<N>, t: Tree<N>, n: N)
    requires t.Branch? && Avl(Plug(c, t))
    ensures Avl(Plug(c, t.(node := n)))
  {
    hide Plug, AvlContext;
    PlugAvl(c, t);
    PlugAvl(c, t.(node := n));
  }

  lemma WithoutRoot<N>(c: Context<N>, u: Tree<N>)
    requires u.Branch? && u.left == Leaf && Avl(Plug(c, u))
    ensures Climbing(c, u.right, true)
  {
    hide Plug;
    PlugAvl(c, u);
  }

  lemma {:induction false} AllLeftBefore<N>(c: Context<N>)
    requires AllLeft(c)
    ensures Before(c) == []
  {
    if c.InLeft? { AllLeftBefore(c.up); }
  }

  lemma {:induction false} WithoutLeftmost<N>(c: Context<N>, u: Tree<N>)
    requires AllLeft(c) && u.Branch? && u.left == Leaf
    ensures Inorder(Plug(c, u)) == [u.node] + Inorder(Plug(c, u.right))
  {
    AllLeftBefore(c);
    PlugInorder(c, u);
    PlugInorder(c, u.right);
    var x, rest, a := [u.node], Inorder(u.right), After(c);
    assert Inorder(u) == x + rest;
    assert [] + (x + rest) + a == x + (rest + a);
    assert [] + rest + a == rest + a;
  }

  lemma SpliceTreeInorder<N>(t: Tree<N>, cs: Context<N>, u: Tree<N>)
    requires t.Branch? && Plug(cs, u) == t.right && u.Branch? && u.left == Leaf && AllLeft(cs)
    ensures Inorder(SpliceTree(t, cs, u)) == Inorder(t.left) + Inorder(t.right)
  {
    WithoutLeftmost(cs, u);
    var l, rest := Inorder(t.left), Inorder(Plug(cs, u.right));
    assert l + [u.node] + rest == l + ([u.node] + rest);
  }

  lemma LocateSpliced<K(!new), V>(c: Context<Node<K, V>>, s: Tree<Node<K, V>>, cs: Context<Node<K, V>>,
                        u: Tree<Node<K, V>>, r: Root<K, V>)
    requires s.Branch? && s.right == Plug(cs, u) && Located(c, s, r)
    ensures var whole := Compose(InRight(s.left, s.node, s.diff, c), cs);
      Located(whole, u, r) && whole != Top && ParentIn(whole) == (if cs == Top then s.node else ParentIn(cs))
      && whole.InLeft? == (cs.InLeft?)
      && Nodes(u) + ContextNodes(whole) == Nodes(s) + ContextNodes(c)
  {
    var c1 := InRight(s.left, s.node, s.diff, c);
    ZoomRight(c, s, r);
    LocateComposed(c1, cs, u, s.right, r);
  }

  // ---------- Exchanging two nodes ----------

  ghost function Other<K(!new), V>(n: Node?<K, V>, a: Node<K, V>, b: Node<K, V>): Node?<K, V> {
    if n == a then b else if n == b then a else n
  }

  /** The same tree, with the nodes a and b exchanged. */
  ghost function Renamed<N>(t: Tree<N>, a: N, b: N): Tree<N> {
    match t
    case Leaf => Leaf
    case Branch(l, n, d, r) =>
      Branch(Renamed(l, a, b), if n == a then b else if n == b then a else n, d, Renamed(r, a, b))
  }

  ghost predicate IsFamily<K(!new), V>(family: set<Node<K, V>>, r: Root<K, V>)
    reads family, r
  {
    && (r.ptr != null ==> r.ptr in family && r.ptr.parent == null)
    && forall n: Node<K, V> {:trigger n.Kin(family, r)} :: n in family ==> n.Kin(family, r)
  }

  /** The node that n has become holds what n held, except that b is now in the slot p and a in the slot q. */
  twostate predicate Relinked<K(!new), V>(n: Node<K, V>, a: Node<K, V>, b: Node<K, V>, p: Slot<K, V>, q: Slot<K, V>)
    reads n, a, b
  {
    var m := if n == a then b else if n == b then a else n;
    && m.left == (if LeftOf(n) == p then b else if LeftOf(n) == q then a else old(n.left))
    && m.right == (if RightOf(n) == p then b else if RightOf(n) == q then a else old(n.right))
    && m.root == old(n.root) && m.hDiff == old(n.hDiff) && m.parent == old(n.parent)
  }

  twostate predicate Moved<K(!new), V>(n: Node<K, V>, a: Node<K, V>, b: Node<K, V>)
    reads n, a, b
  {
    var m := if n == a then b else if n == b then a else n;
    && m.left == Other(old(n.left), a, b) && m.right == Other(old(n.right), a, b) && m.parent == old(n.parent)
    && m.root == old(n.root) && m.hDiff == old(n.hDiff)
  }

  /** The node that n has become is a child of a exactly when n was one of b, and the other way round. */
  twostate predicate Orphaned<K(!new), V>(n: Node<K, V>, a: Node<K, V>, b: Node<K, V>)
    reads n, a, b
  {
    var m := if n == a then b else if n == b then a else n;
    && ((m == b.left || m == b.right) <==> old(n.parent) == a)
    && ((m == a.left || m == a.right) <==> old(n.parent) == b)
  }

  /** The children of a and of b. */
  ghost function Orphans<K(!new), V>(a: Node<K, V>, b: Node<K, V>): set<Node<K, V>>
    reads a, b
  {
    (if a.left != null then {a.left} else {}) + (if a.right != null then {a.right} else {}) +
    (if b.left != null then {b.left} else {}) + (if b.right != null then {b.right} else {})
  }

  /** The node that n has become holds what n held, seen through the exchange of a and b. */
  twostate predicate Exchanged<K(!new), V>(n: Node<K, V>, a: Node<K, V>, b: Node<K, V>)
    reads n, a, b
  {
    var m := if n == a then b else if n == b then a else n;
    && m.left == Other(old(n.left), a, b) && m.right == Other(old(n.right), a, b) &&
         m.parent == Other(old(n.parent), a, b)
    && m.root == old(n.root) && m.hDiff == old(n.hDiff)
  }

  /** The slot, with the nodes a and b exchanged as owners. */
  ghost function Redirected<K(!new), V>(s: Slot<K, V>, a: Node<K, V>, b: Node<K, V>): Slot<K, V> {
    match s
    case LeftOf(o) => LeftOf(Other(o, a, b))
    case RightOf(o) => RightOf(Other(o, a, b))
    case AtRoot(r) => s
    case NoSlot => s
  }

  /** A slot of n becomes the same slot of what n has become. */
  lemma RedirectedSame<K(!new), V>(s: Slot<K, V>, a: Node<K, V>, b: Node<K, V>, n: Node<K, V>, m: Node<K, V>)
    requires m == (if n == a then b else if n == b then a else n)
    ensures LeftOf(m) == Redirected(s, a, b) <==> LeftOf(n) == s
    ensures RightOf(m) == Redirected(s, a, b) <==> RightOf(n) == s
  {
  }

  lemma KinOf<K(!new), V>(t: Tree<Node<K, V>>, n: Node<K, V>, r: Root<K, V>)
    requires Located(Top, t, r) && n in Nodes(t)
    ensures n.Kin(Nodes(t), r)
  {
    var (c, s) := Locate(t, n);
    LocatedPlug(c, s, r);
    PlugNodes(c, s);
    IsRightInContext(c, s, r);
    SlotOfLocated(c, s, r);
    assert Linked(s.left, n, null) && Linked(s.right, n, null);
    assert s.left.Branch? ==> s.left.node in Nodes(s.left);
    assert s.right.Branch? ==> s.right.node in Nodes(s.right);
    RootHolds(c, n, r);
  }

  /** The root pointer holds the node in the hole exactly when the hole is at the top. */
  lemma {:induction false} RootHolds<K(!new), V>(c: Context<Node<K, V>>, hole: Node<K, V>, r: Root<K, V>)
    requires LinkedContext(c, hole, r) && hole !in ContextNodes(c)
    ensures r.ptr == hole <==> c == Top
    ensures r.ptr != null && (c != Top ==> r.ptr in ContextNodes(c))
    decreases c
  {
    match c
    case Top =>
    case InLeft(n, _, _, up) => RootIsAbove(up, n, r);
    case InRight(_, n, _, up) => RootIsAbove(up, n, r);
  }

  lemma {:induction false} RootIsAbove<K(!new), V>(c: Context<Node<K, V>>, hole: Node<K, V>, r: Root<K, V>)
    requires LinkedContext(c, hole, r)
    ensures r.ptr == hole || r.ptr in ContextNodes(c)
    decreases c
  {
    match c
    case Top =>
    case InLeft(n, _, _, up) => RootIsAbove(up, n, r);
    case InRight(_, n, _, up) => RootIsAbove(up, n, r);
  }

  lemma TreeFamily<K(!new), V>(t: Tree<Node<K, V>>, r: Root<K, V>)
    requires Located(Top, t, r)
    ensures IsFamily(Nodes(t), r)
  {
    forall n: Node<K, V> | n in Nodes(t) ensures n.Kin(Nodes(t), r) {
      KinOf(t, n, r);
    }
  }

  lemma NoCycle<K(!new), V>(t: Tree<Node<K, V>>, a: Node<K, V>, b: Node<K, V>, r: Root<K, V>)
    requires Located(Top, t, r) && a in Nodes(t)
    ensures !(a.parent == b && b.parent == a)
  {
    var (c, s) := Locate(t, a);
    LocatedPlug(c, s, r);
    if c != Top {
      assert ParentIn(c.up) != null ==> ParentIn(c.up) in ContextNodes(c.up);
    }
  }

  lemma RenamedTop<K(!new), V>(t: Tree<Node<K, V>>, a: Node<K, V>, b: Node<K, V>)
    ensures TopOf(Renamed(t, a, b)) == Other(TopOf(t), a, b)
  {
  }

  /** A tree inside a family of nodes of which a and b change places. */
  datatype Renaming<!K(!new), !V> = Renaming(tree: Tree<Node<K, V>>, family: set<Node<K, V>>, a: Node<K, V>,
    b: Node<K, V>)

  /** When every node has been exchanged, the nodes form the renamed tree. */
  twostate lemma {:induction false} RenamedLinked<K(!new), V>(x: Renaming<K, V>)
    requires Nodes(x.tree) <= x.family
    requires x.tree.Branch? ==> old(Linked(x.tree, x.tree.node.parent, x.tree.node.root))
    requires forall n :: n in x.family ==> old(allocated(n)) && Exchanged(n, x.a, x.b)
    ensures x.tree.Branch? ==> Linked(Renamed(x.tree, x.a, x.b), Other(old(x.tree.node.parent), x.a, x.b),
      old(x.tree.node.root))
    decreases x.tree
  {
    match x.tree
    case Leaf =>
    case Branch(lt, n, d, rt) =>
      assert n in x.family && Exchanged(n, x.a, x.b);
      assert old(Linked(lt, n, null)) && old(Linked(rt, n, null));
      RenamedLinked(x.(tree := lt));
      RenamedLinked(x.(tree := rt));
      RenamedTop(lt, x.a, x.b);
      RenamedTop(rt, x.a, x.b);
  }

  ghost function SwappedSeq<T>(s: seq<T>, a: T, b: T): seq<T> {
    seq(|s|, i requires 0 <= i < |s| => if s[i] == a then b else if s[i] == b then a else s[i])
  }

  lemma {:induction false} RenamedInorder<N>(t: Tree<N>, a: N, b: N)
    ensures Inorder(Renamed(t, a, b)) == SwappedSeq(Inorder(t), a, b)
  {
    match t
    case Leaf =>
    case Branch(l, n, _, r) =>
      RenamedInorder(l, a, b);
      RenamedInorder(r, a, b);
      SwappedConcat(Inorder(l) + [n], Inorder(r), a, b);
      SwappedConcat(Inorder(l), [n], a, b);
  }

  lemma SwappedConcat<T>(s: seq<T>, t: seq<T>, a: T, b: T)
    ensures SwappedSeq(s + t, a, b) == SwappedSeq(s, a, b) + SwappedSeq(t, a, b)
  {
  }

  lemma {:induction false} RenamedHeight<N>(t: Tree<N>, a: N, b: N)
    ensures Height(Renamed(t, a, b)) == Height(t) && (Avl(Renamed(t, a, b)) <==> Avl(t))
  {
    match t
    case Leaf =>
    case Branch(l, _, _, r) => RenamedHeight(l, a, b); RenamedHeight(r, a, b);
  }

  lemma RenamedShape<N>(t: Tree<N>, a: N, b: N)
    requires a in Nodes(t) && b in Nodes(t)
    ensures Avl(Renamed(t, a, b)) <==> Avl(t)
    ensures Distinct(t) ==> Distinct(Renamed(t, a, b))
    ensures Nodes(Renamed(t, a, b)) == Nodes(t)
  {
    var u := Renamed(t, a, b);
    RenamedHeight(t, a, b);
    RenamedInorder(t, a, b);
    DistinctInorder(t);
    DistinctInorder(u);
    InorderNodes(t);
    InorderNodes(u);
    SwappedElements(Inorder(t), a, b);
  }

  lemma SwappedElements<T>(s: seq<T>, a: T, b: T)
    requires a in s && b in s
    ensures Elements(SwappedSeq(s, a, b)) == Elements(s)
    ensures NoDuplicates(s) ==> NoDuplicates(SwappedSeq(s, a, b))
  {
    var t := SwappedSeq(s, a, b);
    forall x | x in s ensures x in t {
      var y := if x == a then b else if x == b then a else x;
      var i :| 0 <= i < |s| && s[i] == y;
      assert t[i] == x;
    }
  }

  /** Walks a subtree in order, by parent and child links only. */
  class Iterator<K(!new), V> {
    const begin: Node?<K, V>
    const end: Node?<K, V>
    var current: Node?<K, V>

    constructor (begin: Node?<K, V>, end: Node?<K, V>, current: Node?<K, V>)
      ensures this.begin == begin && this.end == end && this.current == current
    {
      this.begin, this.end, this.current := begin, end, current;
    }

    /** The iterator ranges over the subtree t and stands at position i; the position behind the last one is the end. */
    ghost predicate At(i: nat, c: Context<Node<K, V>>, t: Tree<Node<K, V>>, r: Root<K, V>)
      reads this, Nodes(t), ContextNodes(c), r
    {
      && Located(c, t, r) && begin == TopOf(t) && end == ParentIn(c)
      && i <= |Inorder(t)|
      && current == (if i < |Inorder(t)| then Inorder(t)[i] else end)
    }

    /** `operator++` */
    method Next(ghost i: nat, ghost c: Context<Node<K, V>>, ghost t: Tree<Node<K, V>>, ghost r: Root<K, V>)
      requires At(i, c, t, r)
      modifies this`current
      ensures At(NextIndex(i, |Inorder(t)|), c, t, r)
    {
      EndOutside(c, t);
      assert allocated(Nodes(t)) && allocated(ContextNodes(c));
      if current == end {
        return;
      }
      current := current.Successor(end, i, c, t, r);
    }

    /** `operator--`; the end of an empty range has no predecessor. */
    method Prev(ghost i: nat, ghost c: Context<Node<K, V>>, ghost t: Tree<Node<K, V>>, ghost r: Root<K, V>)
      requires At(i, c, t, r) && t.Branch?
      modifies this`current
      ensures At(PrevIndex(i, |Inorder(t)|), c, t, r)
    {
      EndOutside(c, t);
      assert allocated(Nodes(t)) && allocated(ContextNodes(c));
      if current == end {
        current := begin.Rightmost(Top, c, t, t, r);
        return;
      }
      current := current.Predecessor(end, i, c, t, r);
    }

    /** `++` and then `--` comes back to the node it was on; from the end it comes to the last node instead. */
    method NextThenPrev(ghost i: nat, ghost c: Context<Node<K, V>>, ghost t: Tree<Node<K, V>>, ghost r: Root<K, V>)
      requires At(i, c, t, r) && t.Branch?
      modifies this`current
      ensures current == old(current) <==> i < |Inorder(t)|
      ensures i == |Inorder(t)| ==> At(i - 1, c, t, r)
    {
      EndOutside(c, t);
      Next(i, c, t, r);
      Prev(NextIndex(i, |Inorder(t)|), c, t, r);
      StepsInverse(i, |Inorder(t)|);
    }

    /** `--` and then `++` comes back to where it was, except from the first node, from where it comes to the end. */
    method PrevThenNext(ghost i: nat, ghost c: Context<Node<K, V>>, ghost t: Tree<Node<K, V>>, ghost r: Root<K, V>)
      requires At(i, c, t, r) && t.Branch?
      modifies this`current
      ensures current == old(current) <==> i > 0
      ensures i == 0 ==> At(|Inorder(t)|, c, t, r)
    {
      EndOutside(c, t);
      Prev(i, c, t, r);
      Next(PrevIndex(i, |Inorder(t)|), c, t, r);
      StepsInverse(i, |Inorder(t)|);
    }

    /** `operator+` */
    method Plus(k: nat, ghost i: nat, ghost c: Context<Node<K, V>>, ghost t: Tree<Node<K, V>>, ghost r: Root<K, V>)
      returns (it: Iterator<K, V>)
      requires At(i, c, t, r)
      ensures fresh(it) && it.At(if i + k <= |Inorder(t)| then i + k else |Inorder(t)|, c, t, r)
    {
      assert allocated(Nodes(t)) && allocated(ContextNodes(c));
      it := new Iterator(begin, end, current);
      var n := k;
      ghost var p := i;
      while n > 0
        invariant 0 <= n <= k && fresh(it) && it.At(p, c, t, r)
        invariant p == if i + (k - n) <= |Inorder(t)| then i + (k - n) else |Inorder(t)|
      {
        it.Next(p, c, t, r);
        n, p := n - 1, NextIndex(p, |Inorder(t)|);
      }
    }
  }

  function NextIndex(i: nat, n: nat): nat {
    if i < n then i + 1 else i
  }

  function PrevIndex(i: nat, n: nat): nat {
    if i == 0 then n else i - 1
  }

  /** The two steps undo each other except at the ends: `++` stays behind the last node, and `--` goes from the first
      node there. */
  lemma StepsInverse(i: nat, n: nat)
    requires i <= n
    ensures PrevIndex(NextIndex(i, n), n) == i <==> i < n || n == 0
    ensures NextIndex(PrevIndex(i, n), n) == i <==> i > 0 || n == 0
  {
  }

  // ---------- Positions ----------

  /** The node at position i, as a subtree and its context. */
  ghost function LocateIndex<N>(t: Tree<N>, i: nat): (z: (Context<N>, Tree<N>))
    requires i < |Inorder(t)|
    ensures z.1.Branch? && Plug(z.0, z.1) == t && z.1.node == Inorder(t)[i]
    ensures |Before(z.0)| + |Inorder(z.1.left)| == i
  {
    LocateIndexIn(Top, t, i)
  }

  ghost function LocateIndexIn<N>(c: Context<N>, t: Tree<N>, i: nat): (z: (Context<N>, Tree<N>))
    requires i < |Inorder(t)|
    ensures z.1.Branch? && Plug(z.0, z.1) == Plug(c, t) && z.1.node == Inorder(t)[i]
    ensures |Before(z.0)| + |Inorder(z.1.left)| == |Before(c)| + i
    decreases t
  {
    var k := |Inorder(t.left)|;
    if i == k then (c, t)
    else if i < k then LocateIndexIn(InLeft(t.node, t.diff, t.right, c), t.left, i)
    else LocateIndexIn(InRight(t.left, t.node, t.diff, c), t.right, i - k - 1)
  }

  lemma AtIndex<N>(z: Context<N>, u: Tree<N>)
    requires u.Branch?
    ensures var s := Inorder(Plug(z, u));
      |Before(z)| + |Inorder(u.left)| < |s| && s[|Before(z)| + |Inorder(u.left)|] == u.node
  {
    PlugInorder(z, u);
  }

  lemma AtLast<N>(z: Context<N>, u: Tree<N>)
    requires u.Branch? && u.right == Leaf
    ensures var s, i := Inorder(Plug(z, u)), |Before(z)| + |Inorder(u)| - 1; 0 <= i < |s| && s[i] == u.node
  {
    AtIndex(z, u);
  }

  /** The node above a subtree follows it (from a left child) or precedes it (from a right child). */
  lemma ClimbIndex<N>(z: Context<N>, u: Tree<N>)
    ensures var s := Inorder(Plug(z, u));
      && (z == Top ==> |Before(z)| == 0 && |Inorder(u)| == |s|)
      && (z.InLeft? ==> |Before(z)| + |Inorder(u)| < |s| && s[|Before(z)| + |Inorder(u)|] == z.node)
      && (z.InRight? ==> 1 <= |Before(z)| <= |s| && s[|Before(z)| - 1] == z.node)
  {
    PlugInorder(z, u);
  }

  lemma EndOutside<K(!new), V>(c: Context<Node<K, V>>, t: Tree<Node<K, V>>)
    requires Nodes(t) !! ContextNodes(c)
    ensures forall i :: 0 <= i < |Inorder(t)| ==> Inorder(t)[i] != ParentIn(c)
  {
    InorderNodes(t);
    forall i | 0 <= i < |Inorder(t)| ensures Inorder(t)[i] != ParentIn(c) {
      assert Inorder(t)[i] in Elements(Inorder(t));
    }
  }

  lemma IsLeftInContext<K(!new), V>(c: Context<Node<K, V>>, t: Tree<Node<K, V>>, r: Root<K, V>)
    requires Located(c, t, r) && t.Branch?
    ensures t.node.parent != null && t.node.parent.left == t.node <==> c.InLeft?
  {
    if c.InRight? && c.left.Branch? {
      assert c.left.node in Nodes(c.left);
    }
  }

  /** What the parent pointer of the node in the hole of z tells about z, inside the subtree below c. */
  ghost predicate Upward<K(!new), V>(c: Context<Node<K, V>>, z: Context<Node<K, V>>, n: Node<K, V>)
    reads n, n.parent
  {
    && (n.parent == ParentIn(c) <==> z == Top)
    && (z != Top ==> n.parent == ParentIn(z))
    && (z.InRight? <==> n.parent != ParentIn(c) && n.parent != null && n.parent.right == n)
    && (z.InLeft? <==> n.parent != ParentIn(c) && n.parent != null && n.parent.left == n)
  }

  lemma ClimbFacts<K(!new), V>(c: Context<Node<K, V>>, z: Context<Node<K, V>>, u: Tree<Node<K, V>>, r: Root<K, V>)
    requires Located(Compose(c, z), u, r) && u.Branch?
    ensures Upward(c, z, u.node)
    ensures z != Top ==> Located(Compose(c, z.up), Above(z, u), r) && Plug(z.up, Above(z, u)) == Plug(z, u)
  {
    TopContext(c, z, u, r);
    IsRightInContext(Compose(c, z), u, r);
    IsLeftInContext(Compose(c, z), u, r);
    if z != Top { LocatedAbove(Compose(c, z), u, r); }
  }

  lemma ClimbOnce<K(!new), V>(c: Context<Node<K, V>>, z: Context<Node<K, V>>, u: Tree<Node<K, V>>, r: Root<K, V>)
    requires Located(Compose(c, z), u, r) && z != Top
    ensures var a := Above(z, u);
      && Located(Compose(c, z.up), a, r) && Plug(z.up, a) == Plug(z, u) && Upward(c, z.up, a.node) &&
           a.node == ParentIn(z)
      && (z.InRight? ==> |Before(z.up)| + |Inorder(a)| == |Before(z)| + |Inorder(u)|)
      && (z.InLeft? ==> |Before(z.up)| == |Before(z)|)
  {
    LocatedAbove(Compose(c, z), u, r);
    ClimbFacts(c, z.up, Above(z, u), r);
  }

  lemma TopContext<K(!new), V>(c: Context<Node<K, V>>, z: Context<Node<K, V>>, u: Tree<Node<K, V>>, r: Root<K, V>)
    requires Located(Compose(c, z), u, r) && u.Branch?
    ensures u.node.parent == ParentIn(c) <==> z == Top
    ensures z != Top ==> ParentIn(Compose(c, z)) == ParentIn(z) == u.node.parent
    ensures z != Top ==> (Compose(c, z).InRight? <==> z.InRight?) && (Compose(c, z).InLeft? <==> z.InLeft?)
  {
    ComposeNodes(c, z);
  }

  /** What `find` promises about position i of the sorted keys ks: the first equal key, or, if no key is equal,
      the last or first position on one side of the gap, with the child on that side missing. */
  ghost predicate FoundAt<K(!new)>(less: (K, K) -> bool, fx: K, ks: seq<K>, i: nat, leftFree: bool, rightFree: bool)
    requires i < |ks|
  {
    if exists j :: 0 <= j < |ks| && Equivalent(less, fx, ks[j]) then
      Equivalent(less, fx, ks[i]) && forall j :: 0 <= j < i ==> less(ks[j], fx)
    else if less(fx, ks[i]) then
      leftFree && (forall j :: 0 <= j < i ==> less(ks[j], fx)) && (forall j :: i <= j < |ks| ==> less(fx, ks[j]))
    else
      rightFree && (forall j :: 0 <= j <= i ==> less(ks[j], fx)) && (forall j :: i < j < |ks| ==> less(fx, ks[j]))
  }

  lemma FoundIndex<K(!new), V>(less: (K, K) -> bool, fx: K, c: Context<Node<K, V>>, s: Tree<Node<K, V>>)
    returns (i: nat)
    requires StrictWeakOrder(less) && s.Branch? && Found(less, fx, c, s)
    ensures i == |Before(c)| + |Inorder(s.left)| && i < |Inorder(Plug(c, s))| && Inorder(Plug(c, s))[i] == s.node
    ensures FoundAt(less, fx, Keys(Inorder(Plug(c, s))), i, s.left == Leaf, s.right == Leaf)
  {
    i := |Before(c)| + |Inorder(s.left)|;
    PlugInorder(c, s);
    var before, after := Before(c) + Inorder(s.left), Inorder(s.right) + After(c);
    SplitAround(Before(c), Inorder(s.left), s.node, Inorder(s.right), After(c));
    KeysThree(before, [s.node], after);
    assert Keys([s.node]) == [s.node.x];
    if Equivalent(less, fx, s.node.x) {
      FoundEqual(less, fx, Keys(before), s.node.x, Keys(after), s.left == Leaf, s.right == Leaf);
    } else {
      FoundSides(less, fx, c, s);
      FoundGap(less, fx, Keys(before), s.node.x, Keys(after), s.left == Leaf, s.right == Leaf);
    }
  }

  lemma FoundSides<K(!new), V>(less: (K, K) -> bool, fx: K, c: Context<Node<K, V>>, s: Tree<Node<K, V>>)
    requires s.Branch? && Found(less, fx, c, s) && !Equivalent(less, fx, s.node.x)
    ensures AllLess(less, Keys(Before(c) + Inorder(s.left)), fx)
    ensures AllGreater(less, Keys(Inorder(s.right) + After(c)), fx)
  {
    KeysConcat(Before(c), Inorder(s.left));
    KeysConcat(Inorder(s.right), After(c));
  }

  lemma FoundEqual<K(!new)>(less: (K, K) -> bool, fx: K, before: seq<K>, k: K, after: seq<K>, leftFree: bool,
                     rightFree: bool)
    requires Equivalent(less, fx, k) && AllLess(less, before, fx)
    ensures FoundAt(less, fx, before + [k] + after, |before|, leftFree, rightFree)
  {
    var ks := before + [k] + after;
    assert ks[|before|] == k;
    assert forall j :: 0 <= j < |before| ==> ks[j] == before[j];
  }

  lemma FoundGap<K(!new)>(less: (K, K) -> bool, fx: K, before: seq<K>, k: K, after: seq<K>, leftFree: bool,
                   rightFree: bool)
    requires !Equivalent(less, fx, k) && AllLess(less, before, fx) && AllGreater(less, after, fx)
    requires if less(fx, k) then leftFree else rightFree
    requires StrictWeakOrder(less)
    ensures FoundAt(less, fx, before + [k] + after, |before|, leftFree, rightFree)
  {
    var ks := before + [k] + after;
    assert ks[|before|] == k;
    assert forall j :: 0 <= j < |before| ==> ks[j] == before[j];
    assert forall j :: |before| < j < |ks| ==> ks[j] == after[j - |before| - 1];
  }
}
