/** Rotations and the repair of one unbalanced node, as functions on trees. */
module Rebalancing {
  import opened Arithmetic
  import opened Sequences
  import opened Trees

  // ---------- Rotations as functions on trees ----------

  function LiftRightDiffs(d: int, e: int): (int, int) {
    var d' := if e <= 0 then d - 1 else d - (e + 1);
    var e' := if d' >= 0 then e - 1 else e + (d' - 1);
    (d', e')
  }

  ghost function LiftRight<N>(t: Tree<N>): Tree<N>
    requires t.Branch? && t.right.Branch?
  {
    var r := t.right;
    var (d, e) := LiftRightDiffs(t.diff, r.diff);
    Branch(Branch(t.left, t.node, d, r.left), r.node, e, r.right)
  }

  lemma LiftRightNodes<N>(t: Tree<N>)
    requires t.Branch? && t.right.Branch?
    ensures Nodes(LiftRight(t)) == Nodes(t)
    ensures Inorder(LiftRight(t)) == Inorder(t)
    ensures Distinct(t) ==> Distinct(LiftRight(t))
  {
    var r, s := t.right, LiftRight(t);
    Rotation(Inorder(t.left), t.node, Inorder(r.left), r.node, Inorder(r.right));
    assert Inorder(s.left) == Inorder(t.left) + [t.node] + Inorder(r.left);
    SameInorder(t, s);
  }

  function LiftLeftDiffs(d: int, e: int): (int, int) {
    var d' := if e >= 0 then d + 1 else d - (e - 1);
    var e' := if d' <= 0 then e + 1 else e + (d' + 1);
    (d', e')
  }

  ghost function LiftLeft<N>(t: Tree<N>): Tree<N>
    requires t.Branch? && t.left.Branch?
  {
    var l := t.left;
    var (d, e) := LiftLeftDiffs(t.diff, l.diff);
    Branch(l.left, l.node, e, Branch(l.right, t.node, d, t.right))
  }

  lemma LiftLeftNodes<N>(t: Tree<N>)
    requires t.Branch? && t.left.Branch?
    ensures Nodes(LiftLeft(t)) == Nodes(t)
    ensures Inorder(LiftLeft(t)) == Inorder(t)
    ensures Distinct(t) ==> Distinct(LiftLeft(t))
  {
    var l, s := t.left, LiftLeft(t);
    Rotation(Inorder(l.left), l.node, Inorder(l.right), t.node, Inorder(t.right));
    assert Inorder(s.right) == Inorder(l.right) + [t.node] + Inorder(t.right);
    SameInorder(t, s);
  }

  /** A rotation leaves the two balance fields right, whatever their values were. */
  lemma LiftRightExact<N>(t: Tree<N>)
    requires t.Branch? && t.right.Branch?
    requires t.diff == Height(t.right) - Height(t.left)
    requires t.right.diff == Height(t.right.right) - Height(t.right.left)
    ensures var s := LiftRight(t);
      && s.diff == Height(s.right) - Height(s.left)
      && s.left.diff == Height(s.left.right) - Height(s.left.left)
  {
    var s := LiftRight(t);
    assert Height(t.right) == 1 + Max(Height(t.right.left), Height(t.right.right));
    assert Height(s.left) == 1 + Max(Height(t.left), Height(t.right.left));
  }

  lemma LiftLeftExact<N>(t: Tree<N>)
    requires t.Branch? && t.left.Branch?
    requires t.diff == Height(t.right) - Height(t.left)
    requires t.left.diff == Height(t.left.right) - Height(t.left.left)
    ensures var s := LiftLeft(t);
      && s.diff == Height(s.right) - Height(s.left)
      && s.right.diff == Height(s.right.right) - Height(s.right.left)
  {
    var s := LiftLeft(t);
    assert Height(t.left) == 1 + Max(Height(t.left.left), Height(t.left.right));
    assert Height(s.right) == 1 + Max(Height(t.left.right), Height(t.right));
  }

  /** The repair of a node whose right side is two higher. */
  ghost function FixRight<N>(t: Tree<N>): Tree<N>
    requires t.Branch? && t.right.Branch? && (t.right.diff == -1 ==> t.right.left.Branch?)
  {
    LiftRight(if t.right.diff == -1 then t.(right := LiftLeft(t.right)) else t)
  }

  ghost function FixLeft<N>(t: Tree<N>): Tree<N>
    requires t.Branch? && t.left.Branch? && (t.left.diff == 1 ==> t.left.right.Branch?)
  {
    LiftLeft(if t.left.diff == 1 then t.(left := LiftRight(t.left)) else t)
  }

  /** Both subtrees are balanced, and the balance field of the top node is right but two off level. */
  ghost predicate Overweight<N>(t: Tree<N>, d: int) {
    t.Branch? && t.diff == d == Height(t.right) - Height(t.left) && Avl(t.left) && Avl(t.right)
  }

  lemma InnerRight<N>(t: Tree<N>)
    requires Overweight(t, 2) && t.right.diff == -1
    ensures t.right.Branch? && t.right.left.Branch?
    ensures var u := LiftLeft(t.right);
      && u.diff in {1, 2} && Height(u) == Height(t.right) && Inorder(u) == Inorder(t.right)
  {
    var r := t.right;
    assert r.Branch? && Avl(r) && Avl(r.left);
    assert Height(r.left) >= 1;
    LiftLeftExact(r);
    LiftLeftNodes(r);
    assert Height(r) == 1 + Height(r.left);
    assert Height(r.left) == 1 + Max(Height(r.left.left), Height(r.left.right));
  }

  /** One or two rotations restore the balance; the height shrinks by one unless the heavy
      child was level, and then the new top is left leaning to the other side. */
  lemma FixRightBalances<N>(t: Tree<N>)
    requires Overweight(t, 2)
    ensures t.right.Branch? && (t.right.diff == -1 ==> t.right.left.Branch?)
    ensures var s := FixRight(t);
      && Avl(s) && Inorder(s) == Inorder(t)
      && s.diff == (if t.right.diff == 0 then -1 else 0)
      && Height(s) == (if t.right.diff == 0 then Height(t) else Height(t) - 1)
  {
    assert Height(t.right) >= 2 && t.right.Branch?;
    if t.right.diff == -1 {
      InnerRight(t);
      DoubleRight(t);
    } else {
      LiftRightExact(t);
      LiftRightNodes(t);
    }
  }

  lemma DoubleRight<N>(t: Tree<N>)
    requires Overweight(t, 2) && t.right.diff == -1 && t.right.left.Branch?
    ensures var s := FixRight(t);
      Avl(s) && Inorder(s) == Inorder(t) && s.diff == 0 && Height(s) == Height(t) - 1
  {
    hide Inorder, Nodes, Distinct;
    InnerRight(t);
    var u := t.(right := LiftLeft(t.right));
    DoubleRightOrder(t, u);
    assert Height(t.right.left) == 1 + Max(Height(t.right.left.left), Height(t.right.left.right));
    assert Avl(t.right.left);
  }

  lemma DoubleRightOrder<N>(t: Tree<N>, u: Tree<N>)
    requires t.Branch? && t.right.Branch? && u.Branch? && u.right.Branch? && u == t.(right := u.right) &&
      Inorder(u.right) == Inorder(t.right)
    ensures Inorder(LiftRight(u)) == Inorder(t)
  {
    LiftRightNodes(u);
  }

  lemma InnerLeft<N>(t: Tree<N>)
    requires Overweight(t, -2) && t.left.diff == 1
    ensures t.left.Branch? && t.left.right.Branch?
    ensures var u := LiftRight(t.left);
      && u.diff in {-1, -2} && Height(u) == Height(t.left) && Inorder(u) == Inorder(t.left)
  {
    var l := t.left;
    assert l.Branch? && Avl(l) && Avl(l.right);
    assert Height(l.right) >= 1;
    LiftRightExact(l);
    LiftRightNodes(l);
    assert Height(l) == 1 + Height(l.right);
    assert Height(l.right) == 1 + Max(Height(l.right.right), Height(l.right.left));
  }

  /** One or two rotations restore the balance; the height shrinks by one unless the heavy
      child was level, and then the new top is right leaning to the other side. */
  lemma FixLeftBalances<N>(t: Tree<N>)
    requires Overweight(t, -2)
    ensures t.left.Branch? && (t.left.diff == 1 ==> t.left.right.Branch?)
    ensures var s := FixLeft(t);
      && Avl(s) && Inorder(s) == Inorder(t)
      && s.diff == (if t.left.diff == 0 then 1 else 0)
      && Height(s) == (if t.left.diff == 0 then Height(t) else Height(t) - 1)
  {
    assert Height(t.left) >= 2 && t.left.Branch?;
    if t.left.diff == 1 {
      InnerLeft(t);
      DoubleLeft(t);
    } else {
      LiftLeftExact(t);
      LiftLeftNodes(t);
    }
  }

  lemma DoubleLeft<N>(t: Tree<N>)
    requires Overweight(t, -2) && t.left.diff == 1 && t.left.right.Branch?
    ensures var s := FixLeft(t);
      Avl(s) && Inorder(s) == Inorder(t) && s.diff == 0 && Height(s) == Height(t) - 1
  {
    hide Inorder, Nodes, Distinct;
    InnerLeft(t);
    var u := t.(left := LiftRight(t.left));
    DoubleLeftOrder(t, u);
    assert Height(t.left.right) == 1 + Max(Height(t.left.right.left), Height(t.left.right.right));
    assert Avl(t.left.right);
  }

  lemma DoubleLeftOrder<N>(t: Tree<N>, u: Tree<N>)
    requires t.Branch? && t.left.Branch? && u.Branch? && u.left.Branch? && u == t.(left := u.left) &&
      Inorder(u.left) == Inorder(t.left)
    ensures Inorder(LiftLeft(u)) == Inorder(t)
  {
    LiftLeftNodes(u);
  }

  // ---------- One step of the climb ----------

  /** The subtree has just grown: it is a new leaf node, or it leans to the side that grew. */
  ghost predicate Grown<N>(t: Tree<N>) {
    t.Branch? && (Height(t) == 1 || t.diff != 0)
  }

  /** The height of t before its left or right side grew (or, if rem, shrank) by one.
      `rInc` says that the right side has become higher relative to the left. */
  ghost function FormerHeight<N>(t: Tree<N>, rInc: bool, rem: bool): int
    requires t.Branch?
  {
    var change := if rem then 1 else -1;
    if rInc != rem then 1 + Max(Height(t.left), Height(t.right) + change)
    else 1 + Max(Height(t.left) + change, Height(t.right))
  }

  /** The loop invariant of the climb: everything is exact except that the balance field of the
      top node of t is one behind in the direction rInc, and the fields around t still describe
      the height t had before. */
  ghost predicate OffBalance<N>(c: Context<N>, t: Tree<N>, rInc: bool, rem: bool) {
    && t.Branch? && Avl(t.left) && Avl(t.right) && -1 <= t.diff <= 1
    && t.diff + (if rInc then 1 else -1) == Height(t.right) - Height(t.left)
    && AvlContext(c, FormerHeight(t, rInc, rem))
    && (!rem ==> Grown(if rInc then t.right else t.left))
  }

  /** The subtree is balanced, its height has changed by one, and the node above is next. */
  ghost predicate Climbing<N>(c: Context<N>, t: Tree<N>, rem: bool) {
    && Avl(t) && AvlContext(c, Height(t) + (if rem then 1 else -1))
    && (!rem ==> Grown(t))
  }

  /** The subtree is balanced and the context fits its height: the whole tree is balanced. */
  ghost predicate Settled<N>(c: Context<N>, t: Tree<N>) {
    Avl(t) && AvlContext(c, Height(t))
  }

  ghost function Tilted<N>(t: Tree<N>, rInc: bool): Tree<N>
    requires t.Branch?
  {
    t.(diff := t.diff + (if rInc then 1 else -1))
  }

  /** What the updated balance field alone tells about the height change, when no rotation is needed. */
  lemma TiltDecides<N>(c: Context<N>, t: Tree<N>, rInc: bool, rem: bool)
    requires OffBalance(c, t, rInc, rem)
    ensures var s := Tilted(t, rInc);
      -1 <= s.diff <= 1 ==>
        && (((if rInc then s.diff > 0 else s.diff < 0) != rem) ==> Climbing(c, s, rem))
        && (((if rInc then s.diff > 0 else s.diff < 0) == rem) ==> Settled(c, s))
  {
    hide AvlContext, Avl;
    var s := Tilted(t, rInc);
    assert Height(s) == Height(t) == 1 + Max(Height(t.left), Height(t.right));
    TiltedAvl(t, s.diff);
  }

  lemma TiltedAvl<N>(t: Tree<N>, d: int)
    requires t.Branch? && Avl(t.left) && Avl(t.right) && d == Height(t.right) - Height(t.left)
    ensures -1 <= d <= 1 ==> Avl(t.(diff := d))
  {
  }

  lemma FixDecides<N>(c: Context<N>, t: Tree<N>, rInc: bool, rem: bool)
    requires OffBalance(c, t, rInc, rem)
    requires !(-1 <= Tilted(t, rInc).diff <= 1)
    ensures var u := Tilted(t, rInc);
      && (rInc ==> Overweight(u, 2)) && (!rInc ==> Overweight(u, -2))
      && (rInc ==> u.right.Branch? && (u.right.diff == -1 ==> u.right.left.Branch?))
      && (!rInc ==> u.left.Branch? && (u.left.diff == 1 ==> u.left.right.Branch?))
    ensures var u := Tilted(t, rInc);
      Fixed(c, t, if rInc then FixRight(u) else FixLeft(u), rInc, rem)
  {
    if rInc { FixRightDecides(c, t, rem); } else { FixLeftDecides(c, t, rem); }
  }

  /** s is t after its rotations; the balance field of the new top tells what happens next. */
  ghost predicate Fixed<N>(c: Context<N>, t: Tree<N>, s: Tree<N>, rInc: bool, rem: bool) {
    && s.Branch? && Inorder(s) == Inorder(t)
    && (s.diff == 0 || s.diff == (if rInc then -1 else 1))
    && (!rem ==> s.diff == 0)
    && (rem && s.diff == 0 ==> Climbing(c, s, rem))
    && (!rem || s.diff != 0 ==> Settled(c, s))
  }

  lemma FixRightDecides<N>(c: Context<N>, t: Tree<N>, rem: bool)
    requires OffBalance(c, t, true, rem) && Tilted(t, true).diff > 1
    ensures var u := Tilted(t, true);
      Overweight(u, 2) && u.right.Branch? && (u.right.diff == -1 ==> u.right.left.Branch?) &&
        Fixed(c, t, FixRight(u), true, rem)
  {
    var u := Tilted(t, true);
    assert Height(u) == Height(t) == 1 + Max(Height(t.left), Height(t.right));
    FixRightBalances(u);
  }

  lemma FixLeftDecides<N>(c: Context<N>, t: Tree<N>, rem: bool)
    requires OffBalance(c, t, false, rem) && Tilted(t, false).diff < -1
    ensures var u := Tilted(t, false);
      Overweight(u, -2) && u.left.Branch? && (u.left.diff == 1 ==> u.left.right.Branch?) &&
        Fixed(c, t, FixLeft(u), false, rem)
  {
    var u := Tilted(t, false);
    assert Height(u) == Height(t) == 1 + Max(Height(t.left), Height(t.right));
    FixLeftBalances(u);
  }

  /** The node above a subtree whose height has changed, with that subtree as its child. */
  ghost function Above<N>(c: Context<N>, t: Tree<N>): Tree<N>
    requires !c.Top?
  {
    if c.InLeft? then Branch(t, c.node, c.diff, c.right) else Branch(c.left, c.node, c.diff, t)
  }

  /** The direction handed to the parent, `is_right` for growth and its negation for removal, is the right one. */
  lemma ClimbStep<N>(c: Context<N>, t: Tree<N>, rem: bool)
    requires !c.Top? && Climbing(c, t, rem)
    ensures OffBalance(c.up, Above(c, t), c.InRight? != rem, rem)
    ensures Plug(c.up, Above(c, t)) == Plug(c, t)
  {
    if c.InLeft? {
      assert Height(Above(c, t)) == 1 + Max(Height(t), Height(c.right));
    } else {
      assert Height(Above(c, t)) == 1 + Max(Height(c.left), Height(t));
    }
  }
}
