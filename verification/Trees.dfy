/** Binary trees as values.  A tree records, for every node, the balance field that is
    stored in it; whether that field is right is a separate question (`Avl`).  A `Context`
    is a tree with a hole, read from the hole upwards, which is the way `rebalance` walks. */
module Trees {
  import opened Arithmetic
  import opened Sequences

  datatype Tree<N> = Leaf | Branch(left: Tree<N>, node: N, diff: int, right: Tree<N>)

  datatype Context<N> =
    | Top
    | InLeft(node: N, diff: int, right: Tree<N>, up: Context<N>)
    | InRight(left: Tree<N>, node: N, diff: int, up: Context<N>)

  ghost function Height<N>(t: Tree<N>): nat {
    match t
    case Leaf => 0
    case Branch(l, _, _, r) => 1 + Max(Height(l), Height(r))
  }

  ghost function Nodes<N>(t: Tree<N>): set<N> {
    match t
    case Leaf => {}
    case Branch(l, n, _, r) => Nodes(l) + {n} + Nodes(r)
  }

  ghost function Inorder<N>(t: Tree<N>): seq<N> {
    match t
    case Leaf => []
    case Branch(l, n, _, r) => Inorder(l) + [n] + Inorder(r)
  }

  /** No node occurs twice: every node has a single owner. */
  ghost predicate Distinct<N>(t: Tree<N>) {
    match t
    case Leaf => true
    case Branch(l, n, _, r) =>
      n !in Nodes(l) && n !in Nodes(r) && Nodes(l) !! Nodes(r) && Distinct(l) && Distinct(r)
  }

  /** Every stored balance field is height(right) - height(left), and is -1, 0 or 1. */
  ghost predicate Avl<N>(t: Tree<N>) {
    match t
    case Leaf => true
    case Branch(l, _, d, r) => d == Height(r) - Height(l) && -1 <= d <= 1 && Avl(l) && Avl(r)
  }

  // ---------- Contexts ----------

  ghost function Plug<N>(c: Context<N>, t: Tree<N>): Tree<N>
    decreases c
  {
    match c
    case Top => t
    case InLeft(n, d, r, up) => Plug(up, Branch(t, n, d, r))
    case InRight(l, n, d, up) => Plug(up, Branch(l, n, d, t))
  }

  ghost function ContextNodes<N>(c: Context<N>): set<N> {
    match c
    case Top => {}
    case InLeft(n, _, r, up) => {n} + Nodes(r) + ContextNodes(up)
    case InRight(l, n, _, up) => {n} + Nodes(l) + ContextNodes(up)
  }

  /** The nodes that precede the hole in order. */
  ghost function Before<N>(c: Context<N>): seq<N> {
    match c
    case Top => []
    case InLeft(_, _, _, up) => Before(up)
    case InRight(l, n, _, up) => Before(up) + Inorder(l) + [n]
  }

  /** The nodes that follow the hole in order. */
  ghost function After<N>(c: Context<N>): seq<N> {
    match c
    case Top => []
    case InLeft(n, _, r, up) => [n] + Inorder(r) + After(up)
    case InRight(_, _, _, up) => After(up)
  }

  ghost predicate DistinctContext<N>(c: Context<N>) {
    match c
    case Top => true
    case InLeft(n, _, r, up) =>
      n !in Nodes(r) && n !in ContextNodes(up) && Nodes(r) !! ContextNodes(up) && Distinct(r) && DistinctContext(up)
    case InRight(l, n, _, up) =>
      n !in Nodes(l) && n !in ContextNodes(up) && Nodes(l) !! ContextNodes(up) && Distinct(l) && DistinctContext(up)
  }

  /** Every balance field around the hole is right, for a hole of height h. */
  ghost predicate AvlContext<N>(c: Context<N>, h: int) {
    match c
    case Top => true
    case InLeft(_, d, r, up) =>
      d == Height(r) - h && -1 <= d <= 1 && Avl(r) && AvlContext(up, 1 + Max(h, Height(r)))
    case InRight(l, _, d, up) =>
      d == h - Height(l) && -1 <= d <= 1 && Avl(l) && AvlContext(up, 1 + Max(Height(l), h))
  }

  /** The hole of `inner` is inside the hole of `outer`. */
  ghost function Compose<N>(outer: Context<N>, inner: Context<N>): Context<N> {
    match inner
    case Top => outer
    case InLeft(n, d, r, up) => InLeft(n, d, r, Compose(outer, up))
    case InRight(l, n, d, up) => InRight(l, n, d, Compose(outer, up))
  }

  lemma {:induction false} PlugInorder<N>(c: Context<N>, t: Tree<N>)
    ensures Inorder(Plug(c, t)) == Before(c) + Inorder(t) + After(c)
    decreases c
  {
    match c
    case Top =>
    case InLeft(n, d, r, up) =>
      PlugInorder(up, Branch(t, n, d, r));
      SplitMiddle(Before(up), Inorder(t), [n], Inorder(r), After(up));
    case InRight(l, n, d, up) =>
      PlugInorder(up, Branch(l, n, d, t));
      SplitMiddle(Before(up), Inorder(l), [n], Inorder(t), After(up));
  }

  lemma {:induction false} PlugNodes<N>(c: Context<N>, t: Tree<N>)
    ensures Nodes(Plug(c, t)) == ContextNodes(c) + Nodes(t)
    decreases c
  {
    match c
    case Top =>
    case InLeft(n, d, r, up) => PlugNodes(up, Branch(t, n, d, r));
    case InRight(l, n, d, up) => PlugNodes(up, Branch(l, n, d, t));
  }

  lemma {:induction false} PlugDistinct<N>(c: Context<N>, t: Tree<N>)
    ensures Distinct(Plug(c, t)) <==> Distinct(t) && DistinctContext(c) && Nodes(t) !! ContextNodes(c)
    decreases c
  {
    match c
    case Top =>
    case InLeft(n, d, r, up) =>
      PlugDistinct(up, Branch(t, n, d, r));
    case InRight(l, n, d, up) =>
      PlugDistinct(up, Branch(l, n, d, t));
  }

  lemma {:induction false} PlugAvl<N>(c: Context<N>, t: Tree<N>)
    ensures Avl(Plug(c, t)) <==> Avl(t) && AvlContext(c, Height(t))
    decreases c
  {
    match c
    case Top =>
    case InLeft(n, d, r, up) => PlugAvl(up, Branch(t, n, d, r));
    case InRight(l, n, d, up) => PlugAvl(up, Branch(l, n, d, t));
  }

  lemma {:induction false} ComposePlug<N>(outer: Context<N>, inner: Context<N>, t: Tree<N>)
    ensures Plug(Compose(outer, inner), t) == Plug(outer, Plug(inner, t))
    decreases inner
  {
    match inner
    case Top =>
    case InLeft(n, d, r, up) => ComposePlug(outer, up, Branch(t, n, d, r));
    case InRight(l, n, d, up) => ComposePlug(outer, up, Branch(l, n, d, t));
  }

  lemma {:induction false} ComposeInorder<N>(outer: Context<N>, inner: Context<N>)
    ensures Before(Compose(outer, inner)) == Before(outer) + Before(inner)
    ensures After(Compose(outer, inner)) == After(inner) + After(outer)
    decreases inner
  {
    match inner
    case Top =>
    case InLeft(n, d, r, up) => ComposeInorder(outer, up);
    case InRight(l, n, d, up) => ComposeInorder(outer, up);
  }

  /** The number of nodes above the hole. */
  ghost function Depth<N>(c: Context<N>): nat {
    match c
    case Top => 0
    case InLeft(_, _, _, up) => 1 + Depth(up)
    case InRight(_, _, _, up) => 1 + Depth(up)
  }

  lemma {:induction false} PlugHeight<N>(c: Context<N>, t: Tree<N>)
    ensures Depth(c) + Height(t) <= Height(Plug(c, t))
    decreases c
  {
    match c
    case Top =>
    case InLeft(n, d, r, up) => PlugHeight(up, Branch(t, n, d, r));
    case InRight(l, n, d, up) => PlugHeight(up, Branch(l, n, d, t));
  }

  // ---------- Nodes and the in-order sequence ----------

  ghost function Elements<T>(s: seq<T>): set<T> {
    set x | x in s
  }

  lemma {:induction false} InorderNodes<N>(t: Tree<N>)
    ensures Nodes(t) == Elements(Inorder(t))
  {
    match t
    case Leaf =>
    case Branch(l, n, _, r) =>
      InorderNodes(l);
      InorderNodes(r);
      assert Elements(Inorder(l) + [n] + Inorder(r)) == Elements(Inorder(l)) + {n} + Elements(Inorder(r));
  }

  ghost predicate NoDuplicates<T>(s: seq<T>) {
    forall i, j :: 0 <= i < j < |s| ==> s[i] != s[j]
  }

  ghost predicate Disjoint<T>(a: seq<T>, b: seq<T>) {
    forall i, j :: 0 <= i < |a| && 0 <= j < |b| ==> a[i] != b[j]
  }

  lemma DisjointElements<T>(a: seq<T>, b: seq<T>)
    ensures Disjoint(a, b) <==> Elements(a) !! Elements(b)
  {
    if Elements(a) !! Elements(b) {
      forall i, j | 0 <= i < |a| && 0 <= j < |b| ensures a[i] != b[j] {
        assert a[i] in Elements(a) && b[j] in Elements(b);
      }
    }
  }

  lemma NoDuplicatesConcat<T>(a: seq<T>, x: T, b: seq<T>)
    ensures NoDuplicates(a + [x] + b) <==>
            NoDuplicates(a) && NoDuplicates(b) && x !in a && x !in b && Disjoint(a, b)
  {
    var s := a + [x] + b;
    assert s[|a|] == x;
    assert forall i :: 0 <= i < |a| ==> s[i] == a[i];
    assert forall i :: 0 <= i < |b| ==> s[|a| + 1 + i] == b[i];
    if NoDuplicates(s) {
      forall i, j | 0 <= i < j < |b| ensures b[i] != b[j] {
        assert s[|a| + 1 + i] != s[|a| + 1 + j];
      }
      forall i, j | 0 <= i < |a| && 0 <= j < |b| ensures a[i] != b[j] {
        assert s[i] != s[|a| + 1 + j];
      }
      forall j | 0 <= j < |b| ensures b[j] != x {
        assert s[|a|] != s[|a| + 1 + j];
      }
    }
  }

  /** A tree owns each of its nodes once exactly when its in-order sequence has no repetition. */
  lemma {:induction false} DistinctInorder<N>(t: Tree<N>)
    ensures Distinct(t) <==> NoDuplicates(Inorder(t))
  {
    match t
    case Leaf =>
    case Branch(l, n, _, r) =>
      DistinctInorder(l);
      DistinctInorder(r);
      InorderNodes(l);
      InorderNodes(r);
      NoDuplicatesConcat(Inorder(l), n, Inorder(r));
      DisjointElements(Inorder(l), Inorder(r));
  }

  lemma SameInorder<N>(t: Tree<N>, u: Tree<N>)
    requires Inorder(t) == Inorder(u)
    ensures Nodes(t) == Nodes(u) && (Distinct(t) <==> Distinct(u))
  {
    InorderNodes(t);
    InorderNodes(u);
    DistinctInorder(t);
    DistinctInorder(u);
  }

  lemma PlugSameInorder<N>(c: Context<N>, t: Tree<N>, u: Tree<N>)
    requires Inorder(t) == Inorder(u)
    ensures Inorder(Plug(c, t)) == Inorder(Plug(c, u)) && Nodes(t) == Nodes(u)
  {
    PlugInorder(c, t);
    PlugInorder(c, u);
    SameInorder(t, u);
  }

  /** The context of a node of the tree, and the subtree it heads. */
  ghost function Locate<N>(t: Tree<N>, n: N): (z: (Context<N>, Tree<N>))
    requires n in Nodes(t)
    ensures Plug(z.0, z.1) == t
    ensures z.1.Branch? && z.1.node == n
  {
    LocateIn(Top, t, n)
  }

  ghost function LocateIn<N>(c: Context<N>, t: Tree<N>, n: N): (z: (Context<N>, Tree<N>))
    requires n in Nodes(t)
    ensures Plug(z.0, z.1) == Plug(c, t)
    ensures z.1.Branch? && z.1.node == n
    decreases t
  {
    if n == t.node then (c, t)
    else if n in Nodes(t.left) then LocateIn(InLeft(t.node, t.diff, t.right, c), t.left, n)
    else LocateIn(InRight(t.left, t.node, t.diff, c), t.right, n)
  }

  // ---------- The Fibonacci bound ----------

  function Fib(n: nat): nat {
    if n < 2 then n else Fib(n - 2) + Fib(n - 1)
  }

  /** A balanced tree of height h holds at least Fib(h + 2) - 1 nodes. */
  lemma {:induction false} FibonacciBound<N>(t: Tree<N>)
    requires Avl(t)
    ensures |Inorder(t)| >= Fib(Height(t) + 2) - 1
  {
    match t
    case Leaf =>
    case Branch(l, _, _, r) =>
      FibonacciBound(l);
      FibonacciBound(r);
      var h := Height(t);
      FibMonotone(h, Height(l) + 2);
      FibMonotone(h, Height(r) + 2);
  }

  lemma {:induction false} FibMonotone(m: nat, n: nat)
    requires m <= n
    ensures Fib(m) <= Fib(n)
    decreases n
  {
    if m < n {
      FibMonotone(m, n - 1);
    }
  }

  /** Fib(h + 2) grows at least like 2^(h/2), so the height is logarithmic in the size. */
  lemma {:induction false} FibExponential(h: nat)
    ensures Fib(h + 2) >= Pow2(h / 2)
  {
    if h >= 2 {
      FibExponential(h - 2);
      FibMonotone(h, h + 1);
    }
  }

  lemma LogarithmicHeight<N>(t: Tree<N>)
    requires Avl(t)
    ensures Pow2(Height(t) / 2) <= |Inorder(t)| + 1
  {
    FibonacciBound(t);
    FibExponential(Height(t));
  }
}
