/** The binary search tree of assets/TREE_CODE/main.c, built in place, and its edge printer. */
module SearchTree {

  datatype Tree = Leaf | Branch(left: Tree, value: int, right: Tree)

  function Keys(t: Tree): set<int> {
    match t
    case Leaf => {}
    case Branch(l, v, r) => Keys(l) + {v} + Keys(r)
  }

  /** Strict search order. */
  ghost predicate Ordered(t: Tree) {
    match t
    case Leaf => true
    case Branch(l, v, r) =>
      Ordered(l) && Ordered(r) && (forall k :: k in Keys(l) ==> k < v) && (forall k :: k in Keys(r) ==> v < k)
  }

  function Insert(t: Tree, x: int): Tree {
    match t
    case Leaf => Branch(Leaf, x, Leaf)
    case Branch(l, v, r) =>
      if x < v then Branch(Insert(l, x), v, r)
      else if x > v then Branch(l, v, Insert(r, x))
      else t
  }

  /** `AddNode` keeps the order and adds exactly the given value. */
  lemma {:induction false} InsertKeeps(t: Tree, x: int)
    requires Ordered(t)
    ensures Ordered(Insert(t, x)) && Keys(Insert(t, x)) == Keys(t) + {x}
  {
    if t.Branch? {
      InsertKeeps(t.left, x);
      InsertKeeps(t.right, x);
    }
  }

  function InsertAll(t: Tree, xs: seq<int>): Tree
    decreases |xs|
  {
    if xs == [] then t else InsertAll(Insert(t, xs[0]), xs[1..])
  }

  function PreOrder(t: Tree): seq<int> {
    match t
    case Leaf => []
    case Branch(l, v, r) => [v] + PreOrder(l) + PreOrder(r)
  }

  function Size(t: Tree): nat {
    match t
    case Leaf => 0
    case Branch(l, _, r) => Size(l) + 1 + Size(r)
  }

  lemma {:induction false} InsertAllConcat(t: Tree, xs: seq<int>, ys: seq<int>)
    ensures InsertAll(t, xs + ys) == InsertAll(InsertAll(t, xs), ys)
    decreases |xs|
  {
    if xs == [] {
      assert xs + ys == ys;
    } else {
      assert (xs + ys)[1..] == xs[1..] + ys;
      InsertAllConcat(Insert(t, xs[0]), xs[1..], ys);
    }
  }

  lemma {:induction false} InsertAllLeft(l: Tree, v: int, r: Tree, xs: seq<int>)
    requires forall i :: 0 <= i < |xs| ==> xs[i] < v
    ensures InsertAll(Branch(l, v, r), xs) == Branch(InsertAll(l, xs), v, r)
    decreases |xs|
  {
    if xs != [] {
      InsertAllLeft(Insert(l, xs[0]), v, r, xs[1..]);
    }
  }

  lemma {:induction false} InsertAllRight(l: Tree, v: int, r: Tree, xs: seq<int>)
    requires forall i :: 0 <= i < |xs| ==> xs[i] > v
    ensures InsertAll(Branch(l, v, r), xs) == Branch(l, v, InsertAll(r, xs))
    decreases |xs|
  {
    if xs != [] {
      InsertAllRight(l, v, Insert(r, xs[0]), xs[1..]);
    }
  }

  lemma {:induction false} PreOrderKeys(t: Tree)
    ensures forall i :: 0 <= i < |PreOrder(t)| ==> PreOrder(t)[i] in Keys(t)
    ensures |PreOrder(t)| == Size(t)
  {
    if t.Branch? {
      PreOrderKeys(t.left);
      PreOrderKeys(t.right);
    }
  }

  /** Adding the values in the order in which the traversal visits them rebuilds the same tree. */
  lemma {:induction false} PreOrderRebuilds(t: Tree)
    requires Ordered(t)
    ensures InsertAll(Leaf, PreOrder(t)) == t
  {
    match t
    case Leaf =>
    case Branch(l, v, r) =>
      PreOrderRebuilds(l);
      PreOrderRebuilds(r);
      PreOrderKeys(l);
      PreOrderKeys(r);
      var root := Branch(Leaf, v, Leaf);
      InsertAllConcat(Leaf, [v] + PreOrder(l), PreOrder(r));
      InsertAllConcat(Leaf, [v], PreOrder(l));
      assert [v][1..] == [];
      assert InsertAll(Leaf, [v]) == root;
      InsertAllLeft(Leaf, v, Leaf, PreOrder(l));
      InsertAllRight(l, v, Leaf, PreOrder(r));
  }

  // ----- The order of the traversal -----

  ghost predicate Precedes(xs: seq<int>, x: int, y: int) {
    exists i, j :: 0 <= i < j < |xs| && xs[i] == x && xs[j] == y
  }

  predicate Subtree(u: Tree, t: Tree) {
    u == t || (t.Branch? && (Subtree(u, t.left) || Subtree(u, t.right)))
  }

  lemma {:induction false} KeyAt(t: Tree, x: int) returns (i: nat)
    requires x in Keys(t)
    ensures i < |PreOrder(t)| && PreOrder(t)[i] == x
  {
    var l, v, r := PreOrder(t.left), t.value, PreOrder(t.right);
    assert PreOrder(t) == [v] + l + r;
    if x == v {
      i := 0;
    } else if x in Keys(t.left) {
      var k := KeyAt(t.left, x);
      i := 1 + k;
    } else {
      var k := KeyAt(t.right, x);
      i := 1 + |l| + k;
    }
  }

  lemma PrecedesWithin(a: seq<int>, xs: seq<int>, b: seq<int>, x: int, y: int)
    requires Precedes(xs, x, y)
    ensures Precedes(a + xs + b, x, y)
  {
    var i, j :| 0 <= i < j < |xs| && xs[i] == x && xs[j] == y;
    var all := a + xs + b;
    assert all[|a| + i] == x && all[|a| + j] == y;
  }

  lemma {:induction false} SubtreeOrder(t: Tree, u: Tree, x: int, y: int)
    requires Subtree(u, t) && Precedes(PreOrder(u), x, y)
    ensures Precedes(PreOrder(t), x, y)
  {
    if u != t {
      var l, v, r := PreOrder(t.left), t.value, PreOrder(t.right);
      if Subtree(u, t.left) {
        SubtreeOrder(t.left, u, x, y);
        PrecedesWithin([v], l, r, x, y);
      } else {
        SubtreeOrder(t.right, u, x, y);
        PrecedesWithin([v] + l, r, [], x, y);
        assert [v] + l + r + [] == [v] + l + r;
      }
    }
  }

  /** A node is visited before what is below it, and what is below it on the left before what is
      below it on the right. */
  lemma TraversalOrder(t: Tree, u: Tree, x: int, y: int)
    requires Subtree(u, t) && u.Branch?
    ensures x in Keys(u.left) || x in Keys(u.right) ==> Precedes(PreOrder(t), u.value, x)
    ensures x in Keys(u.left) && y in Keys(u.right) ==> Precedes(PreOrder(t), x, y)
  {
    var l, v, r := PreOrder(u.left), u.value, PreOrder(u.right);
    var all := PreOrder(u);
    assert all == [v] + l + r && all[0] == v;
    if x in Keys(u.left) {
      var i := KeyAt(u.left, x);
      assert all[1 + i] == x;
      SubtreeOrder(t, u, v, x);
      if y in Keys(u.right) {
        var j := KeyAt(u.right, y);
        assert all[1 + |l| + j] == y;
        SubtreeOrder(t, u, x, y);
      }
    } else if x in Keys(u.right) {
      var i := KeyAt(u.right, x);
      assert all[1 + |l| + i] == x;
      SubtreeOrder(t, u, v, x);
    }
  }

  // ----- The printed edges -----

  datatype Edge = Edge(parent: int, child: int)

  /** What `PreOrderTraverse` prints: an edge to each node whose value differs from its parent's. */
  function Edges(t: Tree, parent: int): seq<Edge> {
    match t
    case Leaf => []
    case Branch(l, v, r) => (if v != parent then [Edge(parent, v)] else []) + Edges(l, v) + Edges(r, v)
  }

  function Children(es: seq<Edge>): seq<int> {
    if es == [] then [] else [es[0].child] + Children(es[1..])
  }

  lemma {:induction false} ChildrenConcat(a: seq<Edge>, b: seq<Edge>)
    ensures Children(a + b) == Children(a) + Children(b)
  {
    if a == [] {
      assert a + b == b;
    } else {
      assert (a + b)[1..] == a[1..] + b;
      ChildrenConcat(a[1..], b);
    }
  }

  lemma {:induction false} EdgesBelow(t: Tree, parent: int)
    requires Ordered(t) && parent !in Keys(t)
    ensures Children(Edges(t, parent)) == PreOrder(t) && |Edges(t, parent)| == Size(t)
  {
    match t
    case Leaf =>
    case Branch(l, v, r) =>
      EdgesBelow(l, v);
      EdgesBelow(r, v);
      ChildrenConcat([Edge(parent, v)] + Edges(l, v), Edges(r, v));
      ChildrenConcat([Edge(parent, v)], Edges(l, v));
      assert [Edge(parent, v)][1..] == [];
      assert Children([Edge(parent, v)]) == [v];
  }

  /** Some node of t has value p and a direct child with value c. */
  predicate IsChild(t: Tree, p: int, c: int) {
    match t
    case Leaf => false
    case Branch(l, v, r) =>
      || (p == v && ((l.Branch? && l.value == c) || (r.Branch? && r.value == c)))
      || IsChild(l, p, c)
      || IsChild(r, p, c)
  }

  lemma {:induction false} EdgesAre(t: Tree, parent: int, e: Edge)
    requires Ordered(t) && parent !in Keys(t)
    ensures e in Edges(t, parent) <==> (t.Branch? && e == Edge(parent, t.value)) || IsChild(t, e.parent, e.child)
  {
    match t
    case Leaf =>
    case Branch(l, v, r) =>
      EdgesAre(l, v, e);
      EdgesAre(r, v, e);
  }

  lemma RootPrintsNothing(t: Tree)
    requires t.Branch?
    ensures Edges(t, t.value) == Edges(t.left, t.value) + Edges(t.right, t.value)
  {
    assert [] + Edges(t.left, t.value) == Edges(t.left, t.value);
  }

  lemma Prepend(v: int, a: seq<int>, b: seq<int>)
    ensures [v] + (a + b) == [v] + a + b
  {
  }

  /** Started at the root with the root's own value, the guard suppresses the root and nothing else:
      a tree of m nodes prints m - 1 edges, and their children are the other nodes in preorder. */
  lemma EdgesFromRoot(t: Tree)
    requires Ordered(t) && t.Branch?
    ensures |Edges(t, t.value)| == Size(t) - 1
    ensures [t.value] + Children(Edges(t, t.value)) == PreOrder(t)
  {
    RootPrintsNothing(t);
    EdgesBelow(t.left, t.value);
    EdgesBelow(t.right, t.value);
    ChildrenConcat(Edges(t.left, t.value), Edges(t.right, t.value));
    Prepend(t.value, PreOrder(t.left), PreOrder(t.right));
  }

  /** Exactly the edges from a node to its children are printed. */
  lemma EdgesAreChildren(t: Tree, p: int, c: int)
    requires Ordered(t) && t.Branch?
    ensures Edge(p, c) in Edges(t, t.value) <==> IsChild(t, p, c)
  {
    RootPrintsNothing(t);
    EdgesAre(t.left, t.value, Edge(p, c));
    EdgesAre(t.right, t.value, Edge(p, c));
  }

  /** The printed edges and the root's value determine the tree. */
  lemma EdgesDetermineTree(t: Tree, u: Tree)
    requires Ordered(t) && Ordered(u) && t.Branch? && u.Branch?
    requires t.value == u.value && Edges(t, t.value) == Edges(u, u.value)
    ensures t == u
  {
    EdgesFromRoot(t);
    EdgesFromRoot(u);
    PreOrderRebuilds(t);
    PreOrderRebuilds(u);
  }

  // ----- On the heap -----

  class Node {
    var value: int
    var left: Node?
    var right: Node?
    ghost var Repr: set<Node>

    /** The two subtrees are disjoint, and neither contains this node: no cycle, no sharing. */
    ghost predicate Valid()
      reads this, Repr
      ensures Valid() ==> this in Repr
      decreases Repr
    {
      && this in Repr
      && (left != null ==> left in Repr && left.Repr < Repr && this !in left.Repr && left.Valid())
      && (right != null ==> right in Repr && right.Repr < Repr && this !in right.Repr && right.Valid())
      && (left != null && right != null ==> left.Repr !! right.Repr)
    }

    ghost function Shape(): (t: Tree)
      requires Valid()
      reads this, Repr
      ensures t.Branch? && t.value == value
      decreases Repr
    {
      Branch(if left == null then Leaf else left.Shape(), value, if right == null then Leaf else right.Shape())
    }

    constructor (v: int)
      ensures Valid() && Repr == {this} && Shape() == Branch(Leaf, v, Leaf)
    {
      value, left, right := v, null, null;
      Repr := {this};
    }
  }

  ghost function ShapeOf(n: Node?): Tree
    requires n != null ==> n.Valid()
    reads n, if n == null then {} else n.Repr
  {
    if n == null then Leaf else n.Shape()
  }

  /** `now` is `was` with at most one node more. */
  ghost predicate OneMore(was: set<Node>, now: set<Node>) {
    was <= now && |now - was| <= 1
  }

  /** What a subtree gains is what the whole gains. */
  lemma GainCarries(whole: set<Node>, part: set<Node>, part': set<Node>)
    requires part <= whole && OneMore(part, part') && part' - part !! whole
    ensures OneMore(whole, whole + part')
  {
    assert (whole + part') - whole == part' - part;
  }

  lemma OneNode(n: Node)
    ensures OneMore({}, {n})
  {
    assert {n} - {} == {n};
  }

  lemma NoGain(whole: set<Node>)
    ensures OneMore(whole, whole)
  {
    assert whole - whole == {};
  }

  /** A tree may hang below `node` when it is valid, does not contain `node`, and meets neither the
      other side nor anything outside. */
  ghost predicate Side(node: Node, n: Node?)
    reads node, n, if n == null then {} else n.Repr
  {
    node in node.Repr && (n != null ==> n.Valid() && node !in n.Repr)
  }

  method SetLeft(node: Node, l: Node, ghost part: set<Node>)
    requires Side(node, l) && Side(node, node.right)
    requires part <= node.Repr && OneMore(part, l.Repr) && l.Repr - part !! node.Repr
    requires node.right != null ==> node.right.Repr <= node.Repr && node.right.Repr !! l.Repr
    modifies node`left, node`Repr
    ensures node.left == l && node.Valid() && node.Repr == old(node.Repr) + l.Repr
    ensures OneMore(old(node.Repr), node.Repr)
    ensures node.Shape() == Branch(l.Shape(), node.value, ShapeOf(node.right))
    ensures l.Shape() == old(l.Shape()) && ShapeOf(node.right) == old(ShapeOf(node.right))
  {
    GainCarries(node.Repr, part, l.Repr);
    node.left := l;
    node.Repr := node.Repr + l.Repr;
  }

  method SetRight(node: Node, r: Node, ghost part: set<Node>)
    requires Side(node, r) && Side(node, node.left)
    requires part <= node.Repr && OneMore(part, r.Repr) && r.Repr - part !! node.Repr
    requires node.left != null ==> node.left.Repr <= node.Repr && node.left.Repr !! r.Repr
    modifies node`right, node`Repr
    ensures node.right == r && node.Valid() && node.Repr == old(node.Repr) + r.Repr
    ensures OneMore(old(node.Repr), node.Repr)
    ensures node.Shape() == Branch(ShapeOf(node.left), node.value, r.Shape())
    ensures r.Shape() == old(r.Shape()) && ShapeOf(node.left) == old(ShapeOf(node.left))
  {
    GainCarries(node.Repr, part, r.Repr);
    node.right := r;
    node.Repr := node.Repr + r.Repr;
  }

  /** `AddNode`: in place; nodes stay where they are, and at most one, fresh, is added. */
  method AddNode(node: Node?, value: int) returns (r: Node)
    requires node != null ==> node.Valid()
    modifies if node == null then {} else node.Repr
    ensures r.Valid() && r.Shape() == Insert(old(ShapeOf(node)), value)
    ensures node != null ==> r == node
    ensures fresh(r.Repr - if node == null then {} else old(node.Repr))
    ensures OneMore(if node == null then {} else old(node.Repr), r.Repr)
    decreases if node == null then {} else node.Repr, 1
  {
    if node == null {
      r := new Node(value);
      OneNode(r);
      return;
    }
    NoGain(node.Repr);
    if value < node.value {
      AddLeft(node, value);
    } else if value > node.value {
      AddRight(node, value);
    }
    r := node;
  }

  /** The branch of `AddNode` for a smaller value. */
  method AddLeft(node: Node, value: int)
    requires node.Valid() && value < node.value
    modifies node.Repr
    ensures node.Valid() && node.Shape() == Insert(old(node.Shape()), value)
    ensures fresh(node.Repr - old(node.Repr)) && OneMore(old(node.Repr), node.Repr)
    decreases node.Repr, 0
  {
    ghost var part := if node.left == null then {} else node.left.Repr;
    ghost var other := ShapeOf(node.right);
    var l := AddNode(node.left, value);
    assert ShapeOf(node.right) == other;
    SetLeft(node, l, part);
  }

  /** The branch for a greater one. */
  method AddRight(node: Node, value: int)
    requires node.Valid() && value > node.value
    modifies node.Repr
    ensures node.Valid() && node.Shape() == Insert(old(node.Shape()), value)
    ensures fresh(node.Repr - old(node.Repr)) && OneMore(old(node.Repr), node.Repr)
    decreases node.Repr, 0
  {
    ghost var part := if node.right == null then {} else node.right.Repr;
    ghost var other := ShapeOf(node.left);
    var rt := AddNode(node.right, value);
    assert ShapeOf(node.left) == other;
    SetRight(node, rt, part);
  }

  /** `PreOrderTraverse`, as the list of edges it prints. */
  method PreOrderTraverse(tree: Node, parentValue: int) returns (es: seq<Edge>)
    requires tree.Valid()
    ensures es == Edges(tree.Shape(), parentValue)
    decreases tree.Repr
  {
    es := [];
    if tree.value != parentValue {
      es := [Edge(parentValue, tree.value)];
    }
    if tree.left != null {
      var below := PreOrderTraverse(tree.left, tree.value);
      es := es + below;
    }
    if tree.right != null {
      var below := PreOrderTraverse(tree.right, tree.value);
      es := es + below;
    }
  }

  lemma InsertAllSnoc(t: Tree, xs: seq<int>, i: nat)
    requires i < |xs|
    ensures InsertAll(t, xs[..i + 1]) == Insert(InsertAll(t, xs[..i]), xs[i])
  {
    InsertAllConcat(t, xs[..i], [xs[i]]);
    assert xs[..i + 1] == xs[..i] + [xs[i]];
    assert [xs[i]][1..] == [];
  }

  /** The loop of `main`: values are added one by one to a root. */
  method AddAll(root: Node, values: seq<int>)
    requires root.Valid() && Ordered(root.Shape())
    modifies root.Repr
    ensures root.Valid() && Ordered(root.Shape()) && root.Shape() == InsertAll(old(root.Shape()), values)
    ensures fresh(root.Repr - old(root.Repr))
  {
    ghost var t := root.Shape();
    for i := 0 to |values|
      invariant root.Valid() && fresh(root.Repr - old(root.Repr))
      invariant Ordered(root.Shape()) && root.Shape() == InsertAll(t, values[..i])
    {
      InsertAllSnoc(t, values, i);
      InsertKeeps(root.Shape(), values[i]);
      var r := AddNode(root, values[i]);
    }
    assert values[..|values|] == values;
  }
}

