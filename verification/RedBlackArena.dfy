/** The node arena of `RbTree`: nodes in a vector, linked to each other by index, and what it
    means for the arena to hold a given tree. */
module RedBlackArena {
  import opened RedBlackShapes

  /** `usize::MAX`, the index that stands for "no node". */
  const NIL: nat := 0xFFFF_FFFF_FFFF_FFFF

  datatype Node<+V> = Node(entry: Entry<V>, left: nat, right: nat, parent: nat, color: Color)

  function Idx<V>(t: Tree<V>): nat {
    if t.Nil? then NIL else t.at
  }

  function PathIdx<V>(p: Path<V>): nat {
    if p.Top? then NIL else p.at
  }

  /** The arena holds the tree `t`, whose root has the given parent index. */
  ghost predicate Rep<V>(nodes: seq<Node<V>>, t: Tree<V>, parent: nat) {
    t.Branch? ==>
      t.at < |nodes| &&
      nodes[t.at] == Node(t.entry, Idx(t.left), Idx(t.right), parent, t.color) &&
      Rep(nodes, t.left, t.at) && Rep(nodes, t.right, t.at)
  }

  /** The arena holds the path `p`, with the index `hole` stored where the subtree hangs. */
  ghost predicate RepPath<V>(nodes: seq<Node<V>>, root: nat, p: Path<V>, hole: nat)
    decreases p
  {
    match p
    case Top => root == hole
    case Left(up, at, c, e, s) =>
      at < |nodes| && nodes[at] == Node(e, hole, Idx(s), PathIdx(up), c) &&
      Rep(nodes, s, at) && RepPath(nodes, root, up, at)
    case Right(up, at, c, e, s) =>
      at < |nodes| && nodes[at] == Node(e, Idx(s), hole, PathIdx(up), c) &&
      Rep(nodes, s, at) && RepPath(nodes, root, up, at)
  }

  /** The arena holds the subtree `t` below the path `p`, without sharing any node. */
  ghost predicate Zip<V>(nodes: seq<Node<V>>, root: nat, p: Path<V>, t: Tree<V>) {
    |nodes| <= NIL &&
    Rep(nodes, t, PathIdx(p)) && RepPath(nodes, root, p, Idx(t)) &&
    Distinct(t) && DistinctPath(p, At(t))
  }

  // ---------- framing ----------

  lemma {:induction false} RepBounds<V>(nodes: seq<Node<V>>, t: Tree<V>, parent: nat)
    requires Rep(nodes, t, parent)
    ensures forall i :: i in At(t) ==> i < |nodes|
  {
    if t.Branch? {
      RepBounds(nodes, t.left, t.at);
      RepBounds(nodes, t.right, t.at);
    }
  }

  lemma {:induction false} RepFrame<V>(nodes: seq<Node<V>>, nodes': seq<Node<V>>, t: Tree<V>, parent: nat)
    requires Rep(nodes, t, parent) && |nodes| <= |nodes'|
    requires forall i :: i in At(t) && i < |nodes| ==> nodes'[i] == nodes[i]
    ensures Rep(nodes', t, parent)
  {
    if t.Branch? {
      RepFrame(nodes, nodes', t.left, t.at);
      RepFrame(nodes, nodes', t.right, t.at);
    }
  }

  /** Only the root of `t` changes, and only in its parent index. */
  lemma RepReparent<V>(nodes: seq<Node<V>>, nodes': seq<Node<V>>, t: Tree<V>, parent: nat, parent': nat)
    requires Rep(nodes, t, parent) && Distinct(t) && |nodes| <= |nodes'|
    requires forall i :: i in At(t) && i < |nodes| ==>
      nodes'[i] == if i == Idx(t) then nodes[i].(parent := parent') else nodes[i]
    ensures Rep(nodes', t, parent')
  {
    if t.Branch? {
      RepFrame(nodes, nodes', t.left, t.at);
      RepFrame(nodes, nodes', t.right, t.at);
    }
  }

  lemma {:induction false} PathFrame<V>(
    nodes: seq<Node<V>>, nodes': seq<Node<V>>, root: nat, p: Path<V>, hole: nat, below: set<nat>)
    requires RepPath(nodes, root, p, hole) && DistinctPath(p, below) && |nodes| <= |nodes'|
    requires forall i :: 0 <= i < |nodes| && i !in below ==> nodes'[i] == nodes[i]
    ensures RepPath(nodes', root, p, hole)
    decreases p
  {
    if !p.Top? {
      RepFrame(nodes, nodes', p.sibling, p.at);
      PathFrame(nodes, nodes', root, p.up, p.at, below + {p.at} + At(p.sibling));
    }
  }

  /** The node record at the bottom of a path whose hole now holds another index. */
  function Relinked<V>(n: Node<V>, p: Path<V>, hole: nat): Node<V> {
    if p.Left? then n.(left := hole) else n.(right := hole)
  }

  lemma {:induction false} PathRelink<V>(nodes: seq<Node<V>>, nodes': seq<Node<V>>, root: nat, root': nat,
    p: Path<V>, hole: nat, hole': nat, below: set<nat>)
    requires RepPath(nodes, root, p, hole) && DistinctPath(p, below) && |nodes| <= |nodes'|
    requires forall i :: 0 <= i < |nodes| && i !in below && i != PathIdx(p) ==> nodes'[i] == nodes[i]
    requires if p.Top? then root' == hole' else root' == root && nodes'[p.at] == Relinked(nodes[p.at], p, hole')
    ensures RepPath(nodes', root', p, hole')
  {
    if !p.Top? {
      RepFrame(nodes, nodes', p.sibling, p.at);
      PathFrame(nodes, nodes', root, p.up, p.at, below + {p.at} + At(p.sibling));
    }
  }

  // ---------- moving the focus ----------

  lemma ZipUp<V>(nodes: seq<Node<V>>, root: nat, p: Path<V>, t: Tree<V>)
    requires !p.Top?
    ensures Zip(nodes, root, p, t) <==> Zip(nodes, root, p.up, PlugOne(p, t))
  {
    assert At(PlugOne(p, t)) == At(t) + {p.at} + At(p.sibling);
  }

  lemma {:induction false} ZipTop<V>(nodes: seq<Node<V>>, root: nat, p: Path<V>, t: Tree<V>)
    ensures Zip(nodes, root, p, t) <==> Zip(nodes, root, Top, Plug(p, t))
    decreases p
  {
    if !p.Top? {
      ZipUp(nodes, root, p, t);
      ZipTop(nodes, root, p.up, PlugOne(p, t));
    }
  }

  // ---------- recolouring ----------

  function Paint<V>(nodes: seq<Node<V>>, i: nat, c: Color): seq<Node<V>>
    requires i < |nodes|
  {
    nodes[i := nodes[i].(color := c)]
  }

  lemma {:induction false} PaintZip<V>(nodes: seq<Node<V>>, root: nat, p: Path<V>, t: Tree<V>, c: Color)
    requires Zip(nodes, root, p, t) && t.Branch?
    ensures Zip(Paint(nodes, t.at, c), root, p, t.(color := c))
  {
    var nodes' := Paint(nodes, t.at, c);
    RepFrame(nodes, nodes', t.left, t.at);
    RepFrame(nodes, nodes', t.right, t.at);
    PathFrame(nodes, nodes', root, p, t.at, At(t));
    assert At(t.(color := c)) == At(t);
  }

  // ---------- linking ----------

  predicate InArena<V>(nodes: seq<Node<V>>, i: nat) {
    i == NIL || i < |nodes|
  }

  /** The node at `child` is taken out of its parent's child slot. */
  function Unhook<V>(nodes: seq<Node<V>>, child: nat): seq<Node<V>>
    requires child < |nodes| && InArena(nodes, nodes[child].parent)
  {
    var p := nodes[child].parent;
    if p == NIL then nodes
    else if nodes[p].left == child then nodes[p := nodes[p].(left := NIL)]
    else nodes[p := nodes[p].(right := NIL)]
  }

  function Orphan<V>(nodes: seq<Node<V>>, i: nat): seq<Node<V>>
    requires InArena(nodes, i)
  {
    if i == NIL then nodes else nodes[i := nodes[i].(parent := NIL)]
  }

  function LinkLeft<V>(nodes: seq<Node<V>>, parent: nat, child: nat): seq<Node<V>>
    requires parent < |nodes| && InArena(nodes, nodes[parent].left) && InArena(nodes, child)
    requires child != NIL ==> InArena(nodes, nodes[child].parent)
  {
    if child == NIL then nodes[parent := nodes[parent].(left := NIL)]
    else
      var unhooked := Unhook(nodes, child);
      var cleared := Orphan(unhooked, unhooked[parent].left);
      var linked := cleared[parent := cleared[parent].(left := child)];
      linked[child := linked[child].(parent := parent)]
  }

  function LinkRight<V>(nodes: seq<Node<V>>, parent: nat, child: nat): seq<Node<V>>
    requires parent < |nodes| && InArena(nodes, nodes[parent].right) && InArena(nodes, child)
    requires child != NIL ==> InArena(nodes, nodes[child].parent)
  {
    if child == NIL then nodes[parent := nodes[parent].(right := NIL)]
    else
      var unhooked := Unhook(nodes, child);
      var cleared := Orphan(unhooked, unhooked[parent].right);
      var linked := cleared[parent := cleared[parent].(right := child)];
      linked[child := linked[child].(parent := parent)]
  }

  // ---------- rotations ----------

  /** Where `child` hangs below `p`, `child'` hangs instead. */
  function Rehang<V>(nodes: seq<Node<V>>, p: nat, child: nat, child': nat): seq<Node<V>>
    requires InArena(nodes, p)
  {
    if p == NIL then nodes
    else if nodes[p].right == child then nodes[p := nodes[p].(right := child')]
    else nodes[p := nodes[p].(left := child')]
  }

  function Adopt<V>(nodes: seq<Node<V>>, child: nat, parent: nat): seq<Node<V>>
    requires InArena(nodes, child)
  {
    if child == NIL then nodes else nodes[child := nodes[child].(parent := parent)]
  }

  /** The links around `k` that a rotation to the right follows: `k`, its left child, that
      child's right child and the parent of `k` are different nodes that point at each other. */
  predicate CanRotateRight<V>(nodes: seq<Node<V>>, k: nat) {
    k < |nodes| <= NIL && nodes[k].left < |nodes| &&
    var x := nodes[k].left;
    var b := nodes[x].right;
    var p := nodes[k].parent;
    x != k && nodes[x].parent == k &&
    (b != NIL ==> b < |nodes| && b != k && b != x && nodes[b].parent == x) &&
    (p != NIL ==> p < |nodes| && p != k && p != x && p != b && (nodes[p].right == k <==> nodes[p].left != k))
  }

  function RotatedRight<V>(nodes: seq<Node<V>>, k: nat): seq<Node<V>>
    requires CanRotateRight(nodes, k)
  {
    var x := nodes[k].left;
    var b := nodes[x].right;
    var p := nodes[k].parent;
    var lifted := Rehang(nodes, p, k, x)[x := nodes[x].(parent := p, right := k)];
    Adopt(lifted[k := nodes[k].(left := b, parent := x)], b, k)
  }

  predicate CanRotateLeft<V>(nodes: seq<Node<V>>, k: nat) {
    k < |nodes| <= NIL && nodes[k].right < |nodes| &&
    var x := nodes[k].right;
    var b := nodes[x].left;
    var p := nodes[k].parent;
    x != k && nodes[k].left != x && nodes[x].parent == k &&
    (b != NIL ==> b < |nodes| && b != k && b != x && nodes[b].parent == x) &&
    (p != NIL ==> p < |nodes| && p != k && p != x && p != b && (nodes[p].right == k <==> nodes[p].left != k))
  }

  function RotatedLeft<V>(nodes: seq<Node<V>>, k: nat): seq<Node<V>>
    requires CanRotateLeft(nodes, k)
  {
    var x := nodes[k].right;
    var b := nodes[x].left;
    var p := nodes[k].parent;
    var lifted := Rehang(nodes, p, k, x)[x := nodes[x].(parent := p, left := k)];
    Adopt(lifted[k := nodes[k].(right := b, parent := x)], b, k)
  }

  /** The arena once the child `x` of `k` has taken the place of `k` below the parent of `k`. */
  function LiftedRight<V>(nodes: seq<Node<V>>, k: nat): seq<Node<V>>
    requires CanRotateRight(nodes, k)
  {
    var x := nodes[k].left;
    var p := nodes[k].parent;
    if p == NIL then nodes[x := nodes[x].(parent := NIL)]
    else Rehang(nodes, p, k, x)[k := nodes[k].(left := NIL, parent := NIL)][x := nodes[x].(parent := p)]
  }

  lemma LiftRightByLinks<V>(nodes: seq<Node<V>>, k: nat)
    requires CanRotateRight(nodes, k) && nodes[k].parent != NIL
    ensures
      var p := nodes[k].parent;
      LiftedRight(nodes, k) ==
        if nodes[p].right == k then LinkRight(nodes, p, nodes[k].left) else LinkLeft(nodes, p, nodes[k].left)
  {
  }

  lemma RotateRightByLinks<V>(nodes: seq<Node<V>>, k: nat)
    requires CanRotateRight(nodes, k)
    ensures
      var x := nodes[k].left;
      var lifted := LiftedRight(nodes, k);
      var linked := LinkRight(lifted, x, k);
      InArena(lifted, lifted[x].right) && InArena(linked, linked[k].left) &&
      (nodes[x].right != NIL ==> InArena(linked, linked[nodes[x].right].parent)) &&
      LinkLeft(linked, k, nodes[x].right) == RotatedRight(nodes, k)
  {
    var x := nodes[k].left;
    var b := nodes[x].right;
    var lifted := LiftedRight(nodes, k);
    assert lifted[k].parent == NIL && lifted[x].right == b;
    var linked := LinkRight(lifted, x, k);
    assert linked == Orphan(lifted, b)[x := lifted[x].(right := k)][k := lifted[k].(parent := x)];
  }

  /** The arena once the child `x` of `k` has taken the place of `k` below the parent of `k`. */
  function LiftedLeft<V>(nodes: seq<Node<V>>, k: nat): seq<Node<V>>
    requires CanRotateLeft(nodes, k)
  {
    var x := nodes[k].right;
    var p := nodes[k].parent;
    if p == NIL then nodes[x := nodes[x].(parent := NIL)]
    else Rehang(nodes, p, k, x)[k := nodes[k].(right := NIL, parent := NIL)][x := nodes[x].(parent := p)]
  }

  lemma LiftLeftByLinks<V>(nodes: seq<Node<V>>, k: nat)
    requires CanRotateLeft(nodes, k) && nodes[k].parent != NIL
    ensures
      var p := nodes[k].parent;
      LiftedLeft(nodes, k) ==
        if nodes[p].right == k then LinkRight(nodes, p, nodes[k].right) else LinkLeft(nodes, p, nodes[k].right)
  {
  }

  lemma RotateLeftByLinks<V>(nodes: seq<Node<V>>, k: nat)
    requires CanRotateLeft(nodes, k)
    ensures
      var x := nodes[k].right;
      var lifted := LiftedLeft(nodes, k);
      var linked := LinkLeft(lifted, x, k);
      InArena(lifted, lifted[x].left) && InArena(linked, linked[k].right) &&
      (nodes[x].left != NIL ==> InArena(linked, linked[nodes[x].left].parent)) &&
      LinkRight(linked, k, nodes[x].left) == RotatedLeft(nodes, k)
  {
    var x := nodes[k].right;
    var b := nodes[x].left;
    var lifted := LiftedLeft(nodes, k);
    assert lifted[k].parent == NIL && lifted[x].left == b;
    var linked := LinkLeft(lifted, x, k);
    assert linked == Orphan(lifted, b)[x := lifted[x].(left := k)][k := lifted[k].(parent := x)];
  }

  function RotateRight<V>(t: Tree<V>): Tree<V>
    requires t.Branch? && t.left.Branch?
  {
    t.left.(right := t.(left := t.left.right))
  }

  function RotateLeft<V>(t: Tree<V>): Tree<V>
    requires t.Branch? && t.right.Branch?
  {
    t.right.(left := t.(right := t.right.left))
  }

  lemma PathBounds<V>(nodes: seq<Node<V>>, root: nat, p: Path<V>, t: Tree<V>)
    requires Zip(nodes, root, p, t)
    ensures PathIdx(p) !in At(t)
  {
    RepBounds(nodes, t, PathIdx(p));
  }

  lemma RotateRightLinks<V>(nodes: seq<Node<V>>, root: nat, p: Path<V>, t: Tree<V>)
    requires Zip(nodes, root, p, t) && t.Branch? && t.left.Branch?
    ensures CanRotateRight(nodes, t.at)
    ensures nodes[t.at].left == t.left.at && nodes[t.left.at].right == Idx(t.left.right) &&
      nodes[t.at].parent == PathIdx(p)
  {
    var x, b := t.left, t.left.right;
    assert Rep(nodes, x, t.at) && Rep(nodes, b, x.at);
    assert b.Branch? ==> b.at in At(b);
    assert Distinct(x) && At(x) == At(x.left) + {x.at} + At(x.right);
  }

  lemma RotateRightInside<V>(nodes: seq<Node<V>>, nodes': seq<Node<V>>, p: Path<V>, t: Tree<V>)
    requires t.Branch? && t.left.Branch? && Rep(nodes, t, PathIdx(p)) && Distinct(t) && PathIdx(p) !in At(t)
    requires CanRotateRight(nodes, t.at) && nodes' == RotatedRight(nodes, t.at)
    ensures Rep(nodes', RotateRight(t), PathIdx(p)) && Distinct(RotateRight(t))
  {
    var x, b := t.left, t.left.right;
    assert Rep(nodes, x, t.at) && Rep(nodes, b, x.at);
    assert b.Branch? ==> b.at in At(b);
    assert Distinct(x) && At(x) == At(x.left) + {x.at} + At(x.right);
    RepFrame(nodes, nodes', x.left, x.at);
    RepFrame(nodes, nodes', t.right, t.at);
    RepReparent(nodes, nodes', b, x.at, t.at);
  }

  /** Rotating the arena at `t` rotates the tree it holds, and nothing else. */
  lemma {:induction false} RotateRightZip<V>(nodes: seq<Node<V>>, root: nat, p: Path<V>, t: Tree<V>)
    requires Zip(nodes, root, p, t) && t.Branch? && t.left.Branch?
    ensures CanRotateRight(nodes, t.at)
    ensures Zip(RotatedRight(nodes, t.at), if p.Top? then t.left.at else root, p, RotateRight(t))
    ensures InOrder(RotateRight(t)) == InOrder(t) && At(RotateRight(t)) == At(t)
  {
    RotateRightLinks(nodes, root, p, t);
    var nodes' := RotatedRight(nodes, t.at);
    PathBounds(nodes, root, p, t);
    RotateRightInside(nodes, nodes', p, t);
    RotateRightContent(t);
    PathRelink(nodes, nodes', root, if p.Top? then t.left.at else root, p, t.at, t.left.at, At(t));
  }

  lemma BranchContents<V>(t: Tree<V>, l: Tree<V>, r: Tree<V>)
    requires t.Branch? && t.left == l && t.right == r
    ensures InOrder(t) == InOrder(l) + [t.entry] + InOrder(r)
    ensures At(t) == At(l) + {t.at} + At(r)
  {
  }

  lemma {:induction false} RotateRightContent<V>(t: Tree<V>)
    requires t.Branch? && t.left.Branch?
    ensures InOrder(RotateRight(t)) == InOrder(t) && At(RotateRight(t)) == At(t)
    ensures t.at in At(t) && t.left.at in At(t) && At(t.left.right) <= At(t)
  {
    hide InOrder, At;
    var a, b, c := t.left.left, t.left.right, t.right;
    BranchContents(t.left, a, b);
    BranchContents(t, t.left, c);
    BranchContents(t.(left := b), b, c);
    BranchContents(RotateRight(t), a, t.(left := b));
    assert InOrder(RotateRight(t)) == InOrder(t);
  }

  lemma {:induction false} RotateLeftLinks<V>(nodes: seq<Node<V>>, root: nat, p: Path<V>, t: Tree<V>)
    requires Zip(nodes, root, p, t) && t.Branch? && t.right.Branch?
    ensures CanRotateLeft(nodes, t.at)
    ensures nodes[t.at].right == t.right.at && nodes[t.right.at].left == Idx(t.right.left) &&
      nodes[t.at].parent == PathIdx(p)
  {
    var x, b := t.right, t.right.left;
    assert Rep(nodes, x, t.at) && Rep(nodes, b, x.at);
    assert b.Branch? ==> b.at in At(b);
    assert t.left.Branch? ==> t.left.at in At(t.left);
    assert Distinct(x) && At(x) == At(x.left) + {x.at} + At(x.right);
  }

  lemma RotateLeftInside<V>(nodes: seq<Node<V>>, nodes': seq<Node<V>>, p: Path<V>, t: Tree<V>)
    requires t.Branch? && t.right.Branch? && Rep(nodes, t, PathIdx(p)) && Distinct(t) && PathIdx(p) !in At(t)
    requires CanRotateLeft(nodes, t.at) && nodes' == RotatedLeft(nodes, t.at)
    ensures Rep(nodes', RotateLeft(t), PathIdx(p)) && Distinct(RotateLeft(t))
  {
    var x, b := t.right, t.right.left;
    assert Rep(nodes, x, t.at) && Rep(nodes, b, x.at);
    assert b.Branch? ==> b.at in At(b);
    assert Distinct(x) && At(x) == At(x.left) + {x.at} + At(x.right);
    RepFrame(nodes, nodes', x.right, x.at);
    RepFrame(nodes, nodes', t.left, t.at);
    RepReparent(nodes, nodes', b, x.at, t.at);
  }

  /** Rotating the arena at `t` rotates the tree it holds, and nothing else. */
  lemma {:induction false} RotateLeftZip<V>(nodes: seq<Node<V>>, root: nat, p: Path<V>, t: Tree<V>)
    requires Zip(nodes, root, p, t) && t.Branch? && t.right.Branch?
    ensures CanRotateLeft(nodes, t.at)
    ensures Zip(RotatedLeft(nodes, t.at), if p.Top? then t.right.at else root, p, RotateLeft(t))
    ensures InOrder(RotateLeft(t)) == InOrder(t) && At(RotateLeft(t)) == At(t)
  {
    RotateLeftLinks(nodes, root, p, t);
    var nodes' := RotatedLeft(nodes, t.at);
    PathBounds(nodes, root, p, t);
    RotateLeftInside(nodes, nodes', p, t);
    RotateLeftContent(t);
    PathRelink(nodes, nodes', root, if p.Top? then t.right.at else root, p, t.at, t.right.at, At(t));
  }

  lemma {:induction false} RotateLeftContent<V>(t: Tree<V>)
    requires t.Branch? && t.right.Branch?
    ensures InOrder(RotateLeft(t)) == InOrder(t) && At(RotateLeft(t)) == At(t)
    ensures t.at in At(t) && t.right.at in At(t) && At(t.right.left) <= At(t)
  {
    hide InOrder, At;
    var a, b, c := t.right.right, t.right.left, t.left;
    BranchContents(t.right, b, a);
    BranchContents(t, c, t.right);
    BranchContents(t.(right := b), c, b);
    BranchContents(RotateLeft(t), t.(right := b), a);
    assert InOrder(RotateLeft(t)) == InOrder(t);
  }

  // ---------- a new leaf ----------

  lemma {:induction false} AttachLeaf<V>(nodes: seq<Node<V>>, root: nat, p: Path<V>, e: Entry<V>, c: Color)
    requires Zip(nodes, root, p, Nil) && |nodes| < NIL && |nodes| !in PathAt(p)
    ensures
      var added := nodes + [Node(e, NIL, NIL, PathIdx(p), c)];
      var linked := if p.Top? then added else added[p.at := Relinked(added[p.at], p, |nodes|)];
      Zip(linked, if p.Top? then |nodes| else root, p, Branch(Nil, |nodes|, c, e, Nil))
  {
    var added := nodes + [Node(e, NIL, NIL, PathIdx(p), c)];
    var linked := if p.Top? then added else added[p.at := Relinked(added[p.at], p, |nodes|)];
    PathRelink(nodes, linked, root, if p.Top? then |nodes| else root, p, NIL, |nodes|, {});
    FreshIndex(p, |nodes|, {});
    assert {} + {|nodes|} == {|nodes|} == At(Branch(Nil, |nodes|, c, e, Nil));
  }

  lemma {:induction false} FreshIndex<V>(p: Path<V>, i: nat, below: set<nat>)
    requires DistinctPath(p, below) && i !in PathAt(p)
    ensures DistinctPath(p, below + {i})
    decreases p
  {
    if !p.Top? {
      FreshIndex(p.up, i, below + {p.at} + At(p.sibling));
      assert below + {p.at} + At(p.sibling) + {i} == below + {i} + {p.at} + At(p.sibling);
    }
  }

  // ---------- what the links look like from the arena's side ----------

  /** The links of node `i` and those of its neighbours are inverse to each other. */
  ghost predicate LinkedAt<V>(nodes: seq<Node<V>>, root: nat, i: nat)
    requires i < |nodes|
  {
    var n := nodes[i];
    (n.left != NIL ==> n.left < |nodes| && nodes[n.left].parent == i && n.left != n.right) &&
    (n.right != NIL ==> n.right < |nodes| && nodes[n.right].parent == i) &&
    if i == root then n.parent == NIL
    else n.parent < |nodes| && (nodes[n.parent].left == i <==> nodes[n.parent].right != i)
  }

  lemma {:induction false} LinksInverse<V>(nodes: seq<Node<V>>, root: nat, p: Path<V>, t: Tree<V>, i: nat)
    requires Zip(nodes, root, p, t) && i in At(t)
    ensures i < |nodes| && LinkedAt(nodes, root, i)
    decreases t
  {
    if i == t.at {
      assert Rep(nodes, t.left, t.at) && Rep(nodes, t.right, t.at);
      assert t.left.Branch? ==> t.left.at in At(t.left);
      assert t.right.Branch? ==> t.right.at in At(t.right);
      if !p.Top? {
        RootAbove(nodes, root, p, t);
      }
    } else if i in At(t.left) {
      ZipUp(nodes, root, Left(p, t.at, t.color, t.entry, t.right), t.left);
      LinksInverse(nodes, root, Left(p, t.at, t.color, t.entry, t.right), t.left, i);
    } else {
      ZipUp(nodes, root, Right(p, t.at, t.color, t.entry, t.left), t.right);
      LinksInverse(nodes, root, Right(p, t.at, t.color, t.entry, t.left), t.right, i);
    }
  }

  lemma RootAbove<V>(nodes: seq<Node<V>>, root: nat, p: Path<V>, t: Tree<V>)
    requires Zip(nodes, root, p, t) && t.Branch? && !p.Top?
    ensures root != t.at
  {
    RootInPath(nodes, root, p, t.at, At(t));
    assert t.at in At(t);
  }

  lemma {:induction false} RootInPath<V>(nodes: seq<Node<V>>, root: nat, p: Path<V>, hole: nat, below: set<nat>)
    requires RepPath(nodes, root, p, hole) && DistinctPath(p, below) && !p.Top?
    ensures root !in below
    decreases p
  {
    if !p.up.Top? {
      RootInPath(nodes, root, p.up, p.at, below + {p.at} + At(p.sibling));
    }
  }

  /** In an arena that holds one tree over all its nodes, all links are mutual and only the
      root is without a parent. */
  lemma ArenaIsLinked<V>(nodes: seq<Node<V>>, root: nat, t: Tree<V>)
    requires Zip(nodes, root, Top, t) && Covers(t, |nodes|)
    ensures forall i :: 0 <= i < |nodes| ==> LinkedAt(nodes, root, i)
  {
    forall i | 0 <= i < |nodes| ensures LinkedAt(nodes, root, i) {
      LinksInverse(nodes, root, Top, t, i);
    }
  }
}
