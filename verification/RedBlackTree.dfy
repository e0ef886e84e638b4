/** `RbTree`: a red-black tree of intervals, ordered by start key, in an index arena. */
module RedBlackTree {
  import opened Keys
  import opened RedBlackShapes
  import opened RedBlackArena
  import opened RedBlackFix

  class RbTree<V> {
    var nodes: seq<Node<V>>
    var root: nat
    ghost var tree: Tree<V>  // the tree that the arena holds

    ghost predicate Valid()
      reads this
    {
      Zip(nodes, root, Top, tree) &&
      Covers(tree, |nodes|) &&
      |Contents()| == |nodes| &&
      RedBlack(tree) && Sorted(Contents())
    }

    ghost function Contents(): seq<Entry<V>>
      reads this
    {
      InOrder(tree)
    }

    constructor ()
      ensures Valid() && Contents() == []
    {
      nodes, root, tree := [], NIL, Nil;
      assert Balanced<V>(Nil, 0);
    }

    method SetLeft(parent: nat, newLeft: nat)
      requires parent < |nodes| <= NIL && InArena(nodes, nodes[parent].left) && InArena(nodes, newLeft)
      requires newLeft != NIL ==> InArena(nodes, nodes[newLeft].parent)
      modifies `nodes
      ensures nodes == LinkLeft(old(nodes), parent, newLeft)
    {
      if newLeft == NIL {
        nodes := nodes[parent := nodes[parent].(left := NIL)];
        return;
      }
      var originalParent := nodes[newLeft].parent;
      if originalParent != NIL {
        if nodes[originalParent].left == newLeft {
          nodes := nodes[originalParent := nodes[originalParent].(left := NIL)];
        } else {
          nodes := nodes[originalParent := nodes[originalParent].(right := NIL)];
        }
      }
      var originalLeft := nodes[parent].left;
      if originalLeft != NIL {
        nodes := nodes[originalLeft := nodes[originalLeft].(parent := NIL)];
      }
      nodes := nodes[parent := nodes[parent].(left := newLeft)];
      nodes := nodes[newLeft := nodes[newLeft].(parent := parent)];
    }

    method SetRight(parent: nat, newRight: nat)
      requires parent < |nodes| <= NIL && InArena(nodes, nodes[parent].right) && InArena(nodes, newRight)
      requires newRight != NIL ==> InArena(nodes, nodes[newRight].parent)
      modifies `nodes
      ensures nodes == LinkRight(old(nodes), parent, newRight)
    {
      if newRight == NIL {
        nodes := nodes[parent := nodes[parent].(right := NIL)];
        return;
      }
      var originalParent := nodes[newRight].parent;
      if originalParent != NIL {
        if nodes[originalParent].left == newRight {
          nodes := nodes[originalParent := nodes[originalParent].(left := NIL)];
        } else {
          nodes := nodes[originalParent := nodes[originalParent].(right := NIL)];
        }
      }
      var originalRight := nodes[parent].right;
      if originalRight != NIL {
        nodes := nodes[originalRight := nodes[originalRight].(parent := NIL)];
      }
      nodes := nodes[parent := nodes[parent].(right := newRight)];
      nodes := nodes[newRight := nodes[newRight].(parent := parent)];
    }

    method RightRotate(k: nat)
      requires CanRotateRight(nodes, k)
      modifies `nodes, `root
      ensures nodes == RotatedRight(old(nodes), k) && |nodes| == old(|nodes|)
      ensures root == if old(nodes[k].parent) == NIL then old(nodes[k].left) else old(root)
    {
      var left := nodes[k].left;
      var leftRight := nodes[left].right;
      var parent := nodes[k].parent;
      RotateRightByLinks(nodes, k);
      if parent == NIL {
        root := left;
        nodes := nodes[left := nodes[left].(parent := NIL)];
      } else {
        LiftRightByLinks(nodes, k);
        var isRight := nodes[parent].right == k;
        if isRight {
          SetRight(parent, left);
        } else {
          SetLeft(parent, left);
        }
      }
      SetRight(left, k);
      SetLeft(k, leftRight);
    }

    method LeftRotate(k: nat)
      requires CanRotateLeft(nodes, k)
      modifies `nodes, `root
      ensures nodes == RotatedLeft(old(nodes), k) && |nodes| == old(|nodes|)
      ensures root == if old(nodes[k].parent) == NIL then old(nodes[k].right) else old(root)
    {
      var right := nodes[k].right;
      var rightLeft := nodes[right].left;
      var parent := nodes[k].parent;
      RotateLeftByLinks(nodes, k);
      if parent == NIL {
        root := right;
        nodes := nodes[right := nodes[right].(parent := NIL)];
      } else {
        LiftLeftByLinks(nodes, k);
        var isRight := nodes[parent].right == k;
        if isRight {
          SetRight(parent, right);
        } else {
          SetLeft(parent, right);
        }
      }
      SetLeft(right, k);
      SetRight(k, rightLeft);
    }

    /** Colours a red parent and its red sibling black and the grandparent red, which becomes
        the next node to look at. */
    method Recolor(k: nat, uncle: nat, ghost p: Path<V>, ghost t: Tree<V>, ghost h: nat) returns (k': nat)
      requires Zip(nodes, root, p, t) && Conflict(p, t, h) && !p.Top? && p.color.Red? && k == t.at
      requires !p.up.Top? && p.up.sibling.Branch? && p.up.sibling.color.Red? && uncle == p.up.sibling.at
      modifies `nodes
      ensures Recolored(p, t).Branch? && k' == Recolored(p, t).at && |nodes| == old(|nodes|)
      ensures Zip(nodes, root, p.up.up, Recolored(p, t)) && Conflict(p.up.up, Recolored(p, t), h + 1)
      ensures SameContents(p, t, p.up.up, Recolored(p, t)) && Depth(p.up.up) + 2 == Depth(p)
    {
      hide Zip, Conflict, Recolored, SameContents;
      ConflictLinks(nodes, root, p, t, h);
      RecolorStep(nodes, root, p, t, h);
      var parent := nodes[k].parent;
      var grandParent := nodes[parent].parent;
      nodes := nodes[uncle := nodes[uncle].(color := Black)];
      nodes := nodes[parent := nodes[parent].(color := Black)];
      nodes := nodes[grandParent := nodes[grandParent].(color := Red)];
      k' := grandParent;
    }

    /** The rotations for a red parent that is a right child and whose sibling is black. */
    method ResolveRight(k: nat, ghost p: Path<V>, ghost t: Tree<V>, ghost h: nat)
      returns (k': nat, ghost p': Path<V>, ghost t': Tree<V>)
      requires Zip(nodes, root, p, t) && Conflict(p, t, h) && !p.Top? && p.color.Red? && k == t.at
      requires !p.up.Top? && p.up.Right? && BlackRoot(p.up.sibling)
      modifies `nodes, `root
      ensures Zip(nodes, root, p', t') && Conflict(p', t', h) && SameContents(p, t, p', t')
      ensures !p'.Top? && p'.color.Black? && t'.Branch? && k' == t'.at && |nodes| == old(|nodes|)
    {
      hide Rep, RepPath, Distinct, DistinctPath, Balanced, BalancedPath, RotatedRight, RotatedLeft;
      k', p', t' := k, p, t;
      ConflictLinks(nodes, root, p, t, h);
      var parent := nodes[k].parent;
      if k == nodes[parent].left {
        InnerStep(nodes, root, p, t, h);
        k' := parent;
        RightRotate(k');
        p', t' := InnerPath(p, t), InnerTree(p, t);
      }
      ConflictLinks(nodes, root, p', t', h);
      parent := nodes[k'].parent;
      var grandParent := nodes[parent].parent;
      OuterStep(nodes, root, p', t', h);
      nodes := nodes[parent := nodes[parent].(color := Black)];
      nodes := nodes[grandParent := nodes[grandParent].(color := Red)];
      LeftRotate(grandParent);
      p' := OuterPath(p');
    }

    /** The mirror image of `ResolveRight`. */
    method ResolveLeft(k: nat, ghost p: Path<V>, ghost t: Tree<V>, ghost h: nat)
      returns (k': nat, ghost p': Path<V>, ghost t': Tree<V>)
      requires Zip(nodes, root, p, t) && Conflict(p, t, h) && !p.Top? && p.color.Red? && k == t.at
      requires !p.up.Top? && p.up.Left? && BlackRoot(p.up.sibling)
      modifies `nodes, `root
      ensures Zip(nodes, root, p', t') && Conflict(p', t', h) && SameContents(p, t, p', t')
      ensures !p'.Top? && p'.color.Black? && t'.Branch? && k' == t'.at && |nodes| == old(|nodes|)
    {
      hide Rep, RepPath, Distinct, DistinctPath, Balanced, BalancedPath, RotatedRight, RotatedLeft;
      k', p', t' := k, p, t;
      ConflictLinks(nodes, root, p, t, h);
      var parent := nodes[k].parent;
      if k == nodes[parent].right {
        InnerStep(nodes, root, p, t, h);
        k' := parent;
        LeftRotate(k');
        p', t' := InnerPath(p, t), InnerTree(p, t);
      }
      ConflictLinks(nodes, root, p', t', h);
      parent := nodes[k'].parent;
      var grandParent := nodes[parent].parent;
      OuterStep(nodes, root, p', t', h);
      nodes := nodes[parent := nodes[parent].(color := Black)];
      nodes := nodes[grandParent := nodes[grandParent].(color := Red)];
      RightRotate(grandParent);
      p' := OuterPath(p');
    }

    /** Moves the red-red conflict at `k` up the tree until it is resolved. The ghost arguments
        describe the tree from the point of view of `k`. */
    method FixInsert(k: nat, ghost p0: Path<V>, ghost t0: Tree<V>, ghost h0: nat)
      requires Zip(nodes, root, p0, t0) && Conflict(p0, t0, h0) && !p0.Top? && t0.Branch? && k == t0.at
      modifies this
      ensures Zip(nodes, root, Top, tree) && RedBlack(tree)
      ensures SameContents(p0, t0, Top, tree) && |nodes| == old(|nodes|)
    {
      hide Zip, Balanced, BalancedPath, RotatedRight, RotatedLeft, SameContents;
      hide Plug, Recolored, Conflict, Rep, RepPath;
      var k := k;
      ghost var p, t, h := p0, t0, h0;
      FocusLinks(nodes, root, p, t);
      SameContentsHere(p, t, t);
      while nodes[nodes[k].parent].color == Red
        invariant Zip(nodes, root, p, t) && Conflict(p, t, h) && !p.Top? && t.Branch? && k == t.at
        invariant k < |nodes| && nodes[k].parent == p.at < |nodes| && nodes[p.at].color == p.color
        invariant SameContents(p0, t0, p, t) && |nodes| == old(|nodes|)
        decreases if p.color.Red? then 1 + Depth(p) else 0
      {
        ConflictLinks(nodes, root, p, t, h);
        ghost var p1, t1 := p, t;
        var parent := nodes[k].parent;
        var grandParent := nodes[parent].parent;
        if parent == nodes[grandParent].right {
          var uncle := nodes[grandParent].left;
          if uncle != NIL && nodes[uncle].color == Red {
            k := Recolor(k, uncle, p, t, h);
            p, t, h := p.up.up, Recolored(p, t), h + 1;
          } else {
            k, p, t := ResolveRight(k, p, t, h);
          }
        } else {
          var uncle := nodes[grandParent].right;
          if uncle != NIL && nodes[uncle].color == Red {
            k := Recolor(k, uncle, p, t, h);
            p, t, h := p.up.up, Recolored(p, t), h + 1;
          } else {
            k, p, t := ResolveLeft(k, p, t, h);
          }
        }
        SameContentsChain(p0, t0, p1, t1, p, t);
        FocusLinks(nodes, root, p, t);
        if nodes[k].parent == NIL {
          break;
        }
      }
      FinishStep(nodes, root, p, t, h);
      SameContentsChain(p0, t0, p, t, Top, Plug(p, t).(color := Black));
      nodes := nodes[root := nodes[root].(color := Black)];
      tree := Plug(p, t).(color := Black);
    }

    /** The descent of `insert_node`: finds the node below which a new key belongs. `p` is the
        path to the empty place there, `visited` counts the nodes that the search looks at. */
    method FindPlace(startKey: Key) returns (prev: nat, ghost p: Path<V>, ghost visited: nat)
      requires Valid()
      ensures Zip(nodes, root, p, Nil) && Plug(p, Nil) == tree && prev == PathIdx(p) && Divides(p, startKey)
      ensures visited <= Height(tree)
    {
      hide Zip, Balanced, BalancedPath, RedBlack, Sorted, AllBelow, AllFrom;
      ghost var t := tree;
      p := Top;
      var cur := root;
      prev := NIL;
      visited := 0;
      TopDivides<V>(startKey);
      RootLink(nodes, root, tree);
      while cur != NIL
        invariant Zip(nodes, root, p, t) && Plug(p, t) == tree
        invariant cur == Idx(t) && prev == PathIdx(p)
        invariant Divides(p, startKey)
        invariant visited + Height(t) <= Height(tree)
        decreases t
      {
        FocusLinks(nodes, root, p, t);
        FocusNode(nodes, root, p, t);
        ghost var below := t;
        prev := cur;
        visited := visited + 1;
        match Compare(nodes[cur].entry.startKey, startKey) {
          case Less =>
            DescendRight(p, t, startKey);
            cur := nodes[cur].right;
            p, t := Right(p, t.at, t.color, t.entry, t.left), t.right;
          case Equal =>
            DescendLeft(p, t, startKey);
            cur := nodes[cur].left;
            p, t := Left(p, t.at, t.color, t.entry, t.right), t.left;
          case Greater =>
            DescendLeft(p, t, startKey);
            cur := nodes[cur].left;
            p, t := Left(p, t.at, t.color, t.entry, t.right), t.left;
        }
        assert PlugOne(p, t) == below;
        ZipUp(nodes, root, p, t);
      }
      if t.Branch? {
        FocusNode(nodes, root, p, t);
      }
    }

    /** Adds an interval in front of all intervals that do not start before it. The search for
        its place looks at no more than 2 * log2(n + 1) of the n nodes. */
    method InsertNode(startKey: Key, endKey: Key, value: V) returns (ghost visited: nat)
      requires Valid() && |nodes| < NIL
      modifies this
      ensures Valid() && |nodes| == old(|nodes|) + 1
      ensures Contents() == InsertBefore(old(Contents()), Entry(startKey, endKey, value))
      ensures Pow2(visited) <= (old(|nodes|) + 1) * (old(|nodes|) + 1)
    {
      hide Rep, RepPath, Distinct, DistinctPath, Balanced, BalancedPath, Sorted, AllBelow, AllFrom, InsertBefore, Pow2,
        Zip, Plug, InOrder, At, Divides, RedBlack, Conflict;
      var prev;
      ghost var p;
      prev, p, visited := FindPlace(startKey);
      HeightIsLogarithmic(tree);
      Pow2Monotone(visited, Height(tree));
      ghost var e := Entry(startKey, endKey, value);
      ghost var n := |nodes|;
      ghost var before := tree;
      PlugContents(p, Nil);
      PlaceNode(nodes, root, p);
      ghost var t := Branch(Nil, n, if p.Top? then Black else Red, e, Nil);
      LeafContents(n, t.color, e);
      PlugInserts(p, t, e, n);
      AttachLeaf(nodes, root, p, e, t.color);
      if prev == NIL {
        nodes := nodes + [Node(Entry(startKey, endKey, value), NIL, NIL, NIL, Black)];
        root := |nodes| - 1;
        tree := t;
        SingleBalanced(tree);
        PlugTop(tree);
      } else {
        DividesSide(p, startKey);
        NewConflict(p, n, e);
        nodes := nodes + [Node(Entry(startKey, endKey, value), NIL, NIL, prev, Red)];
        var newIdx := |nodes| - 1;
        match Compare(nodes[prev].entry.startKey, startKey) {
          case Less =>
            nodes := nodes[prev := nodes[prev].(right := newIdx)];
          case Equal =>
            nodes := nodes[prev := nodes[prev].(left := newIdx)];
          case Greater =>
            nodes := nodes[prev := nodes[prev].(left := newIdx)];
        }
        if nodes[prev].parent == NIL {
          ZipTop(nodes, root, p, t);
          tree := Plug(p, t);
          return;
        }
        FixInsert(newIdx, p, t, 0);
        SameContentsTop(p, t, tree);
      }
    }
  }
}
