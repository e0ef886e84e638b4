/** What one round of `fix_insert` does to a tree: recolouring moves the red-red conflict two
    levels up, an inner rotation turns it into an outer one, an outer rotation removes it. */
module RedBlackFix {
  import opened Keys
  import opened RedBlackShapes
  import opened RedBlackArena

  /** `t` is a red subtree that is balanced in itself, below a balanced path. The whole is a
      red-black tree except that the bottom of the path may be red, too. */
  ghost predicate Conflict<V>(p: Path<V>, t: Tree<V>, h: nat) {
    t.Branch? && t.color.Red? && Balanced(t, h) && BalancedPath(p, h)
  }

  /** Two positions in trees with the same contents and the same arena indices. */
  ghost predicate SameContents<V>(p: Path<V>, t: Tree<V>, p': Path<V>, t': Tree<V>) {
    InOrder(Plug(p, t)) == InOrder(Plug(p', t')) && At(Plug(p, t)) == At(Plug(p', t'))
  }

  lemma SameContentsChain<V>(p: Path<V>, t: Tree<V>, p': Path<V>, t': Tree<V>, p'': Path<V>, t'': Tree<V>)
    requires SameContents(p, t, p', t') && SameContents(p', t', p'', t'')
    ensures SameContents(p, t, p'', t'')
  {
  }

  lemma SameContentsTop<V>(p: Path<V>, t: Tree<V>, tree: Tree<V>)
    requires SameContents(p, t, Top, tree)
    ensures InOrder(tree) == InOrder(Plug(p, t)) && At(tree) == At(Plug(p, t))
  {
  }

  lemma {:induction false} SameContentsHere<V>(p: Path<V>, t: Tree<V>, t': Tree<V>)
    requires InOrder(t) == InOrder(t') && At(t) == At(t')
    ensures SameContents(p, t, p, t')
  {
    PlugContents(p, t);
    PlugContents(p, t');
  }

  // ---------- recolouring ----------

  /** The grandparent of `t`, red, above its two children, now black. */
  function Recolored<V>(p: Path<V>, t: Tree<V>): Tree<V>
    requires !p.Top? && !p.up.Top? && p.up.sibling.Branch?
  {
    PlugOne(p.up.(color := Red, sibling := p.up.sibling.(color := Black)), PlugOne(p.(color := Black), t))
  }

  lemma RecolorBalanced<V>(p: Path<V>, t: Tree<V>, h: nat)
    requires Conflict(p, t, h) && !p.Top? && p.color.Red?
    requires p.up.sibling.Branch? && p.up.sibling.color.Red?
    ensures Conflict(p.up.up, Recolored(p, t), h + 1)
    ensures SameContents(p, t, p.up.up, Recolored(p, t))
  {
    assert BalancedPath(p.up, h) && BalancedPath(p.up.up, h + 1);
    assert Balanced(PlugOne(p.(color := Black), t), h + 1) && Balanced(p.up.sibling.(color := Black), h + 1);
    var g := PlugOne(p.up, PlugOne(p, t));
    var g' := Recolored(p, t);
    assert Plug(p, t) == Plug(p.up, PlugOne(p, t)) == Plug(p.up.up, g);
    SameContentsHere(p.up.up, g, g');
  }

  lemma {:induction false} RecolorZip<V>(nodes: seq<Node<V>>, root: nat, p: Path<V>, t: Tree<V>)
    requires Zip(nodes, root, p, t)
    requires !p.Top? && !p.up.Top? && p.up.sibling.Branch?
    ensures p.at < |nodes| && p.up.at < |nodes| && p.up.sibling.at < |nodes|
    ensures Zip(Paint(Paint(Paint(nodes, p.up.sibling.at, Black), p.at, Black), p.up.at, Red), root,
                p.up.up, Recolored(p, t))
  {
    var g, u := p.up, p.up.sibling;
    var parent := PlugOne(p, t);
    ZipUp(nodes, root, p, t);
    ZipUp(nodes, root, g, parent);
    // down to the uncle
    var toUncle := if g.Left? then Right(g.up, g.at, g.color, g.entry, parent)
                   else Left(g.up, g.at, g.color, g.entry, parent);
    assert PlugOne(toUncle, u) == PlugOne(g, parent);
    ZipUp(nodes, root, toUncle, u);
    PaintZip(nodes, root, toUncle, u, Black);
    var nodes1 := Paint(nodes, u.at, Black);
    var u' := u.(color := Black);
    var g1 := g.(sibling := u');
    ZipUp(nodes1, root, toUncle, u');
    assert PlugOne(toUncle, u') == PlugOne(g1, parent);
    // over to the parent
    ZipUp(nodes1, root, g1, parent);
    PaintZip(nodes1, root, g1, parent, Black);
    var nodes2 := Paint(nodes1, p.at, Black);
    var parent' := parent.(color := Black);
    assert parent' == PlugOne(p.(color := Black), t);
    // up to the grandparent
    ZipUp(nodes2, root, g1, parent');
    PaintZip(nodes2, root, g.up, PlugOne(g1, parent'), Red);
  }

  // ---------- inner rotation: t is on the inside of its grandparent ----------

  /** After rotating at the parent, the old parent is the lower one of the two red nodes. */
  function InnerPath<V>(p: Path<V>, t: Tree<V>): Path<V>
    requires !p.Top? && t.Branch?
  {
    if p.Left? then Right(p.up, t.at, t.color, t.entry, t.left)
    else Left(p.up, t.at, t.color, t.entry, t.right)
  }

  function InnerTree<V>(p: Path<V>, t: Tree<V>): Tree<V>
    requires !p.Top? && t.Branch?
  {
    if p.Left? then PlugOne(p, t.right) else PlugOne(p, t.left)
  }

  // ---------- outer rotation: t is on the outside of its grandparent ----------

  /** The parent, black, in the place of the grandparent, which becomes its red child. */
  function OuterPath<V>(p: Path<V>): Path<V>
    requires !p.Top? && !p.up.Top?
  {
    var g := p.up;
    var down := PlugOne(g.(color := Red), p.sibling);
    if p.Left? then Left(g.up, p.at, Black, p.entry, down)
    else Right(g.up, p.at, Black, p.entry, down)
  }

  predicate Outside<V>(p: Path<V>) {
    !p.Top? && !p.up.Top? && (p.Left? <==> p.up.Left?)
  }

  lemma OuterBalanced<V>(p: Path<V>, t: Tree<V>, h: nat)
    requires Conflict(p, t, h) && Outside(p) && p.color.Red? && BlackRoot(p.up.sibling)
    ensures Conflict(OuterPath(p), t, h)
    ensures
      var g := PlugOne(p.up.(color := Red), PlugOne(p.(color := Black), t));
      PlugOne(OuterPath(p), t) == if p.Left? then RotateRight(g) else RotateLeft(g)
  {
    assert BalancedPath(p.up, h) && BalancedPath(p.up.up, h + 1);
    assert Balanced(OuterPath(p).sibling, h);
  }

  /** Colouring the parent black and the grandparent red, with the focus on the grandparent. */
  lemma {:induction false} OuterPaintZip<V>(nodes: seq<Node<V>>, root: nat, p: Path<V>, t: Tree<V>)
    requires Zip(nodes, root, p, t) && !p.Top? && !p.up.Top?
    ensures p.at < |nodes| && p.up.at < |nodes|
    ensures Zip(Paint(Paint(nodes, p.at, Black), p.up.at, Red), root, p.up.up,
                PlugOne(p.up.(color := Red), PlugOne(p.(color := Black), t)))
  {
    var g, parent := p.up, PlugOne(p, t);
    ZipUp(nodes, root, p, t);
    PaintZip(nodes, root, g, parent, Black);
    var parent' := parent.(color := Black);
    assert parent' == PlugOne(p.(color := Black), t);
    var nodes1 := Paint(nodes, p.at, Black);
    ZipUp(nodes1, root, g, parent');
    PaintZip(nodes1, root, g.up, PlugOne(g, parent'), Red);
  }

  lemma {:induction false} RotationSameContents<V>(p: Path<V>, t: Tree<V>, p': Path<V>, t': Tree<V>)
    requires !p.Top? && !p'.Top? && p.up == p'.up
    requires InOrder(PlugOne(p, t)) == InOrder(PlugOne(p', t')) && At(PlugOne(p, t)) == At(PlugOne(p', t'))
    ensures SameContents(p, t, p', t')
  {
    SameContentsHere(p.up, PlugOne(p, t), PlugOne(p', t'));
  }

  // ---------- the same three steps in the arena ----------

  ghost function Depth<V>(p: Path<V>): nat {
    if p.Top? then 0 else 1 + Depth(p.up)
  }

  lemma FocusLinks<V>(nodes: seq<Node<V>>, root: nat, p: Path<V>, t: Tree<V>)
    requires Zip(nodes, root, p, t) && t.Branch?
    ensures t.at < |nodes| && nodes[t.at].parent == PathIdx(p)
    ensures !p.Top? ==> p.at < |nodes| && p.at != NIL && nodes[p.at].color == p.color
  {
  }

  lemma FocusNode<V>(nodes: seq<Node<V>>, root: nat, p: Path<V>, t: Tree<V>)
    requires Zip(nodes, root, p, t) && t.Branch?
    ensures t.at < |nodes| <= NIL && nodes[t.at] == Node(t.entry, Idx(t.left), Idx(t.right), PathIdx(p), t.color)
  {
  }

  lemma RootLink<V>(nodes: seq<Node<V>>, root: nat, t: Tree<V>)
    requires Zip(nodes, root, Top, t)
    ensures root == Idx(t)
  {
  }

  /** The node below which the empty place `p` lies. */
  lemma PlaceNode<V>(nodes: seq<Node<V>>, root: nat, p: Path<V>)
    requires Zip(nodes, root, p, Nil)
    ensures p.Top? <==> PathIdx(p) == NIL
    ensures !p.Top? ==> p.at < |nodes| && nodes[p.at].entry == p.entry && nodes[p.at].parent == PathIdx(p.up)
    ensures !p.Top? ==> (p.up.Top? <==> PathIdx(p.up) == NIL)
  {
    assert !p.Top? ==> RepPath(nodes, root, p.up, p.at);
  }

  lemma PlugTop<V>(t: Tree<V>)
    ensures Plug(Top, t) == t
  {
  }

  lemma LeafContents<V>(at: nat, c: Color, e: Entry<V>)
    ensures InOrder(Branch(Nil, at, c, e, Nil)) == [e] && At(Branch(Nil, at, c, e, Nil)) == {at}
  {
  }

  lemma TopDivides<V>(k: Key)
    ensures Divides<V>(Top, k)
  {
  }

  lemma SingleBalanced<V>(t: Tree<V>)
    requires t.Branch? && t.left.Nil? && t.right.Nil? && t.color.Black?
    ensures RedBlack(t)
  {
    assert Balanced(t, 1);
  }

  /** A red leaf put into a red-black tree conflicts with nothing but its parent. */
  lemma NewConflict<V>(p: Path<V>, at: nat, e: Entry<V>)
    requires RedBlack(Plug(p, Nil))
    ensures Conflict(p, Branch(Nil, at, Red, e, Nil), 0)
    ensures !p.Top? && p.up.Top? ==> RedBlack(Plug(p, Branch(Nil, at, Red, e, Nil)))
  {
    var h := UnplugBalanced(p, Nil);
    if !p.Top? && p.up.Top? {
      PlugBalanced(p, Branch(Nil, at, Red, e, Nil), 0);
    }
  }

  /** What the index tests of `fix_insert` say about the position of the conflict. */
  lemma {:induction false} ConflictLinks<V>(nodes: seq<Node<V>>, root: nat, p: Path<V>, t: Tree<V>, h: nat)
    requires Zip(nodes, root, p, t) && Conflict(p, t, h) && !p.Top?
    ensures t.at < |nodes| && p.at < |nodes| && nodes[t.at].parent == p.at && nodes[p.at].color == p.color
    ensures nodes[p.at].left == t.at <==> p.Left?
    ensures nodes[p.at].right == t.at <==> p.Right?
    ensures p.color.Red? ==> !p.up.Top?
    ensures !p.up.Top? ==>
      var g, u := p.up, p.up.sibling;
      g.at < |nodes| && nodes[p.at].parent == g.at != NIL &&
      (nodes[g.at].right == p.at <==> g.Right?) &&
      Idx(u) == (if g.Right? then nodes[g.at].left else nodes[g.at].right) &&
      (u.Branch? ==> u.at < |nodes| && u.at != NIL && nodes[u.at].color == u.color)
    ensures nodes[p.at].parent == NIL <==> p.up.Top?
  {
    ZipUp(nodes, root, p, t);
  }

  lemma {:induction false} RecolorStep<V>(nodes: seq<Node<V>>, root: nat, p: Path<V>, t: Tree<V>, h: nat)
    requires Zip(nodes, root, p, t) && Conflict(p, t, h) && !p.Top? && p.color.Red?
    requires p.up.sibling.Branch? && p.up.sibling.color.Red?
    ensures p.at < |nodes| && p.up.at < |nodes| && p.up.sibling.at < |nodes|
    ensures
      var nodes' := Paint(Paint(Paint(nodes, p.up.sibling.at, Black), p.at, Black), p.up.at, Red);
      Zip(nodes', root, p.up.up, Recolored(p, t))
    ensures Conflict(p.up.up, Recolored(p, t), h + 1) && SameContents(p, t, p.up.up, Recolored(p, t))
    ensures Recolored(p, t).Branch? && Recolored(p, t).at == p.up.at && Depth(p.up.up) + 2 == Depth(p)
  {
    RecolorZip(nodes, root, p, t);
    RecolorBalanced(p, t, h);
  }

  lemma {:induction false} InnerStep<V>(nodes: seq<Node<V>>, root: nat, p: Path<V>, t: Tree<V>, h: nat)
    requires Zip(nodes, root, p, t) && Conflict(p, t, h) && !p.Top? && p.color.Red?
    ensures !p.up.Top? && p.at < |nodes| && nodes[p.at].parent != NIL
    ensures if p.Left? then CanRotateRight(nodes, p.at) else CanRotateLeft(nodes, p.at)
    ensures Zip(if p.Left? then RotatedRight(nodes, p.at) else RotatedLeft(nodes, p.at), root,
                InnerPath(p, t), InnerTree(p, t))
    ensures Conflict(InnerPath(p, t), InnerTree(p, t), h)
    ensures SameContents(p, t, InnerPath(p, t), InnerTree(p, t))
    ensures InnerTree(p, t).at == p.at && InnerPath(p, t).at == t.at
  {
    ConflictLinks(nodes, root, p, t, h);
    ZipUp(nodes, root, p, t);
    if p.Left? {
      RotateRightZip(nodes, root, p.up, PlugOne(p, t));
      ZipUp(RotatedRight(nodes, p.at), root, InnerPath(p, t), InnerTree(p, t));
    } else {
      RotateLeftZip(nodes, root, p.up, PlugOne(p, t));
      ZipUp(RotatedLeft(nodes, p.at), root, InnerPath(p, t), InnerTree(p, t));
    }
    RotationSameContents(p, t, InnerPath(p, t), InnerTree(p, t));
  }

  function OuterPainted<V>(nodes: seq<Node<V>>, p: Path<V>): seq<Node<V>>
    requires !p.Top? && !p.up.Top? && p.at < |nodes| && p.up.at < |nodes|
  {
    Paint(Paint(nodes, p.at, Black), p.up.at, Red)
  }

  lemma {:induction false} OuterStep<V>(nodes: seq<Node<V>>, root: nat, p: Path<V>, t: Tree<V>, h: nat)
    requires Zip(nodes, root, p, t) && Conflict(p, t, h) && Outside(p) && p.color.Red? && BlackRoot(p.up.sibling)
    ensures p.at < |nodes| && p.up.at < |nodes|
    ensures
      var nodes1 := OuterPainted(nodes, p);
      var root' := if nodes1[p.up.at].parent == NIL then p.at else root;
      if p.Left? then
        CanRotateRight(nodes1, p.up.at) && nodes1[p.up.at].left == p.at &&
        Zip(RotatedRight(nodes1, p.up.at), root', OuterPath(p), t)
      else
        CanRotateLeft(nodes1, p.up.at) && nodes1[p.up.at].right == p.at &&
        Zip(RotatedLeft(nodes1, p.up.at), root', OuterPath(p), t)
    ensures Conflict(OuterPath(p), t, h) && SameContents(p, t, OuterPath(p), t)
  {
    var g := PlugOne(p.up.(color := Red), PlugOne(p.(color := Black), t));
    OuterPaintZip(nodes, root, p, t);
    OuterBalanced(p, t, h);
    var nodes1 := OuterPainted(nodes, p);
    var root' := if p.up.up.Top? then p.at else root;
    if p.Left? {
      RotateRightZip(nodes1, root, p.up.up, g);
      ZipUp(RotatedRight(nodes1, p.up.at), root', OuterPath(p), t);
    } else {
      RotateLeftZip(nodes1, root, p.up.up, g);
      ZipUp(RotatedLeft(nodes1, p.up.at), root', OuterPath(p), t);
    }
    OuterContents(p, t);
  }

  lemma OuterContents<V>(p: Path<V>, t: Tree<V>)
    requires t.Branch? && Outside(p)
    ensures SameContents(p, t, OuterPath(p), t)
  {
    hide InOrder, At;
    var g := PlugOne(p.up, PlugOne(p, t));
    var g' := PlugOne(OuterPath(p), t);
    assert Plug(p, t) == Plug(p.up, PlugOne(p, t)) == Plug(p.up.up, g);
    PlugOneContents(p, t);
    PlugOneContents(p.up, PlugOne(p, t));
    PlugOneContents(p.up.(color := Red), p.sibling);
    PlugOneContents(OuterPath(p), t);
    assert InOrder(g') == InOrder(g);
    SameContentsHere(p.up.up, g, g');
  }

  /** Colouring the root black ends the repair. */
  lemma {:induction false} FinishStep<V>(nodes: seq<Node<V>>, root: nat, p: Path<V>, t: Tree<V>, h: nat)
    requires Zip(nodes, root, p, t) && Conflict(p, t, h) && (p.Top? || p.color.Black?)
    ensures root < |nodes| && Plug(p, t).Branch?
    ensures
      var tree := Plug(p, t).(color := Black);
      Zip(Paint(nodes, root, Black), root, Top, tree) && RedBlack(tree) && SameContents(p, t, Top, tree)
  {
    ZipTop(nodes, root, p, t);
    PlugBranch(p, t);
    var whole := Plug(p, t);
    PaintZip(nodes, root, Top, whole, Black);
    assert InOrder(whole.(color := Black)) == InOrder(whole) && At(whole.(color := Black)) == At(whole);
    if p.Top? {
      assert Balanced(t.(color := Black), h + 1);
    } else {
      PlugBalanced(p, t, h);
    }
  }

  lemma {:induction false} PlugBranch<V>(p: Path<V>, t: Tree<V>)
    requires t.Branch?
    ensures Plug(p, t).Branch?
    decreases p
  {
    if !p.Top? {
      PlugBranch(p.up, PlugOne(p, t));
    }
  }
}
