/** The latch B+ tree: insertion through shared nodes whose key and edge vectors are changed in place. */
module LatchBTrees {
  import opened Keys
  import opened LatchTrees
  import opened LatchNodes

  // ---------- the nodes of a tree ----------

  /** The nodes below a node, as they are linked to each other. */
  datatype Links = LeafLink(leaf: LeafNode) | InnerLink(inner: InternalNode, kids: seq<Links>) {
    function Ref(): Node {
      if LeafLink? then LeafRef(leaf) else Internal(inner)
    }
  }

  ghost function Objects(l: Links): set<object>
    decreases l, 0
  {
    match l
    case LeafLink(leaf) => {leaf}
    case InnerLink(inner, kids) => {inner} + KidObjects(kids)
  }

  ghost function KidObjects(kids: seq<Links>): set<object>
    decreases kids, |kids|
  {
    if kids == [] then {} else Objects(kids[0]) + KidObjects(kids[1..])
  }

  lemma {:induction false} KidObjectsMember(kids: seq<Links>, i: nat)
    requires i < |kids|
    ensures Objects(kids[i]) <= KidObjects(kids)
    decreases |kids|
  {
    if i > 0 {
      KidObjectsMember(kids[1..], i - 1);
    }
  }

  lemma {:induction false} KidObjectsConcat(a: seq<Links>, b: seq<Links>)
    ensures KidObjects(a + b) == KidObjects(a) + KidObjects(b)
    decreases |a|
  {
    if a == [] {
      assert a + b == b;
    } else {
      KidObjectsConcat(a[1..], b);
      assert (a + b)[1..] == a[1..] + b;
    }
  }

  lemma OneKidObjects(l: Links)
    ensures KidObjects([l]) == Objects(l)
  {
    assert KidObjects([]) == {};
  }

  lemma RepFold(inner: InternalNode, kids: seq<Links>, t: Tree, order: nat)
    requires t.Inner? && inner.keys == t.keys && inner.order == order && |kids| == |t.kids| == |inner.edges|
    requires forall i :: 0 <= i < |kids| ==> inner.edges[i] == kids[i].Ref() && Rep(kids[i], t.kids[i], order)
    ensures Rep(InnerLink(inner, kids), t, order)
  {
  }

  /** Linked nodes exist, so calls that do not modify them leave them as they are. */
  lemma {:induction false} ObjectsAllocated(l: Links)
    ensures forall o :: o in Objects(l) ==> allocated(o)
    decreases l, 0
  {
    if l.InnerLink? {
      KidObjectsAllocated(l.kids);
    }
  }

  lemma {:induction false} KidObjectsAllocated(kids: seq<Links>)
    ensures forall o :: o in KidObjects(kids) ==> allocated(o)
    decreases kids, |kids|
  {
    if kids != [] {
      ObjectsAllocated(kids[0]);
      KidObjectsAllocated(kids[1..]);
    }
  }

  /** No node is linked twice. */
  ghost predicate Separate(l: Links) {
    l.InnerLink? ==>
      (forall i :: 0 <= i < |l.kids| ==> Separate(l.kids[i]) && l.inner !in Objects(l.kids[i])) &&
      (forall i, j :: 0 <= i < j < |l.kids| ==> Objects(l.kids[i]) !! Objects(l.kids[j]))
  }

  /** The linked nodes hold the tree `t`. */
  ghost predicate Rep(l: Links, t: Tree, order: nat)
    reads Objects(l)
    decreases l
  {
    match l
    case LeafLink(leaf) =>
      t.Leaf? && leaf.startKeys == t.starts && leaf.endKeys == t.ends && leaf.order == order
    case InnerLink(inner, kids) =>
      t.Inner? && inner.keys == t.keys && inner.order == order && |kids| == |t.kids| == |inner.edges| &&
      forall i :: 0 <= i < |kids| ==>
        inner.edges[i] == kids[i].Ref() && (KidObjectsMember(kids, i); Rep(kids[i], t.kids[i], order))
  }

  /** One level of the links: the node itself, and its children one by one. */
  lemma OneLevel(l: Links, t: Tree, order: nat)
    requires l.InnerLink? && Rep(l, t, order) && Separate(l)
    ensures
      t.Inner? && l.inner.keys == t.keys && l.inner.order == order && |l.kids| == |t.kids| == |l.inner.edges| &&
      (forall i :: 0 <= i < |l.kids| ==> l.inner.edges[i] == l.kids[i].Ref() && Rep(l.kids[i], t.kids[i], order))
    ensures forall i :: 0 <= i < |l.kids| ==>
      Separate(l.kids[i]) && l.inner !in Objects(l.kids[i]) && Objects(l.kids[i]) <= Objects(l)
    ensures forall i, j :: 0 <= i < |l.kids| && 0 <= j < |l.kids| && i != j ==> Objects(l.kids[i]) !! Objects(l.kids[j])
    ensures l.inner in Objects(l)
  {
    forall i | 0 <= i < |l.kids| ensures Objects(l.kids[i]) <= Objects(l) {
      KidObjectsMember(l.kids, i);
    }
  }

  // ---------- replacing a child ----------

  /** The child at `i` becomes `kid`, and `right`, if there is one, is linked at `pos + 1`. */
  function Relinked(kids: seq<Links>, i: nat, kid: Links, right: Option<Links>, pos: nat): seq<Links>
    requires i < |kids| && pos < |kids|
  {
    var kids' := kids[i := kid];
    match right
    case None => kids'
    case Some(link) => InsertAt(kids', pos + 1, link)
  }

  /** The new links share nothing with what was there before, except with the replaced child. */
  ghost predicate Apart(inner: InternalNode, kids: seq<Links>, i: nat, added: Links) {
    inner !in Objects(added) && forall j :: 0 <= j < |kids| && j != i ==> Objects(kids[j]) !! Objects(added)
  }

  lemma NothingShared(l: Links, i: nat, added: Links)
    requires l.InnerLink? && i < |l.kids| && Separate(l) && Objects(l) - Objects(l.kids[i]) !! Objects(added)
    ensures Apart(l.inner, l.kids, i, added)
  {
    forall j | 0 <= j < |l.kids| && j != i ensures Objects(l.kids[j]) !! Objects(added) {
      KidObjectsMember(l.kids, j);
      assert Objects(l.kids[j]) !! Objects(l.kids[i]);
    }
  }

  lemma {:induction false} SeparateRelinked(inner: InternalNode, kids: seq<Links>, i: nat, kid: Links,
      right: Option<Links>, pos: nat)
    requires i < |kids| && pos < |kids| && Separate(InnerLink(inner, kids))
    requires Separate(kid) && Apart(inner, kids, i, kid)
    requires right.Some? ==>
      Separate(right.value) && Apart(inner, kids, i, right.value) && Objects(right.value) !! Objects(kid)
    ensures Separate(InnerLink(inner, Relinked(kids, i, kid, right, pos)))
  {
    hide Objects;
    var l := InnerLink(inner, kids);
    var kids' := Relinked(kids, i, kid, right, pos);
    forall j | 0 <= j < |kids'| ensures Separate(kids'[j]) && inner !in Objects(kids'[j]) {
      RelinkedAt(kids, i, kid, right, pos, j);
    }
    forall j, k | 0 <= j < k < |kids'| ensures Objects(kids'[j]) !! Objects(kids'[k]) {
      RelinkedAt(kids, i, kid, right, pos, j);
      RelinkedAt(kids, i, kid, right, pos, k);
    }
  }

  /** Where the links after a replacement come from. */
  lemma RelinkedAt(kids: seq<Links>, i: nat, kid: Links, right: Option<Links>, pos: nat, j: nat)
    requires i < |kids| && pos < |kids| && j < |Relinked(kids, i, kid, right, pos)|
    ensures
      var from := if right.None? || j <= pos then j else j - 1;
      Relinked(kids, i, kid, right, pos)[j] ==
        if right.Some? && j == pos + 1 then right.value else if from == i then kid else kids[from]
  {
  }

  lemma {:induction false} ObjectsOfInner(inner: InternalNode, kids: seq<Links>, o: object)
    ensures o in Objects(InnerLink(inner, kids)) <==> o == inner || exists i :: 0 <= i < |kids| && o in Objects(kids[i])
    decreases |kids|
  {
    if kids != [] {
      ObjectsOfInner(inner, kids[1..], o);
      if i :| 0 <= i < |kids| && o in Objects(kids[i]) {
        assert i > 0 ==> kids[1..][i - 1] == kids[i];
      }
    }
  }

  lemma ObjectsRelinked(inner: InternalNode, kids: seq<Links>, i: nat, kid: Links, right: Option<Links>, pos: nat)
    requires i < |kids| && pos < |kids|
    ensures Objects(InnerLink(inner, Relinked(kids, i, kid, right, pos))) <=
      Objects(InnerLink(inner, kids)) + AllObjects(kid, right)
  {
    hide Objects;
    var kids' := Relinked(kids, i, kid, right, pos);
    forall o | o in Objects(InnerLink(inner, kids'))
      ensures o in Objects(InnerLink(inner, kids)) + AllObjects(kid, right)
    {
      ObjectsOfInner(inner, kids', o);
      ObjectsOfInner(inner, kids, o);
      if o != inner {
        var j :| 0 <= j < |kids'| && o in Objects(kids'[j]);
        RelinkedAt(kids, i, kid, right, pos, j);
      }
    }
  }

  /** A node whose child at `i` has been replaced, in the nodes and in the tree they hold. */
  lemma {:induction false} RepRelinked(inner: InternalNode, kids: seq<Links>, t: Tree, order: nat,
    i: nat, kid: Links, right: Option<Links>, sub: Inserted, edges: seq<Node>)
    requires t.Inner? && |kids| == |t.kids| == |t.keys| + 1 == |edges| && i < |kids|
    requires forall j :: 0 <= j < |kids| ==> edges[j] == kids[j].Ref()
    requires forall j :: 0 <= j < |kids| && j != i ==> Rep(kids[j], t.kids[j], order)
    requires Rep(kid, sub.left, order) && kid.Ref() == kids[i].Ref()
    requires right.Some? <==> sub.split.Some?
    requires right.Some? ==> Rep(right.value, sub.split.value.1, order)
    requires inner.order == order && inner.keys == Replaced(t, i, sub).keys
    requires inner.edges ==
      if right.None? then edges else InsertAt(edges, Position(t.keys, sub.split.value.0) + 1, right.value.Ref())
    ensures
      var pos := if right.None? then 0 else Position(t.keys, sub.split.value.0);
      Rep(InnerLink(inner, Relinked(kids, i, kid, right, pos)), Replaced(t, i, sub), order)
  {
    hide Objects, Rep;
    var pos := if right.None? then 0 else Position(t.keys, sub.split.value.0);
    var kids' := Relinked(kids, i, kid, right, pos);
    var t' := Replaced(t, i, sub);
    forall j | 0 <= j < |kids'| ensures inner.edges[j] == kids'[j].Ref() && Rep(kids'[j], t'.kids[j], order) {
      RelinkedAt(kids, i, kid, right, pos, j);
      var from := if right.None? || j <= pos then j else j - 1;
      assert t'.kids[j] ==
        if right.Some? && j == pos + 1 then sub.split.value.1 else if from == i then sub.left else t.kids[from];
    }
    RepFold(inner, kids', t', order);
  }

  /** The links of a node below which an insertion has taken place. */
  lemma Reassemble(inner: InternalNode, l: Links, t: Tree, order: nat, i: nat, kid: Links, right: Option<Links>,
    sub: Inserted, edges: seq<Node>, tree: object) returns (l': Links)
    requires l.InnerLink? && l.inner == inner && Separate(l) && i < |l.kids| && tree !in Objects(l)
    requires t.Inner? && |l.kids| == |t.kids| == |t.keys| + 1 == |edges|
    requires forall j :: 0 <= j < |l.kids| ==> edges[j] == l.kids[j].Ref()
    requires forall j :: 0 <= j < |l.kids| && j != i ==> Rep(l.kids[j], t.kids[j], order)
    requires Outcome(kid, right, sub, l.kids[i].Ref(), order, tree)
    requires Apart(inner, l.kids, i, kid) && (right.Some? ==> Apart(inner, l.kids, i, right.value))
    requires inner.order == order
    requires right.None? ==> inner.keys == t.keys && inner.edges == edges
    requires right.Some? ==>
      var pos := Position(t.keys, sub.split.value.0);
      inner.keys == InsertAt(t.keys, pos, sub.split.value.0) &&
      inner.edges == InsertAt(edges, pos + 1, right.value.Ref())
    ensures Rep(l', Replaced(t, i, sub), order) && Separate(l') && l'.Ref() == Internal(inner)
    ensures tree !in Objects(l') && Objects(l') <= Objects(l) + AllObjects(kid, right)
  {
    hide Rep, Separate, Objects;
    var pos := if right.None? then 0 else Position(t.keys, sub.split.value.0);
    l' := InnerLink(inner, Relinked(l.kids, i, kid, right, pos));
    SeparateRelinked(inner, l.kids, i, kid, right, pos);
    ObjectsRelinked(inner, l.kids, i, kid, right, pos);
    RepRelinked(inner, l.kids, t, order, i, kid, right, sub, edges);
  }

  /** The links of a node that has been split in two. */
  lemma {:induction false} SplitLinks(l: Links, t: Tree, order: nat, splitNode: InternalNode, tree: object)
    requires l.InnerLink? && t.Inner? && t.keys != [] && |l.kids| == |t.kids| == |t.keys| + 1
    requires Separate(l) && forall i :: 0 <= i < |l.kids| ==> Rep(l.kids[i], t.kids[i], order)
    requires tree !in Objects(l) && tree != splitNode && splitNode !in Objects(l) &&
      splitNode.order == l.inner.order == order
    requires
      var (left, split) := SplitInner(t);
      var mid := |t.keys| / 2;
      l.inner.keys == left.keys && splitNode.keys == split.value.1.keys &&
      |l.inner.edges| == mid + 1 && |splitNode.edges| == |t.kids| - mid - 1 &&
      (forall i :: 0 <= i <= mid ==> l.inner.edges[i] == l.kids[i].Ref()) &&
      (forall i :: mid < i < |t.kids| ==> splitNode.edges[i - mid - 1] == l.kids[i].Ref())
    ensures
      var mid := |t.keys| / 2;
      var l1, l2 := InnerLink(l.inner, l.kids[..mid + 1]), InnerLink(splitNode, l.kids[mid + 1..]);
      AllObjects(l1, Some(l2)) <= Objects(l) + {splitNode} &&
      Outcome(l1, Some(l2), Inserted(true, SplitInner(t).0, SplitInner(t).1), Internal(l.inner), order, tree)
  {
    var mid := |t.keys| / 2;
    var l1, l2 := InnerLink(l.inner, l.kids[..mid + 1]), InnerLink(splitNode, l.kids[mid + 1..]);
    hide Rep, Objects;
    SplitObjects(l, mid, splitNode);
    RepFold(l.inner, l1.kids, SplitInner(t).0, order);
    RepFold(splitNode, l2.kids, SplitInner(t).1.value.1, order);
  }

  lemma SplitObjects(l: Links, mid: nat, splitNode: InternalNode)
    requires l.InnerLink? && mid < |l.kids| && Separate(l) && splitNode !in Objects(l)
    ensures
      var l1, l2 := InnerLink(l.inner, l.kids[..mid + 1]), InnerLink(splitNode, l.kids[mid + 1..]);
      Separate(l1) && Separate(l2) && Objects(l1) !! Objects(l2) &&
      Objects(l1) + Objects(l2) <= Objects(l) + {splitNode}
  {
    var l1, l2 := InnerLink(l.inner, l.kids[..mid + 1]), InnerLink(splitNode, l.kids[mid + 1..]);
    assert l.kids == l1.kids + l2.kids;
    KidObjectsConcat(l1.kids, l2.kids);
    forall o | o in Objects(l1) ensures o !in Objects(l2) {
      ObjectsOfInner(l.inner, l1.kids, o);
      ObjectsOfInner(splitNode, l2.kids, o);
      forall i | 0 <= i < |l2.kids| ensures o !in Objects(l2.kids[i]) {
        assert l2.kids[i] == l.kids[mid + 1 + i];
      }
    }
    forall i | 0 <= i < |l2.kids| ensures splitNode !in Objects(l2.kids[i]) {
      KidObjectsMember(l2.kids, i);
    }
  }

  /** A new root above two nodes. */
  lemma {:induction false} TwoKids(root: InternalNode, l: Links, r: Links, t: Tree, order: nat)
    requires t.Inner? && |t.keys| == 1 && |t.kids| == 2
    requires Rep(l, t.kids[0], order) && Rep(r, t.kids[1], order) && Separate(l) && Separate(r)
    requires Objects(l) !! Objects(r) && root !in Objects(l) + Objects(r)
    requires root.keys == t.keys && root.order == order && root.edges == [l.Ref(), r.Ref()]
    ensures
      var top := InnerLink(root, [l, r]);
      Rep(top, t, order) && Separate(top) && Objects(top) == {root} + Objects(l) + Objects(r)
  {
    assert [l, r] == [l] + [r];
    KidObjectsConcat([l], [r]);
    OneKidObjects(l);
    OneKidObjects(r);
  }

  // ---------- the tree ----------

  ghost function AllObjects(l: Links, right: Option<Links>): set<object> {
    Objects(l) + if right.Some? then Objects(right.value) else {}
  }

  /** What an insertion below a node has made of it and of the node split off it, if any. */
  ghost predicate Outcome(l: Links, right: Option<Links>, ins: Inserted, node: Node, order: nat, tree: object)
    reads AllObjects(l, right)
  {
    Rep(l, ins.left, order) && Separate(l) && l.Ref() == node && tree !in AllObjects(l, right) &&
    (right.Some? <==> ins.split.Some?) &&
    (right.Some? ==>
      Rep(right.value, ins.split.value.1, order) && Separate(right.value) && Objects(right.value) !! Objects(l))
  }

  lemma RefusedBelow(t: Tree, r: Range, order: nat)
    requires t.Inner? && Shaped(t) && order > 0
    ensures
      var i := Position(t.keys, r.startKey);
      var sub := TreeInsert(t.kids[i], r, order);
      !sub.acquired ==> sub.split.None? && Replaced(t, i, sub) == t
  {
  }

  class BTree {
    var root: Node
    const order: nat
    ghost var links: Links
    ghost var tree: Tree
    ghost var depth: nat

    ghost predicate Valid()
      reads this, Objects(links)
    {
      OddOrder(order) && root == links.Ref() && this !in Objects(links) && Separate(links) && Rep(links, tree, order) &&
      WellFormed(tree, order, depth, None, None, LeastAtRoot(tree))
    }

    constructor (order: nat)
      requires OddOrder(order)
      ensures Valid() && Ranges(tree) == {} && fresh(Objects(links)) && this.order == order
    {
      var leaf := new LeafNode(order, [], []);
      root, links, tree, depth := LeafRef(leaf), LeafLink(leaf), Leaf([], []), 0;
      this.order := order;
    }

    /** The split-off node is linked in the parent, or below the root, behind the given node. */
    ghost predicate HandedUp(parent: InternalNode?, keys: seq<Key>, edges: seq<Node>, node: Node, right: Node,
        median: Key)
      reads this, parent, if root.Internal? then {root.inner} else {}
    {
      if parent != null then
        var pos := Position(keys, median);
        pos + 1 <= |edges| &&
        parent.keys == InsertAt(keys, pos, median) && parent.edges == InsertAt(edges, pos + 1, right)
      else
        root.Internal? && root.inner.order == order && root.inner.keys == [median] && root.inner.edges == [node, right]
    }

    method HandUp(parent: InternalNode?, node: Node, right: Node, median: Key)
      requires parent != null ==> |parent.edges| == |parent.keys| + 1
      modifies `root, parent
      ensures parent != null ==> root == old(root)
      ensures parent == null ==> root.Internal? && fresh(root.inner)
      ensures HandedUp(parent, if parent != null then old(parent.keys) else [],
                       if parent != null then old(parent.edges) else [], node, right, median)
    {
      if parent != null {
        parent.InsertNode(right, median);
      } else {
        var newRoot := new InternalNode(order, [median], [node, right]);
        root := Internal(newRoot);
      }
    }

    /** The node at `l` has become `l'`, and a node split off it is handed up; without a split,
        parent and root are untouched. */
    twostate predicate HasInserted(parent: InternalNode?, node: Node, l: Links, new l': Links,
        new right: Option<Links>, ins: Inserted)
      reads this, parent, AllObjects(l', right), if root.Internal? then {root.inner} else {}
    {
      Outcome(l', right, ins, node, order, this) &&
      fresh(AllObjects(l', right) - Objects(l)) && (right.Some? <==> ins.split.Some?) &&
      (parent != null ==> root == old(root) && parent !in AllObjects(l', right)) &&
      if right.None? then
        root == old(root) && (parent != null ==> parent.keys == old(parent.keys) && parent.edges == old(parent.edges))
      else
        HandedUp(parent, if parent != null then old(parent.keys) else [],
                 if parent != null then old(parent.edges) else [], node, right.value.Ref(), ins.split.value.0) &&
        (parent == null ==> fresh(root.inner) && root.inner !in AllObjects(l', right))
    }

    /** Inserts below `node`. A node that splits off is handed to the parent or, if there is
        none, to a new root; the parent is dropped as soon as the child cannot split, so that
        a new root is made only when the old one splits. */
    method InsertHelper(parent: InternalNode?, node: Node, range: Range, ghost l: Links, ghost t: Tree)
      returns (acquired: bool, panics: bool, ghost l': Links, ghost right: Option<Links>)
      requires order > 0 && Shaped(t) && Rep(l, t, order) && Separate(l) && node == l.Ref() && this !in Objects(l)
      requires parent != null ==> parent !in Objects(l) && |parent.edges| == |parent.keys| + 1
      requires parent == null ==> node == root || Size(t) < order - 1
      modifies `root, Objects(l), parent
      ensures acquired == TreeInsert(t, range, order).acquired && panics == RefusalPanics(t, range.startKey)
      ensures HasInserted(parent, node, l, l', right, TreeInsert(t, range, order))
      decreases t, 3
    {
      match node {
        case LeafRef(leaf) =>
          acquired, panics, l', right := InsertIntoLeaf(parent, leaf, range, l, t);
        case Internal(inner) =>
          acquired, panics, l', right := InsertIntoInner(parent, inner, range, l, t);
      }
    }

    method InsertIntoLeaf(parent: InternalNode?, leaf: LeafNode, range: Range, ghost l: Links, ghost t: Tree)
      returns (acquired: bool, panics: bool, ghost l': Links, ghost right: Option<Links>)
      requires order > 0 && Shaped(t) && Rep(l, t, order) && Separate(l) && LeafRef(leaf) == l.Ref() &&
        this !in Objects(l)
      requires parent != null ==> parent !in Objects(l) && |parent.edges| == |parent.keys| + 1
      modifies `root, Objects(l), parent
      ensures acquired == TreeInsert(t, range, order).acquired && panics == RefusalPanics(t, range.startKey)
      ensures HasInserted(parent, LeafRef(leaf), l, l', right, TreeInsert(t, range, order))
    {
      acquired, panics := leaf.InsertRange(range);
      l', right := l, None;
      if acquired && !leaf.HasCapacity() {
        var splitNode, median := leaf.Split();
        right := Some(LeafLink(splitNode));
        HandUp(parent, LeafRef(leaf), LeafRef(splitNode), median);
      }
    }

    method InsertIntoInner(parent: InternalNode?, inner: InternalNode, range: Range, ghost l: Links, ghost t: Tree)
      returns (acquired: bool, panics: bool, ghost l': Links, ghost right: Option<Links>)
      requires order > 0 && Shaped(t) && Rep(l, t, order) && Separate(l) && Internal(inner) == l.Ref() &&
        this !in Objects(l)
      requires parent != null ==> parent !in Objects(l) && |parent.edges| == |parent.keys| + 1
      requires parent == null ==> Internal(inner) == root || Size(t) < order - 1
      modifies `root, Objects(l), parent
      ensures acquired == TreeInsert(t, range, order).acquired && panics == RefusalPanics(t, range.startKey)
      ensures HasInserted(parent, Internal(inner), l, l', right, TreeInsert(t, range, order))
      decreases t, 2
    {
      acquired, panics, l' := InsertIntoChild(inner, range, l, t);
      right := None;
      if acquired && !inner.HasCapacity() {
        l', right := SplitUp(parent, inner, l', Replaced(t, Position(t.keys, range.startKey),
          TreeInsert(t.kids[Position(t.keys, range.startKey)], range, order)));
      }
    }

    /** Splits a node that has one key too many. */
    method SplitUp(parent: InternalNode?, inner: InternalNode, ghost l: Links, ghost t: Tree)
      returns (ghost l': Links, ghost right: Option<Links>)
      requires t.Inner? && t.keys != [] && |t.kids| == |t.keys| + 1
      requires Rep(l, t, order) && Separate(l) && Internal(inner) == l.Ref() && this !in Objects(l)
      requires parent != null ==> parent !in Objects(l) && |parent.edges| == |parent.keys| + 1
      modifies `root, inner, parent
      ensures Outcome(l', right, Inserted(true, SplitInner(t).0, SplitInner(t).1), Internal(inner), order, this)
      ensures right.Some? && right.value.InnerLink? && fresh(right.value.inner) &&
        AllObjects(l', right) <= Objects(l) + {right.value.inner}
      ensures parent != null ==> root == old(root) && parent !in AllObjects(l', right)
      ensures HandedUp(parent, if parent != null then old(parent.keys) else [],
                       if parent != null then old(parent.edges) else [],
                       Internal(inner), right.value.Ref(), SplitInner(t).1.value.0)
      ensures parent == null ==> fresh(root.inner) && root.inner !in AllObjects(l', right)
    {
      assert inner in Objects(l);
      hide Outcome, Objects;
      var splitNode, median;
      splitNode, median, l', right := SplitInPlace(inner, l, t);
      ObjectsAllocated(l');
      ObjectsAllocated(right.value);
      HandUp(parent, Internal(inner), Internal(splitNode), median);
    }

    method SplitInPlace(inner: InternalNode, ghost l: Links, ghost t: Tree)
      returns (splitNode: InternalNode, median: Key, ghost l': Links, ghost right: Option<Links>)
      requires t.Inner? && t.keys != [] && |t.kids| == |t.keys| + 1
      requires Rep(l, t, order) && Separate(l) && Internal(inner) == l.Ref() && this !in Objects(l)
      modifies inner
      ensures Outcome(l', right, Inserted(true, SplitInner(t).0, SplitInner(t).1), Internal(inner), order, this)
      ensures right.Some? && right.value.Ref() == Internal(splitNode) && fresh(splitNode)
      ensures AllObjects(l', right) <= Objects(l) + {splitNode}
      ensures median == SplitInner(t).1.value.0
    {
      OneLevel(l, t, order);
      ObjectsAllocated(l);
      hide Rep, Separate, Objects, Outcome, AllObjects;
      splitNode, median := inner.Split();
      ghost var mid := |t.keys| / 2;
      l', right := InnerLink(inner, l.kids[..mid + 1]), Some(InnerLink(splitNode, l.kids[mid + 1..]));
      SplitLinks(l, t, order, splitNode, this);
    }

    /** The part of `insert_helper` that inserts below the right child, which may leave the node
        with one key too many. */
    method InsertIntoChild(inner: InternalNode, range: Range, ghost l: Links, ghost t: Tree)
      returns (acquired: bool, panics: bool, ghost l': Links)
      requires order > 0 && Shaped(t) && Rep(l, t, order) && Separate(l) && Internal(inner) == l.Ref() &&
        this !in Objects(l)
      modifies `root, Objects(l)
      ensures
        var i := Position(t.keys, range.startKey);
        var sub := TreeInsert(t.kids[i], range, order);
        acquired == sub.acquired && panics == RefusalPanics(t, range.startKey) &&
        Rep(l', if acquired then Replaced(t, i, sub) else t, order)
      ensures Separate(l') && l'.Ref() == Internal(inner) && this !in Objects(l') && fresh(Objects(l') - Objects(l))
      ensures root == old(root)
      decreases t, 1
    {
      ObjectsAllocated(l);
      OneLevel(l, t, order);
      ghost var edges := inner.edges;
      var idx := FindPosition(inner.keys, range.startKey);
      ghost var kid, right;
      acquired, panics, kid, right := InsertBelow(inner, idx, range, l, t);
      hide Outcome, Rep, Separate, Objects, Apart, Position, Replaced, InsertAt, TreeInsert, Shaped;
      ghost var sub := TreeInsert(t.kids[idx], range, order);
      l' := Reassemble(inner, l, t, order, idx, kid, right, sub, edges, this);
      RefusedBelow(t, range, order);
    }

    /** Inserts below the child at `idx`; the node itself is passed on as its parent unless the
        child is safe. */
    method InsertBelow(inner: InternalNode, idx: nat, range: Range, ghost l: Links, ghost t: Tree)
      returns (acquired: bool, panics: bool, ghost kid: Links, ghost right: Option<Links>)
      requires order > 0 && Shaped(t) && Rep(l, t, order) && Separate(l) && Internal(inner) == l.Ref() &&
        this !in Objects(l)
      requires idx < |l.kids|
      modifies `root, Objects(l)
      ensures idx < |t.kids| && Shaped(t.kids[idx])
      ensures acquired == TreeInsert(t.kids[idx], range, order).acquired
      ensures panics == RefusalPanics(t.kids[idx], range.startKey)
      ensures Outcome(kid, right, TreeInsert(t.kids[idx], range, order), l.kids[idx].Ref(), order, this)
      ensures forall j :: 0 <= j < |l.kids| && j != idx ==> Rep(l.kids[j], t.kids[j], order)
      ensures Apart(inner, l.kids, idx, kid) && (right.Some? ==> Apart(inner, l.kids, idx, right.value))
      ensures fresh(AllObjects(kid, right) - Objects(l)) && root == old(root)
      ensures right.None? ==> inner.keys == old(inner.keys) && inner.edges == old(inner.edges)
      ensures right.Some? ==>
        var sep := TreeInsert(t.kids[idx], range, order).split.value.0;
        var pos := Position(t.keys, sep);
        pos + 1 <= |old(inner.edges)| && inner.keys == InsertAt(t.keys, pos, sep) &&
        inner.edges == InsertAt(old(inner.edges), pos + 1, right.value.Ref())
      decreases t, 0
    {
      OneLevel(l, t, order);
      ObjectsAllocated(l);
      assert Shaped(t.kids[idx]);
      hide Rep, Separate, Objects, Shaped, Position, TreeInsert, Outcome, Apart, RefusalPanics;
      acquired, panics, kid, right := InsertBelowEdge(inner, inner.edges[idx], range, l.kids[idx], t.kids[idx]);
      assert forall j :: 0 <= j < |l.kids| && j != idx ==> Rep(l.kids[j], t.kids[j], order);
      assert Objects(l) - Objects(l.kids[idx]) !! AllObjects(kid, right);
      NothingShared(l, idx, kid);
      if right.Some? {
        NothingShared(l, idx, right.value);
      }
    }

    /** The recursive call for a child, with or without its parent. */
    method InsertBelowEdge(inner: InternalNode, next: Node, range: Range, ghost l: Links, ghost t: Tree)
      returns (acquired: bool, panics: bool, ghost kid: Links, ghost right: Option<Links>)
      requires order > 0 && Shaped(t) && Rep(l, t, order) && Separate(l) && next == l.Ref() && this !in Objects(l)
      requires inner !in Objects(l) && |inner.edges| == |inner.keys| + 1
      modifies `root, inner, Objects(l)
      ensures acquired == TreeInsert(t, range, order).acquired && panics == RefusalPanics(t, range.startKey)
      ensures Outcome(kid, right, TreeInsert(t, range, order), next, order, this)
      ensures fresh(AllObjects(kid, right) - Objects(l)) && inner !in AllObjects(kid, right) && root == old(root)
      ensures right.None? ==> inner.keys == old(inner.keys) && inner.edges == old(inner.edges)
      ensures right.Some? ==>
        var sep := TreeInsert(t, range, order).split.value.0;
        var pos := Position(old(inner.keys), sep);
        pos + 1 <= |old(inner.edges)| && inner.keys == InsertAt(old(inner.keys), pos, sep) &&
        inner.edges == InsertAt(old(inner.edges), pos + 1, right.value.Ref())
      decreases t, 4
    {
      ObjectsAllocated(l);
      hide Rep, Separate, Objects, Shaped, Position, TreeInsert, RefusalPanics;
      var childSize := match next case LeafRef(leaf) => |leaf.startKeys| case Internal(child) => |child.keys|;
      ChildSize(l, t, order);
      if childSize < order - 1 {
        SafeChildNeverSplits(t, range, order);
        acquired, panics, kid, right := InsertHelper(null, next, range, l, t);
      } else {
        acquired, panics, kid, right := InsertHelper(inner, next, range, l, t);
      }
    }

    /** Acquires the latch of a range exactly if its start key is not latched. The program panics
        if the key is latched and not the first one of its leaf. */
    method Insert(range: Range) returns (acquired: bool, panics: bool)
      requires Valid()
      modifies this, Objects(links)
      ensures Valid() && fresh(Objects(links) - old(Objects(links)))
      ensures acquired <==> !HasStart(old(tree), range.startKey)
      ensures Shaped(old(tree)) && panics == RefusalPanics(old(tree), range.startKey)
      ensures Ranges(tree) == if acquired then old(Ranges(tree)) + {range} else old(Ranges(tree))
    {
      hide WellFormed, HasStart, Ranges, TreeInsert, Rep, Separate, Objects, Position;
      RootInsert(tree, range, order, depth);
      var node := root;
      ghost var ins := TreeInsert(tree, range, order);
      ghost var right;
      acquired, panics, links, right := InsertHelper(null, node, range, links, tree);
      tree := NewRoot(ins);
      if right.Some? {
        TwoKids(root.inner, links, right.value, tree, order);
        links := InnerLink(root.inner, [links, right.value]);
        depth := depth + 1;
      }
    }
  }

  lemma ChildSize(l: Links, t: Tree, order: nat)
    requires Rep(l, t, order)
    ensures Size(t) == match l.Ref() case LeafRef(leaf) => |leaf.startKeys| case Internal(child) => |child.keys|
  {
  }
}
