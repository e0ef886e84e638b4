/** The way of `delete_helper` down to a leaf, and which calls of `delete_key` it makes. */
module LatchDeletes {
  import opened Keys
  import opened LatchTrees
  import opened LatchRows

  /** The key next to the edge on which a deletion goes down. */
  function KeyIdx(t: Tree, key: Key): (i: nat)
    requires t.Inner? && t.keys != []
    ensures i < |t.keys|
  {
    var i := Position(t.keys, key);
    if i < |t.keys| then i else i - 1
  }

  predicate IsEdgeKey(t: Tree, key: Key)
    requires t.Inner? && t.keys != []
  {
    t.keys[KeyIdx(t, key)] == key
  }

  /** A node whose separator is deleted is meant to stay locked. It notices so exactly if that is its
      last separator: left of the others the search goes down beside the next one. */
  lemma EdgeKeyIsLast(t: Tree, key: Key)
    requires t.Inner? && t.keys != [] && StrictlySorted(t.keys)
    ensures IsEdgeKey(t, key) <==> key == t.keys[|t.keys| - 1]
  {
    var i, n := Position(t.keys, key), |t.keys| - 1;
    KeyOrder(key, key, key);
    if i < n {
      KeyOrder(key, t.keys[i], t.keys[n]);
    }
  }

  /** Whether the lock on the node is given up before the deletion goes on below its child. */
  predicate IsSafe(t: Tree, key: Key, order: nat, isAncestorSafe: bool)
    requires t.Inner? && Shaped(t)
  {
    Size(t.kids[Position(t.keys, key)]) > order / 2 && !IsEdgeKey(t, key) && isAncestorSafe
  }

  /** The leaf that is reached and the parent that is passed on to it, with the index of its edge.
      The parent is passed on unless the child has a key to spare and neither its separator nor
      one further up is the key to be deleted. */
  function Descend(t: Tree, key: Key, order: nat, parent: Option<(Tree, nat)>, isAncestorSafe: bool): (Tree,
      Option<(Tree, nat)>)
    requires Shaped(t)
  {
    if t.Leaf? then (t, parent)
    else
      var i := Position(t.keys, key);
      if IsSafe(t, key, order, isAncestorSafe) then Descend(t.kids[i], key, order, None, true)
      else Descend(t.kids[i], key, order, Some((t, i)), !IsEdgeKey(t, key) && isAncestorSafe)
  }

  function RowOf(t: Tree): Row {
    if t.Leaf? then Row(t.starts, t.ends) else Row([], [])
  }

  /** The leaves below an inner node. */
  function FamilyOf(t: Tree): Family
    requires t.Inner?
  {
    Family(t.keys, seq(|t.kids|, i requires 0 <= i < |t.kids| => RowOf(t.kids[i])))
  }

  /** A leaf with this lower bound has too few keys to spare one, or holds none below the key. */
  predicate IsFewOrLow(size: nat, order: nat, lo: Option<Key>, key: Key) {
    size <= order / 2 || (lo.Some? && Le(key, lo.value))
  }

  predicate IsEdgeTo(parent: Option<(Tree, nat)>, t: Tree) {
    parent.Some? ==>
      var (node, i) := parent.value;
      node.Inner? && i < |node.kids| && node.kids[i] == t
  }

  /** Below an ancestor with the key to be deleted as separator there are no smaller keys. */
  lemma ChildBound(t: Tree, key: Key, order: nat, depth: nat, lo: Option<Key>, hi: Option<Key>, isAncestorSafe: bool)
    requires t.Inner? && Ordered(t, order, depth, lo, hi) && Shaped(t)
    requires isAncestorSafe || (lo.Some? && Le(key, lo.value))
    ensures
      var lo' := Lower(lo, t.keys, Position(t.keys, key));
      IsEdgeKey(t, key) || !isAncestorSafe ==> lo'.Some? && Le(key, lo'.value)
  {
    hide CompareFrom;
    var i := Position(t.keys, key);
    KeyOrder(key, key, key);
    if !isAncestorSafe && i > 0 {
      KeyOrder(key, lo.value, t.keys[i - 1]);
    }
  }

  lemma AtTheBottom(t: Tree, order: nat, lo: Option<Key>, hi: Option<Key>, least: nat)
    requires WellFormed(t, order, 0, lo, hi, least)
    ensures t.Leaf? && RowOf(t).Tidy() && forall k :: k in t.starts ==> Within(k, lo, hi)
  {
    hide CompareFrom;
  }

  /** The leaves below a node respect its separators. */
  lemma FamilyInOrder(t: Tree, order: nat, lo: Option<Key>, hi: Option<Key>)
    requires t.Inner? && Ordered(t, order, 1, lo, hi)
    ensures FamilyOf(t).InOrder() && |FamilyOf(t).rows| > 1
  {
    hide CompareFrom;
    var f := FamilyOf(t);
    forall j | 0 <= j < |f.rows| ensures f.rows[j].Tidy() && InSlot(f.rows[j].starts, f.separators, j) {
      AtTheBottom(t.kids[j], order, Lower(lo, t.keys, j), Upper(hi, t.keys, j), order / 2);
      assert f.rows[j] == RowOf(t.kids[j]);
    }
  }

  /** What a descent ends with: a leaf with a parent has too few keys to spare one or holds none
      below the key; a leaf without one has a key to spare, or is where the descent began. */
  ghost predicate IsGoodCall(t: Tree, above: Option<(Tree, nat)>, key: Key, order: nat, leaf: Tree,
      parent: Option<(Tree, nat)>)
  {
    leaf.Leaf? && StrictlySorted(leaf.starts) && IsEdgeTo(parent, leaf) &&
    (parent.Some? ==> |leaf.starts| <= order / 2 || forall k :: k in leaf.starts ==> Le(key, k)) &&
    (parent.Some? ==> FamilyOf(parent.value.0).InOrder() && |FamilyOf(parent.value.0).rows| > 1) &&
    (parent.None? ==> |leaf.starts| > order / 2 || (leaf == t && above.None?))
  }

  lemma LeafCall(t: Tree, key: Key, order: nat, lo: Option<Key>, hi: Option<Key>, parent: Option<(Tree, nat)>)
    requires t.Leaf? && Ordered(t, order, 0, lo, hi) && IsEdgeTo(parent, t)
    requires parent.Some? ==> IsFewOrLow(Size(t), order, lo, key)
    requires parent.Some? ==> FamilyOf(parent.value.0).InOrder() && |FamilyOf(parent.value.0).rows| > 1
    ensures IsGoodCall(t, parent, key, order, t, parent)
  {
    hide CompareFrom;
    if parent.Some? && |t.starts| > order / 2 {
      forall k | k in t.starts ensures Le(key, k) {
        KeyOrder(key, lo.value, k);
      }
    }
  }

  lemma {:induction false} DescendIsGood(t: Tree, key: Key, order: nat, depth: nat, lo: Option<Key>, hi: Option<Key>,
    parent: Option<(Tree, nat)>, isAncestorSafe: bool)
    requires Ordered(t, order, depth, lo, hi) && Shaped(t) && IsEdgeTo(parent, t)
    requires isAncestorSafe || (lo.Some? && Le(key, lo.value))
    requires parent.Some? ==> IsFewOrLow(Size(t), order, lo, key)
    requires parent.Some? && t.Leaf? ==> FamilyOf(parent.value.0).InOrder() && |FamilyOf(parent.value.0).rows| > 1
    ensures
      var (leaf, above) := Descend(t, key, order, parent, isAncestorSafe);
      IsGoodCall(t, parent, key, order, leaf, above)
    decreases t
  {
    hide Lt, Le, FamilyOf, StrictlySorted, Within, Strictly;
    if t.Leaf? {
      LeafCall(t, key, order, lo, hi, parent);
    } else {
      var i := Position(t.keys, key);
      var lo', hi' := Lower(lo, t.keys, i), Upper(hi, t.keys, i);
      assert WellFormed(t.kids[i], order, depth - 1, lo', hi', order / 2);
      ChildBound(t, key, order, depth, lo, hi, isAncestorSafe);
      if depth == 1 {
        FamilyInOrder(t, order, lo, hi);
      }
      if IsSafe(t, key, order, isAncestorSafe) {
        DescendIsGood(t.kids[i], key, order, depth - 1, lo', hi', None, true);
      } else {
        DescendIsGood(t.kids[i], key, order, depth - 1, lo', hi', Some((t, i)), !IsEdgeKey(t, key) && isAncestorSafe);
      }
    }
  }

  /** In a well-formed tree the calls that `delete_helper` makes never reach the panics of
      `delete_key`, and a leaf without a parent keeps enough keys unless it is the root. */
  lemma {:induction false} DeleteHelperNeverPanics(t: Tree, key: Key, order: nat, depth: nat, how: Deletion, f': Family)
    requires OddOrder(order) && WellFormed(t, order, depth, None, None, LeastAtRoot(t))
    ensures Shaped(t)
    ensures
      var (leaf, parent) := Descend(t, key, order, None, true);
      match parent
      case None => leaf == t || (leaf.Leaf? && |leaf.starts| > order / 2)
      case Some((node, i)) =>
        node.Inner? && FamilyOf(node).InOrder() && i < |FamilyOf(node).rows| && FamilyOf(node).rows[i] == RowOf(leaf) &&
        (Deletes(FamilyOf(node), i, key, order, how, f') ==> !how.Panicked?)
  {
    hide CompareFrom, Removed;
    OrderedShaped(t, order, depth, None, None);
    DescendIsGood(t, key, order, depth, None, None, None, true);
    var (leaf, parent) := Descend(t, key, order, None, true);
    if parent.Some? && |leaf.starts| > order / 2 {
      var n := |leaf.starts| - 1;
      assert Lt(leaf.starts[0], leaf.starts[n]) && leaf.starts[0] in leaf.starts;
      KeyOrder(leaf.starts[0], leaf.starts[n], leaf.starts[0]);
    }
  }

  /** Called directly with a parent, `delete_key` can panic: the last leaf loses its larger key. */
  lemma {:induction false} DirectCallPanics()
    ensures
      var f := Family([[5]], [Row([[1], [2]], [[1], [2]]), Row([[5], [6]], [[5], [6]])]);
      f.InOrder() && f.Drop(1, 1).InOrder() && Deletes(f, 1, [6], 3, Panicked, f.Drop(1, 1))
  {
    var rows := [Row([[1], [2]], [[1], [2]]), Row([[5], [6]], [[5], [6]])];
    var f := Family([[5]], rows);
    assert rows[0].Tidy() && rows[1].Tidy();
    assert InSlot(rows[0].starts, [[5]], 0) && InSlot(rows[1].starts, [[5]], 1);
    DropKeeps(f, 1, 1);
    DropDeletes(f, 1, 1, 3, Panicked);
  }
}
