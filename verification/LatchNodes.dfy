/** The nodes of the latch B+ tree and what they do to themselves and to their neighbours. */
module LatchNodes {
  import opened Keys
  import opened LatchTrees
  import opened LatchLines
  import opened LatchRows

  datatype Node = Internal(inner: InternalNode) | LeafRef(leaf: LeafNode)

  /** How a node with too few keys has got new ones. */
  datatype Rebalanced = NotNeeded | FromLeft | FromRight | Merged

  /** On which side of its separator a child hangs: the last child of a node hangs on the right. */
  datatype Direction = OnLeft | OnRight

  /** Where a leaf hangs. */
  datatype ParentInfo = ParentInfo(parent: InternalNode, edgeIdx: nat, dir: Direction)

  /** A parent has the same children after a deletion, or one less if leaves were joined. */
  predicate HasChildren(edges: seq<Node>, edgeIdx: nat, how: Deletion, edges': seq<Node>) {
    if how.Joined? then
      var gone := if edgeIdx > 0 then edgeIdx else 1;
      gone < |edges| && edges' == RemoveAt(edges, gone)
    else edges' == edges
  }

  /** The parent and its leaves. */
  ghost function Around(info: Option<ParentInfo>): set<object>
    reads if info.Some? then {info.value.parent} else {}
  {
    match info
    case None => {}
    case Some(i) => {i.parent} + i.parent.Leaves()
  }

  class InternalNode {
    var keys: seq<Key>
    var edges: seq<Node>
    const order: nat

    constructor (order: nat, keys: seq<Key>, edges: seq<Node>)
      ensures this.order == order && this.keys == keys && this.edges == edges
    {
      this.order, this.keys, this.edges := order, keys, edges;
    }

    predicate HasCapacity()
      reads this
    {
      |keys| < order
    }

    /** Inserts a split-off node, right of its smallest key. */
    method InsertNode(node: Node, insertKey: Key)
      requires |edges| == |keys| + 1
      modifies this
      ensures
        var pos := Position(old(keys), insertKey);
        keys == InsertAt(old(keys), pos, insertKey) && edges == InsertAt(old(edges), pos + 1, node)
    {
      var pos := FindPosition(keys, insertKey);
      keys := keys[..pos] + [insertKey] + keys[pos..];
      edges := edges[..pos + 1] + [node] + edges[pos + 1..];
    }

    /** Moves the upper half to a new node and returns the key between the halves. */
    method Split() returns (right: InternalNode, median: Key)
      requires |keys| > 0 && |edges| == |keys| + 1
      modifies this
      ensures fresh(right) && right.order == order
      ensures
        var mid := |old(keys)| / 2;
        median == old(keys)[mid] && keys == old(keys)[..mid] && edges == old(edges)[..mid + 1] &&
        right.keys == old(keys)[mid + 1..] && right.edges == old(edges)[mid + 1..]
    {
      var mid := |keys| / 2;
      var rightKeys := keys[mid..];
      var rightEdges := edges[mid + 1..];
      keys, edges := keys[..mid], edges[..mid + 1];
      median := rightKeys[0];
      right := new InternalNode(order, rightKeys[1..], rightEdges);
    }

    // ---------- rebalancing ----------

    predicate IsUnderflow()
      reads this
    {
      |keys| < order / 2
    }

    /** Whether a sibling can take a key away. */
    predicate HasSpareKey()
      reads this
    {
      |keys| > order / 2
    }

    /** One edge more than keys. */
    predicate Alternates()
      reads this
    {
      |edges| == |keys| + 1
    }

    /** Edges and keys from left to right. */
    function GetLine(): seq<Item<Node>>
      requires Alternates()
      reads this
    {
      Line(keys, edges)
    }

    /** The children are distinct leaves. */
    ghost predicate IsOverLeaves(leafOrder: nat)
      reads this
    {
      Alternates() &&
      (forall j :: 0 <= j < |edges| ==> edges[j].LeafRef? && edges[j].leaf.order == leafOrder) &&
      forall i, j :: 0 <= i < j < |edges| ==> edges[i] != edges[j]
    }

    ghost function Leaves(): set<LeafNode>
      reads this
    {
      set j | 0 <= j < |edges| && edges[j].LeafRef? :: edges[j].leaf
    }

    ghost function Rows(): (rows: seq<Row>)
      requires forall j :: 0 <= j < |edges| ==> edges[j].LeafRef?
      reads this, Leaves()
      ensures |rows| == |edges|
      ensures forall j :: 0 <= j < |rows| ==> rows[j] == edges[j].leaf.GetRow()
    {
      seq(|edges|, j requires 0 <= j < |edges| && edges[j].LeafRef? reads this, Leaves() => edges[j].leaf.GetRow())
    }

    /** The separators and the leaves between them. */
    ghost function GetFamily(): Family
      requires forall j :: 0 <= j < |edges| ==> edges[j].LeafRef?
      reads this, Leaves()
    {
      Family(keys, Rows())
    }

    /** Takes the last edge of the left sibling, if it has one to spare. */
    method StealFromLeftSibling(left: InternalNode, parent: InternalNode, edgeIdx: nat) returns (isStolen: bool)
      requires left != this && parent != this && parent != left
      requires Alternates() && left.Alternates() && 0 < edgeIdx <= |parent.keys|
      modifies this, left, parent
      ensures isStolen <==> old(left.HasSpareKey())
      ensures parent.edges == old(parent.edges) && Alternates() && left.Alternates()
      ensures |parent.keys| == old(|parent.keys|) &&
        parent.keys == old(parent.keys)[edgeIdx - 1 := parent.keys[edgeIdx - 1]]
      ensures left.GetLine() + [Sep(parent.keys[edgeIdx - 1])] + GetLine() ==
        old(left.GetLine() + [Sep(parent.keys[edgeIdx - 1])] + GetLine())
      ensures !isStolen ==>
        keys == old(keys) && edges == old(edges) && left.keys == old(left.keys) &&
        left.edges == old(left.edges) && parent.keys == old(parent.keys)
      ensures |left.keys| == old(|left.keys|) - (if isStolen then 1 else 0)
      ensures |keys| == old(|keys|) + (if isStolen then 1 else 0)
    {
      if !left.HasSpareKey() {
        return false;
      }
      var parentSplitKey := parent.keys[edgeIdx - 1];
      var stolenEdge := left.edges[|left.edges| - 1];
      var stolenKey := left.keys[|left.keys| - 1];
      LineShift(left.keys[..|left.keys| - 1], left.edges[..|left.edges| - 1], stolenKey, stolenEdge,
                parentSplitKey, keys, edges);
      assert left.keys == left.keys[..|left.keys| - 1] + [stolenKey];
      assert left.edges == left.edges[..|left.edges| - 1] + [stolenEdge];
      left.edges := left.edges[..|left.edges| - 1];
      left.keys := left.keys[..|left.keys| - 1];
      keys := [parentSplitKey] + keys;
      edges := [stolenEdge] + edges;
      parent.keys := parent.keys[edgeIdx - 1 := stolenKey];
      return true;
    }

    /** Takes the first edge of the right sibling, if it has one to spare. */
    method StealFromRightSibling(right: InternalNode, parent: InternalNode, edgeIdx: nat) returns (isStolen: bool)
      requires right != this && parent != this && parent != right
      requires Alternates() && right.Alternates() && edgeIdx < |parent.keys|
      modifies this, right, parent
      ensures isStolen <==> old(right.HasSpareKey())
      ensures parent.edges == old(parent.edges) && Alternates() && right.Alternates()
      ensures |parent.keys| == old(|parent.keys|) && parent.keys == old(parent.keys)[edgeIdx := parent.keys[edgeIdx]]
      ensures GetLine() + [Sep(parent.keys[edgeIdx])] + right.GetLine() ==
        old(GetLine() + [Sep(parent.keys[edgeIdx])] + right.GetLine())
      ensures !isStolen ==>
        keys == old(keys) && edges == old(edges) && right.keys == old(right.keys) &&
        right.edges == old(right.edges) && parent.keys == old(parent.keys)
      ensures |right.keys| == old(|right.keys|) - (if isStolen then 1 else 0)
      ensures |keys| == old(|keys|) + (if isStolen then 1 else 0)
    {
      if !right.HasSpareKey() {
        return false;
      }
      var parentSplitKey := parent.keys[edgeIdx];
      var stolenEdge := right.edges[0];
      var stolenKey := right.keys[0];
      LineShift(keys, edges, parentSplitKey, stolenEdge, stolenKey, right.keys[1..], right.edges[1..]);
      assert right.keys == [stolenKey] + right.keys[1..];
      assert right.edges == [stolenEdge] + right.edges[1..];
      right.edges := right.edges[1..];
      right.keys := right.keys[1..];
      keys := keys + [parentSplitKey];
      edges := edges + [stolenEdge];
      parent.keys := parent.keys[edgeIdx := stolenKey];
      return true;
    }

    /** The node is the child at `edgeIdx` of its parent, between its siblings. */
    ghost predicate IsChildOf(parent: InternalNode, edgeIdx: nat)
      reads this, parent, Siblings(parent, edgeIdx)
    {
      parent != this && parent.Alternates() && Alternates() && edgeIdx < |parent.edges| &&
      parent.edges[edgeIdx] == Internal(this) &&
      (edgeIdx > 0 ==>
        parent.edges[edgeIdx - 1].Internal? &&
        var left := parent.edges[edgeIdx - 1].inner;
        left != this && left != parent && left.Alternates()) &&
      (edgeIdx + 1 < |parent.edges| ==>
        parent.edges[edgeIdx + 1].Internal? &&
        var right := parent.edges[edgeIdx + 1].inner;
        right != this && right != parent && right.Alternates()) &&
      (0 < edgeIdx && edgeIdx + 1 < |parent.edges| ==> parent.edges[edgeIdx - 1] != parent.edges[edgeIdx + 1])
    }

    ghost function Siblings(parent: InternalNode, edgeIdx: nat): set<object>
      reads parent
    {
      (if 0 < edgeIdx <= |parent.edges| && parent.edges[edgeIdx - 1].Internal?
       then {parent.edges[edgeIdx - 1].inner as object} else {}) +
      (if edgeIdx + 1 < |parent.edges| && parent.edges[edgeIdx + 1].Internal?
       then {parent.edges[edgeIdx + 1].inner as object} else {})
    }

    /** Joins the node with its left sibling or, if there is none, with its right one; the
        separator between them comes down from the parent. */
    method MergeWithSibling(parent: InternalNode, edgeIdx: nat)
      requires IsChildOf(parent, edgeIdx)
      modifies this, parent, Siblings(parent, edgeIdx)
      ensures edgeIdx > 0 ==>
        var left := old(parent.edges[edgeIdx - 1].inner);
        left.Alternates() && left.GetLine() == old(left.GetLine() + [Sep(parent.keys[edgeIdx - 1])] + GetLine()) &&
        |left.keys| == old(|left.keys| + |keys|) + 1 &&
        parent.keys == RemoveAt(old(parent.keys), edgeIdx - 1) && parent.edges == RemoveAt(old(parent.edges), edgeIdx)
      ensures edgeIdx == 0 && old(|parent.edges|) > 1 ==>
        var right := old(parent.edges[1].inner);
        Alternates() && GetLine() == old(GetLine() + [Sep(parent.keys[0])] + right.GetLine()) &&
        |keys| == old(|keys| + |right.keys|) + 1 &&
        parent.keys == RemoveAt(old(parent.keys), 0) && parent.edges == RemoveAt(old(parent.edges), 1)
      ensures old(|parent.edges|) == 1 ==>
        keys == old(keys) && edges == old(edges) &&
        parent.keys == old(parent.keys) && parent.edges == old(parent.edges)
    {
      if edgeIdx > 0 {
        var left := parent.edges[edgeIdx - 1].inner;
        var parentSplitKey := parent.keys[edgeIdx - 1];
        LineConcat(left.keys, left.edges, parentSplitKey, keys, edges);
        parent.keys := parent.keys[..edgeIdx - 1] + parent.keys[edgeIdx..];
        left.keys := left.keys + [parentSplitKey] + keys;
        keys := [];
        left.edges := left.edges + edges;
        edges := [];
        parent.edges := parent.edges[..edgeIdx] + parent.edges[edgeIdx + 1..];
      } else if edgeIdx + 1 < |parent.edges| {
        var right := parent.edges[edgeIdx + 1].inner;
        var parentSplitKey := parent.keys[edgeIdx];
        LineConcat(keys, edges, parentSplitKey, right.keys, right.edges);
        parent.keys := parent.keys[..edgeIdx] + parent.keys[edgeIdx + 1..];
        keys := keys + [parentSplitKey] + right.keys;
        right.keys := [];
        edges := edges + right.edges;
        right.edges := [];
        parent.edges := parent.edges[..edgeIdx + 1] + parent.edges[edgeIdx + 2..];
      }
    }

    /** Repairs a node with too few keys: a key from the left or else from the right sibling, or
        else a merger. For an odd order and a node that lacks one key this restores the bounds. */
    method DealWithUnderflow(parent: InternalNode, edgeIdx: nat) returns (how: Rebalanced)
      requires IsChildOf(parent, edgeIdx)
      modifies this, parent, Siblings(parent, edgeIdx)
      ensures how.NotNeeded? <==> old(!IsUnderflow())
      ensures how.NotNeeded? ==>
        keys == old(keys) && edges == old(edges) && parent.keys == old(parent.keys) &&
        parent.edges == old(parent.edges)
      ensures how.FromLeft? <==> old(IsUnderflow() && edgeIdx > 0 && parent.edges[edgeIdx - 1].inner.HasSpareKey())
      ensures how.FromLeft? ==>
        var left := old(parent.edges[edgeIdx - 1].inner);
        parent.edges == old(parent.edges) && |parent.keys| == old(|parent.keys|) && Alternates() && left.Alternates() &&
        left.GetLine() + [Sep(parent.keys[edgeIdx - 1])] + GetLine() ==
          old(left.GetLine() + [Sep(parent.keys[edgeIdx - 1])] + GetLine()) &&
        |left.keys| == old(|left.keys|) - 1 && |keys| == old(|keys|) + 1
      ensures how.FromRight? <==> old(IsUnderflow() &&
        !(edgeIdx > 0 && parent.edges[edgeIdx - 1].inner.HasSpareKey()) &&
        edgeIdx + 1 < |parent.edges| && parent.edges[edgeIdx + 1].inner.HasSpareKey())
      ensures how.FromRight? ==>
        var right := old(parent.edges[edgeIdx + 1].inner);
        parent.edges == old(parent.edges) && |parent.keys| == old(|parent.keys|) && Alternates() &&
        right.Alternates() &&
        GetLine() + [Sep(parent.keys[edgeIdx])] + right.GetLine() ==
          old(GetLine() + [Sep(parent.keys[edgeIdx])] + right.GetLine()) &&
        |right.keys| == old(|right.keys|) - 1 && |keys| == old(|keys|) + 1
      ensures how.Merged? && edgeIdx > 0 ==>
        var left := old(parent.edges[edgeIdx - 1].inner);
        left.Alternates() && left.GetLine() == old(left.GetLine() + [Sep(parent.keys[edgeIdx - 1])] + GetLine()) &&
        parent.keys == RemoveAt(old(parent.keys), edgeIdx - 1) &&
        parent.edges == RemoveAt(old(parent.edges), edgeIdx) &&
        (OddOrder(order) && left.order == order && old(|keys|) == order / 2 - 1 && old(|left.keys|) >= order / 2 ==>
          order / 2 <= |left.keys| <= order - 1)
      ensures how.Merged? && |old(parent.edges)| == 1 ==>
        keys == old(keys) && edges == old(edges) && parent.keys == old(parent.keys) && parent.edges == old(parent.edges)
      ensures how.Merged? && edgeIdx == 0 && |old(parent.edges)| > 1 ==>
        var right := old(parent.edges[1].inner);
        Alternates() && GetLine() == old(GetLine() + [Sep(parent.keys[0])] + right.GetLine()) &&
        parent.keys == RemoveAt(old(parent.keys), 0) && parent.edges == RemoveAt(old(parent.edges), 1) &&
        (OddOrder(order) && right.order == order && old(|keys|) == order / 2 - 1 && old(|right.keys|) >= order / 2 ==>
          order / 2 <= |keys| <= order - 1)
    {
      if !IsUnderflow() {
        return NotNeeded;
      }
      if edgeIdx > 0 {
        var isStolen := StealFromLeftSibling(parent.edges[edgeIdx - 1].inner, parent, edgeIdx);
        if isStolen {
          return FromLeft;
        }
      }
      if edgeIdx + 1 < |parent.edges| {
        var isStolen := StealFromRightSibling(parent.edges[edgeIdx + 1].inner, parent, edgeIdx);
        if isStolen {
          return FromRight;
        }
      }
      MergeWithSibling(parent, edgeIdx);
      return Merged;
    }
  }

  class LeafNode {
    var startKeys: seq<Key>
    var endKeys: seq<Key>
    const order: nat

    constructor (order: nat, startKeys: seq<Key>, endKeys: seq<Key>)
      ensures this.order == order && this.startKeys == startKeys && this.endKeys == endKeys
    {
      this.order, this.startKeys, this.endKeys := order, startKeys, endKeys;
    }

    predicate HasCapacity()
      reads this
    {
      |startKeys| < order
    }

    /** Inserts a range unless its start key is taken. A refusal panics unless it concerns the first
        key, the only one that has a list of waiters. */
    method InsertRange(range: Range) returns (acquired: bool, panics: bool)
      requires |startKeys| == |endKeys|
      modifies this
      ensures acquired <==> range.startKey !in old(startKeys)
      ensures panics <==> range.startKey in old(startKeys) && range.startKey != old(startKeys)[0]
      ensures
        if acquired then
          var pos := Position(old(startKeys), range.startKey);
          startKeys == InsertAt(old(startKeys), pos, range.startKey) &&
          endKeys == InsertAt(old(endKeys), pos, range.endKey)
        else startKeys == old(startKeys) && endKeys == old(endKeys)
    {
      if range.startKey in startKeys {
        return false, range.startKey != startKeys[0];
      }
      var pos := FindPosition(startKeys, range.startKey);
      startKeys := startKeys[..pos] + [range.startKey] + startKeys[pos..];
      endKeys := endKeys[..pos] + [range.endKey] + endKeys[pos..];
      return true, false;
    }

    /** Moves the upper half to a new leaf and returns the smallest key there. */
    method Split() returns (right: LeafNode, median: Key)
      requires |startKeys| == |endKeys| > 0
      modifies this
      ensures fresh(right) && right.order == order
      ensures
        var mid := |old(startKeys)| / 2;
        median == old(startKeys)[mid] && startKeys == old(startKeys)[..mid] && endKeys == old(endKeys)[..mid] &&
        right.startKeys == old(startKeys)[mid..] && right.endKeys == old(endKeys)[mid..]
    {
      var mid := |startKeys| / 2;
      var rightStartKeys, rightEndKeys := startKeys[mid..], endKeys[mid..];
      startKeys, endKeys := startKeys[..mid], endKeys[..mid];
      median := rightStartKeys[0];
      right := new LeafNode(order, rightStartKeys, rightEndKeys);
    }

    // ---------- deletion ----------

    predicate IsUnderflow()
      reads this
    {
      |startKeys| < order / 2
    }

    predicate HasSpareKey()
      reads this
    {
      |startKeys| > order / 2
    }

    function GetRow(): Row
      reads this
    {
      Row(startKeys, endKeys)
    }

    /** Removes the range that starts at `key`, which was at `pos`. */
    method RemoveKey(key: Key) returns (isDeleted: bool, ghost pos: nat)
      requires |startKeys| == |endKeys|
      modifies this
      ensures isDeleted <==> key in old(startKeys)
      ensures isDeleted ==> pos == IndexOf(old(startKeys), key) && GetRow() == old(GetRow()).Drop(pos)
      ensures !isDeleted ==> GetRow() == old(GetRow())
    {
      for i := 0 to |startKeys|
        invariant GetRow() == old(GetRow()) && key !in startKeys[..i]
      {
        if startKeys[i] == key {
          startKeys := startKeys[..i] + startKeys[i + 1..];
          endKeys := endKeys[..i] + endKeys[i + 1..];
          return true, i;
        }
      }
      return false, 0;
    }

    /** The leaf is the child at `edgeIdx` of a parent whose leaves respect the separators. */
    ghost predicate IsLeafOf(parent: InternalNode, edgeIdx: nat)
      reads parent, parent.Leaves()
    {
      parent.IsOverLeaves(order) && parent.GetFamily().InOrder() &&
      edgeIdx < |parent.edges| && parent.edges[edgeIdx] == LeafRef(this)
    }

    /** Takes the largest range of the left sibling, if it has one to spare. */
    method StealFromLeftLeafSibling(left: LeafNode, parent: InternalNode, edgeIdx: nat) returns (isStolen: bool)
      requires IsLeafOf(parent, edgeIdx) && edgeIdx > 0 && parent.edges[edgeIdx - 1] == LeafRef(left) && order >= 2
      modifies this, left, parent`keys
      ensures isStolen <==> old(left.HasSpareKey())
      ensures IsLeafOf(parent, edgeIdx)
      ensures parent.GetFamily() ==
        if isStolen then old(parent.GetFamily().ShiftRight(edgeIdx - 1))
        else old(parent.GetFamily())
    {
      hide CompareFrom, Position, StrictlySorted, InSlot;
      ghost var family := parent.GetFamily();
      if !left.HasSpareKey() {
        return false;
      }
      ShiftRightKeeps(family, edgeIdx - 1);
      assert family.rows[edgeIdx] == GetRow() && family.rows[edgeIdx - 1] == left.GetRow();
      var n := |left.startKeys| - 1;
      var stolenRange := Range(left.startKeys[n], left.endKeys[n]);
      left.startKeys, left.endKeys := left.startKeys[..n], left.endKeys[..n];
      assert GetRow() == family.rows[edgeIdx];
      var _, _ := InsertRange(stolenRange);
      parent.keys := parent.keys[edgeIdx - 1 := stolenRange.startKey];
      assert GetRow() == family.ShiftRight(edgeIdx - 1).rows[edgeIdx];
      assert left.GetRow() == family.ShiftRight(edgeIdx - 1).rows[edgeIdx - 1];
      assert parent.Rows() == family.ShiftRight(edgeIdx - 1).rows;
      return true;
    }

    /** The separator that a steal from the right updates. */
    function KeyIdx(edgeIdx: nat, dir: Direction): nat
      requires dir.OnRight? ==> edgeIdx > 0
    {
      if dir.OnLeft? then edgeIdx else edgeIdx - 1
    }

    /** Takes the smallest range of the right sibling, if it has one to spare, and returns its key.
        For a leaf that hangs on the left of its separator this keeps the separators valid. */
    method StealFromRightLeafSibling(right: LeafNode, parent: InternalNode, edgeIdx: nat, dir: Direction)
      returns (stolen: Option<Key>)
      requires IsLeafOf(parent, edgeIdx) && edgeIdx + 1 < |parent.edges| && parent.edges[edgeIdx + 1] == LeafRef(right)
      requires order >= 2 && (dir.OnRight? ==> edgeIdx > 0)
      modifies this, right, parent`keys
      ensures stolen.Some? <==> old(right.HasSpareKey())
      ensures stolen.Some? ==> old(right.startKeys) != [] && stolen.value == old(right.startKeys)[0]
      ensures parent.IsOverLeaves(order)
      ensures
        var f, f' := old(parent.GetFamily()), parent.GetFamily();
        if stolen.None? then f' == f
        else
          f'.rows == f.ShiftLeft(edgeIdx).rows &&
          f'.separators == f.separators[KeyIdx(edgeIdx, dir) := f'.rows[edgeIdx + 1].starts[0]]
      ensures dir.OnLeft? ==>
        IsLeafOf(parent, edgeIdx) && (stolen.Some? ==> parent.GetFamily() == old(parent.GetFamily()).ShiftLeft(edgeIdx))
    {
      hide CompareFrom, Position, StrictlySorted, InSlot;
      ghost var family := parent.GetFamily();
      if !right.HasSpareKey() {
        return None;
      }
      ShiftLeftKeeps(family, edgeIdx);
      assert family.rows[edgeIdx] == GetRow() && family.rows[edgeIdx + 1] == right.GetRow();
      var stolenRange := Range(right.startKeys[0], right.endKeys[0]);
      right.startKeys, right.endKeys := right.startKeys[1..], right.endKeys[1..];
      assert right.GetRow() == family.rows[edgeIdx + 1].Slice(1, |family.rows[edgeIdx + 1].starts|);
      assert GetRow() == family.rows[edgeIdx];
      var _, _ := InsertRange(stolenRange);
      parent.keys := parent.keys[KeyIdx(edgeIdx, dir) := right.startKeys[0]];
      assert GetRow() == family.ShiftLeft(edgeIdx).rows[edgeIdx];
      assert right.GetRow() == family.ShiftLeft(edgeIdx).rows[edgeIdx + 1];
      assert parent.Rows() == family.ShiftLeft(edgeIdx).rows;
      return Some(stolenRange.startKey);
    }

    /** Appends the right sibling and takes it out of the parent, with the separator between them. */
    method Absorb(right: LeafNode, parent: InternalNode, edgeIdx: nat)
      requires IsLeafOf(parent, edgeIdx) && edgeIdx + 1 < |parent.edges| && parent.edges[edgeIdx + 1] == LeafRef(right)
      modifies this, right, parent
      ensures parent.IsOverLeaves(order)
      ensures parent.edges == RemoveAt(old(parent.edges), edgeIdx + 1)
      ensures parent.GetFamily() == old(parent.GetFamily()).Join(edgeIdx)
    {
      hide CompareFrom, Position, StrictlySorted, InSlot;
      ghost var family, children := parent.GetFamily(), parent.edges;
      assert family.rows[edgeIdx] == GetRow() && family.rows[edgeIdx + 1] == right.GetRow();
      startKeys, right.startKeys := startKeys + right.startKeys, [];
      endKeys, right.endKeys := endKeys + right.endKeys, [];
      parent.edges := parent.edges[..edgeIdx + 1] + parent.edges[edgeIdx + 2..];
      parent.keys := parent.keys[..edgeIdx] + parent.keys[edgeIdx + 1..];
      assert GetRow() == family.Join(edgeIdx).rows[edgeIdx];
      assert parent.GetFamily() == family.Join(edgeIdx);
    }

    /** Joins the leaf with its left sibling or, if there is none, with its right one. For an only
        child the program panics. */
    method MergeNode(parent: InternalNode, edgeIdx: nat) returns (isMerged: bool)
      requires IsLeafOf(parent, edgeIdx)
      modifies this, parent, parent.Leaves()
      ensures parent.IsOverLeaves(order)
      ensures isMerged <==> |old(parent.edges)| > 1
      ensures
        var at := if edgeIdx > 0 then edgeIdx - 1 else 0;
        if isMerged then
          parent.edges == RemoveAt(old(parent.edges), at + 1) && parent.GetFamily() == old(parent.GetFamily()).Join(at)
        else
          parent.edges == old(parent.edges) && parent.GetFamily() == old(parent.GetFamily())
    {
      if edgeIdx > 0 {
        var left := parent.edges[edgeIdx - 1].leaf;
        left.Absorb(this, parent, edgeIdx - 1);
      } else if edgeIdx + 1 < |parent.edges| {
        Absorb(parent.edges[edgeIdx + 1].leaf, parent, edgeIdx);
      } else {
        return false;
      }
      return true;
    }

    /** The next larger key in the leaf or else the first one of the right sibling. The result
        is `None` where the program panics: there is no such sibling, or it has no keys. */
    method FindNextLargestKey(key: Key, rightSibling: Option<LeafNode>) returns (next: Option<Key>)
      ensures
        var pos := Position(startKeys, key);
        next == if pos < |startKeys| then Some(startKeys[pos])
                else if rightSibling.Some? &&
                rightSibling.value.startKeys != [] then Some(rightSibling.value.startKeys[0])
                else None
    {
      var idx := FindPosition(startKeys, key);
      if idx < |startKeys| {
        return Some(startKeys[idx]);
      }
      match rightSibling {
        case None => return None;
        case Some(right) =>
          return if right.startKeys == [] then None else Some(right.startKeys[0]);
      }
    }

    /** Repairs a leaf with too few keys: takes a range from the left or else from the right
        sibling, or else joins a sibling. */
    method Refill(parent: InternalNode, edgeIdx: nat, dir: Direction) returns (how: Deletion)
      requires IsLeafOf(parent, edgeIdx) && IsUnderflow()
      requires dir.OnLeft? <==> edgeIdx < |parent.keys|
      modifies this, parent, parent.Leaves()
      ensures parent.IsOverLeaves(order)
      ensures parent.GetFamily() == Refilled(old(parent.GetFamily()), edgeIdx, order)
      ensures HowRefilled(old(parent.GetFamily()), edgeIdx, order, how)
      ensures how.StoleRight? ==> startKeys != [] && how.stolen == startKeys[|startKeys| - 1]
      ensures HasChildren(old(parent.edges), edgeIdx, how, parent.edges)
    {
      hide CompareFrom, Position, StrictlySorted, InSlot, Flat;
      if edgeIdx > 0 {
        var isStolen := StealFromLeftLeafSibling(parent.edges[edgeIdx - 1].leaf, parent, edgeIdx);
        if isStolen {
          return StoleLeft;
        }
      }
      if edgeIdx + 1 < |parent.edges| {
        var stolen := StealFromRightLeafSibling(parent.edges[edgeIdx + 1].leaf, parent, edgeIdx, dir);
        if stolen.Some? {
          assert GetRow() == parent.Rows()[edgeIdx];
          return StoleRight(stolen.value);
        }
      }
      var isMerged := MergeNode(parent, edgeIdx);
      return if isMerged then Joined else Panicked;
    }

    /** What replaces the deleted key wherever an ancestor uses it as a separator. */
    method FindReplacement(key: Key, parent: InternalNode, edgeIdx: nat, ghost family: Family, ghost pos: nat)
      returns (how: Deletion)
      requires IsLeafOf(parent, edgeIdx) && !IsUnderflow()
      requires family.InOrder() && edgeIdx < |family.rows| && pos < |family.rows[edgeIdx].starts|
      requires parent.GetFamily() == family.Drop(edgeIdx, pos) && key == family.rows[edgeIdx].starts[pos]
      ensures how.Kept? || how.Panicked?
      ensures how.Kept? ==> IsSuccessor(parent.GetFamily().rows, key, how.next)
      ensures how.Panicked? <==>
        key == family.rows[edgeIdx].starts[|startKeys|] &&
        (edgeIdx + 1 == |family.rows| || family.rows[edgeIdx + 1].starts == [])
    {
      hide CompareFrom, Position, StrictlySorted, InSlot, IsSuccessor;
      var right := if edgeIdx + 1 < |parent.edges| then Some(parent.edges[edgeIdx + 1].leaf) else None;
      var next := FindNextLargestKey(key, right);
      SuccessorAfterDrop(family, edgeIdx, pos);
      ghost var rows' := family.Drop(edgeIdx, pos).rows;
      assert parent.Rows() == rows' && GetRow() == rows'[edgeIdx] == family.rows[edgeIdx].Drop(pos);
      assert right.Some? ==> right.value.GetRow() == rows'[edgeIdx + 1] == family.rows[edgeIdx + 1];
      assert pos < |startKeys| ==> IsSuccessor(rows', key, startKeys[pos]);
      assert pos == |startKeys| && next.Some? ==> IsSuccessor(rows', key, next.value);
      return match next case None => Panicked case Some(k) => Kept(k);
    }

    /** Deletes a key from a leaf with a parent and refills the leaf if too few are left. */
    method DeleteBelow(key: Key, parent: InternalNode, edgeIdx: nat, dir: Direction) returns (how: Deletion)
      requires IsLeafOf(parent, edgeIdx)
      requires dir.OnLeft? <==> edgeIdx < |parent.keys|
      modifies this, parent, parent.Leaves()
      ensures parent.IsOverLeaves(order)
      ensures HasChildren(old(parent.edges), edgeIdx, how, parent.edges)
      ensures how.StoleRight? ==> startKeys != [] && how.stolen == startKeys[|startKeys| - 1]
      ensures Deletes(old(parent.GetFamily()), edgeIdx, key, order, how, parent.GetFamily())
      ensures parent.GetFamily() == WithoutKey(old(parent.GetFamily()), edgeIdx, key, order)
    {
      hide CompareFrom, Position, StrictlySorted, InSlot, Removed, Flat, OddOrder;
      hide Refilled, Deletes, HowRefilled, IsSuccessor, IndexOf;
      ghost var family := parent.GetFamily();
      assert family.rows[edgeIdx] == GetRow();
      var isDeleted, pos := RemoveKey(key);
      if !isDeleted {
        assert parent.GetFamily() == family;
        NothingDeleted(family, edgeIdx, key, order);
        return NotFound;
      }
      DropKeeps(family, edgeIdx, pos);
      assert family.rows[edgeIdx].starts[pos] == key && parent.GetFamily() == family.Drop(edgeIdx, pos);
      if !IsUnderflow() {
        how := FindReplacement(key, parent, edgeIdx, family, pos);
        DropDeletes(family, edgeIdx, pos, order, how);
        return;
      }
      how := Refill(parent, edgeIdx, dir);
      RefillDeletes(family, edgeIdx, pos, order, how);
    }

    /** Deletes a key. A leaf without a parent is allowed to run empty. */
    method DeleteKey(key: Key, info: Option<ParentInfo>) returns (how: Deletion)
      requires info.Some? ==>
        IsLeafOf(info.value.parent, info.value.edgeIdx) &&
        (info.value.dir.OnLeft? <==> info.value.edgeIdx < |info.value.parent.keys|)
      requires |startKeys| == |endKeys|
      modifies this, Around(info)
      ensures match info
        case None =>
          (how.AtRoot? <==> key in old(startKeys)) && (how.NotFound? <==> key !in old(startKeys)) &&
          GetRow() == if how.AtRoot? then old(GetRow()).Drop(IndexOf(old(startKeys), key)) else old(GetRow())
        case Some(ParentInfo(parent, edgeIdx, _)) =>
          parent.IsOverLeaves(order) && HasChildren(old(parent.edges), edgeIdx, how, parent.edges) &&
          Deletes(old(parent.GetFamily()), edgeIdx, key, order, how, parent.GetFamily()) &&
          parent.GetFamily() == WithoutKey(old(parent.GetFamily()), edgeIdx, key, order) &&
          (how.StoleRight? ==> startKeys != [] && how.stolen == startKeys[|startKeys| - 1])
    {
      hide CompareFrom, Deletes;
      match info {
        case None =>
          var isDeleted, _ := RemoveKey(key);
          return if isDeleted then AtRoot else NotFound;
        case Some(ParentInfo(parent, edgeIdx, dir)) =>
          how := DeleteBelow(key, parent, edgeIdx, dir);
      }
    }
  }

  /** The loop that looks for the first key greater than the given one. */
  method FindPosition(keys: seq<Key>, key: Key) returns (pos: nat)
    ensures pos == Position(keys, key)
  {
    pos := |keys|;
    for i := 0 to |keys|
      invariant pos == |keys|
      invariant forall j :: 0 <= j < i ==> !Lt(key, keys[j])
    {
      if Lt(key, keys[i]) {
        pos := i;
        break;
      }
    }
    PositionUnique(keys, key, pos);
  }
}
