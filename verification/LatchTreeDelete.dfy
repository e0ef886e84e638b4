/** The whole of `delete` on the latch B+ tree as a value, for any depth: the way down, the leaf, and
    what the way back up does to inner nodes and their parents. */
module LatchTreeDeletes {
  import opened Keys
  import opened LatchTrees
  import opened LatchLines
  import opened LatchRows
  import opened LatchDeletes

  /** The tree after a deletion and the key returned for its ancestors. The program may panic, and
      it may wait for a lock that it holds itself. */
  datatype Outcome = Panics | Hangs | Done(tree: Tree, splitKey: Option<Key>)

  function WithKid(t: Tree, i: nat, kid: Tree): Tree
    requires t.Inner? && i < |t.kids|
  {
    Inner(t.keys, t.kids[i := kid])
  }

  // ---------- leaves ----------

  function LeafWithout(t: Tree, key: Key): Tree
    requires t.Leaf? && Shaped(t)
  {
    if key !in t.starts then t
    else var pos := IndexOf(t.starts, key); Leaf(RemoveAt(t.starts, pos), RemoveAt(t.ends, pos))
  }

  /** A range from a sibling goes into a leaf, by the insertion that also serves requests. */
  function InsertInto(t: Tree, key: Key, end: Key): Option<Tree>
    requires t.Leaf? && Shaped(t)
  {
    if RefusalPanics(t, key) then None
    else if key in t.starts then Some(t)
    else
      var pos := Position(t.starts, key);
      Some(Leaf(InsertAt(t.starts, pos, key), InsertAt(t.ends, pos, end)))
  }

  /** The last range of the leaf at `i` moves to the next leaf, and the separator follows. */
  function StealLast(p: Tree, i: nat): Outcome
    requires Shaped(p) && p.Inner? && i + 1 < |p.kids| && p.kids[i].Leaf? && p.kids[i + 1].Leaf? && Size(p.kids[i]) > 0
  {
    assert Shaped(p.kids[i]);
    var left, n := p.kids[i], Size(p.kids[i]) - 1;
    match InsertInto(p.kids[i + 1], left.starts[n], left.ends[n])
    case None => Panics
    case Some(leaf) =>
      Done(Inner(p.keys[i := left.starts[n]], p.kids[i := Leaf(left.starts[..n], left.ends[..n])][i + 1 := leaf]), None)
  }

  /** The first range of the leaf after `i` moves to the leaf at `i`; the separator becomes the
      next key, and the stolen key is returned. */
  function StealFirst(p: Tree, i: nat): Outcome
    requires Shaped(p) && p.Inner? && i + 1 < |p.kids| && p.kids[i].Leaf? && p.kids[i + 1].Leaf? &&
      Size(p.kids[i + 1]) > 0
  {
    assert Shaped(p.kids[i + 1]);
    var right := p.kids[i + 1];
    match InsertInto(p.kids[i], right.starts[0], right.ends[0])
    case None => Panics
    case Some(leaf) =>
      if |right.starts| == 1 then Panics
      else
        Done(Inner(p.keys[i := right.starts[1]], p.kids[i := leaf][i + 1 := Leaf(right.starts[1..], right.ends[1..])]),
             Some(right.starts[0]))
  }

  /** `delete_key` once a leaf has too few keys. */
  function RefillLeaf(p: Tree, i: nat, order: nat): Outcome
    requires Shaped(p) && p.Inner? && i < |p.kids| && p.kids[i].Leaf?
  {
    if i > 0 && p.kids[i - 1].Inner? then Panics
    else if i > 0 && Size(p.kids[i - 1]) > order / 2 then StealLast(p, i - 1)
    else if i + 1 < |p.kids| && p.kids[i + 1].Inner? then Panics
    else if i + 1 < |p.kids| && Size(p.kids[i + 1]) > order / 2 then StealFirst(p, i)
    else
      var at := if i > 0 then i - 1 else 0;
      var left, right := p.kids[at], p.kids[at + 1];
      var both := Leaf(left.starts + right.starts, left.ends + right.ends);
      Done(Inner(RemoveAt(p.keys, at), RemoveAt(p.kids, at + 1)[at := both]), None)
  }

  /** The next larger key, in the leaf or else at the beginning of its right neighbour. */
  function NextLarger(p: Tree, i: nat, key: Key): Option<Key>
    requires p.Inner? && i < |p.kids| && p.kids[i].Leaf?
  {
    var pos := Position(p.kids[i].starts, key);
    if pos < |p.kids[i].starts| then Some(p.kids[i].starts[pos])
    else if i + 1 < |p.kids| && p.kids[i + 1].Leaf? && p.kids[i + 1].starts != [] then Some(p.kids[i + 1].starts[0])
    else None
  }

  /** `delete_key` of the leaf at `i` with its parent passed on. */
  function DeleteFromLeaf(p: Tree, i: nat, key: Key, order: nat): Outcome
    requires Shaped(p) && p.Inner? && i < |p.kids| && p.kids[i].Leaf?
  {
    if key !in p.kids[i].starts then Done(p, None)
    else
      var p' := WithKid(p, i, LeafWithout(p.kids[i], key));
      if Size(p'.kids[i]) < order / 2 then RefillLeaf(p', i, order)
      else
        match NextLarger(p', i, key)
        case None => Panics
        case Some(next) => Done(p', Some(next))
  }

  // ---------- inner nodes ----------

  /** `steal_from_left_sibling` for the child at `i`, told that it hangs on edge `j`. */
  function StealEdgeFromLeft(p: Tree, i: nat, j: nat): Outcome
    requires p.Inner? && |p.kids| == |p.keys| + 1 && i < |p.kids| && 0 < j <= |p.kids| && j - 1 != i
    requires p.kids[i].Inner? && p.kids[j - 1].Inner? && p.kids[j - 1].keys != []
  {
    var t, left := p.kids[i], p.kids[j - 1];
    if j - 1 == |p.keys| || left.kids == [] then Panics
    else
      var m, n := |left.keys| - 1, |left.kids| - 1;
      Done(Inner(p.keys[j - 1 := left.keys[m]],
                 p.kids[j - 1 := Inner(left.keys[..m], left.kids[..n])]
                       [i := Inner([p.keys[j - 1]] + t.keys, [left.kids[n]] + t.kids)]), None)
  }

  /** `steal_from_right_sibling` likewise. */
  function StealEdgeFromRight(p: Tree, i: nat, j: nat): Outcome
    requires p.Inner? && |p.kids| == |p.keys| + 1 && i < |p.kids| && j + 1 < |p.kids| && j + 1 != i
    requires p.kids[i].Inner? && p.kids[j + 1].Inner? && p.kids[j + 1].keys != []
  {
    var t, right := p.kids[i], p.kids[j + 1];
    if right.kids == [] then Panics
    else
      Done(Inner(p.keys[j := right.keys[0]],
                 p.kids[j + 1 := Inner(right.keys[1..], right.kids[1..])]
                       [i := Inner(t.keys + [p.keys[j]], t.kids + [right.kids[0]])]), None)
  }

  /** `merge_with_sibling` likewise: a node that is emptied stays where it is, unless its edge is
      the one that is removed. */
  function MergeEdges(p: Tree, i: nat, j: nat): Outcome
    requires p.Inner? && |p.kids| == |p.keys| + 1 && i < |p.kids| && p.kids[i].Inner?
    requires j > 0 ==> j < |p.kids| && j - 1 != i && p.kids[j - 1].Inner?
    requires j == 0 && 1 < |p.kids| ==> i != 1 && p.kids[1].Inner?
  {
    var t := p.kids[i];
    if j > 0 then
      var left := p.kids[j - 1];
      var both := Inner(left.keys + [p.keys[j - 1]] + t.keys, left.kids + t.kids);
      Done(Inner(RemoveAt(p.keys, j - 1), RemoveAt(p.kids[j - 1 := both][i := Inner([], [])], j)), None)
    else if 1 < |p.kids| then
      var right := p.kids[1];
      var both := Inner(t.keys + [p.keys[0]] + right.keys, t.kids + right.kids);
      Done(Inner(RemoveAt(p.keys, 0), RemoveAt(p.kids[i := both], 1)), None)
    else Done(p, None)
  }

  /** `deal_with_underflow` for the child at `i` of `p`. What it is given as the index `j` of its edge
      is the index of the edge below it on which the deletion went down. */
  function DealWithUnderflow(p: Tree, i: nat, j: nat, order: nat): Outcome
    requires p.Inner? && |p.kids| == |p.keys| + 1 && i < |p.kids| && p.kids[i].Inner?
  {
    if Size(p.kids[i]) >= order / 2 then Done(p, None)
    else if j > |p.kids| then Panics
    else if j > 0 && j - 1 == i then Hangs
    else if j > 0 && p.kids[j - 1].Leaf? then Panics
    else if j > 0 && Size(p.kids[j - 1]) > order / 2 then StealEdgeFromLeft(p, i, j)
    else if j == |p.kids| then Panics
    else if j + 1 == i then Hangs
    else if j + 1 < |p.kids| && p.kids[j + 1].Leaf? then Panics
    else if j + 1 < |p.kids| && Size(p.kids[j + 1]) > order / 2 then StealEdgeFromRight(p, i, j)
    else MergeEdges(p, i, j)
  }

  /** On the way back: the key returned from below replaces a key of the parent, at the index at
      which the deletion went down in the child, and then the child is repaired. */
  function BackUp(p: Tree, i: nat, j: nat, keyIdx: nat, splitKey: Option<Key>, order: nat): Outcome
    requires p.Inner? && |p.kids| == |p.keys| + 1 && i < |p.kids| && p.kids[i].Inner?
  {
    if splitKey.Some? && keyIdx >= |p.keys| then Panics
    else
      var p' := if splitKey.Some? then Inner(p.keys[keyIdx := splitKey.value], p.kids) else p;
      match DealWithUnderflow(p', i, j, order)
      case Done(p'', _) => Done(p'', splitKey)
      case other => other
  }

  // ---------- the recursion ----------

  /** `delete_helper` for a node without a parent to pass on. */
  function DeleteAlone(t: Tree, key: Key, order: nat, isAncestorSafe: bool): Outcome
    requires Shaped(t)
    decreases t
  {
    if t.Leaf? then Done(LeafWithout(t, key), None)
    else
      var i := Position(t.keys, key);
      if IsSafe(t, key, order, isAncestorSafe) then
        match DeleteAlone(t.kids[i], key, order, true)
        case Done(kid, splitKey) => Done(WithKid(t, i, kid), splitKey)
        case other => other
      else DeleteUnder(t, i, key, order, !IsEdgeKey(t, key) && isAncestorSafe)
  }

  /** `delete_helper` for the child at `i` with its parent `p`, which may change. */
  function DeleteUnder(p: Tree, i: nat, key: Key, order: nat, isAncestorSafe: bool): (r: Outcome)
    requires Shaped(p) && p.Inner? && i < |p.kids|
    ensures r.Done? ==> r.tree.Inner?
    decreases p.kids[i]
  {
    var t := p.kids[i];
    if t.Leaf? then DeleteFromLeaf(p, i, key, order)
    else
      var j := Position(t.keys, key);
      if IsSafe(t, key, order, isAncestorSafe) then
        match DeleteAlone(t.kids[j], key, order, true)
        case Done(kid, splitKey) => Done(WithKid(p, i, WithKid(t, j, kid)), splitKey)
        case other => other
      else
        match DeleteUnder(t, j, key, order, !IsEdgeKey(t, key) && isAncestorSafe)
        case Done(t', splitKey) => BackUp(WithKid(p, i, t'), i, j, KeyIdx(t, key), splitKey, order)
        case other => other
  }

  /** A root that has no keys left is replaced by its only child. */
  function TreeDelete(t: Tree, key: Key, order: nat): Outcome
    requires Shaped(t)
  {
    match DeleteAlone(t, key, order, true)
    case Done(t', splitKey) =>
      if t'.Leaf? || t'.keys != [] then Done(t', splitKey)
      else if t'.kids == [] then Panics
      else Done(t'.kids[0], splitKey)
    case other => other
  }

  // ---------- families and trees ----------

  function TreeOf(f: Family): Tree {
    Inner(f.separators, seq(|f.rows|, i requires 0 <= i < |f.rows| => Leaf(f.rows[i].starts, f.rows[i].ends)))
  }

  predicate IsOverLeaves(t: Tree) {
    t.Inner? && forall j :: 0 <= j < |t.kids| ==> t.kids[j].Leaf?
  }

  ghost function Minus(rs: set<Range>, key: Key): set<Range> {
    set r | r in rs && r.startKey != key
  }

  lemma {:induction false} RowRanges(starts: seq<Key>, ends: seq<Key>, r: Range)
    requires |starts| == |ends|
    ensures r in LeafRanges(starts, ends) <==> exists j :: 0 <= j < |starts| && r == Range(starts[j], ends[j])
  {
    if starts != [] {
      RowRanges(starts[1..], ends[1..], r);
      if j :| 0 <= j < |starts| && r == Range(starts[j], ends[j]) {
        if j > 0 {
          assert starts[1..][j - 1] == starts[j] && ends[1..][j - 1] == ends[j];
        }
      }
      if r in LeafRanges(starts[1..], ends[1..]) {
        var j :| 0 <= j < |starts[1..]| && r == Range(starts[1..][j], ends[1..][j]);
        assert r == Range(starts[j + 1], ends[j + 1]);
      }
    }
  }

  lemma {:induction false} FlatMember(rows: seq<Row>, r: Range)
    requires forall j :: 0 <= j < |rows| ==> rows[j].Tidy()
    ensures r in Flat(rows) <==> exists j :: 0 <= j < |rows| && r in Zip(rows[j])
  {
    if rows != [] {
      FlatMember(rows[1..], r);
      if j :| 0 <= j < |rows| && r in Zip(rows[j]) {
        if j > 0 {
          assert rows[1..][j - 1] == rows[j];
        }
      }
    }
  }

  /** The leaves of a tree hold the contents of its family. */
  lemma {:induction false} ContentsAreRanges(f: Family, r: Range)
    requires f.InOrder()
    ensures r in f.Contents() <==> r in Ranges(TreeOf(f))
  {
    hide CompareFrom, InSlot, StrictlySorted;
    var t := TreeOf(f);
    FlatMember(f.rows, r);
    KidRangesMember(t.kids, r);
    forall j | 0 <= j < |f.rows| ensures r in Zip(f.rows[j]) <==> r in Ranges(t.kids[j]) {
      assert f.rows[j].Tidy();
      RowRanges(f.rows[j].starts, f.rows[j].ends, r);
      if k :| 0 <= k < |f.rows[j].starts| && r == Range(f.rows[j].starts[k], f.rows[j].ends[k]) {
        assert Zip(f.rows[j])[k] == r;
      }
    }
  }

  /** No start key occurs twice in the leaves. */
  lemma {:induction false} StartsOnce(rows: seq<Row>, i: nat, j: nat)
    requires forall a :: 0 <= a < |rows| ==> rows[a].Tidy()
    requires forall a, b, k, l :: 0 <= a < b < |rows| && k in rows[a].starts && l in rows[b].starts ==> k != l
    requires i < j < |Flat(rows)|
    ensures Flat(rows)[i].startKey != Flat(rows)[j].startKey
  {
    var n := |rows[0].starts|;
    var rest := rows[1..];
    assert rows == [rows[0]] + rest;
    if j < n {
      KeyOrder(rows[0].starts[i], rows[0].starts[j], rows[0].starts[i]);
    } else if i >= n {
      forall a, b, k, l | 0 <= a < b < |rest| && k in rest[a].starts && l in rest[b].starts ensures k != l {
        assert rest[a] == rows[a + 1] && rest[b] == rows[b + 1];
      }
      StartsOnce(rest, i - n, j - n);
    } else {
      var r := Flat(rest)[j - n];
      FlatMember(rest, r);
      var b :| 0 <= b < |rest| && r in Zip(rest[b]);
      assert rows[b + 1] == rest[b] && r.startKey in rows[b + 1].starts && rows[0].starts[i] in rows[0].starts;
    }
  }

  predicate HasStartOnce(rs: seq<Range>, at: nat)
    requires at < |rs|
  {
    forall i :: 0 <= i < |rs| && i != at ==> rs[i].startKey != rs[at].startKey
  }

  lemma AfterRemoval(rs: seq<Range>, at: nat, i: nat)
    requires at < |rs| && i < |rs| && i != at
    ensures rs[i] in RemoveAt(rs, at)
  {
    assert RemoveAt(rs, at)[if i < at then i else i - 1] == rs[i];
  }

  lemma RemovedOnce(before: seq<Range>, key: Key, after: seq<Range>, r: Range)
    requires Removed(before, key, after) && forall i :: 0 <= i < |before| ==> HasStartOnce(before, i)
    ensures r in after <==> r in before && r.startKey != key
  {
    hide HasStartOnce;
    var at :| 0 <= at < |before| && before[at].startKey == key && after == RemoveAt(before, at);
    if r in before && r.startKey != key {
      var i :| 0 <= i < |before| && before[i] == r;
      AfterRemoval(before, at, i);
    }
    if r in after {
      var i :| 0 <= i < |after| && after[i] == r;
      Differs(before, if i < at then i else i + 1, at);
    }
  }

  lemma Differs(rs: seq<Range>, i: nat, at: nat)
    requires i < |rs| && at < |rs| && i != at && HasStartOnce(rs, at)
    ensures rs[i].startKey != rs[at].startKey
  {
  }

  lemma {:induction false} RemovedIsMinus(f: Family, f': Family, key: Key)
    requires f.InOrder() && f'.InOrder() && Removed(f.Contents(), key, f'.Contents())
    ensures Ranges(TreeOf(f')) == Minus(Ranges(TreeOf(f)), key)
  {
    hide CompareFrom, InSlot, StrictlySorted, Flat, Ranges, Removed, TreeOf;
    forall a, b, k, l | 0 <= a < b < |f.rows| && k in f.rows[a].starts && l in f.rows[b].starts ensures k != l {
      RowsApart(f, a, b, k, l);
      KeyOrder(k, k, k);
    }
    forall j | 0 <= j < |f.Contents()| ensures HasStartOnce(f.Contents(), j) {
      forall i | 0 <= i < |f.Contents()| && i != j ensures f.Contents()[i].startKey != f.Contents()[j].startKey {
        StartsOnce(f.rows, if i < j then i else j, if i < j then j else i);
      }
    }
    forall r ensures r in Ranges(TreeOf(f')) <==> r in Minus(Ranges(TreeOf(f)), key) {
      RemovedOnce(f.Contents(), key, f'.Contents(), r);
      ContentsAreRanges(f, r);
      ContentsAreRanges(f', r);
    }
  }

  lemma {:induction false} WithoutKeyKeeps(f: Family, i: nat, key: Key, order: nat)
    requires f.InOrder() && 1 < |f.rows| && i < |f.rows| && key in f.rows[i].starts
    requires OddOrder(order) && f.Occupied(order)
    ensures
      var f' := WithoutKey(f, i, key, order);
      f'.InOrder() && f'.Occupied(order) && Removed(f.Contents(), key, f'.Contents()) &&
      |f.separators| - 1 <= |f'.separators| <= |f.separators|
  {
    hide CompareFrom, StrictlySorted, InSlot, Flat, Removed;
    var pos := IndexOf(f.rows[i].starts, key);
    DropKeeps(f, i, pos);
    if |f.rows[i].starts| <= order / 2 {
      var how :|
        how in {StoleLeft, StoleRight(key), Joined, Panicked} && HowRefilled(f.Drop(i, pos), i, order, how);
      RefillDeletes(f, i, pos, order, how);
    }
  }

  lemma TreeOfFamily(t: Tree)
    requires IsOverLeaves(t)
    ensures TreeOf(FamilyOf(t)) == t
  {
  }

  lemma KeysWithin(f: Family, lo: Option<Key>, hi: Option<Key>, j: nat, key: Key)
    requires f.InOrder() && forall r :: r in Ranges(TreeOf(f)) ==> Within(r.startKey, lo, hi)
    requires j < |f.rows| && key in f.rows[j].starts
    ensures Within(key, lo, hi)
  {
    hide CompareFrom, InSlot, StrictlySorted, Within, Ranges;
    var k :| 0 <= k < |f.rows[j].starts| && f.rows[j].starts[k] == key;
    FlatMember(f.rows, Zip(f.rows[j])[k]);
    ContentsAreRanges(f, Zip(f.rows[j])[k]);
  }

  /** A family in order with leaves that are full enough is a well-formed part of a tree. */
  lemma {:induction false} FamilyIsOrdered(f: Family, order: nat, lo: Option<Key>, hi: Option<Key>)
    requires f.InOrder() && f.Occupied(order) && order >= 2 && f.separators != []
    requires forall r :: r in Ranges(TreeOf(f)) ==> Within(r.startKey, lo, hi)
    ensures Ordered(TreeOf(f), order, 1, lo, hi)
  {
    hide CompareFrom, Ranges, StrictlySorted;
    var t := TreeOf(f);
    forall j | 0 <= j < |f.separators| ensures Strictly(f.separators[j], lo, hi) {
      var left, right := f.rows[j].starts[0], f.rows[j + 1].starts[0];
      assert left in f.rows[j].starts && right in f.rows[j + 1].starts;
      KeysWithin(f, lo, hi, j, left);
      KeysWithin(f, lo, hi, j + 1, right);
      if lo.Some? {
        KeyOrder(lo.value, left, f.separators[j]);
      }
      if hi.Some? {
        KeyOrder(f.separators[j], right, hi.value);
      }
    }
    forall j | 0 <= j < |t.kids|
      ensures WellFormed(t.kids[j], order, 0, Lower(lo, t.keys, j), Upper(hi, t.keys, j), order / 2)
    {
      assert f.rows[j].Tidy();
      forall k | k in f.rows[j].starts ensures Within(k, Lower(lo, t.keys, j), Upper(hi, t.keys, j)) {
        KeysWithin(f, lo, hi, j, k);
      }
    }
  }

  // ---------- the deletion from a leaf with its parent ----------

  lemma DroppedTree(p: Tree, i: nat, key: Key)
    requires IsOverLeaves(p) && Shaped(p) && i < |p.kids| && FamilyOf(p).InOrder() && key in p.kids[i].starts
    ensures
      var g := FamilyOf(p).Drop(i, IndexOf(p.kids[i].starts, key));
      var p' := WithKid(p, i, LeafWithout(p.kids[i], key));
      Shaped(p') && IsOverLeaves(p') && p' == TreeOf(g) && FamilyOf(p') == g && g.InOrder()
  {
    DropKeeps(FamilyOf(p), i, IndexOf(p.kids[i].starts, key));
  }

  /** The leaf gets the last range of its left neighbour, which goes to its front. */
  lemma StealLastIsShift(p: Tree, i: nat)
    requires IsOverLeaves(p) && Shaped(p) && FamilyOf(p).InOrder() && i + 1 < |p.kids| && Size(p.kids[i]) > 1
    ensures StealLast(p, i) == Done(TreeOf(FamilyOf(p).ShiftRight(i)), None)
  {
    hide CompareFrom, StrictlySorted, InSlot, Position;
    var f, left, right := FamilyOf(p), p.kids[i], p.kids[i + 1];
    assert Shaped(left) && Shaped(right);
    ShiftRightKeeps(f, i);
    var n := |left.starts| - 1;
    assert InsertAt(right.starts, 0, left.starts[n]) == [left.starts[n]] + right.starts;
    assert InsertAt(right.ends, 0, left.ends[n]) == [left.ends[n]] + right.ends;
    assert left.starts[n..n + 1] == [left.starts[n]] && left.ends[n..n + 1] == [left.ends[n]];
    assert StealLast(p, i).tree.kids == TreeOf(f.ShiftRight(i)).kids;
  }

  lemma StealFirstIsShift(p: Tree, i: nat)
    requires IsOverLeaves(p) && Shaped(p) && FamilyOf(p).InOrder() && i + 1 < |p.kids| && Size(p.kids[i + 1]) > 1
    ensures
      var r := StealFirst(p, i);
      r.Done? && r.tree == TreeOf(FamilyOf(p).ShiftLeft(i)) && r.splitKey == Some(p.kids[i + 1].starts[0])
  {
    hide CompareFrom, StrictlySorted, InSlot, Position;
    var f, left, right := FamilyOf(p), p.kids[i], p.kids[i + 1];
    assert Shaped(left) && Shaped(right);
    ShiftLeftKeeps(f, i);
    var n := |left.starts|;
    assert InsertAt(left.starts, n, right.starts[0]) == left.starts + [right.starts[0]];
    assert InsertAt(left.ends, n, right.ends[0]) == left.ends + [right.ends[0]];
    assert right.starts[0..1] == [right.starts[0]] && right.ends[0..1] == [right.ends[0]];
    assert right.starts[1..|right.starts|] == right.starts[1..] && right.ends[1..|right.starts|] == right.ends[1..];
    assert StealFirst(p, i).tree.kids == TreeOf(f.ShiftLeft(i)).kids;
  }

  lemma RefillInOrder(p: Tree, i: nat, order: nat)
    requires IsOverLeaves(p) && Shaped(p) && FamilyOf(p).InOrder() && i < |p.kids| && OddOrder(order)
    ensures
      var r := RefillLeaf(p, i, order);
      r.Done? && r.tree == TreeOf(Refilled(FamilyOf(p), i, order))
  {
    hide CompareFrom, StrictlySorted, InSlot, StealLast, StealFirst, TreeOf, RemoveAt;
    if i > 0 && Size(p.kids[i - 1]) > order / 2 {
      StealLastIsShift(p, i - 1);
    } else if i + 1 < |p.kids| && Size(p.kids[i + 1]) > order / 2 {
      StealFirstIsShift(p, i);
    } else {
      JoinedTree(p, if i > 0 then i - 1 else 0);
    }
  }

  lemma JoinedTree(p: Tree, at: nat)
    requires IsOverLeaves(p) && Shaped(p) && FamilyOf(p).InOrder() && at + 1 < |p.kids|
    ensures
      var left, right := p.kids[at], p.kids[at + 1];
      var both := Leaf(left.starts + right.starts, left.ends + right.ends);
      Inner(RemoveAt(p.keys, at), RemoveAt(p.kids, at + 1)[at := both]) == TreeOf(FamilyOf(p).Join(at))
  {
    hide CompareFrom, StrictlySorted, InSlot;
    var left, right := p.kids[at], p.kids[at + 1];
    var both := Leaf(left.starts + right.starts, left.ends + right.ends);
    assert RemoveAt(p.kids, at + 1)[at := both] == TreeOf(FamilyOf(p).Join(at)).kids;
  }

  /** Among leaves in order `delete_key` does what `WithoutKey` says, and panics exactly if the largest
      key of a leaf with a key to spare is deleted and no larger one is found next door. */
  lemma {:induction false} DeleteFromLeafInOrder(p: Tree, i: nat, key: Key, order: nat)
    requires IsOverLeaves(p) && Shaped(p) && FamilyOf(p).InOrder() && i < |p.kids| && OddOrder(order)
    ensures
      var r, starts := DeleteFromLeaf(p, i, key, order), p.kids[i].starts;
      (r.Panics? <==>
        key in starts && |starts| > order / 2 && key == starts[|starts| - 1] &&
        (i + 1 == |p.kids| || p.kids[i + 1].starts == [])) &&
      !r.Hangs? && (r.Done? ==> r.tree == TreeOf(WithoutKey(FamilyOf(p), i, key, order)))
  {
    hide CompareFrom, StrictlySorted, InSlot, Position, RefillLeaf, Refilled, IsSuccessor;
    var f := FamilyOf(p);
    TreeOfFamily(p);
    if key in p.kids[i].starts {
      DroppedTree(p, i, key);
      SuccessorAfterDrop(f, i, IndexOf(p.kids[i].starts, key));
      var p' := WithKid(p, i, LeafWithout(p.kids[i], key));
      if |p.kids[i].starts| <= order / 2 {
        RefillInOrder(p', i, order);
      }
    }
  }

  /** The leaf takes a key from its right neighbour. */
  predicate TakesFromRight(p: Tree, i: nat, order: nat)
    requires p.Inner? && i < |p.kids|
  {
    !(i > 0 && Size(p.kids[i - 1]) > order / 2) && i + 1 < |p.kids| && Size(p.kids[i + 1]) > order / 2
  }

  /** Handed up is the next larger key in all the leaves, from a leaf with a key to spare, or the key
      that came from the right neighbour, which is the largest of its leaf then. */
  lemma {:induction false} WhatIsHandedUp(p: Tree, i: nat, key: Key, order: nat)
    requires IsOverLeaves(p) && Shaped(p) && FamilyOf(p).InOrder() && i < |p.kids| && OddOrder(order)
    requires DeleteFromLeaf(p, i, key, order).Done?
    ensures
      var r, starts := DeleteFromLeaf(p, i, key, order), p.kids[i].starts;
      match r.splitKey
      case Some(k) =>
        key in starts && IsOverLeaves(r.tree) && i < |r.tree.kids| &&
        if |starts| > order / 2 then IsSuccessor(FamilyOf(r.tree).rows, key, k)
        else
          TakesFromRight(p, i, order) &&
          var starts' := r.tree.kids[i].starts;
          starts' != [] && k == starts'[|starts'| - 1]
      case None => key !in starts || (|starts| <= order / 2 && !TakesFromRight(p, i, order))
  {
    hide CompareFrom, StrictlySorted, InSlot, Position, IsSuccessor, RefillLeaf;
    if key in p.kids[i].starts {
      DroppedTree(p, i, key);
      SuccessorAfterDrop(FamilyOf(p), i, IndexOf(p.kids[i].starts, key));
      if |p.kids[i].starts| <= order / 2 {
        RefillHandsUp(WithKid(p, i, LeafWithout(p.kids[i], key)), i, order);
      }
    }
  }

  lemma {:induction false} RefillHandsUp(p: Tree, i: nat, order: nat)
    requires IsOverLeaves(p) && Shaped(p) && FamilyOf(p).InOrder() && i < |p.kids| && OddOrder(order)
    ensures
      var r := RefillLeaf(p, i, order);
      r.Done? &&
      match r.splitKey
      case Some(k) =>
        TakesFromRight(p, i, order) && IsOverLeaves(r.tree) && i < |r.tree.kids| &&
        var starts' := r.tree.kids[i].starts;
        starts' != [] && k == starts'[|starts'| - 1]
      case None => !TakesFromRight(p, i, order)
  {
    hide CompareFrom, StrictlySorted, InSlot, Position, StealLast, StealFirst;
    if TakesFromRight(p, i, order) {
      StealFirstIsShift(p, i);
    } else if i > 0 && Size(p.kids[i - 1]) > order / 2 {
      StealLastIsShift(p, i - 1);
    }
  }

  /** A deletion ends as its one call of `delete_key` does, or else fails on the way back; with that
      call it also returns its key. A leaf that is reached without its parent returns none. */
  predicate EndsAs(r: Outcome, reached: (Tree, Option<(Tree, nat)>), key: Key, order: nat) {
    match reached.1
    case None => r.Done? ==> r.splitKey == None
    case Some((p, i)) =>
      Shaped(p) && p.Inner? && i < |p.kids| && p.kids[i] == reached.0 && p.kids[i].Leaf? &&
      var call := DeleteFromLeaf(p, i, key, order);
      (call.Panics? ==> r.Panics?) && (r.Done? ==> call.Done? && r.splitKey == call.splitKey)
  }

  /** In trees of any shape the calls are those that the way down leads to. */
  lemma {:induction false} DeleteEndsAs(t: Tree, key: Key, order: nat, isAncestorSafe: bool)
    requires Shaped(t)
    ensures EndsAs(DeleteAlone(t, key, order, isAncestorSafe), Descend(t, key, order, None, isAncestorSafe), key, order)
    decreases t
  {
    hide DeleteFromLeaf, IsSafe, IsEdgeKey;
    if t.Inner? {
      var i := Position(t.keys, key);
      if IsSafe(t, key, order, isAncestorSafe) {
        DeleteEndsAs(t.kids[i], key, order, true);
      } else {
        DeleteUnderEndsAs(t, i, key, order, !IsEdgeKey(t, key) && isAncestorSafe);
      }
    }
  }

  lemma {:induction false} DeleteUnderEndsAs(p: Tree, i: nat, key: Key, order: nat, isAncestorSafe: bool)
    requires Shaped(p) && p.Inner? && i < |p.kids|
    ensures EndsAs(DeleteUnder(p, i, key, order, isAncestorSafe),
                   Descend(p.kids[i], key, order, Some((p, i)), isAncestorSafe), key, order)
    decreases p.kids[i]
  {
    hide DeleteFromLeaf, IsSafe, IsEdgeKey;
    var t := p.kids[i];
    if t.Leaf? {
      LeafNeverHangs(p, i, key, order);
    } else {
      var j := Position(t.keys, key);
      if IsSafe(t, key, order, isAncestorSafe) {
        DeleteEndsAs(t.kids[j], key, order, true);
      } else {
        DeleteUnderEndsAs(t, j, key, order, !IsEdgeKey(t, key) && isAncestorSafe);
      }
    }
  }

  lemma LeafNeverHangs(p: Tree, i: nat, key: Key, order: nat)
    requires Shaped(p) && p.Inner? && i < |p.kids| && p.kids[i].Leaf?
    ensures !DeleteFromLeaf(p, i, key, order).Hangs?
  {
  }

  // ---------- what a deletion keeps ----------

  lemma FamilyOccupied(t: Tree, order: nat, lo: Option<Key>, hi: Option<Key>)
    requires Ordered(t, order, 1, lo, hi) && t.Inner?
    ensures IsOverLeaves(t) && FamilyOf(t).Occupied(order)
  {
    hide CompareFrom;
    forall j | 0 <= j < |t.kids| ensures t.kids[j].Leaf? && order / 2 <= Size(t.kids[j]) < order {
      AtTheBottom(t.kids[j], order, Lower(lo, t.keys, j), Upper(hi, t.keys, j), order / 2);
    }
  }

  /** The parent of the leaf, when it is not passed its own parent: no panic, and one range less. */
  lemma {:induction false} ParentDeletes(t: Tree, key: Key, order: nat, lo: Option<Key>, hi: Option<Key>)
    requires OddOrder(order) && t.Inner? && Shaped(t) && Ordered(t, order, 1, lo, hi)
    requires IsOverLeaves(t) && FamilyOf(t).InOrder() && FamilyOf(t).Occupied(order)
    ensures
      var r := DeleteAlone(t, key, order, true);
      r.Done? && r.tree == TreeOf(WithoutKey(FamilyOf(t), Position(t.keys, key), key, order))
  {
    hide CompareFrom, StrictlySorted, InSlot, DeleteFromLeaf, Position;
    var i := Position(t.keys, key);
    var leaf := t.kids[i];
    TreeOfFamily(t);
    if IsSafe(t, key, order, true) {
      if key in leaf.starts {
        DroppedTree(t, i, key);
      } else {
        assert WithKid(t, i, leaf) == t;
      }
    } else {
      DeleteFromLeafInOrder(t, i, key, order);
      assert i + 1 < |t.kids| ==> FamilyOf(t).rows[i + 1].starts != [];
      if DeleteFromLeaf(t, i, key, order).Panics? {
        EdgeKeyIsFirst(t, key, order, lo, hi);
      }
    }
  }

  lemma EdgeKeyIsFirst(t: Tree, key: Key, order: nat, lo: Option<Key>, hi: Option<Key>)
    requires t.Inner? && Shaped(t) && Ordered(t, order, 1, lo, hi) && IsEdgeKey(t, key)
    ensures
      var leaf := t.kids[Position(t.keys, key)];
      leaf.Leaf? && (|leaf.starts| > 1 ==> key != leaf.starts[|leaf.starts| - 1])
  {
    hide CompareFrom;
    var i := Position(t.keys, key);
    KeyOrder(key, key, key);
    AtTheBottom(t.kids[i], order, Lower(lo, t.keys, i), Upper(hi, t.keys, i), order / 2);
    var starts := t.kids[i].starts;
    if |starts| > 1 {
      assert starts[0] in starts;
      KeyOrder(key, starts[0], starts[|starts| - 1]);
      KeyOrder(starts[0], starts[|starts| - 1], key);
    }
  }

  lemma {:induction false} SlotOfKey(t: Tree, order: nat, depth: nat, lo: Option<Key>, hi: Option<Key>, j: nat,
      r: Range)
    requires t.Inner? && Ordered(t, order, depth, lo, hi) && j < |t.kids| && r in Ranges(t.kids[j])
    ensures Position(t.keys, r.startKey) == j
  {
    hide CompareFrom;
    RangesWithin(t.kids[j], order, depth - 1, Lower(lo, t.keys, j), Upper(hi, t.keys, j));
    forall l | 0 <= l < j ensures !Lt(r.startKey, t.keys[l]) {
      KeyOrder(t.keys[l], t.keys[j - 1], r.startKey);
      KeyOrder(t.keys[l], r.startKey, t.keys[l]);
      KeyOrder(r.startKey, t.keys[l], t.keys[l]);
    }
    PositionUnique(t.keys, r.startKey, j);
  }

  /** What `DeleteAlone` is to achieve for an inner node. Only the parent of leaves may be left
      without keys, with one leaf that is well-formed. */
  ghost predicate Loses(t: Tree, key: Key, order: nat, depth: nat, lo: Option<Key>, hi: Option<Key>, r: Outcome) {
    r.Done? && r.tree.Inner? && Size(t) - 1 <= Size(r.tree) <= Size(t) && Ranges(r.tree) == Minus(Ranges(t), key) &&
    if Size(r.tree) > 0 then Ordered(r.tree, order, depth, lo, hi)
    else |r.tree.kids| == 1 && WellFormed(r.tree.kids[0], order, 0, lo, hi, order / 2)
  }

  lemma {:induction false} ParentLoses(t: Tree, key: Key, order: nat, lo: Option<Key>, hi: Option<Key>)
    requires OddOrder(order) && t.Inner? && Shaped(t) && Ordered(t, order, 1, lo, hi)
    ensures Loses(t, key, order, 1, lo, hi, DeleteAlone(t, key, order, true))
  {
    hide CompareFrom, StrictlySorted, InSlot, DeleteAlone, Position, Ranges, Refilled;
    var i := Position(t.keys, key);
    var f := FamilyOf(t);
    FamilyInOrder(t, order, lo, hi);
    FamilyOccupied(t, order, lo, hi);
    ParentDeletes(t, key, order, lo, hi);
    TreeOfFamily(t);
    RangesWithin(t, order, 1, lo, hi);
    OnlyInItsSlot(t, order, 1, lo, hi, key);
    LeafRangesOf(t.kids[i]);
    LeafRangesMember(t.kids[i].starts, t.kids[i].ends, key);
    if key in t.kids[i].starts {
      var f' := WithoutKey(f, i, key, order);
      WithoutKeyKeeps(f, i, key, order);
      RemovedIsMinus(f, f', key);
      if f'.separators != [] {
        FamilyIsOrdered(f', order, lo, hi);
      } else {
        OnlyLeaf(f', order, lo, hi);
      }
    } else {
      assert forall r :: r in Ranges(t) ==> r.startKey != key;
    }
  }

  lemma OnlyLeaf(f: Family, order: nat, lo: Option<Key>, hi: Option<Key>)
    requires f.InOrder() && f.Occupied(order) && f.separators == []
    requires forall r :: r in Ranges(TreeOf(f)) ==> Within(r.startKey, lo, hi)
    ensures WellFormed(TreeOf(f).kids[0], order, 0, lo, hi, order / 2)
  {
    hide CompareFrom, Ranges, StrictlySorted;
    assert f.rows[0].Tidy();
    forall k | k in f.rows[0].starts ensures Within(k, lo, hi) {
      KeysWithin(f, lo, hi, 0, k);
    }
  }

  /** The deletion gives up the lock on every node above the parent of the leaf on its way down. */
  predicate IsLocal(t: Tree, key: Key, order: nat)
    requires Shaped(t)
  {
    t.Leaf? ||
    var kid := t.kids[Position(t.keys, key)];
    kid.Leaf? || (IsSafe(t, key, order, true) && IsLocal(kid, key, order))
  }

  lemma TwoLevelsAreLocal(t: Tree, order: nat, depth: nat)
    requires WellFormed(t, order, depth, None, None, LeastAtRoot(t)) && depth <= 1
    ensures Shaped(t) && forall key :: IsLocal(t, key, order)
  {
    hide CompareFrom;
    OrderedShaped(t, order, depth, None, None);
    if t.Inner? {
      FamilyOccupied(t, order, None, None);
    }
  }

  /** A child has lost a key and is still well-formed. */
  lemma {:induction false} KidLoses(t: Tree, key: Key, order: nat, depth: nat, lo: Option<Key>, hi: Option<Key>,
      kid: Tree)
    requires t.Inner? && Ordered(t, order, depth, lo, hi)
    requires
      var i := Position(t.keys, key);
      WellFormed(kid, order, depth - 1, Lower(lo, t.keys, i), Upper(hi, t.keys, i), order / 2) &&
      Ranges(kid) == Minus(Ranges(t.kids[i]), key)
    ensures
      var t' := WithKid(t, Position(t.keys, key), kid);
      Ordered(t', order, depth, lo, hi) && Ranges(t') == Minus(Ranges(t), key)
  {
    hide CompareFrom, StrictlySorted, Position, WellFormed;
    var i := Position(t.keys, key);
    var t' := WithKid(t, i, kid);
    forall r ensures r in Ranges(t') <==> r in Minus(Ranges(t), key) {
      KidRangesMember(t.kids, r);
      KidRangesMember(t'.kids, r);
      forall j | 0 <= j < |t.kids| && r in Ranges(t.kids[j]) ensures r.startKey == key ==> j == i {
        SlotOfKey(t, order, depth, lo, hi, j, r);
      }
      if r in Ranges(t) && r.startKey != key {
        var j :| 0 <= j < |t.kids| && r in Ranges(t.kids[j]);
        assert r in Ranges(t'.kids[j]);
      }
      if r in Ranges(t') {
        var j :| 0 <= j < |t'.kids| && r in Ranges(t'.kids[j]);
        assert r in Ranges(t.kids[j]);
      }
    }
  }

  lemma {:induction false} LocalDeletion(t: Tree, key: Key, order: nat, depth: nat, lo: Option<Key>, hi: Option<Key>)
    requires OddOrder(order) && t.Inner? && Shaped(t) && Ordered(t, order, depth, lo, hi) && Size(t) < order
    requires IsLocal(t, key, order)
    ensures Loses(t, key, order, depth, lo, hi, DeleteAlone(t, key, order, true))
    decreases t
  {
    hide CompareFrom, StrictlySorted, Position, Strictly, Within, Ranges;
    var i := Position(t.keys, key);
    assert WellFormed(t.kids[i], order, depth - 1, Lower(lo, t.keys, i), Upper(hi, t.keys, i), order / 2);
    if depth == 1 {
      ParentLoses(t, key, order, lo, hi);
    } else {
      LocalDeletion(t.kids[i], key, order, depth - 1, Lower(lo, t.keys, i), Upper(hi, t.keys, i));
      KidLoses(t, key, order, depth, lo, hi, DeleteAlone(t.kids[i], key, order, true).tree);
    }
  }

  /** In a well-formed tree of any depth, a deletion that gives up its locks above the parent of the
      leaf removes exactly the range of its key and leaves a well-formed tree. */
  lemma {:induction false} LocalDeletionKeeps(t: Tree, key: Key, order: nat, depth: nat)
    requires OddOrder(order) && WellFormed(t, order, depth, None, None, LeastAtRoot(t))
    requires Shaped(t) && IsLocal(t, key, order)
    ensures
      var r := TreeDelete(t, key, order);
      r.Done? && Ranges(r.tree) == Minus(Ranges(t), key) &&
      WellFormed(r.tree, order, if r.tree.Leaf? then 0 else depth, None, None, LeastAtRoot(r.tree))
  {
    hide CompareFrom, StrictlySorted, Position, Ranges, DeleteAlone, KidRanges;
    if t.Leaf? {
      RootLeafLoses(t, key, order);
    } else {
      LocalDeletion(t, key, order, depth, None, None);
      var t' := DeleteAlone(t, key, order, true).tree;
      if t'.keys == [] {
        AtTheBottom(t'.kids[0], order, None, None, order / 2);
        InnerRanges(t');
        OneKid(t'.kids[0]);
        assert t'.kids == [t'.kids[0]];
      }
    }
  }

  lemma {:induction false} RootLeafLoses(t: Tree, key: Key, order: nat)
    requires t.Leaf? && Shaped(t) && WellFormed(t, order, 0, None, None, 0)
    ensures WellFormed(LeafWithout(t, key), order, 0, None, None, 0)
    ensures Ranges(LeafWithout(t, key)) == Minus(Ranges(t), key)
    ensures TreeDelete(t, key, order) == Done(LeafWithout(t, key), None)
  {
    hide CompareFrom;
    LeafRangesMember(t.starts, t.ends, key);
    if key in t.starts {
      var f, pos := Family([], [RowOf(t)]), IndexOf(t.starts, key);
      assert f.rows[0].Tidy();
      DropKeeps(f, 0, pos);
      RemovedIsMinus(f, f.Drop(0, pos), key);
      assert f.Drop(0, pos).rows[0].Tidy();
      InnerRanges(TreeOf(f));
      InnerRanges(TreeOf(f.Drop(0, pos)));
      OneKid(t);
      OneKid(LeafWithout(t, key));
      assert TreeOf(f).kids == [t] && TreeOf(f.Drop(0, pos)).kids == [LeafWithout(t, key)];
    }
  }

  // ---------- keys that are not latched ----------

  lemma {:induction false} NothingAlone(t: Tree, key: Key, order: nat, depth: nat, lo: Option<Key>, hi: Option<Key>,
      isAncestorSafe: bool)
    requires Shaped(t) && Ordered(t, order, depth, lo, hi) && !HasStart(t, key)
    ensures DeleteAlone(t, key, order, isAncestorSafe) == Done(t, None)
    decreases t
  {
    hide CompareFrom, StrictlySorted, Position, Strictly, Within, Ranges;
    if t.Leaf? {
      LeafRangesOf(t);
      LeafRangesMember(t.starts, t.ends, key);
    } else {
      var i := Position(t.keys, key);
      var lo', hi' := Lower(lo, t.keys, i), Upper(hi, t.keys, i);
      OnlyInItsSlot(t, order, depth, lo, hi, key);
      assert WellFormed(t.kids[i], order, depth - 1, lo', hi', order / 2);
      if IsSafe(t, key, order, isAncestorSafe) {
        NothingAlone(t.kids[i], key, order, depth - 1, lo', hi', true);
        assert WithKid(t, i, t.kids[i]) == t;
      } else {
        NothingUnder(t, i, key, order, depth - 1, lo', hi', !IsEdgeKey(t, key) && isAncestorSafe);
      }
    }
  }

  lemma {:induction false} NothingUnder(p: Tree, i: nat, key: Key, order: nat, depth: nat, lo: Option<Key>,
      hi: Option<Key>, isAncestorSafe: bool)
    requires Shaped(p) && p.Inner? && i < |p.kids|
    requires WellFormed(p.kids[i], order, depth, lo, hi, order / 2) && !HasStart(p.kids[i], key)
    ensures DeleteUnder(p, i, key, order, isAncestorSafe) == Done(p, None)
    decreases p.kids[i]
  {
    hide CompareFrom, StrictlySorted, Position, Strictly, Within, Ranges;
    var t := p.kids[i];
    assert Shaped(t) && WithKid(p, i, t) == p;
    if t.Leaf? {
      LeafRangesOf(t);
      LeafRangesMember(t.starts, t.ends, key);
    } else {
      var j := Position(t.keys, key);
      var lo', hi' := Lower(lo, t.keys, j), Upper(hi, t.keys, j);
      OnlyInItsSlot(t, order, depth, lo, hi, key);
      assert WellFormed(t.kids[j], order, depth - 1, lo', hi', order / 2);
      if IsSafe(t, key, order, isAncestorSafe) {
        NothingAlone(t.kids[j], key, order, depth - 1, lo', hi', true);
        assert WithKid(t, j, t.kids[j]) == t;
      } else {
        NothingUnder(t, j, key, order, depth - 1, lo', hi', !IsEdgeKey(t, key) && isAncestorSafe);
      }
    }
  }

  /** In a well-formed tree of any depth, deleting a key that is not latched changes nothing. */
  lemma {:induction false} NothingToDelete(t: Tree, key: Key, order: nat, depth: nat)
    requires WellFormed(t, order, depth, None, None, LeastAtRoot(t)) && !HasStart(t, key)
    ensures Shaped(t) && TreeDelete(t, key, order) == Done(t, None)
  {
    hide CompareFrom, StrictlySorted, Ranges, DeleteAlone;
    OrderedShaped(t, order, depth, None, None);
    NothingAlone(t, key, order, depth, None, None, true);
  }

  // ---------- what the repair is meant to do ----------

  /** Inner nodes with one child more than keys, and a key between any two of them. */
  predicate IsOverInner(keys: seq<Key>, kids: seq<Tree>) {
    |kids| == |keys| + 1 && forall j :: 0 <= j < |kids| ==> kids[j].Inner? && |kids[j].kids| == |kids[j].keys| + 1
  }

  /** The edges and keys of the children from left to right, with the keys of the parent between. */
  ghost function DeepLine(keys: seq<Key>, kids: seq<Tree>): seq<Item<Tree>>
    requires IsOverInner(keys, kids)
  {
    var first := Line(kids[0].keys, kids[0].kids);
    if keys == [] then first else first + [Sep(keys[0])] + DeepLine(keys[1..], kids[1..])
  }

  ghost function PairLine(left: Tree, key: Key, right: Tree): seq<Item<Tree>>
    requires left.Inner? && |left.kids| == |left.keys| + 1 && right.Inner? && |right.kids| == |right.keys| + 1
  {
    Line(left.keys, left.kids) + [Sep(key)] + Line(right.keys, right.kids)
  }

  lemma {:induction false} PairExchanges(keys: seq<Key>, kids: seq<Tree>, j: nat, left: Tree, key: Key, right: Tree)
    requires IsOverInner(keys, kids) && j < |keys|
    requires left.Inner? && |left.kids| == |left.keys| + 1 && right.Inner? && |right.kids| == |right.keys| + 1
    requires PairLine(left, key, right) == PairLine(kids[j], keys[j], kids[j + 1])
    ensures IsOverInner(keys[j := key], kids[j := left][j + 1 := right])
    ensures DeepLine(keys[j := key], kids[j := left][j + 1 := right]) == DeepLine(keys, kids)
    decreases j
  {
    hide Line;
    var keys', kids' := keys[j := key], kids[j := left][j + 1 := right];
    if j > 0 {
      PairExchanges(keys[1..], kids[1..], j - 1, left, key, right);
      assert keys'[1..] == keys[1..][j - 1 := key] && kids'[1..] == kids[1..][j - 1 := left][j := right];
    } else if |keys| == 1 {
      assert kids'[1..] == [right] && kids[1..] == [kids[1]];
    } else {
      assert keys'[1..] == keys[1..] && kids'[1..][1..] == kids[1..][1..];
      var rest := [Sep(keys[1])] + DeepLine(keys[1..][1..], kids[1..][1..]);
      assert DeepLine(keys, kids) == PairLine(kids[0], keys[0], kids[1]) + rest;
      assert DeepLine(keys', kids') == PairLine(left, key, right) + rest;
    }
  }

  lemma JoinedShape(keys: seq<Key>, kids: seq<Tree>, j: nat, both: Tree)
    requires IsOverInner(keys, kids) && j < |keys| && both.Inner? && |both.kids| == |both.keys| + 1
    ensures IsOverInner(RemoveAt(keys, j), RemoveAt(kids, j + 1)[j := both])
  {
    var kids' := RemoveAt(kids, j + 1)[j := both];
    forall i | 0 <= i < |kids'| ensures kids'[i].Inner? && |kids'[i].kids| == |kids'[i].keys| + 1 {
      assert kids'[i] == if i == j then both else if i < j then kids[i] else kids[i + 1];
    }
  }

  lemma DeepLineStep(keys: seq<Key>, kids: seq<Tree>)
    requires IsOverInner(keys, kids) && keys != []
    ensures IsOverInner(keys[1..], kids[1..])
    ensures DeepLine(keys, kids) == Line(kids[0].keys, kids[0].kids) + [Sep(keys[0])] + DeepLine(keys[1..], kids[1..])
  {
  }

  lemma {:induction false} PairJoins(keys: seq<Key>, kids: seq<Tree>, j: nat, both: Tree)
    requires IsOverInner(keys, kids) && j < |keys| && both.Inner? && |both.kids| == |both.keys| + 1
    requires Line(both.keys, both.kids) == PairLine(kids[j], keys[j], kids[j + 1])
    ensures IsOverInner(RemoveAt(keys, j), RemoveAt(kids, j + 1)[j := both])
    ensures DeepLine(RemoveAt(keys, j), RemoveAt(kids, j + 1)[j := both]) == DeepLine(keys, kids)
    decreases j
  {
    hide Line, IsOverInner, DeepLine;
    Alternates(keys, kids);
    var keys', kids' := RemoveAt(keys, j), RemoveAt(kids, j + 1)[j := both];
    JoinedShape(keys, kids, j, both);
    DeepLineStep(keys, kids);
    if j > 0 {
      PairJoins(keys[1..], kids[1..], j - 1, both);
      assert keys'[1..] == RemoveAt(keys[1..], j - 1) && kids'[1..] == RemoveAt(kids[1..], j)[j - 1 := both];
      DeepLineStep(keys', kids');
    } else if |keys| == 1 {
      assert keys' == [] && kids' == [both] && keys[1..] == [] && kids[1..] == [kids[1]];
      OneNode(both);
      OneNode(kids[1]);
    } else {
      DeepLineStep(keys[1..], kids[1..]);
      DeepLineStep(keys', kids');
      assert keys' == keys[1..] && kids'[1..] == kids[1..][1..];
    }
  }

  lemma Alternates(keys: seq<Key>, kids: seq<Tree>)
    requires IsOverInner(keys, kids)
    ensures |kids| == |keys| + 1
    ensures forall j :: 0 <= j < |kids| ==> kids[j].Inner? && |kids[j].kids| == |kids[j].keys| + 1
  {
  }

  lemma OneNode(t: Tree)
    requires t.Inner? && |t.kids| == |t.keys| + 1
    ensures IsOverInner([], [t]) && DeepLine([], [t]) == Line(t.keys, t.kids)
  {
  }

  /** With the index of its own edge, the repair of an inner node keeps edges and keys in their order. */
  lemma {:induction false} RightIndexKeepsLine(p: Tree, i: nat, order: nat)
    requires p.Inner? && IsOverInner(p.keys, p.kids) && i < |p.kids| && OddOrder(order)
    ensures
      var r := DealWithUnderflow(p, i, i, order);
      r.Done? && r.tree.Inner? && IsOverInner(r.tree.keys, r.tree.kids) &&
      DeepLine(r.tree.keys, r.tree.kids) == DeepLine(p.keys, p.kids)
  {
    hide Line, DeepLine;
    var t := p.kids[i];
    if Size(t) < order / 2 {
      if i > 0 && Size(p.kids[i - 1]) > order / 2 {
        StealFromLeftKeepsLine(p, i);
      } else if i + 1 < |p.kids| && Size(p.kids[i + 1]) > order / 2 {
        StealFromRightKeepsLine(p, i);
      } else {
        MergeKeepsLine(p, i);
      }
    }
  }

  lemma {:induction false} StealFromLeftKeepsLine(p: Tree, i: nat)
    requires p.Inner? && IsOverInner(p.keys, p.kids) && 0 < i < |p.kids| && p.kids[i - 1].keys != []
    ensures
      var r := StealEdgeFromLeft(p, i, i);
      r.Done? && r.tree.Inner? && IsOverInner(r.tree.keys, r.tree.kids) &&
      DeepLine(r.tree.keys, r.tree.kids) == DeepLine(p.keys, p.kids)
  {
    hide Line, DeepLine;
    var t, left := p.kids[i], p.kids[i - 1];
    var m, n := |left.keys| - 1, |left.kids| - 1;
    var left' := Inner(left.keys[..m], left.kids[..n]);
    var t' := Inner([p.keys[i - 1]] + t.keys, [left.kids[n]] + t.kids);
    LineShift(left'.keys, left'.kids, left.keys[m], left.kids[n], p.keys[i - 1], t.keys, t.kids);
    assert left.keys == left'.keys + [left.keys[m]] && left.kids == left'.kids + [left.kids[n]];
    PairExchanges(p.keys, p.kids, i - 1, left', left.keys[m], t');
  }

  lemma {:induction false} StealFromRightKeepsLine(p: Tree, i: nat)
    requires p.Inner? && IsOverInner(p.keys, p.kids) && i + 1 < |p.kids| && p.kids[i + 1].keys != []
    ensures
      var r := StealEdgeFromRight(p, i, i);
      r.Done? && r.tree.Inner? && IsOverInner(r.tree.keys, r.tree.kids) &&
      DeepLine(r.tree.keys, r.tree.kids) == DeepLine(p.keys, p.kids)
  {
    hide Line, DeepLine;
    var t, right := p.kids[i], p.kids[i + 1];
    var right' := Inner(right.keys[1..], right.kids[1..]);
    var t' := Inner(t.keys + [p.keys[i]], t.kids + [right.kids[0]]);
    LineShift(t.keys, t.kids, p.keys[i], right.kids[0], right.keys[0], right'.keys, right'.kids);
    assert right.keys == [right.keys[0]] + right'.keys && right.kids == [right.kids[0]] + right'.kids;
    PairExchanges(p.keys, p.kids, i, t', right.keys[0], right');
    assert p.kids[i := t'][i + 1 := right'] == p.kids[i + 1 := right'][i := t'];
  }

  lemma {:induction false} MergeKeepsLine(p: Tree, i: nat)
    requires p.Inner? && IsOverInner(p.keys, p.kids) && i < |p.kids|
    ensures
      var r := MergeEdges(p, i, i);
      r.Done? && r.tree.Inner? && IsOverInner(r.tree.keys, r.tree.kids) &&
      DeepLine(r.tree.keys, r.tree.kids) == DeepLine(p.keys, p.kids)
  {
    hide Line, DeepLine;
    var t := p.kids[i];
    if i > 0 {
      var left := p.kids[i - 1];
      var both := Inner(left.keys + [p.keys[i - 1]] + t.keys, left.kids + t.kids);
      LineConcat(left.keys, left.kids, p.keys[i - 1], t.keys, t.kids);
      PairJoins(p.keys, p.kids, i - 1, both);
      assert RemoveAt(p.kids[i - 1 := both][i := Inner([], [])], i) == RemoveAt(p.kids, i)[i - 1 := both];
    } else if 1 < |p.kids| {
      var right := p.kids[1];
      var both := Inner(t.keys + [p.keys[0]] + right.keys, t.kids + right.kids);
      LineConcat(t.keys, t.kids, p.keys[0], right.keys, right.kids);
      PairJoins(p.keys, p.kids, 0, both);
      assert RemoveAt(p.kids[0 := both], 1) == RemoveAt(p.kids, 1)[0 := both];
    }
  }

  predicate IsFilled(t: Tree, order: nat) {
    order / 2 <= Size(t) < order
  }

  /** The siblings that the repair can take an edge from. */
  predicate HasSpareSibling(p: Tree, i: nat, order: nat)
    requires p.Inner? && i < |p.kids|
  {
    (i > 0 && Size(p.kids[i - 1]) > order / 2) || (i + 1 < |p.kids| && Size(p.kids[i + 1]) > order / 2)
  }

  /** Then a child that has one key too few has enough of them afterwards, and so have all others.
      A child disappears exactly if there is nothing to take; without need nothing happens. */
  lemma {:induction false} RightIndexRestoresSizes(p: Tree, i: nat, order: nat)
    requires p.Inner? && IsOverInner(p.keys, p.kids) && 0 <= i < |p.kids| && |p.kids| > 1 && OddOrder(order)
    requires forall k :: 0 <= k < |p.kids| && k != i ==> IsFilled(p.kids[k], order)
    requires order / 2 - 1 <= Size(p.kids[i]) < order
    ensures
      var r := DealWithUnderflow(p, i, i, order);
      var isShort := Size(p.kids[i]) < order / 2;
      r.Done? && r.tree.Inner? && (forall k :: 0 <= k < |r.tree.kids| ==> IsFilled(r.tree.kids[k], order)) &&
      |r.tree.kids| == |p.kids| - (if isShort && !HasSpareSibling(p, i, order) then 1 else 0) &&
      (!isShort ==> r.tree == p)
  {
    var r := DealWithUnderflow(p, i, i, order);
    if Size(p.kids[i]) < order / 2 && !HasSpareSibling(p, i, order) {
      MergeIsFilled(p, i, order);
    }
  }

  lemma {:induction false} MergeIsFilled(p: Tree, i: nat, order: nat)
    requires p.Inner? && IsOverInner(p.keys, p.kids) && i < |p.kids| && |p.kids| > 1 && OddOrder(order)
    requires forall k :: 0 <= k < |p.kids| && k != i ==> IsFilled(p.kids[k], order)
    requires Size(p.kids[i]) == order / 2 - 1 && !HasSpareSibling(p, i, order)
    ensures
      var r := MergeEdges(p, i, i);
      r.Done? && r.tree.Inner? && |r.tree.kids| == |p.kids| - 1 &&
      forall k :: 0 <= k < |r.tree.kids| ==> IsFilled(r.tree.kids[k], order)
  {
    var r := MergeEdges(p, i, i);
    var at := if i > 0 then i - 1 else 0;
    assert Size(r.tree.kids[at]) == order / 2 + (order / 2 - 1) + 1;
    forall k | 0 <= k < |r.tree.kids| && k != at ensures IsFilled(r.tree.kids[k], order) {
      assert r.tree.kids[k] == if k < at then p.kids[k] else p.kids[k + 1];
    }
  }
}
