/** The latch B+ tree as a value: what insertion with splits does, and what it keeps. */
module LatchTrees {
  import opened Keys

  /** Leaves hold ranges, start keys and end keys in parallel. The keys of an inner node
      separate its children: what lies left of a key is smaller, what lies right is not. */
  datatype Tree =
    | Leaf(starts: seq<Key>, ends: seq<Key>)
    | Inner(keys: seq<Key>, kids: seq<Tree>)

  /** The first position whose key is greater than `key`. */
  function Position(keys: seq<Key>, key: Key): (pos: nat)
    ensures pos <= |keys|
    ensures forall j :: 0 <= j < pos ==> !Lt(key, keys[j])
    ensures pos < |keys| ==> Lt(key, keys[pos])
  {
    if keys == [] || Lt(key, keys[0]) then 0 else 1 + Position(keys[1..], key)
  }

  function InsertAt<T>(s: seq<T>, pos: nat, x: T): seq<T>
    requires pos <= |s|
  {
    s[..pos] + [x] + s[pos..]
  }

  /** `left` is what remains of the node, `split` the node split off it and its smallest key. */
  datatype Inserted = Inserted(acquired: bool, left: Tree, split: Option<(Key, Tree)>)

  function Size(t: Tree): nat {
    if t.Leaf? then |t.starts| else |t.keys|
  }

  /** The child at `i` is replaced by what an insertion has made of it. */
  function Replaced(t: Tree, i: nat, sub: Inserted): Tree
    requires t.Inner? && i < |t.kids| && |t.kids| == |t.keys| + 1
  {
    var kids := t.kids[i := sub.left];
    match sub.split
    case None => Inner(t.keys, kids)
    case Some((key, right)) =>
      var pos := Position(t.keys, key);
      Inner(InsertAt(t.keys, pos, key), InsertAt(kids, pos + 1, right))
  }

  function SplitLeaf(t: Tree): (Tree, Option<(Key, Tree)>)
    requires t.Leaf? && t.starts != [] && |t.starts| == |t.ends|
  {
    var mid := |t.starts| / 2;
    (Leaf(t.starts[..mid], t.ends[..mid]), Some((t.starts[mid], Leaf(t.starts[mid..], t.ends[mid..]))))
  }

  function SplitInner(t: Tree): (Tree, Option<(Key, Tree)>)
    requires t.Inner? && t.keys != [] && |t.kids| == |t.keys| + 1
  {
    var mid := |t.keys| / 2;
    (Inner(t.keys[..mid], t.kids[..mid + 1]), Some((t.keys[mid], Inner(t.keys[mid + 1..], t.kids[mid + 1..]))))
  }

  /** Parallel vectors have the same length; inner nodes have one child more than keys. */
  predicate Shaped(t: Tree) {
    if t.Leaf? then |t.starts| == |t.ends|
    else |t.keys| > 0 && |t.kids| == |t.keys| + 1 && forall i :: 0 <= i < |t.kids| ==> Shaped(t.kids[i])
  }

  function TreeInsert(t: Tree, r: Range, order: nat): Inserted
    requires Shaped(t) && order > 0
  {
    match t
    case Leaf(starts, ends) =>
      if r.startKey in starts then Inserted(false, t, None)
      else
        var pos := Position(starts, r.startKey);
        var t' := Leaf(InsertAt(starts, pos, r.startKey), InsertAt(ends, pos, r.endKey));
        if |t'.starts| < order then Inserted(true, t', None)
        else var (left, split) := SplitLeaf(t'); Inserted(true, left, split)
    case Inner(keys, kids) =>
      var i := Position(keys, r.startKey);
      var sub := TreeInsert(kids[i], r, order);
      if !sub.acquired then Inserted(false, t, None)
      else
        var t' := Replaced(t, i, sub);
        if |t'.keys| < order then Inserted(true, t', None)
        else var (left, split) := SplitInner(t'); Inserted(true, left, split)
  }

  /** A leaf keeps waiters for its first key only: refusing any other one runs off their list. */
  predicate RefusalPanics(t: Tree, key: Key)
    requires Shaped(t)
  {
    match t
    case Leaf(starts, _) => key in starts && key != starts[0]
    case Inner(keys, kids) => RefusalPanics(kids[Position(keys, key)], key)
  }

  // ---------- contents ----------

  ghost function LeafRanges(starts: seq<Key>, ends: seq<Key>): set<Range> {
    if starts == [] || ends == [] then {} else {Range(starts[0], ends[0])} + LeafRanges(starts[1..], ends[1..])
  }

  /** The ranges stored in the leaves of a tree. */
  ghost function Ranges(t: Tree): set<Range>
    decreases t, 0
  {
    if t.Leaf? then LeafRanges(t.starts, t.ends) else KidRanges(t.kids)
  }

  ghost function KidRanges(kids: seq<Tree>): set<Range>
    decreases kids, |kids|
  {
    if kids == [] then {} else Ranges(kids[0]) + KidRanges(kids[1..])
  }

  lemma {:induction false} LeafRangesConcat(s1: seq<Key>, s2: seq<Key>, e1: seq<Key>, e2: seq<Key>)
    requires |s1| == |e1|
    ensures LeafRanges(s1 + s2, e1 + e2) == LeafRanges(s1, e1) + LeafRanges(s2, e2)
  {
    if s1 == [] {
      assert s1 + s2 == s2 && e1 + e2 == e2;
    } else {
      LeafRangesConcat(s1[1..], s2, e1[1..], e2);
      assert (s1 + s2)[1..] == s1[1..] + s2 && (e1 + e2)[1..] == e1[1..] + e2;
    }
  }

  lemma {:induction false} KidRangesConcat(a: seq<Tree>, b: seq<Tree>)
    ensures KidRanges(a + b) == KidRanges(a) + KidRanges(b)
    decreases |a|
  {
    if a == [] {
      assert a + b == b;
    } else {
      KidRangesConcat(a[1..], b);
      assert (a + b)[1..] == a[1..] + b;
    }
  }

  lemma OneKid(t: Tree)
    ensures KidRanges([t]) == Ranges(t)
  {
    assert KidRanges([]) == {};
  }

  lemma {:induction false} KidRangesMember(kids: seq<Tree>, r: Range)
    ensures r in KidRanges(kids) <==> exists i :: 0 <= i < |kids| && r in Ranges(kids[i])
    decreases |kids|
  {
    if kids != [] {
      KidRangesMember(kids[1..], r);
      if r in Ranges(kids[0]) {
        assert r in KidRanges(kids);
      } else if i :| 0 <= i < |kids| && r in Ranges(kids[i]) {
        assert kids[1..][i - 1] == kids[i];
      }
    }
  }

  lemma {:induction false} LeafRangesMember(starts: seq<Key>, ends: seq<Key>, key: Key)
    requires |starts| == |ends|
    ensures key in starts <==> exists r :: r in LeafRanges(starts, ends) && r.startKey == key
  {
    if starts != [] {
      LeafRangesMember(starts[1..], ends[1..], key);
      assert starts == [starts[0]] + starts[1..];
      if key == starts[0] {
        assert Range(starts[0], ends[0]) in LeafRanges(starts, ends);
      }
    }
  }

  ghost predicate HasStart(t: Tree, key: Key) {
    exists r :: r in Ranges(t) && r.startKey == key
  }

  // ---------- well-formedness ----------

  /** `lo <= key < hi`, where missing bounds do not bound. */
  predicate Within(key: Key, lo: Option<Key>, hi: Option<Key>) {
    (lo.Some? ==> Le(lo.value, key)) && (hi.Some? ==> Lt(key, hi.value))
  }

  predicate StrictlySorted(keys: seq<Key>) {
    forall i, j :: 0 <= i < j < |keys| ==> Lt(keys[i], keys[j])
  }

  function Lower(lo: Option<Key>, keys: seq<Key>, i: nat): Option<Key>
    requires i <= |keys|
  {
    if i == 0 then lo else Some(keys[i - 1])
  }

  function Upper(hi: Option<Key>, keys: seq<Key>, i: nat): Option<Key>
    requires i <= |keys|
  {
    if i == |keys| then hi else Some(keys[i])
  }

  /** `lo < key < hi`, for the keys of inner nodes. */
  predicate Strictly(key: Key, lo: Option<Key>, hi: Option<Key>) {
    (lo.Some? ==> Lt(lo.value, key)) && (hi.Some? ==> Lt(key, hi.value))
  }

  /** All leaves are `depth` levels down, every node below `t` has between `order / 2` and
      `order - 1` keys, and all keys respect the separators. */
  ghost predicate Ordered(t: Tree, order: nat, depth: nat, lo: Option<Key>, hi: Option<Key>)
    decreases t, 0
  {
    match t
    case Leaf(starts, ends) =>
      depth == 0 && |starts| == |ends| && StrictlySorted(starts) &&
      forall i :: 0 <= i < |starts| ==> Within(starts[i], lo, hi)
    case Inner(keys, kids) =>
      depth > 0 && |keys| > 0 && |kids| == |keys| + 1 && StrictlySorted(keys) &&
      (forall i :: 0 <= i < |keys| ==> Strictly(keys[i], lo, hi)) &&
      (forall i :: 0 <= i < |kids| ==>
        WellFormed(kids[i], order, depth - 1, Lower(lo, keys, i), Upper(hi, keys, i), order / 2))
  }

  /** The same, and the top node has between `least` and `order - 1` keys. */
  ghost predicate WellFormed(t: Tree, order: nat, depth: nat, lo: Option<Key>, hi: Option<Key>, least: nat)
    decreases t, 1
  {
    least <= Size(t) < order && Ordered(t, order, depth, lo, hi)
  }

  lemma {:induction false} OrderedShaped(t: Tree, order: nat, depth: nat, lo: Option<Key>, hi: Option<Key>)
    requires Ordered(t, order, depth, lo, hi)
    ensures Shaped(t)
  {
    if t.Inner? {
      forall i | 0 <= i < |t.kids| ensures Shaped(t.kids[i]) {
        OrderedShaped(t.kids[i], order, depth - 1, Lower(lo, t.keys, i), Upper(hi, t.keys, i));
      }
    }
  }

  // ---------- one level ----------

  lemma PositionUnique(keys: seq<Key>, key: Key, i: nat)
    requires i <= |keys| && (forall j :: 0 <= j < i ==> !Lt(key, keys[j])) && (i < |keys| ==> Lt(key, keys[i]))
    ensures Position(keys, key) == i
  {
  }

  lemma InsertSorted(keys: seq<Key>, key: Key)
    requires StrictlySorted(keys) && key !in keys
    ensures StrictlySorted(InsertAt(keys, Position(keys, key), key))
  {
    hide CompareFrom;
    var pos := Position(keys, key);
    forall j | 0 <= j < pos ensures Lt(keys[j], key) {
      KeyOrder(keys[j], key, key);
      KeyOrder(key, keys[j], key);
    }
    forall j | pos <= j < |keys| ensures Lt(key, keys[j]) {
      KeyOrder(key, keys[pos], keys[j]);
      KeyOrder(keys[pos], keys[j], keys[j]);
    }
  }

  /** The slot of a key: it lies between the neighbouring separators. */
  lemma PositionWithin(keys: seq<Key>, key: Key, lo: Option<Key>, hi: Option<Key>)
    requires Within(key, lo, hi)
    ensures
      var i := Position(keys, key);
      Within(key, Lower(lo, keys, i), Upper(hi, keys, i))
  {
    hide CompareFrom;
    var i := Position(keys, key);
    if i > 0 {
      KeyOrder(key, keys[i - 1], key);
      KeyOrder(keys[i - 1], key, key);
    }
  }

  /** A separator from inside slot `i` is inserted at `i`, and the separators stay sorted. */
  lemma SeparatorPosition(keys: seq<Key>, sep: Key, i: nat, lo: Option<Key>, hi: Option<Key>)
    requires StrictlySorted(keys) && i <= |keys| && Strictly(sep, Lower(lo, keys, i), Upper(hi, keys, i))
    requires forall j :: 0 <= j < |keys| ==> Strictly(keys[j], lo, hi)
    ensures Position(keys, sep) == i && StrictlySorted(InsertAt(keys, i, sep)) && Strictly(sep, lo, hi)
  {
    hide CompareFrom;
    forall j | 0 <= j < i ensures Lt(keys[j], sep) && !Lt(sep, keys[j]) {
      KeyOrder(keys[j], keys[i - 1], sep);
      KeyOrder(keys[j], sep, keys[j]);
      KeyOrder(sep, keys[j], sep);
    }
    forall j | i <= j < |keys| ensures Lt(sep, keys[j]) {
      KeyOrder(sep, keys[i], keys[j]);
      KeyOrder(keys[i], keys[j], keys[i]);
    }
    if i > 0 && lo.Some? {
      KeyOrder(lo.value, keys[i - 1], sep);
      KeyOrder(keys[i - 1], sep, sep);
    }
    if i < |keys| && hi.Some? {
      KeyOrder(sep, keys[i], hi.value);
      KeyOrder(keys[i], hi.value, hi.value);
    }
    PositionUnique(keys, sep, i);
  }

  // ---------- leaves ----------

  lemma {:induction false} LeafInsert(t: Tree, r: Range, order: nat, lo: Option<Key>, hi: Option<Key>)
    requires t.Leaf? && Ordered(t, order, 0, lo, hi) && Within(r.startKey, lo, hi) && r.startKey !in t.starts
    ensures
      var pos := Position(t.starts, r.startKey);
      pos <= |t.ends| &&
      var t' := Leaf(InsertAt(t.starts, pos, r.startKey), InsertAt(t.ends, pos, r.endKey));
      Ordered(t', order, 0, lo, hi) && Ranges(t') == Ranges(t) + {r}
  {
    hide Lt, Le;
    InsertSorted(t.starts, r.startKey);
    var pos := Position(t.starts, r.startKey);
    var t' := Leaf(InsertAt(t.starts, pos, r.startKey), InsertAt(t.ends, pos, r.endKey));
    LeafInsertRanges(t, r, pos);
    forall i | 0 <= i < |t'.starts| ensures Within(t'.starts[i], lo, hi) {
      assert t'.starts[i] == if i < pos then t.starts[i] else if i == pos then r.startKey else t.starts[i - 1];
    }
  }

  lemma LeafInsertRanges(t: Tree, r: Range, pos: nat)
    requires t.Leaf? && |t.starts| == |t.ends| && pos <= |t.starts|
    ensures Ranges(Leaf(InsertAt(t.starts, pos, r.startKey), InsertAt(t.ends, pos, r.endKey))) == Ranges(t) + {r}
  {
    LeafRangesConcat(t.starts[..pos], t.starts[pos..], t.ends[..pos], t.ends[pos..]);
    LeafRangesConcat(t.starts[..pos] + [r.startKey], t.starts[pos..], t.ends[..pos] + [r.endKey], t.ends[pos..]);
    LeafRangesConcat(t.starts[..pos], [r.startKey], t.ends[..pos], [r.endKey]);
    assert t.starts == t.starts[..pos] + t.starts[pos..] && t.ends == t.ends[..pos] + t.ends[pos..];
  }

  lemma {:induction false} LeafSplit(t: Tree, order: nat, lo: Option<Key>, hi: Option<Key>)
    requires t.Leaf? && |t.starts| >= 2 && Ordered(t, order, 0, lo, hi)
    ensures
      var (left, split) := SplitLeaf(t);
      var (sep, right) := split.value;
      Ordered(left, order, 0, lo, Some(sep)) && Ordered(right, order, 0, Some(sep), hi) && Strictly(sep, lo, hi)
  {
    hide CompareFrom;
    var mid := |t.starts| / 2;
    var (left, split) := SplitLeaf(t);
    var (sep, right) := split.value;
    forall i | 0 <= i < |right.starts| ensures Within(right.starts[i], Some(sep), hi) {
      assert right.starts[i] == t.starts[mid + i];
      KeyOrder(sep, right.starts[i], sep);
    }
    assert Lt(t.starts[0], sep);
    if lo.Some? {
      KeyOrder(lo.value, t.starts[0], sep);
    }
  }

  lemma {:induction false} LeafSplitRanges(t: Tree)
    requires t.Leaf? && t.starts != [] && |t.starts| == |t.ends|
    ensures
      var (left, split) := SplitLeaf(t);
      Ranges(left) + Ranges(split.value.1) == Ranges(t)
  {
    var mid := |t.starts| / 2;
    LeafRangesConcat(t.starts[..mid], t.starts[mid..], t.ends[..mid], t.ends[mid..]);
    assert t.starts == t.starts[..mid] + t.starts[mid..] && t.ends == t.ends[..mid] + t.ends[mid..];
  }

  // ---------- inner nodes ----------

  /** What the insertion into a child must have achieved for its parent to be able to go on. */
  ghost predicate Good(sub: Inserted, t: Tree, r: Range, order: nat, depth: nat,
    lo: Option<Key>, hi: Option<Key>, least: nat)
  {
    (sub.acquired <==> !HasStart(t, r.startKey)) &&
    (!sub.acquired ==> sub.left == t && sub.split.None?) &&
    match sub.split
    case None =>
      WellFormed(sub.left, order, depth, lo, hi, least) &&
      Ranges(sub.left) == if sub.acquired then Ranges(t) + {r} else Ranges(t)
    case Some((sep, right)) =>
      Size(t) == order - 1 && Strictly(sep, lo, hi) &&
      WellFormed(sub.left, order, depth, lo, Some(sep), order / 2) &&
      WellFormed(right, order, depth, Some(sep), hi, order / 2) &&
      Ranges(sub.left) + Ranges(right) == Ranges(t) + {r}
  }

  /** The slots after a separator has been inserted into slot `i`: it is cut in two. */
  lemma CutSlot(keys: seq<Key>, sep: Key, i: nat, lo: Option<Key>, hi: Option<Key>, j: nat)
    requires i <= |keys| && j <= |keys| + 1
    ensures
      var keys' := InsertAt(keys, i, sep);
      Lower(lo, keys', j) ==
        (if j <= i then Lower(lo, keys, j) else if j == i + 1 then Some(sep) else Lower(lo, keys, j - 1)) &&
      Upper(hi, keys', j) == if j < i then Upper(hi, keys, j) else if j == i then Some(sep) else Upper(hi, keys, j - 1)
  {
  }

  lemma {:induction false} ReplacedOrdered(t: Tree, r: Range, order: nat, depth: nat, lo: Option<Key>,
      hi: Option<Key>, i: nat,
      sub: Inserted)
    requires t.Inner? && Ordered(t, order, depth, lo, hi) && i < |t.kids|
    requires Good(sub, t.kids[i], r, order, depth - 1, Lower(lo, t.keys, i), Upper(hi, t.keys, i), order / 2)
    ensures Ordered(Replaced(t, i, sub), order, depth, lo, hi)
  {
    hide Lt, Le, Strictly, Within, Ranges, HasStart, WellFormed;
    match sub.split
    case None =>
    case Some((sep, right)) =>
      SeparatorPosition(t.keys, sep, i, lo, hi);
      CutOrdered(t, order, depth, lo, hi, i, sub.left, sep, right);
  }

  lemma {:induction false} CutOrdered(t: Tree, order: nat, depth: nat, lo: Option<Key>, hi: Option<Key>, i: nat,
    left: Tree, sep: Key, right: Tree)
    requires t.Inner? && Ordered(t, order, depth, lo, hi) && i < |t.kids|
    requires WellFormed(left, order, depth - 1, Lower(lo, t.keys, i), Some(sep), order / 2)
    requires WellFormed(right, order, depth - 1, Some(sep), Upper(hi, t.keys, i), order / 2)
    requires StrictlySorted(InsertAt(t.keys, i, sep)) && Strictly(sep, lo, hi)
    ensures Ordered(Inner(InsertAt(t.keys, i, sep), InsertAt(t.kids[i := left], i + 1, right)), order, depth, lo, hi)
  {
    hide Lt, Le, Strictly, Within, WellFormed, StrictlySorted, Lower, Upper;
    var keys, kids := InsertAt(t.keys, i, sep), InsertAt(t.kids[i := left], i + 1, right);
    forall j | 0 <= j < |keys| ensures Strictly(keys[j], lo, hi) {
      assert keys[j] == if j < i then t.keys[j] else if j == i then sep else t.keys[j - 1];
    }
    forall j | 0 <= j < |kids|
      ensures WellFormed(kids[j], order, depth - 1, Lower(lo, keys, j), Upper(hi, keys, j), order / 2)
    {
      CutSlot(t.keys, sep, i, lo, hi, j);
      assert kids[j] ==
        if j < i then t.kids[j] else if j == i then left else if j == i + 1 then right else t.kids[j - 1];
    }
  }

  /** The children's ranges change in one child only. */
  lemma ReplacedRanges(t: Tree, i: nat, sub: Inserted, r: Range)
    requires t.Inner? && |t.kids| == |t.keys| + 1 && i < |t.kids|
    requires sub.split.Some? ==> Position(t.keys, sub.split.value.0) == i
    requires (Ranges(sub.left) + if sub.split.Some? then Ranges(sub.split.value.1) else {}) == Ranges(t.kids[i]) + {r}
    ensures Ranges(Replaced(t, i, sub)) == Ranges(t) + {r}
  {
    hide Ranges, KidRanges;
    var t' := Replaced(t, i, sub);
    var before, after := t.kids[..i], t.kids[i + 1..];
    InnerRanges(t);
    InnerRanges(t');
    assert t.kids == before + [t.kids[i]] + after;
    KidRangesConcat(before + [t.kids[i]], after);
    KidRangesConcat(before, [t.kids[i]]);
    OneKid(t.kids[i]);
    OneKid(sub.left);
    KidRangesConcat(before, [sub.left]);
    if sub.split.None? {
      assert t'.kids == before + [sub.left] + after;
      KidRangesConcat(before + [sub.left], after);
    } else {
      var right := sub.split.value.1;
      assert t'.kids == before + [sub.left] + [right] + after;
      OneKid(right);
      KidRangesConcat(before + [sub.left], [right]);
      KidRangesConcat(before + [sub.left] + [right], after);
    }
  }

  lemma InnerRanges(t: Tree)
    requires t.Inner?
    ensures Ranges(t) == KidRanges(t.kids)
  {
  }

  lemma {:induction false} InnerSplit(t: Tree, order: nat, depth: nat, lo: Option<Key>, hi: Option<Key>)
    requires t.Inner? && |t.keys| >= 3 && Ordered(t, order, depth, lo, hi)
    ensures
      var (left, split) := SplitInner(t);
      var (sep, right) := split.value;
      Ordered(left, order, depth, lo, Some(sep)) && Ordered(right, order, depth, Some(sep), hi) &&
      Strictly(sep, lo, hi)
  {
    hide Lt, Le, Within, WellFormed;
    var mid := |t.keys| / 2;
    var (left, split) := SplitInner(t);
    var (sep, right) := split.value;
    forall j | 0 <= j < |right.kids|
      ensures WellFormed(right.kids[j], order, depth - 1, Lower(Some(sep), right.keys, j),
                         Upper(hi, right.keys, j), order / 2)
    {
      assert right.kids[j] == t.kids[mid + 1 + j];
    }
    forall j | 0 <= j < |left.kids|
      ensures WellFormed(left.kids[j], order, depth - 1, Lower(lo, left.keys, j),
                         Upper(Some(sep), left.keys, j), order / 2)
    {
      assert left.kids[j] == t.kids[j];
    }
  }

  lemma InnerSplitRanges(t: Tree)
    requires t.Inner? && t.keys != [] && |t.kids| == |t.keys| + 1
    ensures
      var (left, split) := SplitInner(t);
      Ranges(left) + Ranges(split.value.1) == Ranges(t)
  {
    var mid := |t.keys| / 2;
    KidRangesConcat(t.kids[..mid + 1], t.kids[mid + 1..]);
    assert t.kids == t.kids[..mid + 1] + t.kids[mid + 1..];
  }

  // ---------- the search finds the only place of a key ----------

  lemma {:induction false} LeafRangesStarts(starts: seq<Key>, ends: seq<Key>)
    ensures forall r :: r in LeafRanges(starts, ends) ==> r.startKey in starts
  {
    if starts != [] && ends != [] {
      LeafRangesStarts(starts[1..], ends[1..]);
      assert starts == [starts[0]] + starts[1..];
    }
  }

  lemma {:induction false} RangesWithin(t: Tree, order: nat, depth: nat, lo: Option<Key>, hi: Option<Key>)
    requires Ordered(t, order, depth, lo, hi)
    ensures forall r :: r in Ranges(t) ==> Within(r.startKey, lo, hi)
  {
    if t.Inner? {
      hide CompareFrom;
      forall r | r in Ranges(t) ensures Within(r.startKey, lo, hi) {
        KidRangesMember(t.kids, r);
        var i :| 0 <= i < |t.kids| && r in Ranges(t.kids[i]);
        RangesWithin(t.kids[i], order, depth - 1, Lower(lo, t.keys, i), Upper(hi, t.keys, i));
        if i > 0 && lo.Some? {
          KeyOrder(lo.value, t.keys[i - 1], r.startKey);
          KeyOrder(lo.value, r.startKey, r.startKey);
        }
        if i < |t.keys| && hi.Some? {
          KeyOrder(r.startKey, t.keys[i], hi.value);
          KeyOrder(t.keys[i], hi.value, hi.value);
        }
      }
    } else {
      LeafRangesStarts(t.starts, t.ends);
    }
  }

  lemma OnlyInItsSlot(t: Tree, order: nat, depth: nat, lo: Option<Key>, hi: Option<Key>, key: Key)
    requires t.Inner? && Ordered(t, order, depth, lo, hi)
    ensures
      var i := Position(t.keys, key);
      HasStart(t, key) <==> HasStart(t.kids[i], key)
  {
    hide CompareFrom;
    var i := Position(t.keys, key);
    forall r | r in Ranges(t) && r.startKey == key ensures r in Ranges(t.kids[i]) {
      KidRangesMember(t.kids, r);
      var j :| 0 <= j < |t.kids| && r in Ranges(t.kids[j]);
      RangesWithin(t.kids[j], order, depth - 1, Lower(lo, t.keys, j), Upper(hi, t.keys, j));
      if j > i {
        KeyOrder(t.keys[i], t.keys[j - 1], key);
        KeyOrder(t.keys[i], key, t.keys[i]);
        KeyOrder(key, t.keys[i], key);
      }
    }
    forall r | r in Ranges(t.kids[i]) ensures r in Ranges(t) {
      KidRangesMember(t.kids, r);
    }
  }

  // ---------- insertion ----------

  predicate OddOrder(order: nat) {
    order >= 3 && order % 2 == 1
  }

  lemma {:induction false} InsertIsGood(t: Tree, r: Range, order: nat, depth: nat, lo: Option<Key>, hi: Option<Key>,
      least: nat)
    requires OddOrder(order) && WellFormed(t, order, depth, lo, hi, least) && Within(r.startKey, lo, hi)
    ensures Shaped(t) && Good(TreeInsert(t, r, order), t, r, order, depth, lo, hi, least)
    decreases t
  {
    OrderedShaped(t, order, depth, lo, hi);
    if t.Leaf? {
      LeafInsertIsGood(t, r, order, lo, hi, least);
    } else {
      var i := Position(t.keys, r.startKey);
      PositionWithin(t.keys, r.startKey, lo, hi);
      InsertIsGood(t.kids[i], r, order, depth - 1, Lower(lo, t.keys, i), Upper(hi, t.keys, i), order / 2);
      InnerInsertIsGood(t, r, order, depth, lo, hi, least, TreeInsert(t.kids[i], r, order));
    }
  }

  lemma {:induction false} SafeChildNeverSplits(t: Tree, r: Range, order: nat)
    requires Shaped(t) && order > 0 && Size(t) < order - 1
    ensures TreeInsert(t, r, order).split.None?
  {
    if t.Inner? {
      var i := Position(t.keys, r.startKey);
      var sub := TreeInsert(t.kids[i], r, order);
    }
  }

  lemma LeafRangesOf(t: Tree)
    requires t.Leaf?
    ensures Ranges(t) == LeafRanges(t.starts, t.ends)
  {
  }

  lemma {:induction false} LeafInsertIsGood(t: Tree, r: Range, order: nat, lo: Option<Key>, hi: Option<Key>, least: nat)
    requires OddOrder(order) && t.Leaf? && WellFormed(t, order, 0, lo, hi, least) && Within(r.startKey, lo, hi)
    ensures Shaped(t) && Good(TreeInsert(t, r, order), t, r, order, 0, lo, hi, least)
  {
    hide Lt, Le, Ranges, StrictlySorted, Within;
    LeafRangesMember(t.starts, t.ends, r.startKey);
    LeafRangesOf(t);
    if r.startKey !in t.starts {
      LeafInsert(t, r, order, lo, hi);
      var pos := Position(t.starts, r.startKey);
      var t' := Leaf(InsertAt(t.starts, pos, r.startKey), InsertAt(t.ends, pos, r.endKey));
      if |t'.starts| == order {
        LeafSplitIsGood(t, t', r, order, lo, hi, least);
      }
    }
  }

  lemma {:induction false} LeafSplitIsGood(t: Tree, t': Tree, r: Range, order: nat, lo: Option<Key>, hi: Option<Key>,
      least: nat)
    requires OddOrder(order) && t'.Leaf? && Ordered(t', order, 0, lo, hi) && Size(t') == order == Size(t) + 1
    requires Ranges(t') == Ranges(t) + {r} && !HasStart(t, r.startKey)
    ensures
      var (left, split) := SplitLeaf(t');
      Good(Inserted(true, left, split), t, r, order, 0, lo, hi, least)
  {
    hide Lt, Le, Ranges, StrictlySorted, Strictly, HasStart;
    LeafSplit(t', order, lo, hi);
    LeafSplitRanges(t');
  }

  lemma {:induction false} InnerInsertIsGood(t: Tree, r: Range, order: nat, depth: nat, lo: Option<Key>,
      hi: Option<Key>, least: nat,
      sub: Inserted)
    requires OddOrder(order) && t.Inner? && Shaped(t) && depth > 0 && WellFormed(t, order, depth, lo, hi, least)
    requires
      var i := Position(t.keys, r.startKey);
      sub == TreeInsert(t.kids[i], r, order) &&
      Good(sub, t.kids[i], r, order, depth - 1, Lower(lo, t.keys, i), Upper(hi, t.keys, i), order / 2)
    ensures Good(TreeInsert(t, r, order), t, r, order, depth, lo, hi, least)
  {
    hide Lt, Le, Ranges, HasStart, StrictlySorted, Shaped, Strictly;
    var i := Position(t.keys, r.startKey);
    OnlyInItsSlot(t, order, depth, lo, hi, r.startKey);
    if sub.acquired {
      ReplacedOrdered(t, r, order, depth, lo, hi, i, sub);
      if sub.split.Some? {
        SeparatorPosition(t.keys, sub.split.value.0, i, lo, hi);
      }
      ReplacedRanges(t, i, sub, r);
      var t' := Replaced(t, i, sub);
      if |t'.keys| == order {
        InnerSplitIsGood(t, t', r, order, depth, lo, hi, least);
      }
    }
  }

  lemma {:induction false} InnerSplitIsGood(t: Tree, t': Tree, r: Range, order: nat, depth: nat, lo: Option<Key>,
      hi: Option<Key>,
      least: nat)
    requires OddOrder(order) && t'.Inner? && Ordered(t', order, depth, lo, hi) && Size(t') == order == Size(t) + 1
    requires Ranges(t') == Ranges(t) + {r} && !HasStart(t, r.startKey)
    ensures
      var (left, split) := SplitInner(t');
      Good(Inserted(true, left, split), t, r, order, depth, lo, hi, least)
  {
    hide Lt, Le, Ranges, StrictlySorted, Strictly, HasStart;
    InnerSplit(t', order, depth, lo, hi);
    InnerSplitRanges(t');
  }

  /** A root that splits becomes the left child of a new root. */
  function NewRoot(ins: Inserted): Tree {
    match ins.split
    case None => ins.left
    case Some((sep, right)) => Inner([sep], [ins.left, right])
  }

  function LeastAtRoot(t: Tree): nat {
    if t.Leaf? then 0 else 1
  }

  /** Inserting at the root of a whole tree, whatever the depth, keeps it well-formed, and all
      leaves move down by one level exactly if the root splits. */
  lemma {:induction false} RootInsert(t: Tree, r: Range, order: nat, depth: nat)
    requires OddOrder(order) && WellFormed(t, order, depth, None, None, LeastAtRoot(t))
    ensures Shaped(t)
    ensures
      var ins := TreeInsert(t, r, order);
      var t' := NewRoot(ins);
      WellFormed(t', order, if ins.split.Some? then depth + 1 else depth, None, None, LeastAtRoot(t')) &&
      (ins.acquired <==> !HasStart(t, r.startKey)) &&
      Ranges(t') == if ins.acquired then Ranges(t) + {r} else Ranges(t)
  {
    hide Ranges, KidRanges, HasStart;
    InsertIsGood(t, r, order, depth, None, None, LeastAtRoot(t));
    var ins := TreeInsert(t, r, order);
    if ins.split.Some? {
      var (sep, right) := ins.split.value;
      InnerRanges(NewRoot(ins));
      assert [ins.left, right] == [ins.left] + [right];
      KidRangesConcat([ins.left], [right]);
      OneKid(ins.left);
      OneKid(right);
    }
  }

  // ---------- runs ----------

  /** A tree after any sequence of insertions into an empty one, with its depth. */
  function InsertAll(rs: seq<Range>, order: nat): (Tree, nat)
    requires OddOrder(order)
    ensures var (t, depth) := InsertAll(rs, order); WellFormed(t, order, depth, None, None, LeastAtRoot(t))
  {
    if rs == [] then (Leaf([], []), 0)
    else
      var (t, depth) := InsertAll(rs[..|rs| - 1], order);
      RootInsert(t, rs[|rs| - 1], order, depth);
      var ins := TreeInsert(t, rs[|rs| - 1], order);
      (NewRoot(ins), if ins.split.Some? then depth + 1 else depth)
  }

  lemma {:induction false} InsertAllStep(rs: seq<Range>, order: nat)
    requires OddOrder(order) && rs != []
    ensures
      var last := rs[|rs| - 1];
      var t, t' := InsertAll(rs[..|rs| - 1], order).0, InsertAll(rs, order).0;
      Ranges(t') == if HasStart(t, last.startKey) then Ranges(t) else Ranges(t) + {last}
  {
    hide WellFormed, TreeInsert, NewRoot, Ranges, HasStart;
    var (t, depth) := InsertAll(rs[..|rs| - 1], order);
    RootInsert(t, rs[|rs| - 1], order, depth);
  }

  predicate Seen(rs: seq<Range>, key: Key) {
    exists i :: 0 <= i < |rs| && rs[i].startKey == key
  }

  /** `r` was inserted, and no range with its start key before it. */
  predicate FirstWithStart(rs: seq<Range>, r: Range) {
    exists i :: 0 <= i < |rs| && rs[i] == r && !Seen(rs[..i], r.startKey)
  }

  lemma SeenStep(rs: seq<Range>, key: Key, r: Range)
    requires rs != []
    ensures
      var n := |rs| - 1;
      (Seen(rs, key) <==> Seen(rs[..n], key) || rs[n].startKey == key) &&
      (FirstWithStart(rs, r) <==> FirstWithStart(rs[..n], r) || (rs[n] == r && !Seen(rs[..n], r.startKey)))
  {
    var n := |rs| - 1;
    if i :| 0 <= i < n && rs[i].startKey == key {
      assert rs[..n][i].startKey == key;
    }
    if i :| 0 <= i < |rs[..n]| && rs[..n][i] == r && !Seen(rs[..n][..i], r.startKey) {
      assert rs[..n][..i] == rs[..i] && rs[i] == r;
    }
    if i :| 0 <= i < n && rs[i] == r && !Seen(rs[..i], r.startKey) {
      assert rs[..n][..i] == rs[..i] && rs[..n][i] == r;
    }
  }

  lemma {:induction false} StartsSeen(rs: seq<Range>, order: nat, key: Key)
    requires OddOrder(order)
    ensures HasStart(InsertAll(rs, order).0, key) <==> Seen(rs, key)
    decreases |rs|
  {
    hide InsertAll, Ranges, Seen, FirstWithStart;
    if rs == [] {
      NothingInserted(order, key, Range(key, key));
    } else {
      InsertAllStep(rs, order);
      StartsSeen(rs[..|rs| - 1], order, key);
      SeenStep(rs, key, Range(key, key));
      var t, t' := InsertAll(rs[..|rs| - 1], order).0, InsertAll(rs, order).0;
      var last := rs[|rs| - 1];
      if HasStart(t, key) {
        var x :| x in Ranges(t) && x.startKey == key;
        assert x in Ranges(t');
      } else if last.startKey == key {
        assert last in Ranges(t');
      }
    }
  }

  lemma NothingInserted(order: nat, key: Key, r: Range)
    requires OddOrder(order)
    ensures !HasStart(InsertAll([], order).0, key) && !Seen([], key) && !FirstWithStart([], r)
    ensures Ranges(InsertAll([], order).0) == {}
  {
  }

  /** The leaves hold, for every start key, the first range that was inserted with it. */
  lemma {:induction false} FirstComeFirstServed(rs: seq<Range>, order: nat, r: Range)
    requires OddOrder(order)
    ensures r in Ranges(InsertAll(rs, order).0) <==> FirstWithStart(rs, r)
    decreases |rs|
  {
    hide InsertAll, Ranges, Seen, FirstWithStart, HasStart;
    if rs == [] {
      NothingInserted(order, r.startKey, r);
    } else {
      InsertAllStep(rs, order);
      FirstComeFirstServed(rs[..|rs| - 1], order, r);
      SeenStep(rs, r.startKey, r);
      StartsSeen(rs[..|rs| - 1], order, rs[|rs| - 1].startKey);
    }
  }
}
