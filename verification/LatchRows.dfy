/** The leaves below one inner node of the latch B+ tree, and how deletion moves their ranges. */
module LatchRows {
  import opened Keys
  import opened LatchTrees
  import opened LatchLines

  /** The content of a leaf: start keys and end keys in parallel. */
  datatype Row = Row(starts: seq<Key>, ends: seq<Key>) {
    predicate Tidy() {
      |starts| == |ends| && StrictlySorted(starts)
    }

    /** Without the range at `i`. */
    function Drop(i: nat): Row
      requires i < |starts| && |starts| == |ends|
    {
      Row(RemoveAt(starts, i), RemoveAt(ends, i))
    }

    function Append(right: Row): Row {
      Row(starts + right.starts, ends + right.ends)
    }

    function Slice(from: nat, to: nat): Row
      requires from <= to <= |starts| && |starts| == |ends|
    {
      Row(starts[from..to], ends[from..to])
    }
  }

  function Zip(row: Row): seq<Range>
    requires row.Tidy()
  {
    seq(|row.starts|, i requires 0 <= i < |row.starts| => Range(row.starts[i], row.ends[i]))
  }

  /** The ranges of several leaves from left to right. */
  function Flat(rows: seq<Row>): seq<Range>
    requires forall j :: 0 <= j < |rows| ==> rows[j].Tidy()
  {
    if rows == [] then [] else Zip(rows[0]) + Flat(rows[1..])
  }

  /** The separators of an inner node and the leaves between them. */
  datatype Family = Family(separators: seq<Key>, rows: seq<Row>) {
    /** A key `k` of the leaf at `i` has `separators[i - 1] <= k < separators[i]`. */
    predicate InOrder() {
      |rows| == |separators| + 1 && StrictlySorted(separators) &&
      forall j :: 0 <= j < |rows| ==> rows[j].Tidy() && InSlot(rows[j].starts, separators, j)
    }

    function Contents(): seq<Range>
      requires InOrder()
    {
      Flat(rows)
    }

    /** Every leaf is at least half full and has room for one more key before it splits. */
    predicate Occupied(order: nat) {
      forall j :: 0 <= j < |rows| ==> order / 2 <= |rows[j].starts| < order
    }

    /** The leaf at `i` and the next one. */
    predicate HaveNoSpare(i: nat, order: nat)
      requires i + 1 < |rows|
    {
      |rows[i].starts| <= order / 2 && |rows[i + 1].starts| <= order / 2
    }

    function Drop(i: nat, pos: nat): Family
      requires i < |rows| && pos < |rows[i].starts| && |rows[i].starts| == |rows[i].ends|
    {
      Family(separators, rows[i := rows[i].Drop(pos)])
    }

    /** The last range of leaf `i` moves to leaf `i + 1`. */
    function ShiftRight(i: nat): Family
      requires InOrder() && i + 1 < |rows| && rows[i].starts != []
    {
      var n := |rows[i].starts| - 1;
      Family(separators[i := rows[i].starts[n]],
             rows[i := rows[i].Slice(0, n)][i + 1 := rows[i].Slice(n, n + 1).Append(rows[i + 1])])
    }

    /** The first range of leaf `i + 1` moves to leaf `i`. */
    function ShiftLeft(i: nat): Family
      requires InOrder() && i + 1 < |rows| && |rows[i + 1].starts| > 1
    {
      var right := rows[i + 1];
      Family(separators[i := right.starts[1]],
             rows[i := rows[i].Append(right.Slice(0, 1))][i + 1 := right.Slice(1, |right.starts|)])
    }

    /** Leaf `i + 1` joins leaf `i`. */
    function Join(i: nat): Family
      requires i + 1 < |rows| && |rows| == |separators| + 1
    {
      Family(RemoveAt(separators, i), RemoveAt(rows, i + 1)[i := rows[i].Append(rows[i + 1])])
    }
  }

  /** The keys of the child at `i` lie between the separators around it. */
  predicate InSlot(keys: seq<Key>, separators: seq<Key>, i: nat)
    requires i <= |separators|
  {
    forall k :: k in keys ==> Within(k, Lower(None, separators, i), Upper(None, separators, i))
  }

  /** What became of a deletion. `Kept` and `StoleRight` return a key for the ancestors; in a leaf
      that is `AtRoot`, having no parent, nothing is repaired. */
  datatype Deletion = NotFound | AtRoot | Kept(next: Key) | StoleLeft | StoleRight(stolen: Key) | Joined | Panicked

  // ---------- contents ----------

  /** `after` is `before` without its range that starts at `key`. */
  predicate Removed(before: seq<Range>, key: Key, after: seq<Range>) {
    exists i :: 0 <= i < |before| && before[i].startKey == key && after == RemoveAt(before, i)
  }

  lemma RemovedInside(left: seq<Range>, before: seq<Range>, key: Key, after: seq<Range>, right: seq<Range>)
    requires Removed(before, key, after)
    ensures Removed(left + before + right, key, left + after + right)
  {
    var i :| 0 <= i < |before| && before[i].startKey == key && after == RemoveAt(before, i);
    assert (left + before + right)[|left| + i] == before[i];
    assert left + after + right == RemoveAt(left + before + right, |left| + i);
  }

  lemma {:induction false} FlatConcat(a: seq<Row>, b: seq<Row>)
    requires forall j :: 0 <= j < |a| ==> a[j].Tidy()
    requires forall j :: 0 <= j < |b| ==> b[j].Tidy()
    ensures Flat(a + b) == Flat(a) + Flat(b)
    decreases |a|
  {
    if a == [] {
      assert a + b == b;
    } else {
      FlatConcat(a[1..], b);
      assert (a + b)[1..] == a[1..] + b;
    }
  }

  /** The leaves before, at and after a place. */
  lemma {:induction false} FlatAround(a: seq<Row>, mid: seq<Row>, b: seq<Row>)
    requires forall j :: 0 <= j < |a| ==> a[j].Tidy()
    requires forall j :: 0 <= j < |mid| ==> mid[j].Tidy()
    requires forall j :: 0 <= j < |b| ==> b[j].Tidy()
    ensures Flat(a + mid + b) == Flat(a) + Flat(mid) + Flat(b)
  {
    FlatConcat(a + mid, b);
    FlatConcat(a, mid);
  }

  lemma FlatFew(x: Row, y: Row)
    requires x.Tidy() && y.Tidy()
    ensures Flat([x]) == Zip(x) && Flat([x, y]) == Zip(x) + Zip(y)
  {
    assert [x, y][1..] == [y] && [y][1..] == [] && [x][1..] == [];
  }

  // ---------- the steps ----------

  lemma DropKeeps(f: Family, i: nat, pos: nat)
    requires f.InOrder() && i < |f.rows| && pos < |f.rows[i].starts|
    ensures f.Drop(i, pos).InOrder()
    ensures Removed(f.Contents(), f.rows[i].starts[pos], f.Drop(i, pos).Contents())
  {
    hide CompareFrom;
    var f' := f.Drop(i, pos);
    var row, row' := f.rows[i], f'.rows[i];
    forall k | k in row'.starts ensures k in row.starts {
    }
    assert row'.Tidy();
    DropContents(f, i, pos);
  }

  lemma DropContents(f: Family, i: nat, pos: nat)
    requires f.InOrder() && i < |f.rows| && pos < |f.rows[i].starts| && f.Drop(i, pos).InOrder()
    ensures Removed(f.Contents(), f.rows[i].starts[pos], f.Drop(i, pos).Contents())
  {
    hide CompareFrom, InSlot, StrictlySorted;
    var row, row', a, b := f.rows[i], f.rows[i].Drop(pos), f.rows[..i], f.rows[i + 1..];
    assert f.Drop(i, pos).rows[i].Tidy();
    assert f.rows == a + [row] + b && f.Drop(i, pos).rows == a + [row'] + b;
    FlatAround(a, [row], b);
    FlatAround(a, [row'], b);
    FlatFew(row, row);
    FlatFew(row', row');
    assert Zip(row') == RemoveAt(Zip(row), pos) && Zip(row)[pos].startKey == row.starts[pos];
    RemovedInside(Flat(a), Zip(row), row.starts[pos], Zip(row'), Flat(b));
  }

  /** Two neighbours exchange ranges without a change to their concatenation. */
  lemma PairFlat(rows: seq<Row>, i: nat, x: Row, y: Row)
    requires i + 1 < |rows| && x.Tidy() && y.Tidy()
    requires forall j :: 0 <= j < |rows| ==> rows[j].Tidy()
    requires Zip(x) + Zip(y) == Zip(rows[i]) + Zip(rows[i + 1])
    ensures Flat(rows[i := x][i + 1 := y]) == Flat(rows)
  {
    var a, b := rows[..i], rows[i + 2..];
    assert rows == a + [rows[i], rows[i + 1]] + b;
    assert rows[i := x][i + 1 := y] == a + [x, y] + b;
    FlatAround(a, [rows[i], rows[i + 1]], b);
    FlatAround(a, [x, y], b);
    FlatFew(rows[i], rows[i + 1]);
    FlatFew(x, y);
  }

  lemma {:induction false} ShiftRightKeeps(f: Family, i: nat)
    requires f.InOrder() && i + 1 < |f.rows| && |f.rows[i].starts| > 1
    ensures f.ShiftRight(i).InOrder() && f.ShiftRight(i).Contents() == f.Contents()
    ensures
      var last := f.rows[i].starts[|f.rows[i].starts| - 1];
      Position(f.rows[i + 1].starts, last) == 0 && last !in f.rows[i + 1].starts
  {
    hide CompareFrom;
    var f' := f.ShiftRight(i);
    var left, right, n := f.rows[i], f.rows[i + 1], |f.rows[i].starts| - 1;
    var last := left.starts[n];
    LastMovesRight(left.starts, right.starts, f.separators, i);
    assert f'.rows[i].starts == left.starts[..n] && f'.rows[i + 1].starts == [last] + right.starts;
    forall j | 0 <= j < |f'.rows| ensures f'.rows[j].Tidy() && InSlot(f'.rows[j].starts, f'.separators, j) {
      if j != i && j != i + 1 {
        assert f'.rows[j] == f.rows[j] && f.rows[j].Tidy();
      }
    }
    assert Zip(f'.rows[i]) + Zip(f'.rows[i + 1]) == Zip(left) + Zip(right);
    PairFlat(f.rows, i, f'.rows[i], f'.rows[i + 1]);
  }

  lemma NewSeparator(separators: seq<Key>, i: nat, key: Key)
    requires i < |separators| && StrictlySorted(separators)
    requires i > 0 ==> Lt(separators[i - 1], key)
    requires i + 1 < |separators| ==> Lt(key, separators[i + 1])
    ensures StrictlySorted(separators[i := key])
  {
    hide CompareFrom;
    forall j | 0 <= j < i ensures Lt(separators[j], key) {
      KeyOrder(separators[j], separators[i - 1], key);
      KeyOrder(separators[i - 1], key, key);
    }
    forall j | i < j < |separators| ensures Lt(key, separators[j]) {
      KeyOrder(key, separators[i + 1], separators[j]);
      KeyOrder(separators[i + 1], separators[j], key);
    }
  }

  /** A greatest key that moves to the right neighbour becomes the separator. */
  lemma LastMovesRight(left: seq<Key>, right: seq<Key>, separators: seq<Key>, i: nat)
    requires i < |separators| && |left| > 1 && StrictlySorted(separators) && StrictlySorted(left) &&
      StrictlySorted(right)
    requires InSlot(left, separators, i) && InSlot(right, separators, i + 1)
    ensures
      var n := |left| - 1;
      var separators' := separators[i := left[n]];
      StrictlySorted(separators') && InSlot(left[..n], separators', i) &&
      InSlot([left[n]] + right, separators', i + 1) && StrictlySorted([left[n]] + right) &&
      Position(right, left[n]) == 0 && left[n] !in right
  {
    hide CompareFrom;
    var last, was := left[|left| - 1], separators[i];
    assert last in left && left[0] in left && Lt(left[0], last) && Lt(last, was);
    forall k | k in right ensures Lt(last, k) && k != last {
      KeyOrder(last, was, k);
      KeyOrder(last, k, k);
      KeyOrder(k, k, k);
    }
    KeyOrder(last, last, last);
    if i > 0 {
      KeyOrder(separators[i - 1], left[0], last);
    }
    if i + 1 < |separators| {
      KeyOrder(was, separators[i + 1], was);
      KeyOrder(last, was, separators[i + 1]);
    }
    NewSeparator(separators, i, last);
    forall k | k in left[..|left| - 1] ensures Lt(k, last) && k in left {
    }
  }

  lemma {:induction false} ShiftLeftKeeps(f: Family, i: nat)
    requires f.InOrder() && i + 1 < |f.rows| && |f.rows[i + 1].starts| > 1
    ensures f.ShiftLeft(i).InOrder() && f.ShiftLeft(i).Contents() == f.Contents()
    ensures
      var first := f.rows[i + 1].starts[0];
      Position(f.rows[i].starts, first) == |f.rows[i].starts| && first !in f.rows[i].starts
  {
    hide CompareFrom;
    var f' := f.ShiftLeft(i);
    var left, right := f.rows[i], f.rows[i + 1];
    FirstMovesLeft(left.starts, right.starts, f.separators, i);
    assert f'.rows[i].starts == left.starts + [right.starts[0]] && f'.rows[i + 1].starts == right.starts[1..];
    forall j | 0 <= j < |f'.rows| ensures f'.rows[j].Tidy() && InSlot(f'.rows[j].starts, f'.separators, j) {
      if j != i && j != i + 1 {
        assert f'.rows[j] == f.rows[j] && f.rows[j].Tidy();
      }
    }
    assert Zip(f'.rows[i]) + Zip(f'.rows[i + 1]) == Zip(left) + Zip(right);
    PairFlat(f.rows, i, f'.rows[i], f'.rows[i + 1]);
  }

  /** When a smallest key moves to the left neighbour, the next one becomes the separator. */
  lemma {:induction false} FirstMovesLeft(left: seq<Key>, right: seq<Key>, separators: seq<Key>, i: nat)
    requires i < |separators| && |right| > 1 && StrictlySorted(separators) && StrictlySorted(left) &&
      StrictlySorted(right)
    requires InSlot(left, separators, i) && InSlot(right, separators, i + 1)
    ensures
      var separators' := separators[i := right[1]];
      StrictlySorted(separators') && InSlot(left + [right[0]], separators', i) &&
      InSlot(right[1..], separators', i + 1) && StrictlySorted(left + [right[0]]) &&
      Position(left, right[0]) == |left| && right[0] !in left
  {
    hide CompareFrom;
    var first, second, was := right[0], right[1], separators[i];
    assert first in right && second in right;
    KeyOrder(was, first, second);
    forall k | k in left ensures Lt(k, first) && Lt(k, second) && !Lt(first, k) && k != first {
      KeyOrder(k, was, first);
      KeyOrder(k, first, second);
      KeyOrder(first, k, first);
      KeyOrder(k, first, k);
    }
    KeyOrder(first, first, first);
    forall k | k in right[1..] ensures Le(second, k) && k in right {
      KeyOrder(second, k, k);
      KeyOrder(k, k, k);
    }
    if i > 0 {
      KeyOrder(separators[i - 1], was, first);
      KeyOrder(separators[i - 1], first, second);
    }
    NewSeparator(separators, i, second);
    PositionUnique(left, first, |left|);
    assert forall j :: 1 <= j < |right| ==> right[1..][j - 1] == right[j];
    assert InSlot(left + [first], separators[i := second], i);
  }

  lemma JoinKeeps(f: Family, i: nat)
    requires f.InOrder() && i + 1 < |f.rows|
    ensures f.Join(i).InOrder() && f.Join(i).Contents() == f.Contents()
  {
    hide CompareFrom;
    var f' := f.Join(i);
    var left, right := f.rows[i], f.rows[i + 1];
    NeighboursJoin(left.starts, right.starts, f.separators, i);
    forall j | 0 <= j < |f'.rows| ensures f'.rows[j].Tidy() && InSlot(f'.rows[j].starts, f'.separators, j) {
      if j < i {
        assert f'.rows[j] == f.rows[j];
      } else if j > i {
        assert f'.rows[j] == f.rows[j + 1];
      }
    }
    JoinContents(f, i);
  }

  lemma JoinContents(f: Family, i: nat)
    requires f.InOrder() && i + 1 < |f.rows| && f.Join(i).InOrder()
    ensures f.Join(i).Contents() == f.Contents()
  {
    hide CompareFrom, InSlot, StrictlySorted;
    var left, right, a, b := f.rows[i], f.rows[i + 1], f.rows[..i], f.rows[i + 2..];
    var both := left.Append(right);
    assert f.Join(i).rows[i].Tidy();
    assert f.rows == a + [left, right] + b && f.Join(i).rows == a + [both] + b;
    FlatAround(a, [left, right], b);
    FlatAround(a, [both], b);
    FlatFew(left, right);
    FlatFew(both, both);
    assert Zip(both) == Zip(left) + Zip(right);
  }

  lemma NeighboursJoin(left: seq<Key>, right: seq<Key>, separators: seq<Key>, i: nat)
    requires i < |separators| && StrictlySorted(separators) && StrictlySorted(left) && StrictlySorted(right)
    requires InSlot(left, separators, i) && InSlot(right, separators, i + 1)
    ensures
      var separators' := RemoveAt(separators, i);
      StrictlySorted(separators') && StrictlySorted(left + right) && InSlot(left + right, separators', i)
  {
    hide CompareFrom;
    var sep := separators[i];
    forall a, b | a in left && b in right ensures Lt(a, b) {
      KeyOrder(a, sep, b);
    }
    forall k | k in left && i + 1 < |separators| ensures Lt(k, separators[i + 1]) {
      KeyOrder(sep, separators[i + 1], sep);
      KeyOrder(k, sep, separators[i + 1]);
    }
    forall k | k in right && i > 0 ensures Le(separators[i - 1], k) {
      KeyOrder(separators[i - 1], sep, k);
      KeyOrder(separators[i - 1], k, k);
    }
  }

  // ---------- a deletion as a whole ----------

  /** A half-full leaf loses a range and gets the last one of its left neighbour. */
  lemma {:induction false} DropAndShiftRight(f: Family, i: nat, pos: nat, order: nat)
    requires f.InOrder() && 0 < i < |f.rows| && pos < |f.rows[i].starts| && |f.rows[i - 1].starts| > 1
    ensures f.Drop(i, pos).InOrder()
    ensures
      var f' := f.Drop(i, pos).ShiftRight(i - 1);
      f'.InOrder() && Removed(f.Contents(), f.rows[i].starts[pos], f'.Contents()) &&
      (f.Occupied(order) && |f.rows[i - 1].starts| > order / 2 ==> f'.Occupied(order))
  {
    hide CompareFrom, Position, StrictlySorted, InSlot, Removed, Flat;
    DropKeeps(f, i, pos);
    ShiftRightKeeps(f.Drop(i, pos), i - 1);
  }

  lemma {:induction false} DropAndShiftLeft(f: Family, i: nat, pos: nat, order: nat)
    requires f.InOrder() && i + 1 < |f.rows| && pos < |f.rows[i].starts| && |f.rows[i + 1].starts| > 1
    ensures f.Drop(i, pos).InOrder()
    ensures
      var f' := f.Drop(i, pos).ShiftLeft(i);
      f'.InOrder() && Removed(f.Contents(), f.rows[i].starts[pos], f'.Contents()) &&
      (f.Occupied(order) && |f.rows[i + 1].starts| > order / 2 ==> f'.Occupied(order))
  {
    hide CompareFrom, Position, StrictlySorted, InSlot, Removed, Flat;
    DropKeeps(f, i, pos);
    ShiftLeftKeeps(f.Drop(i, pos), i);
  }

  /** A half-full leaf loses a range, and two neighbours without spare ranges become one leaf. */
  lemma {:induction false} DropAndJoin(f: Family, i: nat, pos: nat, at: nat, order: nat)
    requires f.InOrder() && i < |f.rows| && pos < |f.rows[i].starts| && at + 1 < |f.rows| && at <= i <= at + 1
    ensures f.Drop(i, pos).InOrder()
    ensures
      var f' := f.Drop(i, pos).Join(at);
      f'.InOrder() && Removed(f.Contents(), f.rows[i].starts[pos], f'.Contents()) &&
      (OddOrder(order) && f.Occupied(order) && f.HaveNoSpare(at, order) ==> f'.Occupied(order))
  {
    hide CompareFrom, Position, StrictlySorted, InSlot, Removed, Flat;
    DropKeeps(f, i, pos);
    JoinKeeps(f.Drop(i, pos), at);
  }

  /** A leaf with too few keys takes one from a neighbour that has one to spare, first from the
      left, or else joins its left or, if there is none, its right neighbour. An only child stays
      as it is, and the program panics. */
  function Refilled(f: Family, i: nat, order: nat): Family
    requires f.InOrder() && i < |f.rows| && order >= 2
  {
    if i > 0 && |f.rows[i - 1].starts| > order / 2 then f.ShiftRight(i - 1)
    else if i + 1 < |f.rows| && |f.rows[i + 1].starts| > order / 2 then f.ShiftLeft(i)
    else if |f.rows| > 1 then f.Join(if i > 0 then i - 1 else 0)
    else f
  }

  predicate HowRefilled(f: Family, i: nat, order: nat, how: Deletion)
    requires i < |f.rows|
  {
    if i > 0 && |f.rows[i - 1].starts| > order / 2 then how.StoleLeft?
    else if i + 1 < |f.rows| && |f.rows[i + 1].starts| > order / 2 then how.StoleRight?
    else if |f.rows| > 1 then how.Joined?
    else how.Panicked?
  }

  /** Where a key occurs first. */
  function IndexOf(keys: seq<Key>, key: Key): (i: nat)
    requires key in keys
    ensures i < |keys| && keys[i] == key && key !in keys[..i]
  {
    if keys[0] == key then 0
    else
      assert keys == [keys[0]] + keys[1..];
      var i := IndexOf(keys[1..], key);
      assert keys[..i + 1] == [keys[0]] + keys[1..][..i];
      i + 1
  }

  /** What a deletion from the leaf at `i` makes of a family. */
  function WithoutKey(f: Family, i: nat, key: Key, order: nat): Family
    requires f.InOrder() && i < |f.rows|
  {
    var starts := f.rows[i].starts;
    if key !in starts then f
    else
      var pos := IndexOf(starts, key);
      DropKeeps(f, i, pos);
      if |starts| > order / 2 then f.Drop(i, pos) else Refilled(f.Drop(i, pos), i, order)
  }

  /** A deletion removes one range, keeps the separators valid and, for an odd order, all the
      leaves at least half full unless the leaf is an only child. A leaf with a key to spare returns
      the next larger key; it panics exactly if its largest key is deleted and no larger one is
      found next door. */
  predicate Deletes(f: Family, i: nat, key: Key, order: nat, how: Deletion, f': Family)
    requires f.InOrder() && i < |f.rows|
  {
    var starts := f.rows[i].starts;
    f'.InOrder() &&
    if key !in starts then
      how.NotFound? && f' == f
    else
      Removed(f.Contents(), key, f'.Contents()) &&
      (OddOrder(order) && f.Occupied(order) && (|f.rows| > 1 || |starts| > order / 2) ==> f'.Occupied(order)) &&
      if |starts| <= order / 2 then
        HowRefilled(f, i, order, how)
      else if key == starts[|starts| - 1] && (i + 1 == |f.rows| || f.rows[i + 1].starts == []) then
        how.Panicked?
      else
        how.Kept? && IsSuccessor(f'.rows, key, how.next)
  }

  lemma NothingDeleted(f: Family, i: nat, key: Key, order: nat)
    requires f.InOrder() && i < |f.rows| && key !in f.rows[i].starts
    ensures Deletes(f, i, key, order, NotFound, f)
  {
  }

  lemma {:induction false} DropDeletes(f: Family, i: nat, pos: nat, order: nat, how: Deletion)
    requires f.InOrder() && i < |f.rows| && order / 2 < |f.rows[i].starts| && pos < |f.rows[i].starts|
    requires how.Kept? || how.Panicked?
    requires how.Kept? ==> IsSuccessor(f.Drop(i, pos).rows, f.rows[i].starts[pos], how.next)
    requires
      var starts := f.rows[i].starts;
      how.Panicked? <==>
      starts[pos] == starts[|starts| - 1] && (i + 1 == |f.rows| || f.rows[i + 1].starts == [])
    ensures Deletes(f, i, f.rows[i].starts[pos], order, how, f.Drop(i, pos))
  {
    hide CompareFrom, Position, StrictlySorted, InSlot, Removed, Flat;
    DropKeeps(f, i, pos);
  }

  lemma {:induction false} RefillDeletes(f: Family, i: nat, pos: nat, order: nat, how: Deletion)
    requires f.InOrder() && i < |f.rows| && order >= 2
    requires pos < |f.rows[i].starts| <= order / 2
    requires HowRefilled(f.Drop(i, pos), i, order, how)
    ensures f.Drop(i, pos).InOrder()
    ensures Deletes(f, i, f.rows[i].starts[pos], order, how, Refilled(f.Drop(i, pos), i, order))
  {
    hide CompareFrom, Position, StrictlySorted, InSlot, Removed, Flat;
    DropKeeps(f, i, pos);
    if i > 0 && |f.rows[i - 1].starts| > order / 2 {
      DropAndShiftRight(f, i, pos, order);
    } else if i + 1 < |f.rows| && |f.rows[i + 1].starts| > order / 2 {
      DropAndShiftLeft(f, i, pos, order);
    } else if |f.rows| > 1 {
      DropAndJoin(f, i, pos, if i > 0 then i - 1 else 0, order);
    }
  }

  // ---------- the next larger key ----------

  /** `next` is the smallest key greater than `key` in all the leaves. */
  predicate IsSuccessor(rows: seq<Row>, key: Key, next: Key) {
    Lt(key, next) && (exists j :: 0 <= j < |rows| && next in rows[j].starts) &&
    forall j, k :: 0 <= j < |rows| && k in rows[j].starts && Lt(key, k) ==> Le(next, k)
  }

  /** All keys of a leaf are smaller than those of the leaves right of it. */
  lemma RowsApart(f: Family, a: nat, b: nat, k: Key, l: Key)
    requires f.InOrder() && a < b < |f.rows| && k in f.rows[a].starts && l in f.rows[b].starts
    ensures Lt(k, l) && !Lt(l, k) && Le(k, l)
  {
    hide CompareFrom;
    assert f.rows[a].Tidy() && f.rows[b].Tidy();
    KeyOrder(f.separators[a], f.separators[b - 1], l);
    KeyOrder(k, f.separators[a], l);
    KeyOrder(k, l, k);
  }

  lemma PositionOfRemoved(starts: seq<Key>, pos: nat)
    requires StrictlySorted(starts) && pos < |starts|
    ensures Position(RemoveAt(starts, pos), starts[pos]) == pos
    ensures forall k ::
      k in RemoveAt(starts, pos) && Lt(starts[pos], k) ==> pos + 1 < |starts| && Le(starts[pos + 1], k)
  {
    hide CompareFrom;
    forall j | 0 <= j < |starts| ensures Lt(starts[pos], starts[j]) ==> j > pos
    {
      KeyOrder(starts[pos], starts[j], starts[pos]);
      KeyOrder(starts[j], starts[pos], starts[pos]);
    }
    forall j | pos < j < |starts| ensures Le(starts[pos + 1], starts[j]) {
      KeyOrder(starts[pos + 1], starts[j], starts[j]);
    }
    PositionUnique(RemoveAt(starts, pos), starts[pos], pos);
  }

  /** A removed key was followed by the key that is now in its place or, at the end of the
      leaf, by the first key of the next leaf. */
  lemma {:induction false} SuccessorAfterDrop(f: Family, i: nat, pos: nat)
    requires f.InOrder() && i < |f.rows| && pos < |f.rows[i].starts|
    ensures
      var row', key := f.rows[i].Drop(pos), f.rows[i].starts[pos];
      Position(row'.starts, key) == pos &&
      (f.rows[i].starts[|row'.starts|] == key <==> pos == |row'.starts|) &&
      (pos < |row'.starts| ==> IsSuccessor(f.Drop(i, pos).rows, key, row'.starts[pos])) &&
      (pos == |row'.starts| && i + 1 < |f.rows| && f.rows[i + 1].starts != [] ==>
        IsSuccessor(f.Drop(i, pos).rows, key, f.rows[i + 1].starts[0]))
  {
    hide CompareFrom, Position, InSlot;
    var rows', key := f.Drop(i, pos).rows, f.rows[i].starts[pos];
    PositionOfRemoved(f.rows[i].starts, pos);
    KeyOrder(key, key, key);
    forall j, k | 0 <= j < |rows'| && k in rows'[j].starts && Lt(key, k) ensures j >= i && k in f.rows[j].starts {
      if j < i {
        RowsApart(f, j, i, k, key);
      }
    }
    if pos + 1 < |f.rows[i].starts| {
      var next := f.rows[i].starts[pos + 1];
      assert rows'[i].starts[pos] == next;
      forall j, k | 0 <= j < |rows'| && k in rows'[j].starts && Lt(key, k) ensures Le(next, k) {
        if j > i {
          RowsApart(f, i, j, next, k);
        }
      }
    } else if i + 1 < |f.rows| && f.rows[i + 1].starts != [] {
      var next := f.rows[i + 1].starts[0];
      assert next in rows'[i + 1].starts;
      RowsApart(f, i, i + 1, key, next);
      forall j, k | 0 <= j < |rows'| && k in rows'[j].starts && Lt(key, k) ensures Le(next, k) {
        if j == i + 1 {
          KeyOrder(next, k, k);
        } else if j > i {
          RowsApart(f, i + 1, j, next, k);
        }
      }
    }
  }
}
