/** Red-black trees as values: the shape that the index arena of `RbTree` represents.
    Each branch also remembers the arena index at which it is stored. A `Path` is the part of
    a tree outside one subtree, read upwards from the hole where that subtree hangs. */
module RedBlackShapes {
  import opened Keys

  datatype Color = Red | Black

  datatype Entry<+V> = Entry(startKey: Key, endKey: Key, value: V)

  datatype Tree<+V> =
    | Nil
    | Branch(left: Tree<V>, at: nat, color: Color, entry: Entry<V>, right: Tree<V>)

  /** `Left(up, ...)`: the hole is the left child of the branch at `at`. */
  datatype Path<+V> =
    | Top
    | Left(up: Path<V>, at: nat, color: Color, entry: Entry<V>, sibling: Tree<V>)
    | Right(up: Path<V>, at: nat, color: Color, entry: Entry<V>, sibling: Tree<V>)

  /** The branch at the bottom of a path, with `t` put into the hole below it. */
  function PlugOne<V>(p: Path<V>, t: Tree<V>): Tree<V>
    requires !p.Top?
  {
    if p.Left? then Branch(t, p.at, p.color, p.entry, p.sibling)
    else Branch(p.sibling, p.at, p.color, p.entry, t)
  }

  function Plug<V>(p: Path<V>, t: Tree<V>): Tree<V>
    decreases p
  {
    if p.Top? then t else Plug(p.up, PlugOne(p, t))
  }

  // ---------- contents and indices ----------

  ghost function InOrder<V>(t: Tree<V>): seq<Entry<V>> {
    match t
    case Nil => []
    case Branch(l, _, _, e, r) => InOrder(l) + [e] + InOrder(r)
  }

  ghost function At<V>(t: Tree<V>): set<nat> {
    match t
    case Nil => {}
    case Branch(l, at, _, _, r) => At(l) + {at} + At(r)
  }

  /** A tree uses exactly the first `n` arena indices. */
  ghost predicate Covers<V>(t: Tree<V>, n: nat) {
    forall i :: 0 <= i < n <==> i in At(t)
  }

  ghost function PathAt<V>(p: Path<V>): set<nat> {
    if p.Top? then {} else PathAt(p.up) + {p.at} + At(p.sibling)
  }

  ghost function Before<V>(p: Path<V>): seq<Entry<V>> {
    match p
    case Top => []
    case Left(up, _, _, _, _) => Before(up)
    case Right(up, _, _, e, s) => Before(up) + InOrder(s) + [e]
  }

  ghost function After<V>(p: Path<V>): seq<Entry<V>> {
    match p
    case Top => []
    case Left(up, _, _, e, s) => [e] + InOrder(s) + After(up)
    case Right(up, _, _, _, _) => After(up)
  }

  /** No arena index is used twice in a tree. */
  ghost predicate Distinct<V>(t: Tree<V>) {
    t.Branch? ==>
      t.at !in At(t.left) && t.at !in At(t.right) && At(t.left) !! At(t.right) &&
      Distinct(t.left) && Distinct(t.right)
  }

  /** No arena index is used twice in a path, nor both in the path and among `below`. */
  ghost predicate DistinctPath<V>(p: Path<V>, below: set<nat>) {
    !p.Top? ==>
      p.at !in below && p.at !in At(p.sibling) && At(p.sibling) !! below &&
      Distinct(p.sibling) && DistinctPath(p.up, below + {p.at} + At(p.sibling))
  }

  lemma PlugOneContents<V>(p: Path<V>, t: Tree<V>)
    requires !p.Top?
    ensures InOrder(PlugOne(p, t)) ==
      if p.Left? then InOrder(t) + [p.entry] + InOrder(p.sibling) else InOrder(p.sibling) + [p.entry] + InOrder(t)
    ensures At(PlugOne(p, t)) == At(t) + {p.at} + At(p.sibling)
  {
  }

  lemma {:induction false} PlugContents<V>(p: Path<V>, t: Tree<V>)
    ensures InOrder(Plug(p, t)) == Before(p) + InOrder(t) + After(p)
    ensures At(Plug(p, t)) == PathAt(p) + At(t)
    decreases p
  {
    hide InOrder, At;
    if !p.Top? {
      PlugContents(p.up, PlugOne(p, t));
      PlugOneContents(p, t);
      assert InOrder(Plug(p, t)) == Before(p) + InOrder(t) + After(p);
    }
  }

  // ---------- balance ----------

  predicate BlackRoot<V>(t: Tree<V>) {
    t.Branch? ==> t.color.Black?
  }

  /** Every path from the root of `t` down to a NIL meets exactly `h` black nodes, and no red
      node has a red child. */
  ghost predicate Balanced<V>(t: Tree<V>, h: nat) {
    match t
    case Nil => h == 0
    case Branch(l, _, Black, _, r) => h > 0 && Balanced(l, h - 1) && Balanced(r, h - 1)
    case Branch(l, _, Red, _, r) => BlackRoot(l) && BlackRoot(r) && Balanced(l, h) && Balanced(r, h)
  }

  /** Filling the hole with any black-rooted tree balanced at `h` gives a red-black tree. */
  ghost predicate BalancedPath<V>(p: Path<V>, h: nat)
    decreases p
  {
    !p.Top? ==>
      Balanced(p.sibling, h) &&
      if p.color.Black? then BalancedPath(p.up, h + 1)
      else BlackRoot(p.sibling) && !p.up.Top? && p.up.color.Black? && BalancedPath(p.up, h)
  }

  ghost predicate RedBlack<V>(t: Tree<V>) {
    BlackRoot(t) && exists h: nat :: Balanced(t, h)
  }

  lemma {:induction false} PlugBalanced<V>(p: Path<V>, t: Tree<V>, h: nat)
    requires Balanced(t, h) && BalancedPath(p, h)
    requires BlackRoot(t) || (!p.Top? && p.color.Black?)
    ensures RedBlack(Plug(p, t))
    decreases p
  {
    if !p.Top? {
      PlugBalanced(p.up, PlugOne(p, t), if p.color.Black? then h + 1 else h);
    }
  }

  /** The converse: a subtree of a red-black tree is balanced, and so is the path above it. */
  lemma {:induction false} UnplugBalanced<V>(p: Path<V>, t: Tree<V>) returns (h: nat)
    requires RedBlack(Plug(p, t))
    ensures Balanced(t, h) && BalancedPath(p, h)
    ensures p.Top? || p.color.Red? ==> BlackRoot(t)
    decreases p
  {
    if p.Top? {
      h :| Balanced(t, h);
    } else {
      var above := UnplugBalanced(p.up, PlugOne(p, t));
      h := if p.color.Black? then above - 1 else above;
    }
  }

  /** The number of black nodes met when walking down from the root, `dirs[i]` telling whether
      the i-th step goes left. */
  ghost function BlackCount<V>(t: Tree<V>, dirs: seq<bool>): Option<nat> {
    match t
    case Nil => if dirs == [] then Some(0) else None
    case Branch(l, _, c, _, r) =>
      if dirs == [] then None else
      match BlackCount(if dirs[0] then l else r, dirs[1..])
      case None => None
      case Some(n) => Some(n + if c.Black? then 1 else 0)
  }

  /** All walks that end at a NIL meet the same number of black nodes. */
  lemma {:induction false} SameBlackCount<V>(t: Tree<V>, h: nat, dirs: seq<bool>)
    requires Balanced(t, h)
    ensures BlackCount(t, dirs).Some? ==> BlackCount(t, dirs) == Some(h)
    decreases t
  {
    if t.Branch? && dirs != [] {
      SameBlackCount(if dirs[0] then t.left else t.right,
                     if t.color.Black? then h - 1 else h, dirs[1..]);
    }
  }

  // ---------- height ----------

  function Max(a: nat, b: nat): nat {
    if a < b then b else a
  }

  function Pow2(n: nat): nat {
    if n == 0 then 1 else 2 * Pow2(n - 1)
  }

  ghost function Height<V>(t: Tree<V>): nat {
    if t.Nil? then 0 else 1 + Max(Height(t.left), Height(t.right))
  }

  lemma {:induction false} Pow2Add(m: nat, n: nat)
    ensures Pow2(m + n) == Pow2(m) * Pow2(n)
  {
    if m > 0 {
      Pow2Add(m - 1, n);
    }
  }

  lemma {:induction false} Pow2Monotone(m: nat, n: nat)
    requires m <= n
    ensures Pow2(m) <= Pow2(n)
    decreases n
  {
    if m < n {
      Pow2Monotone(m, n - 1);
    }
  }

  lemma {:induction false} BlackHeightBounds<V>(t: Tree<V>, h: nat)
    requires Balanced(t, h)
    ensures Pow2(h) <= |InOrder(t)| + 1
    ensures Height(t) <= 2 * h + if BlackRoot(t) then 0 else 1
    decreases t
  {
    if t.Branch? {
      var below := if t.color.Black? then h - 1 else h;
      BlackHeightBounds(t.left, below);
      BlackHeightBounds(t.right, below);
    }
  }

  /** The height of a red-black tree with n entries is at most 2 * log2(n + 1). */
  lemma HeightIsLogarithmic<V>(t: Tree<V>)
    requires RedBlack(t)
    ensures Pow2(Height(t)) <= (|InOrder(t)| + 1) * (|InOrder(t)| + 1)
  {
    var h: nat :| Balanced(t, h);
    BlackHeightBounds(t, h);
    Pow2Monotone(Height(t), h + h);
    Pow2Add(h, h);
    SquareMonotone(Pow2(h), |InOrder(t)| + 1);
  }

  lemma SquareMonotone(m: nat, n: nat)
    requires m <= n
    ensures m * m <= n * n
  {
    assert m * m <= m * n;
  }

  // ---------- order ----------

  ghost predicate Sorted<V>(s: seq<Entry<V>>) {
    forall i, j :: 0 <= i < j < |s| ==> Le(s[i].startKey, s[j].startKey)
  }

  ghost predicate AllFrom<V>(k: Key, s: seq<Entry<V>>) {
    forall i :: 0 <= i < |s| ==> Le(k, s[i].startKey)
  }

  ghost predicate AllBelow<V>(s: seq<Entry<V>>, k: Key) {
    forall i :: 0 <= i < |s| ==> Lt(s[i].startKey, k)
  }

  /** The sorted list `s` with `e` put in front of all entries whose start key is not smaller. */
  ghost function InsertBefore<V>(s: seq<Entry<V>>, e: Entry<V>): seq<Entry<V>> {
    if s != [] && Lt(s[0].startKey, e.startKey) then [s[0]] + InsertBefore(s[1..], e)
    else [e] + s
  }

  lemma {:induction false} InsertBeforeSplit<V>(a: seq<Entry<V>>, b: seq<Entry<V>>, e: Entry<V>)
    requires AllBelow(a, e.startKey) && AllFrom(e.startKey, b)
    ensures InsertBefore(a + b, e) == a + [e] + b
  {
    hide CompareFrom;
    if a == [] {
      assert a + b == b;
      if b != [] {
        KeyOrder(b[0].startKey, e.startKey, b[0].startKey);
      }
    } else {
      InsertBeforeSplit(a[1..], b, e);
      assert (a + b)[1..] == a[1..] + b;
    }
  }

  lemma {:induction false} InsertBeforeElements<V>(s: seq<Entry<V>>, e: Entry<V>)
    ensures multiset(InsertBefore(s, e)) == multiset(s) + multiset{e}
    ensures |InsertBefore(s, e)| == |s| + 1
  {
    hide CompareFrom;
    if s != [] && Lt(s[0].startKey, e.startKey) {
      InsertBeforeElements(s[1..], e);
      assert s == [s[0]] + s[1..];
    }
  }

  lemma {:induction false} InsertBeforeFrom<V>(k: Key, s: seq<Entry<V>>, e: Entry<V>)
    requires AllFrom(k, s) && Le(k, e.startKey)
    ensures AllFrom(k, InsertBefore(s, e))
  {
    hide CompareFrom;
    if s != [] && Lt(s[0].startKey, e.startKey) {
      InsertBeforeFrom(k, s[1..], e);
    }
  }

  lemma {:induction false} InsertBeforeSorted<V>(s: seq<Entry<V>>, e: Entry<V>)
    requires Sorted(s)
    ensures Sorted(InsertBefore(s, e))
  {
    hide CompareFrom;
    if s != [] && Lt(s[0].startKey, e.startKey) {
      KeyOrder(s[0].startKey, e.startKey, e.startKey);
      InsertBeforeSorted(s[1..], e);
      InsertBeforeFrom(s[0].startKey, s[1..], e);
    } else {
      forall j | 0 <= j < |s| ensures Le(e.startKey, s[j].startKey) {
        KeyOrder(s[0].startKey, e.startKey, e.startKey);
        KeyOrder(e.startKey, s[0].startKey, s[j].startKey);
      }
    }
  }

  // ---------- the place of a new key ----------

  /** The hole of `p` is the place where a search for the first key not below `k` ends up. */
  ghost predicate Divides<V>(p: Path<V>, k: Key) {
    AllBelow(Before(p), k) && AllFrom(k, After(p))
  }

  lemma DividesSide<V>(p: Path<V>, k: Key)
    requires Divides(p, k) && !p.Top?
    ensures p.Right? <==> Compare(p.entry.startKey, k).Less?
  {
    hide CompareFrom;
    KeyOrder(k, p.entry.startKey, k);
    if p.Right? {
      assert Before(p)[|Before(p)| - 1] == p.entry;
    } else {
      assert After(p)[0] == p.entry;
    }
  }

  lemma DescendRight<V>(p: Path<V>, t: Tree<V>, k: Key)
    requires Sorted(InOrder(Plug(p, t))) && Divides(p, k) && t.Branch? && Lt(t.entry.startKey, k)
    ensures Divides(Right(p, t.at, t.color, t.entry, t.left), k)
  {
    hide CompareFrom;
    SortedInside(p, t);
    var s, l := InOrder(t), InOrder(t.left);
    assert s[|l|] == t.entry;
    forall i | 0 <= i < |l| ensures Lt(l[i].startKey, k) {
      assert l[i] == s[i];
      KeyOrder(l[i].startKey, t.entry.startKey, k);
    }
  }

  lemma DescendLeft<V>(p: Path<V>, t: Tree<V>, k: Key)
    requires Sorted(InOrder(Plug(p, t))) && Divides(p, k) && t.Branch? && !Lt(t.entry.startKey, k)
    ensures Divides(Left(p, t.at, t.color, t.entry, t.right), k)
  {
    hide CompareFrom;
    SortedInside(p, t);
    var s, n, r := InOrder(t), |InOrder(t.left)|, InOrder(t.right);
    KeyOrder(t.entry.startKey, k, k);
    KeyOrder(k, t.entry.startKey, k);
    assert s[n] == t.entry;
    forall i | 0 <= i < |r| ensures Le(k, r[i].startKey) {
      assert r[i] == s[n + 1 + i];
      KeyOrder(k, t.entry.startKey, r[i].startKey);
    }
  }

  lemma SortedInside<V>(p: Path<V>, t: Tree<V>)
    requires Sorted(InOrder(Plug(p, t)))
    ensures Sorted(InOrder(t))
  {
    PlugContents(p, t);
    var whole := InOrder(Plug(p, t));
    forall i, j | 0 <= i < j < |InOrder(t)| ensures Le(InOrder(t)[i].startKey, InOrder(t)[j].startKey) {
      assert InOrder(t)[i] == whole[|Before(p)| + i] && InOrder(t)[j] == whole[|Before(p)| + j];
    }
  }

  /** Filling the hole that a search found inserts the entry before its equals. */
  lemma {:induction false} PlugInserts<V>(p: Path<V>, t: Tree<V>, e: Entry<V>, n: nat)
    requires Covers(Plug(p, Nil), n) && At(t) == {n}
    requires Sorted(InOrder(Plug(p, Nil))) && Divides(p, e.startKey) && InOrder(t) == [e]
    ensures InOrder(Plug(p, t)) == InsertBefore(InOrder(Plug(p, Nil)), e)
    ensures Sorted(InOrder(Plug(p, t))) && |InOrder(Plug(p, t))| == |InOrder(Plug(p, Nil))| + 1
    ensures Covers(Plug(p, t), n + 1)
  {
    hide Sorted, AllBelow, AllFrom, InsertBefore, Plug, InOrder, Before, After, PathAt, At;
    PlugContents(p, Nil);
    PlugContents(p, t);
    NilContents<V>();
    var s := Before(p) + After(p);
    assert InOrder(Plug(p, Nil)) == s;
    InsertBeforeSplit(Before(p), After(p), e);
    InsertBeforeSorted(s, e);
    InsertBeforeElements(s, e);
  }

  lemma NilContents<V>()
    ensures InOrder<V>(Nil) == [] && At<V>(Nil) == {}
  {
  }
}
