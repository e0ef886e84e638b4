/** `IntervalTree`: all stored intervals that overlap a given one, found by an in-order walk of
    the red-black tree that stops at the first interval starting behind the query. */
module IntervalTrees {
  import opened Keys
  import opened RedBlackShapes
  import opened RedBlackArena
  import opened RedBlackTree

  predicate DoesRangeOverlap(firstStart: Key, firstEnd: Key, secondStart: Key, secondEnd: Key) {
    if Lt(secondStart, firstStart) then !Lt(secondEnd, firstStart)
    else if Lt(firstStart, secondStart) then Le(secondStart, firstEnd)
    else true
  }

  /** On well-formed intervals the test says whether they have a key in common. */
  lemma OverlapIsIntersection(s1: Key, e1: Key, s2: Key, e2: Key)
    requires Le(s1, e1) && Le(s2, e2)
    ensures DoesRangeOverlap(s1, e1, s2, e2) <==>
      exists k :: Le(s1, k) && Le(k, e1) && Le(s2, k) && Le(k, e2)
  {
    hide CompareFrom;
    KeyOrder(s1, s2, s1);
    KeyOrder(s2, s1, s2);
    KeyOrder(s1, s1, s1);
    KeyOrder(s2, s2, s2);
    KeyOrder(e2, s1, e2);
    KeyOrder(s1, e2, s1);
    forall k | Le(s1, k) && Le(k, e1) && Le(s2, k) && Le(k, e2)
      ensures Le(s2, e1) && Le(s1, e2)
    {
      KeyOrder(s2, k, e1);
      KeyOrder(s1, k, e2);
    }
    if DoesRangeOverlap(s1, e1, s2, e2) {
      var k := if Lt(s1, s2) then s2 else s1;
      KeyOrder(s1, s2, e1);
      KeyOrder(s2, s1, e2);
      assert Le(s1, k) && Le(k, e1) && Le(s2, k) && Le(k, e2);
    }
  }

  predicate Hit<V>(e: Entry<V>, startKey: Key, endKey: Key) {
    DoesRangeOverlap(startKey, endKey, e.startKey, e.endKey)
  }

  function IfHit<V>(e: Entry<V>, startKey: Key, endKey: Key): seq<Entry<V>> {
    if Hit(e, startKey, endKey) then [e] else []
  }

  /** All entries of a list that overlap the query, in list order. */
  function Hits<V>(s: seq<Entry<V>>, startKey: Key, endKey: Key): seq<Entry<V>> {
    if s == [] then [] else IfHit(s[0], startKey, endKey) + Hits(s[1..], startKey, endKey)
  }

  /** The entries that a walk collects if it gives up behind the first entry that starts after
      the query's end. */
  function Walk<V>(s: seq<Entry<V>>, startKey: Key, endKey: Key): seq<Entry<V>> {
    if s == [] then []
    else
      IfHit(s[0], startKey, endKey) +
      (if Lt(endKey, s[0].startKey) then [] else Walk(s[1..], startKey, endKey))
  }

  predicate GivesUp<V>(s: seq<Entry<V>>, endKey: Key) {
    s != [] && (Lt(endKey, s[0].startKey) || GivesUp(s[1..], endKey))
  }

  lemma Associative<T>(a: seq<T>, b: seq<T>, c: seq<T>)
    ensures a + (b + c) == (a + b) + c
  {
  }

  lemma {:induction false} WalkConcat<V>(a: seq<Entry<V>>, b: seq<Entry<V>>, startKey: Key, endKey: Key)
    ensures GivesUp(a + b, endKey) <==> GivesUp(a, endKey) || GivesUp(b, endKey)
    ensures Walk(a + b, startKey, endKey) ==
      Walk(a, startKey, endKey) + if GivesUp(a, endKey) then [] else Walk(b, startKey, endKey)
  {
    hide Lt, IfHit;
    if a == [] {
      assert a + b == b;
    } else {
      WalkConcat(a[1..], b, startKey, endKey);
      assert (a + b)[1..] == a[1..] + b;
      Associative(IfHit(a[0], startKey, endKey), Walk(a[1..], startKey, endKey), Walk(b, startKey, endKey));
    }
  }

  /** The walk over a branch: the left subtree, the entry unless the walk is over, then, unless
      it is over now, the right subtree. */
  lemma WalkBranch<V>(found: seq<Entry<V>>, t: Tree<V>, startKey: Key, endKey: Key)
    requires t.Branch?
    ensures
      var l, r := InOrder(t.left), InOrder(t.right);
      var found1 := found + Walk(l, startKey, endKey);
      var found2 := found1 + IfHit(t.entry, startKey, endKey);
      var behind := Lt(endKey, t.entry.startKey);
      (GivesUp(InOrder(t), endKey) <==> GivesUp(l, endKey) || behind || GivesUp(r, endKey)) &&
      found + Walk(InOrder(t), startKey, endKey) ==
        if GivesUp(l, endKey) then found1
        else if behind then found2
        else found2 + Walk(r, startKey, endKey)
  {
    hide Lt, IfHit;
    var l, r := InOrder(t.left), InOrder(t.right);
    WalkConcat(l, [t.entry] + r, startKey, endKey);
    assert l + ([t.entry] + r) == InOrder(t);
    assert ([t.entry] + r)[1..] == r;
    var hit, rest := IfHit(t.entry, startKey, endKey), Walk(r, startKey, endKey);
    assert Walk([t.entry] + r, startKey, endKey) == hit + if Lt(endKey, t.entry.startKey) then [] else rest;
    Associative(found, Walk(l, startKey, endKey), hit);
    Associative(found, Walk(l, startKey, endKey), hit + rest);
    Associative(found + Walk(l, startKey, endKey), hit, rest);
  }

  lemma {:induction false} NoHitsBehind<V>(s: seq<Entry<V>>, startKey: Key, endKey: Key)
    requires Le(startKey, endKey)
    requires forall i :: 0 <= i < |s| ==> Lt(endKey, s[i].startKey)
    ensures Hits(s, startKey, endKey) == []
  {
    hide CompareFrom;
    if s != [] {
      KeyOrder(startKey, endKey, s[0].startKey);
      KeyOrder(endKey, s[0].startKey, startKey);
      KeyOrder(s[0].startKey, startKey, s[0].startKey);
      NoHitsBehind(s[1..], startKey, endKey);
    }
  }

  /** On a sorted list the early stop loses nothing. */
  lemma {:induction false} WalkFindsAllHits<V>(s: seq<Entry<V>>, startKey: Key, endKey: Key)
    requires Sorted(s) && Le(startKey, endKey)
    ensures Walk(s, startKey, endKey) == Hits(s, startKey, endKey)
  {
    hide CompareFrom;
    if s != [] {
      if Lt(endKey, s[0].startKey) {
        forall i | 0 <= i < |s[1..]| ensures Lt(endKey, s[1..][i].startKey) {
          KeyOrder(endKey, s[0].startKey, s[1..][i].startKey);
        }
        NoHitsBehind(s[1..], startKey, endKey);
      } else {
        WalkFindsAllHits(s[1..], startKey, endKey);
      }
    }
  }

  /** A query is answered completely whatever the tree holds if and only if it does not end
      before it starts. */
  lemma WalkIsCompleteIff<V(!new)>(startKey: Key, endKey: Key, value: V)
    ensures (forall s: seq<Entry<V>> :: Sorted(s) ==> Walk(s, startKey, endKey) == Hits(s, startKey, endKey)) <==>
      Le(startKey, endKey)
  {
    hide CompareFrom;
    if Le(startKey, endKey) {
      forall s: seq<Entry<V>> | Sorted(s) ensures Walk(s, startKey, endKey) == Hits(s, startKey, endKey) {
        WalkFindsAllHits(s, startKey, endKey);
      }
    } else {
      // two intervals that start where the query does: the walk stops between them
      var e := Entry(startKey, startKey, value);
      var s := [e, e];
      KeyOrder(startKey, startKey, startKey);
      KeyOrder(startKey, endKey, startKey);
      KeyOrder(endKey, startKey, endKey);
      assert s[1..] == [e] && Sorted(s) && Hit(e, startKey, endKey);
      assert Hits([e], startKey, endKey) == [e] + Hits([], startKey, endKey);
      assert |Hits(s, startKey, endKey)| == 2 && |Walk(s, startKey, endKey)| == 1;
    }
  }

  lemma NilWalk<V>(startKey: Key, endKey: Key)
    ensures Walk<V>([], startKey, endKey) == [] && !GivesUp<V>([], endKey)
  {
  }

  class IntervalTree<V> {
    const rbtree: RbTree<V>

    ghost predicate Valid()
      reads this, rbtree
    {
      rbtree.Valid()
    }

    ghost function Contents(): seq<Entry<V>>
      reads this, rbtree
    {
      rbtree.Contents()
    }

    constructor ()
      ensures Valid() && Contents() == [] && fresh(rbtree)
    {
      rbtree := new RbTree<V>();
    }

    method Insert(startKey: Key, endKey: Key, value: V)
      requires Valid() && |Contents()| < NIL
      modifies rbtree
      ensures Valid() && Contents() == InsertBefore(old(Contents()), Entry(startKey, endKey, value))
    {
      var _ := rbtree.InsertNode(startKey, endKey, value);
    }

    method GetOverlap(startKey: Key, endKey: Key) returns (overlaps: seq<Entry<V>>)
      requires Valid()
      ensures overlaps == Walk(Contents(), startKey, endKey)
      ensures Le(startKey, endKey) ==> overlaps == Hits(Contents(), startKey, endKey)
    {
      var _, found := CollectOverlappingNodes(startKey, endKey, rbtree.root, [], rbtree.tree, NIL);
      overlaps := found;
      if Le(startKey, endKey) {
        WalkFindsAllHits(Contents(), startKey, endKey);
      }
    }

    /** Returns true if the walk is over. `t` is the subtree at `node`. */
    method CollectOverlappingNodes(startKey: Key, endKey: Key, node: nat, overlaps: seq<Entry<V>>,
      ghost t: Tree<V>, ghost parent: nat) returns (done: bool, overlaps': seq<Entry<V>>)
      requires |rbtree.nodes| <= NIL && Rep(rbtree.nodes, t, parent) && node == Idx(t)
      ensures done <==> GivesUp(InOrder(t), endKey)
      ensures overlaps' == overlaps + Walk(InOrder(t), startKey, endKey)
      decreases t
    {
      hide Lt, DoesRangeOverlap, Walk, GivesUp, InOrder;
      NilContents<V>();
      overlaps' := overlaps;
      if node == NIL {
        NilWalk<V>(startKey, endKey);
        return false, overlaps';
      }
      WalkBranch(overlaps, t, startKey, endKey);
      var isLeftDone;
      var left := rbtree.nodes[node].left;
      isLeftDone, overlaps' := CollectOverlappingNodes(startKey, endKey, left, overlaps', t.left, node);
      if isLeftDone {
        return true, overlaps';
      }
      var n := rbtree.nodes[node];
      if DoesRangeOverlap(startKey, endKey, n.entry.startKey, n.entry.endKey) {
        overlaps' := overlaps' + [Entry(n.entry.startKey, n.entry.endKey, n.entry.value)];
      }
      if Lt(endKey, n.entry.startKey) {
        return true, overlaps';
      }
      done, overlaps' := CollectOverlappingNodes(startKey, endKey, n.right, overlaps', t.right, node);
    }
  }
}
