/** Rebalancing as seen from the left-to-right order of edges and separators. */
module LatchLines {
  import opened Keys

  /** What a search meets between the children of inner nodes. */
  datatype Item<+N> = Edge(node: N) | Sep(key: Key)

  /** The edges of an inner node, interleaved with its keys. */
  function Line<N>(keys: seq<Key>, edges: seq<N>): seq<Item<N>>
    requires |edges| == |keys| + 1
  {
    if keys == [] then [Edge(edges[0])]
    else [Edge(edges[0]), Sep(keys[0])] + Line(keys[1..], edges[1..])
  }

  lemma {:induction false} LineConcat<N>(k1: seq<Key>, e1: seq<N>, k: Key, k2: seq<Key>, e2: seq<N>)
    requires |e1| == |k1| + 1 && |e2| == |k2| + 1
    ensures Line(k1 + [k] + k2, e1 + e2) == Line(k1, e1) + [Sep(k)] + Line(k2, e2)
  {
    var keys, edges := k1 + [k] + k2, e1 + e2;
    if k1 == [] {
      assert keys[1..] == k2 && edges[1..] == e2;
    } else {
      LineConcat(k1[1..], e1[1..], k, k2, e2);
      assert keys[1..] == k1[1..] + [k] + k2 && edges[1..] == e1[1..] + e2;
    }
  }

  lemma {:induction false} LineAppend<N>(keys: seq<Key>, edges: seq<N>, key: Key, edge: N)
    requires |edges| == |keys| + 1
    ensures Line(keys + [key], edges + [edge]) == Line(keys, edges) + [Sep(key)] + [Edge(edge)]
  {
    LineConcat(keys, edges, key, [], [edge]);
    assert keys + [key] + [] == keys + [key];
  }

  lemma LinePrepend<N>(edge: N, key: Key, keys: seq<Key>, edges: seq<N>)
    requires |edges| == |keys| + 1
    ensures Line([key] + keys, [edge] + edges) == [Edge(edge)] + [Sep(key)] + Line(keys, edges)
  {
    assert ([key] + keys)[1..] == keys && ([edge] + edges)[1..] == edges;
  }

  /** The last edge of a node and the key before it change sides with the separator. */
  lemma {:induction false} LineShift<N>(k1: seq<Key>, e1: seq<N>, last: Key, edge: N, sep: Key, k2: seq<Key>,
      e2: seq<N>)
    requires |e1| == |k1| + 1 && |e2| == |k2| + 1
    ensures
      Line(k1 + [last], e1 + [edge]) + [Sep(sep)] + Line(k2, e2) ==
      Line(k1, e1) + [Sep(last)] + Line([sep] + k2, [edge] + e2)
  {
    hide Line;
    LineAppend(k1, e1, last, edge);
    LinePrepend(edge, sep, k2, e2);
  }

  function RemoveAt<T>(s: seq<T>, i: nat): seq<T>
    requires i < |s|
  {
    s[..i] + s[i + 1..]
  }
}
