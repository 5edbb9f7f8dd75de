/**
 * Edges between integer vertex labels.
 *
 * The ego-net package compares edges by direction: (1, 2) and (2, 1) differ.
 * The undirected graph store relies on an edge class whose equality ignores
 * direction; that class is modelled here by SameEdge and by the canonical
 * key Key(e), which is what the undirected store keeps in its edge set.
 */
module Edges {

  /** An edge from fromNode to toNode; both are fixed at construction. */
  datatype Edge = Edge(fromNode: int, toNode: int)

  const TwoTo31: int := 0x8000_0000
  const TwoTo32: int := 0x1_0000_0000

  /** Java int arithmetic: the value of x reduced into [-2^31, 2^31). */
  function Wrap32(x: int): (r: int)
    ensures -TwoTo31 <= r < TwoTo31
    ensures (r - x) % TwoTo32 == 0
  {
    (x + TwoTo31) % TwoTo32 - TwoTo31
  }

  /**
   * compareTo: -1 when both coordinates of a are smaller than b's,
   * 1 when both are larger, 0 otherwise.
   */
  function CompareTo(a: Edge, b: Edge): (r: int)
    ensures r == -1 <==> a.fromNode < b.fromNode && a.toNode < b.toNode
    ensures r == 1 <==> a.fromNode > b.fromNode && a.toNode > b.toNode
    ensures r == 0 || r == 1 || r == -1
  {
    if a.fromNode < b.fromNode && a.toNode < b.toNode then -1
    else if a.fromNode > b.fromNode && a.toNode > b.toNode then 1
    else 0
  }

  /** equals of the ego-net edge: both endpoints match, in order. */
  predicate Equals(a: Edge, b: Edge) {
    a.fromNode == b.fromNode && a.toNode == b.toNode
  }

  /** hashCode: 31 + fromNode + toNode in 32-bit arithmetic. */
  function HashCode(e: Edge): int {
    Wrap32(Wrap32(31 + e.fromNode) + e.toNode)
  }

  /** isTailOrHead(v): v is one of the two endpoints. */
  predicate IsTailOrHead(e: Edge, v: int) {
    e.fromNode == v || e.toNode == v
  }

  lemma EqualsIsDirectional(a: Edge, b: Edge)
    ensures Equals(a, b) <==> a == b
    ensures !Equals(Edge(1, 2), Edge(2, 1))
  {
  }

  lemma {:induction false} HashCodeIsSymmetric(a: int, b: int)
    ensures HashCode(Edge(a, b)) == HashCode(Edge(b, a))
  {
    WrapWrap(31 + a, b);
    WrapWrap(31 + b, a);
  }

  lemma {:induction false} WrapWrap(x: int, y: int)
    ensures Wrap32(Wrap32(x) + y) == Wrap32(x + y)
  {
    var w := Wrap32(x);
    assert (w - x) % TwoTo32 == 0;
    var k := (w - x) / TwoTo32;
    assert w + y + TwoTo31 == (x + y + TwoTo31) + k * TwoTo32;
    ModShift(x + y + TwoTo31, k);
  }

  lemma ModShift(n: int, k: int)
    ensures (n + k * TwoTo32) % TwoTo32 == n % TwoTo32
  {
  }

  lemma EqualEdgesHashEqually(a: Edge, b: Edge)
    requires Equals(a, b)
    ensures HashCode(a) == HashCode(b)
  {
  }

  lemma CompareToIsAntisymmetric(a: Edge, b: Edge)
    ensures CompareTo(a, b) == -CompareTo(b, a)
    ensures CompareTo(a, a) == 0
  {
  }

  /** compareTo returns 0 for edges that are not equal: it is not a total order. */
  lemma CompareToZeroIsNotEquality()
    ensures CompareTo(Edge(1, 3), Edge(2, 2)) == 0
    ensures !Equals(Edge(1, 3), Edge(2, 2))
  {
  }

  // ---------------------------------------------------------------------
  // The undirected edge of the graph package

  /** Equality of the undirected edge: the same unordered pair of endpoints. */
  predicate SameEdge(a: Edge, b: Edge) {
    (a.fromNode == b.fromNode && a.toNode == b.toNode)
    || (a.fromNode == b.toNode && a.toNode == b.fromNode)
  }

  /** The canonical representative of the unordered pair of e's endpoints. */
  function Key(e: Edge): (k: Edge)
    ensures SameEdge(k, e)
    ensures k.fromNode <= k.toNode
  {
    if e.fromNode <= e.toNode then e else Edge(e.toNode, e.fromNode)
  }

  lemma KeyDecidesSameEdge(a: Edge, b: Edge)
    ensures SameEdge(a, b) <==> Key(a) == Key(b)
  {
  }

  /** The end of e that is not v, as the breadth-first search picks it. */
  function FarEnd(e: Edge, v: int): int {
    if e.fromNode == v then e.toNode else e.fromNode
  }

  /** The end of e that is not v, as getNeighbors picks it. */
  function Opposite(e: Edge, v: int): (w: int)
    ensures IsTailOrHead(e, v) ==> w == FarEnd(e, v) && SameEdge(e, Edge(v, w))
  {
    if e.toNode == v then e.fromNode else e.toNode
  }
}
