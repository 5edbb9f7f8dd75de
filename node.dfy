/**
 * A vertex of a graph store: its label and its adjacency list.
 *
 * The list is an object field that the graph stores append to (and the
 * undirected store removes from) through the node, so every later reader of
 * the node sees the change: getAdjList hands out the node's own list.
 */
module Nodes {
  import opened Edges

  class Node {
    const nodeLabel: int
    var adjList: seq<Edge>

    /** A new node has the given label and no edges. */
    constructor (nodeLabel: int)
      ensures this.nodeLabel == nodeLabel
      ensures adjList == []
    {
      this.nodeLabel := nodeLabel;
      adjList := [];
    }

    function GetLabel(): int {
      nodeLabel
    }

    function GetAdjList(): seq<Edge>
      reads this
    {
      adjList
    }

    /** Nodes are equal when their labels are, whatever their adjacency. */
    predicate Equals(other: Node) {
      nodeLabel == other.nodeLabel
    }

    /** getAdjList().add(e) */
    method Append(e: Edge)
      modifies this
      ensures adjList == old(adjList) + [e]
    {
      adjList := adjList + [e];
    }

    /** getAdjList().remove(e) with the undirected edge's equality. */
    method Remove(e: Edge)
      modifies this
      ensures adjList == RemoveFirst(old(adjList), e)
    {
      adjList := RemoveFirst(adjList, e);
    }
  }

  lemma {:induction false} EqualsIgnoresAdjacency(a: Node, b: Node)
    requires a.nodeLabel == b.nodeLabel
    ensures a.Equals(b) && b.Equals(a)
    ensures a.GetLabel() == b.GetLabel()
  {
  }

  /** The number of entries of s that are the same undirected edge as e. */
  function CountSame(s: seq<Edge>, e: Edge): (n: nat)
    ensures n <= |s|
  {
    if s == [] then 0
    else CountSame(s[..|s| - 1], e) + (if SameEdge(s[|s| - 1], e) then 1 else 0)
  }

  /** List.remove(Object): drop the first entry that is the same undirected edge as e. */
  function RemoveFirst(s: seq<Edge>, e: Edge): (r: seq<Edge>)
  {
    if s == [] then []
    else if SameEdge(s[0], e) then s[1..]
    else [s[0]] + RemoveFirst(s[1..], e)
  }

  lemma {:induction false} CountSameCons(x: Edge, s: seq<Edge>, e: Edge)
    ensures CountSame([x] + s, e) == (if SameEdge(x, e) then 1 else 0) + CountSame(s, e)
    decreases |s|
  {
    if s != [] {
      var t := [x] + s;
      assert t[..|t| - 1] == [x] + s[..|s| - 1];
      CountSameCons(x, s[..|s| - 1], e);
    } else {
      assert ([x] + s)[..0] == [];
    }
  }

  /**
   * Removing the first copy of e lowers e's count by one (if there was
   * one), keeps every other edge's count, and keeps only old entries.
   */
  lemma {:induction false} RemoveFirstCounts(s: seq<Edge>, e: Edge, f: Edge)
    ensures CountSame(RemoveFirst(s, e), f) ==
      if SameEdge(e, f) && CountSame(s, e) > 0 then CountSame(s, f) - 1 else CountSame(s, f)
    ensures forall x | x in RemoveFirst(s, e) :: x in s
    ensures |RemoveFirst(s, e)| == if CountSame(s, e) > 0 then |s| - 1 else |s|
    decreases |s|
  {
    if s != [] {
      assert s == [s[0]] + s[1..];
      CountSameCons(s[0], s[1..], e);
      CountSameCons(s[0], s[1..], f);
      RemoveFirstCounts(s[1..], e, f);
      if !SameEdge(s[0], e) {
        CountSameCons(s[0], RemoveFirst(s[1..], e), f);
      }
    }
  }

  /** The count is positive exactly when some entry is the same undirected edge as e. */
  lemma {:induction false} CountSamePositive(s: seq<Edge>, e: Edge)
    ensures CountSame(s, e) > 0 <==> exists x | x in s :: SameEdge(x, e)
    decreases |s|
  {
    if s != [] {
      var init, last := s[..|s| - 1], s[|s| - 1];
      CountSamePositive(init, e);
      assert s == init + [last];
      if CountSame(s, e) > 0 {
        if !SameEdge(last, e) {
          var x :| x in init && SameEdge(x, e);
          assert x in s;
        }
      } else {
        forall x | x in s
          ensures !SameEdge(x, e)
        {
          if x != last {
            assert x in init;
          }
        }
      }
    }
  }

  /** Appending an entry adds one to its own count, and to the count of every edge it is the same as. */
  lemma CountSameSnoc(s: seq<Edge>, x: Edge, e: Edge)
    ensures CountSame(s + [x], e) == CountSame(s, e) + (if SameEdge(x, e) then 1 else 0)
  {
    assert (s + [x])[..|s|] == s;
  }
}
