/**
 * The undirected graph store of the graph package: a label -> Node map whose
 * adjacency lists take every added edge at both ends (so a list may hold the
 * same edge more than once), a stack of the labels in the order addVertex
 * saw them, the set of distinct undirected edges, the edge-betweenness score
 * of each, and the two counters.
 *
 * The edge set holds each undirected edge once, as its canonical key
 * Key(e), lower label first.
 */
module CapGraphs {
  import opened Edges
  import opened Nodes
  import opened Iteration
  import opened Reach
  import opened Kosaraju
  import opened Brandes

  /** The other ends of the entries of a list, as getNeighbors picks them. */
  function OtherEnds(s: seq<Edge>, v: int): set<int> {
    set e | e in s :: Opposite(e, v)
  }

  /** How many copies of e one endpoint's list may hold for removeEdge to take them all out. */
  function Cap(e: Edge): int {
    if e.fromNode == e.toNode then 4 else 2
  }

  /** Every entry of every list has the list's owner as an endpoint. */
  ghost predicate Incident(adj: map<int, seq<Edge>>) {
    forall k, e | k in adj && e in adj[k] :: IsTailOrHead(e, k)
  }

  /**
   * Every entry of every list has the list's owner as an endpoint and both
   * ends among the vertices, and the edge set holds canonical keys between
   * vertices.
   */
  ghost predicate WellFormed(adj: map<int, seq<Edge>>, edges: set<Edge>) {
    && Incident(adj)
    && (forall k, e | k in adj && e in adj[k] :: e.fromNode in adj && e.toNode in adj)
    && (forall k | k in edges :: k == Key(k) && k.fromNode in adj && k.toNode in adj)
  }

  /** The lists and the edge set describe the same undirected edges. */
  ghost predicate Agrees(adj: map<int, seq<Edge>>, edges: set<Edge>) {
    forall u, v | u in adj && v in adj :: v in OtherEnds(adj[u], u) <==> Key(Edge(u, v)) in edges
  }

  /** No list holds an edge more often than removeEdge takes it out. */
  ghost predicate BoundedLists(adj: map<int, seq<Edge>>) {
    forall k, e | k in adj && e in adj[k] :: CountSame(adj[k], e) <= Cap(e)
  }

  /** An entry incident to u has v as its other end exactly when it is the edge between u and v. */
  lemma OppositeIsSameEdge(e: Edge, u: int, v: int)
    requires IsTailOrHead(e, u)
    ensures Opposite(e, u) == v <==> SameEdge(e, Edge(u, v))
  {
  }

  lemma OtherEndsByCount(s: seq<Edge>, u: int, v: int)
    requires forall e | e in s :: IsTailOrHead(e, u)
    ensures v in OtherEnds(s, u) <==> CountSame(s, Edge(u, v)) > 0
  {
    CountSamePositive(s, Edge(u, v));
    forall e | e in s
      ensures Opposite(e, u) == v <==> SameEdge(e, Edge(u, v))
    {
      OppositeIsSameEdge(e, u, v);
    }
  }

  lemma OtherEndsSnoc(s: seq<Edge>, x: Edge, v: int)
    ensures OtherEnds(s + [x], v) == OtherEnds(s, v) + {Opposite(x, v)}
  {
  }

  /** SameEdge is an equivalence, so equivalent edges have the same count. */
  lemma {:induction false} CountSameCongruent(s: seq<Edge>, a: Edge, b: Edge)
    requires SameEdge(a, b)
    ensures CountSame(s, a) == CountSame(s, b)
    decreases |s|
  {
    if s != [] {
      CountSameCongruent(s[..|s| - 1], a, b);
    }
  }

  /** Two removals of e clear a list that holds e at most twice, and leave the other counts alone. */
  lemma RemoveTwiceCounts(s: seq<Edge>, e: Edge, f: Edge)
    ensures CountSame(RemoveFirst(RemoveFirst(s, e), Edge(e.toNode, e.fromNode)), f) ==
      if SameEdge(e, f) then (if CountSame(s, f) <= 2 then 0 else CountSame(s, f) - 2) else CountSame(s, f)
    ensures forall x | x in RemoveFirst(RemoveFirst(s, e), Edge(e.toNode, e.fromNode)) :: x in s
  {
    var r := RemoveFirst(s, e);
    var flip := Edge(e.toNode, e.fromNode);
    RemoveFirstCounts(s, e, f);
    RemoveFirstCounts(r, flip, f);
    if SameEdge(e, f) {
      CountSameCongruent(s, e, f);
      CountSameCongruent(r, flip, f);
    }
  }

  /** The state of one list after the removals removeEdge makes on it. */
  ghost predicate AfterRemoval(s: seq<Edge>, s': seq<Edge>, e: Edge, times: int) {
    if times == 2 then s' == RemoveFirst(RemoveFirst(s, e), Edge(e.toNode, e.fromNode))
    else s' == RemoveFirst(RemoveFirst(RemoveFirst(RemoveFirst(s, e), e), Edge(e.toNode, e.fromNode)), Edge(e.toNode, e.fromNode))
  }

  /**
   * After removeEdge's removals on one list: no count grows, the counts of
   * other edges stay, no copy of e is left when the list held at most Cap(e)
   * of them, and only old entries remain.
   */
  lemma AfterRemovalCounts(s: seq<Edge>, s': seq<Edge>, e: Edge, f: Edge)
    requires AfterRemoval(s, s', e, Cap(e))
    ensures CountSame(s', f) <= CountSame(s, f)
    ensures !SameEdge(e, f) ==> CountSame(s', f) == CountSame(s, f)
    ensures SameEdge(e, f) && CountSame(s, e) <= Cap(e) ==> CountSame(s', f) == 0
    ensures forall x | x in s' :: x in s
  {
    CountSameCongruentIf(s, e, f);
    if Cap(e) == 2 {
      RemoveTwiceCounts(s, e, f);
    } else {
      assert e == Edge(e.toNode, e.fromNode);
      var r := RemoveFirst(RemoveFirst(s, e), e);
      RemoveTwiceCounts(s, e, f);
      RemoveTwiceCounts(r, e, f);
    }
  }

  lemma CountSameCongruentIf(s: seq<Edge>, a: Edge, b: Edge)
    ensures SameEdge(a, b) ==> CountSame(s, a) == CountSame(s, b)
  {
    if SameEdge(a, b) {
      CountSameCongruent(s, a, b);
    }
  }

  /** A new, empty list keeps what the lists say, provided its label was unused and no edge names it. */
  lemma NewVertexKeepsLists(adj0: map<int, seq<Edge>>, adj1: map<int, seq<Edge>>, edges: set<Edge>, num: int)
    requires adj1 == adj0[num := []]
    ensures BoundedLists(adj0) ==> BoundedLists(adj1)
    ensures WellFormed(adj0, edges) ==> WellFormed(adj1, edges)
    ensures num !in adj0 && Agrees(adj0, edges) && WellFormed(adj0, edges) ==> Agrees(adj1, edges)
  {
    if num !in adj0 && Agrees(adj0, edges) && WellFormed(adj0, edges) {
      forall u, v | u in adj1 && v in adj1
        ensures v in OtherEnds(adj1[u], u) <==> Key(Edge(u, v)) in edges
      {
      }
    }
  }

  /** Appending the new edge at both ends adds its key to what the lists say. */
  lemma AddEdgeKeepsLists(adj0: map<int, seq<Edge>>, adj1: map<int, seq<Edge>>, edges0: set<Edge>, from: int, to: int)
    requires adj1.Keys == adj0.Keys && from in adj0 && to in adj0
    requires from != to ==> adj1[from] == adj0[from] + [Edge(from, to)] && adj1[to] == adj0[to] + [Edge(from, to)]
    requires from == to ==> adj1[from] == adj0[from] + [Edge(from, to), Edge(from, to)]
    requires forall k | k in adj0 && k != from && k != to :: adj1[k] == adj0[k]
    ensures WellFormed(adj0, edges0) ==> WellFormed(adj1, edges0 + {Key(Edge(from, to))})
    ensures Agrees(adj0, edges0) ==> Agrees(adj1, edges0 + {Key(Edge(from, to))})
  {
    var edge := Edge(from, to);
    if Agrees(adj0, edges0) {
      forall u, v | u in adj1 && v in adj1
        ensures v in OtherEnds(adj1[u], u) <==> Key(Edge(u, v)) in edges0 + {Key(edge)}
      {
        KeyDecidesSameEdge(edge, Edge(u, v));
        if u == from && u == to {
          OtherEndsSnoc(adj0[u], edge, u);
          OtherEndsSnoc(adj0[u] + [edge], edge, u);
          assert adj1[u] == adj0[u] + [edge] + [edge];
        } else if u == from || u == to {
          OtherEndsSnoc(adj0[u], edge, u);
        }
      }
    }
  }

  class CapGraph {
    var numNodes: int
    var numEdges: int
    var graphNodes: map<int, Node>
    var nodeStack: seq<int>
    var graphEdges: set<Edge>
    var edgeBetweennessMap: map<Edge, real>

    /**
     * Every node carries its own label, every adjacency entry has its owner as
     * an endpoint and both ends among the vertices, the edge set holds
     * canonical keys between vertices, only stored edges are scored, and the
     * stack holds vertices.
     */
    ghost predicate Valid()
      reads this, graphNodes.Values
    {
      && (forall k | k in graphNodes :: graphNodes[k].nodeLabel == k)
      && WellFormed(Adj(), graphEdges)
      && edgeBetweennessMap.Keys <= graphEdges
      && (forall v | v in nodeStack :: v in graphNodes)
    }

    /** numEdges counts the distinct edges; removeEdge keeps this only for a stored edge. */
    ghost predicate Counted()
      reads this
    {
      numEdges == |graphEdges|
    }

    /** What the divisive loop keeps from round to round. */
    ghost predicate Ready()
      reads this, graphNodes.Values
    {
      Valid() && Counted() && Consistent() && Bounded()
    }

    /** A graph still without edges or scores, as reverse builds it. */
    ghost predicate Blank()
      reads this, graphNodes.Values
    {
      Valid() && Counted() && Consistent() && graphEdges == {} && edgeBetweennessMap == map[]
    }

    /** The adjacency list of every vertex. */
    function Adj(): map<int, seq<Edge>>
      reads this`graphNodes, graphNodes.Values
    {
      map k | k in graphNodes :: graphNodes[k].adjList
    }

    /** The neighbours of v: the other end of every entry of its list. */
    ghost function Neighbors(v: int): set<int>
      reads this`graphNodes, graphNodes.Values
      requires v in graphNodes
    {
      OtherEnds(graphNodes[v].adjList, v)
    }

    /** The adjacency lists and the edge set describe the same undirected edges. */
    ghost predicate Consistent()
      reads this`graphNodes, this`graphEdges, graphNodes.Values
    {
      Agrees(Adj(), graphEdges)
    }

    /** No list holds an edge more often than removeEdge takes it out. */
    ghost predicate Bounded()
      reads this`graphNodes, graphNodes.Values
    {
      BoundedLists(Adj())
    }

    constructor ()
      ensures Valid() && Counted() && Consistent() && Bounded()
      ensures graphNodes == map[] && nodeStack == [] && graphEdges == {} && edgeBetweennessMap == map[]
      ensures numNodes == 0 && numEdges == 0
    {
      numNodes := 0;
      numEdges := 0;
      graphNodes := map[];
      nodeStack := [];
      graphEdges := {};
      edgeBetweennessMap := map[];
    }

    /**
     * addVertex: the label gets a new, empty node (replacing any node it had),
     * is pushed on nodeStack, and numNodes grows by one in every case. A new
     * label keeps the lists and the edge set in agreement; a replaced node
     * loses its list while its edges stay in the set and in other lists.
     */
    method AddVertex(num: int)
      requires Valid()
      modifies this
      ensures Valid()
      ensures graphNodes.Keys == old(graphNodes.Keys) + {num}
      ensures fresh(graphNodes[num]) && graphNodes[num].adjList == []
      ensures forall k | k in old(graphNodes) && k != num :: graphNodes[k] == old(graphNodes[k])
      ensures nodeStack == old(nodeStack) + [num] && numNodes == old(numNodes) + 1
      ensures graphEdges == old(graphEdges) && edgeBetweennessMap == old(edgeBetweennessMap)
      ensures numEdges == old(numEdges)
      ensures old(Bounded()) ==> Bounded()
      ensures old(num !in graphNodes && Consistent()) ==> Consistent()
    {
      ghost var adj0 := Adj();
      ghost var fresh0 := num !in graphNodes;
      var node := new Node(num);
      graphNodes, nodeStack, numNodes := graphNodes[num := node], nodeStack + [num], numNodes + 1;
      ghost var adj1 := Adj();
      assert adj1 == adj0[num := []];
      NewVertexKeepsLists(adj0, adj1, graphEdges, num);
    }

    /**
     * addEdge: the edge goes on the lists of both endpoints on every call (twice
     * on one list for a loop); the edge set and numEdges change only for an
     * edge not already stored, in either direction.
     */
    method AddEdge(from: int, to: int)
      requires Valid() && from in graphNodes && to in graphNodes
      modifies this, graphNodes[from], graphNodes[to]
      ensures Valid() && graphNodes == old(graphNodes)
      ensures from != to ==> Adj()[from] == old(Adj()[from]) + [Edge(from, to)] && Adj()[to] == old(Adj()[to]) + [Edge(from, to)]
      ensures from == to ==> Adj()[from] == old(Adj()[from]) + [Edge(from, to), Edge(from, to)]
      ensures forall k | k in old(Adj()) && k != from && k != to :: Adj()[k] == old(Adj())[k]
      ensures graphEdges == old(graphEdges) + {Key(Edge(from, to))}
      ensures numEdges == old(numEdges) + (if Key(Edge(from, to)) in old(graphEdges) then 0 else 1)
      ensures nodeStack == old(nodeStack) && numNodes == old(numNodes)
      ensures edgeBetweennessMap == old(edgeBetweennessMap)
      ensures old(Consistent()) ==> Consistent()
    {
      ghost var adj0 := Adj();
      ghost var edges0 := graphEdges;
      var edge := Edge(from, to);
      if Key(edge) !in graphEdges {
        graphEdges := graphEdges + {Key(edge)};
        numEdges := numEdges + 1;
      }
      AppendAtEnds(from, to);
      AddEdgeKeepsLists(adj0, Adj(), edges0, from, to);
    }

    /** The two list appends of addEdge, both on one list for a loop. */
    method AppendAtEnds(from: int, to: int)
      requires from in graphNodes && to in graphNodes
      requires forall k | k in graphNodes :: graphNodes[k].nodeLabel == k
      modifies graphNodes[from], graphNodes[to]
      ensures Adj().Keys == old(Adj().Keys)
      ensures from != to ==> Adj()[from] == old(Adj()[from]) + [Edge(from, to)] && Adj()[to] == old(Adj()[to]) + [Edge(from, to)]
      ensures from == to ==> Adj()[from] == old(Adj()[from]) + [Edge(from, to), Edge(from, to)]
      ensures forall k | k in old(Adj()) && k != from && k != to :: Adj()[k] == old(Adj())[k]
    {
      var fromNode := graphNodes[from];
      var edge := Edge(from, to);
      fromNode.Append(edge);
      graphNodes[to].Append(edge);
      assert forall k | k in graphNodes && k != from && k != to :: graphNodes[k] != fromNode && graphNodes[k] != graphNodes[to];
    }

    /** isEdge: i and j are joined by a stored edge, in either direction. */
    predicate IsEdge(i: int, j: int)
      reads this
    {
      Linked(graphEdges, i, j)
    }

    /** isEdge does not depend on the order of its arguments, and it is the lookup of the one key of the pair. */
    lemma IsEdgeSymmetric(i: int, j: int)
      ensures IsEdge(i, j) == IsEdge(j, i)
      ensures IsEdge(i, j) <==> Key(Edge(i, j)) in graphEdges
    {
      KeyDecidesSameEdge(Edge(i, j), Edge(j, i));
    }

    /** While the lists and the edge set agree, isEdge(i, j) holds exactly when j is a neighbour of i. */
    lemma IsEdgeMeansNeighbor(i: int, j: int)
      requires Consistent() && i in graphNodes && j in graphNodes
      ensures IsEdge(i, j) <==> j in Neighbors(i)
    {
      IsEdgeSymmetric(i, j);
      assert Neighbors(i) == OtherEnds(Adj()[i], i);
    }

    /** While the lists and the edge set agree, the neighbour relation is symmetric. */
    lemma NeighborsSymmetric(u: int, v: int)
      requires Consistent() && u in graphNodes && v in graphNodes
      ensures v in Neighbors(u) <==> u in Neighbors(v)
    {
      IsEdgeMeansNeighbor(u, v);
      IsEdgeMeansNeighbor(v, u);
      IsEdgeSymmetric(u, v);
    }

    function GetNodes(): set<int>
      reads this
    {
      graphNodes.Keys
    }

    function GetNumNodes(): int
      reads this
    {
      numNodes
    }

    function GetNumEdges(): int
      reads this
    {
      numEdges
    }

    /** getNeighbors: the other end of every entry of the vertex's list. */
    method GetNeighbors(center: int) returns (neighbors: set<int>)
      requires center in graphNodes
      ensures neighbors == Neighbors(center)
    {
      neighbors := {};
      var adjList := graphNodes[center].adjList;
      for i := 0 to |adjList|
        invariant neighbors == OtherEnds(adjList[..i], center)
      {
        assert adjList[..i + 1] == adjList[..i] + [adjList[i]];
        OtherEndsSnoc(adjList[..i], adjList[i], center);
        neighbors := neighbors + {Opposite(adjList[i], center)};
      }
      assert adjList[..|adjList|] == adjList;
    }

    /**
     * removeEdge: the edge leaves the edge set and the score map, the first
     * two copies of it (in either direction) leave each endpoint's list, four
     * for a loop, and numEdges drops by one whether or not the edge was stored.
     */
    method RemoveEdge(graphEdge: Edge)
      requires Valid() && graphEdge.fromNode in graphNodes && graphEdge.toNode in graphNodes
      modifies this, graphNodes[graphEdge.fromNode], graphNodes[graphEdge.toNode]
      ensures Valid() && graphNodes == old(graphNodes)
      ensures graphEdges == old(graphEdges) - {Key(graphEdge)}
      ensures edgeBetweennessMap == old(edgeBetweennessMap) - {Key(graphEdge)}
      ensures numEdges == old(numEdges) - 1
      ensures nodeStack == old(nodeStack) && numNodes == old(numNodes)
      ensures forall k | k in old(Adj()) && IsTailOrHead(graphEdge, k) ::
        AfterRemoval(old(Adj())[k], Adj()[k], graphEdge, Cap(graphEdge))
      ensures forall k | k in old(Adj()) && !IsTailOrHead(graphEdge, k) :: Adj()[k] == old(Adj())[k]
      ensures old(Bounded()) ==> Bounded()
      ensures old(Consistent() && Bounded()) ==> Consistent()
      ensures old(Counted()) && Key(graphEdge) in old(graphEdges) ==> Counted()
    {
      ghost var adj0 := Adj();
      ghost var edges0 := graphEdges;
      graphEdges := graphEdges - {Key(graphEdge)};
      edgeBetweennessMap := edgeBetweennessMap - {Key(graphEdge)};
      numEdges := numEdges - 1;
      RemoveAtEnds(graphEdge);
      RemovalKeepsLists(adj0, Adj(), edges0, graphEdge);
    }

    /**
     * edgeBetweenness: every stored edge's score is reset to 0, then a
     * breadth-first search from each vertex in turn, followed by the
     * bottom-up pass, adds that source's shares. Afterwards the map is
     * Scores: exactly the stored edges, each with its betweenness score, the
     * sum over all sources of the shares each round gives it (ScoresBounds
     * bounds these). Only the map changes.
     */
    method EdgeBetweenness()
      requires Valid() && Stored(Adj(), graphEdges)
      modifies this`edgeBetweennessMap
      ensures Valid()
      ensures edgeBetweennessMap == Scores(Adj(), graphEdges)
    {
      var adj := Adj();
      edgeBetweennessMap := Betweenness(adj, graphEdges, edgeBetweennessMap);
    }

    /**
     * getMaxBW: the scored edges whose score equals the greatest score (or 0,
     * should every score be below 0), each once. It is non-empty when some
     * edge is scored and no score is below 0.
     */
    method GetMaxBW() returns (maxBWEdgeList: seq<Edge>)
      ensures NoDuplicates(maxBWEdgeList)
      ensures forall k | k in maxBWEdgeList ::
        k in edgeBetweennessMap && edgeBetweennessMap[k] >= 0.0
        && forall k' | k' in edgeBetweennessMap :: edgeBetweennessMap[k'] <= edgeBetweennessMap[k]
      ensures forall k | k in edgeBetweennessMap && edgeBetweennessMap[k] >= 0.0
        && (forall k' | k' in edgeBetweennessMap :: edgeBetweennessMap[k'] <= edgeBetweennessMap[k]) :: k in maxBWEdgeList
      ensures edgeBetweennessMap != map[] && (forall k | k in edgeBetweennessMap :: edgeBetweennessMap[k] >= 0.0) ==>
        maxBWEdgeList != []
      ensures Listed(maxBWEdgeList) == Top(edgeBetweennessMap)
    {
      var scores := edgeBetweennessMap;
      var maxBW := 0.0;
      var rest := scores.Keys;
      while rest != {}
        invariant rest <= scores.Keys && maxBW >= 0.0
        invariant forall k | k in scores.Keys - rest :: scores[k] <= maxBW
        invariant maxBW == 0.0 || exists k | k in scores :: scores[k] == maxBW
        decreases |rest|
      {
        if forall k :: k !in rest {
          assert false;
        }
        var graphEdge :| graphEdge in rest;
        rest := rest - {graphEdge};
        if scores[graphEdge] > maxBW {
          maxBW := scores[graphEdge];
        }
      }
      maxBWEdgeList := [];
      rest := scores.Keys;
      while rest != {}
        invariant rest <= scores.Keys && NoDuplicates(maxBWEdgeList)
        invariant forall k | k in maxBWEdgeList :: k in scores.Keys - rest && scores[k] == maxBW
        invariant forall k | k in scores.Keys - rest && scores[k] == maxBW :: k in maxBWEdgeList
        decreases |rest|
      {
        if forall k :: k !in rest {
          assert false;
        }
        var graphEdge :| graphEdge in rest;
        rest := rest - {graphEdge};
        if scores[graphEdge] == maxBW {
          maxBWEdgeList := maxBWEdgeList + [graphEdge];
        }
      }
      if scores != map[] && forall k | k in scores :: scores[k] >= 0.0 {
        if maxBW == 0.0 {
          var k :| k in scores;
          assert k in maxBWEdgeList;
        } else {
          var k :| k in scores && scores[k] == maxBW;
          assert k in maxBWEdgeList;
        }
      }
      ListedTop(scores, maxBWEdgeList);
    }

    /**
     * The divisive loop of the Girvan-Newman driver: while an edge is left,
     * rescore the edges and remove every edge of greatest score. Each round
     * removes at least one edge, so the loop ends, with no edge left in the
     * edge set or in any adjacency list and the vertices untouched.
     */
    method GirvanNewman()
      requires Ready()
      modifies this, graphNodes.Values
      ensures Ready()
      ensures graphNodes == old(graphNodes) && nodeStack == old(nodeStack) && numNodes == old(numNodes)
      ensures numEdges == 0 && graphEdges == {}
      ensures forall k | k in graphNodes :: graphNodes[k].adjList == []
    {
      while numEdges > 0
        invariant Ready()
        invariant graphNodes == old(graphNodes) && nodeStack == old(nodeStack) && numNodes == old(numNodes)
        decreases numEdges
      {
        Round();
      }
      assert graphEdges == {};
      ghost var adj := Adj();
      NoEdgesEmptyLists(adj, graphEdges);
      assert forall k | k in graphNodes :: adj[k] == graphNodes[k].adjList;
    }

    /**
     * One round of the divisive loop: rescore, then remove every edge of
     * greatest score. With an edge left, at least one goes.
     */
    method Round()
      requires Ready() && numEdges > 0
      modifies this, graphNodes.Values
      ensures Ready()
      ensures graphNodes == old(graphNodes) && nodeStack == old(nodeStack) && numNodes == old(numNodes)
      ensures graphEdges == old(graphEdges) - Top(Scores(old(Adj()), old(graphEdges)))
      ensures graphEdges < old(graphEdges)
      ensures numEdges < old(numEdges)
    {
      ghost var top := Top(Scores(Adj(), graphEdges));
      ghost var edges := graphEdges;
      var maxBW := TopScored();
      assert Listed(maxBW) == top;
      ghost var k := maxBW[0];
      RemoveAll(maxBW);
      assert graphEdges == edges - top;
      assert k in Listed(maxBW);
    }

    /** edgeBetweenness, then getMaxBW: the edges of greatest fresh score, each once. */
    method TopScored() returns (maxBW: seq<Edge>)
      requires Valid() && Consistent()
      modifies this`edgeBetweennessMap
      ensures Valid()
      ensures NoDuplicates(maxBW) && forall k | k in maxBW :: k in graphEdges
      ensures Listed(maxBW) == Top(Scores(old(Adj()), graphEdges))
      ensures graphEdges != {} ==> maxBW != []
    {
      ghost var adj := Adj();
      AgreesStored(adj, graphEdges);
      EdgeBetweenness();
      assert Adj() == adj;
      ghost var scores := edgeBetweennessMap;
      ScoresKnown(adj, graphEdges, scores);
      if graphEdges != {} {
        var k :| k in graphEdges;
        assert k in edgeBetweennessMap;
      }
      maxBW := GetMaxBW();
    }

    /** The inner loop of the driver: removeEdge on each listed edge in turn. */
    method RemoveAll(maxBW: seq<Edge>)
      requires Ready()
      requires NoDuplicates(maxBW) && forall k | k in maxBW :: k in graphEdges
      modifies this, graphNodes.Values
      ensures Ready()
      ensures graphNodes == old(graphNodes) && nodeStack == old(nodeStack) && numNodes == old(numNodes)
      ensures graphEdges == old(graphEdges) - Listed(maxBW)
      ensures numEdges == old(numEdges) - |maxBW|
    {
      ghost var removed: set<Edge> := {};
      for i := 0 to |maxBW|
        invariant Ready()
        invariant graphNodes == old(graphNodes) && nodeStack == old(nodeStack) && numNodes == old(numNodes)
        invariant graphEdges == old(graphEdges) - removed
        invariant removed == Listed(maxBW[..i])
        invariant forall j | i <= j < |maxBW| :: maxBW[j] in graphEdges
        invariant numEdges == old(numEdges) - i
      {
        ghost var edges0 := graphEdges;
        var maxBWEdge := maxBW[i];
        assert Key(maxBWEdge) == maxBWEdge;
        RemoveEdge(maxBWEdge);
        RemovedOne(maxBW, i, edges0, graphEdges);
        RemovedMore(old(graphEdges), removed, maxBWEdge, edges0, graphEdges);
        removed := removed + {maxBWEdge};
        SetOfPrefixSnoc(maxBW, i);
      }
      SetOfPrefixSnoc(maxBW, |maxBW|);
    }

    /** exportGraph: every vertex mapped to its neighbour set, whatever order the keys are visited in. */
    method ExportGraph() returns (mapGraph: map<int, set<int>>)
      ensures mapGraph.Keys == graphNodes.Keys
      ensures forall k | k in mapGraph :: mapGraph[k] == Neighbors(k)
      ensures mapGraph == Snapshot()
    {
      ghost var snap := Snapshot();
      mapGraph := map[];
      var rest := graphNodes.Keys;
      while rest != {}
        invariant rest <= graphNodes.Keys
        invariant mapGraph.Keys == graphNodes.Keys - rest
        invariant forall k | k in mapGraph :: mapGraph[k] == Neighbors(k) == snap[k]
        decreases |rest|
      {
        if forall x :: x !in rest {
          assert false;
        }
        var nodeInt :| nodeInt in rest;
        var nbrs := GetNeighbors(nodeInt);
        mapGraph := mapGraph[nodeInt := nbrs];
        rest := rest - {nodeInt};
      }
    }

    /**
     * reverse: a new graph with the same vertices, each added once, and every
     * stored edge added with its ends swapped. An undirected edge turned
     * around is the same edge, so the new graph stores the same edges, its
     * lists agree with them, and numEdges counts them.
     */
    method Reverse() returns (r: CapGraph)
      requires Valid()
      ensures fresh(r) && (forall v | v in r.graphNodes :: fresh(r.graphNodes[v]))
      ensures r.Valid() && r.Counted() && r.Consistent()
      ensures r.graphNodes.Keys == graphNodes.Keys && r.graphEdges == graphEdges
      ensures r.nodeStack == Ascending(graphNodes.Keys) && r.numNodes == |graphNodes.Keys|
      ensures r.edgeBetweennessMap == map[]
    {
      var keys := Ascending(graphNodes.Keys);
      AscendingHasNoDuplicates(graphNodes.Keys);
      r := NewWithVertices(keys);
      assert r.graphNodes.Keys == graphNodes.Keys;
      r.AddReversed(graphEdges);
    }

    /** addVertex with a label not yet used, on a graph without edges. */
    method AddBlank(num: int)
      requires Blank() && num !in graphNodes
      modifies this
      ensures Blank() && graphNodes.Keys == old(graphNodes.Keys) + {num} && fresh(graphNodes[num])
      ensures forall k | k in old(graphNodes) :: graphNodes[k] == old(graphNodes[k])
      ensures nodeStack == old(nodeStack) + [num] && numNodes == old(numNodes) + 1
    {
      AddVertex(num);
    }

    /** The lists agree with the edge set: what getEgonet keeps while it builds. */
    ghost predicate Sound()
      reads this, graphNodes.Values
    {
      Valid() && Consistent()
    }

    /** addVertex with a label not yet used. */
    method AddFresh(num: int)
      requires Sound() && num !in graphNodes
      modifies this
      ensures Sound() && graphNodes.Keys == old(graphNodes.Keys) + {num} && fresh(graphNodes[num])
      ensures forall k | k in old(graphNodes) :: graphNodes[k] == old(graphNodes[k])
      ensures graphEdges == old(graphEdges)
      ensures nodeStack == old(nodeStack) + [num] && numNodes == old(numNodes) + 1
    {
      AddVertex(num);
    }

    /** addEdge between two vertices, keeping the lists, the edge set and the count together. */
    method AddJoin(from: int, to: int)
      requires Sound() && from in graphNodes && to in graphNodes
      modifies this, graphNodes.Values
      ensures Sound() && graphNodes == old(graphNodes)
      ensures graphEdges == old(graphEdges) + {Key(Edge(from, to))}
    {
      AddEdge(from, to);
    }

    /**
     * One step of the first loop of getEgonet, corrected: to becomes a
     * vertex unless it is one, and is joined to center.
     */
    method AddSpoke(center: int, to: int)
      requires Sound() && center in graphNodes
      modifies this, graphNodes[center], if to in graphNodes then {graphNodes[to]} else {}
      ensures Sound() && graphNodes.Keys == old(graphNodes.Keys) + {to}
      ensures forall v | v in old(graphNodes) :: graphNodes[v] == old(graphNodes[v])
      ensures to !in old(graphNodes) ==> fresh(graphNodes[to])
      ensures graphEdges == old(graphEdges) + {Key(Edge(center, to))}
      ensures to in old(graphNodes) ==> nodeStack == old(nodeStack) && numNodes == old(numNodes)
      ensures to !in old(graphNodes) ==> nodeStack == old(nodeStack) + [to] && numNodes == old(numNodes) + 1
      ensures StackCounts(old(nodeStack), old(graphNodes.Keys), old(numNodes)) ==> StackCounts(nodeStack, graphNodes.Keys, numNodes)
    {
      if to !in graphNodes {
        if StackCounts(nodeStack, graphNodes.Keys, numNodes) {
          StackCountsPush(nodeStack, graphNodes.Keys, numNodes, to);
        }
        AddFresh(to);
      } else {
        assert graphNodes.Keys + {to} == graphNodes.Keys;
      }
      AddEdge(center, to);
    }

    /** One step of the inner loop of getEgonet: addEdge from u to m when m lies in within. */
    method JoinWithin(u: int, m: int, within: set<int>)
      requires Sound() && u in graphNodes && within <= graphNodes.Keys
      modifies this, graphNodes.Values
      ensures Sound() && graphNodes == old(graphNodes)
      ensures graphEdges == old(graphEdges) + (if m in within then {Key(Edge(u, m))} else {})
    {
      if m in within {
        AddJoin(u, m);
      }
    }

    /** The second loop of reverse: addEdge(to, from) for every edge of edges. */
    method AddReversed(edges: set<Edge>)
      requires Valid() && Counted() && Consistent() && graphEdges == {}
      requires forall k | k in edges :: k == Key(k) && k.fromNode in graphNodes && k.toNode in graphNodes
      modifies this, graphNodes.Values
      ensures Valid() && Counted() && Consistent()
      ensures graphNodes == old(graphNodes) && nodeStack == old(nodeStack) && numNodes == old(numNodes)
      ensures graphEdges == edges && edgeBetweennessMap == old(edgeBetweennessMap)
    {
      var rest := edges;
      ghost var done: set<Edge> := {};
      while rest != {}
        invariant done + rest == edges && done !! rest
        invariant Valid() && Counted() && Consistent()
        invariant graphNodes == old(graphNodes) && nodeStack == old(nodeStack) && numNodes == old(numNodes)
        invariant graphEdges == done && edgeBetweennessMap == old(edgeBetweennessMap)
        decreases |rest|
      {
        if forall x :: x !in rest {
          assert false;
        }
        var graphEdge :| graphEdge in rest;
        MoveOne(done, rest, edges, graphEdge);
        KeyTurned(graphEdge);
        assert graphEdge !in graphEdges && |graphEdges + {graphEdge}| == numEdges + 1;
        AddEdge(graphEdge.toNode, graphEdge.fromNode);
        done, rest := done + {graphEdge}, rest - {graphEdge};
      }
    }

    /** The four list removals of removeEdge, two at each end (all four on one list for a loop). */
    method RemoveAtEnds(graphEdge: Edge)
      requires graphEdge.fromNode in graphNodes && graphEdge.toNode in graphNodes
      requires forall k | k in graphNodes :: graphNodes[k].nodeLabel == k
      modifies graphNodes[graphEdge.fromNode], graphNodes[graphEdge.toNode]
      ensures Adj().Keys == old(Adj().Keys)
      ensures forall k | k in old(Adj()) && IsTailOrHead(graphEdge, k) ::
        AfterRemoval(old(Adj())[k], Adj()[k], graphEdge, Cap(graphEdge))
      ensures forall k | k in old(Adj()) && !IsTailOrHead(graphEdge, k) :: Adj()[k] == old(Adj())[k]
    {
      var from, to := graphEdge.fromNode, graphEdge.toNode;
      var node1 := graphNodes[from];
      var node2 := graphNodes[to];
      node1.Remove(Edge(from, to));
      node2.Remove(Edge(from, to));
      node1.Remove(Edge(to, from));
      node2.Remove(Edge(to, from));
      assert forall k | k in graphNodes && k != from && k != to :: graphNodes[k] != node1 && graphNodes[k] != node2;
    }

    /**
     * getEgonet with the other end of each entry, as getNeighbors takes it:
     * a new graph holding center, each of its neighbours once, the edge from
     * center to each, and every stored edge between two neighbours. Its
     * vertices are center and its neighbours; while the lists agree with the
     * edge set its edges are exactly the stored edges with both ends among
     * them, the subgraph induced on center and its neighbours.
     */
    method GetEgonet(center: int) returns (ego: CapGraph)
      requires Valid() && center in graphNodes
      ensures fresh(ego) && ego.Valid() && ego.Consistent()
      ensures ego.graphNodes.Keys == {center} + old(Neighbors(center))
      ensures old(Consistent()) ==> ego.graphEdges == Induced(old(graphEdges), {center} + old(Neighbors(center)))
    {
      var adj := Adj();
      ghost var edges := graphEdges;
      ghost var consistent := Consistent();
      assert WellFormed(adj, edges) && (consistent ==> Agrees(adj, edges));
      var centerList := graphNodes[center].adjList;
      var neighbors := GetNeighbors(center);
      assert centerList == adj[center] && neighbors == OtherEnds(centerList, center);
      var order := Ascending(neighbors);
      EgonetGathered(adj, edges, center, order, consistent);
      ego := NewSpokes(center, centerList, neighbors);
      AddInner(ego, adj, order, neighbors);
    }

    /** Every vertex with its neighbours. */
    ghost function Snapshot(): map<int, set<int>>
      reads this`graphNodes, graphNodes.Values
    {
      NeighborMap(Adj())
    }

    /** Every vertex is on nodeStack, as it is until the first getSCCs empties it. */
    ghost predicate StackCovers()
      reads this
    {
      forall v | v in graphNodes :: v in nodeStack
    }

    /** g is this graph as a value: the same vertices, each with its neighbours. */
    ghost predicate Abstracts(g: Graph)
      reads this`graphNodes, graphNodes.Values
    {
      g.Keys == graphNodes.Keys && forall v | v in graphNodes :: g[v] == Neighbors(v)
    }

    /**
     * The snapshot is this graph as a value and its neighbours are vertices;
     * while the lists agree with the edge set it is its own reverse.
     */
    lemma SnapshotAbstracts()
      requires Valid()
      ensures Abstracts(Snapshot()) && Reach.Closed(Snapshot())
      ensures Consistent() ==> IsReverse(Snapshot(), Snapshot())
    {
      var g := Snapshot();
      ListsClosed(Adj(), graphEdges);
      assert forall k | k in g :: g[k] == OtherEnds(Adj()[k], k);
      if Consistent() {
        forall u, v | u in g && v in g
          ensures v in g[u] <==> u in g[v]
        {
          NeighborsSymmetric(u, v);
        }
      }
    }

    /**
     * getSCCs: the first loop pops the whole of nodeStack, running DFSVisit
     * from every vertex not yet visited; the second pops the finish stack and
     * grows one new graph per unvisited vertex by DFSVisitReverse on reverse().
     * The returned graphs have no edges and disjoint vertex sets covering
     * every vertex that was on nodeStack. When the lists agree with the edge
     * set and nodeStack held every vertex, each one's vertex set is a
     * component of the neighbour relation, which is then symmetric.
     */
    method GetSCCs() returns (graphList: seq<CapGraph>)
      requires Valid()
      modifies this`nodeStack
      ensures Valid() && nodeStack == []
      ensures forall c | c in graphList :: fresh(c) && c.Valid() && c.graphEdges == {}
      ensures forall c | c in graphList :: c.graphNodes.Keys != {} && c.graphNodes.Keys <= graphNodes.Keys
      ensures forall i, j | 0 <= i < j < |graphList| :: graphList[i].graphNodes.Keys !! graphList[j].graphNodes.Keys
      ensures forall v | v in old(nodeStack) :: exists c | c in graphList :: v in c.graphNodes
      ensures old(nodeStack) == [] ==> graphList == []
      ensures old(Consistent() && StackCovers()) ==>
        forall c | c in graphList :: IsComponent(old(Snapshot()), c.graphNodes.Keys)
    {
      ghost var g := Snapshot();
      SnapshotAbstracts();
      ghost var full := Consistent() && StackCovers();
      var finished := FinishAll(g);
      graphList := SecondPass(g, finished, full);
    }

    /** The second half of getSCCs: reverse the graph, export it, and collect the trees. */
    method SecondPass(ghost g: Graph, finished: seq<int>, ghost full: bool) returns (graphList: seq<CapGraph>)
      requires Valid() && g == Snapshot()
      requires forall x | x in finished :: x in graphNodes
      requires full ==> Consistent() && IsReverse(g, g) && FinishOrder(g, finished, {}) && forall x | x in g :: x in finished
      ensures forall c | c in graphList :: fresh(c) && c.Valid() && c.graphEdges == {}
      ensures forall c | c in graphList :: c.graphNodes.Keys != {} && c.graphNodes.Keys <= graphNodes.Keys
      ensures forall i, j | 0 <= i < j < |graphList| :: graphList[i].graphNodes.Keys !! graphList[j].graphNodes.Keys
      ensures forall x | x in finished :: exists c | c in graphList :: x in c.graphNodes
      ensures |graphList| <= |finished|
      ensures full ==> forall c | c in graphList :: IsComponent(g, c.graphNodes.Keys)
    {
      assert forall x | x in finished :: x in g;
      var reverseMap := ExportReverse(g, full);
      graphList := CollectTrees(reverseMap, g, finished, full);
    }

    /**
     * reverse().exportGraph(): its neighbours are vertices, and while the
     * lists agree with the edge set it is the neighbour map of this graph.
     */
    method ExportReverse(ghost g: Graph, ghost full: bool) returns (reverseMap: Graph)
      requires Valid() && g == Snapshot() && (full ==> Consistent())
      ensures reverseMap.Keys == g.Keys && Reach.Closed(reverseMap)
      ensures full ==> reverseMap == g
    {
      ghost var adj, edges := Adj(), graphEdges;
      assert WellFormed(adj, edges) && (full ==> Agrees(adj, edges)) && g == NeighborMap(adj);
      var reverseGraph := Reverse();
      reverseMap := reverseGraph.ExportGraph();
      SameEnds(adj, reverseGraph.Adj(), edges, full);
    }

    /** The first loop of getSCCs: pops nodeStack empty, visiting each vertex not yet visited. */
    method FinishAll(ghost g: Graph) returns (finished: seq<int>)
      requires Valid() && Abstracts(g) && Reach.Closed(g)
      modifies this`nodeStack
      ensures Valid() && nodeStack == [] && Consistent() == old(Consistent()) && Adj() == old(Adj())
      ensures forall x | x in finished :: x in graphNodes
      ensures FinishOrder(g, finished, {})
      ensures forall v | v in old(nodeStack) :: v in finished
      ensures old(nodeStack) == [] ==> finished == []
    {
      var stack := nodeStack;
      var visited: set<int> := {};
      finished := [];
      FirstPassStart(g);
      while stack != []
        modifies {}
        invariant forall u | u in old(nodeStack) :: u in visited || u in stack
        invariant old(nodeStack) == [] ==> stack == [] && finished == []
        invariant forall u | u in stack :: u in graphNodes
        invariant FirstPass(g, visited, finished) && Gray(visited, finished) == {}
        decreases |stack|
      {
        var v := stack[|stack| - 1];
        ghost var popped := stack;
        stack := stack[..|stack| - 1];
        assert forall u | u in popped :: u == v || u in stack;
        if v !in visited {
          visited, finished := DFSVisit(g, v, visited, finished);
        }
      }
      forall x | x in visited
        ensures x in finished
      {
        assert x !in Gray(visited, finished);
      }
      ghost var adj := Adj();
      nodeStack := [];
      assert Adj() == adj;
    }

    /**
     * DFSVisit: marks v visited, visits each unvisited neighbour in turn,
     * then pushes v on the finish stack. Everything it pushes is reachable
     * from v, and the first-pass invariant holds again on return.
     */
    method DFSVisit(ghost g: Graph, v: int, visited: set<int>, finished: seq<int>)
      returns (visited': set<int>, finished': seq<int>)
      requires Valid() && Abstracts(g) && Reach.Closed(g)
      requires v in graphNodes && v !in visited
      requires FirstPass(g, visited, finished)
      ensures FirstPass(g, visited', finished')
      ensures visited + {v} <= visited' && v in finished'
      ensures |finished| < |finished'| && finished'[..|finished|] == finished
      ensures forall k | |finished| <= k < |finished'| :: Reaches(g, v, finished'[k])
      ensures Gray(visited', finished') == Gray(visited, finished)
      decreases |graphNodes.Keys - visited|
    {
      ghost var below := Gray(visited, finished);
      Discover(g, visited, finished, v);
      visited' := visited + {v};
      finished' := finished;
      var nbrs := GetNeighbors(v);
      assert nbrs == g[v] && nbrs <= graphNodes.Keys;
      var rest := nbrs;
      while rest != {}
        invariant rest <= nbrs
        invariant FirstPass(g, visited', finished')
        invariant visited + {v} <= visited'
        invariant Gray(visited', finished') == below + {v}
        invariant |finished| <= |finished'| && finished'[..|finished|] == finished
        invariant forall k | |finished| <= k < |finished'| :: Reaches(g, v, finished'[k])
        invariant forall x | x in nbrs && x !in rest :: x in visited'
        decreases |rest|
      {
        if forall x :: x !in rest {
          assert false;
        }
        var n :| n in rest;
        rest := rest - {n};
        if n !in visited' {
          GapShrinks(graphNodes.Keys, visited, visited', v);
          ghost var before := finished';
          visited', finished' := DFSVisit(g, n, visited', finished');
          PrefixOfPrefix(finished, before, finished');
          ReachesEdge(g, v, n);
          forall k | |finished| <= k < |finished'|
            ensures Reaches(g, v, finished'[k])
          {
            if k < |before| {
              assert finished'[k] == before[k];
            } else {
              ReachesTrans(g, v, n, finished'[k]);
            }
          }
        }
      }
      forall k | 0 <= k < |finished'| && Reaches(g, finished'[k], v)
        ensures Reaches(g, v, finished'[k]) || GrayReached(g, below, finished'[k])
      {
        if k < |finished| {
          assert finished'[k] == finished[k];
          GrayOnPath(g, visited, finished, finished[k], v);
        }
      }
      Finish(g, visited', finished', v, below);
      finished' := finished' + [v];
    }
  }

  /** c is a valid graph without edges whose vertices are exactly keys. */
  ghost predicate Tree(c: CapGraph, keys: set<int>)
    reads c, c.graphNodes.Values
  {
    c.Valid() && c.graphEdges == {} && c.graphNodes.Keys == keys
  }

  /** When the finish stack is empty, the trees grown by the second pass cover it, are disjoint and, given a full first pass, are components. */
  lemma TreesCover(g: Graph, rg: Graph, finished: seq<int>, full: bool, visited: set<int>, graphList: seq<CapGraph>, comps: seq<set<int>>)
    requires Pass(g, rg, finished, full, 0, visited, comps) && |comps| == |graphList|
    requires forall i | 0 <= i < |graphList| :: Tree(graphList[i], comps[i])
    ensures forall c | c in graphList :: c.Valid() && c.graphEdges == {}
    ensures forall c | c in graphList :: c.graphNodes.Keys != {} && c.graphNodes.Keys <= rg.Keys
    ensures forall i, j | 0 <= i < j < |graphList| :: graphList[i].graphNodes.Keys !! graphList[j].graphNodes.Keys
    ensures forall x | x in finished :: exists c | c in graphList :: x in c.graphNodes
    ensures full ==> forall c | c in graphList :: IsComponent(g, c.graphNodes.Keys)
  {
    forall x | x in finished
      ensures exists c | c in graphList :: x in c.graphNodes
    {
      var k :| 0 <= k < |finished| && finished[k] == x;
      var i :| 0 <= i < |comps| && x in comps[i];
      assert x in graphList[i].graphNodes;
    }
  }

  /**
   * The second loop of getSCCs: pops the finish stack and, for each vertex
   * not yet visited, grows a new graph by DFSVisitReverse on the reversed graph.
   */
  method CollectTrees(reverseGraph: Graph, ghost g: Graph, finished: seq<int>, ghost full: bool)
    returns (graphList: seq<CapGraph>)
    requires Reach.Closed(reverseGraph)
    requires forall x | x in finished :: x in reverseGraph
    requires full ==> Ready(g, reverseGraph, finished)
    ensures forall c | c in graphList :: fresh(c) && c.Valid() && c.graphEdges == {}
    ensures forall c | c in graphList :: c.graphNodes.Keys != {} && c.graphNodes.Keys <= reverseGraph.Keys
    ensures forall i, j | 0 <= i < j < |graphList| :: graphList[i].graphNodes.Keys !! graphList[j].graphNodes.Keys
    ensures forall x | x in finished :: exists c | c in graphList :: x in c.graphNodes
    ensures |graphList| <= |finished|
    ensures full ==> forall c | c in graphList :: IsComponent(g, c.graphNodes.Keys)
  {
    var visited: set<int> := {};
    var m := |finished|;
    graphList := [];
    ghost var comps: seq<set<int>> := [];
    ForestStart(g);
    while m > 0
      invariant Pass(g, reverseGraph, finished, full, m, visited, comps)
      invariant |comps| == |graphList|
      invariant |graphList| <= |finished| - m
      invariant forall i | 0 <= i < |graphList| :: fresh(graphList[i])
      invariant forall i | 0 <= i < |graphList| :: Tree(graphList[i], comps[i])
    {
      var w := finished[m - 1];
      if w !in visited {
        var sccGraph, visited' := GrowTree(reverseGraph, w, visited);
        PassGrow(g, reverseGraph, finished, full, m, visited, visited', w, comps);
        graphList := graphList + [sccGraph];
        comps := comps + [visited' - visited];
        visited := visited';
      } else {
        PassSkip(g, reverseGraph, finished, full, m, visited, comps);
      }
      m := m - 1;
    }
    TreesCover(g, reverseGraph, finished, full, visited, graphList, comps);
  }

  /**
   * One tree of the second loop: a new graph grown by DFSVisitReverse from the
   * unvisited root w; its vertices are the newly visited ones.
   */
  method GrowTree(reverseGraph: Graph, w: int, visited: set<int>)
    returns (sccGraph: CapGraph, visited': set<int>)
    requires Reach.Closed(reverseGraph) && w in reverseGraph && w !in visited
    ensures fresh(sccGraph) && Tree(sccGraph, visited' - visited)
    ensures visited + {w} <= visited' && visited' - visited <= reverseGraph.Keys
    ensures forall x | x in visited' - visited :: Reaches(reverseGraph, w, x)
    ensures forall x | x in visited' - visited :: reverseGraph[x] <= visited'
  {
    sccGraph := new CapGraph();
    visited' := DFSVisitReverse(sccGraph, reverseGraph, w, visited);
  }

  /**
   * DFSVisitReverse: marks w visited and adds it to the component graph, then
   * recurses into each unvisited neighbour of w in the reversed graph.
   */
  method DFSVisitReverse(sccGraph: CapGraph, reverseGraph: Graph, w: int, visited: set<int>)
    returns (visited': set<int>)
    requires sccGraph.Valid() && sccGraph.graphEdges == {}
    requires Reach.Closed(reverseGraph) && w in reverseGraph && w !in visited
    modifies sccGraph
    ensures sccGraph.Valid() && sccGraph.graphEdges == {}
    ensures visited + {w} <= visited' && visited' - visited <= reverseGraph.Keys
    ensures sccGraph.graphNodes.Keys == old(sccGraph.graphNodes.Keys) + (visited' - visited)
    ensures forall x | x in visited' - visited :: Reaches(reverseGraph, w, x)
    ensures forall x | x in visited' - visited :: reverseGraph[x] <= visited'
    decreases |reverseGraph.Keys - visited|
  {
    visited' := visited + {w};
    sccGraph.AddVertex(w);
    ReachesRefl(reverseGraph, w);
    var nbrs := reverseGraph[w];
    var rest := nbrs;
    while rest != {}
      invariant rest <= nbrs
      invariant sccGraph.Valid() && sccGraph.graphEdges == {}
      invariant visited + {w} <= visited' && visited' - visited <= reverseGraph.Keys
      invariant sccGraph.graphNodes.Keys == old(sccGraph.graphNodes.Keys) + (visited' - visited)
      invariant forall x | x in visited' - visited :: Reaches(reverseGraph, w, x)
      invariant forall x | x in visited' - visited && x != w :: reverseGraph[x] <= visited'
      invariant forall x | x in nbrs && x !in rest :: x in visited'
      decreases |rest|
    {
      if forall x :: x !in rest {
        assert false;
      }
      var n :| n in rest;
      rest := rest - {n};
      if n !in visited' {
        GapShrinks(reverseGraph.Keys, visited, visited', w);
        ghost var before := visited';
        visited' := DFSVisitReverse(sccGraph, reverseGraph, n, visited');
        GrowTwice(old(sccGraph.graphNodes.Keys), visited, before, visited');
        ReachesEdge(reverseGraph, w, n);
        forall x | x in visited' - before
          ensures Reaches(reverseGraph, w, x)
        {
          ReachesTrans(reverseGraph, w, n, x);
        }
      }
    }
    forall x | x in nbrs
      ensures x in visited'
    {
      assert x !in rest;
    }
  }

  /** In a well-formed graph every neighbour is a vertex. */
  lemma ListsClosed(adj: map<int, seq<Edge>>, edges: set<Edge>)
    requires WellFormed(adj, edges)
    ensures forall v | v in adj :: OtherEnds(adj[v], v) <= adj.Keys
  {
    forall v, x | v in adj && x in OtherEnds(adj[v], v)
      ensures x in adj
    {
      var e :| e in adj[v] && Opposite(e, v) == x;
    }
  }

  /** Every vertex with the other ends of its list. */
  ghost function NeighborMap(adj: map<int, seq<Edge>>): Graph {
    map k | k in adj :: OtherEnds(adj[k], k)
  }

  /**
   * The reverse graph's neighbours are vertices, and while the original
   * lists agree with the same edge set the two have the same neighbours.
   */
  lemma SameEnds(adj1: map<int, seq<Edge>>, adj2: map<int, seq<Edge>>, edges: set<Edge>, full: bool)
    requires WellFormed(adj1, edges) && WellFormed(adj2, edges) && adj1.Keys == adj2.Keys
    requires Agrees(adj2, edges) && (full ==> Agrees(adj1, edges))
    ensures Reach.Closed(NeighborMap(adj2))
    ensures full ==> NeighborMap(adj1) == NeighborMap(adj2)
  {
    ListsClosed(adj2, edges);
    if full {
      SameAgreement(adj1, adj2, edges);
    }
  }

  /** The edge set holds the edge from i to j or the one from j to i. */
  predicate Linked(edges: set<Edge>, i: int, j: int) {
    Key(Edge(i, j)) in edges || Key(Edge(j, i)) in edges
  }

  /** The canonical keys from u to each of ms. */
  function Joins(u: int, ms: set<int>): set<Edge> {
    set m | m in ms :: Key(Edge(u, m))
  }

  /** The canonical keys of the entries of each list of us whose other end lies in within. */
  ghost function InnerSet(adj: map<int, seq<Edge>>, us: set<int>, within: set<int>): set<Edge> {
    set u, m | u in us && u in adj && m in OtherEnds(adj[u], u) && m in within :: Key(Edge(u, m))
  }

  /** The stored edges with both ends in within: the edges of the subgraph induced on within. */
  function Induced(edges: set<Edge>, within: set<int>): set<Edge> {
    set k | k in edges && k.fromNode in within && k.toNode in within
  }

  /** The other ends of the entries of s that lie in within, gathered entry by entry. */
  ghost function EndsIn(s: seq<Edge>, u: int, within: set<int>): set<int>
    decreases |s|
  {
    if s == [] then {}
    else
      var m := Opposite(s[|s| - 1], u);
      EndsIn(s[..|s| - 1], u, within) + (if m in within then {m} else {})
  }

  /** The keys from u to each of those ends, gathered entry by entry. */
  ghost function KeysIn(s: seq<Edge>, u: int, within: set<int>): set<Edge>
    decreases |s|
  {
    if s == [] then {}
    else
      var m := Opposite(s[|s| - 1], u);
      KeysIn(s[..|s| - 1], u, within) + (if m in within then {Key(Edge(u, m))} else {})
  }

  /** The ends and keys of a prefix one entry longer. */
  lemma KeysInSnoc(s: seq<Edge>, j: int, u: int, within: set<int>)
    requires 0 <= j < |s|
    ensures var m := Opposite(s[j], u);
      && EndsIn(s[..j + 1], u, within) == EndsIn(s[..j], u, within) + (if m in within then {m} else {})
      && KeysIn(s[..j + 1], u, within) == KeysIn(s[..j], u, within) + (if m in within then {Key(Edge(u, m))} else {})
  {
    assert s[..j + 1][..j] == s[..j];
  }

  /** The inner keys of the lists of order, gathered vertex by vertex. */
  ghost function InnerKeys(adj: map<int, seq<Edge>>, order: seq<int>, within: set<int>): set<Edge>
    decreases |order|
  {
    if order == [] then {}
    else
      var u := order[|order| - 1];
      InnerKeys(adj, order[..|order| - 1], within) + (if u in adj then KeysIn(adj[u], u, within) else {})
  }

  /** Gathered entry by entry, the ends are the other ends inside within and the keys join u to them. */
  lemma {:induction false} GatheredEnds(s: seq<Edge>, u: int, within: set<int>)
    ensures EndsIn(s, u, within) == OtherEnds(s, u) * within
    ensures KeysIn(s, u, within) == Joins(u, OtherEnds(s, u) * within)
    decreases |s|
  {
    if s != [] {
      var t := s[..|s| - 1];
      GatheredEnds(t, u, within);
      assert s == t + [s[|s| - 1]];
      OtherEndsSnoc(t, s[|s| - 1], u);
    }
  }

  /** Gathered vertex by vertex, the inner keys are those of the inner set of order's vertices. */
  lemma {:induction false} GatheredInner(adj: map<int, seq<Edge>>, order: seq<int>, within: set<int>)
    ensures InnerKeys(adj, order, within) == InnerSet(adj, Listed(order), within)
    decreases |order|
  {
    if order != [] {
      var t := order[..|order| - 1];
      var u := order[|order| - 1];
      GatheredInner(adj, t, within);
      assert order == t + [u];
      assert Listed(order) == Listed(t) + {u};
      if u in adj {
        GatheredEnds(adj[u], u, within);
        InnerSetSnoc(adj, Listed(t), u, within);
      } else {
        assert InnerSet(adj, Listed(order), within) == InnerSet(adj, Listed(t), within);
      }
    }
  }

  lemma InnerSetSnoc(adj: map<int, seq<Edge>>, us: set<int>, u: int, within: set<int>)
    requires u in adj
    ensures InnerSet(adj, us + {u}, within) == InnerSet(adj, us, within) + Joins(u, OtherEnds(adj[u], u) * within)
  {
  }

  /** The stack holds each label once and numNodes counts the labels. */
  ghost predicate StackCounts(stack: seq<int>, labels: set<int>, n: int) {
    && n == |labels| && NoDuplicates(stack)
    && forall v :: v in stack <==> v in labels
  }

  /** Pushing a new label keeps the stack and the count exact. */
  lemma StackCountsPush(stack: seq<int>, labels: set<int>, n: int, v: int)
    requires StackCounts(stack, labels, n) && v !in labels
    ensures StackCounts(stack + [v], labels + {v}, n + 1)
  {
    var s := stack + [v];
    forall i, j | 0 <= i < j < |s| ensures s[i] != s[j] {
      if j == |stack| {
        assert s[i] in stack;
      }
    }
  }

  /** A new graph holding center alone, with no edges. */
  method Hub(center: int) returns (ego: CapGraph)
    ensures fresh(ego) && (forall v | v in ego.graphNodes :: fresh(ego.graphNodes[v]))
    ensures ego.Sound() && ego.graphNodes.Keys == {center} && ego.graphEdges == {}
    ensures StackCounts(ego.nodeStack, ego.graphNodes.Keys, ego.numNodes)
  {
    ego := new CapGraph();
    assert StackCounts(ego.nodeStack, ego.graphNodes.Keys, ego.numNodes);
    StackCountsPush([], {}, 0, center);
    ego.AddVertex(center);
  }

  /**
   * The first loop of getEgonet, corrected: a new graph holding center and
   * each other end of centerList, each added once (so each counted once and
   * pushed once) and joined to center. All those ends lie in all.
   */
  method NewSpokes(center: int, centerList: seq<Edge>, ghost all: set<int>) returns (ego: CapGraph)
    requires OtherEnds(centerList, center) <= all
    ensures fresh(ego) && (forall v | v in ego.graphNodes :: fresh(ego.graphNodes[v]))
    ensures ego.Sound()
    ensures ego.graphNodes.Keys == {center} + EndsIn(centerList, center, all)
    ensures ego.graphEdges == KeysIn(centerList, center, all)
    ensures StackCounts(ego.nodeStack, ego.graphNodes.Keys, ego.numNodes)
  {
    ego := Hub(center);
    for i := 0 to |centerList|
      invariant fresh(ego) && (forall v | v in ego.graphNodes :: fresh(ego.graphNodes[v]))
      invariant SpokesDone(ego, center, centerList[..i], all)
    {
      Spoke(ego, center, centerList, i, all);
    }
    assert centerList[..|centerList|] == centerList;
  }

  /** The state after the first loop of getEgonet has gone through spokes. */
  ghost predicate SpokesDone(ego: CapGraph, center: int, spokes: seq<Edge>, all: set<int>)
    reads ego, ego.graphNodes.Values
  {
    && ego.Sound()
    && ego.graphNodes.Keys == {center} + EndsIn(spokes, center, all)
    && ego.graphEdges == KeysIn(spokes, center, all)
    && StackCounts(ego.nodeStack, ego.graphNodes.Keys, ego.numNodes)
  }

  /** One step of the corrected first loop: the spoke to the other end of centerList[i]. */
  method Spoke(ego: CapGraph, center: int, centerList: seq<Edge>, i: int, ghost all: set<int>)
    requires 0 <= i < |centerList| && OtherEnds(centerList, center) <= all
    requires ego.Sound() && ego.graphNodes.Keys == {center} + EndsIn(centerList[..i], center, all)
    requires ego.graphEdges == KeysIn(centerList[..i], center, all)
    requires StackCounts(ego.nodeStack, ego.graphNodes.Keys, ego.numNodes)
    modifies ego, ego.graphNodes[center]
    modifies var m := Opposite(centerList[i], center); if m in ego.graphNodes then {ego.graphNodes[m]} else {}
    ensures ego.Sound() && ego.graphNodes.Keys == {center} + EndsIn(centerList[..i + 1], center, all)
    ensures ego.graphEdges == KeysIn(centerList[..i + 1], center, all)
    ensures StackCounts(ego.nodeStack, ego.graphNodes.Keys, ego.numNodes)
    ensures ego.graphNodes.Keys == old(ego.graphNodes.Keys) + {Opposite(centerList[i], center)}
    ensures forall v | v in old(ego.graphNodes) :: ego.graphNodes[v] == old(ego.graphNodes[v])
    ensures forall v | v in ego.graphNodes && v !in old(ego.graphNodes) :: fresh(ego.graphNodes[v])
  {
    var otherEnd := Opposite(centerList[i], center);
    SpokeSnoc(centerList, i, center, all);
    ego.AddSpoke(center, otherEnd);
  }

  /** The first loop's sets grow by the spoke to the other end of s[j], which lies in all. */
  lemma SpokeSnoc(s: seq<Edge>, j: int, u: int, all: set<int>)
    requires 0 <= j < |s| && OtherEnds(s, u) <= all
    ensures var m := Opposite(s[j], u);
      && EndsIn(s[..j + 1], u, all) == EndsIn(s[..j], u, all) + {m}
      && KeysIn(s[..j + 1], u, all) == KeysIn(s[..j], u, all) + {Key(Edge(u, m))}
  {
    assert s[j] in s;
    KeysInSnoc(s, j, u, all);
  }

  /** The inner loop of getEgonet: each entry of uList whose other end lies in within is added as an edge from u. */
  method AddWithin(ego: CapGraph, u: int, uList: seq<Edge>, within: set<int>)
    requires ego.Sound() && u in ego.graphNodes && within <= ego.graphNodes.Keys
    modifies ego, ego.graphNodes.Values
    ensures ego.Sound() && ego.graphNodes == old(ego.graphNodes)
    ensures ego.graphEdges == old(ego.graphEdges) + KeysIn(uList, u, within)
  {
    for j := 0 to |uList|
      invariant ego.Sound() && ego.graphNodes == old(ego.graphNodes)
      invariant ego.graphEdges == old(ego.graphEdges) + KeysIn(uList[..j], u, within)
    {
      var otherEnd := Opposite(uList[j], u);
      ego.JoinWithin(u, otherEnd, within);
      assert uList[..j + 1][..j] == uList[..j];
    }
    assert uList[..|uList|] == uList;
  }

  /** The second loop of getEgonet: for each vertex of order, the entries of its list that end in within. */
  method AddInner(ego: CapGraph, adj: map<int, seq<Edge>>, order: seq<int>, within: set<int>)
    requires ego.Sound()
    requires forall u | u in order :: u in adj && u in ego.graphNodes
    requires within <= ego.graphNodes.Keys
    modifies ego, ego.graphNodes.Values
    ensures ego.Sound() && ego.graphNodes == old(ego.graphNodes)
    ensures ego.graphEdges == old(ego.graphEdges) + InnerKeys(adj, order, within)
  {
    for i := 0 to |order|
      invariant ego.Sound() && ego.graphNodes == old(ego.graphNodes)
      invariant ego.graphEdges == old(ego.graphEdges) + InnerKeys(adj, order[..i], within)
    {
      var u := order[i];
      assert u in order;
      AddWithin(ego, u, adj[u], within);
      assert order[..i + 1][..i] == order[..i];
    }
    assert order[..|order|] == order;
  }

  /** What the two loops of getEgonet gather, in the terms of the induced subgraph. */
  lemma EgonetGathered(adj: map<int, seq<Edge>>, edges: set<Edge>, center: int, order: seq<int>, full: bool)
    requires WellFormed(adj, edges) && center in adj && (full ==> Agrees(adj, edges))
    requires forall x :: x in order <==> x in OtherEnds(adj[center], center)
    ensures var nbrs := OtherEnds(adj[center], center);
      && (forall u | u in order :: u in adj)
      && EndsIn(adj[center], center, nbrs) == nbrs
      && (full ==> KeysIn(adj[center], center, nbrs) + InnerKeys(adj, order, nbrs) == Induced(edges, {center} + nbrs))
  {
    var nbrs := OtherEnds(adj[center], center);
    ListsClosed(adj, edges);
    GatheredEnds(adj[center], center, nbrs);
    GatheredInner(adj, order, nbrs);
    forall x
      ensures x in Listed(order) <==> x in nbrs
    {
      assert x in Listed(order) <==> x in order;
    }
    if full {
      EgonetInduced(adj, edges, center);
    }
  }

  /**
   * The edges the corrected getEgonet adds, center to each neighbour and
   * every listed edge between two neighbours, are the stored edges with
   * both ends among center and its neighbours.
   */
  lemma EgonetInduced(adj: map<int, seq<Edge>>, edges: set<Edge>, center: int)
    requires WellFormed(adj, edges) && Agrees(adj, edges) && center in adj
    ensures var nbrs := OtherEnds(adj[center], center);
      Joins(center, nbrs) + InnerSet(adj, nbrs, nbrs) == Induced(edges, {center} + nbrs)
  {
    ListsClosed(adj, edges);
    GatheredAreInduced(adj, edges, center);
    InducedAreGathered(adj, edges, center);
  }

  /** Every edge the corrected getEgonet adds is a stored edge between two of its vertices. */
  lemma GatheredAreInduced(adj: map<int, seq<Edge>>, edges: set<Edge>, center: int)
    requires WellFormed(adj, edges) && Agrees(adj, edges) && center in adj
    requires forall v | v in adj :: OtherEnds(adj[v], v) <= adj.Keys
    ensures var nbrs := OtherEnds(adj[center], center);
      Joins(center, nbrs) + InnerSet(adj, nbrs, nbrs) <= Induced(edges, {center} + nbrs)
  {
    var nbrs := OtherEnds(adj[center], center);
    SpokesAreInduced(adj, edges, center, nbrs);
    InnerAreInduced(adj, edges, {center} + nbrs, nbrs);
  }

  lemma SpokesAreInduced(adj: map<int, seq<Edge>>, edges: set<Edge>, center: int, nbrs: set<int>)
    requires Agrees(adj, edges) && center in adj && nbrs == OtherEnds(adj[center], center) && nbrs <= adj.Keys
    ensures Joins(center, nbrs) <= Induced(edges, {center} + nbrs)
  {
    forall k | k in Joins(center, nbrs)
      ensures k in Induced(edges, {center} + nbrs)
    {
      var m :| m in nbrs && k == Key(Edge(center, m));
    }
  }

  lemma InnerAreInduced(adj: map<int, seq<Edge>>, edges: set<Edge>, within: set<int>, nbrs: set<int>)
    requires Agrees(adj, edges) && nbrs <= within && nbrs <= adj.Keys
    ensures InnerSet(adj, nbrs, nbrs) <= Induced(edges, within)
  {
    forall k | k in InnerSet(adj, nbrs, nbrs)
      ensures k in Induced(edges, within)
    {
      var u, m :| u in nbrs && u in adj && m in OtherEnds(adj[u], u) && m in nbrs && k == Key(Edge(u, m));
    }
  }

  /** Every stored edge between two vertices of the egonet is one the corrected getEgonet adds. */
  lemma InducedAreGathered(adj: map<int, seq<Edge>>, edges: set<Edge>, center: int)
    requires WellFormed(adj, edges) && Agrees(adj, edges) && center in adj
    requires forall v | v in adj :: OtherEnds(adj[v], v) <= adj.Keys
    ensures var nbrs := OtherEnds(adj[center], center);
      Induced(edges, {center} + nbrs) <= Joins(center, nbrs) + InnerSet(adj, nbrs, nbrs)
  {
    var nbrs := OtherEnds(adj[center], center);
    forall k | k in Induced(edges, {center} + nbrs)
      ensures k in Joins(center, nbrs) + InnerSet(adj, nbrs, nbrs)
    {
      assert k == Key(k);
      if k.fromNode == center {
        assert k.toNode in nbrs;
      } else if k.toNode == center {
        assert Key(Edge(center, k.fromNode)) == k;
        assert k.fromNode in nbrs;
      } else {
        assert k.toNode in OtherEnds(adj[k.fromNode], k.fromNode);
      }
    }
  }

  /** The other ends of a list of one or two entries. */
  lemma OtherEndsOfFew(a: Edge, b: Edge, v: int)
    ensures OtherEnds([a], v) == {Opposite(a, v)}
    ensures OtherEnds([a, b], v) == {Opposite(a, v), Opposite(b, v)}
  {
    assert a in [a] && a in [a, b] && b in [a, b];
  }

  /** The vertices getEgonet adds as written: center and the to-end of every entry of center's list. */
  function VerticesAsWritten(adj: map<int, seq<Edge>>, center: int): set<int>
    requires center in adj
  {
    {center} + set e | e in adj[center] :: e.toNode
  }

  /**
   * The edges getEgonet adds as written: center to the to-end of every entry
   * of its list, then, for each neighbour u and each entry of u's list whose
   * to-end is a neighbour, u to that to-end.
   */
  ghost function EdgesAsWritten(adj: map<int, seq<Edge>>, center: int): set<Edge>
    requires center in adj
  {
    var nbrs := OtherEnds(adj[center], center);
    (set e | e in adj[center] :: Key(Edge(center, e.toNode)))
    + (set u, e | u in nbrs && u in adj && e in adj[u] && e.toNode in nbrs :: Key(Edge(u, e.toNode)))
  }

  /** As written, the second loop calls addEdge on the new graph with an end it never added there, which throws. */
  ghost predicate ThrowsAsWritten(adj: map<int, seq<Edge>>, center: int)
    requires center in adj
  {
    var nbrs := OtherEnds(adj[center], center);
    exists u, e | u in nbrs && u in adj && e in adj[u] && e.toNode in nbrs ::
      u !in VerticesAsWritten(adj, center) || e.toNode !in VerticesAsWritten(adj, center)
  }

  /**
   * getEgonet as written, after addEdge(1, 2): it adds the self-loop (2, 2),
   * which is no edge of the graph, without throwing.
   */
  lemma EgonetAsWrittenAddsLoop()
    ensures var adj := map[1 := [Edge(1, 2)], 2 := [Edge(1, 2)]];
      && WellFormed(adj, {Edge(1, 2)}) && Agrees(adj, {Edge(1, 2)})
      && !ThrowsAsWritten(adj, 1)
      && Edge(2, 2) in EdgesAsWritten(adj, 1)
      && Edge(2, 2) !in Induced({Edge(1, 2)}, {1} + OtherEnds(adj[1], 1))
  {
    var adj := map[1 := [Edge(1, 2)], 2 := [Edge(1, 2)]];
    OtherEndsOfFew(Edge(1, 2), Edge(1, 2), 1);
    OtherEndsOfFew(Edge(1, 2), Edge(1, 2), 2);
    assert VerticesAsWritten(adj, 1) == {1, 2};
    assert Key(Edge(2, Edge(1, 2).toNode)) == Edge(2, 2);
  }

  /** getEgonet as written, after addEdge(2, 1): it leaves out the neighbour 2. */
  lemma EgonetAsWrittenMissesNeighbor()
    ensures var adj := map[1 := [Edge(2, 1)], 2 := [Edge(2, 1)]];
      && WellFormed(adj, {Edge(1, 2)}) && Agrees(adj, {Edge(1, 2)})
      && 2 in OtherEnds(adj[1], 1) && VerticesAsWritten(adj, 1) == {1}
  {
    OtherEndsOfFew(Edge(2, 1), Edge(2, 1), 1);
    OtherEndsOfFew(Edge(2, 1), Edge(2, 1), 2);
  }

  /** The lists addEdge(2, 1), addEdge(3, 1), addEdge(2, 3) build on the vertices 1, 2, 3. */
  function Triangle(): map<int, seq<Edge>> {
    map[1 := [Edge(2, 1), Edge(3, 1)], 2 := [Edge(2, 1), Edge(2, 3)], 3 := [Edge(3, 1), Edge(2, 3)]]
  }

  /** The neighbours in those lists: each vertex has the other two. */
  lemma TriangleEnds()
    ensures Triangle().Keys == {1, 2, 3}
    ensures OtherEnds(Triangle()[1], 1) == {2, 3} && OtherEnds(Triangle()[2], 2) == {1, 3}
    ensures OtherEnds(Triangle()[3], 3) == {1, 2}
  {
    OtherEndsOfFew(Edge(2, 1), Edge(3, 1), 1);
    OtherEndsOfFew(Edge(2, 1), Edge(2, 3), 2);
    OtherEndsOfFew(Edge(3, 1), Edge(2, 3), 3);
  }

  /** Those lists are well formed and agree with the three edges. */
  lemma TriangleIsGraph()
    ensures WellFormed(Triangle(), {Edge(1, 2), Edge(1, 3), Edge(2, 3)})
    ensures Agrees(Triangle(), {Edge(1, 2), Edge(1, 3), Edge(2, 3)})
  {
    var adj := Triangle();
    var edges := {Edge(1, 2), Edge(1, 3), Edge(2, 3)};
    TriangleEnds();
    forall k, e | k in adj && e in adj[k]
      ensures IsTailOrHead(e, k) && e.fromNode in adj && e.toNode in adj
    {
      assert k in {1, 2, 3};
    }
    forall u, v | u in adj && v in adj
      ensures v in OtherEnds(adj[u], u) <==> Key(Edge(u, v)) in edges
    {
      assert u in {1, 2, 3} && v in {1, 2, 3};
      assert (u != v) == (Key(Edge(u, v)) in edges);
    }
  }

  /** getEgonet as written, after addEdge(2, 1), addEdge(3, 1), addEdge(2, 3): it throws. */
  lemma EgonetAsWrittenThrows()
    ensures WellFormed(Triangle(), {Edge(1, 2), Edge(1, 3), Edge(2, 3)})
    ensures Agrees(Triangle(), {Edge(1, 2), Edge(1, 3), Edge(2, 3)})
    ensures ThrowsAsWritten(Triangle(), 1)
  {
    TriangleIsGraph();
    var adj := Triangle();
    OtherEndsOfFew(Edge(2, 1), Edge(3, 1), 1);
    assert VerticesAsWritten(adj, 1) == {1};
    assert Edge(2, 3) in adj[2];
  }

  /** The lists after addEdge(from, to): the edge appended at from, then at to (so twice at the one end of a loop). */
  function Joined(lists: map<int, seq<Edge>>, from: int, to: int): (r: map<int, seq<Edge>>)
    requires from in lists && to in lists
    ensures r.Keys == lists.Keys
    ensures from != to ==> r[from] == lists[from] + [Edge(from, to)] && r[to] == lists[to] + [Edge(from, to)]
    ensures from == to ==> r[from] == lists[from] + [Edge(from, to), Edge(from, to)]
    ensures forall v | v in lists && v != from && v != to :: r[v] == lists[v]
  {
    var e := Edge(from, to);
    var once := lists[from := lists[from] + [e]];
    once[to := once[to] + [e]]
  }

  /**
   * The first loop of getEgonet as written, on the new graph's lists and its
   * nodeStack: for every entry of center's list, addVertex of the entry's
   * to-end, which puts a fresh empty node under that label even when the
   * label is there already, then addEdge from center to it. Every entry
   * pushes a label, so numNodes ends one above the length of the list.
   */
  function SpokesAsWritten(centerList: seq<Edge>, center: int): (r: (map<int, seq<Edge>>, seq<int>))
    ensures center in r.0 && forall e | e in centerList :: e.toNode in r.0
    ensures |r.1| == 1 + |centerList|
    decreases |centerList|
  {
    if centerList == [] then (map[center := []], [center])
    else
      var last := centerList[|centerList| - 1];
      var before := SpokesAsWritten(centerList[..|centerList| - 1], center);
      assert forall e | e in centerList :: e == last || e in centerList[..|centerList| - 1];
      (Joined(before.0[last.toNode := []], center, last.toNode), before.1 + [last.toNode])
  }

  /** The lists addEdge(1, 2), addEdge(1, 1) build on the vertices 1 and 2. */
  function LoopAtCenter(): map<int, seq<Edge>> {
    map[1 := [Edge(1, 2), Edge(1, 1), Edge(1, 1)], 2 := [Edge(1, 2)]]
  }

  /** Those lists are well formed and agree with the two edges. */
  lemma LoopAtCenterIsGraph()
    ensures WellFormed(LoopAtCenter(), {Edge(1, 1), Edge(1, 2)}) && Agrees(LoopAtCenter(), {Edge(1, 1), Edge(1, 2)})
  {
    var adj := LoopAtCenter();
    var l := adj[1];
    assert OtherEnds(l, 1) == {1, 2} by {
      assert Opposite(l[0], 1) == 2 && Opposite(l[1], 1) == 1 && Opposite(l[2], 1) == 1;
    }
    OtherEndsOfFew(Edge(1, 2), Edge(1, 2), 2);
    forall k, e | k in adj && e in adj[k]
      ensures IsTailOrHead(e, k) && e.fromNode in adj && e.toNode in adj
    {
      assert k in {1, 2};
    }
    forall u, v | u in adj && v in adj
      ensures v in OtherEnds(adj[u], u) <==> Key(Edge(u, v)) in {Edge(1, 1), Edge(1, 2)}
    {
      assert u in {1, 2} && v in {1, 2};
    }
  }

  /** The first two entries of that list for center 1, as written. */
  lemma SpokesOfLoopAtCenter()
    ensures var r := SpokesAsWritten([Edge(1, 2), Edge(1, 1)], 1);
      r.0.Keys == {1, 2} && r.0[1] == [Edge(1, 1), Edge(1, 1)] && r.0[2] == [Edge(1, 2)] && r.1 == [1, 2, 1]
  {
    assert [Edge(1, 2), Edge(1, 1)][..1] == [Edge(1, 2)] && [Edge(1, 2)][..0] == [];
    var r0 := SpokesAsWritten([], 1);
    var r1 := SpokesAsWritten([Edge(1, 2)], 1);
    assert r1.0 == Joined(r0.0[2 := []], 1, 2);
    assert r1.0.Keys == {1, 2} && r1.0[1] == [Edge(1, 2)] && r1.0[2] == [Edge(1, 2)] && r1.1 == [1, 2];
    var r2 := SpokesAsWritten([Edge(1, 2), Edge(1, 1)], 1);
    assert r2.0 == Joined(r1.0[1 := []], 1, 1);
  }

  /**
   * getEgonet as written, after addEdge(1, 2) and addEdge(1, 1): the loop
   * entries re-add center, emptying its list, so in the new graph 1 no
   * longer lists 2 while 2 still lists 1, and 1 is pushed three times.
   */
  lemma EgonetAsWrittenResetsCenter()
    ensures WellFormed(LoopAtCenter(), {Edge(1, 1), Edge(1, 2)}) && Agrees(LoopAtCenter(), {Edge(1, 1), Edge(1, 2)})
    ensures var r := SpokesAsWritten(LoopAtCenter()[1], 1);
      && r.0[1] == [Edge(1, 1), Edge(1, 1)] && r.0[2] == [Edge(1, 2)]
      && 2 !in OtherEnds(r.0[1], 1) && 1 in OtherEnds(r.0[2], 2)
      && r.1 == [1, 2, 1, 1]
  {
    LoopAtCenterIsGraph();
    SpokesOfLoopAtCenter();
    var l := LoopAtCenter()[1];
    assert l[..2] == [Edge(1, 2), Edge(1, 1)];
    var r2 := SpokesAsWritten([Edge(1, 2), Edge(1, 1)], 1);
    var r := SpokesAsWritten(l, 1);
    assert r.0 == Joined(r2.0[1 := []], 1, 1);
    assert r.0[1] == [Edge(1, 1), Edge(1, 1)];
    OtherEndsOfFew(Edge(1, 1), Edge(1, 1), 1);
    OtherEndsOfFew(Edge(1, 2), Edge(1, 2), 2);
  }

  /** Two well-formed graphs on the same vertices whose lists agree with the same edge set have the same neighbours. */
  lemma SameAgreement(adj1: map<int, seq<Edge>>, adj2: map<int, seq<Edge>>, edges: set<Edge>)
    requires WellFormed(adj1, edges) && WellFormed(adj2, edges) && adj1.Keys == adj2.Keys
    requires Agrees(adj1, edges) && Agrees(adj2, edges)
    ensures forall v | v in adj1 :: OtherEnds(adj1[v], v) == OtherEnds(adj2[v], v)
  {
    ListsClosed(adj1, edges);
    ListsClosed(adj2, edges);
  }

  /** One list after removeEdge: only old entries remain and no count grows. */
  lemma RemovalShrinksList(s0: seq<Edge>, s1: seq<Edge>, e: Edge, k: int)
    requires IsTailOrHead(e, k) ==> AfterRemoval(s0, s1, e, Cap(e))
    requires !IsTailOrHead(e, k) ==> s1 == s0
    ensures forall x | x in s1 :: x in s0 && CountSame(s1, x) <= CountSame(s0, x)
  {
    forall x | x in s1
      ensures x in s0 && CountSame(s1, x) <= CountSame(s0, x)
    {
      if IsTailOrHead(e, k) {
        AfterRemovalCounts(s0, s1, e, x);
      }
    }
  }

  /** One pair of vertices after removeEdge: joined exactly when joined before by another edge. */
  lemma RemovalKeepsPair(s0: seq<Edge>, s1: seq<Edge>, e: Edge, u: int, v: int, edges0: set<Edge>)
    requires forall x | x in s0 :: IsTailOrHead(x, u) && CountSame(s0, x) <= Cap(x)
    requires IsTailOrHead(e, u) ==> AfterRemoval(s0, s1, e, Cap(e))
    requires !IsTailOrHead(e, u) ==> s1 == s0
    requires v in OtherEnds(s0, u) <==> Key(Edge(u, v)) in edges0
    ensures v in OtherEnds(s1, u) <==> Key(Edge(u, v)) in edges0 - {Key(e)}
  {
    RemovalShrinksList(s0, s1, e, u);
    OtherEndsByCount(s0, u, v);
    OtherEndsByCount(s1, u, v);
    KeyDecidesSameEdge(e, Edge(u, v));
    if IsTailOrHead(e, u) {
      AfterRemovalCounts(s0, s1, e, Edge(u, v));
      if SameEdge(e, Edge(u, v)) && CountSame(s0, e) > 0 {
        CountSamePositive(s0, e);
        var x :| x in s0 && SameEdge(x, e);
        CountSameCongruent(s0, x, e);
      }
    }
  }

  /**
   * The lists after removeEdge: only old entries, still bounded, and, when
   * bounded before, in agreement with the edge set less the removed edge.
   */
  lemma RemovalKeepsLists(adj0: map<int, seq<Edge>>, adj1: map<int, seq<Edge>>, edges0: set<Edge>, e: Edge)
    requires adj1.Keys == adj0.Keys && WellFormed(adj0, edges0)
    requires forall k | k in adj0 && IsTailOrHead(e, k) :: AfterRemoval(adj0[k], adj1[k], e, Cap(e))
    requires forall k | k in adj0 && !IsTailOrHead(e, k) :: adj1[k] == adj0[k]
    ensures WellFormed(adj1, edges0 - {Key(e)})
    ensures BoundedLists(adj0) ==> BoundedLists(adj1)
    ensures Agrees(adj0, edges0) && BoundedLists(adj0) ==> Agrees(adj1, edges0 - {Key(e)})
  {
    forall k | k in adj1
      ensures forall x | x in adj1[k] :: x in adj0[k] && CountSame(adj1[k], x) <= CountSame(adj0[k], x)
    {
      RemovalShrinksList(adj0[k], adj1[k], e, k);
    }
    if Agrees(adj0, edges0) && BoundedLists(adj0) {
      forall u, v | u in adj1 && v in adj1
        ensures v in OtherEnds(adj1[u], u) <==> Key(Edge(u, v)) in edges0 - {Key(e)}
      {
        RemovalKeepsPair(adj0[u], adj1[u], e, u, v, edges0);
      }
    }
  }

  /** The lists' entries are incident to their owners, so the search's far ends are getNeighbors' other ends. */
  lemma AheadIsOtherEnds(s: seq<Edge>, v: int)
    requires forall e | e in s :: IsTailOrHead(e, v)
    ensures Ahead(s, v) == OtherEnds(s, v)
  {
  }

  lemma ListsEnd(adj: map<int, seq<Edge>>, edges: set<Edge>)
    requires WellFormed(adj, edges)
    ensures Ends(adj)
  {
  }

  /**
   * Every list entry between two distinct vertices is a stored edge. The
   * round from the owner of such an entry makes the owner a predecessor of
   * the far end, so the pass looks each of these keys up in the scores; a
   * loop is never looked up.
   */
  ghost predicate Stored(adj: map<int, seq<Edge>>, edges: set<Edge>) {
    forall k, e | k in adj && e in adj[k] && FarEnd(e, k) != k :: Key(e) in edges
  }

  /** Lists that agree with the edge set only hold stored edges. */
  lemma AgreesStored(adj: map<int, seq<Edge>>, edges: set<Edge>)
    requires WellFormed(adj, edges) && Agrees(adj, edges)
    ensures Stored(adj, edges)
  {
    forall k, e | k in adj && e in adj[k] && FarEnd(e, k) != k
      ensures Key(e) in edges
    {
      var v := Opposite(e, k);
      assert v in OtherEnds(adj[k], k);
      KeyDecidesSameEdge(e, Edge(k, v));
    }
  }

  /** An entry of p's list whose far end is w is the edge between w and p. */
  lemma EntryKey(adj: map<int, seq<Edge>>, edges: set<Edge>, p: int, w: int)
    requires WellFormed(adj, edges) && Stored(adj, edges)
    requires p in adj && w in Ahead(adj[p], p) && w != p
    ensures Key(Edge(w, p)) in edges
  {
    var e :| e in adj[p] && FarEnd(e, p) == w;
    assert Opposite(e, p) == w;
    KeyDecidesSameEdge(e, Edge(w, p));
  }

  /**
   * On well-formed lists whose entries are stored edges, the search's result
   * is what the bottom-up pass needs, with every edge it scores stored.
   */
  lemma SearchScored(adj: map<int, seq<Edge>>, edges: set<Edge>, source: int, bw: map<Edge, real>)
    requires WellFormed(adj, edges) && Stored(adj, edges) && bw.Keys == edges && source in adj
    requires Ends(adj)
    ensures var r := SearchFrom(adj, source); Stacked(r.line, r.count, r.preds, bw)
  {
    SearchStack(adj, source);
    SearchFacts(adj, source);
    var r := SearchFrom(adj, source);
    forall w, p | w in r.line && w in r.preds && p in r.preds[w]
      ensures Key(Edge(w, p)) in bw
    {
      EntryKey(adj, edges, p, w);
    }
  }

  /**
   * The body of edgeBetweenness on the lists and the edge set as values:
   * every stored edge's score is reset to 0, then the round from each vertex
   * in turn adds that source's shares, so each stored edge ends with its
   * betweenness score.
   */
  method Betweenness(adj: map<int, seq<Edge>>, edges: set<Edge>, bw: map<Edge, real>) returns (scores: map<Edge, real>)
    requires WellFormed(adj, edges) && Stored(adj, edges) && bw.Keys <= edges
    ensures scores == Scores(adj, edges)
  {
    var zeros := ResetScores(edges, bw);
    scores := AllSources(adj, edges, zeros);
  }

  /** The first loop of edgeBetweenness: every stored edge's score becomes 0. */
  method ResetScores(edges: set<Edge>, bw: map<Edge, real>) returns (scores: map<Edge, real>)
    requires bw.Keys <= edges
    ensures scores.Keys == edges
    ensures forall k | k in edges :: scores[k] == 0.0
  {
    scores := bw;
    var rest := edges;
    while rest != {}
      invariant rest <= edges && scores.Keys <= edges
      invariant edges - rest <= scores.Keys
      invariant forall k | k in edges - rest :: scores[k] == 0.0
      decreases |rest|
    {
      if forall k :: k !in rest {
        assert false;
      }
      var graphEdge :| graphEdge in rest;
      rest := rest - {graphEdge};
      scores := scores[graphEdge := 0.0];
    }
  }

  /**
   * The loop over the vertices, each as the source of a round, in ascending
   * order: every score gains the rounds of all vertices.
   */
  method AllSources(adj: map<int, seq<Edge>>, edges: set<Edge>, bw: map<Edge, real>) returns (scores: map<Edge, real>)
    requires WellFormed(adj, edges) && Stored(adj, edges) && bw.Keys == edges
    ensures scores.Keys == edges
    ensures forall k | k in edges :: scores[k] == bw[k] + TotalGain(adj, Ascending(adj.Keys), k)
  {
    ListsEnd(adj, edges);
    var order := Ascending(adj.Keys);
    assert forall s | s in order :: s in adj;
    scores := bw;
    for i := 0 to |order|
      invariant scores.Keys == edges
      invariant forall k | k in edges :: scores[k] == bw[k] + TotalGain(adj, order[..i], k)
    {
      assert order[i] in order;
      var gained := FromSource(adj, edges, order[i], scores);
      GainStep(adj, order, i);
      scores := gained;
    }
    assert order[..|order|] == order;
  }

  /** The gains of the first i + 1 sources: those of the first i, then the round from the next. */
  lemma GainStep(adj: map<int, seq<Edge>>, order: seq<int>, i: int)
    requires Ends(adj) && (forall s | s in order :: s in adj) && 0 <= i < |order|
    ensures forall k :: TotalGain(adj, order[..i + 1], k) == TotalGain(adj, order[..i], k) + Gain(adj, order[i], k)
  {
    assert order[..i + 1][..i] == order[..i];
    assert order[..i + 1][i] == order[i];
  }

  /**
   * One round of edgeBetweenness' loop over the vertices: the search from
   * the source, then the bottom-up pass. Every stored edge gains exactly
   * the round's share.
   */
  method FromSource(adj: map<int, seq<Edge>>, edges: set<Edge>, source: int, bw: map<Edge, real>)
    returns (bw': map<Edge, real>)
    requires WellFormed(adj, edges) && Stored(adj, edges) && bw.Keys == edges && source in adj
    ensures bw'.Keys == edges
    ensures forall k | k in edges :: bw'[k] == bw[k] + Gain(adj, source, k)
  {
    ListsEnd(adj, edges);
    var line, depth, count, preds := Bfs(adj, source);
    SearchScored(adj, edges, source, bw);
    bw' := Accumulate(line, count, preds, bw);
  }

  /** Every score is at least 0, and a loop scores 0: it lies on no shortest path. */
  lemma EdgeScoreBounds(adj: map<int, seq<Edge>>, edges: set<Edge>, k: Edge)
    requires WellFormed(adj, edges)
    ensures EdgeScore(adj, k) >= 0.0
    ensures k.fromNode == k.toNode ==> EdgeScore(adj, k) == 0.0
  {
    TotalGainBounds(adj, Ascending(adj.Keys), k);
  }

  /** The other end t of an edge k at the source has the source as a predecessor, so k joins t to it. */
  lemma SourceLeadsTo(adj: map<int, seq<Edge>>, edges: set<Edge>, source: int, r: Search, k: Edge)
    requires WellFormed(adj, edges) && Agrees(adj, edges) && source in adj
    requires Found(adj, source, r)
    requires k in edges && k.fromNode != k.toNode && (k.fromNode == source || k.toNode == source)
    ensures var t := if source == k.fromNode then k.toNode else k.fromNode;
      t in r.line && t in r.preds && source in r.preds[t] && Key(Edge(t, source)) == k
  {
    var t := if source == k.fromNode then k.toNode else k.fromNode;
    assert Key(Edge(source, t)) == k;
    AheadIsOtherEnds(adj[source], source);
    assert t in Ahead(adj[source], source);
    assert source in r.preds[t];
    assert t in r.line;
    KeyDecidesSameEdge(Edge(t, source), k);
  }

  /** The round from either end of an edge between distinct vertices adds at least one to it. */
  lemma GainAtEnd(adj: map<int, seq<Edge>>, edges: set<Edge>, source: int, k: Edge)
    requires WellFormed(adj, edges) && Agrees(adj, edges) && source in adj
    requires k in edges && k.fromNode != k.toNode && (k.fromNode == source || k.toNode == source)
    ensures Gain(adj, source, k) >= 1.0
  {
    SearchFacts(adj, source);
    var r := SearchFrom(adj, source);
    SourceLeadsTo(adj, edges, source, r, k);
    var t := if source == k.fromNode then k.toNode else k.fromNode;
    GainAtLeastOne(adj, source, t);
  }

  /** How many of k's ends are among the sources. */
  function Touched(k: Edge, done: set<int>): real {
    (if k.fromNode in done then 1.0 else 0.0) + (if k.toNode in done then 1.0 else 0.0)
  }

  /** Each end of an edge between distinct vertices that is a source adds at least one. */
  lemma {:induction false} TotalGainTouched(adj: map<int, seq<Edge>>, edges: set<Edge>, sources: seq<int>, k: Edge)
    requires WellFormed(adj, edges) && Agrees(adj, edges) && Ends(adj)
    requires (forall s | s in sources :: s in adj) && NoDuplicates(sources)
    requires k in edges && k.fromNode != k.toNode
    ensures TotalGain(adj, sources, k) >= Touched(k, Listed(sources))
    decreases |sources|
  {
    if sources == [] {
      assert Listed(sources) == {};
    } else {
      var init := sources[..|sources| - 1];
      var s := sources[|sources| - 1];
      assert sources == init + [s];
      assert Listed(sources) == Listed(init) + {s};
      assert s !in Listed(init);
      TotalGainTouched(adj, edges, init, k);
      assert s in sources;
      if s == k.fromNode || s == k.toNode {
        GainAtEnd(adj, edges, s, k);
      } else {
        GainBounds(adj, s, k);
      }
    }
  }

  /** Once every vertex has been a source, an edge between distinct vertices scores at least 2. */
  lemma EdgeScoreAtLeastTwo(adj: map<int, seq<Edge>>, edges: set<Edge>, k: Edge)
    requires WellFormed(adj, edges) && Agrees(adj, edges)
    requires k in edges && k.fromNode != k.toNode
    ensures EdgeScore(adj, k) >= 2.0
  {
    var order := Ascending(adj.Keys);
    AscendingHasNoDuplicates(adj.Keys);
    TotalGainTouched(adj, edges, order, k);
    assert k.fromNode in Listed(order) && k.toNode in Listed(order);
  }

  /** The betweenness score of every stored edge. */
  ghost function Scores(adj: map<int, seq<Edge>>, edges: set<Edge>): map<Edge, real>
    requires Ends(adj)
  {
    map k | k in edges :: EdgeScore(adj, k)
  }

  /**
   * Every score is at least 0 and a loop scores 0 (it lies on no shortest
   * path); while the lists agree with the edge set, any other edge scores at
   * least 2, one share from each of its ends as the source.
   */
  lemma ScoresBounds(adj: map<int, seq<Edge>>, edges: set<Edge>)
    requires WellFormed(adj, edges)
    ensures forall k | k in edges :: Scores(adj, edges)[k] >= 0.0
    ensures forall k | k in edges && k.fromNode == k.toNode :: Scores(adj, edges)[k] == 0.0
    ensures Agrees(adj, edges) ==> forall k | k in edges && k.fromNode != k.toNode :: Scores(adj, edges)[k] >= 2.0
  {
    forall k | k in edges
      ensures Scores(adj, edges)[k] >= 0.0
      ensures k.fromNode == k.toNode ==> Scores(adj, edges)[k] == 0.0
      ensures Agrees(adj, edges) && k.fromNode != k.toNode ==> Scores(adj, edges)[k] >= 2.0
    {
      EdgeScoreBounds(adj, edges, k);
      if Agrees(adj, edges) && k.fromNode != k.toNode {
        EdgeScoreAtLeastTwo(adj, edges, k);
      }
    }
  }

  /** What TopScored needs of the scores: one per stored edge, none negative. */
  lemma ScoresKnown(adj: map<int, seq<Edge>>, edges: set<Edge>, scores: map<Edge, real>)
    requires WellFormed(adj, edges) && Ends(adj) && scores == Scores(adj, edges)
    ensures scores.Keys == edges && forall k | k in scores :: scores[k] >= 0.0
  {
    ScoresBounds(adj, edges);
  }

  /**
   * The scored edges of greatest score, the greatest being taken as at least
   * 0: what getMaxBW lists.
   */
  ghost function Top(scores: map<Edge, real>): set<Edge> {
    set k | k in scores && scores[k] >= 0.0 && forall k' | k' in scores :: scores[k'] <= scores[k]
  }

  /** What getMaxBW promises of its list, read as a set. */
  lemma ListedTop(scores: map<Edge, real>, top: seq<Edge>)
    requires forall k | k in top ::
        k in scores && scores[k] >= 0.0 && forall k' | k' in scores :: scores[k'] <= scores[k]
    requires forall k | k in scores && scores[k] >= 0.0
        && (forall k' | k' in scores :: scores[k'] <= scores[k]) :: k in top
    ensures Listed(top) == Top(scores)
  {
  }

  /** The elements a list holds. */
  function Listed<T>(s: seq<T>): set<T> {
    set k | k in s
  }

  /** The set of a prefix one element longer. */
  lemma SetOfPrefixSnoc<T>(s: seq<T>, i: int)
    requires 0 <= i <= |s|
    ensures i < |s| ==> Listed(s[..i + 1]) == Listed(s[..i]) + {s[i]}
    ensures i == |s| ==> Listed(s[..i]) == Listed(s)
  {
    if i < |s| {
      assert s[..i + 1] == s[..i] + [s[i]];
    } else {
      assert s[..i] == s;
    }
  }

  /** Removing one more element from what is left. */
  lemma RemovedMore(edges: set<Edge>, removed: set<Edge>, e: Edge, edges0: set<Edge>, edges1: set<Edge>)
    requires edges0 == edges - removed && edges1 == edges0 - {e}
    ensures edges1 == edges - (removed + {e})
  {
  }

  /** Removing the i-th of a list without repetitions leaves the later ones in place. */
  lemma RemovedOne(s: seq<Edge>, i: int, edges0: set<Edge>, edges1: set<Edge>)
    requires 0 <= i < |s| && NoDuplicates(s)
    requires forall j | i <= j < |s| :: s[j] in edges0
    requires edges1 == edges0 - {s[i]}
    ensures forall j | i + 1 <= j < |s| :: s[j] in edges1
  {
  }

  /** A non-empty list holds its first entry. */
  lemma HoldsFirst(s: seq<Edge>)
    ensures s != [] ==> s[0] in s
  {
  }

  /** Moving one element from what is left to what is done keeps the two a partition of all. */
  lemma MoveOne<T>(done: set<T>, rest: set<T>, all: set<T>, x: T)
    requires done + rest == all && done !! rest && x in rest
    ensures (done + {x}) + (rest - {x}) == all && (done + {x}) !! (rest - {x})
    ensures x in all && x !in done && |done + {x}| == |done| + 1
  {
  }

  /** A canonical key turned around has itself as its key. */
  lemma KeyTurned(e: Edge)
    requires e == Key(e)
    ensures Key(Edge(e.toNode, e.fromNode)) == e
  {
  }

  /** The first loop of reverse: a new graph with one empty vertex per label of keys, in order. */
  method NewWithVertices(keys: seq<int>) returns (r: CapGraph)
    requires NoDuplicates(keys)
    ensures fresh(r) && (forall v | v in r.graphNodes :: fresh(r.graphNodes[v]))
    ensures r.Valid() && r.Counted() && r.Consistent()
    ensures r.graphNodes.Keys == (set k | k in keys) && r.graphEdges == {} && r.edgeBetweennessMap == map[]
    ensures r.nodeStack == keys && r.numNodes == |keys|
  {
    r := new CapGraph();
    for i := 0 to |keys|
      invariant fresh(r) && (forall v | v in r.graphNodes :: fresh(r.graphNodes[v]))
      invariant r.Blank() && r.graphNodes.Keys == (set k | k in keys[..i])
      invariant r.nodeStack == keys[..i] && r.numNodes == i
    {
      assert keys[i] !in keys[..i];
      r.AddBlank(keys[i]);
      assert keys[..i + 1] == keys[..i] + [keys[i]];
    }
    assert keys[..|keys|] == keys;
  }

  /** With no edge left, lists that agree with the edge set are all empty. */
  lemma NoEdgesEmptyLists(adj: map<int, seq<Edge>>, edges: set<Edge>)
    requires WellFormed(adj, edges) && Agrees(adj, edges) && edges == {}
    ensures forall k | k in adj :: adj[k] == []
  {
    forall k | k in adj
      ensures adj[k] == []
    {
      assert forall e | e in adj[k] :: Opposite(e, k) in OtherEnds(adj[k], k);
      assert forall v | v in adj :: v !in OtherEnds(adj[k], k);
      HoldsFirst(adj[k]);
    }
  }
}
