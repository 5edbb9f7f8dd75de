/**
 * The directed graph store of the ego-net package: a label -> Node map, the
 * list of every edge added (duplicates included), a stack of the labels in
 * the order addVertex saw them, and the two counters.
 */
module EgoGraphs {
  import opened Edges
  import opened Nodes
  import opened Iteration
  import opened Reach
  import opened Kosaraju

  /** The set of to-endpoints of a list of edges. */
  function ToNodes(s: seq<Edge>): set<int> {
    set e | e in s :: e.toNode
  }

  /** The to-endpoints of a list of edges, in list order. */
  function ToNodeList(s: seq<Edge>): (r: seq<int>)
    ensures |r| == |s| && forall i | 0 <= i < |s| :: r[i] == s[i].toNode
  {
    seq(|s|, i requires 0 <= i < |s| => s[i].toNode)
  }

  /** The edge with its direction flipped. */
  function Flip(e: Edge): Edge {
    Edge(e.toNode, e.fromNode)
  }

  /** Every edge of es, flipped, in list order. */
  function Flipped(es: seq<Edge>): (r: seq<Edge>)
    ensures |r| == |es| && forall i | 0 <= i < |es| :: r[i] == Flip(es[i])
  {
    seq(|es|, i requires 0 <= i < |es| => Flip(es[i]))
  }

  lemma FlippedSnoc(es: seq<Edge>, e: Edge)
    ensures Flipped(es + [e]) == Flipped(es) + [Flip(e)]
  {
  }

  /** The flipped copies of the edges of es that end at v, in list order. */
  function Incoming(es: seq<Edge>, v: int): seq<Edge> {
    if es == [] then []
    else
      var last := es[|es| - 1];
      Incoming(es[..|es| - 1], v) + (if last.toNode == v then [Flip(last)] else [])
  }

  lemma IncomingSnoc(es: seq<Edge>, e: Edge, v: int)
    ensures Incoming(es + [e], v) == Incoming(es, v) + (if e.toNode == v then [Flip(e)] else [])
  {
    assert (es + [e])[..|es|] == es;
  }

  /** The neighbours of v in the reversed list are the tails of the edges into v. */
  lemma {:induction false} IncomingNeighbours(es: seq<Edge>, v: int)
    ensures ToNodes(Incoming(es, v)) == set e | e in es && e.toNode == v :: e.fromNode
    ensures forall f | f in Incoming(es, v) :: f.fromNode == v
    decreases |es|
  {
    if es != [] {
      var init, last := es[..|es| - 1], es[|es| - 1];
      IncomingNeighbours(init, v);
      assert es == init + [last];
      var tail := if last.toNode == v then [Flip(last)] else [];
      ToNodesAppend(Incoming(init, v), tail);
      assert (set e | e in es && e.toNode == v :: e.fromNode)
          == (set e | e in init && e.toNode == v :: e.fromNode) + ToNodes(tail);
    }
  }

  lemma ToNodesAppend(a: seq<Edge>, b: seq<Edge>)
    ensures ToNodes(a + b) == ToNodes(a) + ToNodes(b)
  {
  }

  /** The edges of s that end inside within, in list order. */
  function Within(s: seq<Edge>, within: set<int>): seq<Edge> {
    if s == [] then []
    else
      var last := s[|s| - 1];
      Within(s[..|s| - 1], within) + (if last.toNode in within then [last] else [])
  }

  /** The lists of the vertices of order, each cut down by Within, one after the other in order. */
  function Gather(order: seq<int>, adj: map<int, seq<Edge>>, within: set<int>): seq<Edge>
    requires forall u | u in order :: u in adj
    decreases |order|
  {
    if order == [] then []
    else
      var u := order[|order| - 1];
      assert u in order;
      Gather(order[..|order| - 1], adj, within) + Within(adj[u], within)
  }

  /** Every edge of Gather comes from the list of a vertex of order and ends inside within, and every such edge is there. */
  lemma {:induction false} GatherMembers(order: seq<int>, adj: map<int, seq<Edge>>, within: set<int>)
    requires forall u | u in order :: u in adj
    ensures forall e :: e in Gather(order, adj, within) <==> exists u | u in order :: e in adj[u] && e.toNode in within
    decreases |order|
  {
    if order != [] {
      var init, u := order[..|order| - 1], order[|order| - 1];
      assert order == init + [u];
      GatherMembers(init, adj, within);
      WithinMembers(adj[u], within);
    }
  }

  /** base, with the edges of adj's list of each vertex of order that end inside within appended to that vertex's list. */
  function Extended(base: map<int, seq<Edge>>, order: seq<int>, adj: map<int, seq<Edge>>, within: set<int>): map<int, seq<Edge>>
    requires forall u | u in order :: u in adj
  {
    map v | v in base :: base[v] + (if v in order then Within(adj[v], within) else [])
  }

  /**
   * The ego lists getEgonet ends with: each neighbour other than center has
   * its own list cut down to the neighbours, and center, unless it is its
   * own neighbour, keeps its list.
   */
  lemma EgoLists(star: map<int, seq<Edge>>, order: seq<int>, adj: map<int, seq<Edge>>, within: set<int>, center: int, adjC: seq<Edge>, lists: map<int, seq<Edge>>)
    requires forall u | u in order :: u in adj
    requires forall v :: v in order <==> v in within
    requires StarLists(star, center, adjC, within)
    requires lists == Extended(star, order, adj, within)
    ensures FilledLists(lists, center, adjC, adj, within)
  {
  }

  /** The lists after the first loop of getEgonet: center's own (unless it is its own neighbour), the others empty. */
  ghost predicate StarLists(lists: map<int, seq<Edge>>, center: int, adjC: seq<Edge>, within: set<int>) {
    && lists.Keys == {center} + within
    && (forall v | v in within && v != center :: lists[v] == [])
    && (center !in within ==> lists[center] == adjC)
  }

  /** The lists after the second loop: each neighbour other than center cut down to the neighbours. */
  ghost predicate FilledLists(lists: map<int, seq<Edge>>, center: int, adjC: seq<Edge>, adj: map<int, seq<Edge>>, within: set<int>) {
    && lists.Keys == {center} + within
    && (forall v | v in within && v in adj && v != center :: lists[v] == Within(adj[v], within))
    && (center !in within ==> lists[center] == adjC)
  }

  /**
   * What Gather holds, given lists whose entries start at their owner: an
   * edge from a vertex of order to a vertex of within, on that vertex's list;
   * and every such listed edge is there.
   */
  lemma GatherInside(order: seq<int>, adj: map<int, seq<Edge>>, within: set<int>)
    requires forall u | u in order :: u in adj
    requires forall u, e | u in adj && e in adj[u] :: e.fromNode == u
    ensures forall e | e in Gather(order, adj, within) :: e.fromNode in order && e.toNode in within && e in adj[e.fromNode]
    ensures forall u, e | u in order && e in adj[u] && e.toNode in within :: e in Gather(order, adj, within)
  {
    GatherMembers(order, adj, within);
  }

  /** Extending by one more vertex of order, not met before, appends to that vertex's list only. */
  lemma ExtendedSnoc(base: map<int, seq<Edge>>, order: seq<int>, n: int, adj: map<int, seq<Edge>>, within: set<int>)
    requires (forall u | u in order :: u in adj) && NoDuplicates(order) && 0 <= n < |order| && order[n] in base
    ensures var before := Extended(base, order[..n], adj, within);
      Extended(base, order[..n + 1], adj, within) == before[order[n] := before[order[n]] + Within(adj[order[n]], within)]
  {
    var u := order[n];
    assert order[..n + 1] == order[..n] + [u];
    assert u !in order[..n];
    var before, after := Extended(base, order[..n], adj, within), Extended(base, order[..n + 1], adj, within);
    var r := before[u := before[u] + Within(adj[u], within)];
    forall v | v in after
      ensures after[v] == r[v]
    {
      if v != u {
        assert (v in order[..n + 1]) == (v in order[..n]);
      }
    }
    assert after.Keys == r.Keys;
  }

  /** An edge is kept by Within exactly when it is listed and ends inside the set. */
  lemma {:induction false} WithinMembers(s: seq<Edge>, within: set<int>)
    ensures forall e :: e in Within(s, within) <==> e in s && e.toNode in within
    decreases |s|
  {
    if s != [] {
      WithinMembers(s[..|s| - 1], within);
      assert s == s[..|s| - 1] + [s[|s| - 1]];
    }
  }

  lemma AppendAssoc<T>(a: seq<T>, b: seq<T>, c: seq<T>)
    ensures (a + b) + c == a + (b + c)
  {
  }

  lemma PrefixSnoc(s: seq<Edge>, i: int)
    requires 0 <= i < |s|
    ensures s[..i + 1] == s[..i] + [s[i]]
    ensures ToNodes(s[..i + 1]) == ToNodes(s[..i]) + {s[i].toNode}
    ensures ToNodeList(s[..i + 1]) == ToNodeList(s[..i]) + [s[i].toNode]
  {
    assert s[..i + 1] == s[..i] + [s[i]];
    ToNodesAppend(s[..i], [s[i]]);
  }

  class EgoGraph {
    var graphNodes: map<int, Node>
    var nodeStack: seq<int>
    var graphEdges: seq<Edge>
    var numNodes: int
    var numEdges: int

    /**
     * Every node carries its own label, every adjacency entry starts at its
     * owner, every listed edge starts at a vertex, the stack holds vertices
     * and numEdges counts the edge list.
     */
    ghost predicate Valid()
      reads this, graphNodes.Values
    {
      && (forall k | k in graphNodes :: graphNodes[k].nodeLabel == k)
      && (forall k, e | k in graphNodes && e in graphNodes[k].adjList :: e.fromNode == k)
      && (forall e | e in graphEdges :: e.fromNode in graphNodes)
      && (forall v | v in nodeStack :: v in graphNodes)
      && numEdges == |graphEdges|
    }

    /** The adjacency list of every vertex. */
    function Adj(): map<int, seq<Edge>>
      reads this, graphNodes.Values
    {
      map k | k in graphNodes :: graphNodes[k].adjList
    }

    /** The out-neighbours of v: the to-endpoints of its adjacency list. */
    ghost function Neighbors(v: int): set<int>
      reads this, graphNodes.Values
      requires v in graphNodes
    {
      ToNodes(graphNodes[v].adjList)
    }

    /** Every vertex with its out-neighbours. */
    ghost function Snapshot(): map<int, set<int>>
      reads this, graphNodes.Values
    {
      map k | k in graphNodes :: ToNodes(graphNodes[k].adjList)
    }

    /** Every out-neighbour of every vertex is itself a vertex. */
    ghost predicate Closed()
      reads this, graphNodes.Values
    {
      forall k, e | k in graphNodes && e in graphNodes[k].adjList :: e.toNode in graphNodes
    }

    constructor ()
      ensures Valid()
      ensures graphNodes == map[] && graphEdges == [] && nodeStack == []
      ensures numNodes == 0 && numEdges == 0
    {
      graphNodes := map[];
      graphEdges := [];
      nodeStack := [];
      numEdges := 0;
      numNodes := 0;
    }

    /**
     * addVertex: the label gets a new, empty node (replacing any node it had),
     * is pushed on nodeStack, and numNodes grows by one in every case.
     */
    method AddVertex(num: int)
      requires Valid()
      modifies this
      ensures Valid()
      ensures graphNodes.Keys == old(graphNodes.Keys) + {num}
      ensures fresh(graphNodes[num])
      ensures forall k | k in old(graphNodes) && k != num :: graphNodes[k] == old(graphNodes[k])
      ensures graphNodes[num].adjList == []
      ensures nodeStack == old(nodeStack) + [num]
      ensures numNodes == old(numNodes) + 1
      ensures graphEdges == old(graphEdges) && numEdges == old(numEdges)
    {
      var node := new Node(num);
      graphNodes := graphNodes[num := node];
      nodeStack := nodeStack + [num];
      numNodes := numNodes + 1;
    }

    /**
     * addEdge: the directed edge goes on the from-node's list only and on the
     * edge list, even when it is already there; numEdges grows by one.
     */
    method AddEdge(from: int, to: int)
      requires Valid() && from in graphNodes
      modifies this, graphNodes[from]
      ensures Valid()
      ensures graphNodes == old(graphNodes)
      ensures graphNodes[from].adjList == old(graphNodes[from].adjList) + [Edge(from, to)]
      ensures forall k | k in graphNodes && k != from :: graphNodes[k].adjList == old(graphNodes[k].adjList)
      ensures graphEdges == old(graphEdges) + [Edge(from, to)]
      ensures numEdges == old(numEdges) + 1
      ensures nodeStack == old(nodeStack) && numNodes == old(numNodes)
      ensures forall i, j :: IsEdge(i, j) <==> old(IsEdge(i, j)) || (i == from && j == to)
    {
      var fromNode := graphNodes[from];
      var edge := Edge(from, to);
      fromNode.Append(edge);
      graphEdges := graphEdges + [edge];
      numEdges := numEdges + 1;
      assert forall k | k in graphNodes && k != from :: graphNodes[k] != fromNode;
    }

    /** isEdge: the directed edge (i, j) is on the edge list. */
    predicate IsEdge(i: int, j: int)
      reads this
    {
      Edge(i, j) in graphEdges
    }

    /**
     * Edges are directed: a graph whose only edge runs from i to j has the
     * edge (i, j) and, when i and j differ, not (j, i).
     */
    lemma IsEdgeDirected(i: int, j: int)
      requires graphEdges == [Edge(i, j)]
      ensures IsEdge(i, j)
      ensures i != j ==> !IsEdge(j, i)
    {
    }

    function GetNodes(): set<int>
      reads this
    {
      graphNodes.Keys
    }

    function GetNumNodes(): int
      reads this
    {
      numNodes
    }

    function GetNumEdges(): int
      reads this
    {
      numEdges
    }

    /** getNeighbors: the to-endpoints of the vertex's adjacency list. */
    method GetNeighbors(center: int) returns (neighbors: set<int>)
      requires center in graphNodes
      ensures neighbors == Neighbors(center)
    {
      neighbors := {};
      var adjList := graphNodes[center].adjList;
      for i := 0 to |adjList|
        invariant neighbors == ToNodes(adjList[..i])
      {
        assert adjList[..i + 1] == adjList[..i] + [adjList[i]];
        neighbors := neighbors + {adjList[i].toNode};
      }
      assert adjList[..|adjList|] == adjList;
    }

    /** exportGraph: every vertex mapped to its out-neighbour set, whatever order the keys are visited in. */
    method ExportGraph() returns (mapGraph: map<int, set<int>>)
      ensures mapGraph.Keys == graphNodes.Keys
      ensures forall k | k in mapGraph :: mapGraph[k] == Neighbors(k)
    {
      mapGraph := map[];
      var rest := graphNodes.Keys;
      while rest != {}
        invariant rest <= graphNodes.Keys
        invariant mapGraph.Keys == graphNodes.Keys - rest
        invariant forall k | k in mapGraph :: mapGraph[k] == Neighbors(k)
        decreases |rest|
      {
        if forall x :: x !in rest {
          assert false;
        }
        var nodeInt :| nodeInt in rest;
        var nbrs := GetNeighbors(nodeInt);
        mapGraph := mapGraph[nodeInt := nbrs];
        rest := rest - {nodeInt};
      }
    }

    /**
     * reverse: a new graph with the same vertices and every listed edge
     * flipped; its vertex v lists, in order, the flipped edges that ended at v.
     */
    method Reverse() returns (r: EgoGraph)
      requires Valid()
      requires forall e | e in graphEdges :: e.toNode in graphNodes
      ensures fresh(r) && (forall v | v in r.graphNodes :: fresh(r.graphNodes[v])) && r.Valid()
      ensures r.graphNodes.Keys == graphNodes.Keys
      ensures r.nodeStack == Ascending(graphNodes.Keys) && r.numNodes == |graphNodes|
      ensures r.graphEdges == Flipped(graphEdges) && r.numEdges == numEdges
      ensures forall v | v in r.graphNodes :: r.graphNodes[v].adjList == Incoming(graphEdges, v)
    {
      var keys := Ascending(graphNodes.Keys);
      r := NewWithVertices(keys);
      r.AddFlippedEdges(graphEdges);
    }

    /** Adds every edge of es, flipped, in list order. */
    method AddFlippedEdges(es: seq<Edge>)
      requires Valid() && graphEdges == []
      requires forall e | e in es :: e.toNode in graphNodes
      modifies this, graphNodes.Values
      ensures Valid()
      ensures graphNodes == old(graphNodes) && nodeStack == old(nodeStack) && numNodes == old(numNodes)
      ensures graphEdges == Flipped(es)
      ensures forall v | v in graphNodes :: graphNodes[v].adjList == old(graphNodes[v].adjList) + Incoming(es, v)
    {
      ghost var base := Adj();
      for i := 0 to |es|
        invariant Valid()
        invariant graphNodes == old(graphNodes) && nodeStack == old(nodeStack) && numNodes == old(numNodes)
        invariant graphEdges == Flipped(es[..i])
        invariant forall v | v in graphNodes :: graphNodes[v].adjList == base[v] + Incoming(es[..i], v)
      {
        AddFlippedAt(es, i, base);
      }
      assert es[..|es|] == es;
    }

    /** One pass of the loop of AddFlippedEdges: es[i], flipped, joins the edges. */
    method AddFlippedAt(es: seq<Edge>, i: int, ghost base: map<int, seq<Edge>>)
      requires Valid() && 0 <= i < |es| && es[i].toNode in graphNodes && base.Keys == graphNodes.Keys
      requires graphEdges == Flipped(es[..i])
      requires forall v | v in graphNodes :: graphNodes[v].adjList == base[v] + Incoming(es[..i], v)
      modifies this, graphNodes.Values
      ensures Valid()
      ensures graphNodes == old(graphNodes) && nodeStack == old(nodeStack) && numNodes == old(numNodes)
      ensures graphEdges == Flipped(es[..i + 1])
      ensures forall v | v in graphNodes :: graphNodes[v].adjList == base[v] + Incoming(es[..i + 1], v)
    {
      var e := es[i];
      assert es[..i + 1] == es[..i] + [e];
      FlippedSnoc(es[..i], e);
      forall v | v in graphNodes
        ensures Incoming(es[..i + 1], v) == Incoming(es[..i], v) + (if e.toNode == v then [Flip(e)] else [])
      {
        IncomingSnoc(es[..i], e, v);
      }
      AddEdge(e.toNode, e.fromNode);
    }

    /**
     * getEgonet: the centre, each to-endpoint of its list (added as a vertex
     * and joined from the centre, in list order), then, for each neighbour in
     * turn, every edge of its list that ends at a neighbour. Each neighbour
     * other than center ends with its own list cut down to the neighbours;
     * center keeps its list unless it is its own neighbour.
     */
    method GetEgonet(center: int) returns (ego: EgoGraph)
      requires Valid() && center in graphNodes
      requires forall x | x in Neighbors(center) :: x in graphNodes
      ensures fresh(ego) && ego.Valid()
      ensures ego.graphNodes.Keys == {center} + Neighbors(center)
      ensures ego.nodeStack == [center] + ToNodeList(graphNodes[center].adjList)
      ensures ego.numNodes == 1 + |graphNodes[center].adjList|
      ensures ego.graphEdges == graphNodes[center].adjList + Gather(Ascending(Neighbors(center)), Adj(), Neighbors(center))
      ensures forall v | v in Neighbors(center) && v != center :: ego.Adj()[v] == Within(Adj()[v], Neighbors(center))
      ensures center !in Neighbors(center) ==> ego.Adj()[center] == Adj()[center]
    {
      var lists := Adj();
      var neighbors := GetNeighbors(center);
      assert lists[center] == graphNodes[center].adjList;
      forall u: int, e: Edge | u in lists && e in lists[u]
        ensures e.fromNode == u
      {
        assert e in graphNodes[u].adjList;
      }
      ego := BuildEgonet(lists, center, neighbors);
      assert lists == Adj();
    }

    /** One step of the first loop of getEgonet: addVertex(to), then addEdge(center, to). */
    method AddSpoke(center: int, to: int)
      requires Valid() && center in graphNodes
      modifies this, graphNodes[center]
      ensures Valid()
      ensures graphNodes.Keys == old(graphNodes.Keys) + {to}
      ensures forall v | v in graphNodes :: fresh(graphNodes[v]) || (v in old(graphNodes) && graphNodes[v] == old(graphNodes[v]))
      ensures nodeStack == old(nodeStack) + [to] && numNodes == old(numNodes) + 1
      ensures graphEdges == old(graphEdges) + [Edge(center, to)]
      ensures graphNodes[to].adjList == if to == center then [Edge(center, to)] else []
      ensures to != center ==> graphNodes[center].adjList == old(graphNodes[center].adjList) + [Edge(center, to)]
      ensures forall v | v in old(graphNodes) && v != to && v != center :: graphNodes[v].adjList == old(graphNodes[v].adjList)
    {
      AddVertex(to);
      AddEdge(center, to);
    }

    /** The inner loop of getEgonet: the edges of uList that end inside within, in list order. */
    method AddEdgesWithin(u: int, uList: seq<Edge>, within: set<int>)
      requires Valid() && u in graphNodes && within <= graphNodes.Keys
      requires forall e | e in uList :: e.fromNode == u
      modifies this, graphNodes[u]
      ensures Valid()
      ensures graphNodes == old(graphNodes) && nodeStack == old(nodeStack) && numNodes == old(numNodes)
      ensures graphEdges == old(graphEdges) + Within(uList, within)
      ensures graphNodes[u].adjList == old(graphNodes[u].adjList) + Within(uList, within)
      ensures forall k | k in graphNodes && k != u :: graphNodes[k].adjList == old(graphNodes[k].adjList)
    {
      for j := 0 to |uList|
        invariant Valid()
        invariant graphNodes == old(graphNodes) && nodeStack == old(nodeStack) && numNodes == old(numNodes)
        invariant graphEdges == old(graphEdges) + Within(uList[..j], within)
        invariant graphNodes[u].adjList == old(graphNodes[u].adjList) + Within(uList[..j], within)
        invariant forall k | k in graphNodes && k != u :: graphNodes[k].adjList == old(graphNodes[k].adjList)
      {
        var e := uList[j];
        assert uList[..j + 1][..j] == uList[..j];
        if e.toNode in within {
          AddEdge(u, e.toNode);
        }
      }
      assert uList[..|uList|] == uList;
    }

    /** The edge list and the adjacency lists describe the same directed edges. */
    ghost predicate Consistent()
      reads this, graphNodes.Values
      requires Valid()
    {
      forall u, v | u in graphNodes && v in graphNodes :: v in Neighbors(u) <==> Edge(u, v) in graphEdges
    }

    /** Every vertex is on nodeStack, as it is until the first getSCCs empties it. */
    ghost predicate StackCovers()
      reads this
    {
      forall v | v in graphNodes :: v in nodeStack
    }

    /** g is this graph as a value: the same vertices, each with its out-neighbours. */
    ghost predicate Abstracts(g: Graph)
      reads this, graphNodes.Values
    {
      g.Keys == graphNodes.Keys && forall v | v in graphNodes :: g[v] == Neighbors(v)
    }

    lemma SnapshotAbstracts()
      requires Valid()
      ensures Abstracts(Snapshot())
      ensures Closed() ==> Reach.Closed(Snapshot())
    {
      if Closed() {
        forall v | v in graphNodes
          ensures Neighbors(v) <= graphNodes.Keys
        {
          forall x | x in Neighbors(v)
            ensures x in graphNodes
          {
            var e :| e in graphNodes[v].adjList && e.toNode == x;
          }
        }
      }
    }

    /**
     * getSCCs: the first loop pops the whole of nodeStack, running DFSVisit from
     * every vertex not yet visited; the second pops the finish stack and grows
     * one new graph per unvisited vertex by DFSVisitReverse on reverse(). The
     * returned graphs have no edges and disjoint vertex sets covering every
     * vertex that was on nodeStack; when the edge list agrees with the
     * adjacency lists and nodeStack held every vertex, each one's vertex set
     * is a strongly connected component.
     */
    method GetSCCs() returns (graphList: seq<EgoGraph>)
      requires Valid() && Closed()
      requires forall e | e in graphEdges :: e.toNode in graphNodes
      modifies this
      ensures nodeStack == [] && graphNodes == old(graphNodes) && graphEdges == old(graphEdges)
      ensures numNodes == old(numNodes) && numEdges == old(numEdges)
      ensures forall c | c in graphList :: fresh(c) && c.Valid() && c.graphEdges == []
      ensures forall c | c in graphList :: c.graphNodes.Keys != {} && c.graphNodes.Keys <= graphNodes.Keys
      ensures forall i, j | 0 <= i < j < |graphList| :: graphList[i].graphNodes.Keys !! graphList[j].graphNodes.Keys
      ensures forall v | v in old(nodeStack) :: exists c | c in graphList :: v in c.graphNodes
      ensures old(nodeStack) == [] ==> graphList == []
      ensures old(Consistent() && StackCovers()) ==>
        forall c | c in graphList :: IsComponent(old(Snapshot()), c.graphNodes.Keys)
    {
      ghost var g := Snapshot();
      SnapshotAbstracts();
      ghost var full := Consistent() && StackCovers();
      if Consistent() {
        ConsistentLists(g);
      }
      var finished := FinishAll(g);
      graphList := SecondPass(g, finished, full);
    }

    /** The second half of getSCCs: reverse the graph, export it, and collect the trees. */
    method SecondPass(ghost g: Graph, finished: seq<int>, ghost full: bool) returns (graphList: seq<EgoGraph>)
      requires Valid() && g.Keys == graphNodes.Keys
      requires forall e | e in graphEdges :: e.toNode in graphNodes
      requires forall x | x in finished :: x in graphNodes
      requires full ==> Lists(g, graphEdges) && FinishOrder(g, finished, {}) && forall x | x in g :: x in finished
      ensures forall c | c in graphList :: fresh(c) && c.Valid() && c.graphEdges == []
      ensures forall c | c in graphList :: c.graphNodes.Keys != {} && c.graphNodes.Keys <= graphNodes.Keys
      ensures forall i, j | 0 <= i < j < |graphList| :: graphList[i].graphNodes.Keys !! graphList[j].graphNodes.Keys
      ensures forall x | x in finished :: exists c | c in graphList :: x in c.graphNodes
      ensures |graphList| <= |finished|
      ensures full ==> forall c | c in graphList :: IsComponent(g, c.graphNodes.Keys)
    {
      var reverseGraph := Reverse();
      var reverseMap := reverseGraph.ExportGraph();
      ReverseOfList(g, graphEdges, reverseGraph, reverseMap);
      graphList := CollectTrees(reverseMap, g, finished, full);
    }

    lemma ConsistentLists(g: Graph)
      requires Valid() && Abstracts(g) && Consistent()
      ensures Lists(g, graphEdges)
    {
    }

    /** The first loop of getSCCs: pops nodeStack empty, visiting each vertex not yet visited. */
    method FinishAll(ghost g: Graph) returns (finished: seq<int>)
      requires Valid() && Abstracts(g) && Reach.Closed(g)
      modifies this
      ensures Valid() && nodeStack == [] && graphNodes == old(graphNodes) && graphEdges == old(graphEdges)
      ensures numNodes == old(numNodes) && numEdges == old(numEdges)
      ensures forall x | x in finished :: x in graphNodes
      ensures forall x, y | x in finished && y in g[x] :: y in finished
      ensures NoDuplicates(finished)
      ensures FinishOrder(g, finished, {})
      ensures forall v | v in old(nodeStack) :: v in finished
      ensures old(nodeStack) == [] ==> finished == []
    {
      var stack := nodeStack;
      nodeStack := [];
      var visited: set<int> := {};
      finished := [];
      FirstPassStart(g);
      while stack != []
        modifies {}
        invariant forall u | u in old(nodeStack) :: u in visited || u in stack
        invariant old(nodeStack) == [] ==> stack == [] && finished == []
        invariant forall u | u in stack :: u in graphNodes
        invariant FirstPass(g, visited, finished) && Gray(visited, finished) == {}
        decreases |stack|
      {
        var v := stack[|stack| - 1];
        ghost var popped := stack;
        stack := stack[..|stack| - 1];
        assert forall u | u in popped :: u == v || u in stack;
        if v !in visited {
          visited, finished := DFSVisit(g, v, visited, finished);
        }
      }
      forall x | x in visited
        ensures x in finished
      {
        assert x !in Gray(visited, finished);
      }
    }

    /**
     * DFSVisit: marks v visited, visits each unvisited out-neighbour in turn,
     * then pushes v on the finish stack. Everything it pushes is reachable
     * from v, and the first-pass invariant holds again on return.
     */
    method DFSVisit(ghost g: Graph, v: int, visited: set<int>, finished: seq<int>)
      returns (visited': set<int>, finished': seq<int>)
      requires Valid() && Abstracts(g) && Reach.Closed(g)
      requires v in graphNodes && v !in visited
      requires FirstPass(g, visited, finished)
      ensures FirstPass(g, visited', finished')
      ensures visited + {v} <= visited' && v in finished'
      ensures |finished| < |finished'| && finished'[..|finished|] == finished
      ensures forall k | |finished| <= k < |finished'| :: Reaches(g, v, finished'[k])
      ensures Gray(visited', finished') == Gray(visited, finished)
      decreases |graphNodes.Keys - visited|
    {
      ghost var below := Gray(visited, finished);
      Discover(g, visited, finished, v);
      visited' := visited + {v};
      finished' := finished;
      var nbrs := GetNeighbors(v);
      assert nbrs == g[v] && nbrs <= graphNodes.Keys;
      var rest := nbrs;
      while rest != {}
        invariant rest <= nbrs
        invariant FirstPass(g, visited', finished')
        invariant visited + {v} <= visited'
        invariant Gray(visited', finished') == below + {v}
        invariant |finished| <= |finished'| && finished'[..|finished|] == finished
        invariant forall k | |finished| <= k < |finished'| :: Reaches(g, v, finished'[k])
        invariant forall x | x in nbrs && x !in rest :: x in visited'
        decreases |rest|
      {
        if forall x :: x !in rest {
          assert false;
        }
        var n :| n in rest;
        rest := rest - {n};
        if n !in visited' {
          GapShrinks(graphNodes.Keys, visited, visited', v);
          ghost var before := finished';
          visited', finished' := DFSVisit(g, n, visited', finished');
          PrefixOfPrefix(finished, before, finished');
          ReachesEdge(g, v, n);
          forall k | |finished| <= k < |finished'|
            ensures Reaches(g, v, finished'[k])
          {
            if k < |before| {
              assert finished'[k] == before[k];
            } else {
              ReachesTrans(g, v, n, finished'[k]);
            }
          }
        }
      }
      forall k | 0 <= k < |finished'| && Reaches(g, finished'[k], v)
        ensures Reaches(g, v, finished'[k]) || GrayReached(g, below, finished'[k])
      {
        if k < |finished| {
          assert finished'[k] == finished[k];
          GrayOnPath(g, visited, finished, finished[k], v);
        }
      }
      Finish(g, visited', finished', v, below);
      finished' := finished' + [v];
    }

    /**
     * The second loop of getSCCs: pops the finish stack and, for each vertex
     * not yet visited, grows a new graph by DFSVisitReverse on the reversed graph.
     */
    method CollectTrees(reverseGraph: Graph, ghost g: Graph, finished: seq<int>, ghost full: bool)
      returns (graphList: seq<EgoGraph>)
      requires Reach.Closed(reverseGraph)
      requires forall x | x in finished :: x in reverseGraph
      requires full ==> Ready(g, reverseGraph, finished)
      ensures forall c | c in graphList :: fresh(c) && c.Valid() && c.graphEdges == []
      ensures forall c | c in graphList :: c.graphNodes.Keys != {} && c.graphNodes.Keys <= reverseGraph.Keys
      ensures forall i, j | 0 <= i < j < |graphList| :: graphList[i].graphNodes.Keys !! graphList[j].graphNodes.Keys
      ensures forall x | x in finished :: exists c | c in graphList :: x in c.graphNodes
      ensures |graphList| <= |finished|
      ensures full ==> forall c | c in graphList :: IsComponent(g, c.graphNodes.Keys)
    {
      var visited: set<int> := {};
      var m := |finished|;
      graphList := [];
      ghost var comps: seq<set<int>> := [];
      ForestStart(g);
      while m > 0
        invariant Pass(g, reverseGraph, finished, full, m, visited, comps)
        invariant |comps| == |graphList|
        invariant |graphList| <= |finished| - m
        invariant forall i | 0 <= i < |graphList| :: fresh(graphList[i])
        invariant forall i | 0 <= i < |graphList| :: Tree(graphList[i], comps[i])
      {
        var w := finished[m - 1];
        if w !in visited {
          var sccGraph, visited' := GrowTree(reverseGraph, w, visited);
          PassGrow(g, reverseGraph, finished, full, m, visited, visited', w, comps);
          graphList := graphList + [sccGraph];
          comps := comps + [visited' - visited];
          visited := visited';
        } else {
          PassSkip(g, reverseGraph, finished, full, m, visited, comps);
        }
        m := m - 1;
      }
      TreesCover(g, reverseGraph, finished, full, visited, graphList, comps);
    }

    /**
     * One tree of the second loop: a new graph grown by DFSVisitReverse from the
     * unvisited root w; its vertices are the newly visited ones.
     */
    method GrowTree(reverseGraph: Graph, w: int, visited: set<int>)
      returns (sccGraph: EgoGraph, visited': set<int>)
      requires Reach.Closed(reverseGraph) && w in reverseGraph && w !in visited
      ensures fresh(sccGraph) && Tree(sccGraph, visited' - visited)
      ensures visited + {w} <= visited' && visited' - visited <= reverseGraph.Keys
      ensures forall x | x in visited' - visited :: Reaches(reverseGraph, w, x)
      ensures forall x | x in visited' - visited :: reverseGraph[x] <= visited'
    {
      sccGraph := new EgoGraph();
      visited' := DFSVisitReverse(sccGraph, reverseGraph, w, visited);
    }

    /**
     * DFSVisitReverse: marks w visited and adds it to the component graph, then
     * recurses into each unvisited neighbour of w in the reversed graph.
     */
    method DFSVisitReverse(sccGraph: EgoGraph, reverseGraph: Graph, w: int, visited: set<int>)
      returns (visited': set<int>)
      requires sccGraph.Valid() && sccGraph.graphEdges == []
      requires Reach.Closed(reverseGraph) && w in reverseGraph && w !in visited
      modifies sccGraph
      ensures sccGraph.Valid() && sccGraph.graphEdges == []
      ensures visited + {w} <= visited' && visited' - visited <= reverseGraph.Keys
      ensures sccGraph.graphNodes.Keys == old(sccGraph.graphNodes.Keys) + (visited' - visited)
      ensures forall x | x in visited' - visited :: Reaches(reverseGraph, w, x)
      ensures forall x | x in visited' - visited :: reverseGraph[x] <= visited'
      decreases |reverseGraph.Keys - visited|
    {
      visited' := visited + {w};
      sccGraph.AddVertex(w);
      ReachesRefl(reverseGraph, w);
      var nbrs := reverseGraph[w];
      var rest := nbrs;
      while rest != {}
        invariant rest <= nbrs
        invariant sccGraph.Valid() && sccGraph.graphEdges == []
        invariant visited + {w} <= visited' && visited' - visited <= reverseGraph.Keys
        invariant sccGraph.graphNodes.Keys == old(sccGraph.graphNodes.Keys) + (visited' - visited)
        invariant forall x | x in visited' - visited :: Reaches(reverseGraph, w, x)
        invariant forall x | x in visited' - visited && x != w :: reverseGraph[x] <= visited'
        invariant forall x | x in nbrs && x !in rest :: x in visited'
        decreases |rest|
      {
        if forall x :: x !in rest {
          assert false;
        }
        var n :| n in rest;
        rest := rest - {n};
        if n !in visited' {
          GapShrinks(reverseGraph.Keys, visited, visited', w);
          ghost var before := visited';
          visited' := DFSVisitReverse(sccGraph, reverseGraph, n, visited');
          GrowTwice(old(sccGraph.graphNodes.Keys), visited, before, visited');
          ReachesEdge(reverseGraph, w, n);
          forall x | x in visited' - before
            ensures Reaches(reverseGraph, w, x)
          {
            ReachesTrans(reverseGraph, w, n, x);
          }
        }
      }
      forall x | x in nbrs
        ensures x in visited'
      {
        assert x !in rest;
      }
    }
  }

  /** c is a valid graph without edges whose vertices are exactly keys. */
  ghost predicate Tree(c: EgoGraph, keys: set<int>)
    reads c, c.graphNodes.Values
  {
    c.Valid() && c.graphEdges == [] && c.graphNodes.Keys == keys
  }

  /** When the finish stack is empty, the trees grown by the second pass cover it, are disjoint and, given a full first pass, are components. */
  lemma TreesCover(g: Graph, rg: Graph, finished: seq<int>, full: bool, visited: set<int>, graphList: seq<EgoGraph>, comps: seq<set<int>>)
    requires Pass(g, rg, finished, full, 0, visited, comps) && |comps| == |graphList|
    requires forall i | 0 <= i < |graphList| :: Tree(graphList[i], comps[i])
    ensures forall c | c in graphList :: c.Valid() && c.graphEdges == []
    ensures forall c | c in graphList :: c.graphNodes.Keys != {} && c.graphNodes.Keys <= rg.Keys
    ensures forall i, j | 0 <= i < j < |graphList| :: graphList[i].graphNodes.Keys !! graphList[j].graphNodes.Keys
    ensures forall x | x in finished :: exists c | c in graphList :: x in c.graphNodes
    ensures full ==> forall c | c in graphList :: IsComponent(g, c.graphNodes.Keys)
  {
    forall x | x in finished
      ensures exists c | c in graphList :: x in c.graphNodes
    {
      var k :| 0 <= k < |finished| && finished[k] == x;
      var i :| 0 <= i < |comps| && x in comps[i];
      assert x in graphList[i].graphNodes;
    }
  }

  /** es lists exactly the edges of g, between the vertices of g. */
  ghost predicate Lists(g: Graph, es: seq<Edge>) {
    forall u, v | u in g && v in g :: v in g[u] <==> Edge(u, v) in es
  }

  /**
   * The graph that reverse() builds from the edge list es, read back as a
   * value: its successors are vertices and, when es lists the edges of g,
   * it is g with every edge turned around.
   */
  lemma ReverseOfList(g: Graph, es: seq<Edge>, r: EgoGraph, rg: Graph)
    requires r.Abstracts(rg) && rg.Keys == g.Keys
    requires forall v | v in r.graphNodes :: r.graphNodes[v].adjList == Incoming(es, v)
    requires forall e | e in es :: e.fromNode in g
    ensures Reach.Closed(rg)
    ensures Lists(g, es) ==> IsReverse(g, rg)
  {
    forall v | v in rg
      ensures rg[v] == set e | e in es && e.toNode == v :: e.fromNode
    {
      IncomingNeighbours(es, v);
    }
    if Lists(g, es) {
      forall u, v | u in g && v in g
        ensures v in g[u] <==> u in rg[v]
      {
        if u in rg[v] {
          var e :| e in es && e.toNode == v && e.fromNode == u;
          assert e == Edge(u, v);
        }
      }
    }
  }

  /**
   * getEgonet on the source graph's lists adj (which it only reads): the
   * star of center (NewStar), then, for each neighbour in ascending order,
   * the edges of its list that end at a neighbour (AddInnerEdges).
   */
  method BuildEgonet(adj: map<int, seq<Edge>>, center: int, neighbors: set<int>) returns (ego: EgoGraph)
    requires center in adj && neighbors == ToNodes(adj[center]) && neighbors <= adj.Keys
    requires forall u, e | u in adj && e in adj[u] :: e.fromNode == u
    ensures fresh(ego) && ego.Valid()
    ensures ego.graphNodes.Keys == {center} + neighbors
    ensures ego.nodeStack == [center] + ToNodeList(adj[center]) && ego.numNodes == 1 + |adj[center]|
    ensures ego.graphEdges == adj[center] + Gather(Ascending(neighbors), adj, neighbors)
    ensures forall v | v in neighbors && v != center :: ego.Adj()[v] == Within(adj[v], neighbors)
    ensures center !in neighbors ==> ego.Adj()[center] == adj[center]
  {
    var adjC := adj[center];
    ego := NewStar(center, adjC);
    assert StarLists(ego.Adj(), center, adjC, neighbors);
    FillInner(ego, adj, center, neighbors);
  }

  /** The second loop of getEgonet, run on the star NewStar builds. */
  method FillInner(ego: EgoGraph, adj: map<int, seq<Edge>>, center: int, neighbors: set<int>)
    requires center in adj && neighbors == ToNodes(adj[center]) && neighbors <= adj.Keys
    requires forall u, e | u in adj && e in adj[u] :: e.fromNode == u
    requires ego.Valid() && ego.graphNodes.Keys == {center} + neighbors
    requires ego.nodeStack == [center] + ToNodeList(adj[center]) && ego.numNodes == 1 + |adj[center]|
    requires ego.graphEdges == adj[center]
    requires StarLists(ego.Adj(), center, adj[center], neighbors)
    modifies ego, ego.graphNodes.Values
    ensures ego.Valid() && ego.graphNodes.Keys == {center} + neighbors
    ensures ego.nodeStack == [center] + ToNodeList(adj[center]) && ego.numNodes == 1 + |adj[center]|
    ensures ego.graphEdges == adj[center] + Gather(Ascending(neighbors), adj, neighbors)
    ensures FilledLists(ego.Adj(), center, adj[center], adj, neighbors)
  {
    ghost var star := ego.Adj();
    var order := Ascending(neighbors);
    AscendingHasNoDuplicates(neighbors);
    ghost var added := AddInnerEdges(ego, order, adj, neighbors);
    EgoLists(star, order, adj, neighbors, center, adj[center], ego.Adj());
  }

  /**
   * The second loop of getEgonet: for each vertex of order, the edges of its
   * list in adj (the source graph's lists, which the loop only reads) that
   * end inside within are added to ego, on the edge list and on ego's list of
   * that vertex.
   */
  method AddInnerEdges(ego: EgoGraph, order: seq<int>, adj: map<int, seq<Edge>>, within: set<int>) returns (ghost added: seq<Edge>)
    requires ego.Valid() && within <= ego.graphNodes.Keys
    requires forall u | u in order :: u in adj && u in ego.graphNodes
    requires forall u, e | u in adj && e in adj[u] :: e.fromNode == u
    requires NoDuplicates(order)
    modifies ego, ego.graphNodes.Values
    ensures ego.Valid() && ego.graphNodes == old(ego.graphNodes)
    ensures ego.nodeStack == old(ego.nodeStack) && ego.numNodes == old(ego.numNodes)
    ensures added == Gather(order, adj, within)
    ensures ego.graphEdges == old(ego.graphEdges) + added
    ensures ego.Adj() == Extended(old(ego.Adj()), order, adj, within)
  {
    added := [];
    ghost var base := ego.Adj();
    ghost var start := Extended(base, order[..0], adj, within);
    forall v | v in start
      ensures start[v] == base[v]
    {
      assert base[v] + [] == base[v];
    }
    assert start.Keys == base.Keys;
    for n := 0 to |order|
      invariant ego.Valid() && ego.graphNodes == old(ego.graphNodes)
      invariant ego.nodeStack == old(ego.nodeStack) && ego.numNodes == old(ego.numNodes)
      invariant added == Gather(order[..n], adj, within)
      invariant ego.graphEdges == old(ego.graphEdges) + added
      invariant ego.Adj() == Extended(base, order[..n], adj, within)
    {
      var u := order[n];
      assert u in order;
      ghost var edges := AddRow(ego, u, adj[u], within);
      ExtendedSnoc(base, order, n, adj, within);
      assert order[..n + 1][..n] == order[..n];
      AppendAssoc(old(ego.graphEdges), added, edges);
      added := added + edges;
    }
    assert order[..|order|] == order;
  }

  /**
   * One vertex u of the second loop of getEgonet: the edges of u's list
   * uList that end inside within go on ego's list of u and on ego's edge list.
   */
  method AddRow(ego: EgoGraph, u: int, uList: seq<Edge>, within: set<int>) returns (ghost edges: seq<Edge>)
    requires ego.Valid() && u in ego.graphNodes && within <= ego.graphNodes.Keys
    requires forall e | e in uList :: e.fromNode == u
    modifies ego, ego.graphNodes[u]
    ensures edges == Within(uList, within)
    ensures ego.Valid() && ego.graphNodes == old(ego.graphNodes)
    ensures ego.nodeStack == old(ego.nodeStack) && ego.numNodes == old(ego.numNodes)
    ensures ego.graphEdges == old(ego.graphEdges) + edges
    ensures ego.Adj() == old(ego.Adj())[u := old(ego.Adj())[u] + edges]
  {
    edges := Within(uList, within);
    ghost var before := ego.Adj();
    ego.AddEdgesWithin(u, uList, within);
    ghost var r := before[u := before[u] + edges];
    forall v | v in ego.Adj()
      ensures ego.Adj()[v] == r[v]
    {
    }
    assert ego.Adj().Keys == r.Keys;
  }

  /**
   * The first loop of getEgonet: a new graph holding center and, in list
   * order, each to-endpoint of adjC as a vertex joined from center.
   */
  method NewStar(center: int, adjC: seq<Edge>) returns (ego: EgoGraph)
    requires forall e | e in adjC :: e.fromNode == center
    ensures fresh(ego) && ego.Valid()
    ensures forall v | v in ego.graphNodes :: fresh(ego.graphNodes[v])
    ensures ego.graphNodes.Keys == {center} + ToNodes(adjC)
    ensures ego.nodeStack == [center] + ToNodeList(adjC) && ego.numNodes == 1 + |adjC|
    ensures ego.graphEdges == adjC
    ensures center !in ToNodes(adjC) ==> ego.graphNodes[center].adjList == adjC
    ensures forall v | v in ToNodes(adjC) && v != center :: ego.graphNodes[v].adjList == []
  {
    ego := new EgoGraph();
    ego.AddVertex(center);
    for i := 0 to |adjC|
      invariant fresh(ego) && ego.Valid()
      invariant forall v | v in ego.graphNodes :: fresh(ego.graphNodes[v])
      invariant ego.graphNodes.Keys == {center} + ToNodes(adjC[..i])
      invariant center !in ToNodes(adjC) ==> ego.graphNodes[center].adjList == adjC[..i]
      invariant forall v | v in ToNodes(adjC[..i]) && v != center :: ego.graphNodes[v].adjList == []
      invariant ego.nodeStack == [center] + ToNodeList(adjC[..i]) && ego.numNodes == 1 + i
      invariant ego.graphEdges == adjC[..i]
    {
      StarStep(ego, center, adjC, i);
    }
    assert adjC[..|adjC|] == adjC;
  }

  /** One step of the first loop of getEgonet: the spoke from center to adjC[i].toNode. */
  method StarStep(ego: EgoGraph, center: int, adjC: seq<Edge>, i: int)
    requires 0 <= i < |adjC| && forall e | e in adjC :: e.fromNode == center
    requires ego.Valid() && ego.graphNodes.Keys == {center} + ToNodes(adjC[..i])
    requires center !in ToNodes(adjC) ==> ego.graphNodes[center].adjList == adjC[..i]
    requires forall v | v in ToNodes(adjC[..i]) && v != center :: ego.graphNodes[v].adjList == []
    requires ego.nodeStack == [center] + ToNodeList(adjC[..i]) && ego.numNodes == 1 + i
    requires ego.graphEdges == adjC[..i]
    modifies ego, ego.graphNodes[center]
    ensures ego.Valid() && ego.graphNodes.Keys == {center} + ToNodes(adjC[..i + 1])
    ensures center !in ToNodes(adjC) ==> ego.graphNodes[center].adjList == adjC[..i + 1]
    ensures forall v | v in ToNodes(adjC[..i + 1]) && v != center :: ego.graphNodes[v].adjList == []
    ensures ego.nodeStack == [center] + ToNodeList(adjC[..i + 1]) && ego.numNodes == 2 + i
    ensures ego.graphEdges == adjC[..i + 1]
    ensures forall v | v in ego.graphNodes :: fresh(ego.graphNodes[v]) || (v in old(ego.graphNodes) && ego.graphNodes[v] == old(ego.graphNodes[v]))
  {
    var otherEnd := adjC[i].toNode;
    assert adjC[i] in adjC && adjC[i] == Edge(center, otherEnd);
    ego.AddSpoke(center, otherEnd);
    PrefixSnoc(adjC, i);
    AppendAssoc([center], ToNodeList(adjC[..i]), [otherEnd]);
  }

  /** The first loop of reverse: a new graph with one empty vertex per label of keys, in order. */
  method NewWithVertices(keys: seq<int>) returns (r: EgoGraph)
    ensures fresh(r) && r.Valid()
    ensures forall v | v in r.graphNodes :: fresh(r.graphNodes[v])
    ensures r.graphNodes.Keys == set k | k in keys
    ensures forall v | v in r.graphNodes :: r.graphNodes[v].adjList == []
    ensures r.nodeStack == keys && r.numNodes == |keys|
    ensures r.graphEdges == []
  {
    r := new EgoGraph();
    for i := 0 to |keys|
      invariant fresh(r) && r.Valid()
      invariant forall v | v in r.graphNodes :: fresh(r.graphNodes[v])
      invariant r.graphNodes.Keys == set k | k in keys[..i]
      invariant forall v | v in r.graphNodes :: r.graphNodes[v].adjList == []
      invariant r.nodeStack == keys[..i] && r.numNodes == i
      invariant r.graphEdges == []
    {
      r.AddVertex(keys[i]);
      assert keys[..i + 1] == keys[..i] + [keys[i]];
    }
    assert keys[..|keys|] == keys;
  }
}
