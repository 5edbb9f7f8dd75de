/**
 * dQ: the change in modularity when two communities of the undirected graph
 * store are merged. Three counts are taken through the store's isEdge: e,
 * the stored edges between the two communities, and a_i and a_j, for each
 * community the isEdge hits from its vertices into their neighbourhood.
 * Each count is divided by 2 numEdges and combined as 2 (e - a_i a_j).
 *
 * Java's doubles are modelled as reals, so no rounding is modelled.
 */
module FastNewmans {
  import opened Edges
  import opened Iteration
  import opened Reach
  import opened CapGraphs

  /** The stored edges with one end in I and the other in J. */
  function CrossEdges(edges: set<Edge>, I: set<int>, J: set<int>): set<Edge> {
    set k | k in edges && ((k.fromNode in I && k.toNode in J) || (k.fromNode in J && k.toNode in I))
  }

  /** The vertices of within that isEdge joins to i. */
  function Ties(edges: set<Edge>, i: int, within: set<int>): set<int> {
    set j | j in within && Linked(edges, i, j)
  }

  /** Every neighbour of a vertex of s. */
  ghost function Around(nb: Graph, s: set<int>): set<int> {
    set i, j | i in s && i in nb && j in nb[i] :: j
  }

  /** The sum, over the vertices i of s, of |f[i]|. */
  ghost function SizeSum(f: map<int, set<int>>, s: set<int>): int
    requires s <= f.Keys
    decreases |s|
  {
    if s == {} then 0
    else
      var m := Minimum(s);
      |f[m]| + SizeSum(f, s - {m})
  }

  /** For each vertex of s, the vertices of within that isEdge joins to it, counted. */
  ghost function TieSum(edges: set<Edge>, s: set<int>, within: set<int>): int {
    SizeSum(map i | i in s :: Ties(edges, i, within), s)
  }

  /** The total degree of s: the number of neighbours of each of its vertices, summed. */
  ghost function Volume(nb: Graph, s: set<int>): int
    requires s <= nb.Keys
  {
    SizeSum(nb, s)
  }

  /** 2 (e - a_i a_j), with each count divided by 2 m. */
  function DeltaQ(e: int, ai: int, aj: int, m: int): real
    requires m > 0
  {
    var d := (2 * m) as real;
    2.0 * (e as real / d - (ai as real / d) * (aj as real / d))
  }

  /** dQ is positive exactly when 2 m e exceeds a_i a_j, and zero exactly when the two are equal. */
  lemma DeltaQSign(e: int, ai: int, aj: int, m: int)
    requires m > 0
    ensures DeltaQ(e, ai, aj, m) > 0.0 <==> 2 * m * e > ai * aj
    ensures DeltaQ(e, ai, aj, m) == 0.0 <==> 2 * m * e == ai * aj
  {
    var d := (2 * m) as real;
    ScaledDifference(e as real, ai as real, aj as real, d, DeltaQ(e, ai, aj, m));
    assert d * (e as real) == (2 * m * e) as real;
    assert (ai as real) * (aj as real) == (ai * aj) as real;
  }

  lemma ScaledDifference(e: real, ai: real, aj: real, d: real, r: real)
    requires d > 0.0 && r == 2.0 * (e / d - (ai / d) * (aj / d))
    ensures r > 0.0 <==> d * e > ai * aj
    ensures r == 0.0 <==> d * e == ai * aj
  {
    var p, q, t := e / d, ai / d, aj / d;
    assert e == p * d && ai == q * d && aj == t * d;
    assert d * e - ai * aj == d * d * (p - q * t);
    assert r == 2.0 * (p - q * t);
    PositiveFactor(d, d);
    PositiveFactor(d * d, p - q * t);
  }

  /** Multiplying by a positive factor keeps the sign. */
  lemma PositiveFactor(c: real, x: real)
    requires c > 0.0
    ensures c * x > 0.0 <==> x > 0.0
    ensures c * x == 0.0 <==> x == 0.0
  {
    if x > 0.0 {
      assert c * x > 0.0;
    } else if x < 0.0 {
      assert c * x < 0.0;
    }
  }

  /** What dQ returns for communities with vertex sets I and J. */
  ghost function Gain(edges: set<Edge>, nb: Graph, m: int, I: set<int>, J: set<int>): real
    requires m > 0
  {
    DeltaQ(|CrossEdges(edges, I, J)|, TieSum(edges, I, Around(nb, I)), TieSum(edges, J, Around(nb, J)), m)
  }

  /** Any vertex of s can be taken out first. */
  lemma {:induction false} SizeSumSplit(f: map<int, set<int>>, s: set<int>, x: int)
    requires s <= f.Keys && x in s
    ensures SizeSum(f, s) == |f[x]| + SizeSum(f, s - {x})
    decreases |s|
  {
    var m := Minimum(s);
    if m != x {
      SizeSumSplit(f, s - {m}, x);
      var rest := s - {x};
      assert m in rest;
      assert Minimum(rest) == m;
      assert rest - {m} == s - {m} - {x};
    }
  }

  /** The sum depends only on the sizes of the sets it adds up. */
  lemma {:induction false} SizeSumSame(f1: map<int, set<int>>, f2: map<int, set<int>>, s: set<int>)
    requires s <= f1.Keys && s <= f2.Keys
    requires forall x | x in s :: |f1[x]| == |f2[x]|
    ensures SizeSum(f1, s) == SizeSum(f2, s)
    decreases |s|
  {
    if s != {} {
      SizeSumSame(f1, f2, s - {Minimum(s)});
    }
  }

  /** One more vertex brings its neighbours. */
  lemma AroundAdd(nb: Graph, done: set<int>, i: int)
    requires i in nb
    ensures Around(nb, done + {i}) == Around(nb, done) + nb[i]
  {
    forall j | j in nb[i]
      ensures j in Around(nb, done + {i})
    {
      assert i in done + {i};
    }
  }

  /** One more candidate adds itself to the ties of i when isEdge joins them. */
  lemma TiesAdd(edges: set<Edge>, i: int, done: set<int>, j: int)
    requires j !in done
    ensures |Ties(edges, i, done + {j})| == |Ties(edges, i, done)| + if Linked(edges, i, j) then 1 else 0
  {
    assert Ties(edges, i, done + {j}) == Ties(edges, i, done) + if Linked(edges, i, j) then {j} else {};
  }

  /** One more vertex adds its count to the sum. */
  lemma SizeSumAdd(f: map<int, set<int>>, done: set<int>, i: int)
    requires done + {i} <= f.Keys && i !in done
    ensures SizeSum(f, done + {i}) == SizeSum(f, done) + |f[i]|
  {
    SizeSumSplit(f, done + {i}, i);
    assert done + {i} - {i} == done;
  }

  /**
   * While the lists agree with the edge set, isEdge from a vertex into a set
   * holding all its neighbours hits exactly its neighbours.
   */
  lemma TiesAreNeighbors(adj: map<int, seq<Edge>>, edges: set<Edge>, i: int, within: set<int>)
    requires WellFormed(adj, edges) && Agrees(adj, edges) && i in adj
    requires OtherEnds(adj[i], i) <= within
    ensures Ties(edges, i, within) == OtherEnds(adj[i], i)
  {
    ListsClosed(adj, edges);
    forall j | j in within && Linked(edges, i, j)
      ensures j in OtherEnds(adj[i], i)
    {
      assert Key(Edge(j, i)) == Key(Edge(i, j));
    }
  }

  /**
   * While the lists agree with the edge set, the a_i and a_j counts are the
   * total degrees of the two communities.
   */
  lemma GainByDegrees(adj: map<int, seq<Edge>>, edges: set<Edge>, m: int, I: set<int>, J: set<int>)
    requires WellFormed(adj, edges) && Agrees(adj, edges) && m > 0
    requires I <= adj.Keys && J <= adj.Keys
    ensures var nb := NeighborMap(adj);
      Gain(edges, nb, m, I, J) == DeltaQ(|CrossEdges(edges, I, J)|, Volume(nb, I), Volume(nb, J), m)
  {
    var nb := NeighborMap(adj);
    DegreesCounted(adj, edges, I);
    DegreesCounted(adj, edges, J);
  }

  lemma DegreesCounted(adj: map<int, seq<Edge>>, edges: set<Edge>, s: set<int>)
    requires WellFormed(adj, edges) && Agrees(adj, edges) && s <= adj.Keys
    ensures TieSum(edges, s, Around(NeighborMap(adj), s)) == Volume(NeighborMap(adj), s)
  {
    var nb := NeighborMap(adj);
    var within := Around(nb, s);
    var f := map i | i in s :: Ties(edges, i, within);
    forall x | x in s
      ensures |f[x]| == |nb[x]|
    {
      assert nb[x] <= within;
      TiesAreNeighbors(adj, edges, x, within);
    }
    SizeSumSame(f, nb, s);
  }

  /** Merging I into J changes modularity as much as merging J into I. */
  lemma GainSymmetric(edges: set<Edge>, nb: Graph, m: int, I: set<int>, J: set<int>)
    requires m > 0
    ensures Gain(edges, nb, m, I, J) == Gain(edges, nb, m, J, I)
  {
    assert CrossEdges(edges, I, J) == CrossEdges(edges, J, I);
  }

  /** dQ of FastNewman.java, the one operation of a FastNewman, on the graph it was made with. */
  class FastNewman {
    const inputGraph: CapGraph

    constructor (graph: CapGraph)
      ensures inputGraph == graph
    {
      inputGraph := graph;
    }

    /**
     * The change in modularity on merging the communities listed by commI
     * and commJ; repeated labels do not count twice and the graph is only read.
     */
    method DQ(commI: seq<int>, commJ: seq<int>) returns (deltaQ: real)
      requires inputGraph.Valid() && inputGraph.numEdges > 0
      requires forall x | x in commI :: x in inputGraph.graphNodes
      requires forall x | x in commJ :: x in inputGraph.graphNodes
      ensures deltaQ == Gain(inputGraph.graphEdges, inputGraph.Snapshot(), inputGraph.numEdges, Listed(commI), Listed(commJ))
    {
      var g := inputGraph;
      ghost var nb := g.Snapshot();
      g.SnapshotAbstracts();
      var eij, ai, aj := Counts(g, nb, commI, commJ);
      deltaQ := DeltaQ(eij, ai, aj, g.GetNumEdges());
    }
  }

  /** The three counts of dQ, before they are divided by 2 numEdges. */
  method Counts(g: CapGraph, ghost nb: Graph, commI: seq<int>, commJ: seq<int>) returns (eij: int, ai: int, aj: int)
    requires g.Valid() && g.Abstracts(nb)
    requires forall x | x in commI :: x in g.graphNodes
    requires forall x | x in commJ :: x in g.graphNodes
    ensures eij == |CrossEdges(g.graphEdges, Listed(commI), Listed(commJ))|
    ensures ai == TieSum(g.graphEdges, Listed(commI), Around(nb, Listed(commI)))
    ensures aj == TieSum(g.graphEdges, Listed(commJ), Around(nb, Listed(commJ)))
  {
    var idSetI := Listed(commI);
    var idSetJ := Listed(commJ);
    ListedWithin(commI, g.graphNodes.Keys);
    ListedWithin(commJ, g.graphNodes.Keys);
    eij := CountCross(g, idSetI, idSetJ);
    var setI := Reached(g, nb, idSetI);
    var setJ := Reached(g, nb, idSetJ);
    ai := CountTies(g, idSetI, setI, idSetJ);
    aj := CountTies(g, idSetJ, setJ, idSetI);
  }

  lemma ListedWithin(s: seq<int>, keys: set<int>)
    requires forall x | x in s :: x in keys
    ensures Listed(s) <= keys
  {
    forall x | x in Listed(s)
      ensures x in keys
    {
      assert x in s;
    }
  }

  /** (a, b) is a pair the e loop has met: one of done × J, or (i, b) with b in doneJ. */
  predicate Met(done: set<int>, J: set<int>, i: int, doneJ: set<int>, a: int, b: int) {
    (a in done && b in J) || (a == i && b in doneJ)
  }

  /** trackSet holds every pair met so far, in both orders, and nothing else. */
  ghost predicate Tracked(track: set<(int, int)>, done: set<int>, J: set<int>, i: int, doneJ: set<int>) {
    forall a, b :: (a, b) in track <==> Met(done, J, i, doneJ, a, b) || Met(done, J, i, doneJ, b, a)
  }

  /**
   * The e count: every pair of I × J is looked at once, skipped when it or
   * its reverse was met before, and otherwise counted when isEdge holds.
   * Pairs are tracked as pairs, so each stored edge between I and J is
   * counted exactly once.
   */
  method CountCross(g: CapGraph, idSetI: set<int>, idSetJ: set<int>) returns (eij: int)
    requires forall k | k in g.graphEdges :: k == Key(k)
    ensures eij == |CrossEdges(g.graphEdges, idSetI, idSetJ)|
  {
    eij := 0;
    var trackSet: set<(int, int)> := {};
    ghost var done: set<int> := {};
    var restI := idSetI;
    while restI != {}
      invariant restI + done == idSetI && restI !! done
      invariant Tracked(trackSet, done, idSetJ, 0, {})
      invariant eij == |CrossEdges(g.graphEdges, done, idSetJ)|
      decreases |restI|
    {
      if forall x :: x !in restI {
        assert false;
      }
      var i :| i in restI;
      trackSet, eij := MeetRow(g, trackSet, eij, done, idSetJ, i);
      done := done + {i};
      restI := restI - {i};
    }
  }

  /** One pass of the outer loop of the e count: the pairs (i, j) for every j of J. */
  method MeetRow(g: CapGraph, trackSet: set<(int, int)>, eij: int, ghost done: set<int>, idSetJ: set<int>, i: int)
    returns (trackSet': set<(int, int)>, eij': int)
    requires forall k | k in g.graphEdges :: k == Key(k)
    requires Tracked(trackSet, done, idSetJ, 0, {}) && i !in done
    requires eij == |CrossEdges(g.graphEdges, done, idSetJ)|
    ensures Tracked(trackSet', done + {i}, idSetJ, 0, {})
    ensures eij' == |CrossEdges(g.graphEdges, done + {i}, idSetJ)|
  {
    trackSet', eij' := trackSet, eij;
    ghost var doneJ: set<int> := {};
    var restJ := idSetJ;
    while restJ != {}
      invariant restJ + doneJ == idSetJ && restJ !! doneJ
      invariant Tracked(trackSet', done, idSetJ, i, doneJ)
      invariant eij' == |MetEdges(g.graphEdges, done, idSetJ, i, doneJ)|
      decreases |restJ|
    {
      if forall x :: x !in restJ {
        assert false;
      }
      var j :| j in restJ;
      trackSet', eij' := MeetPair(g, trackSet', eij', done, idSetJ, i, doneJ, j);
      doneJ := doneJ + {j};
      restJ := restJ - {j};
    }
    CrossRow(g.graphEdges, trackSet', done, idSetJ, i);
  }

  /** The edges met so far: those between the rows done and J, and those from i into doneJ. */
  ghost function MetEdges(edges: set<Edge>, done: set<int>, J: set<int>, i: int, doneJ: set<int>): set<Edge> {
    CrossEdges(edges, done, J) + CrossEdges(edges, {i}, doneJ)
  }

  /**
   * One pass of the inner loop of the e count: the pair (i, j) is skipped
   * when it or its reverse is tracked, and otherwise tracked both ways and
   * counted when isEdge holds.
   */
  method MeetPair(g: CapGraph, trackSet: set<(int, int)>, eij: int, ghost done: set<int>, ghost J: set<int>,
                  i: int, ghost doneJ: set<int>, j: int)
    returns (trackSet': set<(int, int)>, eij': int)
    requires forall k | k in g.graphEdges :: k == Key(k)
    requires Tracked(trackSet, done, J, i, doneJ) && i !in done && j in J && j !in doneJ
    requires eij == |MetEdges(g.graphEdges, done, J, i, doneJ)|
    ensures Tracked(trackSet', done, J, i, doneJ + {j})
    ensures eij' == |MetEdges(g.graphEdges, done, J, i, doneJ + {j})|
  {
    ghost var edges := g.graphEdges;
    CrossStep(edges, done, J, i, doneJ, j);
    trackSet', eij' := trackSet, eij;
    if (i, j) in trackSet || (j, i) in trackSet {
      SeenPair(edges, trackSet, done, J, i, doneJ, j);
    } else {
      FreshPair(edges, trackSet, done, J, i, doneJ, j);
      trackSet' := trackSet + {(i, j), (j, i)};
      if g.IsEdge(i, j) {
        eij' := eij + 1;
      }
    }
  }

  /** Meeting (i, j) adds the key of i and j to the edges met, when it is stored. */
  lemma CrossStep(edges: set<Edge>, done: set<int>, J: set<int>, i: int, doneJ: set<int>, j: int)
    requires forall k | k in edges :: k == Key(k)
    ensures MetEdges(edges, done, J, i, doneJ + {j})
         == MetEdges(edges, done, J, i, doneJ) + (if Linked(edges, i, j) then {Key(Edge(i, j))} else {})
  {
    assert Key(Edge(j, i)) == Key(Edge(i, j));
    assert CrossEdges(edges, {i}, doneJ + {j})
        == CrossEdges(edges, {i}, doneJ) + (if Linked(edges, i, j) then {Key(Edge(i, j))} else {});
  }

  /** A row of the outer loop finished: i joins the rows done. */
  lemma CrossRow(edges: set<Edge>, track: set<(int, int)>, done: set<int>, J: set<int>, i: int)
    requires Tracked(track, done, J, i, J)
    ensures MetEdges(edges, done, J, i, J) == CrossEdges(edges, done + {i}, J)
    ensures Tracked(track, done + {i}, J, 0, {})
  {
  }

  /** A pair already met, in either order, has its key among the edges met if it is stored. */
  lemma SeenPair(edges: set<Edge>, track: set<(int, int)>, done: set<int>, J: set<int>, i: int, doneJ: set<int>, j: int)
    requires forall k | k in edges :: k == Key(k)
    requires Tracked(track, done, J, i, doneJ) && i !in done && j in J
    requires (i, j) in track || (j, i) in track
    ensures Linked(edges, i, j) ==> Key(Edge(i, j)) in MetEdges(edges, done, J, i, doneJ)
  {
    assert Key(Edge(j, i)) == Key(Edge(i, j));
  }

  /** A pair not met in either order has its key outside the edges met. */
  lemma FreshPair(edges: set<Edge>, track: set<(int, int)>, done: set<int>, J: set<int>, i: int, doneJ: set<int>, j: int)
    requires Tracked(track, done, J, i, doneJ) && i !in done && j !in doneJ
    requires (i, j) !in track && (j, i) !in track
    ensures Key(Edge(i, j)) !in MetEdges(edges, done, J, i, doneJ)
    ensures Tracked(track + {(i, j), (j, i)}, done, J, i, doneJ + {j})
  {
  }

  /** setI: every neighbour of a vertex of the community, through getNeighbors. */
  method Reached(g: CapGraph, ghost nb: Graph, ids: set<int>) returns (around: set<int>)
    requires g.Abstracts(nb) && ids <= g.graphNodes.Keys
    ensures around == Around(nb, ids)
  {
    around := {};
    ghost var done: set<int> := {};
    var rest := ids;
    while rest != {}
      invariant rest + done == ids && rest !! done
      invariant around == Around(nb, done)
      decreases |rest|
    {
      if forall x :: x !in rest {
        assert false;
      }
      var i :| i in rest;
      var neighbors := g.GetNeighbors(i);
      AroundAdd(nb, done, i);
      around := around + neighbors;
      done := done + {i};
      rest := rest - {i};
    }
  }

  /**
   * a_i: for every vertex of the community and every vertex of its
   * neighbourhood, one for each isEdge that holds. Both branches of the
   * test against the other community add the same.
   */
  method CountTies(g: CapGraph, ids: set<int>, within: set<int>, other: set<int>) returns (a: int)
    ensures a == TieSum(g.graphEdges, ids, within)
  {
    ghost var f := map i | i in ids :: Ties(g.graphEdges, i, within);
    a := 0;
    ghost var done: set<int> := {};
    var rest := ids;
    while rest != {}
      invariant rest + done == ids && rest !! done
      invariant a == SizeSum(f, done)
      decreases |rest|
    {
      if forall x :: x !in rest {
        assert false;
      }
      var i :| i in rest;
      a := TiesRow(g, a, i, within, other);
      SizeSumAdd(f, done, i);
      done := done + {i};
      rest := rest - {i};
    }
  }

  /** One pass of the outer loop of a_i: one for each vertex of within that isEdge joins to i. */
  method TiesRow(g: CapGraph, a: int, i: int, within: set<int>, other: set<int>) returns (a': int)
    ensures a' == a + |Ties(g.graphEdges, i, within)|
  {
    a' := a;
    ghost var doneJ: set<int> := {};
    var restJ := within;
    while restJ != {}
      invariant restJ + doneJ == within && restJ !! doneJ
      invariant a' == a + |Ties(g.graphEdges, i, doneJ)|
      decreases |restJ|
    {
      if forall x :: x !in restJ {
        assert false;
      }
      var j :| j in restJ;
      TiesAdd(g.graphEdges, i, doneJ, j);
      if j in other {
        a' := a' + if g.IsEdge(i, j) then 1 else 0;
      } else {
        a' := a' + if g.IsEdge(i, j) then 1 else 0;
      }
      doneJ := doneJ + {j};
      restJ := restJ - {j};
    }
  }
}

/**
 * The e count of dQ as written: trackSet holds the text of i followed by the
 * text of j, so two different pairs can share a key ("1" + "23" and "12" +
 * "3" are both "123") and the later one is then skipped. The loops are
 * walked in given orders xs and ys, since what is skipped depends on them.
 */
module TrackKeys {
  import opened Edges
  import opened Iteration
  import opened CapGraphs
  import opened FastNewmans

  /** The decimal digits of n, most significant first, as Integer.toString writes them. */
  function Digits(n: nat): (r: string)
    ensures |r| > 0 && forall c | c in r :: '0' <= c <= '9'
    decreases n
  {
    if n < 10 then ["0123456789"[n]] else Digits(n / 10) + ["0123456789"[n % 10]]
  }

  /** What string concatenation writes for an int: its digits, after a minus sign when it is negative. */
  function IntText(n: int): string {
    if n < 0 then "-" + Digits(-n) else Digits(n)
  }

  /** The trackSet entry for the pair (i, j): the text of i followed by the text of j. */
  function TrackKey(i: int, j: int): string {
    IntText(i) + IntText(j)
  }

  /** The inner loop as written, for one i over the labels ys, from the tracked keys and the count so far. */
  function RowAsWritten(edges: set<Edge>, i: int, ys: seq<int>, track: set<string>, count: int): (set<string>, int)
    decreases |ys|
  {
    if ys == [] then (track, count)
    else
      var j := ys[0];
      if TrackKey(i, j) in track || TrackKey(j, i) in track then RowAsWritten(edges, i, ys[1..], track, count)
      else
        RowAsWritten(edges, i, ys[1..], track + {TrackKey(i, j), TrackKey(j, i)},
                     count + if Linked(edges, i, j) then 1 else 0)
  }

  /** The outer loop as written, over the labels xs. */
  function CrossAsWritten(edges: set<Edge>, xs: seq<int>, ys: seq<int>, track: set<string>, count: int): (set<string>, int)
    decreases |xs|
  {
    if xs == [] then (track, count)
    else
      var row := RowAsWritten(edges, xs[0], ys, track, count);
      CrossAsWritten(edges, xs[1..], ys, row.0, row.1)
  }

  /** The e count as written, walking idSet_I in the order xs and idSet_J in the order ys. */
  function CountAsWritten(edges: set<Edge>, xs: seq<int>, ys: seq<int>): int {
    CrossAsWritten(edges, xs, ys, {}, 0).1
  }

  /** No two pairs of labels of U have the same key. */
  ghost predicate TextsDistinct(U: set<int>) {
    forall a, b, c, d | a in U && b in U && c in U && d in U :: TrackKey(a, b) == TrackKey(c, d) ==> a == c && b == d
  }

  /** The keys of a set of pairs. */
  ghost function TextKeys(P: set<(int, int)>): set<string> {
    set p | p in P :: TrackKey(p.0, p.1)
  }

  /** The pairs met after the rows done and the columns doneJ of row i, in both orders. */
  ghost function MetPairs(done: set<int>, J: set<int>, i: int, doneJ: set<int>): set<(int, int)> {
    var U := done + J + {i};
    set a, b | a in U && b in U && (Met(done, J, i, doneJ, a, b) || Met(done, J, i, doneJ, b, a)) :: (a, b)
  }

  lemma MetPairsTracked(done: set<int>, J: set<int>, i: int, doneJ: set<int>)
    requires doneJ <= J
    ensures Tracked(MetPairs(done, J, i, doneJ), done, J, i, doneJ)
  {
  }

  /** Meeting (i, j) adds it in both orders. */
  lemma MetPairsAdd(done: set<int>, J: set<int>, i: int, doneJ: set<int>, j: int)
    requires doneJ <= J && j in J
    ensures MetPairs(done, J, i, doneJ + {j}) == MetPairs(done, J, i, doneJ) + {(i, j), (j, i)}
  {
  }

  /** A row starts with nothing of it met. */
  lemma RowStart(edges: set<Edge>, done: set<int>, J: set<int>, i: int)
    ensures MetPairs(done, J, 0, {}) == MetPairs(done, J, i, {})
    ensures CrossEdges(edges, done, J) == MetEdges(edges, done, J, i, {})
  {
  }

  /** Without repeats, the tail of a list holds all but its head. */
  lemma ListedTail(s: seq<int>)
    requires NoDuplicates(s) && s != []
    ensures Listed(s[1..]) == Listed(s) - {s[0]}
  {
    forall x | x in Listed(s) && x != s[0]
      ensures x in Listed(s[1..])
    {
      var n :| 0 <= n < |s| && s[n] == x;
      assert s[1..][n - 1] == x;
    }
    forall x | x in Listed(s[1..])
      ensures x != s[0]
    {
      var n :| 0 <= n < |s[1..]| && s[1..][n] == x;
      assert s[n + 1] == x;
    }
  }

  /** A finished row joins the rows done. */
  lemma MetPairsRow(done: set<int>, J: set<int>, i: int)
    ensures MetPairs(done, J, i, J) == MetPairs(done + {i}, J, 0, {})
  {
  }

  /** While the keys of U are distinct, a key of pairs of U is tracked exactly when its pair is. */
  lemma TextKeysIn(P: set<(int, int)>, U: set<int>, a: int, b: int)
    requires TextsDistinct(U) && a in U && b in U
    requires forall p | p in P :: p.0 in U && p.1 in U
    ensures TrackKey(a, b) in TextKeys(P) <==> (a, b) in P
  {
    if TrackKey(a, b) in TextKeys(P) {
      var p :| p in P && TrackKey(p.0, p.1) == TrackKey(a, b);
    }
  }

  /** One step of the inner loop as written tracks what the pair-keyed loop tracks. */
  lemma StepAsWritten(edges: set<Edge>, U: set<int>, track: set<string>, count: int,
                      done: set<int>, J: set<int>, i: int, doneJ: set<int>, j: int)
    requires forall k | k in edges :: k == Key(k)
    requires TextsDistinct(U) && done + J + {i} <= U
    requires i !in done && j in J && j !in doneJ && doneJ <= J
    requires track == TextKeys(MetPairs(done, J, i, doneJ)) && count == |MetEdges(edges, done, J, i, doneJ)|
    ensures var skip := TrackKey(i, j) in track || TrackKey(j, i) in track;
      var track' := if skip then track else track + {TrackKey(i, j), TrackKey(j, i)};
      var count' := if skip then count else count + if Linked(edges, i, j) then 1 else 0;
      track' == TextKeys(MetPairs(done, J, i, doneJ + {j})) && count' == |MetEdges(edges, done, J, i, doneJ + {j})|
  {
    var P := MetPairs(done, J, i, doneJ);
    MetPairsTracked(done, J, i, doneJ);
    MetPairsAdd(done, J, i, doneJ, j);
    TextKeysIn(P, U, i, j);
    TextKeysIn(P, U, j, i);
    CrossStep(edges, done, J, i, doneJ, j);
    if (i, j) in P || (j, i) in P {
      SeenPair(edges, P, done, J, i, doneJ, j);
      assert (i, j) in P && (j, i) in P;
      assert MetPairs(done, J, i, doneJ + {j}) == P;
    } else {
      FreshPair(edges, P, done, J, i, doneJ, j);
      assert TextKeys(P + {(i, j), (j, i)}) == track + {TrackKey(i, j), TrackKey(j, i)};
    }
  }

  lemma {:induction false} RowAsWrittenCounts(edges: set<Edge>, U: set<int>, track: set<string>, count: int,
                                              done: set<int>, J: set<int>, i: int, doneJ: set<int>, ys: seq<int>)
    requires forall k | k in edges :: k == Key(k)
    requires TextsDistinct(U) && done + J + {i} <= U && i !in done
    requires NoDuplicates(ys) && doneJ + Listed(ys) == J && doneJ !! Listed(ys)
    requires track == TextKeys(MetPairs(done, J, i, doneJ)) && count == |MetEdges(edges, done, J, i, doneJ)|
    ensures var row := RowAsWritten(edges, i, ys, track, count);
      row.0 == TextKeys(MetPairs(done, J, i, J)) && row.1 == |MetEdges(edges, done, J, i, J)|
    decreases |ys|
  {
    if ys != [] {
      var j := ys[0];
      assert j in Listed(ys);
      ListedTail(ys);
      StepAsWritten(edges, U, track, count, done, J, i, doneJ, j);
      var skip := TrackKey(i, j) in track || TrackKey(j, i) in track;
      var track' := if skip then track else track + {TrackKey(i, j), TrackKey(j, i)};
      var count' := if skip then count else count + if Linked(edges, i, j) then 1 else 0;
      RowAsWrittenCounts(edges, U, track', count', done, J, i, doneJ + {j}, ys[1..]);
    } else {
      assert doneJ == J;
    }
  }

  lemma {:induction false} CrossAsWrittenCounts(edges: set<Edge>, U: set<int>, track: set<string>, count: int,
                                                done: set<int>, J: set<int>, xs: seq<int>, ys: seq<int>)
    requires forall k | k in edges :: k == Key(k)
    requires TextsDistinct(U) && done + Listed(xs) + J <= U
    requires NoDuplicates(xs) && done !! Listed(xs)
    requires NoDuplicates(ys) && Listed(ys) == J
    requires track == TextKeys(MetPairs(done, J, 0, {})) && count == |CrossEdges(edges, done, J)|
    ensures CrossAsWritten(edges, xs, ys, track, count).1 == |CrossEdges(edges, done + Listed(xs), J)|
    decreases |xs|
  {
    if xs == [] {
      assert done + Listed(xs) == done;
    } else {
      var i := xs[0];
      assert i in Listed(xs);
      ListedTail(xs);
      RowStart(edges, done, J, i);
      RowAsWrittenCounts(edges, U, track, count, done, J, i, {}, ys);
      var row := RowAsWritten(edges, i, ys, track, count);
      MetPairsRow(done, J, i);
      CrossRow(edges, MetPairs(done, J, i, J), done, J, i);
      CrossAsWrittenCounts(edges, U, row.0, row.1, done + {i}, J, xs[1..], ys);
      assert done + {i} + Listed(xs[1..]) == done + Listed(xs);
    }
  }

  /**
   * While no two pairs of labels share a key, the count as written is the
   * number of stored edges between the two communities, whatever the order
   * of the loops.
   */
  lemma CountAsWrittenExact(edges: set<Edge>, xs: seq<int>, ys: seq<int>)
    requires forall k | k in edges :: k == Key(k)
    requires NoDuplicates(xs) && NoDuplicates(ys) && TextsDistinct(Listed(xs) + Listed(ys))
    ensures CountAsWritten(edges, xs, ys) == |CrossEdges(edges, Listed(xs), Listed(ys))|
  {
    assert MetPairs({}, Listed(ys), 0, {}) == {};
    CrossAsWrittenCounts(edges, Listed(xs) + Listed(ys), {}, 0, {}, Listed(ys), xs, ys);
    assert {} + Listed(xs) == Listed(xs);
  }

  /** The pairs (1, 23) and (12, 3) share the key "123". */
  lemma KeysCollide()
    ensures TrackKey(1, 23) == TrackKey(12, 3) == "123"
  {
  }

  /** The texts of the labels of the example below. */
  lemma ExampleTexts()
    ensures IntText(1) == "1" && IntText(3) == "3" && IntText(12) == "12" && IntText(23) == "23"
  {
  }

  /** The stored edges of the example: 1-23 and 3-12. */
  function ExampleEdges(): set<Edge> {
    {Edge(1, 23), Edge(3, 12)}
  }

  /** Row 1 of the example meets (1, 3) and (1, 23) and counts the edge 1-23. */
  lemma ExampleRowOne()
    ensures RowAsWritten(ExampleEdges(), 1, [3, 23], {}, 0) == ({"13", "31", "123", "231"}, 1)
  {
    var edges := ExampleEdges();
    ExampleTexts();
    var t1 := {"13", "31"};
    var t2 := t1 + {"123", "231"};
    assert RowAsWritten(edges, 1, [23], t1, 0) == (t2, 1) by {
      assert [23][1..] == [];
      assert TrackKey(1, 23) == "123" && TrackKey(23, 1) == "231";
      assert "123" !in t1 && "231" !in t1;
      assert Linked(edges, 1, 23);
    }
    assert [3, 23][1..] == [23];
    assert TrackKey(1, 3) == "13" && TrackKey(3, 1) == "31";
    var t: set<string> := {};
    assert t + {TrackKey(1, 3), TrackKey(3, 1)} == t1;
    assert !Linked(edges, 1, 3);
    assert t2 == {"13", "31", "123", "231"};
  }

  /** Row 12 of the example skips (12, 3), whose key "123" row 1 already tracked. */
  lemma ExampleRowTwelve()
    ensures var t2 := {"13", "31", "123", "231"};
      RowAsWritten(ExampleEdges(), 12, [3, 23], t2, 1) == (t2 + {"1223", "2312"}, 1)
  {
    var edges := ExampleEdges();
    ExampleTexts();
    var t2 := {"13", "31", "123", "231"};
    var t3 := t2 + {"1223", "2312"};
    assert RowAsWritten(edges, 12, [23], t2, 1) == (t3, 1) by {
      assert [23][1..] == [];
      assert TrackKey(12, 23) == "1223" && TrackKey(23, 12) == "2312";
      assert "1223" !in t2 && "2312" !in t2;
      assert !Linked(edges, 12, 23);
    }
    assert [3, 23][1..] == [23];
    assert TrackKey(12, 3) == "123";
  }

  /**
   * With edges 1-23 and 3-12 and communities {1, 12} and {3, 23} walked in
   * ascending order, the count as written is 1 while two stored edges join
   * the communities: (12, 3) is skipped because (1, 23) already produced "123".
   */
  lemma CountAsWrittenMissesEdge()
    ensures |CrossEdges(ExampleEdges(), {1, 12}, {3, 23})| == 2
    ensures CountAsWritten(ExampleEdges(), [1, 12], [3, 23]) == 1
  {
    assert CrossEdges(ExampleEdges(), {1, 12}, {3, 23}) == ExampleEdges();
    ExampleRowOne();
    ExampleRowTwelve();
    assert [1, 12][1..] == [12] && [12][1..] == [];
  }
}
