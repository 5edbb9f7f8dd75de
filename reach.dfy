/**
 * Paths and reachability in a graph given as the successor set of every
 * vertex: the vocabulary in which the strongly connected components that
 * getSCCs returns are specified.
 */
module Reach {

  /** Each vertex with the set of its successors. */
  type Graph = map<int, set<int>>

  /** Every successor is itself a vertex. */
  ghost predicate Closed(g: Graph) {
    forall v | v in g :: g[v] <= g.Keys
  }

  /** p is a non-empty walk along the edges of g. */
  ghost predicate IsPath(g: Graph, p: seq<int>) {
    |p| > 0 && forall i | 0 <= i < |p| - 1 :: p[i] in g && p[i + 1] in g[p[i]]
  }

  /** b can be reached from a by following zero or more edges. */
  ghost predicate Reaches(g: Graph, a: int, b: int) {
    exists p :: IsPath(g, p) && p[0] == a && p[|p| - 1] == b
  }

  /** rg is g with every edge turned around. */
  ghost predicate IsReverse(g: Graph, rg: Graph) {
    && rg.Keys == g.Keys
    && (forall v | v in rg :: rg[v] <= rg.Keys)
    && (forall u, v | u in g && v in g :: v in g[u] <==> u in rg[v])
  }

  /** An edge u -> v of g is an edge v -> u of its reverse. */
  lemma ReverseEdge(g: Graph, rg: Graph, u: int, v: int)
    requires IsReverse(g, rg) && u in g && v in g && v in g[u]
    ensures u in rg[v]
  {
  }

  lemma ReachesRefl(g: Graph, a: int)
    ensures Reaches(g, a, a)
  {
    assert IsPath(g, [a]);
  }

  lemma ReachesEdge(g: Graph, a: int, b: int)
    requires a in g && b in g[a]
    ensures Reaches(g, a, b)
  {
    assert IsPath(g, [a, b]);
  }

  lemma {:induction false} ReachesTrans(g: Graph, a: int, b: int, c: int)
    requires Reaches(g, a, b) && Reaches(g, b, c)
    ensures Reaches(g, a, c)
  {
    var p :| IsPath(g, p) && p[0] == a && p[|p| - 1] == b;
    var q :| IsPath(g, q) && q[0] == b && q[|q| - 1] == c;
    var r := p + q[1..];
    forall i | 0 <= i < |r| - 1
      ensures r[i] in g && r[i + 1] in g[r[i]]
    {
      if i < |p| - 1 {
        assert r[i] == p[i] && r[i + 1] == p[i + 1];
      } else {
        assert r[i] == q[i - |p| + 1] && r[i + 1] == q[i - |p| + 2];
      }
    }
    assert IsPath(g, r) && r[0] == a && r[|r| - 1] == c;
  }

  /** A walk in the reversed graph, read backwards, is a walk in g. */
  lemma {:induction false} ReverseReaches(g: Graph, rg: Graph, a: int, b: int)
    requires IsReverse(g, rg) && Reaches(rg, a, b)
    ensures Reaches(g, b, a)
  {
    var p :| IsPath(rg, p) && p[0] == a && p[|p| - 1] == b;
    var n := |p|;
    var r := seq(n, i requires 0 <= i < n => p[n - 1 - i]);
    forall i | 0 <= i < n - 1
      ensures r[i] in g && r[i + 1] in g[r[i]]
    {
      var k := n - 2 - i;
      assert p[k] in rg && p[k + 1] in rg[p[k]];
      assert r[i] == p[k + 1] && r[i + 1] == p[k];
    }
    assert IsPath(g, r) && r[0] == b && r[n - 1] == a;
  }

  /** A vertex set that contains every predecessor of each of its members. */
  ghost predicate PredClosed(g: Graph, s: set<int>) {
    forall y, x | y in g && x in g[y] && x in s :: y in s
  }

  lemma PredStep(g: Graph, s: set<int>, y: int, x: int)
    requires PredClosed(g, s) && y in g && x in g[y] && x in s
    ensures y in s
  {
  }

  /** Everything that reaches a predecessor-closed set lies in it. */
  lemma {:induction false} PredClosedReach(g: Graph, s: set<int>, y: int, x: int)
    requires PredClosed(g, s) && Reaches(g, y, x) && x in s
    ensures y in s
  {
    var p :| IsPath(g, p) && p[0] == y && p[|p| - 1] == x;
    PredClosedPath(g, s, p);
  }

  lemma {:induction false} PredClosedPath(g: Graph, s: set<int>, p: seq<int>)
    requires PredClosed(g, s) && IsPath(g, p) && p[|p| - 1] in s
    ensures p[0] in s
    decreases |p|
  {
    if |p| > 1 {
      var q := p[1..];
      assert IsPath(g, q) by {
        forall i | 0 <= i < |q| - 1
          ensures q[i] in g && q[i + 1] in g[q[i]]
        {
          assert q[i] == p[i + 1] && q[i + 1] == p[i + 2];
        }
      }
      assert q[0] == p[1] && q[|q| - 1] == p[|p| - 1];
      PredClosedPath(g, s, q);
      PredStep(g, s, p[0], p[1]);
    } else {
      assert p[|p| - 1] == p[0];
    }
  }
}
