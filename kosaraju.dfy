/**
 * The two depth-first passes of getSCCs, stated on values. The first pass
 * visits every vertex and records the order in which the visits finish;
 * the second pass walks the reversed graph, taking the unvisited vertex
 * that finished last as the root of each new tree. The lemmas here are the
 * invariants those passes keep and the reason each tree is a strongly
 * connected component.
 */
module Kosaraju {
  import opened Reach

  /** The vertices visited but not yet finished: the current recursion stack. */
  ghost function Gray(visited: set<int>, finished: seq<int>): set<int> {
    set x | x in visited && x !in finished
  }

  /** u reaches a vertex that finished after finished[j]. */
  ghost predicate LaterReached(g: Graph, finished: seq<int>, u: int, j: int) {
    exists k | 0 <= k < |finished| && j < k :: Reaches(g, u, finished[k])
  }

  /** u reaches a vertex that is still on the recursion stack. */
  ghost predicate GrayReached(g: Graph, gray: set<int>, u: int) {
    exists x | x in gray :: Reaches(g, u, x)
  }

  /**
   * The finishing order: when an earlier-finished vertex reaches a later one,
   * either the later one reaches back, or the earlier one also reaches a
   * vertex finished later still, or one still on the stack.
   */
  ghost predicate FinishOrder(g: Graph, finished: seq<int>, gray: set<int>) {
    forall i, j | 0 <= i < |finished| && 0 <= j < |finished| && Reaches(g, finished[i], finished[j]) ::
      || Reaches(g, finished[j], finished[i])
      || LaterReached(g, finished, finished[i], j)
      || GrayReached(g, gray, finished[i])
  }

  /** What the first pass keeps: visited vertices, each finished once, closed successors, the order. */
  ghost predicate FirstPass(g: Graph, visited: set<int>, finished: seq<int>) {
    && visited <= g.Keys
    && (forall x | x in finished :: x in visited && g[x] <= visited)
    && (forall i, j | 0 <= i < j < |finished| :: finished[i] != finished[j])
    && FinishOrder(g, finished, Gray(visited, finished))
  }

  /** Visiting one more vertex shrinks the set of unvisited vertices: the depth-first recursion terminates. */
  lemma GapShrinks(k: set<int>, a: set<int>, b: set<int>, v: int)
    requires a + {v} <= b && v in k && v !in a
    ensures |k - b| < |k - a|
  {
    assert k - b <= (k - a) - {v};
    assert |(k - a) - {v}| == |k - a| - 1;
    SubsetCard(k - b, (k - a) - {v});
  }

  lemma {:induction false} SubsetCard(a: set<int>, b: set<int>)
    requires a <= b
    ensures |a| <= |b|
    decreases |b|
  {
    if a != {} {
      if forall x :: x !in a {
        assert false;
      }
      var x :| x in a;
      SubsetCard(a - {x}, b - {x});
    }
  }

  /** Growing a tree twice: the vertices added by both steps. */
  lemma GrowTwice(base: set<int>, a: set<int>, b: set<int>, c: set<int>)
    requires a <= b <= c
    ensures (base + (b - a)) + (c - b) == base + (c - a)
    ensures (c - a) == (b - a) + (c - b)
  {
  }

  /** A prefix of a prefix is a prefix. */
  lemma PrefixOfPrefix(a: seq<int>, b: seq<int>, c: seq<int>)
    requires |a| <= |b| <= |c| && b[..|a|] == a && c[..|b|] == b
    ensures c[..|a|] == a
  {
    assert c[..|a|] == c[..|b|][..|a|];
  }

  lemma FirstPassStart(g: Graph)
    ensures FirstPass(g, {}, [])
  {
  }

  /** Visiting a new vertex puts it on the stack and keeps the first-pass state. */
  lemma Discover(g: Graph, visited: set<int>, finished: seq<int>, v: int)
    requires FirstPass(g, visited, finished) && v in g && v !in visited
    ensures Gray(visited + {v}, finished) == Gray(visited, finished) + {v}
    ensures FirstPass(g, visited + {v}, finished)
  {
    var gray, gray' := Gray(visited, finished), Gray(visited + {v}, finished);
    forall i, j | 0 <= i < |finished| && 0 <= j < |finished| && Reaches(g, finished[i], finished[j])
      ensures || Reaches(g, finished[j], finished[i])
              || LaterReached(g, finished, finished[i], j)
              || GrayReached(g, gray', finished[i])
    {
      if GrayReached(g, gray, finished[i]) {
        var x :| x in gray && Reaches(g, finished[i], x);
        assert x in gray';
      }
    }
  }

  /**
   * White-path argument: a finished vertex that reaches an unvisited one
   * reaches a vertex still on the stack.
   */
  lemma {:induction false} GrayOnPath(g: Graph, visited: set<int>, finished: seq<int>, u: int, y: int)
    requires FirstPass(g, visited, finished)
    requires u in finished && Reaches(g, u, y) && y !in visited
    ensures GrayReached(g, Gray(visited, finished), u)
  {
    var p :| IsPath(g, p) && p[0] == u && p[|p| - 1] == y;
    var done := set x | x in finished;
    var k := FirstExit(g, p, done);
    assert p[k - 1] in finished;
    assert p[k] in visited;
    var q := p[..k + 1];
    assert IsPath(g, q) by {
      forall i | 0 <= i < |q| - 1
        ensures q[i] in g && q[i + 1] in g[q[i]]
      {
        assert q[i] == p[i] && q[i + 1] == p[i + 1];
      }
    }
    assert Reaches(g, u, p[k]) by {
      assert q[0] == u && q[|q| - 1] == p[k];
    }
    assert p[k] in Gray(visited, finished);
  }

  /** The first step of a path that leaves the set s. */
  lemma {:induction false} FirstExit(g: Graph, p: seq<int>, s: set<int>) returns (k: int)
    requires IsPath(g, p) && p[0] in s && p[|p| - 1] !in s
    ensures 0 < k < |p| && p[k - 1] in s && p[k] !in s
    ensures p[k - 1] in g && p[k] in g[p[k - 1]]
    decreases |p|
  {
    if p[1] !in s {
      k := 1;
    } else {
      var q := p[1..];
      assert IsPath(g, q) by {
        forall i | 0 <= i < |q| - 1
          ensures q[i] in g && q[i + 1] in g[q[i]]
        {
          assert q[i] == p[i + 1] && q[i + 1] == p[i + 2];
        }
      }
      assert q[0] == p[1] && q[|q| - 1] == p[|p| - 1];
      var k' := FirstExit(g, q, s);
      k := k' + 1;
      assert p[k - 1] == q[k'- 1] && p[k] == q[k'];
    }
  }

  /**
   * Finishing v, whose successors are all visited: every finished vertex that
   * reaches v is reached back from v or reaches a vertex below v on the stack.
   */
  lemma Finish(g: Graph, visited: set<int>, finished: seq<int>, v: int, below: set<int>)
    requires FirstPass(g, visited, finished)
    requires v in visited && v !in finished && g[v] <= visited
    requires Gray(visited, finished) == below + {v} && v !in below
    requires forall i | 0 <= i < |finished| && Reaches(g, finished[i], v) ::
      Reaches(g, v, finished[i]) || GrayReached(g, below, finished[i])
    ensures Gray(visited, finished + [v]) == below
    ensures FirstPass(g, visited, finished + [v])
  {
    var f := finished + [v];
    var n := |finished|;
    assert forall x :: x in f <==> x in finished || x == v;
    forall i, j | 0 <= i < |f| && 0 <= j < |f| && Reaches(g, f[i], f[j])
      ensures || Reaches(g, f[j], f[i])
              || LaterReached(g, f, f[i], j)
              || GrayReached(g, below, f[i])
    {
      if i < n && j < n {
        assert f[i] == finished[i] && f[j] == finished[j];
        if LaterReached(g, finished, finished[i], j) {
          var k :| 0 <= k < n && j < k && Reaches(g, finished[i], finished[k]);
          assert f[k] == finished[k];
        } else if !Reaches(g, finished[j], finished[i]) {
          var x :| x in below + {v} && Reaches(g, finished[i], x);
          if x == v {
            assert f[n] == v;
          }
        }
      } else if i < n {
        assert f[i] == finished[i] && f[j] == v;
      } else if j < n {
        ReachesRefl(g, v);
        assert f[n] == v && f[i] == v;
      }
    }
  }

  /** C is a strongly connected component of g: mutually reachable and maximal. */
  ghost predicate IsComponent(g: Graph, c: set<int>) {
    && c != {}
    && (forall x, y | x in c && y in c :: Reaches(g, x, y))
    && (forall x, y | x in c && y in g && Reaches(g, x, y) && Reaches(g, y, x) :: y in c)
  }

  /**
   * One tree of the second pass: rooted at w, the unvisited vertex that
   * finished last, and made of the unvisited vertices w reaches in the
   * reversed graph, it is a strongly connected component, and the visited
   * set stays closed under predecessors.
   */
  lemma TreeIsComponent(g: Graph, rg: Graph, finished: seq<int>, v: set<int>, w2: set<int>, w: int, m: int)
    requires IsReverse(g, rg)
    requires FinishOrder(g, finished, {}) && forall x | x in g :: x in finished
    requires 0 < m <= |finished| && w == finished[m - 1] && w !in v && w in w2
    requires forall k | m <= k < |finished| :: finished[k] in v
    requires PredClosed(g, v) && v <= w2 && w2 <= g.Keys
    requires forall x | x in w2 - v :: Reaches(rg, w, x)
    requires forall x | x in w2 - v :: rg[x] <= w2
    ensures PredClosed(g, w2)
    ensures IsComponent(g, w2 - v)
  {
    var tree := w2 - v;
    forall y, x | y in g && x in g[y] && x in w2
      ensures y in w2
    {
      if x in v {
        PredStep(g, v, y, x);
      } else {
        assert y in rg[x];
      }
    }
    forall x | x in tree
      ensures Reaches(g, x, w) && Reaches(g, w, x)
    {
      ReverseReaches(g, rg, w, x);
      var i :| 0 <= i < |finished| && finished[i] == x;
      assert Reaches(g, finished[i], finished[m - 1]);
      if LaterReached(g, finished, x, m - 1) {
        var k :| 0 <= k < |finished| && m - 1 < k && Reaches(g, x, finished[k]);
        PredClosedReach(g, v, x, finished[k]);
        assert false;
      }
    }
    forall x, y | x in tree && y in tree
      ensures Reaches(g, x, y)
    {
      ReachesTrans(g, x, w, y);
    }
    forall x, y | x in tree && y in g && Reaches(g, x, y) && Reaches(g, y, x)
      ensures y in tree
    {
      if y in v {
        PredClosedReach(g, v, x, y);
        assert false;
      }
      ReachesTrans(g, y, x, w);
      var p :| IsPath(g, p) && p[0] == y && p[|p| - 1] == w;
      PathIntoTree(g, rg, v, w2, p);
    }
  }

  /** A path that starts outside v and ends in the tree w2 - v lies in the tree. */
  lemma {:induction false} PathIntoTree(g: Graph, rg: Graph, v: set<int>, w2: set<int>, p: seq<int>)
    requires IsReverse(g, rg) && PredClosed(g, v) && w2 <= g.Keys
    requires forall x | x in w2 - v :: rg[x] <= w2
    requires IsPath(g, p) && p[0] !in v && p[|p| - 1] in w2 - v
    ensures p[0] in w2
    decreases |p|
  {
    if |p| > 1 {
      var q := p[1..];
      assert IsPath(g, q) by {
        forall i | 0 <= i < |q| - 1
          ensures q[i] in g && q[i + 1] in g[q[i]]
        {
          assert q[i] == p[i + 1] && q[i + 1] == p[i + 2];
        }
      }
      assert p[0] in g && p[1] in g[p[0]];
      if p[1] in v {
        PredStep(g, v, p[0], p[1]);
      }
      assert q[0] == p[1] && q[|q| - 1] == p[|p| - 1];
      PathIntoTree(g, rg, v, w2, q);
      ReverseEdge(g, rg, p[0], p[1]);
    } else {
      assert p[|p| - 1] == p[0];
    }
  }

  /** The sets in comps are non-empty, pairwise disjoint and together make up s. */
  ghost predicate Partition(comps: seq<set<int>>, s: set<int>) {
    && (forall i | 0 <= i < |comps| :: comps[i] != {} && comps[i] <= s)
    && (forall i, j | 0 <= i < j < |comps| :: comps[i] !! comps[j])
    && (forall x | x in s :: exists i | 0 <= i < |comps| :: x in comps[i])
  }

  /** A new non-empty tree of fresh vertices extends the partition. */
  lemma PartitionGrow(comps: seq<set<int>>, s: set<int>, t: set<int>)
    requires Partition(comps, s) && t != {} && t !! s
    ensures Partition(comps + [t], s + t)
  {
    var c := comps + [t];
    forall x | x in s + t
      ensures exists i | 0 <= i < |c| :: x in c[i]
    {
      if x in s {
        var i :| 0 <= i < |comps| && x in comps[i];
        assert c[i] == comps[i];
      } else {
        assert c[|comps|] == t;
      }
    }
  }

  /** What the second pass starts from: the reversed graph and a complete finishing order of the first. */
  ghost predicate Ready(g: Graph, rg: Graph, finished: seq<int>) {
    IsReverse(g, rg) && FinishOrder(g, finished, {}) && forall x | x in g :: x in finished
  }

  /** What the second pass keeps: the visited set is closed under predecessors and every tree is a component. */
  ghost predicate Forest(g: Graph, visited: set<int>, comps: seq<set<int>>) {
    PredClosed(g, visited) && forall i | 0 <= i < |comps| :: IsComponent(g, comps[i])
  }

  /**
   * The state of the second pass after the finish stack has been popped down to m:
   * every popped vertex is visited, the trees partition the visited set and, when
   * the first pass finished every vertex, each tree is a component.
   */
  ghost predicate Pass(g: Graph, rg: Graph, finished: seq<int>, full: bool, m: int, visited: set<int>, comps: seq<set<int>>) {
    && 0 <= m <= |finished|
    && (forall k | m <= k < |finished| :: finished[k] in visited)
    && visited <= rg.Keys
    && Partition(comps, visited)
    && (full ==> Forest(g, visited, comps))
  }

  /** Popping an already visited vertex keeps the second-pass state. */
  lemma PassSkip(g: Graph, rg: Graph, finished: seq<int>, full: bool, m: int, visited: set<int>, comps: seq<set<int>>)
    requires 0 < m && Pass(g, rg, finished, full, m, visited, comps) && finished[m - 1] in visited
    ensures Pass(g, rg, finished, full, m - 1, visited, comps)
  {
  }

  /** Popping an unvisited vertex w and adding the tree w2 - v grown from it keeps the second-pass state. */
  lemma PassGrow(g: Graph, rg: Graph, finished: seq<int>, full: bool, m: int, v: set<int>, w2: set<int>, w: int, comps: seq<set<int>>)
    requires full ==> Ready(g, rg, finished)
    requires 0 < m && Pass(g, rg, finished, full, m, v, comps) && w == finished[m - 1] && w !in v
    requires v + {w} <= w2 && w2 - v <= rg.Keys
    requires forall x | x in w2 - v :: Reaches(rg, w, x)
    requires forall x | x in w2 - v :: rg[x] <= w2
    ensures Pass(g, rg, finished, full, m - 1, w2, comps + [w2 - v])
  {
    if full {
      ForestGrow(g, rg, finished, v, w2, w, m, comps);
    }
    assert w in w2 - v;
    PartitionGrow(comps, v, w2 - v);
    assert v + (w2 - v) == w2;
  }

  lemma ForestStart(g: Graph)
    ensures Forest(g, {}, [])
  {
  }

  /** Adding the tree rooted at the unvisited vertex that finished last keeps the second-pass state. */
  lemma ForestGrow(g: Graph, rg: Graph, finished: seq<int>, v: set<int>, w2: set<int>, w: int, m: int, comps: seq<set<int>>)
    requires Ready(g, rg, finished)
    requires 0 < m <= |finished| && w == finished[m - 1] && w !in v && w in w2
    requires forall k | m <= k < |finished| :: finished[k] in v
    requires Forest(g, v, comps) && v <= w2 && w2 <= g.Keys
    requires forall x | x in w2 - v :: Reaches(rg, w, x)
    requires forall x | x in w2 - v :: rg[x] <= w2
    ensures Forest(g, w2, comps + [w2 - v])
  {
    TreeIsComponent(g, rg, finished, v, w2, w, m);
    var c := comps + [w2 - v];
    forall i | 0 <= i < |c|
      ensures IsComponent(g, c[i])
    {
      if i < |comps| {
        assert c[i] == comps[i];
      }
    }
  }
}
