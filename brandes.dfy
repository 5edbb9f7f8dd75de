/**
 * The two phases that edgeBetweenness runs from every source vertex, on the
 * adjacency lists read as a value (nothing in the graph changes while the
 * scores are computed): a breadth-first search that gives each vertex its
 * depth, its number of shortest paths and its list of predecessors, and the
 * bottom-up pass that adds each shortest-path edge's share to the scores.
 */
module Brandes {
  import opened Edges
  import opened Iteration

  /** Each vertex with its adjacency list. */
  type Lists = map<int, seq<Edge>>

  /** The far ends of the entries of a list, picked as the search picks them. */
  function Ahead(s: seq<Edge>, v: int): set<int> {
    set e | e in s :: FarEnd(e, v)
  }

  /** No entry looked at yet: no far end. */
  lemma NothingAhead(s: seq<Edge>, v: int)
    ensures Ahead(s[..0], v) == {}
  {
    assert s[..0] == [];
  }

  lemma AheadSnoc(s: seq<Edge>, e: Edge, v: int)
    ensures Ahead(s + [e], v) == Ahead(s, v) + {FarEnd(e, v)}
  {
  }

  /** The far ends of a prefix of a list, one entry longer or the whole list. */
  lemma AheadPrefix(s: seq<Edge>, i: int, v: int)
    requires 0 <= i <= |s|
    ensures i < |s| ==> Ahead(s[..i + 1], v) == Ahead(s[..i], v) + {FarEnd(s[i], v)}
    ensures i == |s| ==> Ahead(s[..i], v) == Ahead(s, v)
  {
    if i < |s| {
      assert s[..i + 1] == s[..i] + [s[i]];
      AheadSnoc(s[..i], s[i], v);
    } else {
      assert s[..i] == s;
    }
  }

  /** Every far end of every list is a vertex. */
  ghost predicate Ends(adj: Lists) {
    forall k, e | k in adj && e in adj[k] :: FarEnd(e, k) in adj
  }

  /** The path counts of a predecessor list added up; a predecessor listed twice counts twice. */
  function SumCounts(ps: seq<int>, count: map<int, int>): int
    requires forall p | p in ps :: p in count
  {
    if ps == [] then 0
    else
      var last := ps[|ps| - 1];
      assert last in ps;
      SumCounts(ps[..|ps| - 1], count) + count[last]
  }

  lemma SumCountsSnoc(ps: seq<int>, p: int, count: map<int, int>)
    requires forall q | q in ps :: q in count
    requires p in count
    ensures SumCounts(ps + [p], count) == SumCounts(ps, count) + count[p]
  {
    assert (ps + [p])[..|ps|] == ps;
  }

  /** The sum reads the counts of the listed vertices only. */
  lemma {:induction false} SumCountsFrame(ps: seq<int>, c1: map<int, int>, c2: map<int, int>)
    requires forall p | p in ps :: p in c1 && p in c2 && c1[p] == c2[p]
    ensures SumCounts(ps, c1) == SumCounts(ps, c2)
    decreases |ps|
  {
    if ps != [] {
      assert ps[|ps| - 1] in ps;
      SumCountsFrame(ps[..|ps| - 1], c1, c2);
    }
  }

  /** A sequence without repetitions of elements of k is no longer than k is large. */
  lemma {:induction false} DistinctBound(s: seq<int>, k: set<int>)
    requires NoDuplicates(s) && forall x | x in s :: x in k
    ensures |s| <= |k|
    decreases |s|
  {
    if s != [] {
      var x := s[|s| - 1];
      var r := s[..|s| - 1];
      forall y | y in r
        ensures y in k - {x}
      {
        var i :| 0 <= i < |r| && r[i] == y;
        assert s[i] == y;
      }
      DistinctBound(r, k - {x});
    }
  }

  // ---------------------------------------------------------------------
  // The state of the search
  //
  // The queue and the vertex stack are kept as one sequence, line: every
  // vertex the search has reached, in the order it was queued. The queue is
  // line[head..]; the vertices taken off it so far, line[..head], are the
  // vertex stack, bottom first.

  /** The three maps have one entry per vertex; an unreached vertex has depth -1, count 0 and no predecessors. */
  ghost predicate Shape(adj: Lists, depth: map<int, int>, count: map<int, int>, preds: map<int, seq<int>>) {
    && depth.Keys == adj.Keys && count.Keys == adj.Keys && preds.Keys == adj.Keys
    && forall x | x in adj :: depth[x] >= -1 && (depth[x] < 0 ==> count[x] == 0 && preds[x] == [])
  }

  /** The source has depth 0, one path and no predecessors. */
  ghost predicate AtSource(source: int, depth: map<int, int>, count: map<int, int>, preds: map<int, seq<int>>) {
    && source in depth && source in count && source in preds
    && depth[source] == 0 && count[source] == 1 && preds[source] == []
  }

  /** Every predecessor is a reached vertex one level up, with a list entry leading to the vertex. */
  ghost predicate Recorded(adj: Lists, depth: map<int, int>, preds: map<int, seq<int>>) {
    forall w, p | w in preds && p in preds[w] ::
      p in adj && p in depth && w in depth && depth[p] >= 0 && depth[w] == depth[p] + 1 && w in Ahead(adj[p], p)
  }

  /** Every vertex but the source has as many shortest paths as its predecessors have together. */
  ghost predicate Summed(source: int, count: map<int, int>, preds: map<int, seq<int>>) {
    forall w | w in preds && w != source ::
      (forall p | p in preds[w] :: p in count) && w in count && count[w] == SumCounts(preds[w], count)
  }

  /** What the three maps say about paths from the source. */
  ghost predicate Paths(adj: Lists, source: int, depth: map<int, int>, count: map<int, int>, preds: map<int, seq<int>>) {
    Shape(adj, depth, count, preds) && AtSource(source, depth, count, preds)
    && Recorded(adj, depth, preds) && Summed(source, count, preds)
  }

  /** No predecessor lies deeper than level n. */
  ghost predicate Below(depth: map<int, int>, preds: map<int, seq<int>>, n: int) {
    forall w, p | w in preds && p in preds[w] && p in depth :: depth[p] <= n
  }

  /** line lists vertices in non-decreasing depth, the first one the source. */
  ghost predicate Layered(source: int, depth: map<int, int>, line: seq<int>) {
    && line != [] && line[0] == source && NoDuplicates(line)
    && (forall i | 0 <= i < |line| :: line[i] in depth)
    && (forall i, j | 0 <= i < j < |line| :: depth[line[i]] <= depth[line[j]])
  }

  /** From index k on, line holds vertices no deeper than level n + 1. */
  ghost predicate Within(depth: map<int, int>, line: seq<int>, k: int, n: int) {
    forall i | 0 <= k <= i < |line| :: line[i] in depth && depth[line[i]] <= n + 1
  }

  /** Everything in line after the source is at level 1. */
  ghost predicate FirstLevel(depth: map<int, int>, line: seq<int>) {
    forall i | 1 <= i < |line| :: line[i] in depth && depth[line[i]] == 1
  }

  /** The reached vertices are those of line, and each has at least one shortest path. */
  ghost predicate Discovered(adj: Lists, line: seq<int>, depth: map<int, int>, count: map<int, int>) {
    && (forall x | x in adj && x in depth :: depth[x] >= 0 <==> x in line)
    && (forall x | x in line :: x in adj && x in count && count[x] >= 1)
  }

  /** Every far end of the list of each of the first n vertices of line is in line. */
  ghost predicate Closure(adj: Lists, line: seq<int>, n: int) {
    forall i, w | 0 <= i < n && i < |line| && line[i] in adj && w in Ahead(adj[line[i]], line[i]) :: w in line
  }

  /** The source is a predecessor of each of the given vertices other than itself. */
  ghost predicate SourceBefore(source: int, preds: map<int, seq<int>>, within: set<int>) {
    forall w | w in within && w != source :: w in preds && source in preds[w]
  }

  /**
   * The source precedes its neighbours: those looked at so far (done) while
   * the source's own list is scanned (head == 1), all of them afterwards.
   */
  ghost predicate Start(adj: Lists, source: int, head: int, preds: map<int, seq<int>>, done: set<int>) {
    && source in adj
    && (head == 1 ==> SourceBefore(source, preds, done))
    && (head > 1 ==> SourceBefore(source, preds, Ahead(adj[source], source)))
  }

  /** The invariant of the queue loop. */
  ghost predicate Searching(adj: Lists, source: int, line: seq<int>, head: int,
                            depth: map<int, int>, count: map<int, int>, preds: map<int, seq<int>>) {
    && Paths(adj, source, depth, count, preds) && Layered(source, depth, line)
    && 0 <= head <= |line|
    && (head < |line| ==> Within(depth, line, head, depth[line[head]]) && Below(depth, preds, depth[line[head]]))
    && Discovered(adj, line, depth, count) && Closure(adj, line, head)
    && (head == 0 ==> line == [source])
    && source in adj && (head > 0 ==> SourceBefore(source, preds, Ahead(adj[source], source)))
  }

  /**
   * The invariant of the scan of the list of v = line[head - 1], just taken
   * off the queue: the entries whose far ends make up done have been looked
   * at, and every invariant of the queue loop holds except that v's own far
   * ends are known to be reached only as far as done.
   */
  ghost predicate Scanning(adj: Lists, source: int, line: seq<int>, head: int,
                           depth: map<int, int>, count: map<int, int>, preds: map<int, seq<int>>, done: set<int>) {
    && Paths(adj, source, depth, count, preds) && Layered(source, depth, line)
    && 1 <= head <= |line|
    && Within(depth, line, head, depth[line[head - 1]]) && Below(depth, preds, depth[line[head - 1]])
    && Discovered(adj, line, depth, count) && Closure(adj, line, head - 1)
    && (forall w | w in done :: w in line)
    && (head == 1 ==> FirstLevel(depth, line))
    && Start(adj, source, head, preds, done)
  }


  // ---------------------------------------------------------------------
  // What the search computes
  //
  // The search written as functions of its state. Its loops, in Bfs, Visit
  // and Scan below, are proved to compute exactly these functions, and the
  // facts about paths are proved about the functions.

  /** The state of the search: line and the three maps. */
  datatype Search = Search(line: seq<int>, depth: map<int, int>, count: map<int, int>, preds: map<int, seq<int>>)

  /** The maps of a state have one entry per vertex. */
  ghost predicate Keyed(adj: Lists, s: Search) {
    s.depth.Keys == adj.Keys && s.count.Keys == adj.Keys && s.preds.Keys == adj.Keys
  }

  /**
   * The maps have one entry per vertex, line holds reached vertices, each
   * once, and head is a position in line.
   */
  ghost predicate Light(adj: Lists, head: int, s: Search) {
    && Keyed(adj, s) && 0 <= head <= |s.line| && NoDuplicates(s.line)
    && forall y | y in s.line :: y in adj && s.depth[y] >= 0
  }

  /** The state before the first vertex leaves the queue: only the source is reached, with one path. */
  ghost function Begin(adj: Lists, source: int): Search {
    Search([source],
           map x | x in adj :: if x == source then 0 else -1,
           map x | x in adj :: if x == source then 1 else 0,
           map x | x in adj :: [])
  }

  /**
   * One entry of v's list, leading to x: an unreached x is queued one level
   * below v; then, if x lies one level below v, it gets v's paths added to
   * its own and v appended to its predecessors.
   */
  ghost function Relaxed(v: int, x: int, s: Search): Search
    requires v in s.depth && v in s.count && x in s.depth && x in s.count && x in s.preds
  {
    var line := if s.depth[x] < 0 then s.line + [x] else s.line;
    var depth := if s.depth[x] < 0 then s.depth[x := s.depth[v] + 1] else s.depth;
    if depth[x] == depth[v] + 1 then
      Search(line, depth, s.count[x := s.count[x] + s.count[v]], s.preds[x := s.preds[x] + [v]])
    else
      Search(line, depth, s.count, s.preds)
  }

  /** The scan of v's list from entry i on. */
  ghost function Scanned(adj: Lists, v: int, i: int, s: Search): Search
    requires Ends(adj) && v in adj && 0 <= i <= |adj[v]| && Keyed(adj, s)
    decreases |adj[v]| - i
  {
    if i == |adj[v]| then s
    else
      assert adj[v][i] in adj[v];
      RelaxedKeyed(adj, v, FarEnd(adj[v][i], v), s);
      Scanned(adj, v, i + 1, Relaxed(v, FarEnd(adj[v][i], v), s))
  }

  /** The queue loop from position head of line on: each vertex taken off the queue has its list scanned. */
  ghost function Searched(adj: Lists, head: int, s: Search): Search
    requires Ends(adj) && Light(adj, head, s)
    decreases |adj.Keys| - head
  {
    if head == |s.line| then s
    else
      var v := s.line[head];
      assert v in s.line;
      ScannedLight(adj, v, 0, head + 1, s);
      DistinctBound(Scanned(adj, v, 0, s).line, adj.Keys);
      Searched(adj, head + 1, Scanned(adj, v, 0, s))
  }

  /** The search of edgeBetweenness from one source. */
  ghost function SearchFrom(adj: Lists, source: int): Search
    requires Ends(adj) && source in adj
  {
    BeginLight(adj, source);
    Searched(adj, 0, Begin(adj, source))
  }

  lemma RelaxedKeyed(adj: Lists, v: int, x: int, s: Search)
    requires Keyed(adj, s) && v in adj && x in adj
    ensures Keyed(adj, Relaxed(v, x, s))
  {
  }

  lemma BeginLight(adj: Lists, source: int)
    requires source in adj
    ensures Light(adj, 0, Begin(adj, source))
  {
  }

  /** Handling one entry keeps the state light, v in line and line's prefix in place. */
  lemma RelaxedLight(adj: Lists, v: int, x: int, h: int, s: Search)
    requires Light(adj, h, s) && v in s.line && x in adj
    ensures Light(adj, h, Relaxed(v, x, s)) && v in Relaxed(v, x, s).line
  {
    var r := Relaxed(v, x, s);
    if s.depth[x] < 0 {
      assert x !in s.line;
      assert r.line == s.line + [x];
      forall i, j | 0 <= i < j < |r.line|
        ensures r.line[i] != r.line[j]
      {
        if j == |s.line| {
          assert r.line[i] in s.line;
        }
      }
    }
  }

  lemma {:induction false} ScannedLight(adj: Lists, v: int, i: int, h: int, s: Search)
    requires Ends(adj) && v in adj && 0 <= i <= |adj[v]| && Light(adj, h, s) && v in s.line
    ensures Light(adj, h, Scanned(adj, v, i, s)) && v in Scanned(adj, v, i, s).line
    decreases |adj[v]| - i
  {
    if i < |adj[v]| {
      assert adj[v][i] in adj[v];
      var x := FarEnd(adj[v][i], v);
      RelaxedLight(adj, v, x, h, s);
      ScannedLight(adj, v, i + 1, h, Relaxed(v, x, s));
    }
  }

  /**
   * The breadth-first search of edgeBetweennes from one source: it computes
   * SearchFrom. So (SearchFacts) line lists the reached vertices in the order
   * they left the queue (the vertex stack, bottom first), by non-decreasing
   * depth, the source first; the source has depth 0 and one path; every
   * reached vertex has at least one path, and every other one as many as its
   * predecessors together, each predecessor one level up and joined to it by
   * a list entry; the source precedes each of its neighbours; the reached set
   * is closed under the lists; and every unreached vertex keeps depth -1,
   * count 0 and no predecessors.
   */
  method Bfs(adj: Lists, source: int)
    returns (line: seq<int>, depth: map<int, int>, count: map<int, int>, preds: map<int, seq<int>>)
    requires Ends(adj) && source in adj
    ensures Search(line, depth, count, preds) == SearchFrom(adj, source)
    ensures Paths(adj, source, depth, count, preds) && Layered(source, depth, line)
    ensures Discovered(adj, line, depth, count) && Closure(adj, line, |line|)
    ensures SourceBefore(source, preds, Ahead(adj[source], source))
  {
    depth, count, preds := Unreached(adj.Keys);
    BeginUnreached(adj, source, depth, count, preds);
    count := count[source := 1];
    depth := depth[source := 0];
    line := [source];
    BeginLight(adj, source);
    var head := 0;
    while head < |line|
      invariant Light(adj, head, Search(line, depth, count, preds))
      invariant Searched(adj, head, Search(line, depth, count, preds)) == SearchFrom(adj, source)
      decreases |adj.Keys| - head
    {
      line, depth, count, preds := Visit(adj, line, head, depth, count, preds);
      head := head + 1;
    }
    SearchFacts(adj, source);
  }

  /** Unreached vertices everywhere but at the source: the state Begin describes. */
  lemma BeginUnreached(adj: Lists, source: int, depth: map<int, int>, count: map<int, int>, preds: map<int, seq<int>>)
    requires source in adj && depth.Keys == adj.Keys && count.Keys == adj.Keys && preds.Keys == adj.Keys
    requires forall x | x in adj :: depth[x] == -1 && count[x] == 0 && preds[x] == []
    ensures Search([source], depth[source := 0], count[source := 1], preds) == Begin(adj, source)
  {
    var b := Begin(adj, source);
    assert depth[source := 0] == b.depth;
    assert count[source := 1] == b.count;
    assert preds.Keys == b.preds.Keys;
    assert preds == b.preds;
  }

  /**
   * One round of the queue loop: the vertex at the head of the queue is
   * taken off it, pushed on the vertex stack, and its list is scanned.
   */
  method Visit(adj: Lists, line: seq<int>, head: int, depth: map<int, int>, count: map<int, int>, preds: map<int, seq<int>>)
    returns (line': seq<int>, depth': map<int, int>, count': map<int, int>, preds': map<int, seq<int>>)
    requires Ends(adj) && Light(adj, head, Search(line, depth, count, preds)) && head < |line|
    ensures Light(adj, head + 1, Search(line', depth', count', preds'))
    ensures Searched(adj, head + 1, Search(line', depth', count', preds')) == Searched(adj, head, Search(line, depth, count, preds))
    ensures head + 1 <= |adj.Keys|
  {
    var v := line[head];
    assert v in line;
    line', depth', count', preds' := Scan(adj, v, line, depth, count, preds);
    ScannedLight(adj, v, 0, head + 1, Search(line, depth, count, preds));
    DistinctBound(line', adj.Keys);
  }

  /** The scan of v's list, one entry at a time. */
  method Scan(adj: Lists, v: int, line: seq<int>, depth: map<int, int>, count: map<int, int>, preds: map<int, seq<int>>)
    returns (line': seq<int>, depth': map<int, int>, count': map<int, int>, preds': map<int, seq<int>>)
    requires Ends(adj) && v in adj && Keyed(adj, Search(line, depth, count, preds))
    ensures Search(line', depth', count', preds') == Scanned(adj, v, 0, Search(line, depth, count, preds))
  {
    var list := adj[v];
    line', depth', count', preds' := line, depth, count, preds;
    for i := 0 to |list|
      invariant Keyed(adj, Search(line', depth', count', preds'))
      invariant Scanned(adj, v, i, Search(line', depth', count', preds')) == Scanned(adj, v, 0, Search(line, depth, count, preds))
    {
      assert list[i] in adj[v];
      var x := FarEnd(list[i], v);
      RelaxedKeyed(adj, v, x, Search(line', depth', count', preds'));
      line', depth', count', preds' := Relax(v, x, line', depth', count', preds');
    }
  }

  /**
   * One entry of v's list, leading to x: an unreached x is queued one level
   * below v; then, if x lies one level below v, it gets v's paths added to
   * its own and v appended to its predecessors.
   */
  method Relax(v: int, x: int, line: seq<int>, depth: map<int, int>, count: map<int, int>, preds: map<int, seq<int>>)
    returns (line': seq<int>, depth': map<int, int>, count': map<int, int>, preds': map<int, seq<int>>)
    requires v in depth && v in count && x in depth && x in count && x in preds
    ensures Search(line', depth', count', preds') == Relaxed(v, x, Search(line, depth, count, preds))
  {
    line', depth', count', preds' := line, depth, count, preds;
    if depth[x] < 0 {
      line' := line + [x];
      depth' := depth[x := depth[v] + 1];
    }
    if depth'[x] == depth'[v] + 1 {
      count' := count[x := count[x] + count[v]];
      preds' := preds[x := preds[x] + [v]];
    }
  }

  // ---------------------------------------------------------------------
  // What the search's result says about paths

  /** What the search's result says about paths from source. */
  ghost predicate Found(adj: Lists, source: int, r: Search) {
    && Paths(adj, source, r.depth, r.count, r.preds) && Layered(source, r.depth, r.line)
    && Discovered(adj, r.line, r.depth, r.count) && Closure(adj, r.line, |r.line|)
    && SourceBefore(source, r.preds, Ahead(adj[source], source))
  }

  /**
   * The result of the search from source: line lists the reached vertices by
   * non-decreasing depth, the source first; the maps say what Paths says
   * about shortest paths from the source; the reached set is closed under the
   * lists; and the source precedes each of its neighbours.
   */
  lemma SearchFacts(adj: Lists, source: int)
    requires Ends(adj) && source in adj
    ensures Found(adj, source, SearchFrom(adj, source))
  {
    var b := Begin(adj, source);
    Initial(adj, source);
    SearchedPaths(adj, source, 0, b);
  }

  /** The queue loop keeps its invariant from position head to the end. */
  lemma {:induction false} SearchedPaths(adj: Lists, source: int, head: int, s: Search)
    requires Ends(adj) && Searching(adj, source, s.line, head, s.depth, s.count, s.preds)
    ensures Found(adj, source, Searched(adj, head, s))
    decreases |adj.Keys| - head
  {
    SearchingLight(adj, source, head, s);
    if head < |s.line| {
      ScanRound(adj, source, head, s);
      SearchedPaths(adj, source, head + 1, Scanned(adj, s.line[head], 0, s));
      SearchedStep(adj, head, s);
    } else {
      SearchedEnd(adj, source, head, s);
    }
  }

  /** With the queue empty, the loop is over and the result is what Found says. */
  lemma SearchedEnd(adj: Lists, source: int, head: int, s: Search)
    requires Ends(adj) && Searching(adj, source, s.line, head, s.depth, s.count, s.preds) && head == |s.line|
    ensures Found(adj, source, Searched(adj, head, s))
  {
    SearchDone(adj, source, s.line, head, s.depth, s.count, s.preds);
  }

  /** The queue loop from a vertex of the queue is its scan followed by the loop from the next one. */
  lemma SearchedStep(adj: Lists, head: int, s: Search)
    requires Ends(adj) && Light(adj, head, s) && head < |s.line|
    ensures s.line[head] in adj
    ensures Light(adj, head + 1, Scanned(adj, s.line[head], 0, s))
    ensures Searched(adj, head, s) == Searched(adj, head + 1, Scanned(adj, s.line[head], 0, s))
  {
    assert s.line[head] in s.line;
    ScannedLight(adj, s.line[head], 0, head + 1, s);
    DistinctBound(Scanned(adj, s.line[head], 0, s).line, adj.Keys);
  }

  /** One round of the queue loop keeps its invariant. */
  lemma ScanRound(adj: Lists, source: int, head: int, s: Search)
    requires Ends(adj) && Searching(adj, source, s.line, head, s.depth, s.count, s.preds) && head < |s.line|
    ensures s.line[head] in adj && Keyed(adj, s) && head + 1 <= |adj.Keys|
    ensures var r := Scanned(adj, s.line[head], 0, s); Searching(adj, source, r.line, head + 1, r.depth, r.count, r.preds)
  {
    var v := s.line[head];
    ScanStart(adj, source, s.line, head, s.depth, s.count, s.preds);
    ScannedKeeps(adj, source, v, 0, head + 1, s);
  }

  lemma SearchingLight(adj: Lists, source: int, head: int, s: Search)
    requires Searching(adj, source, s.line, head, s.depth, s.count, s.preds)
    ensures Light(adj, head, s)
  {
  }

  /** The scan of v = line[head - 1] from entry i on keeps the scan's invariant, and the queue loop's once v's whole list is looked at. */
  lemma {:induction false} ScannedKeeps(adj: Lists, source: int, v: int, i: int, head: int, s: Search)
    requires Ends(adj) && v in adj && 0 <= i <= |adj[v]| && 1 <= head <= |s.line| && v == s.line[head - 1]
    requires Scanning(adj, source, s.line, head, s.depth, s.count, s.preds, Ahead(adj[v][..i], v))
    ensures Keyed(adj, s)
    ensures var r := Scanned(adj, v, i, s); Searching(adj, source, r.line, head, r.depth, r.count, r.preds)
    decreases |adj[v]| - i
  {
    AheadPrefix(adj[v], i, v);
    if i == |adj[v]| {
      ScanDone(adj, source, v, s.line, head, s.depth, s.count, s.preds);
    } else {
      var x := FarEnd(adj[v][i], v);
      RelaxedKeeps(adj, source, v, head, s.line, s.depth, s.count, s.preds, Ahead(adj[v][..i], v), adj[v][i]);
      assert Search(s.line, s.depth, s.count, s.preds) == s;
      ScannedKeeps(adj, source, v, i + 1, head, Relaxed(v, x, s));
    }
  }

  /**
   * One entry of the list of v = line[head - 1], leading to x, keeps the
   * scan's invariant with x among the far ends looked at.
   */
  lemma RelaxedKeeps(adj: Lists, source: int, v: int, head: int, line: seq<int>,
                     depth: map<int, int>, count: map<int, int>, preds: map<int, seq<int>>, done: set<int>, e: Edge)
    requires Ends(adj) && Scanning(adj, source, line, head, depth, count, preds, done)
    requires v == line[head - 1] && v in adj && e in adj[v]
    ensures FarEnd(e, v) in adj && Keyed(adj, Search(line, depth, count, preds))
    ensures var r := Relaxed(v, FarEnd(e, v), Search(line, depth, count, preds));
      Scanning(adj, source, r.line, head, r.depth, r.count, r.preds, done + {FarEnd(e, v)}) && v == r.line[head - 1]
  {
    var x := FarEnd(e, v);
    assert x in Ahead(adj[v], v);
    assert v in line && depth[v] >= 0;
    if depth[x] < 0 {
      RelaxNew(adj, source, v, line, head, depth, count, preds, done, x);
      NewScanning(adj, source, v, head, line, depth, count, preds, done + {x}, x);
    } else if depth[x] == depth[v] + 1 {
      RelaxAgain(adj, source, v, line, head, depth, count, preds, done, x);
      AgainScanning(adj, source, v, head, line, depth, count, preds, done + {x}, x);
    } else {
      assert Relaxed(v, x, Search(line, depth, count, preds)) == Search(line, depth, count, preds);
    }
  }

  /** An entry leading to an unreached vertex queues it one level below v and gives it v's paths. */
  lemma RelaxedNewIs(v: int, x: int, line: seq<int>, depth: map<int, int>, count: map<int, int>, preds: map<int, seq<int>>)
    requires v in depth && v in count && x in depth && x in count && x in preds && depth[v] >= 0 && depth[x] < 0
    ensures var r := Relaxed(v, x, Search(line, depth, count, preds));
      && r.line == line + [x] && r.depth == depth[x := depth[v] + 1]
      && r.count == count[x := count[x] + count[v]] && r.preds == preds[x := preds[x] + [v]]
  {
  }

  /** An entry leading to a vertex one level below v gives it v's paths. */
  lemma RelaxedAgainIs(v: int, x: int, line: seq<int>, depth: map<int, int>, count: map<int, int>, preds: map<int, seq<int>>)
    requires v in depth && v in count && x in depth && x in count && x in preds && depth[v] >= 0 && depth[x] == depth[v] + 1
    ensures var r := Relaxed(v, x, Search(line, depth, count, preds));
      && r.line == line && r.depth == depth
      && r.count == count[x := count[x] + count[v]] && r.preds == preds[x := preds[x] + [v]]
  {
  }
  /** The invariant after an unreached far end is queued is the invariant of the state Relaxed describes. */
  lemma NewScanning(adj: Lists, source: int, v: int, head: int, line: seq<int>,
                    depth: map<int, int>, count: map<int, int>, preds: map<int, seq<int>>, done: set<int>, x: int)
    requires v in depth && v in count && x in depth && x in count && x in preds && depth[v] >= 0 && depth[x] < 0
    requires 1 <= head <= |line| && v == line[head - 1]
    requires Scanning(adj, source, line + [x], head, depth[x := depth[v] + 1], count[x := count[x] + count[v]], preds[x := preds[x] + [v]], done)
    ensures var r := Relaxed(v, x, Search(line, depth, count, preds));
      Scanning(adj, source, r.line, head, r.depth, r.count, r.preds, done) && v == r.line[head - 1]
  {
    RelaxedNewIs(v, x, line, depth, count, preds);
    assert (line + [x])[head - 1] == v;
  }

  /** The invariant after a far end one level below v gets v's paths is the invariant of the state Relaxed describes. */
  lemma AgainScanning(adj: Lists, source: int, v: int, head: int, line: seq<int>,
                      depth: map<int, int>, count: map<int, int>, preds: map<int, seq<int>>, done: set<int>, x: int)
    requires v in depth && v in count && x in depth && x in count && x in preds && depth[v] >= 0 && depth[x] == depth[v] + 1
    requires 1 <= head <= |line| && v == line[head - 1]
    requires Scanning(adj, source, line, head, depth, count[x := count[x] + count[v]], preds[x := preds[x] + [v]], done)
    ensures var r := Relaxed(v, x, Search(line, depth, count, preds));
      Scanning(adj, source, r.line, head, r.depth, r.count, r.preds, done) && v == r.line[head - 1]
  {
    RelaxedAgainIs(v, x, line, depth, count, preds);
  }

  /** Before the first vertex leaves the queue, only the source is reached. */
  lemma Initial(adj: Lists, source: int)
    requires source in adj
    ensures var b := Begin(adj, source); Searching(adj, source, b.line, 0, b.depth, b.count, b.preds)
  {
    var b := Begin(adj, source);
    forall x | x in adj && x in b.depth
      ensures b.depth[x] >= 0 <==> x in [source]
    {
    }
  }

  lemma ScanStart(adj: Lists, source: int, line: seq<int>, head: int,
                  depth: map<int, int>, count: map<int, int>, preds: map<int, seq<int>>)
    requires Searching(adj, source, line, head, depth, count, preds) && head < |line|
    ensures line[head] in adj
    ensures Scanning(adj, source, line, head + 1, depth, count, preds, Ahead(adj[line[head]][..0], line[head]))
    ensures head + 1 <= |adj.Keys|
  {
    DistinctBound(line, adj.Keys);
    assert line[head] in line;
    NothingAhead(adj[line[head]], line[head]);
  }

  lemma SearchDone(adj: Lists, source: int, line: seq<int>, head: int,
                   depth: map<int, int>, count: map<int, int>, preds: map<int, seq<int>>)
    requires Searching(adj, source, line, head, depth, count, preds) && head == |line|
    ensures Paths(adj, source, depth, count, preds) && Layered(source, depth, line)
    ensures Discovered(adj, line, depth, count) && Closure(adj, line, |line|)
    ensures SourceBefore(source, preds, Ahead(adj[source], source))
  {
    assert head > 0;
  }

  /** With every far end of v's list reached, the queue loop's invariant is back. */
  lemma ScanDone(adj: Lists, source: int, v: int, line: seq<int>, head: int,
                 depth: map<int, int>, count: map<int, int>, preds: map<int, seq<int>>)
    requires 1 <= head <= |line| && v == line[head - 1] && v in adj
    requires Scanning(adj, source, line, head, depth, count, preds, Ahead(adj[v], v))
    ensures Searching(adj, source, line, head, depth, count, preds)
  {
    CloseAt(adj, line, head, Ahead(adj[v], v));
    if head < |line| {
      assert depth[v] <= depth[line[head]];
      Widen(depth, preds, line, head, depth[v], depth[line[head]]);
    }
    if head == 1 {
      assert v == source;
    }
  }

  /** Once every far end of the list of line[n - 1] is in line, the first n vertices are closed. */
  lemma CloseAt(adj: Lists, line: seq<int>, n: int, done: set<int>)
    requires 1 <= n <= |line| && line[n - 1] in adj && Closure(adj, line, n - 1)
    requires done == Ahead(adj[line[n - 1]], line[n - 1]) && forall w | w in done :: w in line
    ensures Closure(adj, line, n)
  {
  }

  /** The bounds of the queue and of the predecessors hold at any higher level. */
  lemma Widen(depth: map<int, int>, preds: map<int, seq<int>>, line: seq<int>, k: int, n: int, m: int)
    requires Within(depth, line, k, n) && Below(depth, preds, n) && n <= m
    ensures Within(depth, line, k, m) && Below(depth, preds, m)
  {
  }

  /** The entry leads to an unreached vertex: it is queued one level below v and gets v as its predecessor. */
  lemma RelaxNew(adj: Lists, source: int, v: int, line: seq<int>, head: int,
                 depth: map<int, int>, count: map<int, int>, preds: map<int, seq<int>>, done: set<int>, x: int)
    requires Scanning(adj, source, line, head, depth, count, preds, done) && v == line[head - 1]
    requires x in adj && x in Ahead(adj[v], v) && depth[x] < 0
    ensures Scanning(adj, source, line + [x], head, depth[x := depth[v] + 1],
                     count[x := count[x] + count[v]], preds[x := preds[x] + [v]], done + {x})
  {
    assert v in line;
    DeepenPaths(adj, source, v, depth, count, preds, x);
    DeepenLine(adj, source, v, line, head, depth, x);
    QueueClosure(adj, line, head - 1, done, x);
    AddPath(adj, source, v, depth[x := depth[v] + 1], count, preds, x);
    DeepenDiscovered(adj, line, depth, count, v, x);
    StartAdd(adj, source, v, head, preds, done, x);
  }

  /** The entry leads to a vertex already queued one level below v: it gets v as one more predecessor. */
  lemma RelaxAgain(adj: Lists, source: int, v: int, line: seq<int>, head: int,
                   depth: map<int, int>, count: map<int, int>, preds: map<int, seq<int>>, done: set<int>, x: int)
    requires Scanning(adj, source, line, head, depth, count, preds, done) && v == line[head - 1]
    requires x in adj && x in Ahead(adj[v], v) && depth[x] == depth[v] + 1
    ensures Scanning(adj, source, line, head, depth, count[x := count[x] + count[v]], preds[x := preds[x] + [v]], done + {x})
  {
    assert v in line;
    AddPath(adj, source, v, depth, count, preds, x);
    AgainDiscovered(adj, line, depth, count, v, x);
    StartAdd(adj, source, v, head, preds, done, x);
  }

  /** Giving an unreached x a depth keeps what the maps say about paths, and x is nobody's predecessor. */
  lemma DeepenPaths(adj: Lists, source: int, v: int, depth: map<int, int>, count: map<int, int>, preds: map<int, seq<int>>, x: int)
    requires Paths(adj, source, depth, count, preds) && v in depth && depth[v] >= 0 && Below(depth, preds, depth[v])
    requires x in adj && depth[x] < 0
    ensures Paths(adj, source, depth[x := depth[v] + 1], count, preds) && Below(depth[x := depth[v] + 1], preds, depth[v])
  {
    forall w, p | w in preds && p in preds[w]
      ensures p != x && w != x
    {
    }
  }

  /** Queuing an unreached x one level below v keeps line layered. */
  lemma DeepenLine(adj: Lists, source: int, v: int, line: seq<int>, head: int, depth: map<int, int>, x: int)
    requires Layered(source, depth, line) && 1 <= head <= |line| && v == line[head - 1]
    requires Within(depth, line, head, depth[v]) && (head == 1 ==> FirstLevel(depth, line) && depth[source] == 0)
    requires x in depth && depth[x] < 0 && (forall y | y in line :: y in depth && depth[y] >= 0)
    ensures Layered(source, depth[x := depth[v] + 1], line + [x])
    ensures Within(depth[x := depth[v] + 1], line + [x], head, depth[v])
    ensures head == 1 ==> FirstLevel(depth[x := depth[v] + 1], line + [x])
  {
    var n := depth[v] + 1;
    var line' := line + [x];
    var depth' := depth[x := n];
    assert x !in line;
    forall i | 0 <= i < |line|
      ensures line'[i] == line[i] && line[i] != x && depth'[line[i]] == depth[line[i]] <= n
    {
      if i < head - 1 {
        assert depth[line[i]] <= depth[v];
      }
    }
    forall i, j | 0 <= i < j < |line'|
      ensures depth'[line'[i]] <= depth'[line'[j]]
    {
      if j < |line| {
        assert depth[line[i]] <= depth[line[j]];
      }
    }
    assert NoDuplicates(line');
  }

  /** Queuing x keeps line closed as far as it was, and x among the vertices looked at. */
  lemma QueueClosure(adj: Lists, line: seq<int>, n: int, done: set<int>, x: int)
    requires 0 <= n <= |line| && Closure(adj, line, n) && (forall w | w in done :: w in line)
    ensures Closure(adj, line + [x], n) && (forall w | w in done + {x} :: w in line + [x])
  {
    forall i, w | 0 <= i < n && i < |line + [x]| && (line + [x])[i] in adj && w in Ahead(adj[(line + [x])[i]], (line + [x])[i])
      ensures w in line + [x]
    {
      if i < |line| {
        assert (line + [x])[i] == line[i];
        assert w in line;
      }
    }
  }

  /** Giving an unreached x v's paths keeps every reached vertex with a path, x included. */
  lemma DeepenDiscovered(adj: Lists, line: seq<int>, depth: map<int, int>, count: map<int, int>, v: int, x: int)
    requires Discovered(adj, line, depth, count) && v in line && v in depth && depth[v] >= 0
    requires x in adj && x in depth && x in count && count[x] == 0
    ensures Discovered(adj, line + [x], depth[x := depth[v] + 1], count[x := count[x] + count[v]])
  {
  }

  /** Adding v's paths to a reached x keeps every reached vertex with a path. */
  lemma AgainDiscovered(adj: Lists, line: seq<int>, depth: map<int, int>, count: map<int, int>, v: int, x: int)
    requires Discovered(adj, line, depth, count) && v in line && x in adj && x in depth && depth[x] >= 0
    ensures Discovered(adj, line, depth, count[x := count[x] + count[v]])
  {
  }

  /** Adding v as a predecessor of x, one level below it, with v's paths. */
  lemma AddPath(adj: Lists, source: int, v: int, depth: map<int, int>, count: map<int, int>, preds: map<int, seq<int>>, x: int)
    requires Paths(adj, source, depth, count, preds) && v in adj && depth[v] >= 0 && Below(depth, preds, depth[v])
    requires x in adj && depth[x] == depth[v] + 1 && x in Ahead(adj[v], v)
    ensures Paths(adj, source, depth, count[x := count[x] + count[v]], preds[x := preds[x] + [v]])
    ensures Below(depth, preds[x := preds[x] + [v]], depth[v])
  {
    var count' := count[x := count[x] + count[v]];
    var preds' := preds[x := preds[x] + [v]];
    assert x != source;
    assert Shape(adj, depth, count', preds');
    assert AtSource(source, depth, count', preds');
    AddPathRecorded(adj, v, depth, preds, x);
    AddPathSummed(source, v, count, preds, x);
  }

  lemma AddPathRecorded(adj: Lists, v: int, depth: map<int, int>, preds: map<int, seq<int>>, x: int)
    requires Recorded(adj, depth, preds) && v in adj && v in depth && depth[v] >= 0 && Below(depth, preds, depth[v])
    requires x in preds && x in depth && depth[x] == depth[v] + 1 && x in Ahead(adj[v], v)
    ensures Recorded(adj, depth, preds[x := preds[x] + [v]])
    ensures Below(depth, preds[x := preds[x] + [v]], depth[v])
  {
  }

  lemma AddPathSummed(source: int, v: int, count: map<int, int>, preds: map<int, seq<int>>, x: int)
    requires Summed(source, count, preds) && x != source && x in preds && x in count && v in count && v != x
    requires forall w, p | w in preds && p in preds[w] :: p != x
    ensures Summed(source, count[x := count[x] + count[v]], preds[x := preds[x] + [v]])
  {
    var count' := count[x := count[x] + count[v]];
    var preds' := preds[x := preds[x] + [v]];
    forall w | w in preds' && w != source
      ensures (forall p | p in preds'[w] :: p in count') && w in count' && count'[w] == SumCounts(preds'[w], count')
    {
      SumCountsFrame(preds[w], count, count');
      if w == x {
        SumCountsSnoc(preds[x], v, count');
      }
    }
  }

  /** Adding v as a predecessor of x keeps the source's neighbours' record, x included when v is the source. */
  lemma StartAdd(adj: Lists, source: int, v: int, head: int, preds: map<int, seq<int>>, done: set<int>, x: int)
    requires Start(adj, source, head, preds, done) && x in preds && (head == 1 ==> v == source)
    ensures Start(adj, source, head, preds[x := preds[x] + [v]], done + {x})
  {
  }

  /** The initialisation loop: every vertex gets count 0, depth -1 and an empty predecessor list. */
  method Unreached(keys: set<int>) returns (depth: map<int, int>, count: map<int, int>, preds: map<int, seq<int>>)
    ensures depth.Keys == keys && count.Keys == keys && preds.Keys == keys
    ensures forall x | x in keys :: depth[x] == -1 && count[x] == 0 && preds[x] == []
  {
    depth, count, preds := map[], map[], map[];
    var rest := keys;
    while rest != {}
      invariant rest <= keys
      invariant depth.Keys == keys - rest && count.Keys == keys - rest && preds.Keys == keys - rest
      invariant forall x | x in keys - rest :: depth[x] == -1 && count[x] == 0 && preds[x] == []
      decreases |rest|
    {
      if forall x :: x !in rest {
        assert false;
      }
      var key :| key in rest;
      rest := rest - {key};
      count := count[key := 0];
      depth := depth[key := -1];
      preds := preds[key := []];
    }
  }

  // ---------------------------------------------------------------------
  // The bottom-up pass

  /**
   * What the pass needs of the search's result: every vertex of the stack
   * and every one of its predecessors has at least one path, and no vertex
   * is its own predecessor.
   */
  ghost predicate Stack(line: seq<int>, count: map<int, int>, preds: map<int, seq<int>>) {
    && (forall w | w in line :: w in count && w in preds && count[w] >= 1)
    && (forall w, p | w in line && w in preds && p in preds[w] :: p in count && count[p] >= 1 && p != w)
  }

  /** What the pass needs, and the edge between each stack vertex and each of its predecessors is scored. */
  ghost predicate Stacked(line: seq<int>, count: map<int, int>, preds: map<int, seq<int>>, bw: map<Edge, real>) {
    && Stack(line, count, preds)
    && (forall w, p | w in line && w in preds && p in preds[w] :: Key(Edge(w, p)) in bw)
  }

  /** One contribution: the paths to the predecessor times the vertex's dependency per path, plus one. */
  function Share(countP: int, countW: int, deltaW: real): real
    requires countW >= 1
  {
    countP as real * (deltaW / countW as real + 1.0)
  }

  /** A contribution is at least one. */
  lemma ShareAtLeastOne(countP: int, countW: int, deltaW: real)
    requires countP >= 1 && countW >= 1 && deltaW >= 0.0
    ensures Share(countP, countW, deltaW) >= 1.0
  {
    var t := deltaW / countW as real + 1.0;
    assert deltaW / countW as real >= 0.0;
    assert (countP as real - 1.0) * t >= 0.0;
  }

  /**
   * What a vertex w with countW paths and dependency deltaW passes to x
   * through its predecessor list ps: x's share once for every entry of ps
   * that is x.
   */
  function Credit(ps: seq<int>, x: int, count: map<int, int>, countW: int, deltaW: real): real
    requires forall p | p in ps :: p in count
    requires countW >= 1
    decreases |ps|
  {
    if ps == [] then 0.0
    else
      var p := ps[|ps| - 1];
      assert p in ps;
      Credit(ps[..|ps| - 1], x, count, countW, deltaW) + (if p == x then Share(count[p], countW, deltaW) else 0.0)
  }

  /**
   * What the same vertex w passes to the score of edge k: the share of every
   * entry p of ps whose edge to w has the key k.
   */
  function EdgeCredit(ps: seq<int>, k: Edge, w: int, count: map<int, int>, countW: int, deltaW: real): real
    requires forall p | p in ps :: p in count
    requires countW >= 1
    decreases |ps|
  {
    if ps == [] then 0.0
    else
      var p := ps[|ps| - 1];
      assert p in ps;
      EdgeCredit(ps[..|ps| - 1], k, w, count, countW, deltaW) + (if Key(Edge(w, p)) == k then Share(count[p], countW, deltaW) else 0.0)
  }

  /**
   * The dependency of the vertex at position i of the stack: what the
   * vertices above it owe it. It is the value delta holds for that vertex
   * when the pass pops it.
   */
  ghost function DepAt(line: seq<int>, count: map<int, int>, preds: map<int, seq<int>>, i: int): real
    requires Stack(line, count, preds) && 0 <= i < |line|
    decreases |line| - i, 0
  {
    Owed(line, count, preds, line[i], i + 1)
  }

  /**
   * What the vertices at positions k and above owe x: the sum, over each of
   * them that lists x as a predecessor, of the paths to x times that vertex's
   * dependency per path plus one, once per listing.
   */
  ghost function Owed(line: seq<int>, count: map<int, int>, preds: map<int, seq<int>>, x: int, k: int): real
    requires Stack(line, count, preds) && 0 <= k <= |line|
    decreases |line| - k, 1
  {
    if k == |line| then 0.0
    else
      var w := line[k];
      assert w in line;
      Owed(line, count, preds, x, k + 1) + Credit(preds[w], x, count, count[w], DepAt(line, count, preds, k))
  }

  /** The shares the vertices at positions m and above of the stack add to the score of edge k. */
  ghost function Scored(line: seq<int>, count: map<int, int>, preds: map<int, seq<int>>, k: Edge, m: int): real
    requires Stack(line, count, preds) && 0 <= m <= |line|
    decreases |line| - m
  {
    if m == |line| then 0.0
    else
      var w := line[m];
      assert w in line;
      Scored(line, count, preds, k, m + 1) + EdgeCredit(preds[w], k, w, count, count[w], DepAt(line, count, preds, m))
  }

  /**
   * The pass of edgeBetweenness for one source: delta starts at 0 for every
   * vertex; the vertices leave the stack top first, and each spreads its
   * share to its predecessors. Every score grows by exactly the shares the
   * whole stack adds to it.
   */
  method Accumulate(line: seq<int>, count: map<int, int>, preds: map<int, seq<int>>, bw: map<Edge, real>)
    returns (bw': map<Edge, real>)
    requires Stacked(line, count, preds, bw)
    ensures bw'.Keys == bw.Keys
    ensures forall k | k in bw :: bw'[k] == bw[k] + Scored(line, count, preds, k, 0)
  {
    var delta := Zeros(count.Keys);
    bw' := bw;
    var m := |line|;
    while m > 0
      invariant Popped(line, m, count, preds, bw, delta, bw')
    {
      delta, bw' := Pop(line, m, count, preds, bw, delta, bw');
      m := m - 1;
    }
  }

  /**
   * What the accumulation keeps once the stack is popped down to position
   * m: every delta is what the popped vertices owe it and every score has
   * grown by the popped vertices' shares.
   */
  ghost predicate Popped(line: seq<int>, m: int, count: map<int, int>, preds: map<int, seq<int>>,
                         bw: map<Edge, real>, delta: map<int, real>, acc: map<Edge, real>)
    requires Stack(line, count, preds)
  {
    && 0 <= m <= |line|
    && delta.Keys == count.Keys && acc.Keys == bw.Keys
    && (forall x | x in delta :: delta[x] == Owed(line, count, preds, x, m))
    && (forall k | k in bw :: acc[k] == bw[k] + Scored(line, count, preds, k, m))
  }

  /** One pop of the stack: the vertex at position m - 1 spreads its dependency to its predecessors. */
  method Pop(line: seq<int>, m: int, count: map<int, int>, preds: map<int, seq<int>>, bw: map<Edge, real>,
             delta: map<int, real>, acc: map<Edge, real>) returns (delta': map<int, real>, acc': map<Edge, real>)
    requires Stacked(line, count, preds, bw) && m > 0
    requires Popped(line, m, count, preds, bw, delta, acc)
    ensures Popped(line, m - 1, count, preds, bw, delta', acc')
  {
    var w := line[m - 1];
    assert w in line;
    delta', acc' := Spread(w, count, preds, delta, acc);
    PopExact(line, m, count, preds, bw, delta, acc, delta', acc');
  }

  /** Spreading the dependency of line[m - 1] makes every delta and score what the stack from m - 1 up gives. */
  lemma PopExact(line: seq<int>, m: int, count: map<int, int>, preds: map<int, seq<int>>, bw: map<Edge, real>,
                 delta: map<int, real>, acc: map<Edge, real>, delta': map<int, real>, acc': map<Edge, real>)
    requires Stack(line, count, preds) && 0 < m <= |line|
    requires line[m - 1] in count && line[m - 1] in preds && line[m - 1] in delta && count[line[m - 1]] >= 1
    requires forall p | p in preds[line[m - 1]] :: p in count
    requires forall x | x in delta :: delta[x] == Owed(line, count, preds, x, m)
    requires acc.Keys == bw.Keys && forall k | k in bw :: acc[k] == bw[k] + Scored(line, count, preds, k, m)
    requires delta'.Keys == delta.Keys && acc'.Keys == acc.Keys
    requires forall x | x in delta :: delta'[x] == delta[x] + Credit(preds[line[m - 1]], x, count, count[line[m - 1]], delta[line[m - 1]])
    requires forall k | k in acc :: acc'[k] == acc[k] + EdgeCredit(preds[line[m - 1]], k, line[m - 1], count, count[line[m - 1]], delta[line[m - 1]])
    ensures forall x | x in delta' :: delta'[x] == Owed(line, count, preds, x, m - 1)
    ensures forall k | k in bw :: acc'[k] == bw[k] + Scored(line, count, preds, k, m - 1)
  {
    assert delta[line[m - 1]] == DepAt(line, count, preds, m - 1);
  }

  /**
   * Each predecessor p of w gets w's share: delta[p] grows by the share once
   * for every entry of p in w's predecessor list, and so does the score of
   * the edge between w and p; nothing else changes.
   */
  method Spread(w: int, count: map<int, int>, preds: map<int, seq<int>>, delta: map<int, real>, bw: map<Edge, real>)
    returns (delta': map<int, real>, bw': map<Edge, real>)
    requires w in count && w in preds && count[w] >= 1 && w in delta && w !in preds[w]
    requires forall p | p in preds[w] :: p in count && p in delta && Key(Edge(w, p)) in bw
    ensures delta'.Keys == delta.Keys && bw'.Keys == bw.Keys
    ensures forall x | x in delta :: delta'[x] == delta[x] + Credit(preds[w], x, count, count[w], delta[w])
    ensures forall k | k in bw :: bw'[k] == bw[k] + EdgeCredit(preds[w], k, w, count, count[w], delta[w])
  {
    var ps := preds[w];
    delta', bw' := delta, bw;
    for j := 0 to |ps|
      invariant delta'.Keys == delta.Keys && bw'.Keys == bw.Keys && delta'[w] == delta[w]
      invariant forall x | x in delta :: delta'[x] == delta[x] + Credit(ps[..j], x, count, count[w], delta[w])
      invariant forall k | k in bw :: bw'[k] == bw[k] + EdgeCredit(ps[..j], k, w, count, count[w], delta[w])
    {
      var p := ps[j];
      assert p in ps;
      var value := Share(count[p], count[w], delta'[w]);
      SpreadStep(ps, j, w, count, delta[w], delta, bw, delta', bw');
      delta' := delta'[p := delta'[p] + value];
      bw' := bw'[Key(Edge(w, p)) := bw'[Key(Edge(w, p))] + value];
    }
    assert ps[..|ps|] == ps;
  }

  /** One entry p = ps[j] more: its share is added to delta[p] and to the score of the edge from w to p. */
  lemma SpreadStep(ps: seq<int>, j: int, w: int, count: map<int, int>, deltaW: real,
                   delta: map<int, real>, bw: map<Edge, real>, delta': map<int, real>, bw': map<Edge, real>)
    requires 0 <= j < |ps| && (forall p | p in ps :: p in count && p in delta && Key(Edge(w, p)) in bw)
    requires w in count && count[w] >= 1
    requires delta'.Keys == delta.Keys && bw'.Keys == bw.Keys
    requires forall x | x in delta :: delta'[x] == delta[x] + Credit(ps[..j], x, count, count[w], deltaW)
    requires forall k | k in bw :: bw'[k] == bw[k] + EdgeCredit(ps[..j], k, w, count, count[w], deltaW)
    ensures var p := ps[j]; var value := Share(count[p], count[w], deltaW);
      && (forall x | x in delta :: delta'[p := delta'[p] + value][x] == delta[x] + Credit(ps[..j + 1], x, count, count[w], deltaW))
      && (forall k | k in bw :: bw'[Key(Edge(w, p)) := bw'[Key(Edge(w, p))] + value][k] ==
            bw[k] + EdgeCredit(ps[..j + 1], k, w, count, count[w], deltaW))
  {
    assert ps[j] in ps;
    assert ps[..j + 1][..j] == ps[..j];
  }

  /** The credit to the edge between w and p is p's credit: different predecessors give different edges. */
  lemma {:induction false} EdgeCreditAtKey(ps: seq<int>, p: int, w: int, count: map<int, int>, countW: int, deltaW: real)
    requires forall q | q in ps :: q in count
    requires countW >= 1
    ensures EdgeCredit(ps, Key(Edge(w, p)), w, count, countW, deltaW) == Credit(ps, p, count, countW, deltaW)
    decreases |ps|
  {
    if ps != [] {
      var q := ps[|ps| - 1];
      EdgeCreditAtKey(ps[..|ps| - 1], p, w, count, countW, deltaW);
      KeyDecidesSameEdge(Edge(w, q), Edge(w, p));
    }
  }

  /** With counts of at least one and a dependency that is not negative, no credit is negative. */
  lemma {:induction false} CreditNonNegative(ps: seq<int>, x: int, count: map<int, int>, countW: int, deltaW: real)
    requires forall p | p in ps :: p in count && count[p] >= 1
    requires countW >= 1 && deltaW >= 0.0
    ensures Credit(ps, x, count, countW, deltaW) >= 0.0
    decreases |ps|
  {
    if ps != [] {
      var p := ps[|ps| - 1];
      assert p in ps;
      CreditNonNegative(ps[..|ps| - 1], x, count, countW, deltaW);
      ShareAtLeastOne(count[p], countW, deltaW);
    }
  }

  /** A listed entry is credited at least one share, and a share is at least one. */
  lemma {:induction false} CreditAtLeastOne(ps: seq<int>, x: int, count: map<int, int>, countW: int, deltaW: real)
    requires forall p | p in ps :: p in count && count[p] >= 1
    requires x in ps && countW >= 1 && deltaW >= 0.0
    ensures Credit(ps, x, count, countW, deltaW) >= 1.0
    decreases |ps|
  {
    var init, p := ps[..|ps| - 1], ps[|ps| - 1];
    assert p in ps;
    if p == x {
      CreditNonNegative(init, x, count, countW, deltaW);
      ShareAtLeastOne(count[p], countW, deltaW);
    } else {
      assert ps == init + [p];
      CreditAtLeastOne(init, x, count, countW, deltaW);
    }
  }

  lemma {:induction false} EdgeCreditNonNegative(ps: seq<int>, k: Edge, w: int, count: map<int, int>, countW: int, deltaW: real)
    requires forall p | p in ps :: p in count && count[p] >= 1
    requires countW >= 1 && deltaW >= 0.0
    ensures EdgeCredit(ps, k, w, count, countW, deltaW) >= 0.0
    decreases |ps|
  {
    if ps != [] {
      var p := ps[|ps| - 1];
      assert p in ps;
      EdgeCreditNonNegative(ps[..|ps| - 1], k, w, count, countW, deltaW);
      ShareAtLeastOne(count[p], countW, deltaW);
    }
  }

  /** A loop is credited nothing by a vertex that is not its own predecessor. */
  lemma {:induction false} EdgeCreditOfLoop(ps: seq<int>, k: Edge, w: int, count: map<int, int>, countW: int, deltaW: real)
    requires (forall p | p in ps :: p in count && p != w) && countW >= 1 && k.fromNode == k.toNode
    ensures EdgeCredit(ps, k, w, count, countW, deltaW) == 0.0
    decreases |ps|
  {
    if ps != [] {
      var p := ps[|ps| - 1];
      assert p in ps;
      EdgeCreditOfLoop(ps[..|ps| - 1], k, w, count, countW, deltaW);
    }
  }

  /** What the stack from position k up owes any vertex is not negative. */
  lemma {:induction false} OwedNonNegative(line: seq<int>, count: map<int, int>, preds: map<int, seq<int>>, x: int, k: int)
    requires Stack(line, count, preds) && 0 <= k <= |line|
    ensures Owed(line, count, preds, x, k) >= 0.0
    decreases |line| - k
  {
    if k < |line| {
      var w := line[k];
      assert w in line;
      OwedNonNegative(line, count, preds, x, k + 1);
      OwedNonNegative(line, count, preds, w, k + 1);
      CreditNonNegative(preds[w], x, count, count[w], DepAt(line, count, preds, k));
    }
  }

  /** No score gains a negative amount. */
  lemma {:induction false} ScoredNonNegative(line: seq<int>, count: map<int, int>, preds: map<int, seq<int>>, k: Edge, m: int)
    requires Stack(line, count, preds) && 0 <= m <= |line|
    ensures Scored(line, count, preds, k, m) >= 0.0
    decreases |line| - m
  {
    if m < |line| {
      var w := line[m];
      assert w in line;
      ScoredNonNegative(line, count, preds, k, m + 1);
      OwedNonNegative(line, count, preds, w, m + 1);
      EdgeCreditNonNegative(preds[w], k, w, count, count[w], DepAt(line, count, preds, m));
    }
  }

  /** A loop gains nothing: it joins no vertex to a predecessor. */
  lemma {:induction false} ScoredOfLoop(line: seq<int>, count: map<int, int>, preds: map<int, seq<int>>, k: Edge, m: int)
    requires Stack(line, count, preds) && 0 <= m <= |line| && k.fromNode == k.toNode
    ensures Scored(line, count, preds, k, m) == 0.0
    decreases |line| - m
  {
    if m < |line| {
      var w := line[m];
      assert w in line;
      ScoredOfLoop(line, count, preds, k, m + 1);
      EdgeCreditOfLoop(preds[w], k, w, count, count[w], DepAt(line, count, preds, m));
    }
  }

  /** The edge between the vertex at position i and one of its predecessors gains at least one from positions m <= i up. */
  lemma {:induction false} ScoredAtLeastOne(line: seq<int>, count: map<int, int>, preds: map<int, seq<int>>, m: int, i: int, p: int)
    requires Stack(line, count, preds) && 0 <= m <= i < |line| && line[i] in preds && p in preds[line[i]]
    ensures Scored(line, count, preds, Key(Edge(line[i], p)), m) >= 1.0
    decreases i - m
  {
    var k := Key(Edge(line[i], p));
    var w := line[m];
    assert w in line;
    OwedNonNegative(line, count, preds, w, m + 1);
    if m < i {
      ScoredAtLeastOne(line, count, preds, m + 1, i, p);
      EdgeCreditNonNegative(preds[w], k, w, count, count[w], DepAt(line, count, preds, m));
    } else {
      ScoredNonNegative(line, count, preds, k, m + 1);
      EdgeCreditAtKey(preds[w], p, w, count, count[w], DepAt(line, count, preds, m));
      CreditAtLeastOne(preds[w], p, count, count[w], DepAt(line, count, preds, m));
    }
  }

  /** The initialisation of delta: every vertex starts at 0. */
  method Zeros(keys: set<int>) returns (delta: map<int, real>)
    ensures delta.Keys == keys && forall x | x in keys :: delta[x] == 0.0
  {
    delta := map[];
    var rest := keys;
    while rest != {}
      invariant rest <= keys && delta.Keys == keys - rest
      invariant forall x | x in delta :: delta[x] == 0.0
      decreases |rest|
    {
      if forall x :: x !in rest {
        assert false;
      }
      var key :| key in rest;
      rest := rest - {key};
      delta := delta[key := 0.0];
    }
  }

  // ---------------------------------------------------------------------
  // The scores

  /** The search's result is what the pass needs. */
  lemma SearchStack(adj: Lists, source: int)
    requires Ends(adj) && source in adj
    ensures var r := SearchFrom(adj, source); Stack(r.line, r.count, r.preds)
  {
    SearchFacts(adj, source);
    var r := SearchFrom(adj, source);
    forall w, p | w in r.line && w in r.preds && p in r.preds[w]
      ensures p in r.count && r.count[p] >= 1 && p != w
    {
      assert p in adj && r.depth[p] >= 0;
    }
  }

  /** What the round from source (the search, then the pass) adds to the score of edge k. */
  ghost function Gain(adj: Lists, source: int, k: Edge): real
    requires Ends(adj) && source in adj
  {
    SearchStack(adj, source);
    var r := SearchFrom(adj, source);
    Scored(r.line, r.count, r.preds, k, 0)
  }

  /** The gains of the rounds from each of sources, added up. */
  ghost function TotalGain(adj: Lists, sources: seq<int>, k: Edge): real
    requires Ends(adj) && forall s | s in sources :: s in adj
    decreases |sources|
  {
    if sources == [] then 0.0
    else
      var s := sources[|sources| - 1];
      assert s in sources;
      TotalGain(adj, sources[..|sources| - 1], k) + Gain(adj, s, k)
  }

  /**
   * The score edgeBetweenness gives edge k: the gains of the rounds from
   * every vertex, in the order the vertices are visited.
   */
  ghost function EdgeScore(adj: Lists, k: Edge): real
    requires Ends(adj)
  {
    TotalGain(adj, Ascending(adj.Keys), k)
  }

  /** No round lowers a score, and a round adds nothing to a loop. */
  lemma GainBounds(adj: Lists, source: int, k: Edge)
    requires Ends(adj) && source in adj
    ensures Gain(adj, source, k) >= 0.0
    ensures k.fromNode == k.toNode ==> Gain(adj, source, k) == 0.0
  {
    SearchStack(adj, source);
    var r := SearchFrom(adj, source);
    ScoredNonNegative(r.line, r.count, r.preds, k, 0);
    if k.fromNode == k.toNode {
      ScoredOfLoop(r.line, r.count, r.preds, k, 0);
    }
  }

  /** Every score is at least 0, and a loop scores 0: it lies on no shortest path. */
  lemma {:induction false} TotalGainBounds(adj: Lists, sources: seq<int>, k: Edge)
    requires Ends(adj) && forall s | s in sources :: s in adj
    ensures TotalGain(adj, sources, k) >= 0.0
    ensures k.fromNode == k.toNode ==> TotalGain(adj, sources, k) == 0.0
    decreases |sources|
  {
    if sources != [] {
      var s := sources[|sources| - 1];
      assert s in sources;
      TotalGainBounds(adj, sources[..|sources| - 1], k);
      GainBounds(adj, s, k);
    }
  }

  /** The edge between the source and a vertex that has the source as a predecessor gains at least one. */
  lemma GainAtLeastOne(adj: Lists, source: int, t: int)
    requires Ends(adj) && source in adj
    requires var r := SearchFrom(adj, source); t in r.line && t in r.preds && source in r.preds[t]
    ensures Gain(adj, source, Key(Edge(t, source))) >= 1.0
  {
    SearchStack(adj, source);
    var r := SearchFrom(adj, source);
    var i :| 0 <= i < |r.line| && r.line[i] == t;
    ScoredAtLeastOne(r.line, r.count, r.preds, 0, i, source);
  }
}
