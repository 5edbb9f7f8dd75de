/**
 * Newman's greedy agglomerative community detection (FastNewmanImpl.java).
 * It starts from one community per vertex, and at each step merges the two
 * communities whose merge has the greatest dQ. A step records the
 * arrangement it produces, keyed by each community's least member, its
 * leader. After a step whose dQ is negative, the arrangement before that
 * step is reported with its modularity.
 *
 * Java's HashMap key order is modelled as ascending order. Printing is
 * modelled as a list of reports that the merge returns.
 */
module FastNewmanImpls {
  import opened Edges
  import opened Iteration
  import opened Reach
  import opened CapGraphs
  import opened FastNewmans

  /** One arrangement of communities: each leader with the vertex labels of its community. */
  type Partition = map<int, seq<int>>

  /** The labels in some community. */
  ghost function Members(P: Partition): set<int> {
    set k, x | k in P && x in P[k] :: x
  }

  /** No label is in two communities. */
  ghost predicate Disjoint(P: Partition) {
    forall a, b, x | a in P && b in P && x in P[a] && x in P[b] :: a == b
  }

  /** Every leader is in its community and is its least member. */
  ghost predicate Led(P: Partition) {
    forall k | k in P :: k in P[k] && forall x | x in P[k] :: k <= x
  }

  /** No community lists a label twice. */
  ghost predicate Distinct(P: Partition) {
    forall k | k in P :: NoDuplicates(P[k])
  }

  /** P splits the labels V into disjoint communities, each led by its least member. */
  ghost predicate Partitions(P: Partition, V: set<int>) {
    Disjoint(P) && Led(P) && Distinct(P) && Members(P) == V
  }

  /** The arrangement of step 0: every vertex alone in its community. */
  function Singletons(V: set<int>): Partition {
    map v | v in V :: [v]
  }

  /** The singletons partition the vertices, one community per vertex. */
  lemma SingletonsPartition(V: set<int>)
    ensures Partitions(Singletons(V), V)
    ensures Singletons(V).Keys == V && |Singletons(V).Keys| == |V|
  {
    var P := Singletons(V);
    assert P.Keys == V;
    assert forall k | k in P :: P[k] == [k];
    assert Disjoint(P) by {
      forall a, b, x | a in P && b in P && x in P[a] && x in P[b]
        ensures a == b
      {
        assert x == a && x == b;
      }
    }
    assert Led(P);
    assert Distinct(P) by {
      forall k | k in P
        ensures NoDuplicates(P[k])
      {
        assert |P[k]| == 1;
      }
    }
    assert Members(P) == V by {
      forall x | x in V
        ensures x in Members(P)
      {
        assert x in P[x];
      }
      forall x | x in Members(P)
        ensures x in V
      {
        var k :| k in P && x in P[k];
      }
    }
  }

  /** The lesser of the two leaders, which leads the merged community. */
  function Lesser(one: int, two: int): int {
    if one < two then one else two
  }

  /**
   * The arrangement after merging the communities led by one and two: the
   * others are kept as they are, and the merged one lists one's members
   * followed by two's under the lesser leader.
   */
  function Merged(P: Partition, one: int, two: int): Partition
    requires one in P && two in P
  {
    var others := map k | k in P && k != one && k != two :: P[k];
    others[Lesser(one, two) := P[one] + P[two]]
  }

  /**
   * Merging two different communities of a partition leaves a partition
   * of the same labels, with the two leaders replaced by the lesser one, so
   * one community fewer.
   */
  lemma MergedPartitions(P: Partition, V: set<int>, one: int, two: int)
    requires Partitions(P, V) && one in P && two in P && one != two
    ensures Partitions(Merged(P, one, two), V)
  {
    MergedDisjoint(P, one, two);
    MergedLed(P, one, two);
    MergedDistinct(P, one, two);
    MergedMembers(P, one, two);
  }

  /** Merging two different communities replaces their two leaders by the lesser one: one community fewer. */
  lemma MergedKeys(P: Partition, one: int, two: int)
    requires one in P && two in P && one != two
    ensures Merged(P, one, two).Keys == P.Keys - {one, two} + {Lesser(one, two)}
    ensures |Merged(P, one, two).Keys| == |P.Keys| - 1
  {
    var M := Merged(P, one, two);
    assert M.Keys == P.Keys - {one, two} + {Lesser(one, two)};
    assert |P.Keys - {one, two}| == |P.Keys| - 2;
  }

  lemma MergedDisjoint(P: Partition, one: int, two: int)
    requires Disjoint(P) && one in P && two in P && one != two
    ensures Disjoint(Merged(P, one, two))
  {
    var M := Merged(P, one, two);
    var l := Lesser(one, two);
    forall a, b, x | a in M && b in M && x in M[a] && x in M[b]
      ensures a == b
    {
      var pa := if a == l then (if x in P[one] then one else two) else a;
      var pb := if b == l then (if x in P[one] then one else two) else b;
      assert x in P[pa] && x in P[pb];
    }
  }

  lemma MergedLed(P: Partition, one: int, two: int)
    requires Led(P) && one in P && two in P && one != two
    ensures Led(Merged(P, one, two))
  {
    var M := Merged(P, one, two);
    var l := Lesser(one, two);
    assert l in P[l];
    forall x | x in M[l]
      ensures l <= x
    {
      if x in P[one] {
        assert one <= x;
      } else {
        assert two <= x;
      }
    }
  }

  lemma MergedDistinct(P: Partition, one: int, two: int)
    requires Distinct(P) && Disjoint(P) && one in P && two in P && one != two
    ensures Distinct(Merged(P, one, two))
  {
    var M := Merged(P, one, two);
    var l := Lesser(one, two);
    var s, t := P[one], P[two];
    forall i, j | 0 <= i < j < |s + t|
      ensures (s + t)[i] != (s + t)[j]
    {
      if i < |s| && j >= |s| {
        assert (s + t)[i] in P[one] && (s + t)[j] in P[two];
      }
    }
  }

  lemma MergedMembers(P: Partition, one: int, two: int)
    requires one in P && two in P
    ensures Members(Merged(P, one, two)) == Members(P)
  {
    var M := Merged(P, one, two);
    var l := Lesser(one, two);
    forall x | x in Members(P)
      ensures x in Members(M)
    {
      var k :| k in P && x in P[k];
      if k == one || k == two {
        assert x in M[l];
      } else {
        assert x in M[k];
      }
    }
  }

  /** dQ of merging the communities led by a and b. */
  ghost function Score(edges: set<Edge>, nb: Graph, m: int, P: Partition, a: int, b: int): real
    requires m > 0 && a in P && b in P
  {
    Gain(edges, nb, m, Listed(P[a]), Listed(P[b]))
  }

  /** (a, b) comes before (c, d) in the order the two loops over the leaders take. */
  predicate Before(a: int, b: int, c: int, d: int) {
    a < c || (a == c && b < d)
  }

  /**
   * (one, two) is the first pair of different leaders, in loop order, whose
   * dQ is the greatest, and dq is that dQ.
   */
  ghost predicate Best(edges: set<Edge>, nb: Graph, m: int, P: Partition, one: int, two: int, dq: real)
    requires m > 0
  {
    && one in P && two in P && one != two && dq == Score(edges, nb, m, P, one, two)
    && (forall a, b | a in P && b in P && a != b :: Score(edges, nb, m, P, a, b) <= dq)
    && (forall a, b | a in P && b in P && a != b && Before(a, b, one, two) :: Score(edges, nb, m, P, a, b) < dq)
  }

  /** The loops have met (a, b): a is a finished row, or a is row i and b a finished column of it. */
  predicate Seen(rows: set<int>, i: int, cols: set<int>, a: int, b: int) {
    a in rows || (a == i && b in cols)
  }

  /**
   * What the search keeps over the pairs met so far: when a pair of
   * different leaders was met, (one, two) is one of them with the greatest
   * dQ and no earlier one has as great a dQ; until then nothing was met.
   */
  ghost predicate Searched(edges: set<Edge>, nb: Graph, m: int, P: Partition,
                           rows: set<int>, i: int, cols: set<int>,
                           found: bool, dq: real, one: int, two: int)
    requires m > 0
  {
    && (found ==> one in P && two in P && one != two && dq == Score(edges, nb, m, P, one, two) && Seen(rows, i, cols, one, two))
    && (forall a, b | a in P && b in P && a != b && Seen(rows, i, cols, a, b) ::
          found && Score(edges, nb, m, P, a, b) <= dq)
    && (forall a, b | a in P && b in P && a != b && Seen(rows, i, cols, a, b) && Before(a, b, one, two) ::
          Score(edges, nb, m, P, a, b) < dq)
  }

  /** What scoring a pair needs: a valid graph with edges, as seen through the values given. */
  ghost predicate Scoring(g: CapGraph, nb: Graph, edges: set<Edge>, m: int)
    reads g, g.graphNodes.Values
  {
    g.Valid() && g.numEdges > 0 && nb == g.Snapshot() && edges == g.graphEdges && m == g.numEdges
  }

  /**
   * One pass of the inner loop of the search: dQ of the pair (keyOne, keyTwo)
   * of different leaders replaces the best so far when it is greater.
   * deltaQ starts at negative infinity, which any dQ exceeds; found says
   * whether it has left it.
   */
  method Consider(g: CapGraph, ghost nb: Graph, ghost edges: set<Edge>, ghost m: int, P: Partition, ghost rows: set<int>, ghost cols: set<int>,
                  keyOne: int, keyTwo: int, found: bool, deltaQ: real, one: int, two: int)
    returns (found': bool, deltaQ': real, one': int, two': int)
    requires Scoring(g, nb, edges, m) && Members(P) <= g.graphNodes.Keys
    requires keyOne in P && keyTwo in P && keyOne !in rows && keyTwo !in cols
    requires forall x | x in rows :: x < keyOne
    requires forall y | y in cols :: y < keyTwo
    requires Searched(edges, nb, m, P, rows, keyOne, cols, found, deltaQ, one, two)
    ensures Scoring(g, nb, edges, m)
    ensures Searched(edges, nb, m, P, rows, keyOne, cols + {keyTwo}, found', deltaQ', one', two')
  {
    found', deltaQ', one', two' := found, deltaQ, one, two;
    if keyOne == keyTwo {
      return;
    }
    MembersOf(P, keyOne);
    MembersOf(P, keyTwo);
    var nm := new FastNewman(g);
    var tempDeltaQ := nm.DQ(P[keyOne], P[keyTwo]);
    if !found || tempDeltaQ > deltaQ {
      found', deltaQ', one', two' := true, tempDeltaQ, keyOne, keyTwo;
    }
  }

  lemma MembersOf(P: Partition, k: int)
    requires k in P
    ensures forall x | x in P[k] :: x in Members(P)
  {
  }

  /** A finished row joins the rows; the next row starts with no columns. */
  lemma RowDone(edges: set<Edge>, nb: Graph, m: int, P: Partition, rows: set<int>, i: int, next: int,
                found: bool, dq: real, one: int, two: int)
    requires m > 0
    requires Searched(edges, nb, m, P, rows, i, P.Keys, found, dq, one, two)
    ensures Searched(edges, nb, m, P, rows + {i}, next, {}, found, dq, one, two)
  {
    assert forall a, b | b in P :: Seen(rows, i, P.Keys, a, b) == Seen(rows + {i}, next, {}, a, b);
  }

  /** In a strictly increasing list, everything before position q is less than the element at q. */
  lemma PrefixBelow(order: seq<int>, q: int)
    requires forall x, y | 0 <= x < y < |order| :: order[x] < order[y]
    requires 0 <= q < |order|
    ensures forall y | y in Listed(order[..q]) :: y < order[q]
  {
    forall y | y in Listed(order[..q])
      ensures y < order[q]
    {
      var r :| 0 <= r < q && order[r] == y;
    }
  }

  /** One pass of the outer loop of the search: every pair (keyOne, keyTwo), keyTwo in loop order. */
  method SelectRow(g: CapGraph, ghost nb: Graph, ghost edges: set<Edge>, ghost m: int, P: Partition, order: seq<int>, ghost rows: set<int>,
                   keyOne: int, found: bool, deltaQ: real, one: int, two: int)
    returns (found': bool, deltaQ': real, one': int, two': int)
    requires Scoring(g, nb, edges, m) && Members(P) <= g.graphNodes.Keys
    requires order == Ascending(P.Keys)
    requires keyOne in P && keyOne !in rows && forall x | x in rows :: x < keyOne
    requires Searched(edges, nb, m, P, rows, keyOne, {}, found, deltaQ, one, two)
    ensures Scoring(g, nb, edges, m)
    ensures Searched(edges, nb, m, P, rows, keyOne, P.Keys, found', deltaQ', one', two')
  {
    AscendingIsSorted(P.Keys);
    found', deltaQ', one', two' := found, deltaQ, one, two;
    ghost var cols: set<int> := {};
    for q := 0 to |order|
      invariant cols == Listed(order[..q])
      invariant Scoring(g, nb, edges, m)
      invariant Searched(edges, nb, m, P, rows, keyOne, cols, found', deltaQ', one', two')
    {
      PrefixBelow(order, q);
      SetOfPrefixSnoc(order, q);
      found', deltaQ', one', two' := Consider(g, nb, edges, m, P, rows, cols, keyOne, order[q], found', deltaQ', one', two');
      cols := cols + {order[q]};
    }
    SetOfPrefixSnoc(order, |order|);
    assert cols == P.Keys;
  }

  /**
   * The selection of one step: over all ordered pairs of different leaders,
   * in loop order, the first pair with the greatest dQ.
   */
  method Select(g: CapGraph, ghost nb: Graph, ghost edges: set<Edge>, ghost m: int, P: Partition) returns (deltaQ: real, one: int, two: int)
    requires Scoring(g, nb, edges, m) && Members(P) <= g.graphNodes.Keys
    requires |P.Keys| >= 2
    ensures Scoring(g, nb, edges, m)
    ensures Best(edges, nb, m, P, one, two, deltaQ)
  {
    var order := Ascending(P.Keys);
    AscendingIsSorted(P.Keys);
    var found := false;
    deltaQ, one, two := 0.0, -1, -1;
    ghost var rows: set<int> := {};
    for p := 0 to |order|
      invariant rows == Listed(order[..p])
      invariant Scoring(g, nb, edges, m)
      invariant Searched(edges, nb, m, P, rows, 0, {}, found, deltaQ, one, two)
    {
      PrefixBelow(order, p);
      SetOfPrefixSnoc(order, p);
      RowStart(edges, nb, m, P, rows, order[p], found, deltaQ, one, two);
      found, deltaQ, one, two := SelectRow(g, nb, edges, m, P, order, rows, order[p], found, deltaQ, one, two);
      RowDone(edges, nb, m, P, rows, order[p], 0, found, deltaQ, one, two);
      rows := rows + {order[p]};
    }
    SetOfPrefixSnoc(order, |order|);
    assert rows == P.Keys;
    SearchComplete(edges, nb, m, P, found, deltaQ, one, two);
  }

  /** Which row is current does not matter before any of its columns is met. */
  lemma RowStart(edges: set<Edge>, nb: Graph, m: int, P: Partition, rows: set<int>, i: int,
                 found: bool, dq: real, one: int, two: int)
    requires m > 0
    requires Searched(edges, nb, m, P, rows, 0, {}, found, dq, one, two)
    ensures Searched(edges, nb, m, P, rows, i, {}, found, dq, one, two)
  {
    assert forall a, b :: Seen(rows, 0, {}, a, b) == Seen(rows, i, {}, a, b);
  }

  /** Once every pair was met, a partition of two or more communities has its best pair. */
  lemma SearchComplete(edges: set<Edge>, nb: Graph, m: int, P: Partition, found: bool, dq: real, one: int, two: int)
    requires m > 0 && |P.Keys| >= 2
    requires Searched(edges, nb, m, P, P.Keys, 0, {}, found, dq, one, two)
    ensures Best(edges, nb, m, P, one, two, dq)
  {
    if forall x :: x !in P.Keys {
      assert false;
    }
    var a :| a in P.Keys;
    assert |P.Keys - {a}| == |P.Keys| - 1;
    if forall y :: y !in P.Keys - {a} {
      assert false;
    }
    var b :| b in P.Keys - {a};
    assert Seen(P.Keys, 0, {}, a, b);
  }

  /**
   * One step's new arrangement: every community other than the two merged
   * ones is copied under its own leader, then the merged list is put under
   * the lesser leader.
   */
  method MergeCommunities(prev: Partition, one: int, two: int) returns (current: Partition)
    requires one in prev && two in prev
    ensures current == Merged(prev, one, two)
  {
    var mergeCommList := prev[one] + prev[two];
    current := map[];
    var todo := prev.Keys;
    while todo != {}
      invariant todo <= prev.Keys
      invariant current == map k | k in prev.Keys - todo && k != one && k != two :: prev[k]
      decreases |todo|
    {
      if forall k :: k !in todo {
        assert false;
      }
      var prevKey :| prevKey in todo;
      if prevKey != one && prevKey != two {
        current := current[prevKey := prev[prevKey]];
      }
      todo := todo - {prevKey};
    }
    assert prev.Keys - todo == prev.Keys;
    current := current[Lesser(one, two) := mergeCommList];
  }

  /** What the merge reports before a step of negative dQ: the modularity reached and the arrangement that reached it. */
  datatype Report = Report(modularity: real, communities: Partition)

  /** The sum of a list of dQ values, from the first. */
  function Sum(s: seq<real>): real {
    if |s| == 0 then 0.0 else Sum(s[..|s| - 1]) + s[|s| - 1]
  }

  /**
   * What the merge reports after steps with the given dQ values: for each
   * step whose dQ is negative, in step order, the running modularity before
   * that step and the arrangement the step started from.
   */
  function Reports(R: map<int, Partition>, gains: seq<real>): seq<Report>
    requires forall k | 0 <= k < |gains| :: k in R
  {
    if |gains| == 0 then []
    else
      var n := |gains| - 1;
      Reports(R, gains[..n]) + (if gains[n] < 0.0 then [Report(Sum(gains[..n]), R[n])] else [])
  }

  /** Every report is the arrangement just before a step of negative dQ, with the dQ sum of the steps before it. */
  lemma {:induction false} ReportsAreDrops(R: map<int, Partition>, gains: seq<real>, r: Report)
    requires forall k | 0 <= k < |gains| :: k in R
    requires r in Reports(R, gains)
    ensures exists i | 0 <= i < |gains| && gains[i] < 0.0 :: r == Report(Sum(gains[..i]), R[i])
  {
    var n := |gains| - 1;
    var g' := gains[..n];
    if r in Reports(R, g') {
      ReportsAreDrops(R, g', r);
      var i :| 0 <= i < n && g'[i] < 0.0 && r == Report(Sum(g'[..i]), R[i]);
      assert gains[i] == g'[i] && gains[..i] == g'[..i];
    } else {
      assert gains[n] < 0.0 && r == Report(Sum(gains[..n]), R[n]);
    }
  }

  /** Every step of negative dQ has the arrangement before it reported, with the dQ sum of the steps before it. */
  lemma {:induction false} DropsAreReported(R: map<int, Partition>, gains: seq<real>, i: int)
    requires forall k | 0 <= k < |gains| :: k in R
    requires 0 <= i < |gains| && gains[i] < 0.0
    ensures Report(Sum(gains[..i]), R[i]) in Reports(R, gains)
  {
    var n := |gains| - 1;
    var g' := gains[..n];
    assert Reports(R, gains) == Reports(R, g') + (if gains[n] < 0.0 then [Report(Sum(g'), R[n])] else []);
    if i < n {
      assert g'[i] == gains[i] && g'[..i] == gains[..i];
      DropsAreReported(R, g', i);
    }
  }

  /** The reports only depend on the arrangements before the steps. */
  lemma {:induction false} ReportsAgree(R: map<int, Partition>, R': map<int, Partition>, gains: seq<real>)
    requires forall k | 0 <= k < |gains| :: k in R && k in R' && R[k] == R'[k]
    ensures Reports(R, gains) == Reports(R', gains)
  {
    if |gains| > 0 {
      ReportsAgree(R, R', gains[..|gains| - 1]);
    }
  }

  /**
   * Step i of the merge, from R[i-1] to R[i]: it chose the best pair of
   * leaders, pairs[i-1], with dQ gains[i-1], and merged them.
   */
  ghost predicate StepAt(edges: set<Edge>, nb: Graph, m: int, R: map<int, Partition>,
                         gains: seq<real>, pairs: seq<(int, int)>, i: int)
    requires m > 0
  {
    && 1 <= i <= |gains| && i <= |pairs| && i - 1 in R && i in R
    && Best(edges, nb, m, R[i - 1], pairs[i - 1].0, pairs[i - 1].1, gains[i - 1])
    && R[i] == Merged(R[i - 1], pairs[i - 1].0, pairs[i - 1].1)
  }

  /**
   * Steps that start from a partition of V keep partitioning V, with one
   * community fewer after each step.
   */
  lemma {:induction false} StepsPartition(edges: set<Edge>, nb: Graph, m: int, R: map<int, Partition>,
                                          gains: seq<real>, pairs: seq<(int, int)>, V: set<int>, n: nat)
    requires m > 0 && 0 in R && Partitions(R[0], V)
    requires forall i | 1 <= i <= n :: StepAt(edges, nb, m, R, gains, pairs, i)
    ensures n in R && Partitions(R[n], V) && |R[n].Keys| == |R[0].Keys| - n
  {
    if n > 0 {
      StepsPartition(edges, nb, m, R, gains, pairs, V, n - 1);
      assert StepAt(edges, nb, m, R, gains, pairs, n);
      var P, one, two := R[n - 1], pairs[n - 1].0, pairs[n - 1].1;
      assert R[n] == Merged(P, one, two);
      MergedPartitions(P, V, one, two);
      MergedKeys(P, one, two);
      assert |R[n].Keys| == |P.Keys| - 1;
    }
  }

  /**
   * The record of n merge steps in R, starting from R0: step 0 is R0's,
   * steps 1 to n are as StepAt says, and every other entry of R0 is kept.
   */
  ghost predicate History(edges: set<Edge>, nb: Graph, m: int, R: map<int, Partition>, R0: map<int, Partition>,
                          gains: seq<real>, pairs: seq<(int, int)>, n: nat)
  {
    && |gains| == |pairs| == n && 0 in R0 && 0 in R && R[0] == R0[0] && n in R
    && (forall k | 1 <= k <= n :: m > 0 && StepAt(edges, nb, m, R, gains, pairs, k))
    && (forall k :: k in R <==> k in R0 || 1 <= k <= n)
    && (forall k | k in R0 && !(1 <= k <= n) :: R[k] == R0[k])
  }

  /** Recording one more step, the best merge of the last arrangement, extends the history by it. */
  lemma HistoryExtend(edges: set<Edge>, nb: Graph, m: int, R: map<int, Partition>, R0: map<int, Partition>,
                      gains: seq<real>, pairs: seq<(int, int)>, n: nat, dq: real, pair: (int, int),
                      R': map<int, Partition>, gains': seq<real>, pairs': seq<(int, int)>)
    requires m > 0 && History(edges, nb, m, R, R0, gains, pairs, n)
    requires Best(edges, nb, m, R[n], pair.0, pair.1, dq)
    requires R' == R[n + 1 := Merged(R[n], pair.0, pair.1)] && gains' == gains + [dq] && pairs' == pairs + [pair]
    ensures History(edges, nb, m, R', R0, gains', pairs', n + 1)
  {
    forall k | 1 <= k <= n + 1
      ensures StepAt(edges, nb, m, R', gains', pairs', k)
    {
      if k <= n {
        assert StepAt(edges, nb, m, R, gains, pairs, k);
        assert R'[k - 1] == R[k - 1] && R'[k] == R[k];
        assert gains'[k - 1] == gains[k - 1] && pairs'[k - 1] == pairs[k - 1];
      }
    }
  }

  /** One more step adds a report exactly when its dQ is negative. */
  lemma ReportsExtend(edges: set<Edge>, nb: Graph, m: int, R: map<int, Partition>, R0: map<int, Partition>,
                      gains: seq<real>, pairs: seq<(int, int)>, n: nat, mod: real, reports: seq<Report>,
                      dq: real, cur: Partition, R': map<int, Partition>, gains': seq<real>, reports': seq<Report>)
    requires m > 0 && History(edges, nb, m, R, R0, gains, pairs, n)
    requires mod == Sum(gains) && reports == Reports(R, gains)
    requires R' == R[n + 1 := cur] && gains' == gains + [dq]
    requires dq < 0.0 ==> reports' == reports + [Report(mod, R[n])]
    requires dq >= 0.0 ==> reports' == reports
    ensures mod + dq == Sum(gains') && reports' == Reports(R', gains')
  {
    assert gains'[..n] == gains;
    forall k | 0 <= k <= n
      ensures k in R && k in R' && R[k] == R'[k]
    {
      if k > 0 {
        assert StepAt(edges, nb, m, R, gains, pairs, k);
      }
    }
    ReportsAgree(R, R', gains);
  }

  lemma AddSub(x: real, y: real)
    ensures (x + y) - y == x
  {
  }

  /**
   * The greedy community detection of FastNewmanImpl.java: result maps each
   * step to its arrangement, step 0 holding one community per vertex.
   */
  class FastNewmanImpl {
    const inputGraph: CapGraph
    const numSteps: int
    var result: map<int, Partition>

    /** numSteps is one less than the graph's vertex count; step 0 is every vertex alone. */
    constructor (graph: CapGraph)
      ensures inputGraph == graph && numSteps == graph.numNodes - 1
      ensures result == map[0 := Singletons(graph.graphNodes.Keys)]
    {
      inputGraph := graph;
      var V := graph.GetNumNodes();
      numSteps := V - 1;
      var init: Partition := map[];
      var nodes := graph.GetNodes();
      var todo := nodes;
      while todo != {}
        invariant todo <= nodes
        invariant init == Singletons(nodes - todo)
        decreases |todo|
      {
        if forall k :: k !in todo {
          assert false;
        }
        var node :| node in todo;
        init := init[node := [node]];
        todo := todo - {node};
      }
      assert nodes - todo == nodes;
      result := map[0 := init];
    }

    /**
     * numSteps merge steps, step i merging the best pair of communities of
     * step i-1 into the arrangement of step i; the reports are the
     * arrangement before every step of negative dQ, with the modularity
     * reached there. gains and pairs record each step's dQ and pair.
     */
    method Merge() returns (reports: seq<Report>, ghost gains: seq<real>, ghost pairs: seq<(int, int)>)
      requires inputGraph.Valid() && (numSteps > 0 ==> inputGraph.numEdges > 0)
      requires 0 in result && Members(result[0]) <= inputGraph.graphNodes.Keys
      requires numSteps < |result[0].Keys|
      modifies this`result
      ensures History(inputGraph.graphEdges, inputGraph.Snapshot(), inputGraph.numEdges, result, old(result),
                      gains, pairs, if numSteps > 0 then numSteps else 0)
      ensures reports == Reports(result, gains)
    {
      ghost var edges, nb, m := inputGraph.graphEdges, inputGraph.Snapshot(), inputGraph.numEdges;
      ghost var R0 := result;
      var mod := 0.0;
      reports, gains, pairs := [], [], [];
      var n := 0;
      while n < numSteps
        invariant 0 <= n && (n <= numSteps || n == 0)
        invariant History(edges, nb, m, result, R0, gains, pairs, n)
        invariant numSteps > 0 ==> Scoring(inputGraph, nb, edges, m)
        invariant Members(result[n]) <= inputGraph.graphNodes.Keys
        invariant |result[n].Keys| == |R0[0].Keys| - n
        invariant mod == Sum(gains)
        invariant reports == Reports(result, gains)
      {
        ghost var before, reported := result, reports;
        var prevCommunity := result[n];
        var deltaQ, gains', pairs' := Step(n, nb, edges, m, R0, gains, pairs);
        mod := mod + deltaQ;
        if deltaQ < 0.0 {
          AddSub(mod - deltaQ, deltaQ);
          reports := reports + [Report(mod - deltaQ, prevCommunity)];
        }
        ReportsExtend(edges, nb, m, before, R0, gains, pairs, n, mod - deltaQ, reported, deltaQ, result[n + 1],
                      result, gains', reports);
        gains, pairs := gains', pairs';
        n := n + 1;
      }
    }

    /**
     * The selection and merge of step prev + 1: the best pair of communities
     * of step prev is merged into the arrangement of the next step.
     */
    method Step(prev: int, ghost nb: Graph, ghost edges: set<Edge>, ghost m: int, ghost R0: map<int, Partition>,
                ghost gains: seq<real>, ghost pairs: seq<(int, int)>)
      returns (deltaQ: real, ghost gains': seq<real>, ghost pairs': seq<(int, int)>)
      requires m > 0 && prev >= 0
      requires History(edges, nb, m, result, R0, gains, pairs, prev)
      requires Scoring(inputGraph, nb, edges, m) && Members(result[prev]) <= inputGraph.graphNodes.Keys
      requires |result[prev].Keys| >= 2
      modifies this`result
      ensures gains' == gains + [deltaQ] && prev + 1 in result && result == old(result)[prev + 1 := result[prev + 1]]
      ensures History(edges, nb, m, result, R0, gains', pairs', prev + 1)
      ensures Scoring(inputGraph, nb, edges, m) && Members(result[prev + 1]) == Members(old(result[prev]))
      ensures |result[prev + 1].Keys| == |old(result[prev]).Keys| - 1
    {
      var i := prev + 1;
      var prevCommunity := result[prev];
      var communityIdOne, communityIdTwo;
      deltaQ, communityIdOne, communityIdTwo := Select(inputGraph, nb, edges, m, prevCommunity);
      var currentCommunity := MergeCommunities(prevCommunity, communityIdOne, communityIdTwo);
      MergedMembers(prevCommunity, communityIdOne, communityIdTwo);
      MergedKeys(prevCommunity, communityIdOne, communityIdTwo);
      ghost var before := result;
      result := result[i := currentCommunity];
      gains', pairs' := gains + [deltaQ], pairs + [(communityIdOne, communityIdTwo)];
      HistoryExtend(edges, nb, m, before, R0, gains, pairs, prev, deltaQ, (communityIdOne, communityIdTwo),
                    result, gains', pairs');
    }
  }
}
