/**
 * One worked round of the Girvan-Newman loop: the path 0 - 1 - 2 - 3, each
 * vertex listing its edges as addEdge would leave them. The searches and
 * passes of edgeBetweenness are evaluated from every source, the scores come
 * out as 6, 8 and 6, and the middle edge is the one edge the round removes.
 */
module PathExample {
  import opened Edges
  import opened Iteration
  import opened Brandes

  /** The adjacency lists of the path. */
  function Path(): Lists {
    map[0 := [Edge(0, 1)], 1 := [Edge(0, 1), Edge(1, 2)], 2 := [Edge(1, 2), Edge(2, 3)], 3 := [Edge(2, 3)]]
  }

  /** The edge set of the path. */
  function PathEdges(): set<Edge> {
    {Edge(0, 1), Edge(1, 2), Edge(2, 3)}
  }

  /** A map over the four vertices. */
  function Four<T>(a: T, b: T, c: T, d: T): map<int, T> {
    map[0 := a, 1 := b, 2 := c, 3 := d]
  }

  lemma FourAt<T>(a: T, b: T, c: T, d: T)
    ensures Four(a, b, c, d).Keys == {0, 1, 2, 3}
    ensures Four(a, b, c, d)[0] == a && Four(a, b, c, d)[1] == b && Four(a, b, c, d)[2] == c && Four(a, b, c, d)[3] == d
  {
  }

  lemma FourUpdate<T>(a: T, b: T, c: T, d: T, e: T)
    ensures Four(a, b, c, d)[0 := e] == Four(e, b, c, d)
    ensures Four(a, b, c, d)[1 := e] == Four(a, e, c, d)
    ensures Four(a, b, c, d)[2 := e] == Four(a, b, e, d)
    ensures Four(a, b, c, d)[3 := e] == Four(a, b, c, e)
  {
  }

  /** Every list entry leads to a vertex. */
  lemma PathEnds()
    ensures Ends(Path())
  {
  }

  lemma FourKeys()
    ensures Path().Keys == {0, 1, 2, 3}
    ensures forall a: int, b: int, c: int, d: int :: Four(a, b, c, d).Keys == {0, 1, 2, 3}
    ensures forall a: seq<int>, b: seq<int>, c: seq<int>, d: seq<int> :: Four(a, b, c, d).Keys == {0, 1, 2, 3}
  {
  }

  /** What one listing passes to x. */
  lemma CreditSingle(ps: seq<int>, x: int, count: map<int, int>, countW: int, deltaW: real)
    requires |ps| == 1 && ps[0] in count && countW >= 1
    ensures Credit(ps, x, count, countW, deltaW) == if ps[0] == x then Share(count[ps[0]], countW, deltaW) else 0.0
  {
    assert ps[..0] == [];
  }

  /** What one listing adds to the score of edge k. */
  lemma EdgeCreditSingle(ps: seq<int>, k: Edge, w: int, count: map<int, int>, countW: int, deltaW: real)
    requires |ps| == 1 && ps[0] in count && countW >= 1
    ensures EdgeCredit(ps, k, w, count, countW, deltaW) == if Key(Edge(w, ps[0])) == k then Share(count[ps[0]], countW, deltaW) else 0.0
  {
    assert ps[..0] == [];
  }

  /** A share between vertices with one shortest path each. */
  lemma ShareOfOne(d: real)
    ensures Share(1, 1, d) == d + 1.0
  {
  }

  /** a on the first edge of the path, b on the middle one, c on the last, 0 elsewhere. */
  function Weight(k: Edge, a: real, b: real, c: real): real {
    (if k == Edge(0, 1) then a else 0.0) + (if k == Edge(1, 2) then b else 0.0) + (if k == Edge(2, 3) then c else 0.0)
  }

  // ---------------------------------------------------------------------
  // The round from vertex 0

  /** The start of the search from 0. */
  function Zero0(): Search {
    Search([0], Four(0, -1, -1, -1), Four(1, 0, 0, 0), Four([], [], [], []))
  }

  /** The search from 0 once vertex 1 is reached. */
  function Zero1(): Search {
    Search([0, 1], Four(0, 1, -1, -1), Four(1, 1, 0, 0), Four([], [0], [], []))
  }

  /** The search from 0 once vertex 2 is reached. */
  function Zero2(): Search {
    Search([0, 1, 2], Four(0, 1, 2, -1), Four(1, 1, 1, 0), Four([], [0], [1], []))
  }

  /** The search from 0 once vertex 3 is reached. */
  function Zero3(): Search {
    Search([0, 1, 2, 3], Four(0, 1, 2, 3), Four(1, 1, 1, 1), Four([], [0], [1], [2]))
  }

  /** In the search from 0, the entry of 0's list leading to the unreached 1 queues it one level below 0. */
  lemma ZeroReach1()
    ensures Relaxed(0, 1, Zero0()) == Zero1()
  {
    var s := Zero0();
    RelaxedNewIs(0, 1, s.line, s.depth, s.count, s.preds);
    FourUpdate(0, -1, -1, -1, 1);
    FourUpdate(1, 0, 0, 0, 1);
    FourUpdate<seq<int>>([], [], [], [], [0]);
    assert s.line + [1] == [0, 1];
    assert s.depth[0] + 1 == 1 && s.count[1] + s.count[0] == 1;
    assert s.preds[1] + [0] == [0];
  }

  /** In the search from 0, the entry of 1's list leading to the unreached 2 queues it one level below 1. */
  lemma ZeroReach2()
    ensures Relaxed(1, 2, Zero1()) == Zero2()
  {
    var s := Zero1();
    RelaxedNewIs(1, 2, s.line, s.depth, s.count, s.preds);
    FourUpdate(0, 1, -1, -1, 2);
    FourUpdate(1, 1, 0, 0, 1);
    FourUpdate<seq<int>>([], [0], [], [], [1]);
    assert s.line + [2] == [0, 1, 2];
    assert s.depth[1] + 1 == 2 && s.count[2] + s.count[1] == 1;
    assert s.preds[2] + [1] == [1];
  }

  /** In the search from 0, the entry of 2's list leading to the unreached 3 queues it one level below 2. */
  lemma ZeroReach3()
    ensures Relaxed(2, 3, Zero2()) == Zero3()
  {
    var s := Zero2();
    RelaxedNewIs(2, 3, s.line, s.depth, s.count, s.preds);
    FourUpdate(0, 1, 2, -1, 3);
    FourUpdate(1, 1, 1, 0, 1);
    FourUpdate<seq<int>>([], [0], [1], [], [2]);
    assert s.line + [3] == [0, 1, 2, 3];
    assert s.depth[2] + 1 == 3 && s.count[3] + s.count[2] == 1;
    assert s.preds[3] + [2] == [2];
  }

  /** The scan of the list of 0, the vertex at position 0 of the search from 0. */
  lemma ZeroScan0()
    ensures Ends(Path()) && Keyed(Path(), Zero0())
    ensures Scanned(Path(), 0, 0, Zero0()) == Zero1()
  {
    var adj := Path();
    PathEnds();
    FourKeys();
    ZeroReach1();
    assert Scanned(adj, 0, 1, Zero1()) == Zero1();
  }

  /** The second entry of the list of 1 in the search from 0. */
  lemma ZeroScan1Rest()
    ensures Ends(Path()) && Keyed(Path(), Zero1())
    ensures Scanned(Path(), 1, 1, Zero1()) == Zero2()
  {
    var adj := Path();
    PathEnds();
    FourKeys();
    ZeroReach2();
    assert Scanned(adj, 1, 2, Zero2()) == Zero2();
  }

  /** The scan of the list of 1, the vertex at position 1 of the search from 0. */
  lemma ZeroScan1()
    ensures Ends(Path()) && Keyed(Path(), Zero1())
    ensures Scanned(Path(), 1, 0, Zero1()) == Zero2()
  {
    var adj := Path();
    PathEnds();
    FourKeys();
    assert Relaxed(1, 0, Zero1()) == Zero1();
    ZeroScan1Rest();
  }

  /** The second entry of the list of 2 in the search from 0. */
  lemma ZeroScan2Rest()
    ensures Ends(Path()) && Keyed(Path(), Zero2())
    ensures Scanned(Path(), 2, 1, Zero2()) == Zero3()
  {
    var adj := Path();
    PathEnds();
    FourKeys();
    ZeroReach3();
    assert Scanned(adj, 2, 2, Zero3()) == Zero3();
  }

  /** The scan of the list of 2, the vertex at position 2 of the search from 0. */
  lemma ZeroScan2()
    ensures Ends(Path()) && Keyed(Path(), Zero2())
    ensures Scanned(Path(), 2, 0, Zero2()) == Zero3()
  {
    var adj := Path();
    PathEnds();
    FourKeys();
    assert Relaxed(2, 1, Zero2()) == Zero2();
    ZeroScan2Rest();
  }

  /** The scan of the list of 3, the vertex at position 3 of the search from 0. */
  lemma ZeroScan3()
    ensures Ends(Path()) && Keyed(Path(), Zero3())
    ensures Scanned(Path(), 3, 0, Zero3()) == Zero3()
  {
    var adj := Path();
    PathEnds();
    FourKeys();
    assert Relaxed(3, 2, Zero3()) == Zero3();
    assert Scanned(adj, 3, 1, Zero3()) == Zero3();
  }

  /** The search from 0 starts with 0 alone reached. */
  lemma BeginZero()
    ensures Begin(Path(), 0) == Zero0()
  {
    assert Begin(Path(), 0).depth.Keys == {0, 1, 2, 3};
  }

  /** The search from 0, scan by scan. */
  lemma SearchFromZero()
    ensures Ends(Path()) && SearchFrom(Path(), 0) == Zero3()
  {
    var adj := Path();
    BeginZero();
    PathEnds();
    FourKeys();
    assert SearchFrom(adj, 0) == Searched(adj, 0, Zero0());
    SearchedStep(adj, 0, Zero0());
    ZeroScan0();
    SearchedStep(adj, 1, Zero1());
    ZeroScan1();
    SearchedStep(adj, 2, Zero2());
    ZeroScan2();
    SearchedStep(adj, 3, Zero3());
    ZeroScan3();
    assert Searched(adj, 4, Zero3()) == Zero3();
  }

  /** The stack the search from 0 leaves. */
  lemma ZeroStack()
    ensures var r := Zero3(); Stack(r.line, r.count, r.preds)
  {
    FourAt(1, 1, 1, 1);
    FourAt<seq<int>>([], [0], [1], [2]);
  }

  /** The dependency of 3, at position 3 of the stack of the search from 0. */
  lemma ZeroDep3()
    ensures var r := Zero3(); Stack(r.line, r.count, r.preds) && DepAt(r.line, r.count, r.preds, 3) == 0.0
  {
    ZeroStack();
    var r := Zero3();
    var line, count, preds := r.line, r.count, r.preds;
    FourAt(1, 1, 1, 1);
    FourAt<seq<int>>([], [0], [1], [2]);
    assert Owed(line, count, preds, 3, 4) == 0.0;
  }

  /** The dependency of 2, at position 2 of the stack of the search from 0. */
  lemma ZeroDep2()
    ensures var r := Zero3(); Stack(r.line, r.count, r.preds) && DepAt(r.line, r.count, r.preds, 2) == 1.0
  {
    ZeroStack();
    var r := Zero3();
    var line, count, preds := r.line, r.count, r.preds;
    FourAt(1, 1, 1, 1);
    FourAt<seq<int>>([], [0], [1], [2]);
    ZeroOwed2From3();
    assert Owed(line, count, preds, 2, 3) == 1.0;
  }

  /** The dependency of 1, at position 1 of the stack of the search from 0. */
  lemma ZeroDep1()
    ensures var r := Zero3(); Stack(r.line, r.count, r.preds) && DepAt(r.line, r.count, r.preds, 1) == 2.0
  {
    ZeroStack();
    var r := Zero3();
    var line, count, preds := r.line, r.count, r.preds;
    FourAt(1, 1, 1, 1);
    FourAt<seq<int>>([], [0], [1], [2]);
    ZeroOwed1From2();
    assert Owed(line, count, preds, 1, 2) == 2.0;
  }

  /** What the vertices at positions 3 and above of the stack of the search from 0 owe 2. */
  lemma ZeroOwed2From3()
    ensures var r := Zero3(); Stack(r.line, r.count, r.preds) && Owed(r.line, r.count, r.preds, 2, 3) == 1.0
  {
    ZeroStack();
    ZeroDep3();
    var r := Zero3();
    var line, count, preds := r.line, r.count, r.preds;
    FourAt(1, 1, 1, 1);
    FourAt<seq<int>>([], [0], [1], [2]);
    assert Owed(line, count, preds, 2, 4) == 0.0;
    CreditSingle(preds[3], 2, count, count[3], DepAt(line, count, preds, 3));
    ShareOfOne(DepAt(line, count, preds, 3));
  }

  /** What the vertices at positions 3 and above of the stack of the search from 0 owe 1. */
  lemma ZeroOwed1From3()
    ensures var r := Zero3(); Stack(r.line, r.count, r.preds) && Owed(r.line, r.count, r.preds, 1, 3) == 0.0
  {
    ZeroStack();
    ZeroDep3();
    var r := Zero3();
    var line, count, preds := r.line, r.count, r.preds;
    FourAt(1, 1, 1, 1);
    FourAt<seq<int>>([], [0], [1], [2]);
    assert Owed(line, count, preds, 1, 4) == 0.0;
    CreditSingle(preds[3], 1, count, count[3], DepAt(line, count, preds, 3));
    ShareOfOne(DepAt(line, count, preds, 3));
  }

  /** What the vertices at positions 2 and above of the stack of the search from 0 owe 1. */
  lemma ZeroOwed1From2()
    ensures var r := Zero3(); Stack(r.line, r.count, r.preds) && Owed(r.line, r.count, r.preds, 1, 2) == 2.0
  {
    ZeroStack();
    ZeroDep2();
    var r := Zero3();
    var line, count, preds := r.line, r.count, r.preds;
    FourAt(1, 1, 1, 1);
    FourAt<seq<int>>([], [0], [1], [2]);
    ZeroOwed1From3();
    CreditSingle(preds[2], 1, count, count[2], DepAt(line, count, preds, 2));
    ShareOfOne(DepAt(line, count, preds, 2));
  }

  /** What the vertices at positions 3 and above of the stack of the search from 0 add to each edge. */
  lemma ZeroScoredFrom3(k: Edge)
    ensures var r := Zero3(); Stack(r.line, r.count, r.preds) && Scored(r.line, r.count, r.preds, k, 3) == Weight(k, 0.0, 0.0, 1.0)
  {
    ZeroStack();
    ZeroDep3();
    var r := Zero3();
    var line, count, preds := r.line, r.count, r.preds;
    FourAt(1, 1, 1, 1);
    FourAt<seq<int>>([], [0], [1], [2]);
    assert Scored(line, count, preds, k, 4) == 0.0;
    EdgeCreditSingle(preds[3], k, 3, count, count[3], DepAt(line, count, preds, 3));
    ShareOfOne(DepAt(line, count, preds, 3));
  }

  /** What the vertices at positions 2 and above of the stack of the search from 0 add to each edge. */
  lemma ZeroScoredFrom2(k: Edge)
    ensures var r := Zero3(); Stack(r.line, r.count, r.preds) && Scored(r.line, r.count, r.preds, k, 2) == Weight(k, 0.0, 2.0, 1.0)
  {
    ZeroStack();
    ZeroDep2();
    var r := Zero3();
    var line, count, preds := r.line, r.count, r.preds;
    FourAt(1, 1, 1, 1);
    FourAt<seq<int>>([], [0], [1], [2]);
    ZeroScoredFrom3(k);
    EdgeCreditSingle(preds[2], k, 2, count, count[2], DepAt(line, count, preds, 2));
    ShareOfOne(DepAt(line, count, preds, 2));
  }

  /** What the vertices at positions 1 and above of the stack of the search from 0 add to each edge. */
  lemma ZeroScoredFrom1(k: Edge)
    ensures var r := Zero3(); Stack(r.line, r.count, r.preds) && Scored(r.line, r.count, r.preds, k, 1) == Weight(k, 3.0, 2.0, 1.0)
  {
    ZeroStack();
    ZeroDep1();
    var r := Zero3();
    var line, count, preds := r.line, r.count, r.preds;
    FourAt(1, 1, 1, 1);
    FourAt<seq<int>>([], [0], [1], [2]);
    ZeroScoredFrom2(k);
    EdgeCreditSingle(preds[1], k, 1, count, count[1], DepAt(line, count, preds, 1));
    ShareOfOne(DepAt(line, count, preds, 1));
  }

  /** What the pass after the search from 0 adds to each edge. */
  lemma ZeroScoredFrom0(k: Edge)
    ensures var r := Zero3(); Stack(r.line, r.count, r.preds) && Scored(r.line, r.count, r.preds, k, 0) == Weight(k, 3.0, 2.0, 1.0)
  {
    ZeroStack();
    var r := Zero3();
    var line, count, preds := r.line, r.count, r.preds;
    FourAt(1, 1, 1, 1);
    FourAt<seq<int>>([], [0], [1], [2]);
    ZeroScoredFrom1(k);
    assert preds[0] == [];
  }

  /** What the round from 0 adds to each edge. */
  lemma ZeroGain(k: Edge)
    ensures Ends(Path()) && Gain(Path(), 0, k) == Weight(k, 3.0, 2.0, 1.0)
  {
    SearchFromZero();
    ZeroScoredFrom0(k);
  }

  // ---------------------------------------------------------------------
  // The round from vertex 1

  /** The start of the search from 1. */
  function One0(): Search {
    Search([1], Four(-1, 0, -1, -1), Four(0, 1, 0, 0), Four([], [], [], []))
  }

  /** The search from 1 once vertex 0 is reached. */
  function One1(): Search {
    Search([1, 0], Four(1, 0, -1, -1), Four(1, 1, 0, 0), Four([1], [], [], []))
  }

  /** The search from 1 once vertex 2 is reached. */
  function One2(): Search {
    Search([1, 0, 2], Four(1, 0, 1, -1), Four(1, 1, 1, 0), Four([1], [], [1], []))
  }

  /** The search from 1 once vertex 3 is reached. */
  function One3(): Search {
    Search([1, 0, 2, 3], Four(1, 0, 1, 2), Four(1, 1, 1, 1), Four([1], [], [1], [2]))
  }

  /** In the search from 1, the entry of 1's list leading to the unreached 0 queues it one level below 1. */
  lemma OneReach0()
    ensures Relaxed(1, 0, One0()) == One1()
  {
    var s := One0();
    RelaxedNewIs(1, 0, s.line, s.depth, s.count, s.preds);
    FourUpdate(-1, 0, -1, -1, 1);
    FourUpdate(0, 1, 0, 0, 1);
    FourUpdate<seq<int>>([], [], [], [], [1]);
    assert s.line + [0] == [1, 0];
    assert s.depth[1] + 1 == 1 && s.count[0] + s.count[1] == 1;
    assert s.preds[0] + [1] == [1];
  }

  /** In the search from 1, the entry of 1's list leading to the unreached 2 queues it one level below 1. */
  lemma OneReach2()
    ensures Relaxed(1, 2, One1()) == One2()
  {
    var s := One1();
    RelaxedNewIs(1, 2, s.line, s.depth, s.count, s.preds);
    FourUpdate(1, 0, -1, -1, 1);
    FourUpdate(1, 1, 0, 0, 1);
    FourUpdate<seq<int>>([1], [], [], [], [1]);
    assert s.line + [2] == [1, 0, 2];
    assert s.depth[1] + 1 == 1 && s.count[2] + s.count[1] == 1;
    assert s.preds[2] + [1] == [1];
  }

  /** In the search from 1, the entry of 2's list leading to the unreached 3 queues it one level below 2. */
  lemma OneReach3()
    ensures Relaxed(2, 3, One2()) == One3()
  {
    var s := One2();
    RelaxedNewIs(2, 3, s.line, s.depth, s.count, s.preds);
    FourUpdate(1, 0, 1, -1, 2);
    FourUpdate(1, 1, 1, 0, 1);
    FourUpdate<seq<int>>([1], [], [1], [], [2]);
    assert s.line + [3] == [1, 0, 2, 3];
    assert s.depth[2] + 1 == 2 && s.count[3] + s.count[2] == 1;
    assert s.preds[3] + [2] == [2];
  }

  /** The second entry of the list of 1 in the search from 1. */
  lemma OneScan0Rest()
    ensures Ends(Path()) && Keyed(Path(), One1())
    ensures Scanned(Path(), 1, 1, One1()) == One2()
  {
    var adj := Path();
    PathEnds();
    FourKeys();
    OneReach2();
    assert Scanned(adj, 1, 2, One2()) == One2();
  }

  /** The scan of the list of 1, the vertex at position 0 of the search from 1. */
  lemma OneScan0()
    ensures Ends(Path()) && Keyed(Path(), One0())
    ensures Scanned(Path(), 1, 0, One0()) == One2()
  {
    var adj := Path();
    PathEnds();
    FourKeys();
    OneReach0();
    OneScan0Rest();
  }

  /** The scan of the list of 0, the vertex at position 1 of the search from 1. */
  lemma OneScan1()
    ensures Ends(Path()) && Keyed(Path(), One2())
    ensures Scanned(Path(), 0, 0, One2()) == One2()
  {
    var adj := Path();
    PathEnds();
    FourKeys();
    assert Relaxed(0, 1, One2()) == One2();
    assert Scanned(adj, 0, 1, One2()) == One2();
  }

  /** The second entry of the list of 2 in the search from 1. */
  lemma OneScan2Rest()
    ensures Ends(Path()) && Keyed(Path(), One2())
    ensures Scanned(Path(), 2, 1, One2()) == One3()
  {
    var adj := Path();
    PathEnds();
    FourKeys();
    OneReach3();
    assert Scanned(adj, 2, 2, One3()) == One3();
  }

  /** The scan of the list of 2, the vertex at position 2 of the search from 1. */
  lemma OneScan2()
    ensures Ends(Path()) && Keyed(Path(), One2())
    ensures Scanned(Path(), 2, 0, One2()) == One3()
  {
    var adj := Path();
    PathEnds();
    FourKeys();
    assert Relaxed(2, 1, One2()) == One2();
    OneScan2Rest();
  }

  /** The scan of the list of 3, the vertex at position 3 of the search from 1. */
  lemma OneScan3()
    ensures Ends(Path()) && Keyed(Path(), One3())
    ensures Scanned(Path(), 3, 0, One3()) == One3()
  {
    var adj := Path();
    PathEnds();
    FourKeys();
    assert Relaxed(3, 2, One3()) == One3();
    assert Scanned(adj, 3, 1, One3()) == One3();
  }

  /** The search from 1 starts with 1 alone reached. */
  lemma BeginOne()
    ensures Begin(Path(), 1) == One0()
  {
    assert Begin(Path(), 1).depth.Keys == {0, 1, 2, 3};
  }

  /** The search from 1, scan by scan. */
  lemma SearchFromOne()
    ensures Ends(Path()) && SearchFrom(Path(), 1) == One3()
  {
    var adj := Path();
    BeginOne();
    PathEnds();
    FourKeys();
    assert SearchFrom(adj, 1) == Searched(adj, 0, One0());
    SearchedStep(adj, 0, One0());
    OneScan0();
    SearchedStep(adj, 1, One2());
    OneScan1();
    SearchedStep(adj, 2, One2());
    OneScan2();
    SearchedStep(adj, 3, One3());
    OneScan3();
    assert Searched(adj, 4, One3()) == One3();
  }

  /** The stack the search from 1 leaves. */
  lemma OneStack()
    ensures var r := One3(); Stack(r.line, r.count, r.preds)
  {
    FourAt(1, 1, 1, 1);
    FourAt<seq<int>>([1], [], [1], [2]);
  }

  /** The dependency of 3, at position 3 of the stack of the search from 1. */
  lemma OneDep3()
    ensures var r := One3(); Stack(r.line, r.count, r.preds) && DepAt(r.line, r.count, r.preds, 3) == 0.0
  {
    OneStack();
    var r := One3();
    var line, count, preds := r.line, r.count, r.preds;
    FourAt(1, 1, 1, 1);
    FourAt<seq<int>>([1], [], [1], [2]);
    assert Owed(line, count, preds, 3, 4) == 0.0;
  }

  /** The dependency of 2, at position 2 of the stack of the search from 1. */
  lemma OneDep2()
    ensures var r := One3(); Stack(r.line, r.count, r.preds) && DepAt(r.line, r.count, r.preds, 2) == 1.0
  {
    OneStack();
    var r := One3();
    var line, count, preds := r.line, r.count, r.preds;
    FourAt(1, 1, 1, 1);
    FourAt<seq<int>>([1], [], [1], [2]);
    OneOwed2From3();
    assert Owed(line, count, preds, 2, 3) == 1.0;
  }

  /** The dependency of 0, at position 1 of the stack of the search from 1. */
  lemma OneDep1()
    ensures var r := One3(); Stack(r.line, r.count, r.preds) && DepAt(r.line, r.count, r.preds, 1) == 0.0
  {
    OneStack();
    var r := One3();
    var line, count, preds := r.line, r.count, r.preds;
    FourAt(1, 1, 1, 1);
    FourAt<seq<int>>([1], [], [1], [2]);
    OneOwed0From2();
    assert Owed(line, count, preds, 0, 2) == 0.0;
  }

  /** What the vertices at positions 3 and above of the stack of the search from 1 owe 2. */
  lemma OneOwed2From3()
    ensures var r := One3(); Stack(r.line, r.count, r.preds) && Owed(r.line, r.count, r.preds, 2, 3) == 1.0
  {
    OneStack();
    OneDep3();
    var r := One3();
    var line, count, preds := r.line, r.count, r.preds;
    FourAt(1, 1, 1, 1);
    FourAt<seq<int>>([1], [], [1], [2]);
    assert Owed(line, count, preds, 2, 4) == 0.0;
    CreditSingle(preds[3], 2, count, count[3], DepAt(line, count, preds, 3));
    ShareOfOne(DepAt(line, count, preds, 3));
  }

  /** What the vertices at positions 3 and above of the stack of the search from 1 owe 0. */
  lemma OneOwed0From3()
    ensures var r := One3(); Stack(r.line, r.count, r.preds) && Owed(r.line, r.count, r.preds, 0, 3) == 0.0
  {
    OneStack();
    OneDep3();
    var r := One3();
    var line, count, preds := r.line, r.count, r.preds;
    FourAt(1, 1, 1, 1);
    FourAt<seq<int>>([1], [], [1], [2]);
    assert Owed(line, count, preds, 0, 4) == 0.0;
    CreditSingle(preds[3], 0, count, count[3], DepAt(line, count, preds, 3));
    ShareOfOne(DepAt(line, count, preds, 3));
  }

  /** What the vertices at positions 2 and above of the stack of the search from 1 owe 0. */
  lemma OneOwed0From2()
    ensures var r := One3(); Stack(r.line, r.count, r.preds) && Owed(r.line, r.count, r.preds, 0, 2) == 0.0
  {
    OneStack();
    OneDep2();
    var r := One3();
    var line, count, preds := r.line, r.count, r.preds;
    FourAt(1, 1, 1, 1);
    FourAt<seq<int>>([1], [], [1], [2]);
    OneOwed0From3();
    CreditSingle(preds[2], 0, count, count[2], DepAt(line, count, preds, 2));
    ShareOfOne(DepAt(line, count, preds, 2));
  }

  /** What the vertices at positions 3 and above of the stack of the search from 1 add to each edge. */
  lemma OneScoredFrom3(k: Edge)
    ensures var r := One3(); Stack(r.line, r.count, r.preds) && Scored(r.line, r.count, r.preds, k, 3) == Weight(k, 0.0, 0.0, 1.0)
  {
    OneStack();
    OneDep3();
    var r := One3();
    var line, count, preds := r.line, r.count, r.preds;
    FourAt(1, 1, 1, 1);
    FourAt<seq<int>>([1], [], [1], [2]);
    assert Scored(line, count, preds, k, 4) == 0.0;
    EdgeCreditSingle(preds[3], k, 3, count, count[3], DepAt(line, count, preds, 3));
    ShareOfOne(DepAt(line, count, preds, 3));
  }

  /** What the vertices at positions 2 and above of the stack of the search from 1 add to each edge. */
  lemma OneScoredFrom2(k: Edge)
    ensures var r := One3(); Stack(r.line, r.count, r.preds) && Scored(r.line, r.count, r.preds, k, 2) == Weight(k, 0.0, 2.0, 1.0)
  {
    OneStack();
    OneDep2();
    var r := One3();
    var line, count, preds := r.line, r.count, r.preds;
    FourAt(1, 1, 1, 1);
    FourAt<seq<int>>([1], [], [1], [2]);
    OneScoredFrom3(k);
    EdgeCreditSingle(preds[2], k, 2, count, count[2], DepAt(line, count, preds, 2));
    ShareOfOne(DepAt(line, count, preds, 2));
  }

  /** What the vertices at positions 1 and above of the stack of the search from 1 add to each edge. */
  lemma OneScoredFrom1(k: Edge)
    ensures var r := One3(); Stack(r.line, r.count, r.preds) && Scored(r.line, r.count, r.preds, k, 1) == Weight(k, 1.0, 2.0, 1.0)
  {
    OneStack();
    OneDep1();
    var r := One3();
    var line, count, preds := r.line, r.count, r.preds;
    FourAt(1, 1, 1, 1);
    FourAt<seq<int>>([1], [], [1], [2]);
    OneScoredFrom2(k);
    EdgeCreditSingle(preds[0], k, 0, count, count[0], DepAt(line, count, preds, 1));
    ShareOfOne(DepAt(line, count, preds, 1));
  }

  /** What the pass after the search from 1 adds to each edge. */
  lemma OneScoredFrom0(k: Edge)
    ensures var r := One3(); Stack(r.line, r.count, r.preds) && Scored(r.line, r.count, r.preds, k, 0) == Weight(k, 1.0, 2.0, 1.0)
  {
    OneStack();
    var r := One3();
    var line, count, preds := r.line, r.count, r.preds;
    FourAt(1, 1, 1, 1);
    FourAt<seq<int>>([1], [], [1], [2]);
    OneScoredFrom1(k);
    assert preds[1] == [];
  }

  /** What the round from 1 adds to each edge. */
  lemma OneGain(k: Edge)
    ensures Ends(Path()) && Gain(Path(), 1, k) == Weight(k, 1.0, 2.0, 1.0)
  {
    SearchFromOne();
    OneScoredFrom0(k);
  }

  // ---------------------------------------------------------------------
  // The round from vertex 2

  /** The start of the search from 2. */
  function Two0(): Search {
    Search([2], Four(-1, -1, 0, -1), Four(0, 0, 1, 0), Four([], [], [], []))
  }

  /** The search from 2 once vertex 1 is reached. */
  function Two1(): Search {
    Search([2, 1], Four(-1, 1, 0, -1), Four(0, 1, 1, 0), Four([], [2], [], []))
  }

  /** The search from 2 once vertex 3 is reached. */
  function Two2(): Search {
    Search([2, 1, 3], Four(-1, 1, 0, 1), Four(0, 1, 1, 1), Four([], [2], [], [2]))
  }

  /** The search from 2 once vertex 0 is reached. */
  function Two3(): Search {
    Search([2, 1, 3, 0], Four(2, 1, 0, 1), Four(1, 1, 1, 1), Four([1], [2], [], [2]))
  }

  /** In the search from 2, the entry of 2's list leading to the unreached 1 queues it one level below 2. */
  lemma TwoReach1()
    ensures Relaxed(2, 1, Two0()) == Two1()
  {
    var s := Two0();
    RelaxedNewIs(2, 1, s.line, s.depth, s.count, s.preds);
    FourUpdate(-1, -1, 0, -1, 1);
    FourUpdate(0, 0, 1, 0, 1);
    FourUpdate<seq<int>>([], [], [], [], [2]);
    assert s.line + [1] == [2, 1];
    assert s.depth[2] + 1 == 1 && s.count[1] + s.count[2] == 1;
    assert s.preds[1] + [2] == [2];
  }

  /** In the search from 2, the entry of 2's list leading to the unreached 3 queues it one level below 2. */
  lemma TwoReach3()
    ensures Relaxed(2, 3, Two1()) == Two2()
  {
    var s := Two1();
    RelaxedNewIs(2, 3, s.line, s.depth, s.count, s.preds);
    FourUpdate(-1, 1, 0, -1, 1);
    FourUpdate(0, 1, 1, 0, 1);
    FourUpdate<seq<int>>([], [2], [], [], [2]);
    assert s.line + [3] == [2, 1, 3];
    assert s.depth[2] + 1 == 1 && s.count[3] + s.count[2] == 1;
    assert s.preds[3] + [2] == [2];
  }

  /** In the search from 2, the entry of 1's list leading to the unreached 0 queues it one level below 1. */
  lemma TwoReach0()
    ensures Relaxed(1, 0, Two2()) == Two3()
  {
    var s := Two2();
    RelaxedNewIs(1, 0, s.line, s.depth, s.count, s.preds);
    FourUpdate(-1, 1, 0, 1, 2);
    FourUpdate(0, 1, 1, 1, 1);
    FourUpdate<seq<int>>([], [2], [], [2], [1]);
    assert s.line + [0] == [2, 1, 3, 0];
    assert s.depth[1] + 1 == 2 && s.count[0] + s.count[1] == 1;
    assert s.preds[0] + [1] == [1];
  }

  /** The second entry of the list of 2 in the search from 2. */
  lemma TwoScan0Rest()
    ensures Ends(Path()) && Keyed(Path(), Two1())
    ensures Scanned(Path(), 2, 1, Two1()) == Two2()
  {
    var adj := Path();
    PathEnds();
    FourKeys();
    TwoReach3();
    assert Scanned(adj, 2, 2, Two2()) == Two2();
  }

  /** The scan of the list of 2, the vertex at position 0 of the search from 2. */
  lemma TwoScan0()
    ensures Ends(Path()) && Keyed(Path(), Two0())
    ensures Scanned(Path(), 2, 0, Two0()) == Two2()
  {
    var adj := Path();
    PathEnds();
    FourKeys();
    TwoReach1();
    TwoScan0Rest();
  }

  /** The second entry of the list of 1 in the search from 2. */
  lemma TwoScan1Rest()
    ensures Ends(Path()) && Keyed(Path(), Two3())
    ensures Scanned(Path(), 1, 1, Two3()) == Two3()
  {
    var adj := Path();
    PathEnds();
    FourKeys();
    assert Relaxed(1, 2, Two3()) == Two3();
    assert Scanned(adj, 1, 2, Two3()) == Two3();
  }

  /** The scan of the list of 1, the vertex at position 1 of the search from 2. */
  lemma TwoScan1()
    ensures Ends(Path()) && Keyed(Path(), Two2())
    ensures Scanned(Path(), 1, 0, Two2()) == Two3()
  {
    var adj := Path();
    PathEnds();
    FourKeys();
    TwoReach0();
    TwoScan1Rest();
  }

  /** The scan of the list of 3, the vertex at position 2 of the search from 2. */
  lemma TwoScan2()
    ensures Ends(Path()) && Keyed(Path(), Two3())
    ensures Scanned(Path(), 3, 0, Two3()) == Two3()
  {
    var adj := Path();
    PathEnds();
    FourKeys();
    assert Relaxed(3, 2, Two3()) == Two3();
    assert Scanned(adj, 3, 1, Two3()) == Two3();
  }

  /** The scan of the list of 0, the vertex at position 3 of the search from 2. */
  lemma TwoScan3()
    ensures Ends(Path()) && Keyed(Path(), Two3())
    ensures Scanned(Path(), 0, 0, Two3()) == Two3()
  {
    var adj := Path();
    PathEnds();
    FourKeys();
    assert Relaxed(0, 1, Two3()) == Two3();
    assert Scanned(adj, 0, 1, Two3()) == Two3();
  }

  /** The search from 2 starts with 2 alone reached. */
  lemma BeginTwo()
    ensures Begin(Path(), 2) == Two0()
  {
    assert Begin(Path(), 2).depth.Keys == {0, 1, 2, 3};
  }

  /** The search from 2, scan by scan. */
  lemma SearchFromTwo()
    ensures Ends(Path()) && SearchFrom(Path(), 2) == Two3()
  {
    var adj := Path();
    BeginTwo();
    PathEnds();
    FourKeys();
    assert SearchFrom(adj, 2) == Searched(adj, 0, Two0());
    SearchedStep(adj, 0, Two0());
    TwoScan0();
    SearchedStep(adj, 1, Two2());
    TwoScan1();
    SearchedStep(adj, 2, Two3());
    TwoScan2();
    SearchedStep(adj, 3, Two3());
    TwoScan3();
    assert Searched(adj, 4, Two3()) == Two3();
  }

  /** The stack the search from 2 leaves. */
  lemma TwoStack()
    ensures var r := Two3(); Stack(r.line, r.count, r.preds)
  {
    FourAt(1, 1, 1, 1);
    FourAt<seq<int>>([1], [2], [], [2]);
  }

  /** The dependency of 0, at position 3 of the stack of the search from 2. */
  lemma TwoDep3()
    ensures var r := Two3(); Stack(r.line, r.count, r.preds) && DepAt(r.line, r.count, r.preds, 3) == 0.0
  {
    TwoStack();
    var r := Two3();
    var line, count, preds := r.line, r.count, r.preds;
    FourAt(1, 1, 1, 1);
    FourAt<seq<int>>([1], [2], [], [2]);
    assert Owed(line, count, preds, 0, 4) == 0.0;
  }

  /** The dependency of 3, at position 2 of the stack of the search from 2. */
  lemma TwoDep2()
    ensures var r := Two3(); Stack(r.line, r.count, r.preds) && DepAt(r.line, r.count, r.preds, 2) == 0.0
  {
    TwoStack();
    var r := Two3();
    var line, count, preds := r.line, r.count, r.preds;
    FourAt(1, 1, 1, 1);
    FourAt<seq<int>>([1], [2], [], [2]);
    TwoOwed3From3();
    assert Owed(line, count, preds, 3, 3) == 0.0;
  }

  /** The dependency of 1, at position 1 of the stack of the search from 2. */
  lemma TwoDep1()
    ensures var r := Two3(); Stack(r.line, r.count, r.preds) && DepAt(r.line, r.count, r.preds, 1) == 1.0
  {
    TwoStack();
    var r := Two3();
    var line, count, preds := r.line, r.count, r.preds;
    FourAt(1, 1, 1, 1);
    FourAt<seq<int>>([1], [2], [], [2]);
    TwoOwed1From2();
    assert Owed(line, count, preds, 1, 2) == 1.0;
  }

  /** What the vertices at positions 3 and above of the stack of the search from 2 owe 3. */
  lemma TwoOwed3From3()
    ensures var r := Two3(); Stack(r.line, r.count, r.preds) && Owed(r.line, r.count, r.preds, 3, 3) == 0.0
  {
    TwoStack();
    TwoDep3();
    var r := Two3();
    var line, count, preds := r.line, r.count, r.preds;
    FourAt(1, 1, 1, 1);
    FourAt<seq<int>>([1], [2], [], [2]);
    assert Owed(line, count, preds, 3, 4) == 0.0;
    CreditSingle(preds[0], 3, count, count[0], DepAt(line, count, preds, 3));
    ShareOfOne(DepAt(line, count, preds, 3));
  }

  /** What the vertices at positions 3 and above of the stack of the search from 2 owe 1. */
  lemma TwoOwed1From3()
    ensures var r := Two3(); Stack(r.line, r.count, r.preds) && Owed(r.line, r.count, r.preds, 1, 3) == 1.0
  {
    TwoStack();
    TwoDep3();
    var r := Two3();
    var line, count, preds := r.line, r.count, r.preds;
    FourAt(1, 1, 1, 1);
    FourAt<seq<int>>([1], [2], [], [2]);
    assert Owed(line, count, preds, 1, 4) == 0.0;
    CreditSingle(preds[0], 1, count, count[0], DepAt(line, count, preds, 3));
    ShareOfOne(DepAt(line, count, preds, 3));
  }

  /** What the vertices at positions 2 and above of the stack of the search from 2 owe 1. */
  lemma TwoOwed1From2()
    ensures var r := Two3(); Stack(r.line, r.count, r.preds) && Owed(r.line, r.count, r.preds, 1, 2) == 1.0
  {
    TwoStack();
    TwoDep2();
    var r := Two3();
    var line, count, preds := r.line, r.count, r.preds;
    FourAt(1, 1, 1, 1);
    FourAt<seq<int>>([1], [2], [], [2]);
    TwoOwed1From3();
    CreditSingle(preds[3], 1, count, count[3], DepAt(line, count, preds, 2));
    ShareOfOne(DepAt(line, count, preds, 2));
  }

  /** What the vertices at positions 3 and above of the stack of the search from 2 add to each edge. */
  lemma TwoScoredFrom3(k: Edge)
    ensures var r := Two3(); Stack(r.line, r.count, r.preds) && Scored(r.line, r.count, r.preds, k, 3) == Weight(k, 1.0, 0.0, 0.0)
  {
    TwoStack();
    TwoDep3();
    var r := Two3();
    var line, count, preds := r.line, r.count, r.preds;
    FourAt(1, 1, 1, 1);
    FourAt<seq<int>>([1], [2], [], [2]);
    assert Scored(line, count, preds, k, 4) == 0.0;
    EdgeCreditSingle(preds[0], k, 0, count, count[0], DepAt(line, count, preds, 3));
    ShareOfOne(DepAt(line, count, preds, 3));
  }

  /** What the vertices at positions 2 and above of the stack of the search from 2 add to each edge. */
  lemma TwoScoredFrom2(k: Edge)
    ensures var r := Two3(); Stack(r.line, r.count, r.preds) && Scored(r.line, r.count, r.preds, k, 2) == Weight(k, 1.0, 0.0, 1.0)
  {
    TwoStack();
    TwoDep2();
    var r := Two3();
    var line, count, preds := r.line, r.count, r.preds;
    FourAt(1, 1, 1, 1);
    FourAt<seq<int>>([1], [2], [], [2]);
    TwoScoredFrom3(k);
    EdgeCreditSingle(preds[3], k, 3, count, count[3], DepAt(line, count, preds, 2));
    ShareOfOne(DepAt(line, count, preds, 2));
  }

  /** What the vertices at positions 1 and above of the stack of the search from 2 add to each edge. */
  lemma TwoScoredFrom1(k: Edge)
    ensures var r := Two3(); Stack(r.line, r.count, r.preds) && Scored(r.line, r.count, r.preds, k, 1) == Weight(k, 1.0, 2.0, 1.0)
  {
    TwoStack();
    TwoDep1();
    var r := Two3();
    var line, count, preds := r.line, r.count, r.preds;
    FourAt(1, 1, 1, 1);
    FourAt<seq<int>>([1], [2], [], [2]);
    TwoScoredFrom2(k);
    EdgeCreditSingle(preds[1], k, 1, count, count[1], DepAt(line, count, preds, 1));
    ShareOfOne(DepAt(line, count, preds, 1));
  }

  /** What the pass after the search from 2 adds to each edge. */
  lemma TwoScoredFrom0(k: Edge)
    ensures var r := Two3(); Stack(r.line, r.count, r.preds) && Scored(r.line, r.count, r.preds, k, 0) == Weight(k, 1.0, 2.0, 1.0)
  {
    TwoStack();
    var r := Two3();
    var line, count, preds := r.line, r.count, r.preds;
    FourAt(1, 1, 1, 1);
    FourAt<seq<int>>([1], [2], [], [2]);
    TwoScoredFrom1(k);
    assert preds[2] == [];
  }

  /** What the round from 2 adds to each edge. */
  lemma TwoGain(k: Edge)
    ensures Ends(Path()) && Gain(Path(), 2, k) == Weight(k, 1.0, 2.0, 1.0)
  {
    SearchFromTwo();
    TwoScoredFrom0(k);
  }

  // ---------------------------------------------------------------------
  // The round from vertex 3

  /** The start of the search from 3. */
  function Three0(): Search {
    Search([3], Four(-1, -1, -1, 0), Four(0, 0, 0, 1), Four([], [], [], []))
  }

  /** The search from 3 once vertex 2 is reached. */
  function Three1(): Search {
    Search([3, 2], Four(-1, -1, 1, 0), Four(0, 0, 1, 1), Four([], [], [3], []))
  }

  /** The search from 3 once vertex 1 is reached. */
  function Three2(): Search {
    Search([3, 2, 1], Four(-1, 2, 1, 0), Four(0, 1, 1, 1), Four([], [2], [3], []))
  }

  /** The search from 3 once vertex 0 is reached. */
  function Three3(): Search {
    Search([3, 2, 1, 0], Four(3, 2, 1, 0), Four(1, 1, 1, 1), Four([1], [2], [3], []))
  }

  /** In the search from 3, the entry of 3's list leading to the unreached 2 queues it one level below 3. */
  lemma ThreeReach2()
    ensures Relaxed(3, 2, Three0()) == Three1()
  {
    var s := Three0();
    RelaxedNewIs(3, 2, s.line, s.depth, s.count, s.preds);
    FourUpdate(-1, -1, -1, 0, 1);
    FourUpdate(0, 0, 0, 1, 1);
    FourUpdate<seq<int>>([], [], [], [], [3]);
    assert s.line + [2] == [3, 2];
    assert s.depth[3] + 1 == 1 && s.count[2] + s.count[3] == 1;
    assert s.preds[2] + [3] == [3];
  }

  /** In the search from 3, the entry of 2's list leading to the unreached 1 queues it one level below 2. */
  lemma ThreeReach1()
    ensures Relaxed(2, 1, Three1()) == Three2()
  {
    var s := Three1();
    RelaxedNewIs(2, 1, s.line, s.depth, s.count, s.preds);
    FourUpdate(-1, -1, 1, 0, 2);
    FourUpdate(0, 0, 1, 1, 1);
    FourUpdate<seq<int>>([], [], [3], [], [2]);
    assert s.line + [1] == [3, 2, 1];
    assert s.depth[2] + 1 == 2 && s.count[1] + s.count[2] == 1;
    assert s.preds[1] + [2] == [2];
  }

  /** In the search from 3, the entry of 1's list leading to the unreached 0 queues it one level below 1. */
  lemma ThreeReach0()
    ensures Relaxed(1, 0, Three2()) == Three3()
  {
    var s := Three2();
    RelaxedNewIs(1, 0, s.line, s.depth, s.count, s.preds);
    FourUpdate(-1, 2, 1, 0, 3);
    FourUpdate(0, 1, 1, 1, 1);
    FourUpdate<seq<int>>([], [2], [3], [], [1]);
    assert s.line + [0] == [3, 2, 1, 0];
    assert s.depth[1] + 1 == 3 && s.count[0] + s.count[1] == 1;
    assert s.preds[0] + [1] == [1];
  }

  /** The scan of the list of 3, the vertex at position 0 of the search from 3. */
  lemma ThreeScan0()
    ensures Ends(Path()) && Keyed(Path(), Three0())
    ensures Scanned(Path(), 3, 0, Three0()) == Three1()
  {
    var adj := Path();
    PathEnds();
    FourKeys();
    ThreeReach2();
    assert Scanned(adj, 3, 1, Three1()) == Three1();
  }

  /** The second entry of the list of 2 in the search from 3. */
  lemma ThreeScan1Rest()
    ensures Ends(Path()) && Keyed(Path(), Three2())
    ensures Scanned(Path(), 2, 1, Three2()) == Three2()
  {
    var adj := Path();
    PathEnds();
    FourKeys();
    assert Relaxed(2, 3, Three2()) == Three2();
    assert Scanned(adj, 2, 2, Three2()) == Three2();
  }

  /** The scan of the list of 2, the vertex at position 1 of the search from 3. */
  lemma ThreeScan1()
    ensures Ends(Path()) && Keyed(Path(), Three1())
    ensures Scanned(Path(), 2, 0, Three1()) == Three2()
  {
    var adj := Path();
    PathEnds();
    FourKeys();
    ThreeReach1();
    ThreeScan1Rest();
  }

  /** The second entry of the list of 1 in the search from 3. */
  lemma ThreeScan2Rest()
    ensures Ends(Path()) && Keyed(Path(), Three3())
    ensures Scanned(Path(), 1, 1, Three3()) == Three3()
  {
    var adj := Path();
    PathEnds();
    FourKeys();
    assert Relaxed(1, 2, Three3()) == Three3();
    assert Scanned(adj, 1, 2, Three3()) == Three3();
  }

  /** The scan of the list of 1, the vertex at position 2 of the search from 3. */
  lemma ThreeScan2()
    ensures Ends(Path()) && Keyed(Path(), Three2())
    ensures Scanned(Path(), 1, 0, Three2()) == Three3()
  {
    var adj := Path();
    PathEnds();
    FourKeys();
    ThreeReach0();
    ThreeScan2Rest();
  }

  /** The scan of the list of 0, the vertex at position 3 of the search from 3. */
  lemma ThreeScan3()
    ensures Ends(Path()) && Keyed(Path(), Three3())
    ensures Scanned(Path(), 0, 0, Three3()) == Three3()
  {
    var adj := Path();
    PathEnds();
    FourKeys();
    assert Relaxed(0, 1, Three3()) == Three3();
    assert Scanned(adj, 0, 1, Three3()) == Three3();
  }

  /** The search from 3 starts with 3 alone reached. */
  lemma BeginThree()
    ensures Begin(Path(), 3) == Three0()
  {
    assert Begin(Path(), 3).depth.Keys == {0, 1, 2, 3};
  }

  /** The search from 3, scan by scan. */
  lemma SearchFromThree()
    ensures Ends(Path()) && SearchFrom(Path(), 3) == Three3()
  {
    var adj := Path();
    BeginThree();
    PathEnds();
    FourKeys();
    assert SearchFrom(adj, 3) == Searched(adj, 0, Three0());
    SearchedStep(adj, 0, Three0());
    ThreeScan0();
    SearchedStep(adj, 1, Three1());
    ThreeScan1();
    SearchedStep(adj, 2, Three2());
    ThreeScan2();
    SearchedStep(adj, 3, Three3());
    ThreeScan3();
    assert Searched(adj, 4, Three3()) == Three3();
  }

  /** The stack the search from 3 leaves. */
  lemma ThreeStack()
    ensures var r := Three3(); Stack(r.line, r.count, r.preds)
  {
    FourAt(1, 1, 1, 1);
    FourAt<seq<int>>([1], [2], [3], []);
  }

  /** The dependency of 0, at position 3 of the stack of the search from 3. */
  lemma ThreeDep3()
    ensures var r := Three3(); Stack(r.line, r.count, r.preds) && DepAt(r.line, r.count, r.preds, 3) == 0.0
  {
    ThreeStack();
    var r := Three3();
    var line, count, preds := r.line, r.count, r.preds;
    FourAt(1, 1, 1, 1);
    FourAt<seq<int>>([1], [2], [3], []);
    assert Owed(line, count, preds, 0, 4) == 0.0;
  }

  /** The dependency of 1, at position 2 of the stack of the search from 3. */
  lemma ThreeDep2()
    ensures var r := Three3(); Stack(r.line, r.count, r.preds) && DepAt(r.line, r.count, r.preds, 2) == 1.0
  {
    ThreeStack();
    var r := Three3();
    var line, count, preds := r.line, r.count, r.preds;
    FourAt(1, 1, 1, 1);
    FourAt<seq<int>>([1], [2], [3], []);
    ThreeOwed1From3();
    assert Owed(line, count, preds, 1, 3) == 1.0;
  }

  /** The dependency of 2, at position 1 of the stack of the search from 3. */
  lemma ThreeDep1()
    ensures var r := Three3(); Stack(r.line, r.count, r.preds) && DepAt(r.line, r.count, r.preds, 1) == 2.0
  {
    ThreeStack();
    var r := Three3();
    var line, count, preds := r.line, r.count, r.preds;
    FourAt(1, 1, 1, 1);
    FourAt<seq<int>>([1], [2], [3], []);
    ThreeOwed2From2();
    assert Owed(line, count, preds, 2, 2) == 2.0;
  }

  /** What the vertices at positions 3 and above of the stack of the search from 3 owe 1. */
  lemma ThreeOwed1From3()
    ensures var r := Three3(); Stack(r.line, r.count, r.preds) && Owed(r.line, r.count, r.preds, 1, 3) == 1.0
  {
    ThreeStack();
    ThreeDep3();
    var r := Three3();
    var line, count, preds := r.line, r.count, r.preds;
    FourAt(1, 1, 1, 1);
    FourAt<seq<int>>([1], [2], [3], []);
    assert Owed(line, count, preds, 1, 4) == 0.0;
    CreditSingle(preds[0], 1, count, count[0], DepAt(line, count, preds, 3));
    ShareOfOne(DepAt(line, count, preds, 3));
  }

  /** What the vertices at positions 3 and above of the stack of the search from 3 owe 2. */
  lemma ThreeOwed2From3()
    ensures var r := Three3(); Stack(r.line, r.count, r.preds) && Owed(r.line, r.count, r.preds, 2, 3) == 0.0
  {
    ThreeStack();
    ThreeDep3();
    var r := Three3();
    var line, count, preds := r.line, r.count, r.preds;
    FourAt(1, 1, 1, 1);
    FourAt<seq<int>>([1], [2], [3], []);
    assert Owed(line, count, preds, 2, 4) == 0.0;
    CreditSingle(preds[0], 2, count, count[0], DepAt(line, count, preds, 3));
    ShareOfOne(DepAt(line, count, preds, 3));
  }

  /** What the vertices at positions 2 and above of the stack of the search from 3 owe 2. */
  lemma ThreeOwed2From2()
    ensures var r := Three3(); Stack(r.line, r.count, r.preds) && Owed(r.line, r.count, r.preds, 2, 2) == 2.0
  {
    ThreeStack();
    ThreeDep2();
    var r := Three3();
    var line, count, preds := r.line, r.count, r.preds;
    FourAt(1, 1, 1, 1);
    FourAt<seq<int>>([1], [2], [3], []);
    ThreeOwed2From3();
    CreditSingle(preds[1], 2, count, count[1], DepAt(line, count, preds, 2));
    ShareOfOne(DepAt(line, count, preds, 2));
  }

  /** What the vertices at positions 3 and above of the stack of the search from 3 add to each edge. */
  lemma ThreeScoredFrom3(k: Edge)
    ensures var r := Three3(); Stack(r.line, r.count, r.preds) && Scored(r.line, r.count, r.preds, k, 3) == Weight(k, 1.0, 0.0, 0.0)
  {
    ThreeStack();
    ThreeDep3();
    var r := Three3();
    var line, count, preds := r.line, r.count, r.preds;
    FourAt(1, 1, 1, 1);
    FourAt<seq<int>>([1], [2], [3], []);
    assert Scored(line, count, preds, k, 4) == 0.0;
    EdgeCreditSingle(preds[0], k, 0, count, count[0], DepAt(line, count, preds, 3));
    ShareOfOne(DepAt(line, count, preds, 3));
  }

  /** What the vertices at positions 2 and above of the stack of the search from 3 add to each edge. */
  lemma ThreeScoredFrom2(k: Edge)
    ensures var r := Three3(); Stack(r.line, r.count, r.preds) && Scored(r.line, r.count, r.preds, k, 2) == Weight(k, 1.0, 2.0, 0.0)
  {
    ThreeStack();
    ThreeDep2();
    var r := Three3();
    var line, count, preds := r.line, r.count, r.preds;
    FourAt(1, 1, 1, 1);
    FourAt<seq<int>>([1], [2], [3], []);
    ThreeScoredFrom3(k);
    EdgeCreditSingle(preds[1], k, 1, count, count[1], DepAt(line, count, preds, 2));
    ShareOfOne(DepAt(line, count, preds, 2));
  }

  /** What the vertices at positions 1 and above of the stack of the search from 3 add to each edge. */
  lemma ThreeScoredFrom1(k: Edge)
    ensures var r := Three3(); Stack(r.line, r.count, r.preds) && Scored(r.line, r.count, r.preds, k, 1) == Weight(k, 1.0, 2.0, 3.0)
  {
    ThreeStack();
    ThreeDep1();
    var r := Three3();
    var line, count, preds := r.line, r.count, r.preds;
    FourAt(1, 1, 1, 1);
    FourAt<seq<int>>([1], [2], [3], []);
    ThreeScoredFrom2(k);
    EdgeCreditSingle(preds[2], k, 2, count, count[2], DepAt(line, count, preds, 1));
    ShareOfOne(DepAt(line, count, preds, 1));
  }

  /** What the pass after the search from 3 adds to each edge. */
  lemma ThreeScoredFrom0(k: Edge)
    ensures var r := Three3(); Stack(r.line, r.count, r.preds) && Scored(r.line, r.count, r.preds, k, 0) == Weight(k, 1.0, 2.0, 3.0)
  {
    ThreeStack();
    var r := Three3();
    var line, count, preds := r.line, r.count, r.preds;
    FourAt(1, 1, 1, 1);
    FourAt<seq<int>>([1], [2], [3], []);
    ThreeScoredFrom1(k);
    assert preds[3] == [];
  }

  /** What the round from 3 adds to each edge. */
  lemma ThreeGain(k: Edge)
    ensures Ends(Path()) && Gain(Path(), 3, k) == Weight(k, 1.0, 2.0, 3.0)
  {
    SearchFromThree();
    ThreeScoredFrom0(k);
  }

  // ---------------------------------------------------------------------
  // The scores

  /** The last three vertices in ascending order. */
  lemma UpperOrder()
    ensures Ascending({1, 2, 3}) == [1, 2, 3]
  {
    assert Minimum({3}) == 3;
    assert {3} - {3} == {};
    assert Ascending({3}) == [3];
    assert Minimum({2, 3}) == 2;
    assert {2, 3} - {2} == {3};
    assert Ascending({2, 3}) == [2, 3];
    assert Minimum({1, 2, 3}) == 1;
    assert {1, 2, 3} - {1} == {2, 3};
  }

  /** The rounds run from 0, 1, 2 and 3 in that order. */
  lemma PathOrder()
    ensures Ascending(Path().Keys) == [0, 1, 2, 3]
  {
    assert Path().Keys == {0, 1, 2, 3};
    UpperOrder();
    assert Minimum({0, 1, 2, 3}) == 0;
    assert {0, 1, 2, 3} - {0} == {1, 2, 3};
  }

  /** The run of rounds, one source at a time. */
  lemma Prefixes()
    ensures [] + [0] == [0] && [0] + [1] == [0, 1] && [0, 1] + [2] == [0, 1, 2] && [0, 1, 2] + [3] == [0, 1, 2, 3]
  {
  }

  /** A round appended to a run of rounds adds its gain. */
  lemma TotalGainSnoc(adj: Lists, sources: seq<int>, s: int, k: Edge)
    requires Ends(adj) && s in adj && forall x | x in sources :: x in adj
    ensures TotalGain(adj, sources + [s], k) == TotalGain(adj, sources, k) + Gain(adj, s, k)
  {
    assert (sources + [s])[..|sources|] == sources;
  }

  /** The rounds from 0 and 1. */
  lemma FirstRounds(k: Edge)
    ensures Ends(Path()) && TotalGain(Path(), [0, 1], k) == Weight(k, 4.0, 4.0, 2.0)
  {
    var adj := Path();
    PathEnds();
    ZeroGain(k);
    OneGain(k);
    Prefixes();
    assert TotalGain(adj, [], k) == 0.0;
    TotalGainSnoc(adj, [], 0, k);
    TotalGainSnoc(adj, [0], 1, k);
  }

  /** All four rounds, in the order the vertices are visited. */
  lemma AllRounds(k: Edge)
    ensures Ends(Path()) && TotalGain(Path(), [0, 1, 2, 3], k) == Weight(k, 6.0, 8.0, 6.0)
  {
    var adj := Path();
    PathEnds();
    FirstRounds(k);
    TwoGain(k);
    ThreeGain(k);
    Prefixes();
    TotalGainSnoc(adj, [0, 1], 2, k);
    TotalGainSnoc(adj, [0, 1, 2], 3, k);
  }

  /** The score of every edge: 6 on the outer edges, 8 on the middle one. */
  lemma PathScore(k: Edge)
    ensures Ends(Path()) && EdgeScore(Path(), k) == Weight(k, 6.0, 8.0, 6.0)
  {
    PathOrder();
    AllRounds(k);
  }

}

/** The round on the path, in the terms of the graph store. */
module PathRound {
  import opened Edges
  import opened Brandes
  import opened CapGraphs
  import opened PathExample

  /** The path is a well-formed state of the graph store. */
  lemma PathWellFormed()
    ensures WellFormed(Path(), PathEdges())
  {
  }

  /** The other ends each list of the path names. */
  lemma PathOtherEnds()
    ensures OtherEnds(Path()[0], 0) == {1} && OtherEnds(Path()[1], 1) == {0, 2}
    ensures OtherEnds(Path()[2], 2) == {1, 3} && OtherEnds(Path()[3], 3) == {2}
  {
    var adj := Path();
    assert Opposite(adj[0][0], 0) == 1;
    assert Opposite(adj[1][0], 1) == 0 && Opposite(adj[1][1], 1) == 2;
    assert Opposite(adj[2][0], 2) == 1 && Opposite(adj[2][1], 2) == 3;
    assert Opposite(adj[3][0], 3) == 2;
  }

  /** The lists and the edge set of the path describe the same edges. */
  lemma PathAgrees()
    ensures Agrees(Path(), PathEdges())
  {
    PathOtherEnds();
    assert Path().Keys == {0, 1, 2, 3};
  }

  /** The round scores the three edges 6, 8 and 6. */
  lemma PathScores()
    ensures Ends(Path())
    ensures Scores(Path(), PathEdges()).Keys == PathEdges()
    ensures forall k | k in PathEdges() :: Scores(Path(), PathEdges())[k] == Weight(k, 6.0, 8.0, 6.0)
  {
    PathEnds();
    forall k | k in PathEdges() ensures Scores(Path(), PathEdges())[k] == Weight(k, 6.0, 8.0, 6.0) {
      PathScore(k);
    }
  }

  /** The top set of the round is the middle edge alone. */
  lemma PathTop()
    ensures Ends(Path()) && Top(Scores(Path(), PathEdges())) == {Edge(1, 2)}
  {
    PathScores();
    var scores := Scores(Path(), PathEdges());
    assert scores[Edge(0, 1)] == 6.0 && scores[Edge(1, 2)] == 8.0 && scores[Edge(2, 3)] == 6.0;
    TopOfThree(scores, Edge(0, 1), Edge(1, 2), Edge(2, 3));
  }

  /** Of three scored keys, one scoring above the other two is the whole top set. */
  lemma TopOfThree(scores: map<Edge, real>, a: Edge, b: Edge, c: Edge)
    requires scores.Keys == {a, b, c}
    requires scores[a] < scores[b] && scores[c] < scores[b] && scores[b] >= 0.0
    ensures Top(scores) == {b}
  {
    forall k | k in Top(scores) ensures k == b {
      assert scores[b] <= scores[k];
    }
    forall k' | k' in scores ensures scores[k'] <= scores[b] {
      assert k' == a || k' == b || k' == c;
    }
    assert b in Top(scores);
  }

  /** What remains of the path after a round: the outer edges. */
  lemma PathRemains()
    ensures Ends(Path()) && PathEdges() - Top(Scores(Path(), PathEdges())) == {Edge(0, 1), Edge(2, 3)}
  {
    PathTop();
    assert PathEdges() - {Edge(1, 2)} == {Edge(0, 1), Edge(2, 3)};
  }

  /** One round on a graph store holding the path: the middle edge goes, the outer two stay. */
  method SplitPath(g: CapGraph)
    requires g.Ready() && g.Adj() == Path() && g.graphEdges == PathEdges() && g.numEdges > 0
    modifies g, g.graphNodes.Values
    ensures g.graphEdges == {Edge(0, 1), Edge(2, 3)}
  {
    PathRemains();
    g.Round();
  }
}
