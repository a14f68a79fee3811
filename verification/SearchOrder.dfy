/**
 The order in which the searches of test_progs/bfs.c and test_progs/graph.c meet the vertices. Both try
 smallest neighbours first, so the graph alone determines it.
 */
module SearchOrder {
  import opened Counting
  import opened Reachability

  // ----- breadth-first -----

  /** order[k] is the first vertex of the order with an edge to order[i], and stands before it. */
  ghost predicate FirstParent(e: Edges, order: seq<nat>, i: nat, k: nat)
    requires i < |order|
  {
    k < i && (order[k], order[i]) in e && forall j :: 0 <= j < k ==> (order[j], order[i]) !in e
  }

  /** Numbers on edges: from a vertex, the edge with the smaller number is followed first. */
  type Ranks = map<(nat, nat), nat>

  /** From u, the neighbour a comes before b. */
  ghost predicate Sooner(rank: Ranks, u: nat, a: nat, b: nat) {
    (u, a) in rank && (u, b) in rank && rank[(u, a)] < rank[(u, b)]
  }

  /** Every vertex but s has a first parent, and the vertices stand by their parents and, as siblings, by rank. */
  ghost predicate ByParents(e: Edges, rank: Ranks, s: nat, order: seq<nat>, parent: seq<nat>) {
    && |parent| == |order| > 0 && order[0] == s
    && (forall i :: 0 < i < |order| ==> FirstParent(e, order, i, parent[i]))
    && (forall i, j :: 0 < i < j < |order| ==> parent[i] < parent[j] || Siblings(rank, order, parent, i, j))
  }

  ghost predicate Siblings(rank: Ranks, order: seq<nat>, parent: seq<nat>, i: nat, j: nat)
    requires i < |order| == |parent| && j < |order|
  {
    parent[i] == parent[j] < |order| && Sooner(rank, order[parent[i]], order[i], order[j])
  }

  ghost predicate InOrder(e: Edges, rank: Ranks, s: nat, order: seq<nat>) {
    exists parent :: ByParents(e, rank, s, order, parent)
  }

  /** Smallest neighbours first. */
  ghost function ByNumber(e: Edges): Ranks {
    map p | p in e :: p.1
  }

  ghost predicate SmallestFirst(e: Edges, order: seq<nat>) {
    InOrder(e, ByNumber(e), 0, order)
  }

  /** While the neighbours of order[cur] are being discovered, those found come before those to come. */
  ghost predicate Turn(e: Edges, rank: Ranks, s: nat, order: seq<nat>, parent: seq<nat>, cur: nat) {
    && ByParents(e, rank, s, order, parent)
    && (forall i :: 0 < i < |order| ==> parent[i] <= cur)
    && (cur < |order| ==> forall i, w :: 0 < i < |order| && parent[i] == cur && (order[cur], w) in e && w !in order ==>
          Sooner(rank, order[cur], order[i], w))
  }

  lemma StartTurn(e: Edges, rank: Ranks, s: nat)
    ensures Turn(e, rank, s, [s], [0], 0)
  {
  }

  /** w is the undiscovered neighbour of u to be discovered next. */
  ghost predicate IsNext(e: Edges, rank: Ranks, order: seq<nat>, u: nat, w: nat) {
    (u, w) in e && w !in order && forall x :: (u, x) in e && x !in order && x != w ==> Sooner(rank, u, w, x)
  }

  lemma SmallerSooner(e: Edges, order: seq<nat>, u: nat, w: nat)
    requires (u, w) in e && w !in order && forall x :: x < w && (u, x) in e ==> x in order
    ensures IsNext(e, ByNumber(e), order, u, w)
  {
  }

  lemma TakeTurn(e: Edges, n: nat, rank: Ranks, s: nat,
                 order: seq<nat>, dist: seq<nat>, parent: seq<nat>, cur: nat, w: nat)
    requires Discovery(e, n, s, order, dist, cur) && Turn(e, rank, s, order, parent, cur) && cur < |order|
    requires IsNext(e, rank, order, order[cur], w)
    ensures Turn(e, rank, s, order + [w], parent + [cur], cur)
  {
    hide Discovery, FirstParent;
    var order', parent' := order + [w], parent + [cur];
    NewParent(e, n, s, order, dist, cur, w);
    forall i | 0 < i < |order| ensures FirstParent(e, order', i, parent'[i]) {
      SameParent(e, order, i, parent[i], w);
    }
  }

  /** A vertex found from order[cur] has no edge from any vertex before. */
  lemma NewParent(e: Edges, n: nat, s: nat, order: seq<nat>, dist: seq<nat>, cur: nat, w: nat)
    requires Discovery(e, n, s, order, dist, cur) && cur < |order| && (order[cur], w) in e && w !in order
    ensures FirstParent(e, order + [w], |order|, cur)
  {
    forall j | 0 <= j < cur ensures (order[j], w) !in e {
      assert (order[j], w) in e ==> Near(order, dist, w, dist[j] + 1);
    }
  }

  lemma SameParent(e: Edges, order: seq<nat>, i: nat, k: nat, w: nat)
    requires i < |order| && FirstParent(e, order, i, k)
    ensures FirstParent(e, order + [w], i, k)
  {
  }

  lemma EndTurn(e: Edges, rank: Ranks, s: nat, order: seq<nat>, parent: seq<nat>, cur: nat)
    requires Turn(e, rank, s, order, parent, cur)
    ensures Turn(e, rank, s, order, parent, cur + 1)
  {
  }

  lemma AfterAllTurns(e: Edges, rank: Ranks, s: nat, order: seq<nat>, parent: seq<nat>, cur: nat)
    requires Turn(e, rank, s, order, parent, cur)
    ensures InOrder(e, rank, s, order)
  {
  }

  lemma AfterAllSmallest(e: Edges, order: seq<nat>, parent: seq<nat>, cur: nat)
    requires Turn(e, ByNumber(e), 0, order, parent, cur)
    ensures SmallestFirst(e, order)
  {
    AfterAllTurns(e, ByNumber(e), 0, order, parent, cur);
  }

  /** There is one such order: the graph and its ranks determine the search. */
  lemma OneBreadthFirstOrder(e: Edges, rank: Ranks, s: nat, a: seq<nat>, b: seq<nat>)
    requires Distinct(a) && Distinct(b) && Elements(a) == Elements(b)
    requires InOrder(e, rank, s, a) && InOrder(e, rank, s, b)
    ensures a == b
  {
    DistinctSize(a);
    DistinctSize(b);
    var p :| ByParents(e, rank, s, a, p);
    var q :| ByParents(e, rank, s, b, q);
    SamePrefix(e, rank, s, a, b, p, q, |a|);
  }

  lemma {:induction false} SamePrefix(e: Edges, rank: Ranks, s: nat,
                                      a: seq<nat>, b: seq<nat>, p: seq<nat>, q: seq<nat>, i: nat)
    requires Distinct(a) && Distinct(b) && Elements(a) == Elements(b) && |a| == |b| && i <= |a|
    requires ByParents(e, rank, s, a, p) && ByParents(e, rank, s, b, q)
    ensures a[..i] == b[..i]
    decreases i
  {
    if i > 1 {
      var l := i - 1;
      SamePrefix(e, rank, s, a, b, p, q, l);
      Pointwise(a, b, l);
      assert FirstParent(e, a, l, p[l]) && FirstParent(e, b, l, q[l]);
      Follows(e, rank, s, a, b, p, q, l);
      Follows(e, rank, s, b, a, q, p, l);
      assert a[..i] == a[..l] + [a[l]] && b[..i] == b[..l] + [b[l]];
    }
  }

  lemma Pointwise(a: seq<nat>, b: seq<nat>, l: nat)
    requires l <= |a| && l <= |b| && a[..l] == b[..l]
    ensures forall j :: 0 <= j < l ==> a[j] == b[j]
  {
    forall j | 0 <= j < l ensures a[j] == b[j] {
      assert a[j] == a[..l][j] == b[..l][j];
    }
  }

  /** After the same beginning b goes on with a's next vertex, or with one that has to stand before it. */
  lemma Follows(e: Edges, rank: Ranks, s: nat, a: seq<nat>, b: seq<nat>, p: seq<nat>, q: seq<nat>, i: nat)
    requires Distinct(a) && Distinct(b) && Elements(a) == Elements(b) && |a| == |b| && 0 < i < |a|
    requires ByParents(e, rank, s, a, p) && ByParents(e, rank, s, b, q) && forall j :: 0 <= j < i ==> a[j] == b[j]
    ensures a[i] == b[i] || q[i] < p[i] || (q[i] == p[i] < i && Sooner(rank, b[q[i]], b[i], a[i]))
  {
    assert a[i] in Elements(b);
    var j :| 0 <= j < |b| && b[j] == a[i];
    assert j >= i;
    if j > i {
      assert FirstParent(e, a, i, p[i]) && FirstParent(e, b, j, q[j]);
      assert a[p[i]] == b[p[i]];
      assert q[j] <= p[i];
    }
  }

  // ----- depth-first -----

  /**
   log[i] is the smallest unlogged neighbour of log[k], and k the last place before i whose vertex had
   an unlogged neighbour.
   */
  ghost predicate Continues(e: Edges, log: seq<nat>, i: nat, k: nat)
    requires i < |log|
  {
    && k < i && (log[k], log[i]) in e && log[i] !in log[..i]
    && (forall x :: x < log[i] && (log[k], x) in e ==> x in log[..i])
    && (forall j, x :: k < j < i && (log[j], x) in e ==> x in log[..i])
  }

  ghost predicate DepthFirstOrder(e: Edges, log: seq<nat>) {
    log != [] && log[0] == 0 && forall i :: 0 < i < |log| ==> GoesOn(e, log, i)
  }

  ghost predicate GoesOn(e: Edges, log: seq<nat>, i: nat)
    requires i < |log|
  {
    exists k :: Continues(e, log, i, k)
  }

  lemma StillGoesOn(e: Edges, log: seq<nat>, w: nat, i: nat)
    requires i < |log| && GoesOn(e, log, i)
    ensures GoesOn(e, log + [w], i)
  {
    var k :| Continues(e, log, i, k);
    assert (log + [w])[..i] == log[..i];
    assert Continues(e, log + [w], i, k);
  }

  /** There is one such order for the vertices it logs. */
  lemma OneDepthFirstOrder(e: Edges, a: seq<nat>, b: seq<nat>)
    requires Distinct(a) && Distinct(b) && Elements(a) == Elements(b)
    requires DepthFirstOrder(e, a) && DepthFirstOrder(e, b)
    ensures a == b
  {
    DistinctSize(a);
    DistinctSize(b);
    SameLog(e, a, b, |a|);
  }

  lemma {:induction false} SameLog(e: Edges, a: seq<nat>, b: seq<nat>, i: nat)
    requires DepthFirstOrder(e, a) && DepthFirstOrder(e, b) && |a| == |b| && i <= |a|
    ensures a[..i] == b[..i]
    decreases i
  {
    if i > 1 {
      var l := i - 1;
      SameLog(e, a, b, l);
      assert GoesOn(e, a, l) && GoesOn(e, b, l);
      var k :| Continues(e, a, l, k);
      var m :| Continues(e, b, l, m);
      Pointwise(a, b, l);
      SamePlace(e, a, b, l, k, m);
      SamePlace(e, b, a, l, m, k);
      assert a[..i] == a[..l] + [a[l]] && b[..i] == b[..l] + [b[l]];
    }
  }

  lemma SamePlace(e: Edges, a: seq<nat>, b: seq<nat>, l: nat, k: nat, m: nat)
    requires l < |a| == |b| && a[..l] == b[..l] && Continues(e, a, l, k) && Continues(e, b, l, m)
    requires forall j :: 0 <= j < l ==> a[j] == b[j]
    ensures k >= m && (k == m ==> a[l] <= b[l])
  {
  }

  // ----- the graph both programs search -----

  ghost function SourceGraph(): Edges {
    {(0, 1), (1, 0), (0, 2), (2, 0), (0, 3), (3, 0), (1, 4), (4, 1), (2, 4), (4, 2), (3, 4), (4, 3)}
  }

  lemma SourceReachable(visited: set<nat>)
    requires IsReachableSet(SourceGraph(), 0, visited)
    ensures visited == {0, 1, 2, 3, 4}
  {
    var e := SourceGraph();
    EmptyPath(e, 0);
    ExtendPath(e, 0, 0, 1, 0);
    ExtendPath(e, 0, 0, 2, 0);
    ExtendPath(e, 0, 0, 3, 0);
    ExtendPath(e, 0, 1, 4, 1);
    ClosedIsReachableSet(e, 0, {0, 1, 2, 3, 4});
  }

  lemma SourceBreadthFirst(order: seq<nat>)
    requires Distinct(order) && IsReachableSet(SourceGraph(), 0, Elements(order)) && SmallestFirst(SourceGraph(), order)
    ensures order == [0, 1, 2, 3, 4]
  {
    var expected: seq<nat> := [0, 1, 2, 3, 4];
    SourceReachable(Elements(order));
    assert Elements(expected) == {0, 1, 2, 3, 4};
    SourceParents();
    assert InOrder(SourceGraph(), ByNumber(SourceGraph()), 0, order);
    assert InOrder(SourceGraph(), ByNumber(SourceGraph()), 0, expected);
    hide *;
    OneBreadthFirstOrder(SourceGraph(), ByNumber(SourceGraph()), 0, order, expected);
  }

  lemma SourceParents()
    ensures Distinct([0, 1, 2, 3, 4]) && SmallestFirst(SourceGraph(), [0, 1, 2, 3, 4])
  {
    var e, order, parent := SourceGraph(), [0, 1, 2, 3, 4], [0, 0, 0, 0, 1];
    assert FirstParent(e, order, 1, 0) && FirstParent(e, order, 2, 0) && FirstParent(e, order, 3, 0);
    assert FirstParent(e, order, 4, 1);
    hide FirstParent;
    assert ByParents(e, ByNumber(e), 0, order, parent);
  }

  lemma SourceDepthFirst(log: seq<nat>)
    requires Distinct(log) && IsReachableSet(SourceGraph(), 0, Elements(log)) && DepthFirstOrder(SourceGraph(), log)
    ensures log == [0, 1, 4, 2, 3]
  {
    var expected: seq<nat> := [0, 1, 4, 2, 3];
    SourceReachable(Elements(log));
    assert Elements(expected) == {0, 1, 2, 3, 4};
    SourceLog();
    hide *;
    OneDepthFirstOrder(SourceGraph(), log, expected);
  }

  lemma SourceLog()
    ensures Distinct([0, 1, 4, 2, 3]) && DepthFirstOrder(SourceGraph(), [0, 1, 4, 2, 3])
  {
    var e, log := SourceGraph(), [0, 1, 4, 2, 3];
    assert Continues(e, log, 1, 0) && Continues(e, log, 2, 1) && Continues(e, log, 3, 2) && Continues(e, log, 4, 2);
    hide Continues;
    assert GoesOn(e, log, 1) && GoesOn(e, log, 2) && GoesOn(e, log, 3) && GoesOn(e, log, 4);
  }
}
