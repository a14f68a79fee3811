/** Paths, reachability and distance in a directed graph given as its set of edges. */
module Reachability {
  import opened Counting

  type Edges = set<(nat, nat)>

  ghost predicate IsPath(e: Edges, p: seq<nat>) {
    p != [] && forall i, j :: 0 <= i && j == i + 1 && j < |p| ==> (p[i], p[j]) in e
  }

  /** A path of exactly d edges from s to v. */
  ghost predicate HasPath(e: Edges, s: nat, v: nat, d: nat) {
    exists p :: IsPath(e, p) && |p| == d + 1 && p[0] == s && p[d] == v
  }

  ghost predicate Reachable(e: Edges, s: nat, v: nat) {
    exists d :: HasPath(e, s, v, d)
  }

  /** d is the number of edges on a shortest path from s to v. */
  ghost predicate ShortestDistance(e: Edges, s: nat, v: nat, d: nat) {
    HasPath(e, s, v, d) && forall c :: HasPath(e, s, v, c) ==> d <= c
  }

  ghost predicate ClosedUnder(e: Edges, visited: set<nat>) {
    forall u, w :: u in visited && (u, w) in e ==> w in visited
  }

  ghost predicate IsReachableSet(e: Edges, s: nat, visited: set<nat>) {
    forall v :: v in visited <==> Reachable(e, s, v)
  }

  lemma EmptyPath(e: Edges, s: nat)
    ensures HasPath(e, s, s, 0)
  {
    assert IsPath(e, [s]);
  }

  lemma ExtendPath(e: Edges, s: nat, u: nat, w: nat, d: nat)
    requires HasPath(e, s, u, d) && (u, w) in e
    ensures HasPath(e, s, w, d + 1)
  {
    var p :| IsPath(e, p) && |p| == d + 1 && p[0] == s && p[d] == u;
    assert IsPath(e, p + [w]);
  }

  /** Every path starts with a path that is one edge shorter. */
  lemma ShortenPath(e: Edges, s: nat, w: nat, d: nat) returns (u: nat)
    requires HasPath(e, s, w, d + 1)
    ensures HasPath(e, s, u, d) && (u, w) in e
  {
    var p :| IsPath(e, p) && |p| == d + 2 && p[0] == s && p[d + 1] == w;
    u := p[d];
    assert IsPath(e, p[..d + 1]);
  }

  lemma {:induction false} ClosedContainsPaths(e: Edges, s: nat, v: nat, d: nat, visited: set<nat>)
    requires s in visited && ClosedUnder(e, visited) && HasPath(e, s, v, d)
    ensures v in visited
    decreases d
  {
    if d > 0 {
      var u := ShortenPath(e, s, v, d - 1);
      ClosedContainsPaths(e, s, u, d - 1, visited);
    }
  }

  /** A closed set of reachable vertices that holds the start is the whole reachable set. */
  lemma ClosedIsReachableSet(e: Edges, s: nat, visited: set<nat>)
    requires s in visited && ClosedUnder(e, visited)
    requires forall v :: v in visited ==> Reachable(e, s, v)
    ensures IsReachableSet(e, s, visited)
  {
    forall v | Reachable(e, s, v) ensures v in visited {
      var d :| HasPath(e, s, v, d);
      ClosedContainsPaths(e, s, v, d, visited);
    }
  }

  /** Distinct vertices below n: at most n of them, and fewer while one is missing. */
  lemma RoomForOneMore(order: seq<nat>, w: nat, n: nat)
    requires Distinct(order) && (forall v :: v in order ==> v < n) && w < n && w !in order
    ensures |order| < n
  {
    assert Distinct(order + [w]);
    BelowSize(n);
    Pigeonhole(order + [w], Below(n));
  }

  // ----- breadth-first discovery -----

  /**
   `order` lists the discovered vertices in queue order and `dist` their distances; the first
   `done` have been taken off the queue, and the neighbours of all before `cur` are discovered.
   */
  ghost predicate Discovery(e: Edges, n: nat, s: nat, order: seq<nat>, dist: seq<nat>, cur: nat) {
    && |order| == |dist| > 0 && cur <= |order| && order[0] == s && dist[0] == 0
    && Distinct(order) && (forall v :: v in order ==> v < n)
    && (forall i :: 0 <= i < |order| ==> HasPath(e, s, order[i], dist[i]))
    && (forall i, j :: 0 <= i <= j < |dist| ==> dist[i] <= dist[j])
    && (cur < |dist| ==> dist[|dist| - 1] <= dist[cur] + 1)
    && (forall i, w :: 0 <= i < cur && (order[i], w) in e ==> Near(order, dist, w, dist[i] + 1))
  }

  /** w has been discovered, at a distance of at most d. */
  ghost predicate Near(order: seq<nat>, dist: seq<nat>, w: nat, d: nat)
    requires |order| == |dist|
  {
    exists j :: 0 <= j < |order| && order[j] == w && dist[j] <= d
  }

  lemma StartDiscovery(e: Edges, n: nat, s: nat)
    requires s < n
    ensures Discovery(e, n, s, [s], [0], 0)
  {
    EmptyPath(e, s);
  }

  lemma Discover(e: Edges, n: nat, s: nat, order: seq<nat>, dist: seq<nat>, cur: nat, w: nat)
    requires Discovery(e, n, s, order, dist, cur) && cur < |order|
    requires (order[cur], w) in e && w < n && w !in order
    ensures Discovery(e, n, s, order + [w], dist + [dist[cur] + 1], cur)
    ensures |order| < n
  {
    RoomForOneMore(order, w, n);
    ExtendPath(e, s, order[cur], w, dist[cur]);
    var order', dist' := order + [w], dist + [dist[cur] + 1];
    forall i, x | 0 <= i < cur && (order'[i], x) in e ensures Near(order', dist', x, dist'[i] + 1) {
      assert Near(order, dist, x, dist[i] + 1);
      var j :| 0 <= j < |order| && order[j] == x && dist[j] <= dist[i] + 1;
      assert order'[j] == x && dist'[j] == dist[j];
    }
  }

  lemma DiscoveredCount(e: Edges, n: nat, s: nat, order: seq<nat>, dist: seq<nat>, cur: nat)
    requires Discovery(e, n, s, order, dist, cur)
    ensures |Elements(order)| == |order| <= n
  {
    DistinctSize(order);
    BelowSize(n);
    Pigeonhole(order, Below(n));
  }

  lemma DiscoveryBounds(e: Edges, n: nat, s: nat, order: seq<nat>, dist: seq<nat>, cur: nat)
    requires Discovery(e, n, s, order, dist, cur)
    ensures |dist| == |order| && cur <= |order| && (cur < |order| ==> order[cur] < n)
  {
    assert cur < |order| ==> order[cur] in order;
  }

  lemma FinishVertex(e: Edges, n: nat, s: nat, order: seq<nat>, dist: seq<nat>, cur: nat)
    requires Discovery(e, n, s, order, dist, cur) && cur < |order|
    requires forall w :: (order[cur], w) in e ==> w in order
    ensures Discovery(e, n, s, order, dist, cur + 1)
  {
    forall w | (order[cur], w) in e ensures Near(order, dist, w, dist[cur] + 1) {
      var j :| 0 <= j < |order| && order[j] == w;
      assert dist[j] <= dist[|dist| - 1];
    }
  }

  /** All and only the reachable vertices, once each, in order of their distance from s. */
  ghost predicate BreadthFirstOrder(e: Edges, s: nat, order: seq<nat>) {
    && Distinct(order)
    && IsReachableSet(e, s, Elements(order))
    && exists dist: seq<nat> :: DistancesOf(e, s, order, dist)
  }

  ghost predicate DistancesOf(e: Edges, s: nat, order: seq<nat>, dist: seq<nat>) {
    && |dist| == |order|
    && (forall i :: 0 <= i < |order| ==> ShortestDistance(e, s, order[i], dist[i]))
    && (forall i, j :: 0 <= i <= j < |dist| ==> dist[i] <= dist[j])
  }

  lemma {:induction false} PathsAreNoShorter(e: Edges, n: nat, s: nat, order: seq<nat>, dist: seq<nat>, v: nat, d: nat)
    requires Discovery(e, n, s, order, dist, |order|) && HasPath(e, s, v, d)
    ensures Near(order, dist, v, d)
    decreases d
  {
    if d == 0 {
      assert order[0] == v;
    } else {
      var u := ShortenPath(e, s, v, d - 1);
      PathsAreNoShorter(e, n, s, order, dist, u, d - 1);
      var j :| 0 <= j < |order| && order[j] == u && dist[j] <= d - 1;
      assert Near(order, dist, v, dist[j] + 1);
    }
  }

  lemma DiscoveryComplete(e: Edges, n: nat, s: nat, order: seq<nat>, dist: seq<nat>)
    requires Discovery(e, n, s, order, dist, |order|)
    ensures BreadthFirstOrder(e, s, order)
  {
    forall v ensures v in order <==> Reachable(e, s, v) {
      if v in order {
        var i :| 0 <= i < |order| && order[i] == v;
        assert HasPath(e, s, order[i], dist[i]);
      } else if Reachable(e, s, v) {
        var d :| HasPath(e, s, v, d);
        PathsAreNoShorter(e, n, s, order, dist, v, d);
      }
    }
    forall i, c | 0 <= i < |order| && HasPath(e, s, order[i], c) ensures dist[i] <= c {
      PathsAreNoShorter(e, n, s, order, dist, order[i], c);
    }
    assert DistancesOf(e, s, order, dist);
  }

  lemma OrderFacts(e: Edges, s: nat, order: seq<nat>)
    requires BreadthFirstOrder(e, s, order)
    ensures Distinct(order) && IsReachableSet(e, s, Elements(order))
  {
  }
}
