/** test_progs/bfs.c: breadth-first search with a queue whose slots are never reused. */
module MatrixBfs {
  import opened Counting
  import opened Reachability
  import opened MatrixGraph
  import opened SearchOrder

  class Queue {
    const items: array<nat>
    var rear: int
    var front: nat
    var queueItemCount: int

    ghost predicate Valid()
      reads this
    {
      rear + 1 == front + queueItemCount && queueItemCount >= 0 && rear < items.Length
    }

    /** Everything ever inserted, oldest first; the first `front` have been removed. */
    ghost function History(): seq<nat>
      requires Valid()
      reads this, items
    {
      items[..rear + 1]
    }

    constructor (max: nat)
      ensures Valid() && fresh(items) && items.Length == max && front == 0 && History() == []
    {
      items := new nat[max];
      rear, front, queueItemCount := -1, 0, 0;
    }

    method Insert(data: nat)
      requires Valid() && rear + 1 < items.Length
      modifies this, items
      ensures Valid() && front == old(front) && History() == old(History()) + [data]
    {
      rear := rear + 1;
      items[rear] := data;
      queueItemCount := queueItemCount + 1;
    }

    method RemoveData() returns (data: nat)
      requires Valid() && front < |History()|
      modifies this
      ensures Valid() && front == old(front) + 1 && History() == old(History()) && data == History()[old(front)]
    {
      queueItemCount := queueItemCount - 1;
      data := items[front];
      front := front + 1;
    }

    predicate IsQueueEmpty()
      requires Valid()
      reads this, items
      ensures IsQueueEmpty() <==> front == |History()|
    {
      queueItemCount == 0
    }
  }

  /** Everything ever inserted is `order`, and the flags are set exactly on it. */
  ghost predicate Holds(g: Graph, q: Queue, e: Edges, order: seq<nat>)
    reads g, g.lstVertices, g.adjMatrix, g.verts, q, q.items
  {
    && g.Valid() && q.Valid() && g.vertexCount <= q.items.Length
    && g.E() == e && q.History() == order && Elements(order) == g.Visited()
  }

  /** Mark an unvisited neighbour w of the vertex being scanned, and insert it. */
  method Visit(g: Graph, q: Queue, w: nat, ghost e: Edges, ghost order: seq<nat>)
    requires Holds(g, q, e, order) && |order| < g.vertexCount && w < g.vertexCount
    modifies q, q.items, g.verts, g`log
    ensures Holds(g, q, e, order + [w]) && q.front == old(q.front)
  {
    g.Mark(w);
    q.Insert(w);
  }

  method NextUnvisited(g: Graph, q: Queue, u: nat, ghost e: Edges, ghost order: seq<nat>) returns (w: int)
    requires Holds(g, q, e, order) && u < g.vertexCount
    ensures w == -1 ==> forall x :: (u, x) in e ==> x in order
    ensures w != -1 ==> 0 <= w < g.vertexCount && (u, w) in e && w !in order
    ensures w != -1 ==> forall x :: x < w && (u, x) in e ==> x in order
  {
    w := g.GetAdjUnvisitedVertex(u);
    assert forall x :: x in g.Visited() <==> x in order by { assert Elements(order) == g.Visited(); }
  }

  /** The inner loop: every unvisited neighbour of the vertex just removed is marked and inserted. */
  method Scan(g: Graph, q: Queue, u: nat, ghost e: Edges,
              ghost order0: seq<nat>, ghost dist0: seq<nat>, ghost parent0: seq<nat>, ghost cur: nat)
    returns (ghost order: seq<nat>, ghost dist: seq<nat>, ghost parent: seq<nat>)
    requires Holds(g, q, e, order0) && Discovery(e, g.vertexCount, 0, order0, dist0, cur)
    requires Turn(e, ByNumber(e), 0, order0, parent0, cur)
    requires cur < |order0| && order0[cur] == u
    modifies q, q.items, g.verts, g`log
    ensures Holds(g, q, e, order) && Discovery(e, g.vertexCount, 0, order, dist, cur + 1) && q.front == old(q.front)
    ensures Turn(e, ByNumber(e), 0, order, parent, cur + 1)
  {
    hide Discovery, Holds, Turn;
    order, dist, parent := order0, dist0, parent0;
    ghost var n := g.vertexCount;
    DiscoveryBounds(e, n, 0, order, dist, cur);
    var w := NextUnvisited(g, q, u, e, order);
    while w != -1
      invariant Holds(g, q, e, order) && q.front == old(q.front)
      invariant Discovery(e, n, 0, order, dist, cur) && cur < |order| && order[cur] == u
      invariant Turn(e, ByNumber(e), 0, order, parent, cur)
      invariant w == -1 ==> forall x :: (u, x) in e ==> x in order
      invariant w != -1 ==> 0 <= w < n && (u, w) in e && w !in order
      invariant w != -1 ==> forall x :: x < w && (u, x) in e ==> x in order
      decreases n - |order|, w != -1
    {
      DiscoveryBounds(e, n, 0, order, dist, cur);
      Discover(e, n, 0, order, dist, cur, w);
      SmallerSooner(e, order, u, w);
      TakeTurn(e, n, ByNumber(e), 0, order, dist, parent, cur, w);
      Visit(g, q, w, e, order);
      order, dist, parent := order + [w], dist + [dist[cur] + 1], parent + [cur];
      w := NextUnvisited(g, q, u, e, order);
    }
    FinishVertex(e, n, 0, order, dist, cur);
    EndTurn(e, ByNumber(e), 0, order, parent, cur);
  }

  /** The counters of the queue, the number of visited vertices and the bound on all of them. */
  lemma CountsAgree(g: Graph, q: Queue, e: Edges, order: seq<nat>, dist: seq<nat>, cur: nat)
    requires Holds(g, q, e, order) && Discovery(e, g.vertexCount, 0, order, dist, cur)
    ensures q.rear + 1 == q.front + q.queueItemCount == |g.Visited()| == |order| <= g.vertexCount
  {
    DiscoveredCount(e, g.vertexCount, 0, order, dist, cur);
  }

  /** Both loops; the reset of the flags follows in BreadthFirstSearch. */
  method Traverse(g: Graph, q: Queue, ghost e: Edges) returns (ghost order: seq<nat>)
    requires Holds(g, q, e, []) && q.front == 0 && g.vertexCount > 0
    modifies q, q.items, g.verts, g`log
    ensures Holds(g, q, e, order) && BreadthFirstOrder(e, 0, order) && q.front == |order| <= g.vertexCount
    ensures SmallestFirst(e, order)
  {
    hide *;
    ghost var n := g.vertexCount;
    ghost var dist: seq<nat>, parent: seq<nat> := [0], [0];
    order := [0];
    Visit(g, q, 0, e, []);
    assert [] + order == order;
    StartDiscovery(e, n, 0);
    StartTurn(e, ByNumber(e), 0);
    CountsAgree(g, q, e, order, dist, 0);
    var empty := IsDone(g, q, e, order);
    while !empty
      invariant Holds(g, q, e, order) && Discovery(e, n, 0, order, dist, q.front)
      invariant Turn(e, ByNumber(e), 0, order, parent, q.front)
      invariant q.rear + 1 == q.front + q.queueItemCount == |g.Visited()| <= n
      invariant q.front <= |order| <= n && (empty <==> q.front == |order|)
      decreases n - q.front, !empty
    {
      var u := Take(g, q, e, order);
      order, dist, parent := Scan(g, q, u, e, order, dist, parent, q.front - 1);
      CountsAgree(g, q, e, order, dist, q.front);
      empty := IsDone(g, q, e, order);
    }
    DiscoveryComplete(e, n, 0, order, dist);
    AfterAllSmallest(e, order, parent, q.front);
  }

  method IsDone(g: Graph, q: Queue, ghost e: Edges, ghost order: seq<nat>) returns (empty: bool)
    requires Holds(g, q, e, order)
    ensures q.front <= |order| && (empty <==> q.front == |order|)
  {
    empty := q.IsQueueEmpty();
  }

  method Take(g: Graph, q: Queue, ghost e: Edges, ghost order: seq<nat>) returns (u: nat)
    requires Holds(g, q, e, order) && q.front < |order|
    modifies q
    ensures Holds(g, q, e, order) && q.front == old(q.front) + 1 && u == order[old(q.front)]
  {
    u := q.RemoveData();
  }

  /**
   A first search, on a fresh queue: it takes off the queue all and only the vertices reachable
   from 0, once each, nearest first and smallest first among the neighbours of a vertex, and leaves
   every flag cleared.
   */
  method BreadthFirstSearch(g: Graph, q: Queue)
    requires g.Valid() && g.vertexCount > 0 && g.Visited() == {}
    requires q.Valid() && q.History() == [] && g.vertexCount <= q.items.Length
    modifies q, q.items, g.verts, g`log
    ensures g.Valid() && q.Valid() && q.front == |q.History()| <= g.vertexCount && g.E() == old(g.E())
    ensures BreadthFirstOrder(g.E(), 0, q.History()) && SmallestFirst(g.E(), q.History())
    ensures g.Visited() == {}
  {
    ghost var order := Traverse(g, q, g.E());
    g.ResetVisited();
  }

  /** main of bfs.c: the vertices leave the queue in this order. */
  method SearchSource() returns (q: Queue)
    ensures fresh(q) && q.Valid() && q.History() == [0, 1, 2, 3, 4] && q.front == 5
  {
    hide *;
    var g := BuildSource();
    q := new Queue(5);
    BreadthFirstSearch(g, q);
    OrderFacts(g.E(), 0, q.History());
    SourceBreadthFirst(q.History());
  }
}
