/** test_progs/graph.c: breadth-first search over adjacency lists with a bounded queue that silently drops. */
module ListBfs {
  import opened Counting
  import opened Reachability
  import opened SearchOrder

  /** A chain of list nodes; a node is never changed once it is linked in. */
  datatype List = Nil | Cons(vertex: nat, next: List)

  ghost function Vertices(l: List): set<nat> {
    match l
    case Nil => {}
    case Cons(v, next) => {v} + Vertices(next)
  }

  /** Where w stands first in the list. */
  ghost function Position(l: List, w: nat): nat
    requires w in Vertices(l)
  {
    if l.vertex == w then 0 else 1 + Position(l.next, w)
  }

  ghost function EdgesOf(lists: seq<List>): (e: Edges)
    ensures forall u: nat, w :: (u, w) in e <==> u < |lists| && w in Vertices(lists[u])
  {
    set u: nat, w: nat | u < |lists| && w in Vertices(lists[u]) :: (u, w)
  }

  /** Neighbours are met in the order of the lists. */
  ghost function RanksOf(lists: seq<List>): Ranks {
    map p | p in EdgesOf(lists) :: Position(lists[p.0], p.1)
  }

  ghost predicate InListOrder(lists: seq<List>, start: nat, order: seq<nat>) {
    InOrder(EdgesOf(lists), RanksOf(lists), start, order)
  }

  /** dest in front of the list of src. */
  function LinkedTo(lists: seq<List>, src: nat, dest: nat): (r: seq<List>)
    requires src < |lists|
    ensures EdgesOf(r) == EdgesOf(lists) + {(src, dest)}
    ensures forall w :: w in Vertices(lists[src]) && w != dest ==>
      Sooner(RanksOf(r), src, dest, w) && RanksOf(r)[(src, w)] == RanksOf(lists)[(src, w)] + 1
  {
    lists[src := Cons(dest, lists[src])]
  }

  ghost function WithEdge(lists: seq<List>, a: nat, b: nat): (r: seq<List>)
    requires a < |lists| && b < |lists|
    ensures |r| == |lists| && EdgesOf(r) == EdgesOf(lists) + {(a, b), (b, a)}
    ensures a != b ==> r == lists[a := Cons(b, lists[a])][b := Cons(a, lists[b])]
  {
    LinkedTo(LinkedTo(lists, a, b), b, a)
  }

  const CAPACITY := 40

  class Queue {
    const items: array<int>
    var front: int
    var rear: int
    ghost var drops: nat  // how often enqueue has thrown its argument away

    ghost predicate Valid()
      reads this
    {
      (front == rear == -1) || 0 <= front <= rear < items.Length
    }

    ghost function Contents(): seq<int>
      requires Valid()
      reads this, items
    {
      if rear == -1 then [] else items[front..rear + 1]
    }

    constructor (capacity: nat)
      ensures Valid() && fresh(items) && items.Length == capacity && rear == -1 && Contents() == [] && drops == 0
    {
      items := new int[capacity];
      front, rear, drops := -1, -1, 0;
    }

    predicate IsEmpty()
      requires Valid()
      reads this, items
      ensures IsEmpty() <==> Contents() == []
    {
      rear == -1
    }

    method Enqueue(value: int)
      requires Valid()
      modifies this, items
      ensures Valid()
      ensures old(rear) == items.Length - 1 ==>
        Contents() == old(Contents()) && rear == old(rear) && drops == old(drops) + 1
      ensures old(rear) != items.Length - 1 ==>
        Contents() == old(Contents()) + [value] && rear == old(rear) + 1 && drops == old(drops)
    {
      if rear == items.Length - 1 {
        drops := drops + 1;
      } else {
        if front == -1 {
          front := 0;
        }
        rear := rear + 1;
        items[rear] := value;
      }
    }

    method Dequeue() returns (item: int)
      requires Valid()
      modifies this
      ensures Valid() && drops == old(drops)
      ensures old(Contents()) == [] ==> item == -1 && rear == old(rear) && Contents() == []
      ensures old(Contents()) != [] ==>
        old(Contents()) == [item] + Contents() && rear == if Contents() == [] then -1 else old(rear)
    {
      if IsEmpty() {
        item := -1;
      } else {
        item := items[front];
        front := front + 1;
        if front > rear {
          front, rear := -1, -1;
        }
      }
    }
  }

  class Graph {
    const numVertices: nat
    const adjLists: array<List>
    const visited: array<int>
    ghost var log: seq<nat>  // the vertices taken off the queue, in order: RESULT_SHOW prints them

    ghost predicate Valid()
      reads adjLists
    {
      && adjLists.Length == visited.Length == numVertices
      && forall u :: 0 <= u < numVertices ==> forall w :: w in Vertices(adjLists[u]) ==> w < numVertices
    }

    ghost function E(): Edges
      requires Valid()
      reads adjLists
    {
      EdgesOf(adjLists[..])
    }

    ghost function Visited(): set<nat>
      requires Valid()
      reads adjLists, visited
    {
      set v: nat | v < numVertices && visited[v] != 0
    }

    constructor (vertices: nat)
      ensures Valid() && numVertices == vertices && fresh(adjLists) && fresh(visited)
      ensures forall u :: 0 <= u < vertices ==> adjLists[u] == Nil
      ensures E() == {} && Visited() == {} && log == []
    {
      numVertices := vertices;
      adjLists := new List[vertices](_ => Nil);
      visited := new int[vertices](_ => 0);
      log := [];
    }

    /** A new node for dest in front of the list of src. */
    method Link(src: nat, dest: nat)
      requires Valid() && src < numVertices && dest < numVertices
      modifies adjLists
      ensures Valid() && adjLists[..] == LinkedTo(old(adjLists[..]), src, dest)
    {
      var newNode := Cons(dest, adjLists[src]);
      assert Vertices(newNode) == {dest} + Vertices(adjLists[src]);
      adjLists[src] := newNode;
    }

    method AddEdge(src: nat, dest: nat)
      requires Valid() && src < numVertices && dest < numVertices
      modifies adjLists
      ensures Valid() && adjLists[..] == WithEdge(old(adjLists[..]), src, dest)
      ensures E() == old(E()) + {(src, dest), (dest, src)} && Visited() == old(Visited())
    {
      Link(src, dest);
      Link(dest, src);
    }
  }

  /** The flags are set exactly on `order`, of which all from cur on are still queued. */
  ghost predicate Holds(g: Graph, q: Queue, lists: seq<List>, order: seq<nat>, cur: nat)
    reads g, g.adjLists, g.visited, q, q.items
  {
    && g.Valid() && q.Valid() && g.visited != q.items && g.numVertices <= q.items.Length
    && g.adjLists[..] == lists && g.Visited() == Elements(order)
    && cur <= |order| && q.Contents() == order[cur..]
    && q.drops == 0 && q.rear + 1 <= |order|
  }

  method MarkAndEnqueue(g: Graph, q: Queue, w: nat, ghost lists: seq<List>, ghost order: seq<nat>, ghost cur: nat)
    requires Holds(g, q, lists, order, cur) && w < g.numVertices && |order| < g.numVertices
    modifies g.visited, q, q.items
    ensures Holds(g, q, lists, order + [w], cur)
  {
    g.visited[w] := 1;
    assert g.Visited() == Elements(order) + {w} == Elements(order + [w]);
    assert (order + [w])[cur..] == order[cur..] + [w];
    q.Enqueue(w);
  }

  /** Every neighbour of u that is not in the order stands in temp, which goes on behind i places of its list. */
  ghost predicate Left(lists: seq<List>, u: nat, order: seq<nat>, temp: List, i: nat) {
    && (forall w :: w in Vertices(temp) ==> (u, w) in EdgesOf(lists))
    && forall w :: (u, w) in EdgesOf(lists) && w !in order ==>
         w in Vertices(temp) && RanksOf(lists)[(u, w)] == i + Position(temp, w)
  }

  lemma StartLeft(lists: seq<List>, u: nat, order: seq<nat>)
    requires u < |lists|
    ensures Left(lists, u, order, lists[u], 0)
  {
  }

  /** A neighbour at the head of what is left comes next. */
  lemma HeadIsNext(lists: seq<List>, u: nat, order: seq<nat>, temp: List, i: nat)
    requires Left(lists, u, order, temp, i) && temp.Cons? && temp.vertex !in order
    ensures IsNext(EdgesOf(lists), RanksOf(lists), order, u, temp.vertex)
  {
    hide EdgesOf;
    assert temp.vertex in Vertices(temp);
  }

  lemma StepLeft(lists: seq<List>, u: nat, order: seq<nat>, temp: List, i: nat)
    requires Left(lists, u, order, temp, i) && temp.Cons?
    ensures (u, temp.vertex) in EdgesOf(lists)
    ensures temp.vertex in order ==> Left(lists, u, order, temp.next, i + 1)
    ensures Left(lists, u, order + [temp.vertex], temp.next, i + 1)
  {
    assert Vertices(temp) == {temp.vertex} + Vertices(temp.next);
  }

  lemma NeighbourBelow(g: Graph, q: Queue, lists: seq<List>, order: seq<nat>, cur: nat, u: nat, w: nat)
    requires Holds(g, q, lists, order, cur) && (u, w) in EdgesOf(lists)
    ensures w < g.numVertices
  {
    assert w in Vertices(g.adjLists[u]);
  }

  method IsVisited(g: Graph, q: Queue, w: nat, ghost lists: seq<List>, ghost order: seq<nat>, ghost cur: nat)
    returns (visited: bool)
    requires Holds(g, q, lists, order, cur) && w < g.numVertices
    ensures visited <==> w in order
  {
    assert w in g.Visited() <==> w in Elements(order);
    visited := g.visited[w] != 0;
  }

  method ListOf(g: Graph, q: Queue, u: nat, ghost lists: seq<List>, ghost order: seq<nat>, ghost cur: nat)
    returns (l: List)
    requires Holds(g, q, lists, order, cur) && u < g.numVertices
    ensures u < |lists| && l == lists[u]
  {
    l := g.adjLists[u];
  }

  /** The inner loop: the unvisited neighbours of u are marked and queued, in the order of its list. */
  method Expand(g: Graph, q: Queue, u: nat, ghost lists: seq<List>, ghost start: nat,
                ghost order0: seq<nat>, ghost dist0: seq<nat>, ghost parent0: seq<nat>, ghost cur: nat)
    returns (ghost order: seq<nat>, ghost dist: seq<nat>, ghost parent: seq<nat>)
    requires Holds(g, q, lists, order0, cur + 1) && cur < |order0| && order0[cur] == u
    requires Discovery(EdgesOf(lists), g.numVertices, start, order0, dist0, cur)
    requires Turn(EdgesOf(lists), RanksOf(lists), start, order0, parent0, cur)
    modifies g.visited, q, q.items
    ensures Holds(g, q, lists, order, cur + 1) && order0 <= order
    ensures Discovery(EdgesOf(lists), g.numVertices, start, order, dist, cur + 1)
    ensures Turn(EdgesOf(lists), RanksOf(lists), start, order, parent, cur + 1)
  {
    hide *;
    order, dist, parent := order0, dist0, parent0;
    ghost var e, rank, n := EdgesOf(lists), RanksOf(lists), g.numVertices;
    DiscoveryBounds(e, n, start, order, dist, cur);
    var temp := ListOf(g, q, u, lists, order, cur + 1);
    ghost var i: nat := 0;
    StartLeft(lists, u, order);
    while temp.Cons?
      invariant Holds(g, q, lists, order, cur + 1) && order0 <= order && cur < |order| && order[cur] == u
      invariant Discovery(e, n, start, order, dist, cur) && Turn(e, rank, start, order, parent, cur)
      invariant Left(lists, u, order, temp, i)
      decreases temp
    {
      var adjVertex := temp.vertex;
      StepLeft(lists, u, order, temp, i);
      NeighbourBelow(g, q, lists, order, cur + 1, u, adjVertex);
      var visited := IsVisited(g, q, adjVertex, lists, order, cur + 1);
      if !visited {
        HeadIsNext(lists, u, order, temp, i);
        DiscoveryBounds(e, n, start, order, dist, cur);
        Discover(e, n, start, order, dist, cur, adjVertex);
        TakeTurn(e, n, rank, start, order, dist, parent, cur, adjVertex);
        MarkAndEnqueue(g, q, adjVertex, lists, order, cur + 1);
        order, dist, parent := order + [adjVertex], dist + [dist[cur] + 1], parent + [cur];
      }
      temp := temp.next;
      i := i + 1;
    }
    NothingLeft(lists, u, order, temp, i);
    FinishVertex(e, n, start, order, dist, cur);
    EndTurn(e, rank, start, order, parent, cur);
  }

  lemma NothingLeft(lists: seq<List>, u: nat, order: seq<nat>, temp: List, i: nat)
    requires Left(lists, u, order, temp, i) && temp.Nil?
    ensures forall w :: (u, w) in EdgesOf(lists) ==> w in order
  {
  }

  /** The search loop, from an empty queue and clear flags. */
  method Search(g: Graph, q: Queue, start: nat, ghost lists: seq<List>) returns (ghost order: seq<nat>)
    requires Holds(g, q, lists, [], 0) && start < g.numVertices
    modifies g.visited, g`log, q, q.items
    ensures Holds(g, q, lists, order, |order|) && g.log == old(g.log) + order
    ensures BreadthFirstOrder(EdgesOf(lists), start, order) && InListOrder(lists, start, order)
  {
    hide *;
    ghost var e, rank, n := EdgesOf(lists), RanksOf(lists), g.numVertices;
    ghost var dist: seq<nat>, parent: seq<nat>, cur: nat := [0], [0], 0;
    order := [start];
    MarkAndEnqueue(g, q, start, lists, [], 0);
    assert [] + order == order;
    StartDiscovery(e, n, start);
    StartTurn(e, rank, start);
    DiscoveredCount(e, n, start, order, dist, cur);
    var empty := IsDone(g, q, lists, order, cur);
    while !empty
      invariant Holds(g, q, lists, order, cur)
      invariant Discovery(e, n, start, order, dist, cur) && Turn(e, rank, start, order, parent, cur)
      invariant cur <= |order| <= n && (empty <==> cur == |order|)
      invariant g.log == old(g.log) + order[..cur]
      decreases n - cur
    {
      var currentVertex := Take(g, q, lists, order, cur);
      ghost var before := order;
      order, dist, parent := Expand(g, q, currentVertex, lists, start, order, dist, parent, cur);
      assert order[..cur + 1] == before[..cur] + [before[cur]];
      cur := cur + 1;
      DiscoveredCount(e, n, start, order, dist, cur);
      empty := IsDone(g, q, lists, order, cur);
    }
    DiscoveryComplete(e, n, start, order, dist);
    AfterAllTurns(e, rank, start, order, parent, cur);
    assert order[..cur] == order;
    ByLists(lists, start, order);
  }

  lemma ByLists(lists: seq<List>, start: nat, order: seq<nat>)
    requires InOrder(EdgesOf(lists), RanksOf(lists), start, order)
    ensures InListOrder(lists, start, order)
  {
  }

  method IsDone(g: Graph, q: Queue, ghost lists: seq<List>, ghost order: seq<nat>, ghost cur: nat)
    returns (empty: bool)
    requires Holds(g, q, lists, order, cur)
    ensures cur <= |order| && (empty <==> cur == |order|)
  {
    empty := q.IsEmpty();
  }

  method Take(g: Graph, q: Queue, ghost lists: seq<List>, ghost order: seq<nat>, ghost cur: nat) returns (u: nat)
    requires Holds(g, q, lists, order, cur) && cur < |order|
    modifies q, g`log
    ensures Holds(g, q, lists, order, cur + 1) && u == order[cur] && g.log == old(g.log) + [u]
  {
    assert order[cur..] == [order[cur]] + order[cur + 1..];
    u := q.Dequeue();
    g.log := g.log + [u];
  }

  /**
   Takes all and only the vertices reachable from the start off the queue, once each, nearest first
   and in the order of its list among the neighbours of a vertex. Exactly these are marked, and
   nothing is ever dropped.
   */
  method Traverse(g: Graph, q: Queue, start: nat)
    requires g.Valid() && start < g.numVertices <= q.items.Length && g.Visited() == {}
    requires q.Valid() && q.rear == -1 && q.drops == 0 && g.visited != q.items
    modifies g.visited, g`log, q, q.items
    ensures g.Valid() && g.adjLists[..] == old(g.adjLists[..]) && old(g.log) <= g.log
    ensures var order := g.log[|old(g.log)|..];
      && BreadthFirstOrder(g.E(), start, order) && InListOrder(g.adjLists[..], start, order)
      && g.Visited() == Elements(order)
    ensures IsReachableSet(g.E(), start, g.Visited())
    ensures q.Valid() && q.drops == 0 && q.Contents() == []
  {
    hide IsReachableSet, BreadthFirstOrder, InListOrder, RanksOf, EdgesOf;
    ghost var order := Search(g, q, start, g.adjLists[..]);
    assert g.log[|old(g.log)|..] == order;
    OrderFacts(g.E(), start, order);
  }

  /** The lists and the start determine the order. */
  lemma OneListOrder(lists: seq<List>, start: nat, a: seq<nat>, b: seq<nat>)
    requires BreadthFirstOrder(EdgesOf(lists), start, a) && InListOrder(lists, start, a)
    requires BreadthFirstOrder(EdgesOf(lists), start, b) && InListOrder(lists, start, b)
    ensures a == b
  {
    hide EdgesOf, RanksOf, InOrder;
    assert forall v :: v in Elements(a) <==> v in Elements(b);
    OneBreadthFirstOrder(EdgesOf(lists), RanksOf(lists), start, a, b);
  }

  method Bfs(g: Graph, start: nat)
    requires g.Valid() && start < g.numVertices <= CAPACITY && g.Visited() == {}
    modifies g.visited, g`log
    ensures g.Valid() && g.adjLists[..] == old(g.adjLists[..]) && old(g.log) <= g.log
    ensures var order := g.log[|old(g.log)|..];
      && BreadthFirstOrder(g.E(), start, order) && InListOrder(g.adjLists[..], start, order)
      && g.Visited() == Elements(order)
    ensures IsReachableSet(g.E(), start, g.Visited())
  {
    hide IsReachableSet, BreadthFirstOrder, InListOrder, RanksOf, EdgesOf;
    var q := new Queue(CAPACITY);
    Traverse(g, q, start);
  }

  // ----- bfs_test -----

  ghost function Chain(vertices: seq<nat>): List {
    if vertices == [] then Nil else Cons(vertices[0], Chain(vertices[1..]))
  }

  ghost function Chains(adj: seq<seq<nat>>): seq<List> {
    seq(|adj|, i requires 0 <= i < |adj| => Chain(adj[i]))
  }

  /** An edge goes to the front of two chains. */
  lemma ChainsGrow(adj: seq<seq<nat>>, a: nat, b: nat)
    requires a < |adj| && b < |adj| && a != b
    ensures WithEdge(Chains(adj), a, b) == Chains(adj[a := [b] + adj[a]][b := [a] + adj[b]])
  {
    assert ([b] + adj[a])[1..] == adj[a] && ([a] + adj[b])[1..] == adj[b];
  }

  method BuildSource() returns (g: Graph)
    ensures fresh(g) && fresh(g.adjLists) && fresh(g.visited)
    ensures g.Valid() && g.numVertices == 6 && g.adjLists[..] == SourceLists() && g.Visited() == {} && g.log == []
  {
    hide EdgesOf, RanksOf, Vertices, Chains, Chain, WithEdge, Drawn;
    g := new Graph(6);
    NoneDrawn(g);
    DrawnSteps();
    Draw(g, 0, 1, 0);
    Draw(g, 0, 2, 1);
    Draw(g, 1, 2, 2);
    Draw(g, 1, 4, 3);
    Draw(g, 1, 3, 4);
    Draw(g, 2, 4, 5);
    Draw(g, 3, 4, 6);
  }

  ghost predicate Adds(k: nat, a: nat, b: nat) {
    && a < b < 6
    && Drawn(k + 1)[a] == [b] + Drawn(k)[a] && Drawn(k + 1)[b] == [a] + Drawn(k)[b]
    && forall i :: 0 <= i < 6 && i != a && i != b ==> Drawn(k + 1)[i] == Drawn(k)[i]
  }

  method Draw(g: Graph, a: nat, b: nat, ghost k: nat)
    requires g.Valid() && g.numVertices == 6 && g.adjLists[..] == Chains(Drawn(k)) && Adds(k, a, b)
    modifies g.adjLists
    ensures g.Valid() && g.adjLists[..] == Chains(Drawn(k + 1)) && g.Visited() == old(g.Visited())
  {
    hide EdgesOf, RanksOf, Vertices, Chains, Chain, WithEdge, Drawn;
    Grown(a, b, k);
    g.AddEdge(a, b);
  }

  lemma NoneDrawn(g: Graph)
    requires g.Valid() && g.numVertices == 6 && forall u :: 0 <= u < 6 ==> g.adjLists[u] == Nil
    ensures g.adjLists[..] == Chains(Drawn(0))
  {
  }

  /** bfs_test's graph of six vertices, the last of them alone. */
  ghost function SourceLists(): seq<List> {
    Chains(Drawn(7))
  }

  /** The lists after k of the seven edges. */
  ghost function Drawn(k: nat): (adj: seq<seq<nat>>)
    ensures |adj| == 6
  {
    match k
    case 0 => [[], [], [], [], [], []]
    case 1 => [[1], [0], [], [], [], []]
    case 2 => [[2, 1], [0], [0], [], [], []]
    case 3 => [[2, 1], [2, 0], [1, 0], [], [], []]
    case 4 => [[2, 1], [4, 2, 0], [1, 0], [], [1], []]
    case 5 => [[2, 1], [3, 4, 2, 0], [1, 0], [1], [1], []]
    case 6 => [[2, 1], [3, 4, 2, 0], [4, 1, 0], [1], [2, 1], []]
    case _ => [[2, 1], [3, 4, 2, 0], [4, 1, 0], [4, 1], [3, 2, 1], []]
  }

  lemma Grown(a: nat, b: nat, k: nat)
    requires Adds(k, a, b)
    ensures |Chains(Drawn(k))| == 6 && WithEdge(Chains(Drawn(k)), a, b) == Chains(Drawn(k + 1))
  {
    hide WithEdge, Drawn;
    ChainsGrow(Drawn(k), a, b);
    assert Drawn(k + 1) == Drawn(k)[a := [b] + Drawn(k)[a]][b := [a] + Drawn(k)[b]];
  }

  lemma DrawnSteps()
    ensures Adds(0, 0, 1) && Adds(1, 0, 2) && Adds(2, 1, 2) && Adds(3, 1, 4)
    ensures Adds(4, 1, 3) && Adds(5, 2, 4) && Adds(6, 3, 4)
  {
  }

  ghost function SourceEdges(): Edges {
    {(0, 2), (0, 1), (1, 3), (1, 4), (1, 2), (1, 0), (2, 4), (2, 1), (2, 0), (3, 4), (3, 1), (4, 3), (4, 2), (4, 1)}
  }

  lemma {:induction false} ChainVertices(vertices: seq<nat>)
    ensures forall w :: w in Vertices(Chain(vertices)) <==> w in vertices
  {
    if vertices != [] {
      ChainVertices(vertices[1..]);
      assert vertices == [vertices[0]] + vertices[1..];
    }
  }

  lemma SourceEdgesDrawn()
    ensures EdgesOf(SourceLists()) == SourceEdges()
  {
    hide Chain, Vertices, Drawn, RanksOf;
    LastDrawn();
    var l := SourceLists();
    forall u: nat, w: nat ensures (u, w) in EdgesOf(l) <==> (u, w) in SourceEdges() {
      if u < 6 { ChainVertices(Drawn(7)[u]); }
    }
  }

  lemma SourceReached(visited: set<nat>)
    requires IsReachableSet(SourceEdges(), 0, visited)
    ensures visited == {0, 1, 2, 3, 4}
  {
    var e := SourceEdges();
    EmptyPath(e, 0);
    ExtendPath(e, 0, 0, 1, 0);
    ExtendPath(e, 0, 0, 2, 0);
    ExtendPath(e, 0, 1, 3, 1);
    ExtendPath(e, 0, 2, 4, 1);
    ClosedIsReachableSet(e, 0, {0, 1, 2, 3, 4});
  }

  /** The head of a list is met before every other neighbour. */
  lemma HeadIsSooner(lists: seq<List>, u: nat, w: nat)
    requires u < |lists| && lists[u].Cons? && w != lists[u].vertex && (u, w) in EdgesOf(lists)
    ensures Sooner(RanksOf(lists), u, lists[u].vertex, w)
  {
  }

  lemma SourceHead()
    ensures SourceLists()[0].Cons? && SourceLists()[0].vertex == 2
  {
    hide EdgesOf, RanksOf, Vertices, Drawn;
    LastDrawn();
    assert SourceLists()[0] == Chain(Drawn(7)[0]);
  }

  lemma LastDrawn()
    ensures Drawn(7) == [[2, 1], [3, 4, 2, 0], [4, 1, 0], [4, 1], [3, 2, 1], []]
  {
  }

  lemma SourceRanks()
    ensures Sooner(RanksOf(SourceLists()), 0, 2, 1)
  {
    SourceEdgesDrawn();
    SourceHead();
    hide EdgesOf, RanksOf, Drawn, SourceLists, Chain, Chains, Vertices;
    HeadIsSooner(SourceLists(), 0, 1);
  }

  lemma SourceFirst()
    ensures var e, order := SourceEdges(), [0, 2, 1, 4, 3];
      && FirstParent(e, order, 1, 0) && FirstParent(e, order, 2, 0)
      && FirstParent(e, order, 3, 1) && FirstParent(e, order, 4, 2)
  {
  }

  lemma SourceParents()
    ensures Distinct([0, 2, 1, 4, 3]) && InListOrder(SourceLists(), 0, [0, 2, 1, 4, 3])
  {
    SourceEdgesDrawn();
    SourceRanks();
    SourceFirst();
    hide EdgesOf, RanksOf, SourceLists, Sooner, FirstParent, SourceEdges;
    var order, parent, rank := [0, 2, 1, 4, 3], [0, 0, 0, 1, 2], RanksOf(SourceLists());
    assert Siblings(rank, order, parent, 1, 2);
    assert ByParents(SourceEdges(), rank, 0, order, parent);
  }

  /** bfs_test: the vertices leave the queue in this order, and vertex 5 is never reached. */
  method BfsTest() returns (g: Graph)
    ensures fresh(g) && g.Valid() && g.log == [0, 2, 1, 4, 3] && g.Visited() == {0, 1, 2, 3, 4}
  {
    hide EdgesOf, RanksOf, BreadthFirstOrder, InListOrder, IsReachableSet, SourceLists, Elements;
    g := BuildSource();
    Bfs(g, 0);
    SourceOrder(g.log[0..]);
  }

  lemma SourceOrder(order: seq<nat>)
    requires BreadthFirstOrder(EdgesOf(SourceLists()), 0, order) && InListOrder(SourceLists(), 0, order)
    ensures order == [0, 2, 1, 4, 3] && Elements(order) == {0, 1, 2, 3, 4}
  {
    SourceParents();
    SourceEdgesDrawn();
    hide EdgesOf, RanksOf, SourceLists, InOrder, SourceEdges, BreadthFirstOrder;
    OrderFacts(SourceEdges(), 0, order);
    SourceReached(Elements(order));
    assert Elements([0, 2, 1, 4, 3]) == {0, 1, 2, 3, 4};
    OneBreadthFirstOrder(SourceEdges(), RanksOf(SourceLists()), 0, order, [0, 2, 1, 4, 3]);
  }
}
