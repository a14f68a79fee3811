/** test_progs/graph.c: depth-first search with an explicit stack of bounded size. */
module MatrixDfs {
  import opened Counting
  import opened Reachability
  import opened MatrixGraph
  import opened SearchOrder

  class Stack {
    const items: array<nat>
    var top: int

    ghost predicate Valid()
      reads this
    {
      -1 <= top < items.Length
    }

    ghost function Contents(): seq<nat>
      requires Valid()
      reads this, items
    {
      items[..top + 1]
    }

    constructor (max: nat)
      ensures Valid() && fresh(items) && items.Length == max && Contents() == []
    {
      items := new nat[max];
      top := -1;
    }

    method Push(item: nat)
      requires Valid() && |Contents()| < items.Length
      modifies this, items
      ensures Valid() && Contents() == old(Contents()) + [item]
    {
      top := top + 1;
      items[top] := item;
    }

    method Pop() returns (item: nat)
      requires Valid() && Contents() != []
      modifies this
      ensures Valid() && old(Contents()) == Contents() + [item]
    {
      item := items[top];
      top := top - 1;
    }

    method Peek() returns (item: nat)
      requires Valid() && Contents() != []
      ensures item == Contents()[|Contents()| - 1]
    {
      item := items[top];
    }

    predicate IsStackEmpty()
      requires Valid()
      reads this, items
      ensures IsStackEmpty() <==> Contents() == []
    {
      top == -1
    }
  }

  /**
   The stack is a simple path of visited vertices from 0; every visited vertex is reachable, and
   those no longer on the stack have no unvisited neighbour.
   */
  ghost predicate DepthFirst(e: Edges, n: nat, visited: set<nat>, stack: seq<nat>) {
    && Distinct(stack) && (stack != [] ==> IsPath(e, stack) && stack[0] == 0)
    && (forall v :: v in stack ==> v in visited)
    && 0 in visited && (forall v :: v in visited ==> v < n && Reachable(e, 0, v))
    && (forall u, w :: u in visited && u !in stack && (u, w) in e ==> w in visited)
  }

  /** The stack is no taller than the number of visited vertices. */
  lemma StackHeight(e: Edges, n: nat, visited: set<nat>, stack: seq<nat>)
    requires DepthFirst(e, n, visited, stack)
    ensures |stack| <= |visited| <= n
    ensures stack != [] ==> stack[|stack| - 1] < n
  {
    assert stack != [] ==> stack[|stack| - 1] in stack;
    Pigeonhole(stack, visited);
    BelowSize(n);
    SubsetSize(visited, Below(n));
  }

  lemma StartStack(e: Edges, n: nat)
    requires n > 0
    ensures DepthFirst(e, n, {0}, [0])
  {
    EmptyPath(e, 0);
  }

  lemma PushKeeps(e: Edges, n: nat, visited: set<nat>, stack: seq<nat>, w: nat)
    requires DepthFirst(e, n, visited, stack) && stack != []
    requires (stack[|stack| - 1], w) in e && w < n && w !in visited
    ensures DepthFirst(e, n, visited + {w}, stack + [w])
    ensures |stack| < n && |visited + {w}| == |visited| + 1 <= n
  {
    RoomForOneMore(stack, w, n);
    var u := stack[|stack| - 1];
    assert u in stack;
    var d :| HasPath(e, 0, u, d);
    ExtendPath(e, 0, u, w, d);
    var visited', stack' := visited + {w}, stack + [w];
    assert IsPath(e, stack');
    forall x | x in visited' && x !in stack' ensures x in visited && x !in stack {
    }
    BelowSize(n);
    SubsetSize(visited', Below(n));
  }

  lemma PopKeeps(e: Edges, n: nat, visited: set<nat>, stack: seq<nat>, u: nat)
    requires DepthFirst(e, n, visited, stack + [u])
    requires forall w :: (u, w) in e ==> w in visited
    ensures DepthFirst(e, n, visited, stack)
  {
    var whole := stack + [u];
    forall i, j | 0 <= i < j < |stack| ensures stack[i] != stack[j] {
      assert whole[i] == stack[i] && whole[j] == stack[j];
    }
    forall i, j | 0 <= i && j == i + 1 && j < |stack| ensures (stack[i], stack[j]) in e {
      assert whole[i] == stack[i] && whole[j] == stack[j];
    }
    forall v | v in stack ensures v in visited {
      assert v in whole;
    }
    assert stack != [] ==> stack[0] == whole[0];
    forall x, w | x in visited && x !in stack && (x, w) in e ensures w in visited {
      assert x == u || x !in whole;
    }
  }

  /**
   The stack holds logged vertices in the order of the log, at the places `at`, and the log so far is in
   depth-first order. So what was logged behind the top of the stack is off the stack again.
   */
  ghost predicate InLogOrder(e: Edges, log: seq<nat>, stack: seq<nat>, at: seq<nat>) {
    && Distinct(log) && DepthFirstOrder(e, log) && |at| == |stack|
    && (forall i :: 0 <= i < |at| ==> at[i] < |log| && log[at[i]] == stack[i])
    && (forall i, j :: 0 <= i < j < |at| ==> at[i] < at[j])
  }

  lemma StartLog(e: Edges)
    ensures InLogOrder(e, [0], [0], [0])
  {
  }

  /** Every vertex logged behind the top of the stack has all its neighbours logged. */
  lemma BehindTop(e: Edges, n: nat, log: seq<nat>, stack: seq<nat>, at: seq<nat>, j: nat, x: nat)
    requires DepthFirst(e, n, Elements(log), stack) && InLogOrder(e, log, stack, at) && stack != []
    requires at[|at| - 1] < j < |log| && (log[j], x) in e
    ensures x in log
  {
    forall i | 0 <= i < |stack| ensures stack[i] != log[j] {
      assert at[i] <= at[|at| - 1];
    }
    assert log[j] in Elements(log) && x in Elements(log);
  }

  /** Marking and pushing the smallest unlogged neighbour of the top goes on in depth-first order. */
  lemma PushLogs(e: Edges, n: nat, log: seq<nat>, stack: seq<nat>, at: seq<nat>, w: nat)
    requires DepthFirst(e, n, Elements(log), stack) && InLogOrder(e, log, stack, at) && stack != []
    requires (stack[|stack| - 1], w) in e && w !in log
    requires forall x :: x < w && (stack[|stack| - 1], x) in e ==> x in log
    ensures InLogOrder(e, log + [w], stack + [w], at + [|log|])
  {
    var log', k := log + [w], at[|at| - 1];
    assert log'[..|log|] == log;
    forall j, x | k < j < |log| && (log'[j], x) in e ensures x in log {
      BehindTop(e, n, log, stack, at, j, x);
    }
    assert Continues(e, log', |log|, k);
    forall i | 0 < i < |log'| ensures GoesOn(e, log', i) {
      if i < |log| { StillGoesOn(e, log, w, i); }
    }
  }

  lemma PopLogs(e: Edges, log: seq<nat>, stack: seq<nat>, at: seq<nat>, u: nat)
    requires InLogOrder(e, log, stack + [u], at)
    ensures |stack| < |at| && InLogOrder(e, log, stack, at[..|stack|])
  {
    var whole := stack + [u];
    forall i | 0 <= i < |stack| ensures at[i] < |log| && log[at[i]] == stack[i] {
      assert whole[i] == stack[i];
    }
  }

  lemma LoggedElements(log: seq<nat>, w: nat)
    ensures Elements(log + [w]) == Elements(log) + {w}
    ensures w in Elements(log) <==> w in log
    ensures Distinct(log) ==> |Elements(log)| == |log|
  {
    if Distinct(log) { DistinctSize(log); }
  }

  /** `log` is what has been logged since `log0`; its vertices are the flagged ones. */
  ghost predicate Holds(g: Graph, s: Stack, e: Edges, log0: seq<nat>, log: seq<nat>, stack: seq<nat>)
    reads g, g.lstVertices, g.adjMatrix, g.verts, s, s.items
  {
    && g.Valid() && s.Valid() && g.vertexCount <= s.items.Length
    && g.E() == e && g.Visited() == Elements(log) && g.log == log0 + log && s.Contents() == stack
  }

  method MarkAndPush(g: Graph, s: Stack, w: nat,
                     ghost e: Edges, ghost log0: seq<nat>, ghost log: seq<nat>, ghost stack: seq<nat>)
    requires Holds(g, s, e, log0, log, stack) && w < g.vertexCount && |stack| < g.vertexCount
    modifies s, s.items, g.verts, g`log
    ensures Holds(g, s, e, log0, log + [w], stack + [w])
  {
    LoggedElements(log, w);
    assert log0 + log + [w] == log0 + (log + [w]);
    g.Mark(w);
    s.Push(w);
  }

  /** The smallest unvisited neighbour of the top of the stack, or -1. */
  method NextUnvisited(g: Graph, s: Stack,
                       ghost e: Edges, ghost log0: seq<nat>, ghost log: seq<nat>, ghost stack: seq<nat>)
    returns (w: int)
    requires Holds(g, s, e, log0, log, stack) && stack != [] && stack[|stack| - 1] < g.vertexCount
    ensures w == -1 ==> forall x :: (stack[|stack| - 1], x) in e ==> x in log
    ensures w != -1 ==> 0 <= w < g.vertexCount && (stack[|stack| - 1], w) in e && w !in log
    ensures w != -1 ==> forall x :: x < w && (stack[|stack| - 1], x) in e ==> x in log
  {
    var u := s.Peek();
    w := g.GetAdjUnvisitedVertex(u);
    assert forall x :: x in g.Visited() <==> x in log by { assert g.Visited() == Elements(log); }
  }

  method PopTop(g: Graph, s: Stack,
                ghost e: Edges, ghost log0: seq<nat>, ghost log: seq<nat>, ghost stack: seq<nat>)
    requires Holds(g, s, e, log0, log, stack) && stack != []
    modifies s
    ensures Holds(g, s, e, log0, log, stack[..|stack| - 1])
  {
    var u := s.Pop();
  }

  /** One pass of the loop: back up when the top has no unvisited neighbour, else go deeper. */
  method Step(g: Graph, s: Stack, ghost e: Edges, ghost log0: seq<nat>,
              ghost before: seq<nat>, ghost stack0: seq<nat>, ghost at0: seq<nat>)
    returns (w: int, ghost log: seq<nat>, ghost stack: seq<nat>, ghost at: seq<nat>)
    requires Holds(g, s, e, log0, before, stack0) && stack0 != []
    requires DepthFirst(e, g.vertexCount, Elements(before), stack0) && InLogOrder(e, before, stack0, at0)
    modifies s, s.items, g.verts, g`log
    ensures Holds(g, s, e, log0, log, stack)
    ensures DepthFirst(e, g.vertexCount, Elements(log), stack) && InLogOrder(e, log, stack, at)
    ensures w == -1 ==> log == before && stack == stack0[..|stack0| - 1]
    ensures w != -1 ==> 0 <= w && w !in before && log == before + [w] && stack == stack0 + [w]
    ensures |stack| <= |log| <= g.vertexCount
  {
    hide *;
    ghost var below, u := stack0[..|stack0| - 1], stack0[|stack0| - 1];
    assert stack0 == below + [u];
    StackHeight(e, g.vertexCount, Elements(before), stack0);
    w := NextUnvisited(g, s, e, log0, before, stack0);
    if w == -1 {
      PopTop(g, s, e, log0, before, stack0);
      LoggedNeighbours(e, before, u);
      PopKeeps(e, g.vertexCount, Elements(before), below, u);
      PopLogs(e, before, below, at0, u);
      log, stack, at := before, below, at0[..|below|];
    } else {
      LoggedElements(before, w);
      PushKeeps(e, g.vertexCount, Elements(before), stack0, w);
      PushLogs(e, g.vertexCount, before, stack0, at0, w);
      MarkAndPush(g, s, w, e, log0, before, stack0);
      log, stack, at := before + [w], stack0 + [w], at0 + [|before|];
    }
    LogLength(e, g.vertexCount, log, stack, at);
  }

  lemma LoggedNeighbours(e: Edges, log: seq<nat>, u: nat)
    requires forall x :: (u, x) in e ==> x in log
    ensures forall x :: (u, x) in e ==> x in Elements(log)
  {
  }

  lemma LogLength(e: Edges, n: nat, log: seq<nat>, stack: seq<nat>, at: seq<nat>)
    requires DepthFirst(e, n, Elements(log), stack) && InLogOrder(e, log, stack, at)
    ensures |stack| <= |log| <= n
  {
    StackHeight(e, n, Elements(log), stack);
    DistinctSize(log);
  }

  /** The search loop: on exit exactly the vertices reachable from 0 are logged, in depth-first order. */
  method Traverse(g: Graph, s: Stack, ghost e: Edges, ghost log0: seq<nat>) returns (ghost log: seq<nat>)
    requires Holds(g, s, e, log0, [], []) && g.vertexCount > 0
    modifies s, s.items, g.verts, g`log
    ensures Holds(g, s, e, log0, log, [])
    ensures Distinct(log) && IsReachableSet(e, 0, Elements(log)) && DepthFirstOrder(e, log)
  {
    hide *;
    ghost var n := g.vertexCount;
    ghost var stack: seq<nat>, at: seq<nat> := [0], [0];
    log := [0];
    MarkAndPush(g, s, 0, e, log0, [], []);
    assert [] + stack == stack && [] + log == log;
    StartStack(e, n);
    OnlyZero();
    StartLog(e);
    LogLength(e, n, log, stack, at);
    var empty := IsDone(g, s, e, log0, log, stack);
    while !empty
      invariant Holds(g, s, e, log0, log, stack)
      invariant DepthFirst(e, n, Elements(log), stack) && InLogOrder(e, log, stack, at)
      invariant |stack| <= |log| <= n
      invariant empty <==> stack == []
      decreases n - |log|, |stack|
    {
      var w;
      w, log, stack, at := Step(g, s, e, log0, log, stack, at);
      empty := IsDone(g, s, e, log0, log, stack);
    }
    StackEmpty(e, n, log, at);
  }

  lemma OnlyZero()
    ensures Elements([0 as nat]) == {0}
  {
  }

  method IsDone(g: Graph, s: Stack,
                ghost e: Edges, ghost log0: seq<nat>, ghost log: seq<nat>, ghost stack: seq<nat>)
    returns (empty: bool)
    requires Holds(g, s, e, log0, log, stack)
    ensures empty <==> stack == []
  {
    empty := s.IsStackEmpty();
  }

  lemma StackEmpty(e: Edges, n: nat, log: seq<nat>, at: seq<nat>)
    requires DepthFirst(e, n, Elements(log), []) && InLogOrder(e, log, [], at)
    ensures Distinct(log) && IsReachableSet(e, 0, Elements(log)) && DepthFirstOrder(e, log)
  {
    ClosedIsReachableSet(e, 0, Elements(log));
  }

  /**
   Marks all and only the vertices reachable from 0, once each, always going on from the last vertex
   that has an unmarked neighbour to the smallest of these, then clears every flag. The log, which
   Mark alone extends, keeps what the reset wipes from the flags.
   */
  method DepthFirstSearch(g: Graph, s: Stack)
    requires g.Valid() && g.vertexCount > 0 && g.Visited() == {}
    requires s.Valid() && s.Contents() == [] && g.vertexCount <= s.items.Length
    modifies s, s.items, g.verts, g`log
    ensures old(g.log) <= g.log
    ensures var log := g.log[|old(g.log)|..];
      Distinct(log) && IsReachableSet(old(g.E()), 0, Elements(log)) && DepthFirstOrder(old(g.E()), log)
    ensures g.Valid() && g.E() == old(g.E()) && g.Visited() == {} && s.Valid() && s.Contents() == []
  {
    assert g.log == g.log + [];
    ghost var log := Traverse(g, s, g.E(), g.log);
    assert g.log[|old(g.log)|..] == log;
    g.ResetVisited();
  }

  /** DFS_test of graph.c: the vertices are marked in this order. */
  method SearchSource() returns (g: Graph)
    ensures fresh(g) && g.log == [0, 1, 4, 2, 3]
  {
    hide *;
    g := BuildSource();
    var s := new Stack(5);
    DepthFirstSearch(g, s);
    SourceDepthFirst(g.log[0..]);
  }
}
