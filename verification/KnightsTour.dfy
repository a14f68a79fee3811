/** test_progs/backtrack.c: knight's tour by backtracking on a board that is written and undone in place. */
module KnightsTour {
  import opened Counting

  type Cell = (int, int)

  const X_MOVE := [2, 1, -1, -2, -2, -1, 1, 2]
  const Y_MOVE := [1, 2, 2, 1, -1, -2, -2, -1]

  predicate OnBoard(c: Cell, n: nat) { 0 <= c.0 < n && 0 <= c.1 < n }

  /** The chess rule: two squares one way and one the other. */
  predicate KnightStep(a: Cell, b: Cell) {
    var dx, dy := b.0 - a.0, b.1 - a.1;
    ((dx == 1 || dx == -1) && (dy == 2 || dy == -2)) || ((dx == 2 || dx == -2) && (dy == 1 || dy == -1))
  }

  function Target(c: Cell, k: nat): Cell
    requires k < 8
  {
    (c.0 + X_MOVE[k], c.1 + Y_MOVE[k])
  }

  /** The two move tables list exactly the knight's moves, none twice. */
  lemma MoveTable(a: Cell, b: Cell)
    ensures KnightStep(a, b) <==> exists k :: 0 <= k < 8 && b == Target(a, k)
    ensures forall j, k :: 0 <= j < k < 8 ==> Target(a, j) != Target(a, k)
  {
    TriedInOrder(a);
    if KnightStep(a, b) {
      var dx, dy := b.0 - a.0, b.1 - a.1;
      var k := if dx == 2 && dy == 1 then 0 else if dx == 1 && dy == 2 then 1
        else if dx == -1 && dy == 2 then 2 else if dx == -2 && dy == 1 then 3
        else if dx == -2 && dy == -1 then 4 else if dx == -1 && dy == -2 then 5
        else if dx == 1 && dy == -2 then 6 else 7;
      assert b == Target(a, k);
    }
  }

  /** The eight moves in the order in which they are tried. */
  lemma TriedInOrder(a: Cell)
    ensures Target(a, 0) == (a.0 + 2, a.1 + 1) && Target(a, 1) == (a.0 + 1, a.1 + 2)
    ensures Target(a, 2) == (a.0 - 1, a.1 + 2) && Target(a, 3) == (a.0 - 2, a.1 + 1)
    ensures Target(a, 4) == (a.0 - 2, a.1 - 1) && Target(a, 5) == (a.0 - 1, a.1 - 2)
    ensures Target(a, 6) == (a.0 + 1, a.1 - 2) && Target(a, 7) == (a.0 + 2, a.1 - 1)
  {
  }

  /** A walk of the knight that stays on the board and never revisits a cell. */
  ghost predicate Tour(p: seq<Cell>, n: nat) {
    && p != []
    && (forall i :: 0 <= i < |p| ==> OnBoard(p[i], n))
    && Distinct(p)
    && (forall i, j :: 0 <= i && j == i + 1 && j < |p| ==> KnightStep(p[i], p[j]))
  }

  ghost predicate CompleteTour(p: seq<Cell>, n: nat) { Tour(p, n) && |p| == n * n }

  ghost predicate Completable(p: seq<Cell>, n: nat) {
    exists q :: CompleteTour(q, n) && p <= q
  }

  /** From a, the move to b is tried before the move to c. */
  ghost predicate TriedBefore(a: Cell, b: Cell, c: Cell) {
    exists j, k :: 0 <= j < k < 8 && b == Target(a, j) && c == Target(a, k)
  }

  ghost predicate PartAt(q: seq<Cell>, t: seq<Cell>, m: int) {
    0 < m < |q| && m < |t| && q[..m] == t[..m] && TriedBefore(q[m - 1], q[m], t[m])
  }

  /** Where q and t part, q goes on with a move that is tried before that of t. */
  ghost predicate Sooner(q: seq<Cell>, t: seq<Cell>) {
    exists m :: PartAt(q, t, m)
  }

  /** Of all complete tours that begin with p, q is the first in the order in which moves are tried. */
  ghost predicate FirstCompletion(q: seq<Cell>, p: seq<Cell>, n: nat) {
    && CompleteTour(q, n) && p <= q
    && forall t :: CompleteTour(t, n) && p <= t ==> t == q || Sooner(q, t)
  }

  lemma OneFirstCompletion(q: seq<Cell>, r: seq<Cell>, p: seq<Cell>, n: nat)
    requires FirstCompletion(q, p, n) && FirstCompletion(r, p, n)
    ensures q == r
  {
    if q != r { NotBoth(q, r); }
  }

  /** Of two tours only one is sooner. */
  lemma NotBoth(q: seq<Cell>, t: seq<Cell>)
    ensures !(Sooner(q, t) && Sooner(t, q))
  {
    if Sooner(q, t) && Sooner(t, q) {
      var m :| PartAt(q, t, m);
      var l :| PartAt(t, q, l);
      NotSooner(q, t, m, l);
    }
  }

  lemma NotSooner(q: seq<Cell>, t: seq<Cell>, m: int, l: int)
    ensures !(PartAt(q, t, m) && PartAt(t, q, l))
  {
    hide TriedBefore;
    if PartAt(q, t, m) && PartAt(t, q, l) {
      OneWay(q[m - 1], q[m], t[m]);
      OneWay(t[l - 1], t[l], q[l]);
      SameBefore(q, t, m);
      SameBefore(t, q, l);
    }
  }

  lemma SameBefore(q: seq<Cell>, t: seq<Cell>, m: nat)
    requires m <= |q| && m <= |t| && q[..m] == t[..m]
    ensures forall i :: 0 <= i < m ==> q[i] == t[i]
  {
    forall i | 0 <= i < m ensures q[i] == t[i] {
      assert q[..m][i] == t[..m][i];
    }
  }

  lemma OneWay(a: Cell, b: Cell, c: Cell)
    ensures !(TriedBefore(a, b, c) && TriedBefore(a, c, b)) && !TriedBefore(a, b, b)
  {
    MoveTable(a, b);
  }

  /** When the knight visits c, or -1. */
  ghost function IndexOf(p: seq<Cell>, c: Cell): (k: int)
    ensures k == -1 <==> c !in p
    ensures k != -1 ==> 0 <= k < |p| && p[k] == c
  {
    if p == [] then -1
    else if p[|p| - 1] == c then |p| - 1
    else IndexOf(p[..|p| - 1], c)
  }

  /** The board numbers the cells of the tour in order and marks every other cell -1. */
  ghost predicate Shows(sol: array2<int>, p: seq<Cell>, n: nat)
    requires sol.Length0 == sol.Length1 == n
    reads sol
  {
    forall x, y :: 0 <= x < n && 0 <= y < n ==> sol[x, y] == IndexOf(p, (x, y))
  }

  // ----- counting cells -----

  ghost function Row(x: int, cols: nat): (r: set<Cell>)
    ensures forall c :: c in r <==> c.0 == x && 0 <= c.1 < cols
    ensures |r| == cols
  {
    if cols == 0 then {} else Row(x, cols - 1) + {(x, cols - 1)}
  }

  ghost function Cells(rows: nat, cols: nat): (r: set<Cell>)
    ensures forall c :: c in r <==> 0 <= c.0 < rows && 0 <= c.1 < cols
    ensures |r| == rows * cols
  {
    if rows == 0 then {} else
      var upper, row := Cells(rows - 1, cols), Row(rows - 1, cols);
      assert upper !! row;
      upper + row
  }

  /** A tour has at most n*n cells, and one of n*n cells visits the whole board. */
  lemma TourLength(p: seq<Cell>, n: nat)
    requires Tour(p, n)
    ensures |p| <= n * n
    ensures |p| == n * n ==> forall c :: OnBoard(c, n) ==> c in p
  {
    forall c | c in p ensures c in Cells(n, n) {
      assert OnBoard(c, n);
    }
    Pigeonhole(p, Cells(n, n));
    if |p| == n * n {
      forall c | OnBoard(c, n) ensures c in p {
        assert c in Cells(n, n);
      }
    }
  }

  lemma Extend(p: seq<Cell>, c: Cell, n: nat)
    requires Tour(p, n) && OnBoard(c, n) && c !in p && KnightStep(p[|p| - 1], c)
    ensures Tour(p + [c], n)
  {
  }

  /** The next cell of any completion is one of the eight targets, on the board and unvisited. */
  lemma NextCell(p: seq<Cell>, q: seq<Cell>, n: nat) returns (k: nat)
    requires Tour(p, n) && CompleteTour(q, n) && p <= q && |p| < n * n
    ensures k < 8 && q[|p|] == Target(p[|p| - 1], k) && OnBoard(q[|p|], n) && q[|p|] !in p
    ensures p + [q[|p|]] <= q
  {
    var i := |p| - 1;
    assert KnightStep(q[i], q[i + 1]);
    MoveTable(q[i], q[i + 1]);
    k :| 0 <= k < 8 && q[i + 1] == Target(q[i], k);
  }

  // ----- the program -----

  predicate IsSafe(x: int, y: int, sol: array2<int>, n: nat)
    requires sol.Length0 == sol.Length1 == n
    reads sol
  {
    x >= 0 && x < n && y >= 0 && y < n && sol[x, y] == -1
  }

  lemma SafeMeansUnvisited(x: int, y: int, sol: array2<int>, p: seq<Cell>, n: nat)
    requires sol.Length0 == sol.Length1 == n && Shows(sol, p, n)
    ensures IsSafe(x, y, sol, n) <==> OnBoard((x, y), n) && (x, y) !in p
  {
  }

  lemma PlaceNext(p: seq<Cell>, c: Cell)
    ensures forall d :: IndexOf(p + [c], d) == if d == c then |p| else IndexOf(p, d)
  {
    assert (p + [c])[..|p|] == p;
  }

  /** The board shows the first complete tour that continues p. */
  ghost predicate ShowsFirst(sol: array2<int>, p: seq<Cell>, n: nat)
    requires sol.Length0 == sol.Length1 == n
    reads sol
  {
    exists q :: FirstCompletion(q, p, n) && Shows(sol, q, n)
  }

  /** When no earlier move leads to a completion, the first one through move k is the first of all. */
  lemma FirstOfPrefix(q: seq<Cell>, p: seq<Cell>, k: nat, n: nat)
    requires Tour(p, n) && |p| < n * n && k < 8 && AllFail(p, p[|p| - 1], k, n)
    requires FirstCompletion(q, p + [Target(p[|p| - 1], k)], n)
    ensures FirstCompletion(q, p, n)
  {
    hide Distinct, OnBoard, Target, KnightStep;
    var at, m := p[|p| - 1], |p|;
    var c := Target(at, k);
    assert p <= p + [c] <= q;
    forall t | CompleteTour(t, n) && p <= t ensures t == q || Sooner(q, t) {
      var l := NextCell(p, t, n);
      assert Completable(p + [t[m]], n);
      assert !Fails(p, Target(at, l), n);
      if l != k {
        assert q[..m] == p == t[..m];
        assert q[m] == (p + [c])[m] == c;
        assert PartAt(q, t, m);
      }
    }
  }

  lemma ShowsFirstOfPrefix(sol: array2<int>, p: seq<Cell>, k: nat, n: nat)
    requires sol.Length0 == sol.Length1 == n && Tour(p, n) && |p| < n * n && k < 8 && AllFail(p, p[|p| - 1], k, n)
    requires ShowsFirst(sol, p + [Target(p[|p| - 1], k)], n)
    ensures ShowsFirst(sol, p, n) && Completable(p, n)
  {
    var q :| FirstCompletion(q, p + [Target(p[|p| - 1], k)], n) && Shows(sol, q, n);
    FirstOfPrefix(q, p, k, n);
  }

  /**
   Called on a board that shows a partial tour ending in (x, y). The result is 1 exactly when that
   tour can be completed; then the board shows the first completion, and otherwise it is as it was.
   */
  method SolveKTUtil(n: nat, x: int, y: int, movei: nat, sol: array2<int>,
                     xMove: array<int>, yMove: array<int>, ghost p: seq<Cell>) returns (r: int)
    requires sol.Length0 == sol.Length1 == n && xMove[..] == X_MOVE && yMove[..] == Y_MOVE
    requires Tour(p, n) && movei == |p| && p[|p| - 1] == (x, y) && Shows(sol, p, n)
    modifies sol
    ensures r == 0 || r == 1
    ensures r == 1 <==> Completable(p, n)
    ensures r == 1 ==> ShowsFirst(sol, p, n)
    ensures r == 0 ==> Shows(sol, p, n)
    ensures r == 0 ==> forall i, j :: 0 <= i < n && 0 <= j < n ==> sol[i, j] == old(sol[i, j])
    decreases n * n - |p|
  {
    hide IndexOf, KnightStep, OnBoard, Distinct, FirstCompletion;
    TourLength(p, n);
    if movei == n * n {
      CompleteIsFirst(p, n);
      return 1;
    }
    var k := 0;
    while k < 8
      invariant 0 <= k <= 8
      invariant Shows(sol, p, n)
      invariant AllFail(p, (x, y), k, n)
    {
      ghost var c := Target((x, y), k);
      var nextX := x + xMove[k];
      var nextY := y + yMove[k];
      assert c == (nextX, nextY) by {
        assert xMove[..][k] == X_MOVE[k] && yMove[..][k] == Y_MOVE[k];
      }
      var safe := IsSafe(nextX, nextY, sol, n);
      assert safe <==> OnBoard(c, n) && c !in p by { SafeMeansUnvisited(nextX, nextY, sol, p, n); }
      if safe {
        assert Tour(p + [c], n) by {
          MoveTable((x, y), c);
          Extend(p, c, n);
        }
        sol[nextX, nextY] := movei;
        assert Shows(sol, p + [c], n) by { PlaceNext(p, c); }
        r := SolveKTUtil(n, nextX, nextY, movei + 1, sol, xMove, yMove, p + [c]);
        if r == 1 {
          ShowsFirstOfPrefix(sol, p, k, n);
          return 1;
        }
        sol[nextX, nextY] := -1;
        assert Shows(sol, p, n) by { PlaceNext(p, c); }
      }
      k := k + 1;
    }
    NoMoveLeft(p, n);
    return 0;
  }

  lemma CompleteIsFirst(p: seq<Cell>, n: nat)
    requires CompleteTour(p, n)
    ensures FirstCompletion(p, p, n) && Completable(p, n)
  {
    assert p <= p;
  }

  /** Moving on to c does not lead to a complete tour. */
  ghost predicate Fails(p: seq<Cell>, c: Cell, n: nat) {
    OnBoard(c, n) && c !in p ==> !Completable(p + [c], n)
  }

  ghost predicate AllFail(p: seq<Cell>, at: Cell, k: nat, n: nat)
    requires k <= 8
  {
    forall j :: 0 <= j < k ==> Fails(p, Target(at, j), n)
  }

  lemma NoMoveLeft(p: seq<Cell>, n: nat)
    requires Tour(p, n) && |p| < n * n
    requires AllFail(p, p[|p| - 1], 8, n)
    ensures !Completable(p, n)
  {
    if Completable(p, n) {
      var q :| CompleteTour(q, n) && p <= q;
      var k := NextCell(p, q, n);
    }
  }

  /** 1 exactly when the knight can tour the whole n by n board from the corner (0, 0). */
  method SolveKT(n: nat) returns (r: int)
    requires n >= 1
    ensures r == 0 || r == 1
    ensures r == 1 <==> exists q :: CompleteTour(q, n) && q[0] == (0, 0)
  {
    var sol := new int[n, n];
    for x := 0 to n
      invariant forall i, j :: 0 <= i < x && 0 <= j < n ==> sol[i, j] == -1
    {
      for y := 0 to n
        invariant forall i, j :: 0 <= i < x && 0 <= j < n ==> sol[i, j] == -1
        invariant forall j :: 0 <= j < y ==> sol[x, j] == -1
      {
        sol[x, y] := -1;
      }
    }
    var xMove := new int[8] [2, 1, -1, -2, -2, -1, 1, 2];
    var yMove := new int[8] [1, 2, 2, 1, -1, -2, -2, -1];
    sol[0, 0] := 0;
    ghost var p: seq<Cell> := [(0, 0)];
    var found := SolveKTUtil(n, 0, 0, 1, sol, xMove, yMove, p);
    assert forall q: seq<Cell> :: q != [] && q[0] == (0, 0) <==> p <= q;
    return if found == 0 then 0 else 1;
  }

  /** On success the board numbers 0 .. n*n-1 exactly once each: no cell is left at -1. */
  lemma CompleteTourFillsTheBoard(sol: array2<int>, q: seq<Cell>, n: nat)
    requires sol.Length0 == sol.Length1 == n && CompleteTour(q, n) && Shows(sol, q, n)
    ensures forall x, y :: 0 <= x < n && 0 <= y < n ==> 0 <= sol[x, y] < n * n
    ensures forall x, y, u, v :: 0 <= x < n && 0 <= y < n && 0 <= u < n && 0 <= v < n ==>
      (sol[x, y] == sol[u, v] ==> (x, y) == (u, v))
    ensures forall i :: 0 <= i < n * n ==> sol[q[i].0, q[i].1] == i
  {
    TourLength(q, n);
    forall x, y | 0 <= x < n && 0 <= y < n ensures 0 <= sol[x, y] < n * n && q[sol[x, y]] == (x, y) {
      assert OnBoard((x, y), n);
    }
    forall i | 0 <= i < n * n ensures sol[q[i].0, q[i].1] == i {
      assert OnBoard(q[i], n);
      assert (q[i].0, q[i].1) == q[i];
    }
  }

  /** The board of the program, N = 3, has no tour: its centre cannot be entered or left. */
  lemma NoTourOnThree(q: seq<Cell>)
    ensures !CompleteTour(q, 3)
  {
    if CompleteTour(q, 3) {
      TourLength(q, 3);
      assert OnBoard((1, 1), 3);
      var i :| 0 <= i < |q| && q[i] == (1, 1);
      CentreIsIsolated(q[if i + 1 < |q| then i + 1 else i - 1]);
    }
  }

  lemma CentreIsIsolated(c: Cell)
    requires OnBoard(c, 3)
    ensures !KnightStep((1, 1), c) && !KnightStep(c, (1, 1))
  {
  }

  method SolveKTSource() returns (r: int)
    ensures r == 0
  {
    r := SolveKT(3);
    if r == 1 {
      ghost var q :| CompleteTour(q, 3) && q[0] == (0, 0);
      NoTourOnThree(q);
    }
  }
}
