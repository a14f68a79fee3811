/**
 test_progs/matrix_mult_rec.c: recursive matrix product whose position is kept in static
 counters, so that every frame goes on executing after its recursive call has returned.
 */
module MatrixMultRec {
  import opened ModularArithmetic

  ghost predicate Fits(row1: nat, col1: nat, a: array2<int>, col2: nat, b: array2<int>) {
    row1 <= a.Length0 && col1 <= a.Length1 && col1 <= b.Length0 && col2 <= b.Length1
  }

  /** a[r][k] * b[k][s] summed over from <= k < end. */
  ghost function Dot(a: array2<int>, b: array2<int>, r: nat, s: nat, from: nat, end: nat): int
    requires from <= end && r < a.Length0 && end <= a.Length1 && end <= b.Length0 && s < b.Length1
    reads a, b
    decreases end - from
  {
    if from == end then 0 else a[r, from] * b[from, s] + Dot(a, b, r, s, from + 1, end)
  }

  /** What is still to be added to cell (r, s) when the counters stand at (i, j, k). */
  ghost function Pending(row1: nat, col1: nat, a: array2<int>, col2: nat, b: array2<int>,
                         i: nat, j: nat, k: nat, r: nat, s: nat): int
    requires Fits(row1, col1, a, col2, b) && k <= col1
    reads a, b
  {
    if r >= row1 || s >= col2 || r < i || (r == i && s < j) then 0
    else Dot(a, b, r, s, if r == i && s == j then k else 0, col1)
  }

  /** How many frames will still get past the first test when the counters stand at (i, j, k). */
  ghost function Frames(row1: nat, col1: nat, col2: nat, i: nat, j: nat, k: nat): int {
    if i >= row1 then 0
    else (row1 - i) * (col2 * (col1 + 1) + 1) - j * (col1 + 1) - k
  }

  /** Inside the matrices, with k back at 0 when a row is finished. */
  ghost predicate InRange(col1: nat, col2: nat, j: nat, k: nat) {
    j <= col2 && k <= col1 && (j == col2 ==> k == 0)
  }

  /** The position after one frame has done its own work. */
  ghost function NextPosition(col1: nat, col2: nat, i: nat, j: nat, k: nat): (nat, nat, nat) {
    if j < col2 then if k < col1 then (i, j, k + 1) else (i, j + 1, 0)
    else (i + 1, 0, 0)
  }

  lemma FrameCount(row1: nat, col1: nat, col2: nat, i: nat, j: nat, k: nat)
    requires i < row1 && InRange(col1, col2, j, k)
    ensures var p := NextPosition(col1, col2, i, j, k);
      Frames(row1, col1, col2, i, j, k) == 1 + Frames(row1, col1, col2, p.0, p.1, p.2)
    ensures Frames(row1, col1, col2, i, j, k) > 0
  {
    var w := col1 + 1;
    OneMore(row1 - i, col2 * w + 1);
    if j < col2 {
      OneMore(j + 1, w);
      MulMonotone(j + 1, col2, w);
    }
  }

  lemma OneMore(m: int, n: nat)
    requires m > 0
    ensures m * n == n + (m - 1) * n && (m - 1) * n >= 0
  {
  }

  lemma PendingStep(row1: nat, col1: nat, a: array2<int>, col2: nat, b: array2<int>,
                    i: nat, j: nat, k: nat, r: nat, s: nat)
    requires Fits(row1, col1, a, col2, b) && i < row1 && InRange(col1, col2, j, k)
    ensures var p := NextPosition(col1, col2, i, j, k);
      Pending(row1, col1, a, col2, b, i, j, k, r, s) == Pending(row1, col1, a, col2, b, p.0, p.1, p.2, r, s)
        + if r == i && s == j && j < col2 && k < col1 then a[i, k] * b[k, j] else 0
  {
  }

  class Product {
    var i: nat
    var j: nat
    var k: nat

    /** The static counters at program start. */
    constructor ()
      ensures i == j == k == 0
    {
      i, j, k := 0, 0, 0;
    }

    /**
     Called with the counters inside the matrices, the product terms from there on are each added
     once, and every entered frame, unwinding, moves i one further; called with i past the last
     row, nothing happens.
     */
    method MultiplyMatrixRec(row1: nat, col1: nat, a: array2<int>, row2: nat, col2: nat, b: array2<int>, c: array2<int>)
      requires Fits(row1, col1, a, col2, b) && row1 <= c.Length0 && col2 <= c.Length1 && c != a && c != b
      requires InRange(col1, col2, j, k)
      modifies this, c
      ensures old(i) >= row1 ==> i == old(i) && j == old(j) && k == old(k)
      ensures old(i) < row1 ==> j == 0 && k == 0
      ensures i >= row1 && i == old(i) + Frames(row1, col1, col2, old(i), old(j), old(k))
      ensures forall r: nat, s: nat :: r < c.Length0 && s < c.Length1 ==>
        c[r, s] == old(c[r, s]) + Pending(row1, col1, a, col2, b, old(i), old(j), old(k), r, s)
      decreases Frames(row1, col1, col2, i, j, k)
    {
      hide Dot;
      if i >= row1 {
        return;
      }
      FrameCount(row1, col1, col2, i, j, k);
      forall r: nat, s: nat { PendingStep(row1, col1, a, col2, b, i, j, k, r, s); }
      if j < col2 {
        if k < col1 {
          c[i, j] := c[i, j] + a[i, k] * b[k, j];
          k := k + 1;
          MultiplyMatrixRec(row1, col1, a, row2, col2, b, c);
        }
        k := 0;
        j := j + 1;
        MultiplyMatrixRec(row1, col1, a, row2, col2, b, c);
      }
      j := 0;
      i := i + 1;
      MultiplyMatrixRec(row1, col1, a, row2, col2, b, c);
    }
  }

  /** From (0, 0, 0) there are row1 * (col2 * (col1 + 1) + 1) frames, and every cell of the product is pending. */
  lemma FromTheStart(row1: nat, col1: nat, a: array2<int>, col2: nat, b: array2<int>, r: nat, s: nat)
    requires Fits(row1, col1, a, col2, b)
    ensures Frames(row1, col1, col2, 0, 0, 0) == row1 * (col2 * (col1 + 1) + 1)
    ensures Pending(row1, col1, a, col2, b, 0, 0, 0, r, s) ==
      if r < row1 && s < col2 then Dot(a, b, r, s, 0, col1) else 0
  {
    if row1 == 0 {
      assert row1 * (col2 * (col1 + 1) + 1) == 0;
    }
  }

  /** Starting a row's first cell at i: everything in the rows from i on is pending, nothing before. */
  lemma FromRow(row1: nat, col1: nat, a: array2<int>, col2: nat, b: array2<int>, i: nat, r: nat, s: nat)
    requires Fits(row1, col1, a, col2, b)
    ensures Pending(row1, col1, a, col2, b, i, 0, 0, r, s) ==
      if i <= r < row1 && s < col2 then Dot(a, b, r, s, 0, col1) else 0
  {
  }

  /** c holds a * b, in its first row1 rows and col2 columns. */
  ghost predicate IsProduct(row1: nat, col1: nat, a: array2<int>, col2: nat, b: array2<int>, c: array2<int>)
    requires Fits(row1, col1, a, col2, b) && row1 <= c.Length0 && col2 <= c.Length1
    reads a, b, c
  {
    forall r: nat, s: nat :: r < row1 && s < col2 ==> c[r, s] == Dot(a, b, r, s, 0, col1)
  }

  /** a * b is zero in the rows before i. */
  ghost predicate ZeroBefore(row1: nat, col1: nat, a: array2<int>, col2: nat, b: array2<int>, i: nat)
    requires Fits(row1, col1, a, col2, b)
    reads a, b
  {
    forall r: nat, s: nat :: r < i && r < row1 && s < col2 ==> Dot(a, b, r, s, 0, col1) == 0
  }

  lemma WholeProductIff(row1: nat, col1: nat, a: array2<int>, col2: nat, b: array2<int>, c: array2<int>, i: nat)
    requires Fits(row1, col1, a, col2, b) && row1 <= c.Length0 && col2 <= c.Length1
    requires forall r: nat, s: nat :: r < row1 && s < col2 ==>
      c[r, s] == if i <= r then Dot(a, b, r, s, 0, col1) else 0
    ensures IsProduct(row1, col1, a, col2, b, c) <==> ZeroBefore(row1, col1, a, col2, b, i)
  {
    hide Dot;
    if IsProduct(row1, col1, a, col2, b, c) {
      forall r: nat, s: nat | r < i && r < row1 && s < col2 ensures Dot(a, b, r, s, 0, col1) == 0 {
        assert c[r, s] == 0;
      }
    }
  }

  /**
   multiplyMatrix, with the statics as earlier products left them. The result is a * b in the rows
   from the static i on, and zero in the rows before it. So it is the whole product exactly when a * b
   is zero in those rows, and nothing at all once i has reached row1, where every completed product
   leaves it.
   */
  method MultiplyMatrix(statics: Product, row1: nat, col1: nat, a: array2<int>, row2: nat, col2: nat, b: array2<int>)
    returns (done: bool, c: array2<int>)
    requires (row2 == col1 ==> Fits(row1, col1, a, col2, b)) && row1 <= 100 && col2 <= 100
    requires statics.j == 0 && statics.k == 0
    modifies statics
    ensures done <==> row2 == col1
    ensures statics.j == 0 && statics.k == 0
    ensures !done ==> statics.i == old(statics.i)
    ensures done ==> statics.i == old(statics.i) + Frames(row1, col1, col2, old(statics.i), 0, 0) && statics.i >= row1
    ensures fresh(c) && c.Length0 == c.Length1 == 100
    ensures done ==> forall r: nat, s: nat :: r < 100 && s < 100 ==>
      c[r, s] == if old(statics.i) <= r < row1 && s < col2 then Dot(a, b, r, s, 0, col1) else 0
    ensures done ==> (IsProduct(row1, col1, a, col2, b, c) <==> ZeroBefore(row1, col1, a, col2, b, old(statics.i)))
  {
    c := new int[100, 100]((_, _) => 0);
    if row2 != col1 {
      return false, c;
    }
    ghost var i := statics.i;
    statics.MultiplyMatrixRec(row1, col1, a, row2, col2, b, c);
    forall r: nat, s: nat { FromRow(row1, col1, a, col2, b, i, r, s); }
    WholeProductIff(row1, col1, a, col2, b, c, i);
    return true, c;
  }

  /** main's 3 by 3 product, done twice in one run: the second comes out as zeros. */
  method ProductTwice(a: array2<int>, b: array2<int>) returns (first: array2<int>, second: array2<int>)
    requires Fits(3, 3, a, 3, b)
    ensures fresh(first) && fresh(second) && first.Length0 == first.Length1 == second.Length0 == second.Length1 == 100
    ensures forall r: nat, s: nat :: r < 3 && s < 3 ==> first[r, s] == Dot(a, b, r, s, 0, 3)
    ensures forall r: nat, s: nat :: r < 100 && s < 100 ==> second[r, s] == 0
  {
    hide Dot;
    var statics := new Product();
    var done;
    done, first := MultiplyMatrix(statics, 3, 3, a, 3, 3, b);
    assert statics.i == 39;
    done, second := MultiplyMatrix(statics, 3, 3, a, 3, 3, b);
  }

  /** The first product of a program run: c gains a * b, and the static i is left far past the last row. */
  method FirstProduct(row1: nat, col1: nat, a: array2<int>, row2: nat, col2: nat, b: array2<int>, c: array2<int>)
    returns (statics: Product)
    requires Fits(row1, col1, a, col2, b) && row1 <= c.Length0 && col2 <= c.Length1 && c != a && c != b
    modifies c
    ensures fresh(statics) && statics.i == row1 * (col2 * (col1 + 1) + 1)
    ensures forall r: nat, s: nat :: r < c.Length0 && s < c.Length1 ==>
      c[r, s] == old(c[r, s]) + if r < row1 && s < col2 then Dot(a, b, r, s, 0, col1) else 0
  {
    statics := new Product();
    statics.MultiplyMatrixRec(row1, col1, a, row2, col2, b, c);
    forall r: nat, s: nat { FromTheStart(row1, col1, a, col2, b, r, s); }
  }
}
