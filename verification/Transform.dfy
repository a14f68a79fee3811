/**
 The mathematics behind test_progs/dft.c: the transform as a naive sum, the even/odd
 split, orthogonality of the powers of a root, inversion and the convolution theorem.
 Everything is stated for any modulus and any power-of-two length.
 */
module Transform {
  import opened ModularArithmetic

  /** The transform by definition: sum over i of a[i] * root^(i*j). */
  function DftSum(a: seq<int>, root: int, j: nat): int {
    if a == [] then 0
    else
      var last := |a| - 1;
      DftSum(a[..last], root, j) + a[last] * Pow(root, last * j)
  }

  /** Polynomial evaluation by Horner's rule. */
  function Eval(a: seq<int>, z: int): int {
    if a == [] then 0 else a[0] + z * Eval(a[1..], z)
  }

  /** Cyclic convolution by definition: sum over i < count of a[i] * b[(l - i) mod |b|]. */
  function ConvolutionSum(a: seq<int>, b: seq<int>, l: int, count: nat): int
    requires count <= |a| && |b| > 0
  {
    if count == 0 then 0
    else ConvolutionSum(a, b, l, count - 1) + a[count - 1] * b[(l - (count - 1)) % |b|]
  }

  predicate PowerOfTwo(n: nat) {
    n == 1 || (n > 1 && n % 2 == 0 && PowerOfTwo(n / 2))
  }

  /** The only property of the root that the transform needs. */
  ghost predicate PrincipalRoot(root: int, len: nat, m: int)
    requires m > 0
  {
    if len <= 1 then root == 1 else Cong(Pow(root, len / 2), -1, m)
  }

  /** The transform of a, reduced into [0, m). */
  ghost predicate IsTransform(out: seq<int>, a: seq<int>, root: int, m: int)
    requires m > 0
  {
    |out| == |a| && forall j :: 0 <= j < |a| ==> out[j] == DftSum(a, root, j) % m
  }

  // ----- evaluation -----

  lemma Pull(z: int, e: int, c: int, p: int)
    ensures z * (e + c * p) == z * e + c * (z * p)
  {
    Distribute(e, c * p, z);
    Associate(z, c, p);
    Associate(c, z, p);
  }

  lemma {:induction false} EvalAppend(a: seq<int>, c: int, z: int)
    ensures Eval(a + [c], z) == Eval(a, z) + c * Pow(z, |a|)
  {
    if a == [] {
      assert Eval([c][1..], z) == 0;
    } else {
      assert (a + [c])[1..] == a[1..] + [c];
      EvalAppend(a[1..], c, z);
      var p := Pow(z, |a| - 1);
      Pull(z, Eval(a[1..], z), c, p);
    }
  }

  lemma {:induction false} DftSumIsEval(a: seq<int>, root: int, j: nat)
    ensures DftSum(a, root, j) == Eval(a, Pow(root, j))
  {
    if a != [] {
      var last := |a| - 1;
      DftSumIsEval(a[..last], root, j);
      EvalAppend(a[..last], a[last], Pow(root, j));
      assert a[..last] + [a[last]] == a;
      PowPow(root, j, last);
      assert j * last == last * j;
    }
  }

  lemma {:induction false} EvalCong(a: seq<int>, b: seq<int>, y: int, z: int, m: int)
    requires m > 0 && |a| == |b| && Cong(y, z, m)
    requires forall i :: 0 <= i < |a| ==> Cong(a[i], b[i], m)
    ensures Cong(Eval(a, y), Eval(b, z), m)
  {
    if a != [] {
      EvalCong(a[1..], b[1..], y, z, m);
      CongMul(y, z, Eval(a[1..], y), Eval(b[1..], z), m);
      assert Cong(a[0], b[0], m);
      CongAdd(a[0], b[0], y * Eval(a[1..], y), z * Eval(b[1..], z), m);
    }
  }

  // ----- the even/odd split -----

  function Evens(a: seq<int>): (r: seq<int>)
    requires |a| % 2 == 0
  {
    seq(|a| / 2, i requires 0 <= i < |a| / 2 => a[2 * i])
  }

  function Odds(a: seq<int>): (r: seq<int>)
    requires |a| % 2 == 0
  {
    seq(|a| / 2, i requires 0 <= i < |a| / 2 => a[2 * i + 1])
  }

  lemma {:induction false} EvalSplit(a: seq<int>, z: int)
    requires |a| % 2 == 0
    ensures Eval(a, z) == Eval(Evens(a), z * z) + z * Eval(Odds(a), z * z)
  {
    if a != [] {
      var b := a[2..];
      EvalSplit(b, z);
      assert Evens(a)[1..] == Evens(b);
      assert Odds(a)[1..] == Odds(b);
      assert a[1..][1..] == b;
      var e, o := Eval(Evens(b), z * z), Eval(Odds(b), z * z);
      assert Eval(a, z) == a[0] + z * (a[1] + z * (e + z * o));
      SplitTerms(a[0], a[1], e, o, z);
    }
  }

  lemma SplitTerms(a0: int, a1: int, e: int, o: int, z: int)
    ensures a0 + z * (a1 + z * (e + z * o)) == (a0 + (z * z) * e) + z * (a1 + (z * z) * o)
  {
    Distribute(e, z * o, z);
    Distribute(a1, z * (e + z * o), z);
    Distribute(z * e, z * (z * o), z);
    Distribute(a1, (z * z) * o, z);
    Associate(z, z, e);
    Associate(z, z, o);
  }

  /** The butterfly: outputs j and j + h from the transforms of the two halves. */
  lemma Butterfly(a: seq<int>, h: nat, root: int, r2: int, base: int, j: nat, m: int)
    requires m > 0 && |a| == 2 * h && h > 0
    requires Cong(Pow(root, h), -1, m) && Cong(r2, root * root, m) && Cong(base, Pow(root, j), m)
    ensures Cong(DftSum(a, root, j), DftSum(Evens(a), r2, j) + base * DftSum(Odds(a), r2, j), m)
    ensures Cong(DftSum(a, root, j + h), DftSum(Evens(a), r2, j) - base * DftSum(Odds(a), r2, j), m)
  {
    SquareOfPower(root, r2, j, m);
    OppositePower(root, h, base, j, m);
    HalfTransforms(a, root, r2, Pow(root, j), base, j, j, m);
    HalfTransforms(a, root, r2, Pow(root, j + h), -base, j, j + h, m);
    Negate(base, DftSum(Odds(a), r2, j));
  }

  lemma Negate(a: int, b: int)
    ensures (-a) * b == -(a * b)
  {
  }

  /** Half a turn later the power of the root has the opposite sign and the same square. */
  lemma OppositePower(root: int, h: nat, base: int, j: nat, m: int)
    requires m > 0 && Cong(Pow(root, h), -1, m) && Cong(base, Pow(root, j), m)
    ensures Cong(Pow(root, j + h), -base, m)
    ensures Cong(Pow(root, j + h) * Pow(root, j + h), Pow(root, j) * Pow(root, j), m)
  {
    var z, y := Pow(root, j), Pow(root, j + h);
    PowAdd(root, j, h);
    CongMul(z, base, Pow(root, h), -1, m);
    SquareCong(y, -base, m);
    SquareCong(base, z, m);
    assert (-base) * (-base) == base * base;
  }

  lemma SquareCong(a: int, b: int, m: int)
    requires m > 0 && Cong(a, b, m)
    ensures Cong(a * a, b * b, m)
  {
    CongMul(a, b, a, b, m);
  }

  lemma SquareOfPower(root: int, r2: int, j: nat, m: int)
    requires m > 0 && Cong(r2, root * root, m)
    ensures Cong(Pow(root, j) * Pow(root, j), Pow(r2, j), m)
  {
    PowOfProduct(root, root, j);
    PowCong(r2, root * root, j, m);
  }

  lemma HalfTransforms(a: seq<int>, root: int, r2: int, z: int, base: int, j: nat, i: nat, m: int)
    requires m > 0 && |a| % 2 == 0 && z == Pow(root, i)
    requires Cong(z, base, m) && Cong(z * z, Pow(r2, j), m)
    ensures Cong(DftSum(a, root, i), DftSum(Evens(a), r2, j) + base * DftSum(Odds(a), r2, j), m)
  {
    hide DftSum, Eval, Evens, Odds, Pow;
    DftSumIsEval(a, root, i);
    DftSumIsEval(Evens(a), r2, j);
    DftSumIsEval(Odds(a), r2, j);
    EvalSplit(a, z);
    EvalCong(Evens(a), Evens(a), z * z, Pow(r2, j), m);
    EvalCong(Odds(a), Odds(a), z * z, Pow(r2, j), m);
    var e, o := Eval(Evens(a), z * z), Eval(Odds(a), z * z);
    var e', o' := Eval(Evens(a), Pow(r2, j)), Eval(Odds(a), Pow(r2, j));
    CongMul(z, base, o, o', m);
    CongAdd(e, e', z * o, base * o', m);
  }

  /** The stop `root == 1` cannot fire before the length is 1. */
  lemma RootIsNotOne(root: int, len: nat, m: int)
    requires m > 2 && len > 1 && PrincipalRoot(root, len, m)
    ensures root != 1
  {
    PowOne(len / 2);
    OneIsNotMinusOne(m);
  }

  /** dft stops exactly at length 1. */
  lemma StopsExactlyAtOne(root: int, len: nat, m: int)
    requires m > 2 && len >= 1 && PrincipalRoot(root, len, m)
    ensures root == 1 <==> len == 1
  {
    if len > 1 { RootIsNotOne(root, len, m); }
  }

  /** The reduced square of a principal root of length len is one of length len/2. */
  lemma RootOfHalf(root: int, len: nat, m: int)
    requires m > 2 && len > 1 && PowerOfTwo(len) && PrincipalRoot(root, len, m)
    ensures PrincipalRoot((root * root) % m, len / 2, m)
  {
    var h := len / 2;
    if h == 1 {
      assert Pow(root, 1) == root * Pow(root, 0) == root;
      CongMul(root, -1, root, -1, m);
      RemainderIsUnique(1, 0, 1, m);
    } else {
      CongMod(root * root, m);
      PowCong((root * root) % m, root * root, h / 2, m);
      SquareIsPrincipal(root, h, m);
    }
  }

  lemma OneIsNotMinusOne(m: int)
    requires m > 2
    ensures !Cong(1, -1, m)
  {
    RemainderIsUnique(1, 0, 1, m);
    RemainderIsUnique(-1, -1, m - 1, m);
  }

  // ----- orthogonality and inversion -----

  /** 1 + z + ... + z^(len-1), as the evaluation of the all-ones vector. */
  function Ones(len: nat): seq<int> { seq(len, _ => 1) }

  lemma GeometricDouble(z: int, len: nat)
    ensures Eval(Ones(2 * len), z) == Eval(Ones(len), z) * (1 + Pow(z, len))
  {
    EvalConcat(Ones(len), Ones(len), z);
    assert Ones(len) + Ones(len) == Ones(2 * len);
    var g, p := Eval(Ones(len), z), Pow(z, len);
    assert g * (1 + p) == g + p * g;
  }

  lemma {:induction false} EvalConcat(a: seq<int>, b: seq<int>, z: int)
    ensures Eval(a + b, z) == Eval(a, z) + Pow(z, |a|) * Eval(b, z)
  {
    if a == [] {
      assert a + b == b;
    } else {
      assert (a + b)[1..] == a[1..] + b;
      EvalConcat(a[1..], b, z);
      var p := Pow(z, |a| - 1);
      Associate(z, p, Eval(b, z));
      assert z * (Eval(a[1..], z) + p * Eval(b, z)) == z * Eval(a[1..], z) + z * (p * Eval(b, z));
    }
  }

  /**
   Orthogonality: the powers of w^d sum to zero unless d is a multiple of len.
   Odd d kills the factor 1 + (w^d)^(len/2); even d is the same statement for w*w.
   */
  lemma {:induction false} Orthogonality(w: int, d: nat, len: nat, m: int)
    requires m > 0 && PowerOfTwo(len) && PrincipalRoot(w, len, m) && 0 < d < len
    ensures Cong(Eval(Ones(len), Pow(w, d)), 0, m)
    decreases len
  {
    var h := len / 2;
    var z := Pow(w, d);
    GeometricDouble(z, h);
    var g := Eval(Ones(h), z);
    if d % 2 == 1 {
      PowPow(w, d, h);
      PowPow(w, h, d);
      assert d * h == h * d;
      PowCong(Pow(w, h), -1, d, m);
      PowMinusOne(d);
      CongAdd(1, 1, Pow(z, h), -1, m);
      CongMul(g, g, 1 + Pow(z, h), 0, m);
    } else {
      var e := d / 2;
      PowAdd(w, 1, 1);
      assert Pow(w, 1) == w * Pow(w, 0);
      PowPow(w, 2, e);
      assert z == Pow(w * w, e);
      SquareIsPrincipal(w, h, m);
      Orthogonality(w * w, e, h, m);
      CongMul(g, 0, 1 + Pow(z, h), 1 + Pow(z, h), m);
    }
  }

  lemma SquareIsPrincipal(w: int, h: nat, m: int)
    requires m > 0 && h > 1 && h % 2 == 0 && Cong(Pow(w, h), -1, m)
    ensures PrincipalRoot(w * w, h, m)
  {
    PowOfProduct(w, w, h / 2);
    PowAdd(w, h / 2, h / 2);
  }

  /** The inverse of a principal root is a principal root. */
  lemma InverseIsPrincipal(w: int, wr: int, len: nat, m: int)
    requires m > 0 && len > 1 && PrincipalRoot(w, len, m) && Cong(w * wr, 1, m)
    ensures PrincipalRoot(wr, len, m)
  {
    var h := len / 2;
    PowOfProduct(w, wr, h);
    PowCong(w * wr, 1, h, m);
    PowOne(h);
    var p, q := Pow(w, h), Pow(wr, h);
    CongMul(p, -1, q, q, m);
    CongMul(-1, -1, p * q, -q, m);
    CongMul(-1, -1, p * q, 1, m);
  }

  lemma CancelPowers(w: int, wr: int, p: nat, l: nat, m: int)
    requires m > 0 && Cong(w * wr, 1, m)
    ensures p >= l ==> Cong(Pow(w, p) * Pow(wr, l), Pow(w, p - l), m)
    ensures p < l ==> Cong(Pow(w, p) * Pow(wr, l), Pow(wr, l - p), m)
  {
    var c := if p >= l then l else p;
    PowOfProduct(w, wr, c);
    PowCong(w * wr, 1, c, m);
    PowOne(c);
    var u := Pow(w, c) * Pow(wr, c);
    PowAdd(w, p - c, c);
    PowAdd(wr, c, l - c);
    var x, y := Pow(w, p - c), Pow(wr, l - c);
    calc {
      Pow(w, p) * Pow(wr, l);
      (x * Pow(w, c)) * (Pow(wr, c) * y);
      { Associate(x, Pow(w, c), Pow(wr, c) * y); Associate(Pow(w, c), Pow(wr, c), y); }
      x * (u * y);
    }
    CongMul(u, 1, y, y, m);
    CongMul(x, x, u * y, y, m);
  }

  /** Orthogonality of row p of the transform and row l of the inverse transform. */
  lemma RowsAreOrthogonal(w: int, wr: int, p: nat, l: nat, len: nat, m: int)
    requires m > 0 && PowerOfTwo(len) && PrincipalRoot(w, len, m) && Cong(w * wr, 1, m) && p < len && l < len
    ensures Cong(Eval(Ones(len), Pow(w, p) * Pow(wr, l)), if p == l then len else 0, m)
  {
    CancelPowers(w, wr, p, l, m);
    var z := Pow(w, p) * Pow(wr, l);
    var y := if p >= l then Pow(w, p - l) else Pow(wr, l - p);
    EvalCong(Ones(len), Ones(len), z, y, m);
    if p > l {
      Orthogonality(w, p - l, len, m);
    } else if p < l {
      InverseIsPrincipal(w, wr, len, m);
      Orthogonality(wr, l - p, len, m);
    } else {
      OnesAtOne(len);
    }
  }

  lemma {:induction false} OnesAtOne(len: nat)
    ensures Eval(Ones(len), 1) == len
  {
    if len > 0 {
      assert Ones(len)[1..] == Ones(len - 1);
      OnesAtOne(len - 1);
    }
  }

  // ----- inversion -----

  lemma {:induction false} EvalLinear(u: seq<int>, v: seq<int>, c: int, sum: seq<int>, z: int)
    requires |u| == |v| == |sum|
    requires forall i :: 0 <= i < |u| ==> sum[i] == u[i] + c * v[i]
    ensures Eval(sum, z) == Eval(u, z) + c * Eval(v, z)
  {
    if u != [] {
      EvalLinear(u[1..], v[1..], c, sum[1..], z);
      var e, f := Eval(u[1..], z), Eval(v[1..], z);
      Pull(z, e, c, f);
      Distribute(v[0], z * f, c);
    }
  }

  /** The powers 1, x, x*x, ... */
  function Powers(x: int, len: nat): seq<int> { seq(len, j requires 0 <= j < len => Pow(x, j)) }

  lemma {:induction false} EvalPowers(x: int, y: int, len: nat)
    ensures Eval(Powers(x, len), y) == Eval(Ones(len), x * y)
  {
    if len > 0 {
      EvalPowers(x, y, len - 1);
      assert Powers(x, len) == Powers(x, len - 1) + [Pow(x, len - 1)];
      assert Ones(len) == Ones(len - 1) + [1];
      EvalAppend(Powers(x, len - 1), Pow(x, len - 1), y);
      EvalAppend(Ones(len - 1), 1, x * y);
      PowOfProduct(x, y, len - 1);
    }
  }

  function Image(a: seq<int>, w: int, len: nat): seq<int> {
    seq(len, j requires 0 <= j < len => DftSum(a, w, j))
  }

  /** Transforming back the image of the first p entries recovers exactly those, len-fold. */
  lemma {:induction false} InvertPrefix(a: seq<int>, p: nat, w: int, wr: int, l: nat, m: int)
    requires m > 0 && PowerOfTwo(|a|) && PrincipalRoot(w, |a|, m) && Cong(w * wr, 1, m)
    requires p <= |a| && l < |a|
    ensures Cong(Eval(Image(a[..p], w, |a|), Pow(wr, l)), if l < p then |a| * a[l] else 0, m)
  {
    var n := |a|;
    var y := Pow(wr, l);
    if p == 0 {
      ImageOfEmpty(w, n, y);
    } else {
      var q := p - 1;
      InvertPrefix(a, q, w, wr, l, m);
      ImageAddsRow(a, q, w, y);
      RowsAreOrthogonal(w, wr, q, l, n, m);
      var g := if q == l then n else 0;
      var before := Eval(Image(a[..q], w, n), y);
      CongMul(a[q], a[q], Eval(Ones(n), Pow(w, q) * y), g, m);
      CongAdd(before, if l < q then n * a[l] else 0, a[q] * Eval(Ones(n), Pow(w, q) * y), a[q] * g, m);
      assert q == l ==> a[q] * g == n * a[l];
    }
  }

  /** One more input entry adds that multiple of a row of powers to the image. */
  lemma ImageAddsRow(a: seq<int>, q: nat, w: int, y: int)
    requires q < |a|
    ensures Eval(Image(a[..q + 1], w, |a|), y)
         == Eval(Image(a[..q], w, |a|), y) + a[q] * Eval(Ones(|a|), Pow(w, q) * y)
  {
    var n := |a|;
    var row := Powers(Pow(w, q), n);
    assert a[..q + 1][..q] == a[..q];
    forall j | 0 <= j < n ensures Image(a[..q + 1], w, n)[j] == Image(a[..q], w, n)[j] + a[q] * row[j] {
      PowPow(w, q, j);
    }
    EvalLinear(Image(a[..q], w, n), row, a[q], Image(a[..q + 1], w, n), y);
    EvalPowers(Pow(w, q), y, n);
  }

  lemma {:induction false} ImageOfEmpty(w: int, n: nat, y: int)
    ensures Eval(Image([], w, n), y) == 0
  {
    if n > 0 {
      assert Image([], w, n) == Image([], w, n - 1) + [0];
      EvalAppend(Image([], w, n - 1), 0, y);
      ImageOfEmpty(w, n - 1, y);
    }
  }

  /** Transform, transform with the inverse root, scale by the inverse length: the vector is restored. */
  lemma Inversion(a: seq<int>, image: seq<int>, w: int, wr: int, nr: int, l: nat, m: int)
    requires m > 0 && PowerOfTwo(|a|) && PrincipalRoot(w, |a|, m)
    requires Cong(w * wr, 1, m) && Cong(|a| * nr, 1, m)
    requires |image| == |a| && forall j :: 0 <= j < |a| ==> Cong(image[j], DftSum(a, w, j), m)
    requires l < |a|
    ensures Cong(DftSum(image, wr, l) * nr, a[l], m)
  {
    var n := |a|;
    var y := Pow(wr, l);
    DftSumIsEval(image, wr, l);
    EvalCong(image, Image(a, w, n), y, y, m);
    assert a[..n] == a;
    InvertPrefix(a, n, w, wr, l, m);
    CongMul(Eval(image, y), n * a[l], nr, nr, m);
    Associate(a[l], n, nr);
    CongMul(a[l], a[l], n * nr, 1, m);
    assert n * a[l] == a[l] * n;
  }

  // ----- convolution -----

  function Shift(b: seq<int>, i: nat): seq<int>
    requires |b| > 0
  {
    seq(|b|, l requires 0 <= l < |b| => b[(l - i) % |b|])
  }

  function Convolution(a: seq<int>, b: seq<int>, count: nat): seq<int>
    requires count <= |a| == |b| && |b| > 0
  {
    seq(|b|, l requires 0 <= l < |b| => ConvolutionSum(a, b, l, count))
  }

  lemma ShiftByOne(b: seq<int>, i: nat)
    requires |b| > 0
    ensures Shift(b, i + 1) == [Shift(b, i)[|b| - 1]] + Shift(b, i)[..|b| - 1]
  {
    var n := |b|;
    CongIntro(n - 1 - i, -1 - i, 1, n);
    forall l | 0 <= l < n - 1 ensures Shift(b, i + 1)[l + 1] == Shift(b, i)[l] {
      assert (l + 1) - (i + 1) == l - i;
    }
  }

  /** When z^n = 1, rotating the coefficients multiplies the value by z. */
  lemma {:induction false} EvalShift(b: seq<int>, i: nat, z: int, m: int)
    requires m > 0 && |b| > 0 && Cong(Pow(z, |b|), 1, m)
    ensures Cong(Eval(Shift(b, i), z), Pow(z, i) * Eval(b, z), m)
  {
    if i == 0 {
      forall l | 0 <= l < |b| ensures Shift(b, 0)[l] == b[l] {
        RemainderIsUnique(l, 0, l, |b|);
      }
      assert Shift(b, 0) == b;
    } else {
      EvalShift(b, i - 1, z, m);
      ShiftByOne(b, i - 1);
      EvalRotate(Shift(b, i - 1), z, m);
      CongMul(z, z, Eval(Shift(b, i - 1), z), Pow(z, i - 1) * Eval(b, z), m);
      Associate(z, Pow(z, i - 1), Eval(b, z));
    }
  }

  lemma EvalRotate(b: seq<int>, z: int, m: int)
    requires m > 0 && |b| > 0 && Cong(Pow(z, |b|), 1, m)
    ensures Cong(Eval([b[|b| - 1]] + b[..|b| - 1], z), z * Eval(b, z), m)
  {
    var last := |b| - 1;
    var c, front := b[last], b[..last];
    assert front + [c] == b;
    EvalAppend(front, c, z);
    assert ([c] + front)[1..] == front;
    var e, p := Eval(front, z), Pow(z, last);
    assert z * (e + c * p) == z * e + c * (z * p) by { Pull(z, e, c, p); }
    CongMul(c, c, Pow(z, |b|), 1, m);
    CongAdd(z * e, z * e, c * (z * p), c, m);
  }

  lemma {:induction false} EvalConvolution(a: seq<int>, b: seq<int>, count: nat, z: int, m: int)
    requires m > 0 && count <= |a| == |b| && |b| > 0 && Cong(Pow(z, |b|), 1, m)
    ensures Cong(Eval(Convolution(a, b, count), z), Eval(a[..count], z) * Eval(b, z), m)
  {
    if count == 0 {
      ZeroEval(Convolution(a, b, 0), z);
    } else {
      var i := count - 1;
      EvalConvolution(a, b, i, z, m);
      EvalLinear(Convolution(a, b, i), Shift(b, i), a[i], Convolution(a, b, count), z);
      EvalShift(b, i, z, m);
      assert a[..i] + [a[i]] == a[..count];
      EvalAppend(a[..i], a[i], z);
      var e, p := Eval(b, z), Pow(z, i);
      CongMul(a[i], a[i], Eval(Shift(b, i), z), p * e, m);
      CongAdd(Eval(Convolution(a, b, i), z), Eval(a[..i], z) * e, a[i] * Eval(Shift(b, i), z), a[i] * (p * e), m);
      Distribute(Eval(a[..i], z), a[i] * p, e);
      Associate(a[i], p, e);
    }
  }

  lemma {:induction false} ZeroEval(a: seq<int>, z: int)
    requires forall i :: 0 <= i < |a| ==> a[i] == 0
    ensures Eval(a, z) == 0
  {
    if a != [] { ZeroEval(a[1..], z); }
  }

  /** Every power of a principal root is a root of unity. */
  lemma RootOfUnity(w: int, j: nat, len: nat, m: int)
    requires m > 0 && len > 0 && PowerOfTwo(len) && PrincipalRoot(w, len, m)
    ensures Cong(Pow(Pow(w, j), len), 1, m)
  {
    if len == 1 {
      PowOne(j);
      PowOne(len);
    } else {
      var h := len / 2;
      PowAdd(w, h, h);
      CongMul(Pow(w, h), -1, Pow(w, h), -1, m);
      PowPow(w, j, len);
      PowPow(w, len, j);
      assert j * len == len * j;
      PowCong(Pow(w, len), 1, j, m);
      PowOne(j);
    }
  }

  /** The convolution theorem: the transform turns cyclic convolution into pointwise product. */
  lemma ConvolutionTheorem(a: seq<int>, b: seq<int>, w: int, j: nat, m: int)
    requires m > 0 && |a| == |b| > 0 && PowerOfTwo(|a|) && PrincipalRoot(w, |a|, m)
    ensures Cong(DftSum(Convolution(a, b, |a|), w, j), DftSum(a, w, j) * DftSum(b, w, j), m)
  {
    RootOfUnity(w, j, |a|, m);
    EvalConvolution(a, b, |a|, Pow(w, j), m);
    assert a[..|a|] == a;
    DftSumIsEval(Convolution(a, b, |a|), w, j);
    DftSumIsEval(a, w, j);
    DftSumIsEval(b, w, j);
  }

  // ----- bits -----

  /** The n low bits of x, least significant first; x may be negative (two's complement). */
  function Bits(x: int, n: nat): seq<int>
    decreases n
  {
    if n == 0 then [] else [x % 2] + Bits(x / 2, n - 1)
  }

  lemma {:induction false} BitsLength(x: int, n: nat)
    ensures |Bits(x, n)| == n && forall i :: 0 <= i < n ==> 0 <= Bits(x, n)[i] < 2
    decreases n
  {
    if n > 0 { BitsLength(x / 2, n - 1); }
  }

  lemma {:induction false} EvalBits(x: int, n: nat)
    ensures Pow(2, n) > 0 && Eval(Bits(x, n), 2) == x % Pow(2, n)
    decreases n
  {
    if n > 0 {
      EvalBits(x / 2, n - 1);
      LowBitFirst(x, Pow(2, n - 1));
      assert Bits(x, n)[1..] == Bits(x / 2, n - 1);
    }
  }

  lemma LowBitFirst(x: int, p: int)
    requires p > 0
    ensures x % (2 * p) == 2 * (x / 2 % p) + x % 2
  {
    var q, r := (x / 2) / p, (x / 2) % p;
    assert x == (2 * p) * q + (2 * r + x % 2) by {
      assert x / 2 == p * q + r;
      Associate(2, p, q);
    }
    RemainderIsUnique(x, q, 2 * r + x % 2, 2 * p);
  }
}
