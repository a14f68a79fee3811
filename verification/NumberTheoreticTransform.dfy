/** test_progs/dft.c: the in-place recursive transform and the multiplication built on it. */
module NumberTheoreticTransform {
  import opened ModularArithmetic
  import opened Transform

  /** The program's `byte`, a 16-bit short. Values of this type never wrapped. */
  type short = x: int | -0x8000 <= x < 0x8000

  /** The program's global constants, as parameters. */
  datatype Params = Params(n: short, m: short, w: short, wr: short, nr: short) {
    ghost predicate Valid() {
      && n > 0 && PowerOfTwo(n)
      && m > 2 && m * (m - 1) < 0x8000
      && 0 <= w < m && 0 <= wr < m && 0 <= nr < m
      && PrincipalRoot(w, n, m)
      && Cong(w * wr, 1, m) && Cong(n * nr, 1, m)
    }
  }

  const SOURCE := Params(8, 17, 2, 9, 15)

  lemma SourceParamsValid()
    ensures SOURCE.Valid()
  {
    assert PowerOfTwo(2) && PowerOfTwo(4);
    assert Pow(2, 4) == 16 by { assert Pow(2, 2) == 4; }
  }

  ghost predicate Reduced(s: seq<int>, m: int) {
    forall i :: 0 <= i < |s| ==> 0 <= s[i] < m
  }

  method ModuloM(p: Params, x0: short) returns (x: short)
    requires p.m > 0
    ensures x == x0 % p.m
  {
    x := x0;
    ghost var s := 0;
    while x < 0
      invariant x == x0 + p.m * s && x < p.m + (if x0 < 0 then 0 else x0)
    {
      x := x + p.m;
      s := s + 1;
    }
    while x >= p.m
      invariant x >= 0 && x == x0 + p.m * s
    {
      x := x - p.m;
      s := s - 1;
    }
    assert x0 == p.m * -s + x;
    RemainderIsUnique(x0, -s, x, p.m);
  }

  /** Products and sums of reduced values stay far inside 16 bits. */
  lemma FitsShort(m: int, u: int, v: int, c: int)
    requires 0 < m && m * (m - 1) < 0x8000 && 0 <= u < m && 0 <= v < m && 0 <= c < m
    ensures 0 <= u * v <= (m - 1) * (m - 1)
    ensures c + u * v < 0x8000 && -0x8000 < c - u * v
  {
    MulMonotone(u, m - 1, v);
    MulMonotone(v, m - 1, m - 1);
    Distribute(m - 1, 1, m - 1);
  }

  /** What one pass of the combining loop writes, from the reduced half transforms. */
  lemma Combine(src: seq<int>, h: nat, root: int, r2: int, base: int, xi: int, yi: int, i: nat, m: int)
    requires m > 0 && |src| == 2 * h && i < h
    requires Cong(Pow(root, h), -1, m) && Cong(r2, root * root, m) && Cong(base, Pow(root, i), m)
    requires xi == DftSum(Evens(src), r2, i) % m && yi == DftSum(Odds(src), r2, i) % m
    ensures (xi + base * yi) % m == DftSum(src, root, i) % m
    ensures (xi - base * yi) % m == DftSum(src, root, i + h) % m
  {
    Butterfly(src, h, root, r2, base, i, m);
    var e, o := DftSum(Evens(src), r2, i), DftSum(Odds(src), r2, i);
    CongMod(e, m);
    CongMod(o, m);
    CongMul(base, base, yi, o, m);
    CongAdd(xi, e, base * yi, base * o, m);
    CongSub(xi, e, base * yi, base * o, m);
  }

  lemma NextBase(root: int, base: int, i: nat, m: int)
    requires m > 0 && Cong(base, Pow(root, i), m)
    ensures Cong((base * root) % m, Pow(root, i + 1), m)
  {
    CongMul(base, Pow(root, i), root, root, m);
    CongMod(base * root, m);
  }

  lemma TransformOfOne(c: int, m: int)
    requires 0 <= c < m
    ensures IsTransform([c], [c], 1, m)
  {
    assert DftSum([c], 1, 0) == c;
    RemainderIsUnique(c, 0, c, m);
  }

  method Dft(p: Params, a: array<short>, len: short, root: short)
    requires p.Valid() && 1 <= len <= a.Length && len <= p.n && PowerOfTwo(len)
    requires 0 <= root < p.m && PrincipalRoot(root, len, p.m)
    requires Reduced(a[..len], p.m)
    modifies a
    ensures IsTransform(a[..len], old(a[..len]), root, p.m)
    ensures a[len..] == old(a[len..])
    ensures Reduced(a[..len], p.m)
    decreases len
  {
    StopsExactlyAtOne(root, len, p.m);
    if root == 1 {
      TransformOfOne(a[0], p.m);
      assert a[..len] == [a[0]];
      return;
    }
    ghost var src: seq<int> := a[..len];
    var x, y := new short[p.n], new short[p.n];
    Split(a, len, x, y);
    FitsShort(p.m, root, root, 0);
    RootOfHalf(root, len, p.m);
    var r2x := ModuloM(p, root * root);
    Dft(p, x, len / 2, r2x);
    var r2y := ModuloM(p, root * root);
    Dft(p, y, len / 2, r2y);
    CongMod(root * root, p.m);
    assert len == 2 * (len / 2) && Cong(Pow(root, len / 2), -1, p.m);
    Merge(p, a, len, root, x, y, src, r2x);
  }

  /** The copying loop of dft: even entries to x, odd entries to y. */
  method Split(a: array<short>, len: short, x: array<short>, y: array<short>)
    requires 1 < len <= a.Length && len % 2 == 0 && len <= x.Length && len <= y.Length
    requires x != a && y != a && x != y
    modifies x, y
    ensures x[..len / 2] == Evens(a[..len]) && y[..len / 2] == Odds(a[..len])
  {
    var i: short := 0;
    while i < len
      invariant 0 <= i <= len && i % 2 == 0
      invariant forall j :: 0 <= j < i / 2 ==> x[j] == a[2 * j] && y[j] == a[2 * j + 1]
    {
      x[i / 2] := a[i];
      y[i / 2] := a[i + 1];
      i := i + 2;
    }
  }

  /** The combining loop of dft: butterflies on the transformed halves, with base = root^i. */
  method Merge(p: Params, a: array<short>, len: short, root: short,
               x: array<short>, y: array<short>, ghost src: seq<int>, ghost r2: int)
    requires p.Valid() && 1 < len <= a.Length && len % 2 == 0 && len / 2 <= x.Length && len / 2 <= y.Length
    requires x != a && y != a && 0 <= root < p.m
    requires |src| == len as int && Cong(Pow(root, len / 2), -1, p.m) && Cong(r2, root * root, p.m)
    requires IsTransform(x[..len / 2], Evens(src), r2, p.m) && IsTransform(y[..len / 2], Odds(src), r2, p.m)
    modifies a
    ensures IsTransform(a[..len], src, root, p.m) && a[len..] == old(a[len..])
  {
    hide DftSum, Evens, Odds;
    ghost var h: nat := len / 2;
    var base: short := 1;
    var i: short := 0;
    while i < len / 2
      invariant 0 <= i <= h
      invariant 0 <= base < p.m && Cong(base, Pow(root, i), p.m)
      invariant forall j :: 0 <= j < i ==> a[j] == DftSum(src, root, j) % p.m
      invariant forall j :: h <= j < h + i ==> a[j] == DftSum(src, root, j) % p.m
      invariant a[len..] == old(a[len..])
    {
      assert x[i] == x[..h][i] && y[i] == y[..h][i];
      Combine(src, h, root, r2, base, x[i], y[i], i, p.m);
      NextBase(root, base, i, p.m);
      FitsShort(p.m, base, y[i], x[i]);
      FitsShort(p.m, base, root, 0);
      var lo := ModuloM(p, x[i] + base * y[i]);
      a[i] := lo;
      var hi := ModuloM(p, x[i] - base * y[i]);
      a[i + len / 2] := hi;
      base := ModuloM(p, base * root);
      i := i + 1;
    }
  }

  lemma FirstBit(x: int, n: nat)
    requires n > 0
    ensures Bits(x, n) != [] && Bits(x, n)[0] == x % 2 && Bits(x, n)[1..] == Bits(x / 2, n - 1)
  {
  }

  method ToPoly(p: Params, x0: short, a: array<short>)
    requires 0 < p.n == a.Length
    modifies a
    ensures a[..] == Bits(x0, p.n)
  {
    hide Bits;
    var x := x0;
    var i: short := 0;
    ghost var bits := Bits(x0, p.n);
    BitsLength(x0, p.n);
    while i < p.n
      invariant 0 <= i <= p.n && |bits| == p.n as int
      invariant a[..i] == bits[..i] && bits[i..] == Bits(x, p.n - i)
    {
      FirstBit(x, p.n - i);
      assert bits[i] == bits[i..][0] && bits[i + 1..] == bits[i..][1..];
      a[i] := if x % 2 == 1 then 1 else 0;
      x := x / 2;
      i := i + 1;
    }
    assert a[..i] == a[..] && bits[..i] == bits;
  }

  /** Pointwise product of two transforms is the transform of the cyclic convolution. */
  lemma PointwiseProduct(f: seq<int>, g: seq<int>, u: int, v: int, w: int, j: nat, m: int)
    requires m > 0 && |f| == |g| > 0 && PowerOfTwo(|f|) && PrincipalRoot(w, |f|, m) && j < |f|
    requires u == DftSum(f, w, j) % m && v == DftSum(g, w, j) % m
    ensures Cong((u * v) % m, DftSum(Convolution(f, g, |f|), w, j), m)
  {
    ConvolutionTheorem(f, g, w, j, m);
    CongMod(DftSum(f, w, j), m);
    CongMod(DftSum(g, w, j), m);
    CongMul(u, DftSum(f, w, j), v, DftSum(g, w, j), m);
    CongMod(u * v, m);
  }

  method PointwiseMultiply(p: Params, a: array<short>, b: array<short>, ghost f: seq<int>, ghost g: seq<int>)
    requires p.Valid() && a.Length == b.Length == p.n as int == |f| == |g| && a != b
    requires IsTransform(a[..], f, p.w, p.m) && IsTransform(b[..], g, p.w, p.m)
    modifies a
    ensures Reduced(a[..], p.m)
    ensures forall j :: 0 <= j < |f| ==> Cong(a[j], DftSum(Convolution(f, g, |f|), p.w, j), p.m)
  {
    var i: short := 0;
    while i < p.n
      invariant 0 <= i <= p.n
      invariant forall j :: 0 <= j < i ==> 0 <= a[j] < p.m
      invariant forall j :: 0 <= j < i ==> Cong(a[j], DftSum(Convolution(f, g, |f|), p.w, j), p.m)
      invariant forall j :: i <= j < p.n ==> a[j] == old(a[j])
    {
      assert a[i] == old(a[..])[i] == DftSum(f, p.w, i) % p.m;
      assert b[i] == b[..][i] == DftSum(g, p.w, i) % p.m;
      PointwiseProduct(f, g, a[i], b[i], p.w, i, p.m);
      FitsShort(p.m, a[i], b[i], 0);
      a[i] := ModuloM(p, a[i] * b[i]);
      i := i + 1;
    }
  }

  /** One pass of the final loop: the scaled coefficient joins the value at w. */
  lemma Accumulate(c: seq<int>, i: nat, scaled: int, base: int, result: int, w: int, m: int)
    requires m > 0 && i < |c| && Cong(scaled, c[i], m) && Cong(base, Pow(w, i), m)
    requires Cong(result, Eval(c[..i], w), m)
    ensures Cong((result + base * scaled) % m, Eval(c[..i + 1], w), m)
  {
    assert c[..i + 1] == c[..i] + [c[i]];
    EvalAppend(c[..i], c[i], w);
    CongMul(base, Pow(w, i), scaled, c[i], m);
    CongAdd(result, Eval(c[..i], w), base * scaled, c[i] * Pow(w, i), m);
    CongMod(result + base * scaled, m);
  }

  /** The final loop of mult: scale by nr and evaluate at w, for a holding the back transform. */
  method ScaleAndEvaluate(p: Params, a: array<short>, ghost c: seq<int>, ghost image: seq<int>) returns (result: short)
    requires p.Valid() && a.Length == p.n as int == |c| == |image|
    requires forall j :: 0 <= j < |c| ==> Cong(image[j], DftSum(c, p.w, j), p.m)
    requires IsTransform(a[..], image, p.wr, p.m)
    modifies a
    ensures 0 <= result < p.m && Cong(result, Eval(c, p.w), p.m)
    ensures forall j :: 0 <= j < |c| ==> a[j] == c[j] % p.m
  {
    var base: short := 1;
    result := 0;
    var i: short := 0;
    while i < p.n
      invariant 0 <= i <= p.n
      invariant 0 <= base < p.m && Cong(base, Pow(p.w, i), p.m)
      invariant 0 <= result < p.m && Cong(result, Eval(c[..i], p.w), p.m)
      invariant forall j :: 0 <= j < i ==> a[j] == c[j] % p.m
      invariant forall j :: i <= j < p.n ==> a[j] == old(a[j])
    {
      assert a[i] == old(a[..])[i] == DftSum(image, p.wr, i) % p.m;
      Inversion(c, image, p.w, p.wr, p.nr, i, p.m);
      CongMod(DftSum(image, p.wr, i), p.m);
      CongMul(a[i], DftSum(image, p.wr, i), p.nr, p.nr, p.m);
      FitsShort(p.m, a[i], p.nr, 0);
      a[i] := ModuloM(p, a[i] * p.nr);
      CongMod(c[i], p.m);
      Accumulate(c, i, a[i], base, result, p.w, p.m);
      FitsShort(p.m, base, a[i], result);
      result := ModuloM(p, result + base * a[i]);
      NextBase(p.w, base, i, p.m);
      FitsShort(p.m, base, p.w, 0);
      base := ModuloM(p, base * p.w);
      i := i + 1;
    }
    assert c[..i] == c;
  }

  lemma InverseRoot(p: Params)
    requires p.Valid()
    ensures PrincipalRoot(p.wr, p.n, p.m)
  {
    if p.n > 1 {
      InverseIsPrincipal(p.w, p.wr, p.n, p.m);
    } else {
      RemainderIsUnique(p.wr, 0, p.wr, p.m);
      RemainderIsUnique(1, 0, 1, p.m);
    }
  }

  lemma ConvolutionValue(f: seq<int>, g: seq<int>, w: int, m: int)
    requires m > 0 && |f| == |g| > 0 && PowerOfTwo(|f|) && PrincipalRoot(w, |f|, m)
    ensures Cong(Eval(Convolution(f, g, |f|), w), Eval(f, w) * Eval(g, w), m)
  {
    RootOfUnity(w, 1, |f|, m);
    assert Pow(w, 1) == w * Pow(w, 0) == w;
    EvalConvolution(f, g, |f|, w, m);
    assert f[..|f|] == f;
  }

  /** The product of the two polynomials of bits, evaluated at w; at w = 2 a product of numbers. */
  method Mult(p: Params, x: short, y: short) returns (result: short)
    requires p.Valid()
    ensures result == (Eval(Bits(x, p.n), p.w) * Eval(Bits(y, p.n), p.w)) % p.m
    ensures Pow(2, p.n) > 0
    ensures p.w == 2 ==> result == ((x % Pow(2, p.n)) * (y % Pow(2, p.n))) % p.m
  {
    ghost var f, g := Bits(x, p.n), Bits(y, p.n);
    BitsLength(x, p.n);
    BitsLength(y, p.n);
    EvalBits(x, p.n);
    EvalBits(y, p.n);
    ghost var c := Convolution(f, g, p.n);
    var a, b := new short[p.n], new short[p.n];
    ToPoly(p, x, a);
    ToPoly(p, y, b);
    assert a[..p.n] == a[..] && b[..p.n] == b[..];
    Dft(p, a, p.n, p.w);
    assert a[..p.n] == a[..];
    Dft(p, b, p.n, p.w);
    assert b[..p.n] == b[..];
    PointwiseMultiply(p, a, b, f, g);
    ghost var image: seq<int> := a[..];
    InverseRoot(p);
    assert a[..p.n] == a[..];
    Dft(p, a, p.n, p.wr);
    assert a[..p.n] == a[..];
    result := ScaleAndEvaluate(p, a, c, image);
    ConvolutionValue(f, g, p.w, p.m);
    RemainderIsUnique(result, 0, result, p.m);
  }

  /** The program's own constants: the whole pipeline is (x mod 256) * (y mod 256) mod 17. */
  method MultSource(x: short, y: short) returns (result: short)
    ensures result == ((x % 256) * (y % 256)) % 17
  {
    SourceParamsValid();
    assert Pow(2, 8) == 256 by { PowAdd(2, 4, 4); assert Pow(2, 4) == 16 by { assert Pow(2, 2) == 4; } }
    result := Mult(SOURCE, x, y);
  }
}
