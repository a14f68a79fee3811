/** Congruence of integers and integer powers, as needed by the transform over Z_m. */
module ModularArithmetic {

  ghost predicate Cong(a: int, b: int, m: int)
    requires m > 0
  {
    a % m == b % m
  }

  function Pow(b: int, e: nat): int {
    if e == 0 then 1 else b * Pow(b, e - 1)
  }

  /** The remainder is the only number in [0, m) at a multiple of m from x. */
  lemma RemainderIsUnique(x: int, q: int, r: int, m: int)
    requires m > 0 && x == m * q + r && 0 <= r < m
    ensures x % m == r
  {
    var d := q - x / m;
    assert m * d == x % m - r by { assert m * d == m * q - m * (x / m); }
  }

  lemma CongIntro(a: int, b: int, s: int, m: int)
    requires m > 0 && a == b + m * s
    ensures Cong(a, b, m)
  {
    assert a == m * (b / m + s) + b % m by {
      assert m * (b / m + s) == m * (b / m) + m * s;
    }
    RemainderIsUnique(a, b / m + s, b % m, m);
  }

  lemma CongElim(a: int, b: int, m: int) returns (s: int)
    requires m > 0 && Cong(a, b, m)
    ensures a == b + m * s
  {
    s := a / m - b / m;
    assert m * s == m * (a / m) - m * (b / m);
  }

  lemma CongMod(a: int, m: int)
    requires m > 0
    ensures Cong(a % m, a, m)
  {
    RemainderIsUnique(a % m, 0, a % m, m);
  }

  lemma CongAdd(a: int, a': int, b: int, b': int, m: int)
    requires m > 0 && Cong(a, a', m) && Cong(b, b', m)
    ensures Cong(a + b, a' + b', m)
  {
    var s := CongElim(a, a', m);
    var t := CongElim(b, b', m);
    assert m * (s + t) == m * s + m * t;
    CongIntro(a + b, a' + b', s + t, m);
  }

  lemma Distribute(a: int, b: int, c: int)
    ensures (a + b) * c == a * c + b * c
  {
  }

  lemma Associate(a: int, b: int, c: int)
    ensures (a * b) * c == a * (b * c)
  {
  }

  lemma MulMonotone(a: int, b: int, c: int)
    requires 0 <= a <= b && 0 <= c
    ensures 0 <= a * c <= b * c
  {
  }

  lemma CongScale(a: int, a': int, c: int, m: int)
    requires m > 0 && Cong(a, a', m)
    ensures Cong(a * c, a' * c, m)
  {
    var s := CongElim(a, a', m);
    Distribute(a', m * s, c);
    Associate(m, s, c);
    CongIntro(a * c, a' * c, s * c, m);
  }

  lemma CongMul(a: int, a': int, b: int, b': int, m: int)
    requires m > 0 && Cong(a, a', m) && Cong(b, b', m)
    ensures Cong(a * b, a' * b', m)
  {
    CongScale(a, a', b, m);
    CongScale(b, b', a', m);
    assert a' * b == b * a' && a' * b' == b' * a';
  }

  lemma CongSub(a: int, a': int, b: int, b': int, m: int)
    requires m > 0 && Cong(a, a', m) && Cong(b, b', m)
    ensures Cong(a - b, a' - b', m)
  {
    CongMul(-1, -1, b, b', m);
    CongAdd(a, a', -b, -b', m);
  }

  lemma {:induction false} PowAdd(b: int, e: nat, f: nat)
    ensures Pow(b, e + f) == Pow(b, e) * Pow(b, f)
  {
    if e > 0 {
      PowAdd(b, e - 1, f);
      assert b * (Pow(b, e - 1) * Pow(b, f)) == b * Pow(b, e - 1) * Pow(b, f);
    }
  }

  lemma {:induction false} PowOfProduct(a: int, b: int, e: nat)
    ensures Pow(a * b, e) == Pow(a, e) * Pow(b, e)
  {
    if e > 0 {
      PowOfProduct(a, b, e - 1);
      var p, q := Pow(a, e - 1), Pow(b, e - 1);
      Associate(a, b, p * q);
      Associate(b, p, q);
      Associate(p, b, q);
      Associate(a, p, b * q);
      assert b * p == p * b;
    }
  }

  lemma {:induction false} PowPow(b: int, e: nat, f: nat)
    ensures 0 <= e * f
    ensures Pow(b, e * f) == Pow(Pow(b, e), f)
  {
    if f > 0 {
      PowPow(b, e, f - 1);
      assert e * f == e + e * (f - 1);
      PowAdd(b, e, e * (f - 1));
    }
  }

  lemma {:induction false} PowCong(a: int, b: int, e: nat, m: int)
    requires m > 0 && Cong(a, b, m)
    ensures Cong(Pow(a, e), Pow(b, e), m)
  {
    if e > 0 {
      PowCong(a, b, e - 1, m);
      CongMul(a, b, Pow(a, e - 1), Pow(b, e - 1), m);
    }
  }

  lemma {:induction false} PowOne(e: nat)
    ensures Pow(1, e) == 1
  {
    if e > 0 { PowOne(e - 1); }
  }

  lemma {:induction false} PowMinusOne(e: nat)
    ensures Pow(-1, e) == if e % 2 == 0 then 1 else -1
  {
    if e > 0 { PowMinusOne(e - 1); }
  }
}
