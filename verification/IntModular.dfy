/** Two's-complement arithmetic: ranges, wrapping, and congruence modulo 2^n. */
module IntModular {

  function Pow2(n: nat): (r: int)
    ensures r > 0
  {
    if n == 0 then 1 else 2 * Pow2(n - 1)
  }

  function MinOf(bits: nat, signed: bool): int
    requires bits > 0
  {
    if signed then -Pow2(bits - 1) else 0
  }

  function MaxOf(bits: nat, signed: bool): int
    requires bits > 0
  {
    if signed then Pow2(bits - 1) - 1 else Pow2(bits) - 1
  }

  predicate Fits(bits: nat, signed: bool, x: int)
    requires bits > 0
  {
    MinOf(bits, signed) <= x <= MaxOf(bits, signed)
  }

  /** The value of the type that is congruent to `x`. */
  function Wrap(bits: nat, signed: bool, x: int): (r: int)
    requires bits > 0
  {
    var m := Pow2(bits);
    var u := x % m;
    if signed && u >= Pow2(bits - 1) then u - m else u
  }

  ghost predicate Congruent(x: int, y: int, n: nat) {
    exists k: int :: x == y + k * Pow2(n)
  }

  lemma CongruentBy(x: int, y: int, n: nat, k: int)
    requires x == y + k * Pow2(n)
    ensures Congruent(x, y, n)
  {
  }

  lemma WrapFits(bits: nat, signed: bool, x: int)
    requires bits > 0
    ensures Fits(bits, signed, Wrap(bits, signed, x))
    ensures Congruent(Wrap(bits, signed, x), x, bits)
  {
    var m := Pow2(bits);
    assert m == 2 * Pow2(bits - 1);
    var q := x / m;
    assert x == q * m + x % m;
    var r := Wrap(bits, signed, x);
    var k := if r == x % m then -q else -q - 1;
    assert r == x + k * m by {
      if r != x % m {
        assert (-q - 1) * m == -(q * m) - m;
      }
    }
    CongruentBy(r, x, bits, k);
  }

  lemma NoMultiple(d: int, k: int, m: int)
    requires d == k * m && -m < d < m
    ensures d == 0
  {
    MultipleIsLarge(k, m);
  }

  lemma MultipleIsLarge(k: int, m: int)
    ensures m > 0 && k >= 1 ==> k * m >= m
    ensures m > 0 && k <= -1 ==> k * m <= -m
  {
  }

  /** Only one value of the type is congruent to `x`. */
  lemma WrapUnique(bits: nat, signed: bool, x: int, y: int)
    requires bits > 0 && Fits(bits, signed, y) && Congruent(y, x, bits)
    ensures Wrap(bits, signed, x) == y
  {
    WrapFits(bits, signed, x);
    var r := Wrap(bits, signed, x);
    var m := Pow2(bits);
    assert m == 2 * Pow2(bits - 1);
    var a :| y == x + a * m;
    var b :| r == x + b * m;
    assert r - y == (b - a) * m by {
      assert (b - a) * m == b * m - a * m;
    }
    NoMultiple(r - y, b - a, m);
  }

  lemma WrapId(bits: nat, signed: bool, x: int)
    requires bits > 0 && Fits(bits, signed, x)
    ensures Wrap(bits, signed, x) == x
  {
    CongruentBy(x, x, bits, 0);
    WrapUnique(bits, signed, x, x);
  }

  lemma WrapSame(bits: nat, signed: bool, x: int, y: int)
    requires bits > 0 && Congruent(x, y, bits)
    ensures Wrap(bits, signed, x) == Wrap(bits, signed, y)
  {
    WrapFits(bits, signed, x);
    CongruentTrans(Wrap(bits, signed, x), x, y, bits);
    WrapUnique(bits, signed, y, Wrap(bits, signed, x));
  }

  lemma CongruentTrans(x: int, y: int, z: int, n: nat)
    requires Congruent(x, y, n) && Congruent(y, z, n)
    ensures Congruent(x, z, n)
  {
    var m := Pow2(n);
    var a :| x == y + a * m;
    var b :| y == z + b * m;
    assert x == z + (a + b) * m by {
      assert (a + b) * m == a * m + b * m;
    }
    CongruentBy(x, z, n, a + b);
  }

  lemma CongruentSelf(x: int, n: nat)
    ensures Congruent(x, x, n)
  {
    CongruentBy(x, x, n, 0);
  }

  lemma CongruentAdd(x: int, y: int, u: int, v: int, n: nat)
    requires Congruent(x, y, n) && Congruent(u, v, n)
    ensures Congruent(x + u, y + v, n)
  {
    var m := Pow2(n);
    var a :| x == y + a * m;
    var b :| u == v + b * m;
    assert (a + b) * m == a * m + b * m;
    CongruentBy(x + u, y + v, n, a + b);
  }

  lemma CongruentNeg(x: int, y: int, n: nat)
    requires Congruent(x, y, n)
    ensures Congruent(-x, -y, n)
  {
    var m := Pow2(n);
    var a :| x == y + a * m;
    assert (-a) * m == -(a * m);
    CongruentBy(-x, -y, n, -a);
  }

  lemma CongruentMul(x: int, y: int, u: int, v: int, n: nat)
    requires Congruent(x, y, n) && Congruent(u, v, n)
    ensures Congruent(x * u, y * v, n)
  {
    var m := Pow2(n);
    var a :| x == y + a * m;
    var b :| u == v + b * m;
    Distribute(x, y, u, v, a, b, m);
    CongruentBy(x * u, y * v, n, a * u + y * b);
  }

  lemma Distribute(x: int, y: int, u: int, v: int, a: int, b: int, m: int)
    requires x == y + a * m && u == v + b * m
    ensures x * u == y * v + (a * u + y * b) * m
  {
    calc {
      x * u;
      (y + a * m) * u;
      y * u + a * m * u;
      y * (v + b * m) + a * u * m;
      y * v + y * b * m + a * u * m;
      y * v + (a * u + y * b) * m;
    }
  }

  lemma {:induction false} Pow2Add(a: nat, b: nat)
    ensures Pow2(a + b) == Pow2(a) * Pow2(b)
    decreases b
  {
    if b > 0 {
      Pow2Add(a, b - 1);
      assert a + b - 1 == a + (b - 1);
      assert Pow2(a) * (2 * Pow2(b - 1)) == 2 * (Pow2(a) * Pow2(b - 1));
    }
  }

  lemma {:induction false} Pow2Monotone(a: nat, b: nat)
    requires a <= b
    ensures Pow2(a) <= Pow2(b)
    decreases b
  {
    if a < b {
      Pow2Monotone(a, b - 1);
    }
  }

  lemma Associate(a: int, b: int, c: int)
    ensures a * (b * c) == (a * b) * c
  {
  }

  /** Congruence modulo a larger power of two is congruence modulo a smaller. */
  lemma CongruentLess(x: int, y: int, n: nat, m: nat)
    requires Congruent(x, y, m) && n <= m
    ensures Congruent(x, y, n)
  {
    Pow2Add(m - n, n);
    var k :| x == y + k * Pow2(m);
    Associate(k, Pow2(m - n), Pow2(n));
    CongruentBy(x, y, n, k * Pow2(m - n));
  }

  /** Wrapping to a type of at least `n` bits keeps the residue modulo 2^n. */
  lemma WrapCongruent(bits: nat, signed: bool, x: int, n: nat)
    requires bits > 0 && n <= bits
    ensures Congruent(Wrap(bits, signed, x), x, n)
  {
    WrapFits(bits, signed, x);
    CongruentLess(Wrap(bits, signed, x), x, n, bits);
  }

  lemma FitsWider(bits: nat, signed: bool, x: int, bits': nat, signed': bool)
    requires 0 < bits && Fits(bits, signed, x) && bits <= bits'
    requires signed == signed' || (signed' && bits < bits')
    ensures Fits(bits', signed', x)
  {
    Pow2Monotone(bits - 1, bits' - 1);
    Pow2Monotone(bits, bits');
    if signed' && !signed {
      Pow2Monotone(bits, bits' - 1);
    }
  }

}
