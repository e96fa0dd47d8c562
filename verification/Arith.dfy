/** Remainders, congruences and powers: the facts about `%` that the field code rests on. */
module Arith {

  function Pow(b: int, e: nat): int {
    if e == 0 then 1 else b * Pow(b, e - 1)
  }

  /** A multiple of `d` strictly between `-d` and `d` is zero. */
  lemma SmallMultiple(d: int, e: int)
    requires d > 0 && -d < d * e < d
    ensures e == 0
  {
  }

  lemma MulBound(x: int, y: int, a: int, b: int)
    requires 0 <= x <= a && 0 <= y <= b
    ensures 0 <= x * y <= a * b
  {
    assert x * y <= a * y <= a * b;
  }

  lemma RemainderUnique(x: int, d: int, q: int, r: int)
    requires 0 <= r < d && x == d * q + r
    ensures x / d == q && x % d == r
  {
    var e := x / d - q;
    assert d * e == d * (x / d) - d * q;
    SmallMultiple(d, e);
  }

  lemma ModFromWitness(x: int, y: int, m: int, q: int)
    requires m > 0 && x == y + m * q
    ensures x % m == y % m
  {
    assert x == m * (y / m + q) + y % m;
    RemainderUnique(x, m, y / m + q, y % m);
  }

  lemma ModWitness(x: int, y: int, m: int) returns (q: int)
    requires m > 0 && x % m == y % m
    ensures x == y + m * q
  {
    q := x / m - y / m;
    assert m * q == m * (x / m) - m * (y / m);
  }

  lemma ModMul(x: int, y: int, z: int, m: int)
    requires m > 0 && x % m == y % m
    ensures (x * z) % m == (y * z) % m
  {
    var q := ModWitness(x, y, m);
    assert x * z == y * z + m * (q * z);
    ModFromWitness(x * z, y * z, m, q * z);
  }

  lemma ModAdd(x: int, y: int, u: int, v: int, m: int)
    requires m > 0 && x % m == y % m && u % m == v % m
    ensures (x + u) % m == (y + v) % m
    ensures (x - u) % m == (y - v) % m
  {
    var p := ModWitness(x, y, m);
    var q := ModWitness(u, v, m);
    assert m * (p + q) == m * p + m * q && m * (p - q) == m * p - m * q;
    ModFromWitness(x + u, y + v, m, p + q);
    ModFromWitness(x - u, y - v, m, p - q);
  }

  lemma ModMod(x: int, m: int)
    requires m > 0
    ensures (x % m) % m == x % m
  {
    RemainderUnique(x % m, m, 0, x % m);
  }

  /** Reducing an operand first does not change a sum, difference or product modulo `m`. */
  lemma ModOperands(x: int, y: int, m: int)
    requires m > 0
    ensures ((x % m) + y) % m == (x + y) % m == ((x % m) + (y % m)) % m
    ensures ((x % m) - y) % m == (x - y) % m == (x - (y % m)) % m == ((x % m) - (y % m)) % m
    ensures ((x % m) * y) % m == (x * y) % m == ((x % m) * (y % m)) % m
  {
    ModMod(x, m);
    ModMod(y, m);
    ModAdd(x % m, x, y, y, m);
    ModAdd(x, x, y % m, y, m);
    ModAdd(x % m, x, y % m, y, m);
    ModMul(x % m, x, y, m);
    ModMul(y % m, y, x % m, m);
  }

  lemma ModFactor(x: int, y: int, m: int)
    requires m > 0
    ensures ((x % m) * y) % m == (x * y) % m
  {
    ModMod(x, m);
    ModMul(x % m, x, y, m);
  }

  lemma ModSmall(x: int, m: int)
    requires 0 <= x < m
    ensures x % m == x
  {
    RemainderUnique(x, m, 0, x);
  }

  /** One conditional subtraction reduces a number below `2m`. */
  lemma ReduceOnce(x: int, m: int)
    requires 0 <= x < 2 * m
    ensures x % m == if x < m then x else x - m
  {
    if x < m {
      RemainderUnique(x, m, 0, x);
    } else {
      RemainderUnique(x, m, 1, x - m);
    }
  }

  /** One conditional addition reduces a difference of residues. */
  lemma ReduceDifference(x: int, m: int)
    requires -m < x < m
    ensures x % m == if x < 0 then x + m else x
  {
    if x < 0 {
      RemainderUnique(x, m, -1, x + m);
    } else {
      RemainderUnique(x, m, 0, x);
    }
  }

  /** If `c * s` is `n` modulo `m` and `d` inverts `c`, then the residue of `s` is that of `n * d`. */
  lemma DivideByUnit(s: int, r: int, c: int, d: int, n: int, k: int, m: int)
    requires m > 1 && c * s == n + k * m && r == s % m && (c * d) % m == 1
    ensures r == (n * d) % m && (c * r) % m == n % m
  {
    ModFromWitness(c * s, n, m, k);
    ModMod(s, m);
    ModMul(r, s, c, m);
    ModMul(c * s, n, d, m);
    ModSmall(1, m);
    ModMul(c * d, 1, s, m);
    assert (c * s) * d == (c * d) * s;
  }

  lemma UndoFactor(x: int, c: int, d: int, m: int)
    requires 0 <= x < m && 1 < m && (d * c) % m == 1
    ensures (x * c * d) % m == x
  {
    ModSmall(1, m);
    ModMul(d * c, 1, x, m);
    assert x * c * d == (d * c) * x;
    ModSmall(x, m);
  }

  /** With `c * d` one and `r` the square of `c`, a factor `r * d * d` undoes itself. */
  lemma UndoTwice(n: int, c: int, d: int, r: int, m: int)
    requires 0 <= n < m && 1 < m && (c * d) % m == 1 && r % m == (c * c) % m
    ensures (n * r * d * d) % m == n
  {
    SquareIsUndone(c, d, r, m);
    UnitFactor(r * (d * d), n, m);
    Rearrange(n, r, d);
  }

  lemma UnitFactor(u: int, n: int, m: int)
    requires 0 <= n < m && 1 < m && u % m == 1
    ensures (u * n) % m == n
  {
    ModSmall(1, m);
    ModMul(u, 1, n, m);
    ModSmall(n, m);
  }

  lemma Rearrange(n: int, r: int, d: int)
    ensures (r * (d * d)) * n == n * r * d * d
  {
    var p := n * r;
    assert (r * (d * d)) * n == p * (d * d);
    assert p * (d * d) == p * d * d;
  }

  lemma SquareIsUndone(c: int, d: int, r: int, m: int)
    requires 1 < m && (c * d) % m == 1 && r % m == (c * c) % m
    ensures (r * (d * d)) % m == 1
  {
    var u := c * d;
    ModMul(r, c * c, d * d, m);
    assert (c * c) * (d * d) == u * u;
    ModSmall(1, m);
    ModMul(u, 1, u, m);
  }

  // The ring laws of the product `x * y * d` modulo `m`, and of the map `x -> x * d`.

  lemma ScaledProduct(x: int, y: int, d: int, m: int)
    requires m > 0
    ensures ((x * y * d) % m * d) % m == ((x * d) % m * ((y * d) % m)) % m
  {
    ModFactor(x * y * d, d, m);
    var u, v := x * d, y * d;
    ModFactor(u, v % m, m);
    ModFactor(v, u, m);
    assert x * y * d * d == u * v;
    assert (v % m) * u == u * (v % m);
  }

  lemma ScaledSum(x: int, y: int, d: int, m: int)
    requires m > 0
    ensures ((x + y) % m * d) % m == ((x * d) % m + (y * d) % m) % m
    ensures ((x - y) % m * d) % m == ((x * d) % m - (y * d) % m) % m
  {
    ModOperands(x + y, d, m);
    ModOperands(x - y, d, m);
    ModOperands(x * d, y * d, m);
    assert (x + y) * d == x * d + y * d && (x - y) * d == x * d - y * d;
  }

  lemma ReducedFactor(p: int, z: int, d: int, m: int)
    requires m > 0
    ensures ((p % m) * z * d) % m == (p * z * d) % m
  {
    ModFactor(p, z * d, m);
    var u := p % m;
    assert u * (z * d) == u * z * d && p * (z * d) == p * z * d;
  }

  lemma ProductAssociates(x: int, y: int, z: int, d: int, m: int)
    requires m > 0
    ensures ((x * y * d) % m * z * d) % m == (x * ((y * z * d) % m) * d) % m
  {
    ReducedFactor(x * y * d, z, d, m);
    ReducedFactor(y * z * d, x, d, m);
    var v := (y * z * d) % m;
    assert x * v * d == v * x * d;
    assert (x * y * d) * z * d == (y * z * d) * x * d;
  }

  lemma ProductDistributes(x: int, y: int, z: int, d: int, m: int)
    requires m > 0
    ensures (x * ((y + z) % m) * d) % m == ((x * y * d) % m + (x * z * d) % m) % m
  {
    ModFactor(y + z, x * d, m);
    ModOperands(x * y * d, x * z * d, m);
    var u := (y + z) % m;
    assert x * u * d == u * (x * d);
    assert (y + z) * (x * d) == x * y * d + x * z * d;
  }

  lemma SumAssociates(x: int, y: int, z: int, m: int)
    requires m > 0
    ensures ((x + y) % m + z) % m == (x + (y + z) % m) % m
  {
    ModOperands(x + y, z, m);
    ModOperands(y + z, x, m);
  }

  lemma ScaledUnit(x: int, c: int, d: int, m: int)
    requires 0 <= x < m && 1 < m && (c * d) % m == 1
    ensures (x * (c % m) * d) % m == x
  {
    ModFactor(c, x * d, m);
    var u := c % m;
    assert x * u * d == u * (x * d);
    assert c * (x * d) == x * d * c;
    UndoFactor(x, d, c, m);
  }

  lemma EnterAndLeave(n: int, c: int, d: int, r: int, m: int)
    requires 0 <= n < m && 1 < m && (c * d) % m == 1 && r % m == (c * c) % m
    ensures ((n * r * d) % m * d) % m == n
    ensures ((n * d) % m * r * d) % m == n
  {
    UndoTwice(n, c, d, r, m);
    ModFactor(n * r * d, d, m);
    ReducedFactor(n * d, r, d, m);
    assert n * d * r * d == n * r * d * d;
  }

  lemma Quotient(x: nat, d: nat)
    requires d > 0
    ensures 0 <= x / d && 0 <= x % d < d && x == d * (x / d) + x % d
  {
  }

  lemma TwoDigits(x: int, b: int, p: int, q: int, r: int, t: int)
    requires 0 <= r < p && 0 <= t < b && x == b * (p * q + r) + t
    ensures b * p > 0 && x / (b * p) == q && x % (b * p) == b * r + t
  {
    assert b * (p * q + r) == (b * p) * q + b * r;
    assert b * r <= b * (p - 1) == b * p - b;
    RemainderUnique(x, b * p, q, b * r + t);
  }

  /** Dividing by a product is dividing by one factor, then by the other. */
  lemma DivideTwice(x: nat, b: nat, p: nat)
    requires b > 0 && p > 0
    ensures b * p > 0 && x / b >= 0
    ensures x / (b * p) == (x / b) / p && x % (b * p) == b * ((x / b) % p) + x % b
  {
    var y := x / b;
    Quotient(x, b);
    Quotient(y, p);
    TwoDigits(x, b, p, y / p, y % p, x % b);
  }

  lemma {:induction false} PowAdds(b: int, i: nat, j: nat)
    ensures Pow(b, i + j) == Pow(b, i) * Pow(b, j)
  {
    if i > 0 {
      PowAdds(b, i - 1, j);
      assert b * (Pow(b, i - 1) * Pow(b, j)) == Pow(b, i) * Pow(b, j);
    }
  }

  lemma {:induction false} PowMultiplies(b: int, i: nat, j: nat)
    ensures i * j >= 0 && Pow(Pow(b, i), j) == Pow(b, i * j)
  {
    if j > 0 {
      PowMultiplies(b, i, j - 1);
      assert i * j == i + i * (j - 1);
      PowAdds(b, i, i * (j - 1));
    } else {
      assert i * j == 0;
    }
  }

  lemma {:induction false} PowOfOne(e: nat)
    ensures Pow(1, e) == 1
  {
    if e > 0 {
      PowOfOne(e - 1);
    }
  }

  /** Congruent bases have congruent powers. */
  lemma {:induction false} PowCongruent(x: int, y: int, e: nat, m: int)
    requires m > 0 && x % m == y % m
    ensures Pow(x, e) % m == Pow(y, e) % m
  {
    if e > 0 {
      PowCongruent(x, y, e - 1, m);
      ModMul(Pow(x, e - 1), Pow(y, e - 1), x, m);
      ModMul(x, y, Pow(y, e - 1), m);
    }
  }
}
