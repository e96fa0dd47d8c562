/** Runs of division steps: what every run keeps, and what it has computed once g is zero. */
module Inversion {
  import opened Arith
  import opened Bits
  import opened Words
  import opened Limbs
  import opened Rows
  import opened Residues
  import opened Montgomery
  import opened Divstep
  import opened DivstepRuns

  function IntRun(m: int, s: IntState, k: nat): IntState
    requires m > 0
  {
    if k == 0 then s else IntStep(m, IntRun(m, s, k - 1))
  }

  ghost function WordRun(field: Domain, s: WordState, k: nat): WordState {
    if k == 0 then s else WrapStep(field, WordRun(field, s, k - 1))
  }

  /** The start of an inversion: d = 1, f = m, g = a, v = 0 and a chosen r. */
  function Start(m: int, a: int, r: int): IntState {
    IntState(1, m, a, 0, r)
  }

  ghost function StartWords(field: Domain, a: Limbs, r: Limbs): WordState {
    WordState(1, Encode(field.m), a, ZERO, r)
  }

  /** An odd f and a g within the modulus, residues in range, and a counter within the step count. */
  predicate Bounded(m: int, k: nat, s: IntState) {
    && s.f % 2 == 1 && -m <= s.f <= m && -m <= s.g <= m
    && 0 <= s.v < m && 0 <= s.r < m
    && 0 - k - 1 <= s.d <= k + 1
  }

  /** `a` times each residue is its number, scaled by the start value `r` and by 2^k. */
  predicate Cofactors(m: int, a: int, scale: int, s: IntState)
    requires m > 0
  {
    (a * s.v) % m == (scale * s.f) % m && (a * s.r) % m == (scale * s.g) % m
  }

  /** What k steps from `Start` keep. */
  predicate RunInvariant(m: int, a: int, r: int, k: nat, s: IntState)
    requires m > 0
  {
    Bounded(m, k, s) && Cofactors(m, a, Pow2(k) * r, s)
  }

  lemma ScaleCongruence(a: int, x: int, m: int)
    requires m > 0
    ensures (a * (x % m)) % m == (a * x) % m
  {
    ModMod(x, m);
    ModMul(x % m, x, a, m);
    assert a * (x % m) == (x % m) * a;
  }

  lemma StepKeepsBounds(m: int, k: nat, s: IntState)
    requires m > 0 && Bounded(m, k, s)
    ensures Bounded(m, k + 1, IntStep(m, s))
  {
    if s.d <= 0 || s.g % 2 == 0 {
      IntStepCases(m, s);
    }
  }

  lemma DoubledResidue(m: int, a: int, c: int, x: int, y: int)
    requires m > 0 && (a * x) % m == (c * y) % m
    ensures (a * ((2 * x) % m)) % m == (2 * c * y) % m
  {
    ScaleCongruence(a, 2 * x, m);
    ModMul(a * x, c * y, 2, m);
    assert a * (2 * x) == (a * x) * 2 && 2 * c * y == (c * y) * 2;
  }

  lemma SummedResidue(m: int, a: int, c: int, x: int, y: int, u: int, w: int, h: int)
    requires m > 0 && (a * x) % m == (c * y) % m && (a * u) % m == (c * w) % m
    ensures 2 * h == y + w ==> (a * ((x + u) % m)) % m == (2 * c * h) % m
    ensures 2 * h == y - w ==> (a * ((x - u) % m)) % m == (2 * c * h) % m
  {
    ScaleCongruence(a, x + u, m);
    ScaleCongruence(a, x - u, m);
    ModAdd(a * x, c * y, a * u, c * w, m);
    assert a * (x + u) == a * x + a * u && a * (x - u) == a * x - a * u;
    assert 2 * c * h == c * (2 * h);
    assert c * (y + w) == c * y + c * w && c * (y - w) == c * y - c * w;
  }

  /** The two kinds of step: with or without the swap, and with or without an addition. */
  predicate Halves(m: int, s: IntState, t: IntState, u: int, w: int)
    requires m > 0
  {
    t.f == s.f && 2 * t.g == s.g + w && t.v == (2 * s.v) % m && t.r == (s.r + u) % m
  }

  predicate SwapsAndHalves(m: int, s: IntState, t: IntState)
    requires m > 0
  {
    t.f == s.g && 2 * t.g == s.g - s.f && t.v == (2 * s.r) % m && t.r == (s.r - s.v) % m
  }

  lemma StepKinds(m: int, s: IntState)
    requires m > 0 && s.f % 2 == 1
    ensures var t := IntStep(m, s);
            if s.d > 0 && s.g % 2 == 1 then SwapsAndHalves(m, s, t)
            else if s.g % 2 == 1 then Halves(m, s, t, s.v, s.f) else Halves(m, s, t, 0, 0)
  {
    if s.d <= 0 || s.g % 2 == 0 {
      IntStepCases(m, s);
    }
  }

  lemma HalveKeepsCofactors(m: int, a: int, c: int, s: IntState, t: IntState, u: int, w: int)
    requires m > 0 && Cofactors(m, a, c, s) && ((u == s.v && w == s.f) || u == w == 0) && Halves(m, s, t, u, w)
    ensures Cofactors(m, a, 2 * c, t)
  {
    assert a * 0 == 0 == c * 0;
    DoubledResidue(m, a, c, s.v, s.f);
    SummedResidue(m, a, c, s.r, s.g, u, w, t.g);
  }

  lemma SwapKeepsCofactors(m: int, a: int, c: int, s: IntState, t: IntState)
    requires m > 0 && Cofactors(m, a, c, s) && SwapsAndHalves(m, s, t)
    ensures Cofactors(m, a, 2 * c, t)
  {
    DoubledResidue(m, a, c, s.r, s.g);
    SummedResidue(m, a, c, s.r, s.g, s.v, s.f, t.g);
  }

  lemma StepKeepsCofactors(m: int, a: int, c: int, s: IntState)
    requires m > 0 && s.f % 2 == 1 && Cofactors(m, a, c, s)
    ensures Cofactors(m, a, 2 * c, IntStep(m, s))
  {
    StepKinds(m, s);
    var t := IntStep(m, s);
    if s.d > 0 && s.g % 2 == 1 {
      SwapKeepsCofactors(m, a, c, s, t);
    } else if s.g % 2 == 1 {
      HalveKeepsCofactors(m, a, c, s, t, s.v, s.f);
    } else {
      HalveKeepsCofactors(m, a, c, s, t, 0, 0);
    }
  }

  lemma StartKeepsCofactors(m: int, a: int, r: int)
    requires m > 0
    ensures Cofactors(m, a, r, Start(m, a, r))
  {
    assert a * 0 == 0;
    assert a * r == r * a;
    ModFromWitness(r * m, 0, m, r);
  }

  /** Every run, of any length, keeps the bounds and the cofactor congruences. */
  lemma {:induction false} EveryRunKeepsInvariant(m: int, a: int, r: int, k: nat)
    requires m % 2 == 1 && 0 <= a < m && 0 <= r < m
    ensures RunInvariant(m, a, r, k, IntRun(m, Start(m, a, r), k))
  {
    if k == 0 {
      StartKeepsCofactors(m, a, r);
      assert Pow2(0) * r == r;
    } else {
      var s := IntRun(m, Start(m, a, r), k - 1);
      EveryRunKeepsInvariant(m, a, r, k - 1);
      StepKeepsBounds(m, k - 1, s);
      StepKeepsCofactors(m, a, Pow2(k - 1) * r, s);
      assert Pow2(k) * r == 2 * (Pow2(k - 1) * r) by {
        HornerScale(Pow2(k - 1), r);
      }
    }
  }

  lemma HornerScale(p: int, r: int)
    ensures (2 * p) * r == 2 * (p * r)
  {
  }

  /** The moduli whose double stays within the sign bit. */
  predicate Suitable(field: Domain) {
    field.m % 2 == 1 && 2 * field.m < HALF
  }

  lemma FpIsSuitable()
    ensures Suitable(FP)
  {
  }

  /** In every run of the word-level steps, the words decode to the integer run and keep its invariant. */
  lemma {:induction false} WordRunRefines(field: Domain, a: Limbs, r: Limbs, k: nat)
    requires Suitable(field) && field.Canonical(a) && field.Canonical(r) && k <= WORD_HALF - 2
    ensures var t := WordRun(field, StartWords(field, a, r), k);
            Decode(t) == IntRun(field.m, Start(field.m, Eval(a), Eval(r)), k)
            && RunInvariant(field.m, Eval(a), Eval(r), k, Decode(t))
            && field.Canonical(t.v) && field.Canonical(t.r)
  {
    EveryRunKeepsInvariant(field.m, Eval(a), Eval(r), k);
    if k == 0 {
      SmallValues();
    } else {
      WordRunRefines(field, a, r, k - 1);
      StepRefines(field, WordRun(field, StartWords(field, a, r), k - 1));
    }
  }

  // Common divisors.

  predicate CommonDivisor(x: int, y: int, z: int) {
    x > 0 && y % x == 0 && z % x == 0
  }

  /** `n` is the greatest common divisor: it divides both, and every common divisor divides it. */
  ghost predicate IsGcd(n: int, y: int, z: int) {
    CommonDivisor(n, y, z) && forall x :: CommonDivisor(x, y, z) ==> n % x == 0
  }

  lemma DividesSum(x: int, y: int, z: int)
    requires CommonDivisor(x, y, z)
    ensures (y + z) % x == 0 && (y - z) % x == 0 && (2 * y) % x == 0
  {
    ModSmall(0, x);
    ModAdd(y, 0, z, 0, x);
    ModAdd(y, 0, y, 0, x);
  }

  /** An odd divisor of `2 * y` divides `y`. */
  lemma OddDividesHalf(x: int, y: int)
    requires x > 0 && x % 2 == 1 && (2 * y) % x == 0
    ensures y % x == 0
  {
    var q, h := (2 * y) / x, x / 2;
    assert 2 * y == x * q && x == 2 * h + 1;
    assert (2 * h + 1) * q == 2 * (h * q) + q;
    assert q == 2 * (y - h * q);
    assert y == x * (y - h * q) by {
      assert 2 * y == x * (2 * (y - h * q)) == 2 * (x * (y - h * q));
    }
    ModSmall(0, x);
    ModFromWitness(y, 0, x, y - h * q);
  }

  lemma DivisorOfOddIsOdd(x: int, f: int)
    requires x > 0 && f % x == 0 && f % 2 == 1
    ensures x % 2 == 1
  {
    assert f == x * (f / x);
    ModOperands(x, f / x, 2);
  }

  /** A step keeps exactly the common divisors of f and g. */
  lemma StepKeepsDivisors(m: int, s: IntState, x: int)
    requires m > 0 && s.f % 2 == 1
    ensures CommonDivisor(x, s.f, s.g) <==> CommonDivisor(x, IntStep(m, s).f, IntStep(m, s).g)
  {
    var t := IntStep(m, s);
    if s.d > 0 && s.g % 2 == 1 {
      HalvedDifference(x, s.f, s.g, t.g);
    } else {
      IntStepCases(m, s);
      if s.g % 2 == 1 {
        HalvedSum(x, s.f, s.g, t.g);
      } else {
        HalvedAlone(x, s.f, s.g, t.g);
      }
    }
  }

  lemma HalvedDifference(x: int, f: int, g: int, h: int)
    requires f % 2 == 1 && 2 * h == g - f
    ensures CommonDivisor(x, f, g) <==> CommonDivisor(x, g, h)
  {
    if CommonDivisor(x, f, g) {
      DivisorOfOddIsOdd(x, f);
      DividesSum(x, g, f);
      OddDividesHalf(x, h);
    }
    if CommonDivisor(x, g, h) {
      DividesSum(x, h, g);
      DividesSum(x, g, 2 * h);
    }
  }

  lemma HalvedSum(x: int, f: int, g: int, h: int)
    requires f % 2 == 1 && 2 * h == g + f
    ensures CommonDivisor(x, f, g) <==> CommonDivisor(x, f, h)
  {
    if CommonDivisor(x, f, g) {
      DivisorOfOddIsOdd(x, f);
      DividesSum(x, g, f);
      OddDividesHalf(x, h);
    }
    if CommonDivisor(x, f, h) {
      DividesSum(x, h, f);
      DividesSum(x, 2 * h, f);
    }
  }

  lemma HalvedAlone(x: int, f: int, g: int, h: int)
    requires f % 2 == 1 && 2 * h == g
    ensures CommonDivisor(x, f, g) <==> CommonDivisor(x, f, h)
  {
    if CommonDivisor(x, f, g) {
      DivisorOfOddIsOdd(x, f);
      OddDividesHalf(x, h);
    }
    if CommonDivisor(x, f, h) {
      DividesSum(x, h, f);
    }
  }

  lemma {:induction false} RunKeepsDivisors(m: int, a: int, r: int, k: nat, x: int)
    requires m % 2 == 1 && 0 <= a < m && 0 <= r < m
    ensures var s := IntRun(m, Start(m, a, r), k); CommonDivisor(x, s.f, s.g) <==> CommonDivisor(x, m, a)
  {
    if k > 0 {
      RunKeepsDivisors(m, a, r, k - 1, x);
      EveryRunKeepsInvariant(m, a, r, k - 1);
      StepKeepsDivisors(m, IntRun(m, Start(m, a, r), k - 1), x);
    }
  }

  function Abs(x: int): nat {
    if x < 0 then -x else x
  }

  lemma AbsDivides(x: int, y: int)
    requires x > 0
    ensures Abs(y) % x == 0 <==> y % x == 0
  {
    NegationDivides(x, y);
    NegationDivides(x, -y);
  }

  lemma NegationDivides(x: int, y: int)
    requires x > 0
    ensures y % x == 0 ==> (-y) % x == 0
  {
    ModSmall(0, x);
    if y % x == 0 {
      assert -y == 0 + x * -(y / x);
      ModFromWitness(-y, 0, x, -(y / x));
    }
  }

  /** Once g is zero, f is the greatest common divisor up to sign. */
  lemma GcdAtZero(m: int, a: int, r: int, k: nat)
    requires m % 2 == 1 && 0 <= a < m && 0 <= r < m
    requires IntRun(m, Start(m, a, r), k).g == 0
    ensures IsGcd(Abs(IntRun(m, Start(m, a, r), k).f), m, a)
  {
    var s := IntRun(m, Start(m, a, r), k);
    var n := Abs(s.f);
    EveryRunKeepsInvariant(m, a, r, k);
    AbsDivides(n, s.f);
    RemainderUnique(n, n, 1, 0);
    ModSmall(0, n);
    RunKeepsDivisors(m, a, r, k, n);
    forall x | CommonDivisor(x, m, a) ensures n % x == 0 {
      RunKeepsDivisors(m, a, r, k, x);
      AbsDivides(x, s.f);
    }
  }

  /** A zero g stays zero, and f stays what it is. */
  lemma ZeroIsAbsorbing(m: int, s: IntState)
    requires m > 0 && s.g == 0
    ensures IntStep(m, s).g == 0 && IntStep(m, s).f == s.f
  {
  }

  // The inverse.

  /** The inverse of 2^k modulo an odd `m`. */
  function HalfPower(m: int, k: nat): int {
    Pow((m + 1) / 2, k)
  }

  lemma {:induction false} HalfPowerInverts(m: int, k: nat)
    requires m > 0 && m % 2 == 1
    ensures (Pow2(k) * HalfPower(m, k)) % m == 1 % m
  {
    if k > 0 {
      HalfPowerInverts(m, k - 1);
      var h, p, w := (m + 1) / 2, Pow2(k - 1), HalfPower(m, k - 1);
      DoubleAndHalve(m, h, p, w);
    }
  }

  lemma DoubleAndHalve(m: int, h: int, p: int, w: int)
    requires m > 0 && 2 * h == m + 1
    ensures ((2 * p) * (h * w)) % m == (p * w) % m
  {
    var n := p * w;
    assert (2 * p) * (h * w) == (2 * h) * n;
    assert (m + 1) * n == n + m * n;
    ModFromWitness((2 * h) * n, n, m, n);
  }

  /** The number a finished run yields: f * v / 2^k. */
  function RunQuotient(m: int, k: nat, s: IntState): int {
    s.f * s.v * HalfPower(m, k)
  }

  /** If f ends as 1 or -1, then f * v / 2^k is the start value `r` divided by `a`. */
  lemma QuotientAtUnit(m: int, a: int, r: int, k: nat, s: IntState)
    requires m > 0 && m % 2 == 1 && RunInvariant(m, a, r, k, s) && Abs(s.f) == 1
    ensures (a * RunQuotient(m, k, s)) % m == r % m
  {
    HalfPowerInverts(m, k);
    DivideByScale(m, a, s.v, Pow2(k), r, s.f, HalfPower(m, k));
  }

  lemma DivideByScale(m: int, a: int, v: int, p: int, r: int, f: int, w: int)
    requires m > 0 && (a * v) % m == (p * r * f) % m && (p * w) % m == 1 % m && (f == 1 || f == -1)
    ensures (a * (f * v * w)) % m == r % m
  {
    var u := if f == 1 then w else -w;
    assert f * v * w == v * u;
    assert a * (v * u) == (a * v) * u;
    ModMul(a * v, p * r * f, u, m);
    ModMul(p * w, 1, r, m);
    assert (p * r * f) * u == (p * w) * r;
  }

  /** A finished run decides invertibility: `a` has an inverse exactly if f ended as 1 or -1. */
  lemma InvertibleAtUnit(m: int, a: int, k: nat)
    requires m % 2 == 1 && 0 <= a < m && 1 < m
    requires IntRun(m, Start(m, a, 1), k).g == 0
    ensures (exists y: int :: (a * y) % m == 1) <==> Abs(IntRun(m, Start(m, a, 1), k).f) == 1
  {
    var s := IntRun(m, Start(m, a, 1), k);
    EveryRunKeepsInvariant(m, a, 1, k);
    GcdAtZero(m, a, 1, k);
    ModSmall(1, m);
    if Abs(s.f) == 1 {
      QuotientAtUnit(m, a, 1, k, s);
    }
    if y: int :| (a * y) % m == 1 {
      CommonDivisorOfUnit(Abs(s.f), m, a, y);
    }
  }

  lemma CommonDivisorOfUnit(n: int, m: int, a: int, y: int)
    requires m > 1 && CommonDivisor(n, m, a) && (a * y) % m == 1
    ensures n == 1
  {
    var p, q, z := m / n, a / n, (a * y) / m;
    assert (n * q) * y == (n * p) * z + 1;
    assert n * (q * y - p * z) == 1;
    if n > 1 {
      SmallMultiple(n, q * y - p * z);
    }
  }

  /**
   * The words of a finished run give the inverse. In every run of fewer than 2^63 - 1 steps that ends
   * with g zero, f is plus or minus the gcd of the modulus and `a`; if that is 1, then f * v / 2^k
   * times `a` is the start value of r.
   */
  lemma WordsGiveInverse(field: Domain, a: Limbs, r: Limbs, k: nat)
    requires Suitable(field) && field.Canonical(a) && field.Canonical(r) && k <= WORD_HALF - 2
    requires WordRun(field, StartWords(field, a, r), k).g == ZERO
    ensures var s := Decode(WordRun(field, StartWords(field, a, r), k));
            IsGcd(Abs(s.f), field.m, Eval(a))
            && (Abs(s.f) == 1 ==> (Eval(a) * RunQuotient(field.m, k, s)) % field.m == Eval(r))
  {
    WordRunRefines(field, a, r, k);
    var s := Decode(WordRun(field, StartWords(field, a, r), k));
    SmallValues();
    GcdAtZero(field.m, Eval(a), Eval(r), k);
    ModSmall(Eval(r), field.m);
    if Abs(s.f) == 1 {
      QuotientAtUnit(field.m, Eval(a), Eval(r), k, s);
    }
  }

  /** Scaled by the squared radix, the result of a run started at r = 1 is the Montgomery inverse. */
  lemma MontgomeryInverse(field: Domain, a: Limbs, k: nat)
    requires Suitable(field) && field.Valid() && field.Canonical(a) && k <= WORD_HALF - 2
    requires var s := Decode(WordRun(field, StartWords(field, a, ONE), k)); s.g == 0 && Abs(s.f) == 1
    ensures var s := Decode(WordRun(field, StartWords(field, a, ONE), k));
            field.Mul(a, field.Residue(RunQuotient(field.m, k, s) * field.radix * field.radix)) == field.One()
  {
    SmallValues();
    WordRunRefines(field, a, ONE, k);
    var s := Decode(WordRun(field, StartWords(field, a, ONE), k));
    QuotientAtUnit(field.m, Eval(a), 1, k, s);
    var q := RunQuotient(field.m, k, s);
    field.ResidueValue(q * field.radix * field.radix);
    ScaledInverse(Eval(a), q, field.radix, field.inv, field.m);
  }

  lemma ScaledInverse(a: int, q: int, c: int, d: int, m: int)
    requires 1 < m && (a * q) % m == 1 % m && (c * d) % m == 1
    ensures (a * ((q * c * c) % m) * d) % m == c % m
  {
    var z := q * c * c;
    ReducedFactor(z, a, d, m);
    assert a * (z % m) * d == (z % m) * a * d;
    assert z * a * d == (a * q) * (c * (c * d));
    ModMul(a * q, 1, c * (c * d), m);
    ModSmall(1, m);
    ModMul(c * d, 1, c, m);
  }
}
