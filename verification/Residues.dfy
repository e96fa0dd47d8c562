/** Residues of a symbolic modulus as six-limb arrays: the Montgomery domain and its ring laws. */
module Residues {
  import opened Arith
  import opened Words
  import opened Limbs

  type Modulus = m: nat | 1 < m < RADIX witness 2

  /** A modulus, a radix and the inverse of the radix. */
  datatype Domain = Domain(m: Modulus, radix: nat, inv: nat) {

    predicate Valid() {
      (radix * inv) % m == 1
    }

    /** A six-limb array holding a residue in `[0, m)`. */
    predicate Canonical(a: Limbs) {
      Eval(a) < m
    }

    /** The canonical limbs of an integer's residue. */
    ghost function Residue(x: int): Limbs {
      Encode(x % m)
    }

    /** The Montgomery product, `a * b / radix` modulo `m`. */
    ghost function Mul(a: Limbs, b: Limbs): Limbs {
      Residue(Eval(a) * Eval(b) * inv)
    }

    ghost function Add(a: Limbs, b: Limbs): Limbs {
      Residue(Eval(a) + Eval(b))
    }

    ghost function Sub(a: Limbs, b: Limbs): Limbs {
      Residue(Eval(a) - Eval(b))
    }

    ghost function Opp(a: Limbs): Limbs {
      Residue(0 - Eval(a))
    }

    /** What an array stands for when it is read in the Montgomery domain, as limbs and as a number. */
    ghost function FromMont(a: Limbs): Limbs {
      Residue(Eval(a) * inv)
    }

    ghost function Meaning(a: Limbs): nat {
      Eval(FromMont(a))
    }

    /** The Montgomery form of one. */
    ghost function One(): Limbs {
      Residue(radix)
    }

    lemma ResidueValue(x: int)
      ensures Eval(Residue(x)) == x % m && Canonical(Residue(x))
    {
    }

    /** Limbs with the value of a residue are the limbs of that residue. */
    lemma LimbsOfResidue(r: Limbs, x: int)
      requires Eval(r) == x % m
      ensures r == Residue(x) && Canonical(r)
    {
      EncodeEval(r);
    }

    lemma SumValue(a: Limbs, b: Limbs)
      ensures Eval(Add(a, b)) == (Eval(a) + Eval(b)) % m && Canonical(Add(a, b))
    {
    }

    lemma OppValue(a: Limbs)
      ensures Eval(Opp(a)) == (0 - Eval(a)) % m && Canonical(Opp(a))
    {
    }

    /** If `radix * s` is `n` plus a multiple of `m`, then the residue of `s` is that of `n` over the radix. */
    lemma Divided(s: nat, r: Limbs, n: int, multiple: int)
      requires Valid() && radix * s == n + multiple * m && Eval(r) == s % m
      ensures r == Residue(n * inv) && Canonical(r) && (radix * Eval(r)) % m == n % m
    {
      DivideByUnit(s, Eval(r), radix, inv, n, multiple, m);
      LimbsOfResidue(r, n * inv);
    }

    /** What each operation computes, as a number below `m`. */
    lemma Values(a: Limbs, b: Limbs)
      ensures Eval(Mul(a, b)) == (Eval(a) * Eval(b) * inv) % m && Canonical(Mul(a, b))
      ensures Eval(Add(a, b)) == (Eval(a) + Eval(b)) % m && Canonical(Add(a, b))
      ensures Eval(Sub(a, b)) == (Eval(a) - Eval(b)) % m && Canonical(Sub(a, b))
      ensures Eval(Opp(a)) == (0 - Eval(a)) % m && Canonical(Opp(a))
      ensures Meaning(a) == (Eval(a) * inv) % m < m && Canonical(FromMont(a))
      ensures Eval(ZERO) == 0 && Canonical(ZERO)
    {
      SmallValues();
      ResidueValue(Eval(a) * Eval(b) * inv);
      ResidueValue(Eval(a) + Eval(b));
      ResidueValue(Eval(a) - Eval(b));
      ResidueValue(0 - Eval(a));
      ResidueValue(Eval(a) * inv);
    }

    // The documented contracts: each operation acts on meanings as its integer counterpart does.

    lemma MeaningOfMul(a: Limbs, b: Limbs)
      ensures Meaning(Mul(a, b)) == (Meaning(a) * Meaning(b)) % m
    {
      Values(a, b);
      Values(b, a);
      Values(Mul(a, b), a);
      ScaledProduct(Eval(a), Eval(b), inv, m);
    }

    lemma MeaningOfAdd(a: Limbs, b: Limbs)
      ensures Meaning(Add(a, b)) == (Meaning(a) + Meaning(b)) % m
    {
      Values(a, b);
      Values(b, a);
      Values(Add(a, b), a);
      ScaledSum(Eval(a), Eval(b), inv, m);
    }

    lemma MeaningOfSub(a: Limbs, b: Limbs)
      ensures Meaning(Sub(a, b)) == (Meaning(a) - Meaning(b)) % m
    {
      Values(a, b);
      Values(b, a);
      Values(Sub(a, b), a);
      ScaledSum(Eval(a), Eval(b), inv, m);
    }

    lemma MeaningOfOpp(a: Limbs)
      ensures Meaning(Opp(a)) == (0 - Meaning(a)) % m
    {
      Values(ZERO, a);
      ModSmall(0, m);
      MeaningOfSub(ZERO, a);
    }

    /** Multiplying a meaning by the radix recovers the array. */
    lemma ArrayOfMeaning(a: Limbs)
      requires Valid() && Canonical(a)
      ensures a == Residue(Meaning(a) * radix)
    {
      var x := Eval(a);
      Values(a, a);
      ModOperands(x * inv, radix, m);
      UndoFactor(x, inv, radix, m);
      LimbsOfResidue(a, Meaning(a) * radix);
    }

    /** Canonical arrays with the same meaning are equal limb for limb. */
    lemma MeaningInjective(a: Limbs, b: Limbs)
      requires Valid() && Canonical(a) && Canonical(b) && Meaning(a) == Meaning(b)
      ensures a == b
    {
      ArrayOfMeaning(a);
      ArrayOfMeaning(b);
    }

    // Ring laws, as equalities of six limbs.

    lemma MulAssociates(a: Limbs, b: Limbs, c: Limbs)
      ensures Mul(Mul(a, b), c) == Mul(a, Mul(b, c))
    {
      Values(a, b);
      Values(b, c);
      ProductAssociates(Eval(a), Eval(b), Eval(c), inv, m);
    }

    lemma MulCommutes(a: Limbs, b: Limbs)
      ensures Mul(a, b) == Mul(b, a)
    {
      assert Eval(a) * Eval(b) == Eval(b) * Eval(a);
    }

    lemma MulDistributes(a: Limbs, b: Limbs, c: Limbs)
      ensures Mul(a, Add(b, c)) == Add(Mul(a, b), Mul(a, c))
    {
      Values(b, c);
      Values(a, b);
      Values(a, c);
      ProductDistributes(Eval(a), Eval(b), Eval(c), inv, m);
    }

    lemma MulOne(a: Limbs)
      requires Valid() && Canonical(a)
      ensures Mul(a, One()) == a
    {
      ScaledUnit(Eval(a), radix, inv, m);
      LimbsOfResidue(a, Eval(a) * Eval(One()) * inv);
    }

    lemma AddAssociates(a: Limbs, b: Limbs, c: Limbs)
      ensures Add(Add(a, b), c) == Add(a, Add(b, c))
    {
      Values(a, b);
      Values(b, c);
      SumAssociates(Eval(a), Eval(b), Eval(c), m);
    }

    lemma AddCommutes(a: Limbs, b: Limbs)
      ensures Add(a, b) == Add(b, a)
    {
    }

    lemma AddZero(a: Limbs)
      requires Canonical(a)
      ensures Add(a, ZERO) == a
    {
      SmallValues();
      ModSmall(Eval(a), m);
      LimbsOfResidue(a, Eval(a) + Eval(ZERO));
    }

    lemma AddOpp(a: Limbs)
      ensures Add(a, Opp(a)) == ZERO
    {
      var x := Eval(a);
      Values(a, a);
      ModOperands(0 - x, x, m);
      ModSmall(0, m);
      LimbsOfResidue(ZERO, x + Eval(Opp(a)));
    }

    lemma SubUndoesAdd(a: Limbs, b: Limbs)
      requires Canonical(a)
      ensures Sub(Add(a, b), b) == a
    {
      var x, y := Eval(a), Eval(b);
      Values(a, b);
      ModOperands(x + y, y, m);
      ModSmall(x, m);
      LimbsOfResidue(a, Eval(Add(a, b)) - y);
    }

    /** The test `nonzero(sub(a, b))` decides equality. */
    lemma DifferenceZero(a: Limbs, b: Limbs)
      requires Canonical(a) && Canonical(b)
      ensures Sub(a, b) == ZERO <==> a == b
    {
      Values(a, b);
      ReduceDifference(Eval(a) - Eval(b), m);
      EvalInjective(Sub(a, b), ZERO);
      EvalInjective(a, b);
    }

    /** `nonzero` may be asked in the Montgomery domain: only zero stands for zero. */
    lemma ZeroMeansZero(a: Limbs)
      requires Valid() && Canonical(a)
      ensures a == ZERO <==> Meaning(a) == 0
    {
      Values(ZERO, a);
      ModSmall(0, m);
      if Meaning(a) == 0 {
        MeaningInjective(a, ZERO);
      }
    }

    // The two domains.

    lemma FromMontIsMulByOne(a: Limbs)
      ensures FromMont(a) == Mul(a, ONE)
    {
      SmallValues();
    }

    /** Multiplying by the squared radix enters the Montgomery domain; translating out leaves it. */
    lemma DomainRoundTrip(x: Limbs, r2: Limbs)
      requires Valid() && Canonical(x) && Eval(r2) % m == (radix * radix) % m
      ensures FromMont(Mul(x, r2)) == x
      ensures Mul(FromMont(x), r2) == x
    {
      Values(x, r2);
      EnterAndLeave(Eval(x), radix, inv, Eval(r2), m);
      LimbsOfResidue(x, Eval(Mul(x, r2)) * inv);
      LimbsOfResidue(x, Eval(FromMont(x)) * Eval(r2) * inv);
    }
  }
}
