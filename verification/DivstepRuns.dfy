/** Division steps on integers, their invariants over runs, and the refinement by the word-level step. */
module DivstepRuns {
  import opened Arith
  import opened Bits
  import opened Words
  import opened Limbs
  import opened Residues
  import opened Montgomery
  import opened Divstep

  datatype IntState = IntState(d: int, f: int, g: int, v: int, r: int)

  /** The division step of Bernstein and Yang (section 8) with the two cofactor residues. */
  function IntStep(m: nat, s: IntState): IntState
    requires m > 0
  {
    if s.d > 0 && s.g % 2 == 1 then
      IntState(1 - s.d, s.g, (s.g - s.f) / 2, (2 * s.r) % m, (s.r - s.v) % m)
    else
      IntState(1 + s.d, s.f, (s.g + (s.g % 2) * s.f) / 2, (2 * s.v) % m, (s.r + (s.g % 2) * s.v) % m)
  }

  // Two's complement.

  function SignedWord(d: Word): int {
    if d < WORD_HALF then d else d - BASE
  }

  function Signed(x: Limbs): int {
    if Eval(x) < HALF then Eval(x) else Eval(x) - RADIX
  }

  function Decode(s: WordState): IntState {
    IntState(SignedWord(s.d), Signed(s.f), Signed(s.g), Eval(s.v), Eval(s.r))
  }

  /** The inputs of one step for which no signed 384-bit sum overflows. */
  predicate InRange(field: Domain, s: WordState) {
    && Signed(s.f) % 2 == 1
    && -HALF < 2 * Signed(s.f) < HALF && -HALF < 2 * Signed(s.g) < HALF
    && field.Canonical(s.v) && field.Canonical(s.r)
  }

  /** The counter values at which the 64-bit counter and the integer counter part. */
  predicate CounterOverflows(d: int, g: int) {
    (d == -WORD_HALF && g % 2 == 1) || (d == WORD_HALF - 1 && g % 2 == 0)
  }

  lemma SignedParity(x: Limbs)
    ensures Signed(x) % 2 == Eval(x) % 2 == x[0] % 2
  {
    SignOfLimbs(x);
    if Eval(x) >= HALF {
      ModFromWitness(Eval(x), Signed(x), 2, HALF);
    }
  }

  lemma NegatedValue(x: Limbs)
    requires Signed(x) != -HALF
    ensures Signed(Negated(x)) == -Signed(x)
  {
    EncodeEval(x);
    var y := RADIX - Eval(x);
    if Eval(x) == 0 {
      RemainderUnique(y, RADIX, 1, 0);
    } else {
      ModSmall(y, RADIX);
    }
  }

  /** The pattern of a sum of signed numbers is the sum of their patterns modulo 2^384. */
  lemma SumPattern(x: nat, y: nat, u: int, v: int)
    requires (u == x || u == x - RADIX) && (v == y || v == y - RADIX) && -HALF <= u + v < HALF
    ensures (x + y) % RADIX == if u + v < 0 then u + v + RADIX else u + v
  {
    var q := (if u == x then 0 else 1) + if v == y then 0 else 1;
    ModFromWitness(x + y, u + v, RADIX, q);
    ReduceDifference(u + v, RADIX);
  }

  /** Halving a pattern with its sign kept halves the number, rounding down. */
  lemma HalvedPattern(z: Limbs, sum: nat, y: int)
    requires -HALF <= y < HALF && sum == (if y < 0 then y + RADIX else y) && Eval(z) == Halved(sum)
    ensures Signed(z) == y / 2
  {
  }

  /** A halved sum of patterns is half the signed sum, while that does not overflow. */
  lemma HalvedSum(z: Limbs, x: nat, y: nat, u: int, v: int)
    requires (u == x || u == x - RADIX) && (v == y || v == y - RADIX) && -HALF <= u + v < HALF
    requires Eval(z) == Halved((x + y) % RADIX)
    ensures Signed(z) == (u + v) / 2
  {
    SumPattern(x, y, u, v);
    HalvedPattern(z, (x + y) % RADIX, u + v);
  }

  lemma HalfSumValue(g: Limbs, f: Limbs)
    requires -HALF < 2 * Signed(f) < HALF && -HALF < 2 * Signed(g) < HALF
    ensures Signed(HalfSum(g, f)) == (Signed(g) + if g[0] % 2 == 1 then Signed(f) else 0) / 2
  {
    if g[0] % 2 == 1 {
      HalvedSum(HalfSum(g, f), Eval(g), Eval(f), Signed(g), Signed(f));
    } else {
      HalvedSum(HalfSum(g, f), Eval(g), 0, Signed(g), 0);
    }
  }

  lemma SwapCondition(d: Word, g: Limbs)
    ensures Swaps(d, g) <==> Signed(g) % 2 == 1 && (SignedWord(d) > 0 || SignedWord(d) == -WORD_HALF)
  {
    SignedParity(g);
    if d == 0 {
      RemainderUnique(BASE - d, BASE, 1, 0);
    } else {
      ModSmall(BASE - d, BASE);
    }
  }

  lemma CounterValue(d: Word)
    ensures SignedWord((d + 1) % BASE) == if d == WORD_HALF - 1 then -WORD_HALF else SignedWord(d) + 1
    ensures SignedWord((BASE - d) % BASE) == if d == WORD_HALF then -WORD_HALF else -SignedWord(d)
  {
    if d == BASE - 1 {
      RemainderUnique(d + 1, BASE, 1, 0);
    } else {
      ModSmall(d + 1, BASE);
    }
    if d == 0 {
      RemainderUnique(BASE - d, BASE, 1, 0);
    } else {
      ModSmall(BASE - d, BASE);
    }
  }

  /** The residues of a step that swaps, and of one that does not. */
  lemma ResidueValues(field: Domain, v: Limbs, r: Limbs)
    requires field.Canonical(r)
    ensures Eval(field.Add(r, r)) == (2 * Eval(r)) % field.m
    ensures Eval(field.Add(field.Opp(v), r)) == (Eval(r) - Eval(v)) % field.m
    ensures Eval(field.Add(r, v)) == (Eval(r) + Eval(v)) % field.m
    ensures Eval(field.Add(r, ZERO)) == Eval(r) % field.m
  {
    field.SumValue(r, r);
    field.SumValue(r, v);
    field.SumValue(r, ZERO);
    SmallValues();
    DifferenceValue(field, v, r);
  }

  lemma DifferenceValue(field: Domain, v: Limbs, r: Limbs)
    ensures Eval(field.Add(field.Opp(v), r)) == (Eval(r) - Eval(v)) % field.m
  {
    field.SumValue(field.Opp(v), r);
    field.OppValue(v);
    NegatePlus(Eval(v), Eval(r), field.m);
  }

  lemma NegatePlus(v: int, r: int, m: int)
    requires m > 0
    ensures ((0 - v) % m + r) % m == (r - v) % m
  {
    ModOperands(0 - v, r, m);
  }

  lemma NegationParity(x: int)
    ensures (-x) % 2 == x % 2
  {
    ModFromWitness(-x, x, 2, -x);
  }

  /** The numbers of a step that swaps. */
  lemma SwapNumbers(f: Limbs, g: Limbs)
    requires -HALF < 2 * Signed(f) < HALF && -HALF < 2 * Signed(g) < HALF && Signed(f) % 2 == 1
    ensures Negated(f)[0] % 2 == 1
    ensures Signed(HalfSum(Negated(f), g)) == (Signed(g) - Signed(f)) / 2
  {
    NegatedValue(f);
    NegationParity(Signed(f));
    SignedParity(Negated(f));
    HalfSumValue(Negated(f), g);
  }

  /** A step that swaps. */
  lemma SwapStepValue(field: Domain, s: WordState)
    requires InRange(field, s) && Swaps(s.d, s.g)
    ensures var t := WrapStep(field, s);
            Signed(t.f) == Signed(s.g) && Signed(t.g) == (Signed(s.g) - Signed(s.f)) / 2
            && Eval(t.v) == (2 * Eval(s.r)) % field.m && Eval(t.r) == (Eval(s.r) - Eval(s.v)) % field.m
            && SignedWord(t.d) == if s.d == WORD_HALF then 1 - WORD_HALF else 1 - SignedWord(s.d)
  {
    var t := SwapStep(field, s);
    SwapNumbers(s.f, s.g);
    CounterValue(s.d);
    CounterValue(t.d);
    SwapCondition(s.d, s.g);
    ResidueValues(field, s.v, s.r);
  }

  /** A step that does not swap. */
  lemma PlainStepValue(field: Domain, s: WordState)
    requires InRange(field, s) && !Swaps(s.d, s.g)
    ensures var t := WrapStep(field, s); var odd := Signed(s.g) % 2 == 1;
            Signed(t.f) == Signed(s.f) && Signed(t.g) == (Signed(s.g) + if odd then Signed(s.f) else 0) / 2
            && Eval(t.v) == (2 * Eval(s.v)) % field.m
            && Eval(t.r) == (Eval(s.r) + if odd then Eval(s.v) else 0) % field.m
            && SignedWord(t.d) == if s.d == WORD_HALF - 1 then -WORD_HALF else 1 + SignedWord(s.d)
  {
    SignedParity(s.g);
    HalfSumValue(s.g, s.f);
    CounterValue(s.d);
    ResidueValues(field, s.v, s.r);
    ResidueValues(field, s.r, s.v);
  }

  /** The integer step of an even and of an odd g, without the product by a bit. */
  lemma IntStepCases(m: int, s: IntState)
    requires m > 0 && (s.d <= 0 || s.g % 2 == 0)
    ensures var odd := s.g % 2 == 1;
            IntStep(m, s) == IntState(1 + s.d, s.f, (s.g + if odd then s.f else 0) / 2, (2 * s.v) % m,
                                      (s.r + if odd then s.v else 0) % m)
  {
  }

  /** The word-level step computes the integer step exactly when the counter does not overflow. */
  lemma StepRefines(field: Domain, s: WordState)
    requires InRange(field, s)
    ensures Decode(WrapStep(field, s)) == IntStep(field.m, Decode(s))
       <==> !CounterOverflows(SignedWord(s.d), Signed(s.g))
  {
    SwapCondition(s.d, s.g);
    if Swaps(s.d, s.g) {
      SwapStepValue(field, s);
      if SignedWord(s.d) == -WORD_HALF {
        HalvesDiffer(Signed(s.g), Signed(s.f));
        IntStepCases(field.m, Decode(s));
      }
    } else {
      PlainStepValue(field, s);
      IntStepCases(field.m, Decode(s));
    }
  }

  lemma HalvesDiffer(g: int, f: int)
    requires f % 2 == 1 && g % 2 == 1
    ensures (g - f) / 2 != (g + f) / 2
  {
  }
}
