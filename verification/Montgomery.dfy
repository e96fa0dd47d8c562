/** Word-by-word Montgomery multiplication. */
module Montgomery {
  import opened Arith
  import opened Words
  import opened Limbs
  import opened Rows
  import opened Residues
  import opened RowInvariant

  /** (2^64)^-1 modulo the modulus, and its sixth power: the inverse of the radix. */
  const BASE_INV: nat := 0x0e035b9b1e00bc8e2cffcd0f221a175b5fb6d192233b3b63622385e49d0feeb05d4f098d2923b9a36a4aaa14be07a408
  const RADIX_INV: nat := 0x14fec701e8fb0ce9ed5e64273c4f538b1797ab1458a88de9343ea97914956dc87fe11274d898fafbf4d38259380b4820

  /** The base field of BLS12-381. */
  const FP: Domain := Domain(MODULUS, RADIX, RADIX_INV)

  lemma FpIsValid()
    ensures FP.Valid() && MODULUS % 2 == 1
    ensures (BASE * BASE_INV) % MODULUS == 1 && RADIX_INV == Pow(BASE_INV, 6) % MODULUS
  {
    var e := BASE_INV;
    assert Pow(e, 2) == e * (e * 1);
    assert Pow(e, 4) == e * (e * Pow(e, 2));
    assert Pow(e, 6) == e * (e * Pow(e, 4));
  }

  /** Six rows divide the product by the radix: what they leave is the Montgomery product. */
  lemma QuotientOfRun(s: seq<nat>, q: seq<nat>, r: Limbs, a: Limbs, b: nat)
    requires RowRun(BASE, MODULUS, s, q, a, b) && |q| == 6 && Eval(r) == s[6] % MODULUS
    ensures r == FP.Residue(Eval(a) * b * FP.inv) && FP.Canonical(r)
    ensures (FP.radix * Eval(r)) % MODULUS == (Eval(a) * b) % MODULUS
  {
    AfterEveryRow(BASE, MODULUS, s, q, a, b, 6);
    var multiple: nat :| AfterRows(BASE, MODULUS, s[6], 6, a, b, multiple);
    RadixIsPower();
    assert a[..6] == a;
    FpIsValid();
    FP.Divided(s[6], r, Eval(a) * b, multiple);
  }

  /**
   * One row of the multiplication by word `i` of `a`: accumulate `x * y`, then reduce by one word. The result stays
   * below `y + m` and no carry is lost.
   */
  method Row(s: Acc, x: Word, y: Limbs, ghost a: Limbs, ghost i: nat) returns (t: Acc, ghost q: Word)
    requires FP.Canonical(y) && EvalAcc(s) < Eval(y) + MODULUS && i < 6 && x == a[i]
    ensures RowFrom(BASE, MODULUS, EvalAcc(s), EvalAcc(t), a[i], Eval(y), q)
    ensures EvalAcc(t) < Eval(y) + MODULUS
  {
    var p := ProductRow(x, y);
    var u, top := AddRows(s, p);
    MulBound(x, Eval(y), MAX, MODULUS);
    t, q := ReduceRow(u, top);
    RowBound(BASE, EvalAcc(s), EvalAcc(t), x, Eval(y), MODULUS, q);
  }

  /** The first row, which has no accumulator to add. */
  method FirstRow(x: Word, y: Limbs, ghost a: Limbs) returns (t: Acc, ghost q: Word)
    requires FP.Canonical(y) && x == a[0]
    ensures RowFrom(BASE, MODULUS, 0, EvalAcc(t), a[0], Eval(y), q)
    ensures EvalAcc(t) < Eval(y) + MODULUS
  {
    var p := ProductRow(x, y);
    MulBound(x, Eval(y), MAX, MODULUS);
    t, q := ReduceRow(p, 0);
    RowBound(BASE, 0, EvalAcc(t), x, Eval(y), MODULUS, q);
  }

  /** Below `2m` the seventh word is zero, so narrowing it to a byte loses nothing. */
  lemma TopWordIsZero(s: Acc)
    requires EvalAcc(s) < 2 * MODULUS
    ensures s[6] == 0 && s[6 := s[6] % 256] == s && EvalAcc(s) == Eval(s[..6])
  {
    AccWords();
    EvalWords();
  }

  /** The top word after the first row is cast to a byte: nothing is lost. */
  method NarrowTop(s: Acc) returns (t: Acc)
    requires EvalAcc(s) < 2 * MODULUS
    ensures t == s
  {
    TopWordIsZero(s);
    t := s[6 := s[6] % 256];
  }

  /**
   * State between rows: the run so far ends in the accumulator `t`, which is below `y + m`. The word of `a`
   * that the next row multiplies is the one the run has reached.
   */
  ghost predicate Running(t: Acc, s: seq<nat>, q: seq<nat>, a: Limbs, y: Limbs) {
    RowRun(BASE, MODULUS, s, q, a, Eval(y)) && s[|q|] == EvalAcc(t) < Eval(y) + MODULUS
  }

  /** The first row, narrowed, starts a run. */
  method StartRows(x: Word, y: Limbs, ghost a: Limbs) returns (t: Acc, ghost s: seq<nat>, ghost q: seq<nat>)
    requires FP.Canonical(y) && x == a[0]
    ensures Running(t, s, q, a, y) && |q| == 1
  {
    ghost var k;
    t, k := FirstRow(x, y, a);
    t := NarrowTop(t);
    ExtendRun(BASE, MODULUS, [0], [], a, Eval(y), EvalAcc(t), k);
    s, q := [0] + [EvalAcc(t)], [] + [k];
  }

  /** A further row extends the run. */
  method NextRow(t: Acc, x: Word, y: Limbs, ghost s: seq<nat>, ghost q: seq<nat>, ghost a: Limbs)
    returns (u: Acc, ghost s': seq<nat>, ghost q': seq<nat>)
    requires FP.Canonical(y) && |q| < 6 && x == a[|q|] && Running(t, s, q, a, y)
    ensures Running(u, s', q', a, y) && |q'| == |q| + 1
  {
    ghost var k;
    u, k := Row(t, x, y, a, |q|);
    ExtendRun(BASE, MODULUS, s, q, a, Eval(y), EvalAcc(u), k);
    s', q' := s + [EvalAcc(u)], q + [k];
  }

  /** The six rows, which differ only in the word of `a` they use. */
  method SixRows(a: Limbs, y: Limbs) returns (t: Acc, ghost s: seq<nat>, ghost q: seq<nat>)
    requires FP.Canonical(y)
    ensures Running(t, s, q, a, y) && |q| == 6
  {
    t, s, q := StartRows(a[0], y, a);
    for i := 1 to 6
      invariant Running(t, s, q, a, y) && |q| == i
    {
      t, s, q := NextRow(t, a[i], y, s, q, a);
    }
  }

  /** The final subtraction and select. */
  method Finish(s: Acc) returns (r: Limbs)
    requires EvalAcc(s) < 2 * MODULUS
    ensures Eval(r) == EvalAcc(s) % MODULUS
  {
    TopWordIsZero(s);
    r := ConditionalSubtract(s[..6], s[6]);
  }

  /** The multiplication on words, before anything is written. */
  method Product(a: Limbs, y: Limbs) returns (r: Limbs)
    requires FP.Canonical(y)
    ensures r == FP.Mul(a, y) && FP.Canonical(r)
    ensures (FP.radix * Eval(r)) % MODULUS == (Eval(a) * Eval(y)) % MODULUS
  {
    var t, s, q := SixRows(a, y);
    r := Finish(t);
    QuotientOfRun(s, q, r, a, Eval(y));
  }

  /** `out1` may be the same array as `arg1` or `arg2`: it is written after all reads. */
  method Mul(out1: array<Word>, arg1: array<Word>, arg2: array<Word>)
    requires out1.Length == arg1.Length == arg2.Length == 6
    requires FP.Canonical(arg2[..])
    modifies out1
    ensures out1[..] == FP.Mul(old(arg1[..]), old(arg2[..]))
    ensures FP.Canonical(out1[..])
    ensures (RADIX * Eval(out1[..])) % MODULUS == (Eval(old(arg1[..])) * Eval(old(arg2[..]))) % MODULUS
  {
    var r := Product(arg1[..], arg2[..]);
    Store(out1, r);
  }
}
