/** One Bernstein-Yang division step on machine words, and what it computes. */
module Divstep {
  import opened Arith
  import opened Bits
  import opened Words
  import opened Limbs
  import opened Rows
  import opened Residues
  import opened Montgomery

  const WORD_HALF: int := 0x8000_0000_0000_0000
  const HALF: int := RADIX / 2

  /** The five arguments of a step: a counter, two signed numbers and two residues. */
  datatype WordState = WordState(d: Word, f: Limbs, g: Limbs, v: Limbs, r: Limbs)

  /** The sign bit of -d and the low bit of g decide the swap. */
  predicate Swaps(d: Word, g: Limbs) {
    (BASE - d) % BASE >= WORD_HALF && g[0] % 2 == 1
  }

  /** Two's-complement negation of a 384-bit pattern. */
  ghost function Negated(x: Limbs): Limbs {
    Encode((RADIX - Eval(x)) % RADIX)
  }

  /** Arithmetic shift right by one of a 384-bit pattern. */
  function Halved(x: nat): nat {
    x / 2 + if x >= HALF then HALF else 0
  }

  /** `(g + (g odd ? f : 0)) >> 1`, the sum taken modulo 2^384 and the shift keeping the sign. */
  ghost function HalfSum(g: Limbs, f: Limbs): Limbs {
    var sum := (Eval(g) + if g[0] % 2 == 1 then Eval(f) else 0) % RADIX;
    Encode(Halved(sum))
  }

  /** The conditional swap: (d, f, g, v, r) becomes (-d, g, -f, r, -v). */
  ghost function SwapStep(field: Domain, s: WordState): WordState {
    if Swaps(s.d, s.g) then WordState((BASE - s.d) % BASE, s.g, Negated(s.f), s.r, field.Opp(s.v)) else s
  }

  /** The halving: f is added to an odd g before the shift, and v to r alongside; v doubles. */
  ghost function HalveStep(field: Domain, s: WordState): WordState {
    WordState(
      (s.d + 1) % BASE,
      s.f,
      HalfSum(s.g, s.f),
      field.Add(s.v, s.v),
      field.Add(s.r, if s.g[0] % 2 == 1 then s.v else ZERO))
  }

  /** What a step computes with wrap-around arithmetic, on every input whose residues are canonical. */
  ghost function WrapStep(field: Domain, s: WordState): WordState {
    HalveStep(field, SwapStep(field, s))
  }

  lemma LowBit(x: nat)
    ensures And(x, 1) == x % 2
  {
    AndMask(x, 1);
    assert Pow2(1) == 2;
  }

  /** `(x >> 63) & 1`. */
  method TopBit(x: Word) returns (bit: Bit)
    ensures bit == if x >= WORD_HALF then 1 else 0
  {
    Pow2Values();
    var sign := Shr(x, SIGN_BIT) % 256;
    LowBit(sign);
    bit := And(sign, 1);
  }

  /** `x & 1`. */
  method ParityBit(x: Word) returns (odd: Bit)
    ensures odd == x % 2
  {
    LowBit(x);
    odd := And(x, 1) % 256;
  }

  method AndBits(x: Bit, y: Bit) returns (z: Bit)
    ensures z == if x == 1 && y == 1 then 1 else 0
  {
    LowBit(x);
    AndCommutes(1, y);
    LowBit(y);
    z := And(x, y);
  }

  method SwapBit(d: Word, g0: Word) returns (negated: Word, swap: Bit)
    ensures negated == (BASE - d) % BASE
    ensures swap == if negated >= WORD_HALF && g0 % 2 == 1 then 1 else 0
  {
    var x2;
    negated, x2 := AddCarryX(0, Not(d), 1);
    var sign := TopBit(negated);
    var odd := ParityBit(g0);
    swap := AndBits(sign, odd);
  }

  /** `~x + 1` on six words. */
  method Negate(x: Limbs) returns (z: Limbs)
    ensures z == Negated(x)
  {
    var c: Limbs := [Not(x[0]), Not(x[1]), Not(x[2]), Not(x[3]), Not(x[4]), Not(x[5])];
    var y, carry := AddLimbs([1, 0, 0, 0, 0, 0], c);
    EvalWords();
    assert Eval(y) + RADIX * carry == RADIX - Eval(x);
    DropCarry(y, carry, RADIX - Eval(x));
    EncodeEval(y);
    z := y;
  }

  /** `hi << 63` on 64 bits keeps only the low bit of `hi`. */
  lemma ShiftedOut(hi: nat)
    ensures (hi * WORD_HALF) % BASE == (hi % 2) * WORD_HALF
  {
    RemainderUnique(hi * WORD_HALF, BASE, hi / 2, (hi % 2) * WORD_HALF);
  }

  lemma ShiftOne(x: nat)
    ensures Shr(x, 1) == x / 2
  {
    assert Pow2(1) == 2;
  }

  /** The low bit of the next word moves into the top of this one. */
  lemma PairBits(lo: Word, hi: Word)
    ensures Or(lo / 2, And((hi * WORD_HALF) % BASE, MAX)) == lo / 2 + (hi % 2) * WORD_HALF
  {
    var top := (hi * WORD_HALF) % BASE;
    ShiftedOut(hi);
    LowWord(top);
    ModSmall(top, BASE);
    Pow2Values();
    OrDisjoint(lo / 2, hi % 2, SIGN_BIT);
  }

  method ShiftPair(lo: Word, hi: Word) returns (z: Word)
    ensures 2 * z + lo % 2 == lo + BASE * (hi % 2)
  {
    ShiftOne(lo);
    PairBits(lo, hi);
    z := Or(Shr(lo, 1), And((hi * WORD_HALF) % BASE, MAX));
  }

  /** The top word keeps its sign bit. */
  lemma TopBits(x: Word)
    ensures Or(And(x, WORD_HALF), x / 2) == x / 2 + if x >= WORD_HALF then WORD_HALF else 0
  {
    Pow2Values();
    assert Pow2(SIGN_BIT + 1) == 2 * Pow2(SIGN_BIT);
    AndBit(x, SIGN_BIT);
    OrDisjoint(x / 2, if x >= WORD_HALF then 1 else 0, SIGN_BIT);
    OrCommutes(And(x, WORD_HALF), x / 2);
  }

  method ShiftTop(x: Word) returns (z: Word)
    ensures 2 * z + x % 2 == x + (if x >= WORD_HALF then BASE else 0)
  {
    ShiftOne(x);
    TopBits(x);
    z := Or(And(x, WORD_HALF), Shr(x, 1));
  }

  /** Arithmetic shift right by one across six words. */
  method ShiftRight(x: Limbs) returns (z: Limbs)
    ensures Eval(z) == Halved(Eval(x))
  {
    var z0 := ShiftPair(x[0], x[1]);
    var z1 := ShiftPair(x[1], x[2]);
    var z2 := ShiftPair(x[2], x[3]);
    var z3 := ShiftPair(x[3], x[4]);
    var z4 := ShiftPair(x[4], x[5]);
    var z5 := ShiftTop(x[5]);
    z := [z0, z1, z2, z3, z4, z5];
    SignOfLimbs(x);
    EvalWords();
    assert 2 * Eval(z) + x[0] % 2 == Eval(x) + if x[5] >= WORD_HALF then RADIX else 0;
  }

  /** The top bit of the top word is the sign; the low bit of the low word is the parity. */
  lemma SignOfLimbs(x: Limbs)
    ensures Eval(x) >= HALF <==> x[5] >= WORD_HALF
    ensures Eval(x) % 2 == x[0] % 2
  {
    EvalWords();
    var unit := RADIX / BASE;
    TopWord(Six(x[0], x[1], x[2], x[3], x[4], 0), x[5], unit, WORD_HALF);
    ModFromWitness(Eval(x), x[0], 2, WORD_HALF * Six(x[1], x[2], x[3], x[4], x[5], 0));
  }

  lemma TopWord(low: int, top: int, unit: int, half: int)
    requires 0 <= low < unit
    ensures low + unit * top >= unit * half <==> top >= half
  {
    if top < half {
      assert unit * top <= unit * (half - 1);
    } else {
      assert unit * top >= unit * half;
    }
  }

  /** Drops the carry of a six-word sum. */
  lemma DropCarry(z: Limbs, carry: Bit, x: nat)
    requires Eval(z) + RADIX * carry == x
    ensures Eval(z) == x % RADIX
  {
    EvalBound(z);
    RemainderUnique(x, RADIX, carry, Eval(z));
  }

  method HalveSum(g: Limbs, f: Limbs, odd: Bit) returns (z: Limbs)
    requires odd == g[0] % 2
    ensures z == HalfSum(g, f)
  {
    var addend := SelectLimbs(odd, ZERO, f);
    var sum, carry := AddLimbs(g, addend);
    DropCarry(sum, carry, Eval(g) + Eval(addend));
    z := ShiftRight(sum);
    EncodeEval(z);
  }

  /** `(x + y) mod m` by one conditional subtraction. */
  method AddResidues(x: Limbs, y: Limbs) returns (z: Limbs)
    requires FP.Canonical(x) && FP.Canonical(y)
    ensures z == FP.Add(x, y) && FP.Canonical(z)
  {
    var sum, carry := AddLimbs(x, y);
    z := ConditionalSubtract(sum, carry);
    FP.LimbsOfResidue(z, Eval(x) + Eval(y));
  }

  /** `-x mod m` by one conditional addition. */
  method NegateResidue(x: Limbs) returns (z: Limbs)
    requires FP.Canonical(x)
    ensures z == FP.Opp(x) && FP.Canonical(z)
  {
    z := SubtractAndCorrect(ZERO, x);
    SmallValues();
    FP.LimbsOfResidue(z, 0 - Eval(x));
  }

  method Increment(d: Word) returns (z: Word)
    ensures z == (d + 1) % BASE
  {
    LowWord(d + 1);
    z := And(d + 1, MAX);
  }

  method SelectSwapped(s: WordState) returns (t: WordState)
    requires FP.Canonical(s.v) && FP.Canonical(s.r)
    ensures t == SwapStep(FP, s) && FP.Canonical(t.v) && FP.Canonical(t.r)
  {
    var negated, swap := SwapBit(s.d, s.g[0]);
    var d := CMovZNZ(swap, s.d, negated);
    var f := SelectLimbs(swap, s.f, s.g);
    var negF := Negate(s.f);
    var g := SelectLimbs(swap, s.g, negF);
    var v := SelectLimbs(swap, s.v, s.r);
    var negV := NegateResidue(s.v);
    var r := SelectLimbs(swap, s.r, negV);
    t := WordState(d, f, g, v, r);
  }

  method AddAndHalve(s: WordState) returns (t: WordState)
    requires FP.Canonical(s.v) && FP.Canonical(s.r)
    ensures t == HalveStep(FP, s) && FP.Canonical(t.v) && FP.Canonical(t.r)
  {
    var v := AddResidues(s.v, s.v);
    var odd := ParityBit(s.g[0]);
    var d := Increment(s.d);
    var g := HalveSum(s.g, s.f, odd);
    var addend := SelectLimbs(odd, ZERO, s.v);
    var r := AddResidues(s.r, addend);
    t := WordState(d, s.f, g, v, r);
  }

  /** The five outputs are distinct arrays; any of them may also be an input. */
  method Divstep(out2: array<Word>, out3: array<Word>, out4: array<Word>, out5: array<Word>,
                 arg1: Word, arg2: array<Word>, arg3: array<Word>, arg4: array<Word>, arg5: array<Word>)
    returns (out1: Word)
    requires out2.Length == out3.Length == out4.Length == out5.Length == 6
    requires arg2.Length == arg3.Length == arg4.Length == arg5.Length == 6
    requires out2 != out3 && out2 != out4 && out2 != out5 && out3 != out4 && out3 != out5 && out4 != out5
    requires FP.Canonical(arg4[..]) && FP.Canonical(arg5[..])
    modifies out2, out3, out4, out5
    ensures WordState(out1, out2[..], out3[..], out4[..], out5[..])
         == old(WrapStep(FP, WordState(arg1, arg2[..], arg3[..], arg4[..], arg5[..])))
    ensures FP.Canonical(out4[..]) && FP.Canonical(out5[..])
  {
    var t := SelectSwapped(WordState(arg1, arg2[..], arg3[..], arg4[..], arg5[..]));
    t := AddAndHalve(t);
    out1 := t.d;
    Store(out2, t.f);
    Store(out3, t.g);
    Store(out4, t.v);
    Store(out5, t.r);
  }
}
