/** The remaining field operations on limb arrays. Output arrays may be input arrays. */
module Field {
  import opened Arith
  import opened Bits
  import opened Words
  import opened Limbs
  import opened Rows
  import opened Residues
  import opened Montgomery

  method Square(out1: array<Word>, arg1: array<Word>)
    requires out1.Length == arg1.Length == 6
    requires FP.Canonical(arg1[..])
    modifies out1
    ensures out1[..] == FP.Mul(old(arg1[..]), old(arg1[..]))
    ensures FP.Canonical(out1[..])
    ensures (RADIX * Eval(out1[..])) % MODULUS == (Eval(old(arg1[..])) * Eval(old(arg1[..]))) % MODULUS
  {
    var r := Product(arg1[..], arg1[..]);
    Store(out1, r);
  }

  method Add(out1: array<Word>, arg1: array<Word>, arg2: array<Word>)
    requires out1.Length == arg1.Length == arg2.Length == 6
    requires FP.Canonical(arg1[..]) && FP.Canonical(arg2[..])
    modifies out1
    ensures out1[..] == FP.Add(old(arg1[..]), old(arg2[..]))
    ensures FP.Canonical(out1[..])
  {
    var s, carry := AddLimbs(arg1[..], arg2[..]);
    var r := ConditionalSubtract(s, carry);
    FP.LimbsOfResidue(r, Eval(arg1[..]) + Eval(arg2[..]));
    Store(out1, r);
  }

  method Sub(out1: array<Word>, arg1: array<Word>, arg2: array<Word>)
    requires out1.Length == arg1.Length == arg2.Length == 6
    requires FP.Canonical(arg1[..]) && FP.Canonical(arg2[..])
    modifies out1
    ensures out1[..] == FP.Sub(old(arg1[..]), old(arg2[..]))
    ensures FP.Canonical(out1[..])
  {
    var r := SubtractAndCorrect(arg1[..], arg2[..]);
    FP.LimbsOfResidue(r, Eval(arg1[..]) - Eval(arg2[..]));
    Store(out1, r);
  }

  method Opp(out1: array<Word>, arg1: array<Word>)
    requires out1.Length == arg1.Length == 6
    requires FP.Canonical(arg1[..])
    modifies out1
    ensures out1[..] == FP.Opp(old(arg1[..]))
    ensures FP.Canonical(out1[..])
  {
    SmallValues();
    var r := SubtractAndCorrect(ZERO, arg1[..]);
    FP.LimbsOfResidue(r, 0 - Eval(arg1[..]));
    Store(out1, r);
  }

  /** The `|` of two words is a word, and zero only if both are. */
  lemma OrWord(x: Word, y: Word)
    ensures Or(x, y) < BASE && (Or(x, y) == 0 <==> x == 0 && y == 0)
  {
    Pow2Values();
    OrBound(x, y, WORD_BITS);
    OrZero(x, y);
  }

  method Nonzero(arg1: array<Word>) returns (out1: Word)
    requires arg1.Length == 6
    ensures out1 == 0 <==> arg1[..] == ZERO
  {
    var x5 := Or(arg1[5], 0);
    OrWord(arg1[5], 0);
    var x4 := Or(arg1[4], x5);
    OrWord(arg1[4], x5);
    var x3 := Or(arg1[3], x4);
    OrWord(arg1[3], x4);
    var x2 := Or(arg1[2], x3);
    OrWord(arg1[2], x3);
    var x1 := Or(arg1[1], x2);
    OrWord(arg1[1], x2);
    var x0 := Or(arg1[0], x1);
    OrWord(arg1[0], x1);
    out1 := x0;
  }

  method SelectZNZ(out1: array<Word>, arg1: Bit, arg2: array<Word>, arg3: array<Word>)
    requires out1.Length == arg2.Length == arg3.Length == 6
    modifies out1
    ensures out1[..] == if arg1 == 0 then old(arg2[..]) else old(arg3[..])
  {
    var r := SelectLimbs(arg1, arg2[..], arg3[..]);
    Store(out1, r);
  }
}
