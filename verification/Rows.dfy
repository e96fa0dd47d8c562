/** The repeated blocks of the Montgomery multiplication: product row, accumulate row, reduction, final select. */
module Rows {
  import opened Arith
  import opened Bits
  import opened Words
  import opened Limbs

  /** The field modulus, its limbs, and -1 / modulus modulo 2^64. */
  const MODULUS: nat := 0x1a0111ea397fe69a4b1ba7b6434bacd764774b84f38512bf6730d2a0f6b0f6241eabfffeb153ffffb9feffffffffaaab
  const M0: Word := 0xb9feffffffffaaab
  const M1: Word := 0x1eabfffeb153ffff
  const M2: Word := 0x6730d2a0f6b0f624
  const M3: Word := 0x64774b84f38512bf
  const M4: Word := 0x4b1ba7b6434bacd7
  const M5: Word := 0x1a0111ea397fe69a
  const M: Limbs := [M0, M1, M2, M3, M4, M5]
  const M_PRIME: Word := 0x89f3fffcfffcfffd

  /** Seven words: an accumulator one limb longer than a field element. */
  type Acc = s: seq<Word> | |s| == 7 witness [0, 0, 0, 0, 0, 0, 0]

  function EvalAcc(s: Acc): nat {
    Value(BASE, s)
  }

  /** The value of an accumulator in Horner form. */
  lemma AccWords()
    ensures forall s: Acc {:trigger EvalAcc(s)} :: EvalAcc(s) == Seven(s[0], s[1], s[2], s[3], s[4], s[5], s[6])
  {
    forall s: Acc ensures EvalAcc(s) == Seven(s[0], s[1], s[2], s[3], s[4], s[5], s[6]) {
      var rest: Limbs := s[1..];
      EvalWords();
      assert EvalAcc(s) == s[0] + BASE * Eval(rest);
    }
  }

  lemma ModulusFacts()
    ensures Eval(M) == MODULUS && MODULUS % 2 == 1 && 2 * MODULUS < RADIX
    ensures (M_PRIME * M0 + 1) % BASE == 0
  {
    EvalWords();
  }

  lemma ScaleSix(x: int, y0: int, y1: int, y2: int, y3: int, y4: int, y5: int)
    ensures x * Six(y0, y1, y2, y3, y4, y5) == Six(x * y0, x * y1, x * y2, x * y3, x * y4, x * y5)
  {
    var z4 := y4 + BASE * y5;
    var z3 := y3 + BASE * z4;
    var z2 := y2 + BASE * z3;
    var z1 := y1 + BASE * z2;
    assert x * z4 == x * y4 + BASE * (x * y5);
    assert x * z3 == x * y3 + BASE * (x * z4);
    assert x * z2 == x * y2 + BASE * (x * z3);
    assert x * z1 == x * y1 + BASE * (x * z2);
    assert x * (y0 + BASE * z1) == x * y0 + BASE * (x * z1);
  }

  /** The six low words of `x * y`; the last high word and the last carry are still to be added. */
  method OpenProductRow(x: Word, y: Limbs) returns (p: Limbs, carry: Bit, high: Word)
    ensures Eval(p) + RADIX * (carry + high) == x * Eval(y)
  {
    EvalWords();
    var lo5, hi5 := MulX(x, y[5]);
    var lo4, hi4 := MulX(x, y[4]);
    var lo3, hi3 := MulX(x, y[3]);
    var lo2, hi2 := MulX(x, y[2]);
    var lo1, hi1 := MulX(x, y[1]);
    var lo0, hi0 := MulX(x, y[0]);
    var p1, c1 := AddCarryX(0, hi0, lo1);
    var p2, c2 := AddCarryX(c1, hi1, lo2);
    var p3, c3 := AddCarryX(c2, hi2, lo3);
    var p4, c4 := AddCarryX(c3, hi3, lo4);
    var p5, c5 := AddCarryX(c4, hi4, lo5);
    ScaleSix(x, y[0], y[1], y[2], y[3], y[4], y[5]);
    p, carry, high := [lo0, p1, p2, p3, p4, p5], c5, hi5;
  }

  /** A product below 2^448 fits seven words. */
  lemma SeventhWord(low: Limbs, p6: Word, c6: Bit, v: nat)
    requires Eval(low) + RADIX * (p6 + BASE * c6) == v < BASE * RADIX
    ensures c6 == 0 && EvalAcc(low + [p6]) == v
  {
    AccWords();
    EvalWords();
  }

  /** `x` times a six-limb number: the carry out of the seventh word, ignored by the code, is zero. */
  method ProductRow(x: Word, y: Limbs) returns (p: Acc)
    ensures EvalAcc(p) == x * Eval(y)
  {
    var low, c5, hi5 := OpenProductRow(x, y);
    var p6, c6 := AddCarryX(c5, hi5, 0);
    EvalBound(y);
    MulBound(x, Eval(y), MAX, RADIX - 1);
    SeventhWord(low, p6, c6, x * Eval(y));
    p := low + [p6];
  }

  /** Adds two seven-word rows, carry by carry. */
  method AddRows(x: Acc, y: Acc) returns (z: Acc, carry: Bit)
    ensures EvalAcc(z) + BASE * RADIX * carry == EvalAcc(x) + EvalAcc(y)
  {
    AccWords();
    var z0, c0 := AddCarryX(0, x[0], y[0]);
    var z1, c1 := AddCarryX(c0, x[1], y[1]);
    var z2, c2 := AddCarryX(c1, x[2], y[2]);
    var z3, c3 := AddCarryX(c2, x[3], y[3]);
    var z4, c4 := AddCarryX(c3, x[4], y[4]);
    var z5, c5 := AddCarryX(c4, x[5], y[5]);
    var z6, c6 := AddCarryX(c5, x[6], y[6]);
    z, carry := [z0, z1, z2, z3, z4, z5, z6], c6;
  }

  /** The quotient word `q` makes the low word of `t + q * m` vanish. */
  lemma LowWordVanishes(t0: int, q: int, h: int, t: int, s0: int, s: int)
    requires q + BASE * h == t0 * M_PRIME
    requires 0 <= s0 < BASE && s0 + BASE * s == t0 + BASE * t + q * MODULUS
    ensures s0 == 0
  {
    var u, n := (M_PRIME * M0 + 1) / BASE, MODULUS / BASE;
    ModulusFacts();
    assert M_PRIME * M0 + 1 == BASE * u && MODULUS == M0 + BASE * n;
    assert s0 == BASE * (t0 * u - h * M0 + q * n + t - s);
  }

  /** A sum of seven words and a top word that stays below 2^512 carries nothing further. */
  lemma DroppedCarry(z: Acc, z7: Word, c7: Bit, v: nat)
    requires EvalAcc(z) + BASE * RADIX * (z7 + BASE * c7) == v < BASE * (BASE * RADIX)
    ensures c7 == 0 && z[0] + BASE * EvalAcc([z[1], z[2], z[3], z[4], z[5], z[6], z7]) == v
  {
    AccWords();
  }

  /** Adds the multiple of the modulus that clears the low word, then drops that word. */
  method ReduceRow(t: Acc, top: Bit) returns (s: Acc, ghost q: Word)
    requires EvalAcc(t) + BASE * RADIX * top + MAX * MODULUS < BASE * (BASE * RADIX)
    ensures BASE * EvalAcc(s) == EvalAcc(t) + BASE * RADIX * top + q * MODULUS
  {
    AccWords();
    var k, h := MulX(t[0], M_PRIME);
    var p := ProductRow(k, M);
    var z, c := AddRows(t, p);
    var z7, c7 := AddCarryX(c, top, 0);
    ModulusFacts();
    MulBound(k, MODULUS, MAX, MODULUS);
    ghost var v := EvalAcc(t) + BASE * RADIX * top + k * MODULUS;
    DroppedCarry(z, z7, c7, v);
    s, q := [z[1], z[2], z[3], z[4], z[5], z[6], z7], k;
    LowWordVanishes(t[0], k, h, Six(t[1], t[2], t[3], t[4], t[5], t[6] + BASE * top), z[0], EvalAcc(s));
  }

  /** Six-word addition chain. */
  method AddLimbs(x: Limbs, y: Limbs) returns (z: Limbs, carry: Bit)
    ensures Eval(z) + RADIX * carry == Eval(x) + Eval(y)
  {
    EvalWords();
    var z0, c0 := AddCarryX(0, x[0], y[0]);
    var z1, c1 := AddCarryX(c0, x[1], y[1]);
    var z2, c2 := AddCarryX(c1, x[2], y[2]);
    var z3, c3 := AddCarryX(c2, x[3], y[3]);
    var z4, c4 := AddCarryX(c3, x[4], y[4]);
    var z5, c5 := AddCarryX(c4, x[5], y[5]);
    z, carry := [z0, z1, z2, z3, z4, z5], c5;
  }

  /** Six-word subtraction chain. */
  method SubLimbs(x: Limbs, y: Limbs) returns (z: Limbs, borrow: Bit)
    ensures Eval(z) - RADIX * borrow == Eval(x) - Eval(y)
  {
    EvalWords();
    var z0, b0 := SubBorrowX(0, x[0], y[0]);
    var z1, b1 := SubBorrowX(b0, x[1], y[1]);
    var z2, b2 := SubBorrowX(b1, x[2], y[2]);
    var z3, b3 := SubBorrowX(b2, x[3], y[3]);
    var z4, b4 := SubBorrowX(b3, x[4], y[4]);
    var z5, b5 := SubBorrowX(b4, x[5], y[5]);
    z, borrow := [z0, z1, z2, z3, z4, z5], b5;
  }

  /** Six-word conditional select. */
  method SelectLimbs(cond: Bit, x: Limbs, y: Limbs) returns (z: Limbs)
    ensures z == if cond == 0 then x else y
  {
    var z0 := CMovZNZ(cond, x[0], y[0]);
    var z1 := CMovZNZ(cond, x[1], y[1]);
    var z2 := CMovZNZ(cond, x[2], y[2]);
    var z3 := CMovZNZ(cond, x[3], y[3]);
    var z4 := CMovZNZ(cond, x[4], y[4]);
    var z5 := CMovZNZ(cond, x[5], y[5]);
    z := [z0, z1, z2, z3, z4, z5];
  }

  /** Subtracts the modulus from a number below twice the modulus unless that borrows. */
  method ConditionalSubtract(s: Limbs, top: Word) returns (r: Limbs)
    requires Eval(s) + RADIX * top < 2 * MODULUS
    ensures Eval(r) == (Eval(s) + RADIX * top) % MODULUS
  {
    var d, b5 := SubLimbs(s, M);
    var d6, b6 := SubBorrowX(b5, top, 0);
    ModulusFacts();
    EvalBound(s);
    EvalBound(d);
    r := SelectLimbs(b6, d, s);
    ReduceOnce(Eval(s) + RADIX * top, MODULUS);
  }

  /** Word-wise `mask & y` for an all-ones or all-zeros mask. */
  method MaskLimbs(mask: Word, y: Limbs) returns (z: Limbs)
    requires mask == 0 || mask == MAX
    ensures z == if mask == MAX then y else ZERO
  {
    forall w: Word ensures And(mask, w) == if mask == MAX then w else 0 {
      MaskSelects(w);
    }
    z := [And(mask, y[0]), And(mask, y[1]), And(mask, y[2]), And(mask, y[3]), And(mask, y[4]), And(mask, y[5])];
  }

  /** Subtraction with the modulus added back after a borrow. */
  method SubtractAndCorrect(x: Limbs, y: Limbs) returns (r: Limbs)
    requires Eval(x) < MODULUS && Eval(y) < MODULUS
    ensures Eval(r) == (Eval(x) - Eval(y)) % MODULUS
  {
    var d, borrow := SubLimbs(x, y);
    var mask := CMovZNZ(borrow, 0, MAX);
    var addend := MaskLimbs(mask, M);
    ModulusFacts();
    var z, carry := AddLimbs(d, addend);
    r := z;
    EvalBound(d);
    EvalBound(r);
    SmallValues();
    ReduceDifference(Eval(x) - Eval(y), MODULUS);
  }

  /** Writes the output array, after all inputs have been read. */
  method Store(out1: array<Word>, r: Limbs)
    requires out1.Length == 6
    modifies out1
    ensures out1[..] == r
  {
    out1[0] := r[0];
    out1[1] := r[1];
    out1[2] := r[2];
    out1[3] := r[3];
    out1[4] := r[4];
    out1[5] := r[5];
  }
}
