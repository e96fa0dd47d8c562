/** The 64-bit word primitives: add with carry, subtract with borrow, widening multiply, select. */
module Words {
  import opened Arith
  import opened Bits

  const BASE: nat := 0x1_0000_0000_0000_0000
  const MAX: nat := 0xffff_ffff_ffff_ffff

  const WORD_BITS: nat := 64
  const SIGN_BIT: nat := 63
  const BYTE_BITS: nat := 8

  type Word = x: nat | x < BASE

  /** A carry, a borrow or a condition: the C type is a byte, its documented range is 0 to 1. */
  type Bit = x: nat | x < 2

  /** `x >> k`, rounding towards minus infinity as the arithmetic shift of a negative number does. */
  function Shr(x: int, k: nat): int {
    x / Pow2(k)
  }

  /** `~x` on 64 bits. */
  function Not(x: Word): Word {
    MAX - x
  }

  lemma Pow2Values()
    ensures Pow2(BYTE_BITS) == 0x100 && Pow2(SIGN_BIT) == 0x8000_0000_0000_0000 && Pow2(WORD_BITS) == BASE
  {
    Pow2Adds(8, 8);
    Pow2Adds(16, 16);
    Pow2Adds(32, 32);
    assert Pow2(64) == 2 * Pow2(63);
  }

  lemma LowWord(x: nat)
    ensures And(x, MAX) == x % BASE
  {
    Pow2Values();
    AndMask(x, WORD_BITS);
  }

  /** The documented postconditions (remainder and quotient by 2^64) and the split are the same statement. */
  lemma SplitWord(x: int, lo: int, hi: int)
    ensures (0 <= lo < BASE && x == lo + BASE * hi) <==> (lo == x % BASE && hi == x / BASE)
  {
  }

  /** `x & 0xffffffffffffffff` and `x >> 64` split an unsigned 128-bit number. */
  method Split(x: nat) returns (low: Word, high: nat)
    ensures x == low + BASE * high
  {
    LowWord(x);
    Pow2Values();
    low, high := And(x, MAX), Shr(x, WORD_BITS);
  }

  lemma DropHigh(x: int)
    ensures (x % (BASE * BASE)) % BASE == x % BASE
  {
    var q := x / (BASE * BASE);
    assert x % (BASE * BASE) == x + BASE * (BASE * -q);
    ModFromWitness(x % (BASE * BASE), x, BASE, BASE * -q);
  }

  /** The same for a signed number: the operand of `&` is its 128-bit two's-complement pattern. */
  method SplitSigned(x: int) returns (low: Word, high: int)
    ensures x == low + BASE * high
  {
    LowWord(x % (BASE * BASE));
    DropHigh(x);
    Pow2Values();
    low, high := And(x % (BASE * BASE), MAX), Shr(x, WORD_BITS);
  }

  method AddCarryX(arg1: Bit, arg2: Word, arg3: Word) returns (out1: Word, out2: Bit)
    ensures out1 + BASE * out2 == arg1 + arg2 + arg3
  {
    var x1 := arg1 + arg2 + arg3;
    var x2, x3 := Split(x1);
    out1, out2 := x2, x3 % 256;
  }

  method SubBorrowX(arg1: Bit, arg2: Word, arg3: Word) returns (out1: Word, out2: Bit)
    ensures out1 - BASE * out2 == arg2 - arg1 - arg3
  {
    var x1: int := arg2 - arg1 - arg3;
    var x3, x2 := SplitSigned(x1);
    out1, out2 := x3, (0 - x2) % 256;
  }

  method MulX(arg1: Word, arg2: Word) returns (out1: Word, out2: Word)
    ensures out1 + BASE * out2 == arg1 * arg2
  {
    MulBound(arg1, arg2, MAX, MAX);
    var x1 := arg1 * arg2;
    var x2, x3 := Split(x1);
    out1, out2 := x2, x3 % BASE;
  }

  lemma MaskSelects(x: Word)
    ensures And(MAX, x) == x && And(0, x) == 0
  {
    AndCommutes(MAX, x);
    LowWord(x);
  }

  method CMovZNZ(arg1: Bit, arg2: Word, arg3: Word) returns (out1: Word)
    ensures out1 == if arg1 == 0 then arg2 else arg3
  {
    var x1 := if arg1 != 0 then 1 else 0;
    var x2 := (0 - x1) % BASE;
    MaskSelects(arg2);
    MaskSelects(arg3);
    var x3 := Or(And(x2, arg3), And(Not(x2), arg2));
    out1 := x3;
  }
}
