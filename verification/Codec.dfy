/** Little-endian bytes of a six-limb array, and back. */
module Codec {
  import opened Arith
  import opened Bits
  import opened Words
  import opened Limbs
  import opened Rows

  type Byte = x: nat | x < 256

  /** The 48 bytes an array is serialised to. */
  function Serialise(a: Limbs): seq<nat> {
    Digits(256, Eval(a), 48)
  }

  /** The array 48 bytes are read into. */
  ghost function Deserialise(s: seq<nat>): Limbs
    requires |s| == 48 && AllBelow(256, s)
  {
    BytesBound(s);
    Encode(Value(256, s))
  }

  lemma BytesArePower()
    ensures Pow(256, 8) == BASE && Pow(256, 48) == RADIX
  {
    PowAdds(256, 8, 8);
    PowAdds(256, 16, 16);
    PowAdds(256, 32, 16);
  }

  lemma BytesBound(s: seq<nat>)
    requires |s| == 48 && AllBelow(256, s)
    ensures Value(256, s) < RADIX
  {
    BytesArePower();
    ValueBound(256, s);
  }

  lemma LowByte(x: nat)
    ensures And(x, 255) == x % 256
  {
    Pow2Values();
    AndMask(x, BYTE_BITS);
  }

  /** `x >> 8` and `x & 0xff`. */
  method DropByte(x: Word) returns (rest: Word, b: Byte)
    ensures x == b + 256 * rest
  {
    Pow2Values();
    LowByte(x);
    rest, b := Shr(x, BYTE_BITS), And(x, 255);
  }

  /** One limb, shifted down eight bits at a time; the last byte is a narrowing cast of what is left. */
  method WordBytes(x: Word) returns (s: seq<Byte>)
    ensures |s| == 8 && Value(256, s) == x
  {
    var x1, b0 := DropByte(x);
    var x2, b1 := DropByte(x1);
    var x3, b2 := DropByte(x2);
    var x4, b3 := DropByte(x3);
    var x5, b4 := DropByte(x4);
    var x6, b5 := DropByte(x5);
    var x7, b6 := DropByte(x6);
    var b7 := x7 % 256;
    assert x == b0 + 256 * (b1 + 256 * (b2 + 256 * (b3 + 256 * (b4 + 256 * (b5 + 256 * (b6 + 256 * b7))))));
    s := [b0, b1, b2, b3, b4, b5, b6, b7];
    ValueOfEight(s);
  }

  lemma ValueOfEight(s: seq<nat>)
    requires |s| == 8
    ensures Value(256, s) == s[0] + 256 * (s[1] + 256 * (s[2] + 256 * (s[3] + 256 * (s[4] + 256 * (s[5] + 256 * (s[6] + 256 * s[7]))))))
  {
    assert Value(256, s[1..][1..][1..][1..][1..][1..][1..]) == s[7];
    assert Value(256, s[1..][1..][1..][1..][1..][1..]) == s[6] + 256 * s[7];
    assert Value(256, s[1..][1..][1..][1..][1..]) == s[5] + 256 * (s[6] + 256 * s[7]);
    assert Value(256, s[1..][1..][1..][1..]) == s[4] + 256 * (s[5] + 256 * (s[6] + 256 * s[7]));
    assert Value(256, s[1..][1..][1..]) == s[3] + 256 * Value(256, s[1..][1..][1..][1..]);
    assert Value(256, s[1..][1..]) == s[2] + 256 * Value(256, s[1..][1..][1..]);
  }

  /** `(uint64_t)b << k` for a byte that stays inside the word. */
  method ShiftByte(b: Byte, k: nat, ghost weight: nat) returns (x: Word)
    requires k <= 56 && weight == Pow2(k)
    ensures x == b * weight
  {
    Pow2Values();
    Pow2Adds(k, 56 - k);
    Pow2Adds(8, 56);
    MulBound(b, Pow2(k), 255, Pow2(k));
    assert Pow2(k) <= Pow2(56) by {
      MulBound(1, Pow2(k), Pow2(56 - k), Pow2(k));
    }
    x := (b * Pow2(k)) % BASE;
    ModSmall(b * Pow2(k), BASE);
  }

  lemma ByteShifts()
    ensures Pow2(8) == 0x100 && Pow2(16) == 0x1_0000 && Pow2(24) == 0x100_0000 && Pow2(32) == 0x1_0000_0000
    ensures Pow2(40) == 0x100_0000_0000 && Pow2(48) == 0x1_0000_0000_0000 && Pow2(56) == 0x100_0000_0000_0000
  {
  }

  /** Eight bytes shifted into place and summed; the sum, taken on 64 bits, does not wrap. */
  method WordOfBytes(s: seq<Byte>) returns (x: Word)
    requires |s| == 8
    ensures x == Value(256, s)
  {
    ByteShifts();
    var x1 := ShiftByte(s[7], 56, 0x100000000000000);
    var x2 := ShiftByte(s[6], 48, 0x1000000000000);
    var x3 := ShiftByte(s[5], 40, 0x10000000000);
    var x4 := ShiftByte(s[4], 32, 0x100000000);
    var x5 := ShiftByte(s[3], 24, 0x1000000);
    var x6 := ShiftByte(s[2], 16, 0x10000);
    var x7 := ShiftByte(s[1], 8, 0x100);
    var x8 := s[0];
    var sum := x8 + (x7 + (x6 + (x5 + (x4 + (x3 + (x2 + x1))))));
    ValueOfEight(s);
    BytesArePower();
    ValueBound(256, s);
    ModSmall(sum, BASE);
    x := sum % BASE;
  }

  function Flatten(groups: seq<seq<nat>>): (s: seq<nat>) {
    if groups == [] then [] else groups[0] + Flatten(groups[1..])
  }

  /** Groups of eight bytes, joined, have the value of the words they stand for. */
  lemma {:induction false} FlattenValue(groups: seq<seq<nat>>, words: seq<nat>)
    requires |groups| == |words|
    requires forall i :: 0 <= i < |words| ==> |groups[i]| == 8 && Value(256, groups[i]) == words[i]
    ensures |Flatten(groups)| == 8 * |groups| && Value(256, Flatten(groups)) == Value(BASE, words)
  {
    if groups != [] {
      BytesArePower();
      FlattenValue(groups[1..], words[1..]);
      ValueConcat(256, groups[0], Flatten(groups[1..]));
    }
  }

  /** Every array of words is serialised to its base-256 digits. */
  method ToBytes(out1: array<Byte>, arg1: array<Word>)
    requires out1.Length == 48 && arg1.Length == 6
    modifies out1
    ensures out1[..] == Serialise(arg1[..])
  {
    var s0 := WordBytes(arg1[0]);
    var s1 := WordBytes(arg1[1]);
    var s2 := WordBytes(arg1[2]);
    var s3 := WordBytes(arg1[3]);
    var s4 := WordBytes(arg1[4]);
    var s5 := WordBytes(arg1[5]);
    var s: seq<Byte> := s0 + s1 + s2 + s3 + s4 + s5;
    forall i | 0 <= i < 48 {
      out1[i] := s[i];
    }
    assert out1[..] == s;
    SixGroups(s0, s1, s2, s3, s4, s5);
    FlattenValue([s0, s1, s2, s3, s4, s5], arg1[..]);
    EvalBound(arg1[..]);
    DigitsOfValue(256, s);
  }

  lemma SixGroups(s0: seq<nat>, s1: seq<nat>, s2: seq<nat>, s3: seq<nat>, s4: seq<nat>, s5: seq<nat>)
    ensures Flatten([s0, s1, s2, s3, s4, s5]) == s0 + s1 + s2 + s3 + s4 + s5
  {
    assert [s0, s1, s2, s3, s4, s5][1..] == [s1, s2, s3, s4, s5];
    assert [s1, s2, s3, s4, s5][1..] == [s2, s3, s4, s5];
    assert [s2, s3, s4, s5][1..] == [s3, s4, s5];
    assert [s3, s4, s5][1..] == [s4, s5];
    assert [s4, s5][1..] == [s5];
    assert Flatten([s5]) == s5;
    assert Flatten([s4, s5]) == s4 + s5;
    assert Flatten([s3, s4, s5]) == s3 + (s4 + s5);
    assert Flatten([s2, s3, s4, s5]) == s2 + (s3 + (s4 + s5));
    assert Flatten([s1, s2, s3, s4, s5]) == s1 + (s2 + (s3 + (s4 + s5)));
  }

  /** Every 48 bytes are read; the words are canonical exactly when the number is below the modulus. */
  method FromBytes(out1: array<Word>, arg1: array<Byte>)
    requires out1.Length == 6 && arg1.Length == 48
    modifies out1
    ensures out1[..] == Deserialise(arg1[..])
    ensures Eval(out1[..]) == Value(256, arg1[..])
  {
    var x0 := WordOfBytes(arg1[0..8]);
    var x1 := WordOfBytes(arg1[8..16]);
    var x2 := WordOfBytes(arg1[16..24]);
    var x3 := WordOfBytes(arg1[24..32]);
    var x4 := WordOfBytes(arg1[32..40]);
    var x5 := WordOfBytes(arg1[40..48]);
    ghost var s: seq<nat> := arg1[..];
    SixGroups(s[0..8], s[8..16], s[16..24], s[24..32], s[32..40], s[40..48]);
    assert s == s[0..8] + s[8..16] + s[16..24] + s[24..32] + s[32..40] + s[40..48];
    FlattenValue([s[0..8], s[8..16], s[16..24], s[24..32], s[32..40], s[40..48]], [x0, x1, x2, x3, x4, x5]);
    EvalBound([x0, x1, x2, x3, x4, x5]);
    BytesBound(s);
    EncodeEval([x0, x1, x2, x3, x4, x5]);
    Store(out1, [x0, x1, x2, x3, x4, x5]);
  }

  /** Both directions of the codec are inverse to each other, on every array and every 48 bytes. */
  lemma RoundTrip(a: Limbs, s: seq<nat>)
    requires |s| == 48 && AllBelow(256, s)
    ensures Deserialise(Serialise(a)) == a && Serialise(Deserialise(s)) == s
    ensures Value(256, Serialise(a)) == Eval(a) && Eval(Deserialise(s)) == Value(256, s)
  {
    BytesArePower();
    EncodeEval(a);
    ValueOfDigits(256, Eval(a), 48);
    ModSmall(Eval(a), RADIX);
    BytesBound(s);
    DigitsOfValue(256, s);
  }

  /** Byte `i` is the documented formula: the value modulo 256^(i+1), divided by 256^i. */
  lemma ByteFormula(a: Limbs, i: nat)
    requires i < 48
    ensures Pow(256, i) > 0 && Pow(256, i + 1) > 0
    ensures Serialise(a)[i] == (Eval(a) % Pow(256, i + 1)) / Pow(256, i)
  {
    var p := Pow(256, i);
    PowPositive(256, i);
    DigitAt(256, Eval(a), 48, i);
    DivideTwice(Eval(a), p, 256);
    assert Pow(256, i + 1) == p * 256;
    Quotient(Eval(a), p);
    RemainderUnique(Eval(a) % Pow(256, i + 1), p, (Eval(a) / p) % 256, Eval(a) % p);
  }
}
