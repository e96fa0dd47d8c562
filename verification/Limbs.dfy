/** Little-endian positional numbers: digit sequences in a base, and six-word limb arrays. */
module Limbs {
  import opened Arith
  import opened Words

  /** The number whose base-`b` digits, least significant first, are `s`. */
  function Value(b: nat, s: seq<nat>): nat {
    if s == [] then 0 else s[0] + b * Value(b, s[1..])
  }

  /** The `n` lowest base-`b` digits of `x`. */
  function Digits(b: nat, x: nat, n: nat): (s: seq<nat>)
    requires b > 0
    ensures |s| == n && AllBelow(b, s)
    decreases n
  {
    if n == 0 then [] else
      Quotient(x, b);
      var (q, r) := (x / b, x % b);
      [r] + Digits(b, q, n - 1)
  }

  predicate AllBelow(b: nat, s: seq<nat>) {
    forall i :: 0 <= i < |s| ==> s[i] < b
  }

  lemma PowPositive(b: nat, e: nat)
    requires b > 0
    ensures Pow(b, e) > 0
  {
    if e > 0 {
      PowPositive(b, e - 1);
    }
  }

  lemma {:induction false} ValueBound(b: nat, s: seq<nat>)
    requires b > 0 && AllBelow(b, s)
    ensures Value(b, s) < Pow(b, |s|)
  {
    if s != [] {
      var p := Pow(b, |s| - 1);
      ValueBound(b, s[1..]);
      assert b * Value(b, s[1..]) <= b * (p - 1) == b * p - b;
    }
  }

  lemma {:induction false} DigitsOfValue(b: nat, s: seq<nat>)
    requires b > 0 && AllBelow(b, s)
    ensures Digits(b, Value(b, s), |s|) == s
  {
    if s != [] {
      DigitsOfValue(b, s[1..]);
      RemainderUnique(Value(b, s), b, Value(b, s[1..]), s[0]);
      assert [s[0]] + s[1..] == s;
    }
  }

  lemma {:induction false} ValueOfDigits(b: nat, x: nat, n: nat)
    requires b > 0
    ensures Pow(b, n) > 0 && Value(b, Digits(b, x, n)) == x % Pow(b, n)
    decreases n
  {
    PowPositive(b, n);
    if n > 0 {
      var p, y := Pow(b, n - 1), x / b;
      PowPositive(b, n - 1);
      DivideTwice(x, b, p);
      ValueOfDigits(b, y, n - 1);
      var t := Digits(b, y, n - 1);
      assert Digits(b, x, n) == [x % b] + t;
      ValueCons(b, x % b, t);
    } else {
      RemainderUnique(x, 1, x, 0);
    }
  }

  lemma ValueCons(b: nat, d: nat, s: seq<nat>)
    ensures Value(b, [d] + s) == d + b * Value(b, s)
  {
    assert ([d] + s)[1..] == s;
  }

  /** Digit sequences of one length are determined by their value. */
  lemma ValueInjective(b: nat, s: seq<nat>, t: seq<nat>)
    requires b > 0 && |s| == |t| && AllBelow(b, s) && AllBelow(b, t) && Value(b, s) == Value(b, t)
    ensures s == t
  {
    DigitsOfValue(b, s);
    DigitsOfValue(b, t);
  }

  lemma HornerStep(b: int, u: int, p: int, v: int)
    ensures b * (u + p * v) == b * u + (b * p) * v
  {
  }

  lemma {:induction false} ValueConcat(b: nat, s: seq<nat>, t: seq<nat>)
    ensures Value(b, s + t) == Value(b, s) + Pow(b, |s|) * Value(b, t)
  {
    if s == [] {
      assert s + t == t;
    } else {
      assert (s + t)[1..] == s[1..] + t;
      ValueConcat(b, s[1..], t);
      HornerStep(b, Value(b, s[1..]), Pow(b, |s| - 1), Value(b, t));
    }
  }

  lemma {:induction false} DigitAt(b: nat, x: nat, n: nat, i: nat)
    requires b > 0 && i < n
    ensures Pow(b, i) > 0 && Digits(b, x, n)[i] == (x / Pow(b, i)) % b
    decreases n
  {
    PowPositive(b, i);
    var y := x / b;
    Quotient(x, b);
    if i == 0 {
      RemainderUnique(x, 1, x, 0);
    } else {
      DigitAt(b, y, n - 1, i - 1);
      DivideTwice(x, b, Pow(b, i - 1));
    }
  }

  /** Six little-endian words, as in the C arrays. */
  type Limbs = s: seq<Word> | |s| == 6 witness [0, 0, 0, 0, 0, 0]

  /** 2^384, the Montgomery radix: one more than the largest six-limb value. */
  const RADIX: nat := 0x1_0000_0000_0000_0000_0000_0000_0000_0000_0000_0000_0000_0000_0000_0000_0000_0000_0000_0000_0000_0000_0000_0000_0000_0000

  /** Horner form of a six-limb value. */
  function Six(x0: int, x1: int, x2: int, x3: int, x4: int, x5: int): int {
    x0 + BASE * (x1 + BASE * (x2 + BASE * (x3 + BASE * (x4 + BASE * x5))))
  }

  function Seven(x0: int, x1: int, x2: int, x3: int, x4: int, x5: int, x6: int): int {
    x0 + BASE * Six(x1, x2, x3, x4, x5, x6)
  }

  /** The value of a limb array. */
  function Eval(s: Limbs): nat {
    Value(BASE, s)
  }

  /** The value in Horner form, for every limb array. */
  lemma EvalWords()
    ensures forall s: Limbs {:trigger Eval(s)} :: Eval(s) == Six(s[0], s[1], s[2], s[3], s[4], s[5])
  {
    forall s: Limbs ensures Eval(s) == Six(s[0], s[1], s[2], s[3], s[4], s[5]) {
      assert s == [s[0], s[1], s[2], s[3], s[4], s[5]];
      ValueOfSix(s[0], s[1], s[2], s[3], s[4], s[5]);
    }
  }

  /** The six limbs of a number that fits them. */
  ghost function Encode(x: nat): (s: Limbs)
    requires x < RADIX
    ensures Eval(s) == x
  {
    LimbsExist(x);
    var s: Limbs :| Eval(s) == x;
    s
  }

  lemma LimbsExist(x: nat)
    requires x < RADIX
    ensures exists s: Limbs :: Eval(s) == x
  {
    RadixIsPower();
    ValueOfDigits(BASE, x, 6);
    var s: Limbs := Digits(BASE, x, 6);
    EvalBound(s);
    ModSmall(x, RADIX);
  }

  lemma RadixIsPower()
    ensures Pow(BASE, 6) == RADIX
  {
    assert Pow(BASE, 3) == BASE * (BASE * (BASE * 1));
    assert Pow(BASE, 6) == BASE * (BASE * (BASE * Pow(BASE, 3)));
  }

  lemma EvalBound(s: Limbs)
    ensures Eval(s) < RADIX
  {
    RadixIsPower();
    ValueBound(BASE, s);
  }

  lemma ValueOfSix(x0: nat, x1: nat, x2: nat, x3: nat, x4: nat, x5: nat)
    ensures Value(BASE, [x0, x1, x2, x3, x4, x5]) == Six(x0, x1, x2, x3, x4, x5)
  {
    assert [x0, x1, x2, x3, x4, x5][1..] == [x1, x2, x3, x4, x5];
    assert [x1, x2, x3, x4, x5][1..] == [x2, x3, x4, x5];
    assert [x2, x3, x4, x5][1..] == [x3, x4, x5];
    assert [x3, x4, x5][1..] == [x4, x5];
    assert [x4, x5][1..] == [x5];
    assert Value(BASE, [x5]) == x5;
    assert Value(BASE, [x4, x5]) == x4 + BASE * x5;
    assert Value(BASE, [x3, x4, x5]) == x3 + BASE * (x4 + BASE * x5);
    assert Value(BASE, [x2, x3, x4, x5]) == x2 + BASE * (x3 + BASE * (x4 + BASE * x5));
  }

  /** Limb arrays are equal exactly when their values are. */
  lemma EvalInjective(s: Limbs, t: Limbs)
    ensures Eval(s) == Eval(t) <==> s == t
  {
    EvalBound(s);
    EvalBound(t);
    if Eval(s) == Eval(t) {
      ValueInjective(BASE, s, t);
    }
  }

  lemma EncodeEval(s: Limbs)
    ensures Eval(s) < RADIX && Encode(Eval(s)) == s
  {
    EvalBound(s);
    EvalInjective(s, Encode(Eval(s)));
  }

  const ZERO: Limbs := [0, 0, 0, 0, 0, 0]
  const ONE: Limbs := [1, 0, 0, 0, 0, 0]

  lemma SmallValues()
    ensures Eval(ZERO) == 0 && Eval(ONE) == 1
  {
    EvalWords();
  }
}
