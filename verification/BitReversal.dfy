/** Power-of-two test, bit reversal through binary strings, and the permutation it induces. */
module BitReversal {
  import opened Arith
  import opened Bits

  datatype Error = AssertionError | IndexError
  datatype Result<+T> = Success(value: T) | Failure(error: Error)

  predicate IsPowerOfTwo(value: int) {
    value > 0 && And(value, value - 1) == 0
  }

  lemma {:induction false} AndSelf(x: nat)
    ensures And(x, x) == x
  {
    if x > 0 {
      AndSelf(x / 2);
    }
  }

  lemma PowerPasses(k: nat)
    ensures IsPowerOfTwo(Pow2(k))
  {
    var p := Pow2(k);
    AndMask(p, k);
    RemainderUnique(p, p, 1, 0);
  }

  /** The bit trick accepts exactly the powers of two. */
  lemma PowerOfTwoTest(value: int)
    ensures IsPowerOfTwo(value) <==> exists k: nat :: value == Pow2(k)
  {
    if k: nat :| value == Pow2(k) {
      PowerPasses(k);
    }
    if IsPowerOfTwo(value) {
      var k := Exponent(value);
    }
  }

  lemma {:induction false} Exponent(value: nat) returns (k: nat)
    requires IsPowerOfTwo(value)
    ensures value == Pow2(k)
  {
    if value == 1 {
      k := 0;
    } else if value % 2 == 0 {
      assert (value - 1) / 2 == value / 2 - 1;
      k := Exponent(value / 2);
      k := k + 1;
    } else {
      AndSelf(value / 2);
      assert false;
    }
  }

  // Binary strings.

  function BitLength(n: nat): nat {
    if n == 0 then 0 else 1 + BitLength(n / 2)
  }

  function Digit(b: nat): char {
    if b == 0 then '0' else '1'
  }

  /** The binary digits of `n`, most significant first; one digit for zero. */
  function Binary(n: nat): string {
    if n < 2 then [Digit(n)] else Binary(n / 2) + [Digit(n % 2)]
  }

  function Zeros(n: nat): string {
    seq(n, _ => '0')
  }

  /** Binary digits padded with zeros on the left to at least `width` characters. */
  function Format(n: nat, width: nat): string {
    var s := Binary(n);
    if |s| < width then Zeros(width - |s|) + s else s
  }

  function Reverse<T>(s: seq<T>): (r: seq<T>)
    ensures |r| == |s|
  {
    if s == [] then [] else Reverse(s[1..]) + [s[0]]
  }

  /** The number a binary string writes. */
  function Parse(s: string): nat {
    if s == [] then 0 else 2 * Parse(s[..|s| - 1]) + if s[|s| - 1] == '1' then 1 else 0
  }

  function ReverseBits(n: nat, order: nat): Result<nat> {
    if !IsPowerOfTwo(order) then Failure(AssertionError)
    else Success(Parse(Reverse(Format(n, BitLength(order) - 1))))
  }

  /** Entry `i` of the comprehension. */
  function Entry<T>(s: seq<T>, i: nat): Result<T> {
    match ReverseBits(i, |s|)
    case Failure(e) => Failure(e)
    case Success(j) => if j < |s| then Success(s[j]) else Failure(IndexError)
  }

  /** A comprehension over entries that may raise: all values, or the first exception. */
  function Collect<T>(entries: seq<Result<T>>): Result<seq<T>> {
    if entries == [] then Success([]) else
      match Collect(entries[..|entries| - 1])
      case Failure(e) => Failure(e)
      case Success(t) =>
        match entries[|entries| - 1]
        case Failure(e) => Failure(e)
        case Success(x) => Success(t + [x])
  }

  function BitReversalPermutation<T>(s: seq<T>): Result<seq<T>> {
    Collect(seq(|s|, i requires 0 <= i < |s| => Entry(s, i)))
  }

  // The arithmetic reference: reversal of the low `k` bits.

  function Rev(k: nat, n: nat): nat {
    if k == 0 then 0 else (n % 2) * Pow2(k - 1) + Rev(k - 1, n / 2)
  }

  /** The `k` low binary digits of `n`, most significant first. */
  function Fixed(n: nat, k: nat): (s: string)
    ensures |s| == k
  {
    if k == 0 then [] else Fixed(n / 2, k - 1) + [Digit(n % 2)]
  }

  lemma {:induction false} BitLengthOfPower(k: nat)
    ensures BitLength(Pow2(k)) == k + 1
  {
    if k > 0 {
      BitLengthOfPower(k - 1);
      assert Pow2(k) / 2 == Pow2(k - 1);
    } else {
      assert BitLength(1) == 1 + BitLength(0);
    }
  }

  lemma {:induction false} FormatIsFixed(n: nat, k: nat)
    requires k > 0 && n < Pow2(k)
    ensures Format(n, k) == Fixed(n, k)
  {
    if n < 2 {
      FixedOfBit(n, k);
    } else {
      assert k > 1;
      FormatIsFixed(n / 2, k - 1);
      var s := Binary(n / 2);
      if |s| < k - 1 {
        assert Zeros(k - |s| - 1) + (s + [Digit(n % 2)]) == (Zeros(k - 1 - |s|) + s) + [Digit(n % 2)];
      }
    }
  }

  lemma {:induction false} FixedOfBit(n: nat, k: nat)
    requires k > 0 && n < 2
    ensures Fixed(n, k) == Zeros(k - 1) + [Digit(n)]
  {
    if k > 1 {
      FixedOfBit(0, k - 1);
      assert Zeros(k - 2) + ['0'] == Zeros(k - 1);
    }
  }

  lemma {:induction false} ReverseAppend<T>(s: seq<T>, x: T)
    ensures Reverse(s + [x]) == [x] + Reverse(s)
  {
    if s != [] {
      assert (s + [x])[1..] == s[1..] + [x];
      ReverseAppend(s[1..], x);
    }
  }

  lemma {:induction false} ParsePrepend(c: char, s: string)
    ensures Parse([c] + s) == (if c == '1' then Pow2(|s|) else 0) + Parse(s)
  {
    var t := [c] + s;
    if s == [] {
      assert t[..0] == [];
    } else {
      assert t[..|t| - 1] == [c] + s[..|s| - 1];
      ParsePrepend(c, s[..|s| - 1]);
    }
  }

  lemma {:induction false} ParseReversed(n: nat, k: nat)
    ensures Parse(Reverse(Fixed(n, k))) == Rev(k, n)
  {
    if k > 0 {
      var s, c := Fixed(n / 2, k - 1), Digit(n % 2);
      ReverseAppend(s, c);
      ParsePrepend(c, Reverse(s));
      ParseReversed(n / 2, k - 1);
      assert (c == '1' && n % 2 == 1) || (c == '0' && n % 2 == 0);
      assert (n % 2) * Pow2(k - 1) == if c == '1' then Pow2(k - 1) else 0;
    }
  }

  /** Formatting, reversing and parsing reverses the low `k` bits. */
  lemma ReverseBitsIsRev(n: nat, k: nat)
    requires n < Pow2(k)
    ensures ReverseBits(n, Pow2(k)) == Success(Rev(k, n))
  {
    PowerOfTwoTest(Pow2(k));
    BitLengthOfPower(k);
    if k == 0 {
      assert Format(0, 0) == ['0'];
      assert Reverse(['0']) == ['0'];
    } else {
      FormatIsFixed(n, k);
      ParseReversed(n, k);
    }
  }

  lemma BitProduct(n: nat, p: nat)
    ensures (n % 2) * p == if n % 2 == 1 then p else 0
  {
  }

  lemma {:induction false} RevBound(k: nat, n: nat)
    ensures Rev(k, n) < Pow2(k)
  {
    if k > 0 {
      RevBound(k - 1, n / 2);
      BitProduct(n, Pow2(k - 1));
    }
  }

  /** The highest bit becomes the lowest: reversal in `k + 1` bits from reversal in `k` bits. */
  lemma {:induction false} RevHighBit(k: nat, n: nat, b: nat)
    requires n < Pow2(k) && b < 2
    ensures Rev(k + 1, n + b * Pow2(k)) == 2 * Rev(k, n) + b
  {
    var x := n + b * Pow2(k);
    if k > 0 {
      var p := Pow2(k - 1);
      BitProduct(b, p);
      BitProduct(b, 2 * p);
      assert x % 2 == n % 2 && x / 2 == n / 2 + b * p;
      RevHighBit(k - 1, n / 2, b);
      BitProduct(n, p);
      BitProduct(n, 2 * p);
    } else {
      assert Rev(1, x) == (x % 2) * Pow2(0) + Rev(0, x / 2);
    }
  }

  /** Reversing the low `k` bits twice restores them. */
  lemma {:induction false} RevInvolution(k: nat, n: nat)
    requires n < Pow2(k)
    ensures Rev(k, Rev(k, n)) == n
  {
    if k > 0 {
      var r, b := Rev(k - 1, n / 2), n % 2;
      RevInvolution(k - 1, n / 2);
      RevBound(k - 1, n / 2);
      RevHighBit(k - 1, r, b);
      assert Rev(k, n) == r + b * Pow2(k - 1);
      assert Rev(k, Rev(k, n)) == 2 * Rev(k - 1, r) + b;
    }
  }

  // The permutation.

  /** The reference permutation of a sequence of length 2^k. */
  function Permuted<T>(k: nat, s: seq<T>): (t: seq<T>)
    requires |s| == Pow2(k)
  {
    seq(|s|, i requires 0 <= i < |s| => RevBound(k, i); s[Rev(k, i)])
  }

  lemma EntryIsPermuted<T>(s: seq<T>, k: nat, i: nat)
    requires |s| == Pow2(k) && i < |s|
    ensures Entry(s, i) == Success(Permuted(k, s)[i])
  {
    ReverseBitsIsRev(i, k);
    RevBound(k, i);
  }

  lemma {:induction false} CollectSuccesses<T>(entries: seq<Result<T>>, t: seq<T>)
    requires |t| == |entries| && forall i: nat :: i < |t| ==> entries[i] == Success(t[i])
    ensures Collect(entries) == Success(t)
  {
    if t != [] {
      var n := |t| - 1;
      CollectSuccesses(entries[..n], t[..n]);
      assert t == t[..n] + [t[n]];
    }
  }

  lemma {:induction false} CollectFailures<T>(entries: seq<Result<T>>)
    requires |entries| > 0 && forall i: nat :: i < |entries| ==> entries[i] == Failure(AssertionError)
    ensures Collect(entries) == Failure(AssertionError)
  {
    if |entries| > 1 {
      CollectFailures(entries[..|entries| - 1]);
    } else {
      assert Collect(entries[..0]) == Success([]);
    }
  }

  /** A power-of-two length succeeds with the reference permutation. */
  lemma SucceedsOnPowers<T>(s: seq<T>, k: nat)
    requires |s| == Pow2(k)
    ensures BitReversalPermutation(s) == Success(Permuted(k, s))
  {
    var t := Permuted(k, s);
    var entries := seq(|s|, i requires 0 <= i < |s| => Entry(s, i));
    forall i: nat | i < |s| ensures entries[i] == Success(t[i]) {
      EntryIsPermuted(s, k, i);
    }
    CollectSuccesses(entries, t);
  }

  /** It returns a list exactly for the empty list and for power-of-two lengths; otherwise the assertion fails. */
  lemma Outcome<T>(s: seq<T>)
    ensures BitReversalPermutation(s).Success? <==> |s| == 0 || IsPowerOfTwo(|s|)
    ensures BitReversalPermutation(s).Failure? ==> BitReversalPermutation(s) == Failure(AssertionError)
  {
    if IsPowerOfTwo(|s|) {
      var k := Exponent(|s|);
      SucceedsOnPowers(s, k);
    } else if |s| > 0 {
      CollectFailures(seq(|s|, i requires 0 <= i < |s| => Entry(s, i)));
    }
  }

  /** Permuting twice restores the list. */
  lemma PermutedTwice<T>(k: nat, s: seq<T>)
    requires |s| == Pow2(k)
    ensures Permuted(k, Permuted(k, s)) == s
  {
    forall i: nat | i < |s| ensures Permuted(k, Permuted(k, s))[i] == s[i] {
      RevBound(k, i);
      RevInvolution(k, i);
    }
  }

  function Evens<T>(h: nat, s: seq<T>): (t: seq<T>)
    requires |s| == 2 * h
  {
    seq(h, i requires 0 <= i < h => s[2 * i])
  }

  function Odds<T>(h: nat, s: seq<T>): (t: seq<T>)
    requires |s| == 2 * h
  {
    seq(h, i requires 0 <= i < h => s[2 * i + 1])
  }

  /** The permuted list is the permuted even entries followed by the permuted odd entries. */
  lemma PermutedHalves<T>(k: nat, s: seq<T>)
    requires |s| == Pow2(k + 1)
    ensures Permuted(k + 1, s) == Permuted(k, Evens(Pow2(k), s)) + Permuted(k, Odds(Pow2(k), s))
  {
    var h := Pow2(k);
    var t, e, o := Permuted(k + 1, s), Permuted(k, Evens(h, s)), Permuted(k, Odds(h, s));
    forall i: nat | i < |s| ensures t[i] == (e + o)[i] {
      var b := if i < h then 0 else 1;
      var n := if i < h then i else i - h;
      assert i == n + b * h;
      RevHighBit(k, n, b);
      RevBound(k, n);
      RevBound(k + 1, i);
    }
  }

  lemma {:induction false} EvensAndOdds<T>(h: nat, s: seq<T>)
    requires |s| == 2 * h
    ensures multiset(Evens(h, s)) + multiset(Odds(h, s)) == multiset(s)
  {
    if h > 0 {
      var t := s[2..];
      EvensAndOdds(h - 1, t);
      assert Evens(h, s) == [s[0]] + Evens(h - 1, t);
      assert Odds(h, s) == [s[1]] + Odds(h - 1, t);
      assert s == [s[0]] + [s[1]] + t;
    } else {
      assert s == [];
    }
  }

  lemma {:induction false} PermutedMultiset<T>(k: nat, s: seq<T>)
    requires |s| == Pow2(k)
    ensures multiset(Permuted(k, s)) == multiset(s)
  {
    if k > 0 {
      var h := Pow2(k - 1);
      PermutedHalves(k - 1, s);
      PermutedMultiset(k - 1, Evens(h, s));
      PermutedMultiset(k - 1, Odds(h, s));
      EvensAndOdds(h, s);
    } else {
      assert Permuted(0, s) == s;
    }
  }

  /** Wherever it succeeds, the permutation is its own inverse and keeps the elements. */
  lemma Involution<T>(s: seq<T>)
    requires BitReversalPermutation(s).Success?
    ensures var t := BitReversalPermutation(s).value;
            BitReversalPermutation(t) == Success(s) && multiset(t) == multiset(s) && |t| == |s|
  {
    Outcome(s);
    if |s| == 0 {
      assert s == [];
    } else {
      var k := Exponent(|s|);
      SucceedsOnPowers(s, k);
      SucceedsOnPowers(Permuted(k, s), k);
      PermutedTwice(k, s);
      PermutedMultiset(k, s);
    }
  }

  /** If `s` holds every other entry of `u`, its permutation is the first half of that of `u`. */
  lemma FirstHalf<T>(k: nat, s: seq<T>, u: seq<T>)
    requires |s| == Pow2(k) && |u| == Pow2(k + 1)
    requires forall i :: 0 <= i < |s| ==> s[i] == u[2 * i]
    ensures Permuted(k, s) == Permuted(k + 1, u)[..|s|]
  {
    PermutedHalves(k, u);
    assert Evens(Pow2(k), u) == s;
  }
}
