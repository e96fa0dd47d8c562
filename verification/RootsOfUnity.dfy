/** The domain check: primitive roots, distinctness, and the 4096-domain inside the 8192-domain. */
module RootsOfUnity {
  import opened Arith
  import opened Bits
  import opened BitReversal
  import opened PrimitiveRoot

  datatype Check = TrivialGenerator | NotOfOrderN | DegenerateSubgroup | NotDistinct | PermutationFailed | HalvesDiffer

  datatype Option<+T> = None | Some(value: T)

  /** Either the run raised, at some size, or it finished with the two stored lists. */
  datatype Run = Raised(size: int, check: Check) | Finished(brp4096: seq<int>, brp8192: seq<int>)

  function Generator(p: int, root: int, n: nat): (g: int)
    requires p > 1 && n > 0
    ensures 0 <= g < p
  {
    Pow(root, (p - 1) / n) % p
  }

  function Roots(p: int, g: int, n: nat): (s: seq<int>)
    requires p > 1
    ensures |s| == n
  {
    seq(n, i requires 0 <= i < n => Pow(g, i) % p)
  }

  /** The roots of the domain of size `n`. */
  function DomainRoots(p: int, root: int, n: nat): (s: seq<int>)
    requires p > 1 && n > 0
    ensures |s| == n
  {
    Roots(p, Generator(p, root, n), n)
  }

  function Elements(s: seq<int>): set<int> {
    set x | x in s
  }

  /**
   * The list of the powers of `g`, with no reference to powers: it starts with one and each entry is the
   * one before times `g`. All entries are reduced n-th roots of unity.
   */
  ghost predicate RootList(p: int, g: int, n: nat, s: seq<int>)
    requires p > 1
  {
    && |s| == n && (n > 0 ==> s[0] == 1)
    && (forall i: nat :: i + 1 < n ==> NextIsTimes(p, g, s, i))
    && (forall i: nat :: i < n ==> IsRoot(p, n, s[i]))
  }

  predicate NextIsTimes(p: int, g: int, s: seq<int>, i: nat)
    requires p > 1 && i + 1 < |s|
  {
    s[i + 1] == (s[i] * g) % p
  }

  predicate IsRoot(p: int, n: nat, x: int)
    requires p > 1
  {
    0 <= x < p && Pow(x, n) % p == 1
  }

  lemma RootOfUnity(p: int, g: int, n: nat, i: nat)
    requires p > 1 && Pow(g, n) % p == 1
    ensures IsRoot(p, n, Pow(g, i) % p)
  {
    ModMod(Pow(g, i), p);
    PowCongruent(Pow(g, i) % p, Pow(g, i), n, p);
    PowMultiplies(g, i, n);
    PowMultiplies(g, n, i);
    assert i * n == n * i;
    ModSmall(1, p);
    PowCongruent(Pow(g, n), 1, i, p);
    PowOfOne(i);
  }

  /** If g^n is one, the powers of `g` are the list of its n-th roots of unity. */
  lemma RootsAreRoots(p: int, g: int, n: nat)
    requires p > 1 && Pow(g, n) % p == 1
    ensures RootList(p, g, n, Roots(p, g, n))
  {
    var s := Roots(p, g, n);
    ModSmall(1, p);
    forall i: nat | i + 1 < n ensures NextIsTimes(p, g, s, i) {
      NextPower(p, g, i);
    }
    forall i: nat | i < n ensures IsRoot(p, n, s[i]) {
      RootOfUnity(p, g, n, i);
    }
  }

  lemma NextPower(p: int, g: int, i: nat)
    requires p > 1
    ensures Pow(g, i + 1) % p == ((Pow(g, i) % p) * g) % p
  {
    ModMod(Pow(g, i), p);
    ModMul(Pow(g, i) % p, Pow(g, i), g, p);
  }

  // Powers of a generator.

  lemma ExactQuotient(a: int, n: int, e: int)
    requires n > 0 && a % n == 0 && a >= 0 && e >= 0
    ensures a / n >= 0 && (a / n) * n == a && (a / n) * e >= 0
    ensures n % 2 == 0 ==> (a / n) * (n / 2) == a / 2
  {
    Quotient(a, n);
    var q := a / n;
    assert q * n == a;
    if n % 2 == 0 {
      assert n == 2 * (n / 2);
      assert a == 2 * (q * (n / 2));
    }
  }

  lemma GeneratorPower(p: int, root: int, n: nat, e: nat)
    requires p > 1 && n > 0
    ensures ((p - 1) / n) * e >= 0
    ensures Pow(Generator(p, root, n), e) % p == Pow(root, ((p - 1) / n) * e) % p
  {
    Quotient(p - 1, n);
    var q := (p - 1) / n;
    PowMultiplies(root, q, e);
    ModMod(Pow(root, q), p);
    PowCongruent(Generator(p, root, n), Pow(root, q), e, p);
  }

  /** All generators raise the same two powers of the root. */
  lemma GeneratorOrder(p: int, root: int, n: nat)
    requires p > 1 && n > 0 && n % 2 == 0 && (p - 1) % n == 0
    ensures Pow(Generator(p, root, n), n) % p == Pow(root, p - 1) % p
    ensures Pow(Generator(p, root, n), n / 2) % p == Pow(root, (p - 1) / 2) % p
  {
    GeneratorPower(p, root, n, n);
    GeneratorPower(p, root, n, n / 2);
    ExactQuotient(p - 1, n, n);
  }

  // Distinctness.

  /** If g^(2^k) is one and so is some g^e with 0 < e < 2^k, then g^(2^(k-1)) is one already. */
  lemma {:induction false} SmallOrderDescends(p: int, g: int, k: nat, e: nat)
    requires p > 1 && k > 0 && 0 < e < Pow2(k)
    requires Pow(g, Pow2(k)) % p == 1 && Pow(g, e) % p == 1
    ensures Pow(g, Pow2(k - 1)) % p == 1
    decreases k
  {
    if e % 2 == 1 {
      OddExponent(p, Pow(g, Pow2(k - 1)), g, Pow2(k - 1), e);
    } else {
      assert k > 1;
      var h := Pow(g, 2);
      PowerOfSquare(g, Pow2(k - 1));
      PowerOfSquare(g, e / 2);
      PowerOfSquare(g, Pow2(k - 2));
      SmallOrderDescends(p, h, k - 1, e / 2);
    }
  }

  lemma PowerOfSquare(g: int, e: nat)
    ensures Pow(Pow(g, 2), e) == Pow(g, 2 * e)
  {
    PowMultiplies(g, 2, e);
  }

  /** With u = g^h: if u^2 and g^e are one and e is odd, then u is one. */
  lemma OddExponent(p: int, u: int, g: int, h: nat, e: nat)
    requires p > 1 && u == Pow(g, h) && Pow(g, 2 * h) % p == 1 && Pow(g, e) % p == 1 && e % 2 == 1
    ensures u % p == 1
  {
    var c := e / 2;
    ModSmall(1, p);
    // u^e = (g^e)^h is one
    PowMultiplies(g, h, e);
    PowMultiplies(g, e, h);
    PowCongruent(Pow(g, e), 1, h, p);
    PowOfOne(h);
    // u^e = (u^2)^c * u
    PowAdds(g, h, h);
    PowMultiplies(u, 2, c);
    PowAdds(u, 2 * c, 1);
    assert Pow(u, 2) == u * (u * 1) && Pow(u, 1) == u * 1;
    PowCongruent(Pow(u, 2), 1, c, p);
    PowOfOne(c);
    ModMul(Pow(u, 2 * c), 1, u, p);
  }

  /** A repeated root gives an exponent of order smaller than n. */
  lemma RepeatGivesOrder(p: int, g: int, n: nat, i: nat, j: nat)
    requires p > 1 && i < j < n && Pow(g, n) % p == 1 && Pow(g, i) % p == Pow(g, j) % p
    ensures Pow(g, j - i) % p == 1
  {
    var e, f := j - i, n - i;
    PowAdds(g, i, f);
    PowAdds(g, j, f);
    PowAdds(g, n, e);
    ModMul(Pow(g, i), Pow(g, j), Pow(g, f), p);
    ModMul(Pow(g, n), 1, Pow(g, e), p);
    ModSmall(1, p);
    assert j + f == n + e && i + f == n;
  }

  /** The two exponent checks imply that all 2^k roots are distinct. */
  lemma RootsAreDistinct(p: int, g: int, k: nat)
    requires p > 1 && k > 0 && Pow(g, Pow2(k)) % p == 1 && Pow(g, Pow2(k - 1)) % p != 1
    ensures var s := Roots(p, g, Pow2(k));
            (forall i, j :: 0 <= i < j < |s| ==> s[i] != s[j]) && |Elements(s)| == Pow2(k)
  {
    var s := Roots(p, g, Pow2(k));
    forall i: nat, j: nat | i < j < |s| ensures s[i] != s[j] {
      if s[i] == s[j] {
        RepeatGivesOrder(p, g, Pow2(k), i, j);
        SmallOrderDescends(p, g, k, j - i);
      }
    }
    DistinctCount(s);
  }

  lemma {:induction false} DistinctCount(s: seq<int>)
    requires forall i, j :: 0 <= i < j < |s| ==> s[i] != s[j]
    ensures |Elements(s)| == |s|
  {
    if s != [] {
      var t := s[..|s| - 1];
      DistinctCount(t);
      assert s == t + [s[|s| - 1]];
      assert Elements(s) == Elements(t) + {s[|s| - 1]};
    }
  }

  // Nesting.

  lemma HalvedQuotient(a: int, n: nat)
    requires n > 0 && a >= 0 && a % (2 * n) == 0
    ensures a / n == 2 * (a / (2 * n)) && a / (2 * n) >= 0
  {
    Quotient(a, 2 * n);
    var q := a / (2 * n);
    assert (2 * n) * q == n * (2 * q);
    RemainderUnique(a, n, 2 * q, 0);
  }

  /** Every other root of the doubled domain is a root of the domain, in order. */
  lemma NestedRoots(p: int, root: int, n: nat, i: nat)
    requires p > 1 && n > 0 && (p - 1) % (2 * n) == 0 && i < n
    ensures DomainRoots(p, root, n)[i] == DomainRoots(p, root, 2 * n)[2 * i]
  {
    GeneratorPower(p, root, n, i);
    GeneratorPower(p, root, 2 * n, 2 * i);
    HalvedQuotient(p - 1, n);
    assert (2 * ((p - 1) / (2 * n))) * i == ((p - 1) / (2 * n)) * (2 * i);
  }

  /** For every size 2^k whose double divides p - 1, the smaller domain is the first half of the larger. */
  lemma DomainsNest(p: int, root: int, k: nat)
    requires p > 1 && (p - 1) % Pow2(k + 1) == 0
    ensures Permuted(k, DomainRoots(p, root, Pow2(k)))
         == Permuted(k + 1, DomainRoots(p, root, Pow2(k + 1)))[..Pow2(k)]
  {
    var n := Pow2(k);
    var s, u := DomainRoots(p, root, n), DomainRoots(p, root, 2 * n);
    forall i: nat | i < n ensures s[i] == u[2 * i] {
      NestedRoots(p, root, n, i);
    }
    FirstHalf(k, s, u);
  }

  // The script.

  /** The lists of a finished run: bit-reversed lists of all roots of unity of order 4096 and 8192. */
  ghost predicate HoldsDomains(p: int, root: int, run: Run)
    requires p > 1
  {
    && run.Finished?
    && IsDomain(p, root, 12, run.brp4096) && IsDomain(p, root, 13, run.brp8192)
    && run.brp4096 == run.brp8192[..Pow2(12)]
  }

  /** The bit-reversed list of the 2^k-th roots of unity, all different. */
  ghost predicate IsDomain(p: int, root: int, k: nat, brp: seq<int>)
    requires p > 1
  {
    var s := DomainRoots(p, root, Pow2(k));
    brp == Permuted(k, s) && RootList(p, Generator(p, root, Pow2(k)), Pow2(k), s) && |Elements(s)| == Pow2(k)
  }

  /** A generator equal to one makes both of its powers one. */
  lemma TrivialIsNotPrimitive(p: int, root: int, n: nat)
    requires p > 1 && n > 0 && n % 2 == 0 && (p - 1) % n == 0 && Generator(p, root, n) == 1
    ensures !Primitive(p, root)
  {
    GeneratorOrder(p, root, n);
    PowOfOne(n / 2);
    ModSmall(1, p);
  }

  lemma SizesArePowers()
    ensures Pow2(1) == 2 && Pow2(2) == 4 && Pow2(3) == 8
    ensures Pow2(11) == 2048 && Pow2(12) == 4096 && Pow2(13) == 8192
  {
  }

  /** The script's own modulus admits all four sizes. */
  lemma ModulusAdmitsSizes()
    ensures MODULUS > 1 && (MODULUS - 1) % 8192 == 0
  {
  }

  lemma SizesDivide(p: int)
    requires p > 1 && (p - 1) % 8192 == 0
    ensures (p - 1) % 4 == 0 && (p - 1) % 8 == 0 && (p - 1) % 4096 == 0
  {
  }

  /** What passing the checks at size 2^k gives. */
  lemma PassedSize(p: int, root: int, k: nat)
    requires p > 1 && k > 0 && Primitive(p, root) && (p - 1) % Pow2(k) == 0
    ensures IsDomain(p, root, k, Permuted(k, DomainRoots(p, root, Pow2(k))))
    ensures BitReversalPermutation(DomainRoots(p, root, Pow2(k))) == Success(Permuted(k, DomainRoots(p, root, Pow2(k))))
  {
    var n := Pow2(k);
    assert n == 2 * Pow2(k - 1);
    GeneratorOrder(p, root, n);
    RootsAreDistinct(p, Generator(p, root, n), k);
    RootsAreRoots(p, Generator(p, root, n), n);
    SucceedsOnPowers(DomainRoots(p, root, n), k);
  }

  /** The checks at one size: the first whose condition holds is raised; otherwise the list is stored. */
  method CheckSize(p: int, root: int, n: nat, ghost k: nat) returns (raised: Option<Check>, brp: seq<int>)
    requires p > 1 && k > 0 && n == Pow2(k) && (p - 1) % n == 0
    ensures Primitive(p, root) <==> raised == None
    ensures raised == None ==> IsDomain(p, root, k, brp)
    ensures raised == Some(TrivialGenerator) <==> Generator(p, root, n) == 1
    ensures raised == Some(NotOfOrderN) <==> Generator(p, root, n) != 1 && Pow(root, p - 1) % p != 1
    ensures raised == Some(DegenerateSubgroup) <==>
              Generator(p, root, n) != 1 && Pow(root, p - 1) % p == 1 && Pow(root, (p - 1) / 2) % p == 1
  {
    assert n == 2 * Pow2(k - 1);
    GeneratorOrder(p, root, n);
    brp := [];
    var g := Generator(p, root, n);
    if g == 1 {
      TrivialIsNotPrimitive(p, root, n);
      return Some(TrivialGenerator), brp;
    }
    if Pow(g, n) % p != 1 {
      return Some(NotOfOrderN), brp;
    }
    if n > 1 && Pow(g, n / 2) % p == 1 {
      return Some(DegenerateSubgroup), brp;
    }
    PassedSize(p, root, k);
    var roots := Roots(p, g, n);
    if |Elements(roots)| != n {
      return Some(NotDistinct), brp;
    }
    match BitReversalPermutation(roots) {
      case Failure(_) => return Some(PermutationFailed), brp;
      case Success(permuted) => return None, permuted;
    }
  }

  /**
   * The loop over the four sizes and the closing assertion. The distinctness check, the permutation and
   * the closing assertion never fail: the run finishes exactly when the root is primitive, and otherwise
   * raises at the first size the first check whose condition holds.
   */
  method CheckDomains(p: int, root: int) returns (run: Run)
    requires p > 1 && (p - 1) % 8192 == 0
    ensures if Primitive(p, root) then HoldsDomains(p, root, run) else run.Raised? && run.size == 4
    ensures run == Raised(4, TrivialGenerator) <==> Generator(p, root, 4) == 1
    ensures run == Raised(4, NotOfOrderN) <==> Generator(p, root, 4) != 1 && Pow(root, p - 1) % p != 1
    ensures run == Raised(4, DegenerateSubgroup) <==>
              Generator(p, root, 4) != 1 && Pow(root, p - 1) % p == 1 && Pow(root, (p - 1) / 2) % p == 1
  {
    SizesArePowers();
    SizesDivide(p);
    var sizes, brp4096, brp8192 := [4, 8, 4096, 8192], None, None;
    ghost var exponents := [2, 3, 12, 13];
    for i := 0 to 4
      invariant i > 0 ==> Primitive(p, root) && Generator(p, root, 4) != 1
      invariant i > 2 ==> brp4096.Some? && IsDomain(p, root, 12, brp4096.value)
      invariant i > 3 ==> brp8192.Some? && IsDomain(p, root, 13, brp8192.value)
    {
      var n: nat := sizes[i];
      var raised, brp := CheckSize(p, root, n, exponents[i]);
      if raised.Some? {
        return Raised(n, raised.value);
      }
      if n == 4096 {
        brp4096 := Some(brp);
      } else if n == 8192 {
        brp8192 := Some(brp);
      }
    }
    DomainsNest(p, root, 12);
    if brp4096.None? || brp8192.None? || brp4096.value != brp8192.value[..4096] {
      return Raised(8192, HalvesDiffer);
    }
    return Finished(brp4096.value, brp8192.value);
  }

  /** The script with its own constants finishes. */
  method RunScript() returns (run: Run)
    ensures HoldsDomains(MODULUS, PRIMITIVE_ROOT_OF_UNITY, run)
  {
    ModulusAdmitsSizes();
    RootIsPrimitive();
    run := CheckDomains(MODULUS, PRIMITIVE_ROOT_OF_UNITY);
  }
}
