/** The row invariant of word-by-word Montgomery multiplication, in any base and for any modulus. */
module RowInvariant {
  import opened Arith
  import opened Limbs

  /**
   * State after `i` rows: shifted up by `i` digits, the accumulator `s` is the product of the low `i`
   * digits of `a` with `b` plus a multiple of the modulus, and it is below `b + m`.
   */
  ghost predicate AfterRows(base: nat, m: nat, s: nat, i: nat, a: seq<nat>, b: nat, multiple: nat)
    requires i <= |a|
  {
    s < b + m && Pow(base, i) * s == Value(base, a[..i]) * b + multiple * m
  }

  lemma RowStep(power: int, base: int, s: int, t: int, x: int, b: int, m: int, q: int, low: int, multiple: int)
    requires power * s == low * b + multiple * m && base * t == s + x * b + q * m
    ensures (base * power) * t == (low + power * x) * b + (multiple + power * q) * m
  {
    calc {
      (base * power) * t;
      power * (base * t);
      power * s + power * (x * b) + power * (q * m);
      (low + power * x) * b + (multiple + power * q) * m;
    }
  }

  lemma {:induction false} PrefixValue(b: nat, a: seq<nat>, i: nat)
    requires i < |a|
    ensures Value(b, a[..i + 1]) == Value(b, a[..i]) + Pow(b, i) * a[i]
  {
    assert a[..i + 1] == a[..i] + [a[i]];
    ValueConcat(b, a[..i], [a[i]]);
    assert [a[i]][1..] == [];
  }

  lemma TimesBelow(base: int, x: int, y: int)
    requires 0 <= x < base && y >= 0
    ensures x * y <= base * y - y
  {
    var d := base - 1 - x;
    MulBound(0, y, d, y);
    assert base * y == (x + 1 + d) * y == x * y + y + d * y;
  }

  /** A row that starts below `b + m` ends below it. */
  lemma RowBound(base: int, s: int, t: int, x: int, b: int, m: int, q: int)
    requires s < b + m && 0 <= x < base && 0 <= q < base && b >= 0 && m > 0 && base * t == s + x * b + q * m
    ensures t < b + m
  {
    TimesBelow(base, x, b);
    TimesBelow(base, q, m);
    assert base * (t - (b + m)) < 0;
  }

  /** One accumulate-and-reduce row keeps the row invariant; the new accumulator stays below `b + m`. */
  lemma RowKeepsInvariant(base: nat, m: nat, s: nat, t: nat, i: nat, a: seq<nat>, b: nat, q: nat, multiple: nat)
    requires i < |a| && a[i] < base && q < base && m > 0
    requires AfterRows(base, m, s, i, a, b, multiple) && base * t == s + a[i] * b + q * m
    ensures Pow(base, i) * q >= 0 && AfterRows(base, m, t, i + 1, a, b, multiple + Pow(base, i) * q)
  {
    var p := Pow(base, i);
    PowPositive(base, i);
    PrefixValue(base, a, i);
    RowStep(p, base, s, t, a[i], b, m, q, Value(base, a[..i]), multiple);
    RowBound(base, s, t, a[i], b, m, q);
  }

  /** One row: with quotient digit `q` it takes the accumulator from `s` to `t`, dividing exactly by the base. */
  ghost predicate RowFrom(base: nat, m: nat, s: nat, t: nat, x: nat, b: nat, q: nat) {
    x < base && q < base && base * t == s + x * b + q * m
  }

  /** Accumulators `s` from zero on and quotient digits `q` of a run of rows over the low digits of `a`. */
  ghost predicate RowRun(base: nat, m: nat, s: seq<nat>, q: seq<nat>, a: seq<nat>, b: nat) {
    && |s| == |q| + 1 <= |a| + 1
    && s[0] == 0
    && forall i :: 0 <= i < |q| ==> RowFrom(base, m, s[i], s[i + 1], a[i], b, q[i])
  }

  /** A run goes on with a row over the next digit. */
  lemma ExtendRun(base: nat, m: nat, s: seq<nat>, q: seq<nat>, a: seq<nat>, b: nat, t: nat, k: nat)
    requires RowRun(base, m, s, q, a, b) && |q| < |a| && RowFrom(base, m, s[|q|], t, a[|q|], b, k)
    ensures RowRun(base, m, s + [t], q + [k], a, b)
  {
    var s', q' := s + [t], q + [k];
    forall i | 0 <= i < |q'| ensures RowFrom(base, m, s'[i], s'[i + 1], a[i], b, q'[i]) {
      if i < |q| {
        assert RowFrom(base, m, s[i], s[i + 1], a[i], b, q[i]);
      }
    }
  }

  /** The row invariant holds after every row of a run. */
  lemma {:induction false} AfterEveryRow(base: nat, m: nat, s: seq<nat>, q: seq<nat>, a: seq<nat>, b: nat, i: nat)
    requires m > 0 && RowRun(base, m, s, q, a, b) && i <= |q|
    ensures exists multiple: nat :: AfterRows(base, m, s[i], i, a, b, multiple)
    decreases i
  {
    if i == 0 {
      assert AfterRows(base, m, s[0], 0, a, b, 0);
    } else {
      AfterEveryRow(base, m, s, q, a, b, i - 1);
      var multiple: nat :| AfterRows(base, m, s[i - 1], i - 1, a, b, multiple);
      assert RowFrom(base, m, s[i - 1], s[i], a[i - 1], b, q[i - 1]);
      RowKeepsInvariant(base, m, s[i - 1], s[i], i - 1, a, b, q[i - 1], multiple);
    }
  }
}
