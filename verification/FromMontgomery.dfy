/** Translation out of the Montgomery domain, whose top word is added up one row later than the rest. */
module FromMontgomery {
  import opened Arith
  import opened Words
  import opened Limbs
  import opened Rows
  import opened Residues
  import opened RowInvariant
  import opened Montgomery

  /**
   * Five settled words and the three parts of the sixth: the product row's last carry and high word,
   * and the carry of the addition.
   */
  datatype OpenAcc = OpenAcc(t0: Word, t1: Word, t2: Word, t3: Word, t4: Word, carry: Bit, high: Word, carry2: Bit) {
    function Eval(): nat {
      Six(t0, t1, t2, t3, t4, carry + high + carry2)
    }
  }

  /** Adds the next input word to the five settled words. */
  method AddWord(s: OpenAcc, x: Word) returns (u: seq<Word>, k: Bit)
    ensures |u| == 5
    ensures Six(u[0], u[1], u[2], u[3], u[4], k) == Six(s.t0, s.t1, s.t2, s.t3, s.t4, 0) + x
  {
    var u0, k0 := AddCarryX(0, s.t0, x);
    var u1, k1 := AddCarryX(k0, s.t1, 0);
    var u2, k2 := AddCarryX(k1, s.t2, 0);
    var u3, k3 := AddCarryX(k2, s.t3, 0);
    var u4, k4 := AddCarryX(k3, s.t4, 0);
    u, k := [u0, u1, u2, u3, u4], k4;
  }

  /** The sixth word, added up at last: while the running value fits six words, no carry is dropped. */
  method SettleSixth(s: OpenAcc) returns (w: Word)
    requires s.carry + s.high + s.carry2 < BASE
    ensures w == s.carry + s.high + s.carry2
  {
    var w1, d1 := AddCarryX(s.carry, s.high, 0);
    var w2, d2 := AddCarryX(s.carry2, 0, w1);
    w := w2;
  }

  method SettleSixthWith(s: OpenAcc, k: Bit) returns (w: Word)
    requires s.carry + s.high + s.carry2 + k < BASE
    ensures w == s.carry + s.high + s.carry2 + k
  {
    var w2 := SettleSixth(s);
    var w3, d3 := AddCarryX(k, w2, 0);
    w := w3;
  }

  /** What a row leaves: the sum of the six words and the multiple of the modulus, its sixth word open. */
  lemma OpenSum(z: Limbs, t: OpenAcc, x: Limbs, p: Limbs, carry: Bit, high: Word, carry2: Bit, q: Word)
    requires Eval(z) + RADIX * carry2 == Eval(x) + Eval(p) && Eval(p) + RADIX * (carry + high) == q * MODULUS
    requires t == OpenAcc(z[1], z[2], z[3], z[4], z[5], carry, high, carry2)
    ensures z[0] + BASE * t.Eval() == Six(x[0], x[1], x[2], x[3], x[4], x[5]) + q * MODULUS
  {
    EvalWords();
  }

  /**
   * One row: add the next word, clear the low word, and only now settle the previous row's sixth word.
   * The running value never exceeds the modulus, so no carry is dropped.
   */
  method OpenRow(s: OpenAcc, x: Word) returns (t: OpenAcc, ghost q: Word)
    requires s.Eval() <= MODULUS
    ensures RowFrom(BASE, MODULUS, s.Eval(), t.Eval(), x, 1, q)
    ensures t.Eval() <= MODULUS
  {
    var u, k := AddWord(s, x);
    var q', h := MulX(u[0], M_PRIME);
    q := q';
    var p, carry, high := OpenProductRow(q', M);
    var w := SettleSixthWith(s, k);
    var z, carry2 := AddLimbs(u + [w], p);
    ModulusFacts();
    t := OpenAcc(z[1], z[2], z[3], z[4], z[5], carry, high, carry2);
    OpenSum(z, t, u + [w], p, carry, high, carry2, q);
    LowWordVanishes(u[0], q, h, Six(u[1], u[2], u[3], u[4], w, 0), z[0], t.Eval());
  }

  /** The first row: there is nothing to add to but the first input word. */
  method FirstOpenRow(x: Word) returns (t: OpenAcc, ghost q: Word)
    ensures RowFrom(BASE, MODULUS, 0, t.Eval(), x, 1, q)
    ensures t.Eval() <= MODULUS
  {
    var q', h := MulX(x, M_PRIME);
    q := q';
    var p, carry, high := OpenProductRow(q', M);
    var z, carry2 := AddLimbs([x, 0, 0, 0, 0, 0], p);
    ModulusFacts();
    t := OpenAcc(z[1], z[2], z[3], z[4], z[5], carry, high, carry2);
    OpenSum(z, t, [x, 0, 0, 0, 0, 0], p, carry, high, carry2, q);
    LowWordVanishes(x, q, h, 0, z[0], t.Eval());
  }

  /** After the last row the sixth word is settled once more and all six words are at hand. */
  method SettleAll(s: OpenAcc) returns (z: Limbs)
    requires s.Eval() <= MODULUS
    ensures Eval(z) == s.Eval()
  {
    var w := SettleSixth(s);
    EvalWords();
    z := [s.t0, s.t1, s.t2, s.t3, s.t4, w];
  }

  /** The six rows of a translation: those of a multiplication by one. */
  method OpenRows(a: Limbs) returns (t: OpenAcc, ghost s: seq<nat>, ghost q: seq<nat>)
    ensures RowRun(BASE, MODULUS, s, q, a, 1) && |q| == 6 && s[6] == t.Eval()
    ensures t.Eval() <= MODULUS
  {
    ghost var k;
    t, k := FirstOpenRow(a[0]);
    ExtendRun(BASE, MODULUS, [0], [], a, 1, t.Eval(), k);
    s, q := [0] + [t.Eval()], [] + [k];
    for i := 1 to 6
      invariant RowRun(BASE, MODULUS, s, q, a, 1) && |q| == i && s[i] == t.Eval()
      invariant t.Eval() <= MODULUS
    {
      t, k := OpenRow(t, a[i]);
      ExtendRun(BASE, MODULUS, s, q, a, 1, t.Eval(), k);
      s, q := s + [t.Eval()], q + [k];
    }
  }

  /** The translation on words, before anything is written. */
  method Translate(a: Limbs) returns (r: Limbs)
    ensures r == FP.FromMont(a) && FP.Canonical(r)
    ensures (FP.radix * Eval(r)) % MODULUS == Eval(a) % MODULUS
  {
    var t, s, q := OpenRows(a);
    var z := SettleAll(t);
    r := ConditionalSubtract(z, 0);
    QuotientOfRun(s, q, r, a, 1);
  }

  /** Every six-word input is accepted, not only canonical ones. */
  method FromMontgomery(out1: array<Word>, arg1: array<Word>)
    requires out1.Length == arg1.Length == 6
    modifies out1
    ensures out1[..] == FP.FromMont(old(arg1[..]))
    ensures FP.Canonical(out1[..])
    ensures (RADIX * Eval(out1[..])) % MODULUS == Eval(old(arg1[..])) % MODULUS
  {
    var r := Translate(arg1[..]);
    Store(out1, r);
  }
}
