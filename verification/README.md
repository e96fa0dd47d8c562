# Verified models of three Constantine components

A Dafny 4.11 project. `dafny verify dfyconfig.toml` checks everything. It models and proves properties of

1. **the BLS12-381 base-field arithmetic** in `research/formal_verif/bls12_381_fp_u64.c`: the 64-bit
   primitives, word-by-word Montgomery multiplication and squaring, the translation out of the Montgomery
   domain with its late top-word carries, addition, subtraction, negation, the byte codec, and the
   Bernstein-Yang division step;
2. **the bit-reversed roots of unity** in `research/peerdas/roots_of_unity_check.py`;
3. **the serial and parallel histogram** in `benchmarks-threadpool/histogram_2D/openmp_histogram.c`.

## How the model follows the code

* A 64-bit word is a natural number below 2^64. Masks, shifts, casts and wrap-around are written out:
  `&`, `|`, `>>`, `<<` and `~` are defined bit by bit in `Bits.dfy` and `Words.dfy`. The primitives state
  `out1 + 2^64 * out2 = ...`; `Words.SplitWord` says that this is the documented remainder and quotient.
* The C functions are straight-line code made of the same few blocks, repeated. Each block is one
  straight-line method in `Rows.dfy` (product row, addition chain, reduction row, conditional subtraction,
  masked correction), and the field functions call them in the order of the code. The rows of a multiplication
  or translation after the first differ only in the input word they use and are a loop over those words. The
  code of `square` is that of `mul` with both operands the same, and both call `Montgomery.Product`.
* Input and output arrays are Dafny arrays; an output may be the same array as an input, as in the code,
  because all outputs are written last. `Divstep.Divstep` asks only that its four output arrays differ from
  each other.
* `Residues.Domain` is a symbolic modulus with a radix and its inverse; the ring laws are proved for every
  such domain, and `Montgomery.FP`, with radix 2^384, is the BLS12-381 instance (`Montgomery.FpIsValid`,
  `Inversion.FpIsSuitable`). `RowInvariant` states the multiplication's row invariant for any base and
  modulus. Array operations are proved to return exactly the six limbs of the corresponding `Domain`
  operation, so the laws of `Domain` are laws of the arrays.
* The documentation asks for both operands of `mul` and the operand of `from_montgomery` to be below the
  modulus. The code needs less: `Mul` requires it of `arg2` only and `FromMontgomery` of nothing. The codec
  works on all words and bytes, not only canonical ones.
* `Divstep.WrapStep` is what a division step computes with wrap-around arithmetic, on every input;
  `DivstepRuns.IntStep` is the step on integers. `DivstepRuns.StepRefines` says exactly when they agree: the
  two part only for a counter of -2^63 with an odd g (the code swaps although the counter is negative) and
  for 2^63 - 1 with an even g (the counter wraps).
* The script's `raise` statements and assertions are error values. `RootsOfUnity.CheckDomains` shows that
  three of its checks (distinctness, the permutation's own assertion, the closing assertion) cannot fail
  once the exponent checks pass, and that all four sizes pass or fail together. `PrimitiveRoot` computes
  7^((p - 1) / 2) modulo the script's p, digit by digit of the exponent; it is -1, so the script finishes.
* The parallel histogram is a step system. Rows are taken by any thread in any order, cells, bin merges and
  lock operations of different threads interleave freely, and the barrier at the end of the worksharing loop
  and the critical section are guards.
* `compare_hists` adds signed differences. It returns zero exactly when the two totals agree, which is weaker
  than equality (`Histogram.ZeroDifferenceIsNotEquality`); for the serial and the parallel result the
  histograms are equal outright (`ParallelHistogram.RefinesSerial`).

## Model

| member | source | states |
|---|---|---|
| Words.SplitWord | research/formal_verif/bls12_381_fp_u64.c:24-37 | the documented remainder and quotient by 2^64 are the same statement as the split the primitives promise |
| Words.AddCarryX | research/formal_verif/bls12_381_fp_u64.c:38-44 | sum word and carry are the exact sum; the 128-bit sum and the cast lose nothing |
| Words.SubBorrowX | research/formal_verif/bls12_381_fp_u64.c:60-66 | difference word and borrow are the exact difference, through the signed shift and the narrowing cast |
| Words.MulX | research/formal_verif/bls12_381_fp_u64.c:81-87 | the two words are the exact double-width product |
| Words.CMovZNZ | research/formal_verif/bls12_381_fp_u64.c:101-106 | the mask expression selects by the condition |
| Rows.ProductRow | research/formal_verif/bls12_381_fp_u64.c:130-166 | seven words are the exact product of a word and six words; the ignored last carry is zero |
| Rows.ReduceRow | research/formal_verif/bls12_381_fp_u64.c:166-228 | the accumulator plus a multiple of the modulus is divided exactly by 2^64; nothing of it is dropped |
| Rows.LowWordVanishes | research/formal_verif/bls12_381_fp_u64.c:166-207 | the quotient word makes the dropped low word zero |
| Rows.DroppedCarry | research/formal_verif/bls12_381_fp_u64.c:226-228 | the ignored carry beyond the eighth word is zero and the remaining seven words hold the value |
| Rows.ConditionalSubtract | research/formal_verif/bls12_381_fp_u64.c:829-861 | one conditional subtraction of the modulus gives the residue of any value below twice the modulus |
| Rows.SubtractAndCorrect | research/formal_verif/bls12_381_fp_u64.c:1720-1764 | a borrow-driven masked addition of the modulus gives the residue of a difference |
| RowInvariant.RowKeepsInvariant | research/formal_verif/bls12_381_fp_u64.c:229-348 | a row keeps the invariant: the accumulator times 2^(64i) is (low i limbs of arg1) * arg2 plus a multiple of the modulus, and it is below arg2 + m |
| RowInvariant.AfterEveryRow | research/formal_verif/bls12_381_fp_u64.c:130-828 | in every run of rows the invariant holds after each row |
| Montgomery.FirstRow | research/formal_verif/bls12_381_fp_u64.c:130-228 | the row without an accumulator is a row of such a run that starts at zero |
| Montgomery.Row | research/formal_verif/bls12_381_fp_u64.c:229-348 | from an accumulator below arg2 + m the code computes, without losing a carry, 1/2^64 of the accumulator plus word i of arg1 times arg2 plus a quotient word times m, and stays below arg2 + m |
| Montgomery.SixRows | research/formal_verif/bls12_381_fp_u64.c:123-828 | the six rows use the six words of arg1 in turn: they form a complete run of rows that ends in the accumulator, below arg2 + m |
| Montgomery.TopWordIsZero | research/formal_verif/bls12_381_fp_u64.c:285 | the word narrowed to a byte is zero |
| Montgomery.QuotientOfRun | research/formal_verif/bls12_381_fp_u64.c:829-868 | the residue of the accumulator after a run of six rows is the Montgomery product |
| Montgomery.Finish | research/formal_verif/bls12_381_fp_u64.c:829-868 | the final subtraction and select give the residue of the accumulator |
| Montgomery.Product | research/formal_verif/bls12_381_fp_u64.c:123-868 | on words, from any arg1 and canonical arg2: six canonical limbs, the Montgomery product, congruent to arg1 * arg2 after multiplication by 2^384 |
| Montgomery.FpIsValid | research/formal_verif/bls12_381_fp_u64.c:1828-1834 | the constants are inverses of 2^64 and of 2^384 modulo m, and m is odd |
| Montgomery.Mul | research/formal_verif/bls12_381_fp_u64.c:108-868 | for any arg1 and canonical arg2 the output is canonical, its six limbs are the Montgomery product, and out * 2^384 is congruent to arg1 * arg2, also in place |
| Field.Square | research/formal_verif/bls12_381_fp_u64.c:870-1628 | the output is the Montgomery product of arg1 with itself, limb for limb what multiplication gives |
| Field.Add | research/formal_verif/bls12_381_fp_u64.c:1630-1703 | the output is the canonical residue of the sum |
| Field.Sub | research/formal_verif/bls12_381_fp_u64.c:1705-1765 | the output is the canonical residue of the difference |
| Field.Opp | research/formal_verif/bls12_381_fp_u64.c:1767-1825 | the output is the canonical residue of the negation |
| FromMontgomery.OpenRow | research/formal_verif/bls12_381_fp_u64.c:1896-1973 | with the top word settled one row late the code still computes a row of the multiplication by one, and the running value never exceeds m |
| FromMontgomery.SettleSixth | research/formal_verif/bls12_381_fp_u64.c:1962-1970 | the late carries of the top word add up without a dropped carry |
| FromMontgomery.OpenRows | research/formal_verif/bls12_381_fp_u64.c:1840-2291 | the six late-settled rows are a complete run of rows of the multiplication by one, at most m |
| FromMontgomery.FromMontgomery | research/formal_verif/bls12_381_fp_u64.c:1827-2331 | for every six words the output is canonical and times 2^384 is congruent to the input |
| Residues.Domain.FromMontIsMulByOne | research/formal_verif/bls12_381_fp_u64.c:1840-2331 | translating out equals Montgomery multiplication by one, limb for limb |
| Residues.Domain.MeaningOfMul | research/formal_verif/bls12_381_fp_u64.c:113-115 | from_montgomery of the product is the product of the from_montgomery values modulo m |
| Residues.Domain.MeaningOfAdd | research/formal_verif/bls12_381_fp_u64.c:1635-1637 | the same for addition |
| Residues.Domain.MeaningOfSub | research/formal_verif/bls12_381_fp_u64.c:1710-1712 | the same for subtraction |
| Residues.Domain.MeaningOfOpp | research/formal_verif/bls12_381_fp_u64.c:1771-1773 | the same for negation |
| Residues.Domain.MeaningInjective | research/formal_verif/bls12_381_fp_u64.c:7-12 | canonical arrays with the same meaning are the same array |
| Residues.Domain.MulAssociates | research/formal_verif/bls12_381_fp_u64.c:123-868 | multiplication is associative on all arrays, limb for limb |
| Residues.Domain.MulCommutes | research/formal_verif/bls12_381_fp_u64.c:123-868 | multiplication is commutative, limb for limb |
| Residues.Domain.MulDistributes | research/formal_verif/bls12_381_fp_u64.c:1645-1703 | multiplication distributes over addition, limb for limb |
| Residues.Domain.MulOne | research/formal_verif/bls12_381_fp_u64.c:123-868 | the Montgomery form of one is neutral |
| Residues.Domain.AddAssociates | research/formal_verif/bls12_381_fp_u64.c:1645-1703 | addition is associative, limb for limb |
| Residues.Domain.AddCommutes | research/formal_verif/bls12_381_fp_u64.c:1645-1703 | addition is commutative, limb for limb |
| Residues.Domain.AddZero | research/formal_verif/bls12_381_fp_u64.c:1645-1703 | the zero array is neutral for canonical arrays |
| Residues.Domain.AddOpp | research/formal_verif/bls12_381_fp_u64.c:1780-1825 | an array plus its negation is the zero array |
| Residues.Domain.SubUndoesAdd | research/formal_verif/bls12_381_fp_u64.c:1720-1765 | subtracting what was added restores a canonical array |
| Residues.Domain.DomainRoundTrip | research/formal_verif/bls12_381_fp_u64.c:1827-1834 | for any array congruent to 2^768, entering and leaving the Montgomery domain restores every canonical array, in both orders |
| Field.Nonzero | research/formal_verif/bls12_381_fp_u64.c:2345-2348 | the word is zero exactly for the zero array |
| Residues.Domain.ZeroMeansZero | research/formal_verif/bls12_381_fp_u64.c:2337-2338 | a canonical array is zero exactly if the value it stands for is zero |
| Residues.Domain.DifferenceZero | research/formal_verif/bls12_381_fp_u64.c:2345-2348 | the difference of canonical arrays is zero exactly if they are equal |
| Field.SelectZNZ | research/formal_verif/bls12_381_fp_u64.c:2362-2381 | the output is one of the two inputs, by the condition |
| Codec.ToBytes | research/formal_verif/bls12_381_fp_u64.c:2395-2539 | the 48 bytes are the base-256 digits of the value |
| Codec.ByteFormula | research/formal_verif/bls12_381_fp_u64.c:2387-2388 | byte i is (value mod 256^(i+1)) / 256^i |
| Codec.FromBytes | research/formal_verif/bls12_381_fp_u64.c:2554-2620 | the six words have the little-endian value of the 48 bytes; no 64-bit sum wraps |
| Codec.RoundTrip | research/formal_verif/bls12_381_fp_u64.c:2395-2620 | reading and writing bytes are inverse to each other in both orders and preserve the value, on all inputs |
| Divstep.Divstep | research/formal_verif/bls12_381_fp_u64.c:2622-2919 | the five outputs are the wrap-around step of the old inputs, also in place |
| Divstep.ShiftRight | research/formal_verif/bls12_381_fp_u64.c:2825-2830 | the cross-word shift halves the 384-bit pattern and keeps its sign bit |
| Divstep.Negate | research/formal_verif/bls12_381_fp_u64.c:2644-2661 | complement and increment negate modulo 2^384 |
| DivstepRuns.StepRefines | research/formal_verif/bls12_381_fp_u64.c:2622-2919 | for odd f and numbers below 2^382 in size the words compute the integer step if and only if the counter does not overflow |
| DivstepRuns.SwapCondition | research/formal_verif/bls12_381_fp_u64.c:2623-2626 | the swap is taken exactly for odd g and a counter that is positive or -2^63 |
| Inversion.EveryRunKeepsInvariant | research/formal_verif/bls12_381_fp_u64.c:2622-2919 | in runs of any length f stays odd, f and g within m, v and r in [0, m), the counter within k + 1, and a*v = 2^k*r0*f, a*r = 2^k*r0*g modulo m |
| Inversion.WordRunRefines | research/formal_verif/bls12_381_fp_u64.c:2622-2919 | every run of at most 2^63 - 2 word-level steps decodes to the integer run and keeps its invariant |
| Inversion.StepKeepsCofactors | research/formal_verif/bls12_381_fp_u64.c:2793-2906 | a step keeps the congruences of v with f and r with g, their scale doubled |
| Inversion.StepKeepsDivisors | research/formal_verif/bls12_381_fp_u64.c:2793-2831 | a step keeps exactly the common divisors of f and g |
| Inversion.GcdAtZero | research/formal_verif/bls12_381_fp_u64.c:2626-2673 | once g is zero the size of f is the greatest common divisor of m and a |
| Inversion.ZeroIsAbsorbing | research/formal_verif/bls12_381_fp_u64.c:2793-2831 | a zero g stays zero and f no longer changes |
| Inversion.QuotientAtUnit | research/formal_verif/bls12_381_fp_u64.c:2894-2906 | if f is 1 or -1 then a * (f * v / 2^k) is the start value of r modulo m |
| Inversion.InvertibleAtUnit | research/formal_verif/bls12_381_fp_u64.c:2622-2919 | when g has reached zero, a is invertible modulo m if and only if f is 1 or -1 |
| Inversion.WordsGiveInverse | research/formal_verif/bls12_381_fp_u64.c:2622-2919 | the words of a finished run hold the gcd and, if it is one, the quotient r0 / a |
| Inversion.MontgomeryInverse | research/formal_verif/bls12_381_fp_u64.c:2622-2919 | the scaled result of a finished run multiplies with a to the Montgomery form of one |
| BitReversal.PowerOfTwoTest | research/peerdas/roots_of_unity_check.py:15-19 | the bit trick accepts exactly the powers of two |
| BitReversal.ReverseBitsIsRev | research/peerdas/roots_of_unity_check.py:22-28 | formatting, reversing and parsing the string reverses the low k bits |
| BitReversal.RevInvolution | research/peerdas/roots_of_unity_check.py:22-28 | reversing the low k bits twice restores the number |
| BitReversal.Outcome | research/peerdas/roots_of_unity_check.py:31-37 | a list comes back exactly for the empty list and power-of-two lengths; otherwise the assertion fails |
| BitReversal.Involution | research/peerdas/roots_of_unity_check.py:31-37 | wherever it succeeds, the permutation inverts itself and keeps the multiset of elements |
| BitReversal.PermutedHalves | research/peerdas/roots_of_unity_check.py:31-37 | the permuted list is the permuted even entries followed by the permuted odd entries |
| RootsOfUnity.RootsAreDistinct | research/peerdas/roots_of_unity_check.py:49-56 | for every size 2^k the two exponent checks imply that all roots are distinct |
| RootsOfUnity.DomainsNest | research/peerdas/roots_of_unity_check.py:75-77 | for every k with 2^(k+1) dividing p - 1 the bit-reversed 2^k domain is the first half of the bit-reversed 2^(k+1) domain |
| RootsOfUnity.RootsAreRoots | research/peerdas/roots_of_unity_check.py:53 | if g^n is one, the list starts with one, each entry is the one before times g reduced modulo p, and each is a reduced n-th root of unity |
| RootsOfUnity.CheckSize | research/peerdas/roots_of_unity_check.py:44-66 | at one size: a stored list exactly if the root is primitive, then the bit-reversed list of distinct roots of unity; each raised check exactly under its own condition, in the order of the code |
| RootsOfUnity.CheckDomains | research/peerdas/roots_of_unity_check.py:40-77 | the loop finishes with the two nested bit-reversed root lists exactly if root^(p-1) is one and root^((p-1)/2) is not; otherwise it raises at size 4, each check exactly under its own condition |
| PrimitiveRoot.RootIsPrimitive | research/peerdas/roots_of_unity_check.py:9-12 | for the script's own modulus p, 7^(p-1) is one and 7^((p-1)/2) is not |
| PrimitiveRoot.Climb | research/peerdas/roots_of_unity_check.py:45 | one more base-4 digit of the exponent: two squarings and a multiplication modulo p |
| RootsOfUnity.RunScript | research/peerdas/roots_of_unity_check.py:8-77 | the script with its own constants finishes and holds the bit-reversed lists of all 4096 and all 8192 roots of unity, the first being half of the second |
| Histogram.OneCellChanges | benchmarks-threadpool/histogram_2D/openmp_histogram.c:33-34 | a cell sum changes with a neighbour by the change of its distance to the cell, and with no other cell |
| Histogram.FlatCell | benchmarks-threadpool/histogram_2D/openmp_histogram.c:33-34 | the sum is zero where the four neighbours equal the cell |
| Histogram.Bin | benchmarks-threadpool/histogram_2D/openmp_histogram.c:36-37 | bin k takes the sums whose product with mat_size is at least k and below k + 1 |
| Histogram.CountCell | benchmarks-threadpool/histogram_2D/openmp_histogram.c:31-42 | a cell adds one to the bin its sum falls into, to no other, and raises the maximum to its sum if that is larger |
| Histogram.GenerateHistogram | benchmarks-threadpool/histogram_2D/openmp_histogram.c:13-48 | each bin holds the number of inner cells that fall into it, and the result is the largest cell sum |
| Histogram.CountedInItsBin | benchmarks-threadpool/histogram_2D/openmp_histogram.c:26-45 | in a complete histogram every inner cell counts once, in the bin its sum falls into |
| Histogram.RampHistogram | benchmarks-threadpool/histogram_2D/openmp_histogram.c:114-141 | for the driver's matrix of any size n >= 3 the histogram is complete exactly with (n - 2)^2 in bin 200, zero elsewhere and maximum 200 / n |
| Histogram.HistogramTotal | benchmarks-threadpool/histogram_2D/openmp_histogram.c:26-45 | a complete histogram totals (mat_size - 2)^2 |
| Histogram.CompareHists | benchmarks-threadpool/histogram_2D/openmp_histogram.c:101-112 | the result is the difference of the two totals |
| Histogram.ZeroDifferenceIsNotEquality | benchmarks-threadpool/histogram_2D/openmp_histogram.c:101-112 | different histograms can compare as zero |
| ParallelHistogram.CountPrivately | benchmarks-threadpool/histogram_2D/openmp_histogram.c:72-88 | a cell adds one to the private bin its sum falls into and to no other |
| ParallelHistogram.StepKeepsInvariant | benchmarks-threadpool/histogram_2D/openmp_histogram.c:59-97 | every step of every thread keeps row ownership, mutual exclusion, conservation of counts per bin and cover of the maximum |
| ParallelHistogram.MergesComeLast | benchmarks-threadpool/histogram_2D/openmp_histogram.c:68-93 | when any thread has begun to merge, every inner cell has been processed |
| ParallelHistogram.ProcessedTotal | benchmarks-threadpool/histogram_2D/openmp_histogram.c:68-93 | shared and not yet merged counts together number the processed cells |
| ParallelHistogram.RefinesSerial | benchmarks-threadpool/histogram_2D/openmp_histogram.c:51-99 | every finished run, with any threads and any interleaving, has the bins and the maximum of the serial loop |
| ParallelHistogram.RunsEnd | benchmarks-threadpool/histogram_2D/openmp_histogram.c:59-97 | no run exceeds the initial rank, and a state without enabled steps has all threads done |
| ParallelHistogram.CountsBounded | benchmarks-threadpool/histogram_2D/openmp_histogram.c:79-91 | no bin exceeds the number of inner cells, so no count wraps while that number fits an int |

## Left out

- The bound of Bernstein and Yang on how many steps bring g to zero: the file has no driver loop and no step count, so the inversion results start from a run that has reached g = 0.
- Primality of either modulus: the field results need only an odd modulus and the inverse of 2^384.
- Printing and the values shown by the script; negative arguments of `reverse_bits`.
- CellSum: exact reals, because rounding of single-precision sums and bin products is not modelled (it decides which side of a bin boundary a sum such as the driver's 200 / n falls on); NaN and infinities do not occur.
- GenerateHistogram: bins are unbounded integers; `ParallelHistogram.CountsBounded` gives the range they stay in. The two nested loops are the methods `GenerateHistogram`, `CountRow` and `CountCell`.
- CheckDomains: takes any modulus with p - 1 divisible by 8192, as the script's own modulus is; other moduli are not modelled.
- Allocation, freeing, timing and the driver `main` of the histogram program.
- Constant-time execution, and everything reached through the language bindings: pairings, curves, KZG, signatures and the threadpool are not part of this model.
