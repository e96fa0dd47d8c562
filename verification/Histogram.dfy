/** The histogram of a matrix's neighbour differences: reference, serial loop and comparison. */
module Histogram {

  type Matrix = seq<seq<real>>

  type Cell = (int, int)

  predicate Square(m: Matrix) {
    forall i :: 0 <= i < |m| ==> |m[i]| == |m|
  }

  /** The cells that have four neighbours. */
  predicate Inner(m: Matrix, c: Cell) {
    1 <= c.0 < |m| - 1 && 1 <= c.1 < |m| - 1
  }

  function Fabs(x: real): (r: real)
    ensures r >= 0.0 && (r == x || r == -x)
  {
    if x < 0.0 then -x else x
  }

  /** The sum of absolute differences to the four neighbours. */
  function CellSum(m: Matrix, c: Cell): (s: real)
    requires Square(m) && Inner(m, c)
    ensures s >= 0.0
  {
    var (i, j) := c;
    Fabs(m[i][j] - m[i - 1][j]) + Fabs(m[i][j] - m[i + 1][j]) + Fabs(m[i][j] - m[i][j - 1]) + Fabs(m[i][j] - m[i][j + 1])
  }

  /** The bin index; the product is not negative, so truncation is the floor. */
  function Bin(m: Matrix, c: Cell): (k: int)
    requires Square(m) && Inner(m, c)
    ensures k >= 0 && FallsInto(m, c, k)
  {
    (CellSum(m, c) * |m| as real).Floor
  }

  /** Bin `k` takes the cell sums from k / mat_size up to, not including, (k + 1) / mat_size. */
  predicate FallsInto(m: Matrix, c: Cell, k: int)
    requires Square(m) && Inner(m, c)
  {
    k as real <= CellSum(m, c) * |m| as real < k as real + 1.0
  }

  /** A cell falls into one bin only. */
  lemma OneBin(m: Matrix, c: Cell, k: int)
    requires Square(m) && Inner(m, c)
    ensures FallsInto(m, c, k) <==> k == Bin(m, c)
  {
  }

  // What a cell sum depends on, and how.

  predicate Within(m: Matrix, c: Cell) {
    0 <= c.0 < |m| && 0 <= c.1 < |m|
  }

  function At(m: Matrix, c: Cell): real
    requires Square(m) && Within(m, c)
  {
    m[c.0][c.1]
  }

  predicate Neighbours(c: Cell, n: Cell) {
    n == (c.0 - 1, c.1) || n == (c.0 + 1, c.1) || n == (c.0, c.1 - 1) || n == (c.0, c.1 + 1)
  }

  function Distance(x: real, y: real): real {
    if x <= y then y - x else x - y
  }

  /** Where the four neighbours equal the cell, the sum is zero. */
  lemma FlatCell(m: Matrix, c: Cell)
    requires Square(m) && Inner(m, c)
    requires forall n: Cell {:trigger Neighbours(c, n)} :: Neighbours(c, n) ==> At(m, n) == At(m, c)
    ensures CellSum(m, c) == 0.0
  {
    assert Neighbours(c, (c.0 - 1, c.1)) && Neighbours(c, (c.0 + 1, c.1));
    assert Neighbours(c, (c.0, c.1 - 1)) && Neighbours(c, (c.0, c.1 + 1));
  }

  lemma SumOfDistances(m: Matrix, c: Cell)
    requires Square(m) && Inner(m, c)
    ensures var (i, j) := c;
            CellSum(m, c) == Distance(At(m, (i - 1, j)), At(m, c)) + Distance(At(m, (i + 1, j)), At(m, c))
                           + Distance(At(m, (i, j - 1)), At(m, c)) + Distance(At(m, (i, j + 1)), At(m, c))
  {
  }

  /** The two matrices hold the same number at `x`. */
  predicate SameAt(m: Matrix, changed: Matrix, x: Cell)
    requires Square(m) && Square(changed) && |m| == |changed|
  {
    Within(m, x) ==> At(changed, x) == At(m, x)
  }

  /**
   * A change of one other cell `n` changes the sum of `c` by the change of its distance to `c` if the two
   * are neighbours, and not at all if they are not.
   */
  lemma OneCellChanges(m: Matrix, changed: Matrix, c: Cell, n: Cell)
    requires Square(m) && Square(changed) && |m| == |changed| && Inner(m, c) && n != c && Within(m, n)
    requires forall x :: x != n ==> SameAt(m, changed, x)
    ensures CellSum(changed, c) - CellSum(m, c)
         == if Neighbours(c, n) then Distance(At(changed, n), At(m, c)) - Distance(At(m, n), At(m, c)) else 0.0
  {
    var (i, j) := c;
    SumOfDistances(m, c);
    SumOfDistances(changed, c);
    assert SameAt(m, changed, c);
    forall x | Neighbours(c, x) && x != n ensures At(changed, x) == At(m, x) {
      assert SameAt(m, changed, x);
    }
    assert Neighbours(c, (i - 1, j)) && Neighbours(c, (i + 1, j)) && Neighbours(c, (i, j - 1)) && Neighbours(c, (i, j + 1));
  }

  /** What the code demands of its callers: every bin index lies inside the histogram. */
  ghost predicate BinsFit(m: Matrix, size: nat) {
    Square(m) && forall c: Cell {:trigger Bin(m, c)} :: Inner(m, c) ==> Bin(m, c) < size
  }

  // The reference: cells counted by bin, and the largest cell sum.

  predicate AllInner(m: Matrix, cells: set<Cell>) {
    forall c :: c in cells ==> Inner(m, c)
  }

  function InnerCells(m: Matrix): (s: set<Cell>)
    ensures AllInner(m, s)
  {
    set i, j | 1 <= i < |m| - 1 && 1 <= j < |m| - 1 :: (i, j)
  }

  function InBin(m: Matrix, cells: set<Cell>, k: int): set<Cell>
    requires Square(m) && AllInner(m, cells)
  {
    set c | c in cells && Bin(m, c) == k
  }

  function Count(m: Matrix, cells: set<Cell>, k: int): nat
    requires Square(m) && AllInner(m, cells)
  {
    |InBin(m, cells, k)|
  }

  ghost predicate Attained(m: Matrix, cells: set<Cell>, x: real)
    requires Square(m) && AllInner(m, cells)
  {
    x == 0.0 || exists c :: c in cells && CellSum(m, c) == x
  }

  /** The largest of zero and the cell sums. */
  ghost predicate IsMax(m: Matrix, cells: set<Cell>, x: real)
    requires Square(m) && AllInner(m, cells)
  {
    Attained(m, cells, x) && x >= 0.0 && forall c :: c in cells ==> CellSum(m, c) <= x
  }

  ghost predicate IsHistogram(m: Matrix, cells: set<Cell>, bins: seq<int>)
    requires Square(m) && AllInner(m, cells)
  {
    forall k :: 0 <= k < |bins| ==> bins[k] == Count(m, cells, k)
  }

  /** Bins and maximum are those of `cells`. */
  ghost predicate Matches(m: Matrix, cells: set<Cell>, bins: seq<int>, max: real)
    requires Square(m) && AllInner(m, cells)
  {
    IsHistogram(m, cells, bins) && IsMax(m, cells, max)
  }

  /** The reference determines the result. */
  lemma ReferenceUnique(m: Matrix, cells: set<Cell>, bins1: seq<int>, max1: real, bins2: seq<int>, max2: real)
    requires Square(m) && AllInner(m, cells) && |bins1| == |bins2|
    requires Matches(m, cells, bins1, max1) && Matches(m, cells, bins2, max2)
    ensures bins1 == bins2 && max1 == max2
  {
  }

  lemma CountAdd(m: Matrix, cells: set<Cell>, c: Cell, k: int)
    requires Square(m) && AllInner(m, cells) && Inner(m, c) && c !in cells
    ensures Count(m, cells + {c}, k) == Count(m, cells, k) + if Bin(m, c) == k then 1 else 0
  {
    var before, after := InBin(m, cells, k), InBin(m, cells + {c}, k);
    if Bin(m, c) == k {
      assert after == before + {c};
    } else {
      assert after == before;
    }
  }

  lemma CountBound(m: Matrix, cells: set<Cell>, k: int)
    requires Square(m) && AllInner(m, cells)
    ensures Count(m, cells, k) <= |cells|
  {
    SubsetSize(InBin(m, cells, k), cells);
  }

  lemma SubsetSize<T>(a: set<T>, b: set<T>)
    requires a <= b
    ensures |a| <= |b|
  {
    assert b == a + (b - a);
  }

  // The serial loop.

  /** The cells before position (i, j) in row order. */
  function Before(m: Matrix, i: int, j: int): (s: set<Cell>)
    ensures AllInner(m, s)
  {
    set c | c in InnerCells(m) && (c.0 < i || (c.0 == i && c.1 < j))
  }

  /** The first row starts with nothing counted, a finished row is the start of the next, the last completes. */
  lemma RowOrder(m: Matrix, i: int)
    ensures Before(m, 1, 1) == {} && Before(m, i, |m| - 1) == Before(m, i + 1, 1)
    ensures i >= |m| - 1 ==> Before(m, i, 1) == InnerCells(m)
  {
  }

  lemma NothingCounted(m: Matrix, size: nat)
    requires Square(m)
    ensures Matches(m, {}, seq(size, _ => 0), 0.0)
  {
    forall k ensures Count(m, {}, k) == 0 {
      assert InBin(m, {}, k) == {};
    }
  }

  method Clear(m: Matrix, histogram: array<int>)
    requires Square(m)
    modifies histogram
    ensures Matches(m, {}, histogram[..], 0.0)
  {
    for i := 0 to histogram.Length
      invariant forall k :: 0 <= k < i ==> histogram[k] == 0
    {
      histogram[i] := 0;
    }
    assert histogram[..] == seq(histogram.Length, _ => 0);
    NothingCounted(m, histogram.Length);
  }

  /** The body of the loops: count the cell in its bin and keep the largest sum. */
  method CountCell(m: Matrix, histogram: array<int>, i: int, j: int, max: real) returns (newMax: real)
    requires BinsFit(m, histogram.Length) && Inner(m, (i, j))
    requires Matches(m, Before(m, i, j), histogram[..], max)
    modifies histogram
    ensures Matches(m, Before(m, i, j + 1), histogram[..], newMax)
    ensures forall k :: 0 <= k < histogram.Length ==>
              histogram[k] == old(histogram[k]) + if FallsInto(m, (i, j), k) then 1 else 0
    ensures newMax >= max && newMax >= CellSum(m, (i, j)) && (newMax == max || newMax == CellSum(m, (i, j)))
  {
    NextCell(m, i, j, histogram[..], max);
    var sum := CellSum(m, (i, j));
    var k := Bin(m, (i, j));
    histogram[k] := histogram[k] + 1;
    newMax := max;
    if sum > newMax {
      newMax := sum;
    }
  }

  /** The inner loop: one row of cells. */
  method CountRow(m: Matrix, histogram: array<int>, i: int, max: real) returns (newMax: real)
    requires BinsFit(m, histogram.Length) && 1 <= i < |m| - 1
    requires Matches(m, Before(m, i, 1), histogram[..], max)
    modifies histogram
    ensures Matches(m, Before(m, i + 1, 1), histogram[..], newMax)
  {
    newMax := max;
    var j := 1;
    while j < |m| - 1
      invariant 1 <= j <= |m| - 1
      invariant Matches(m, Before(m, i, j), histogram[..], newMax)
    {
      newMax := CountCell(m, histogram, i, j, newMax);
      j := j + 1;
    }
    RowOrder(m, i);
  }

  method GenerateHistogram(m: Matrix, histogram: array<int>) returns (max: real)
    requires BinsFit(m, histogram.Length)
    modifies histogram
    ensures Matches(m, InnerCells(m), histogram[..], max)
  {
    max := 0.0;
    Clear(m, histogram);
    RowOrder(m, 1);
    var i := 1;
    while i < |m| - 1
      invariant 1 <= i
      invariant Matches(m, Before(m, i, 1), histogram[..], max)
    {
      max := CountRow(m, histogram, i, max);
      i := i + 1;
    }
    RowOrder(m, i);
  }

  /** Counting one more cell extends the reference by that cell. */
  lemma CountedOne(m: Matrix, cells: set<Cell>, c: Cell, bins: seq<int>, max: real)
    requires BinsFit(m, |bins|) && AllInner(m, cells) && Inner(m, c) && c !in cells
    requires Matches(m, cells, bins, max)
    ensures var k, sum := Bin(m, c), CellSum(m, c);
            Matches(m, cells + {c}, bins[k := bins[k] + 1], if sum > max then sum else max)
  {
    forall k ensures Count(m, cells + {c}, k) == Count(m, cells, k) + if Bin(m, c) == k then 1 else 0 {
      CountAdd(m, cells, c, k);
    }
    assert c in cells + {c};
    if max != 0.0 && CellSum(m, c) <= max {
      var w :| w in cells && CellSum(m, w) == max;
      assert w in cells + {c};
    }
  }

  lemma NextCell(m: Matrix, i: int, j: int, bins: seq<int>, max: real)
    requires BinsFit(m, |bins|) && Inner(m, (i, j))
    requires Matches(m, Before(m, i, j), bins, max)
    ensures var k, sum := Bin(m, (i, j)), CellSum(m, (i, j));
            Matches(m, Before(m, i, j + 1), bins[k := bins[k] + 1], if sum > max then sum else max)
  {
    assert Before(m, i, j + 1) == Before(m, i, j) + {(i, j)};
    CountedOne(m, Before(m, i, j), (i, j), bins, max);
  }

  // Totals and comparison.

  function Total(s: seq<int>): int {
    if s == [] then 0 else Total(s[..|s| - 1]) + s[|s| - 1]
  }

  /** The cells that fall into the first `h` bins. */
  function BinnedBelow(m: Matrix, cells: set<Cell>, h: int): set<Cell>
    requires Square(m) && AllInner(m, cells)
  {
    set c | c in cells && 0 <= Bin(m, c) < h
  }

  lemma {:induction false} TotalOfCounts(m: Matrix, cells: set<Cell>, bins: seq<int>)
    requires Square(m) && AllInner(m, cells) && IsHistogram(m, cells, bins)
    ensures Total(bins) == |BinnedBelow(m, cells, |bins|)|
  {
    if bins == [] {
      assert BinnedBelow(m, cells, 0) == {};
    } else {
      var h := |bins| - 1;
      TotalOfCounts(m, cells, bins[..h]);
      assert BinnedBelow(m, cells, |bins|) == BinnedBelow(m, cells, h) + InBin(m, cells, h);
      assert BinnedBelow(m, cells, h) !! InBin(m, cells, h);
    }
  }

  function Block(lo: int, hi: int, n: int): set<Cell> {
    set i, j | lo <= i < hi && 1 <= j < n + 1 :: (i, j)
  }

  function Row(i: int, n: int): set<Cell> {
    set j | 1 <= j < n + 1 :: (i, j)
  }

  lemma OneMoreRow(rows: int, n: int)
    ensures rows * n == (rows - 1) * n + n
  {
  }

  lemma {:induction false} BlockSize(lo: int, hi: int, n: nat)
    requires lo <= hi
    ensures |Block(lo, hi, n)| == (hi - lo) * n
    decreases hi - lo
  {
    if lo == hi {
      assert Block(lo, hi, n) == {};
    } else {
      BlockSize(lo, hi - 1, n);
      RowSize(hi - 1, n);
      assert Block(lo, hi, n) == Block(lo, hi - 1, n) + Row(hi - 1, n);
      assert Block(lo, hi - 1, n) !! Row(hi - 1, n);
      OneMoreRow(hi - lo, n);
    }
  }

  lemma {:induction false} RowSize(i: int, n: nat)
    ensures |Row(i, n)| == n
  {
    if n == 0 {
      assert Row(i, n) == {};
    } else {
      RowSize(i, n - 1);
      assert Row(i, n) == Row(i, n - 1) + {(i, n)};
    }
  }

  function InnerCount(m: Matrix): nat {
    if |m| >= 2 then (|m| - 2) * (|m| - 2) else 0
  }

  lemma InnerCellCount(m: Matrix)
    ensures |InnerCells(m)| == InnerCount(m)
  {
    if |m| >= 2 {
      BlockSize(1, |m| - 1, |m| - 2);
      assert InnerCells(m) == Block(1, |m| - 1, |m| - 2);
    } else {
      assert InnerCells(m) == {};
    }
  }

  /** A complete histogram totals one per inner cell. */
  lemma HistogramTotal(m: Matrix, bins: seq<int>)
    requires BinsFit(m, |bins|) && IsHistogram(m, InnerCells(m), bins)
    ensures Total(bins) == InnerCount(m)
  {
    TotalOfCounts(m, InnerCells(m), bins);
    assert BinnedBelow(m, InnerCells(m), |bins|) == InnerCells(m);
    InnerCellCount(m);
  }

  /** In a complete histogram every inner cell counts once, in the bin its sum falls into. */
  lemma CountedInItsBin(m: Matrix, bins: seq<int>, c: Cell, k: int)
    requires BinsFit(m, |bins|) && IsHistogram(m, InnerCells(m), bins) && Inner(m, c) && FallsInto(m, c, k)
    ensures 0 <= k < |bins| && AllInner(m, InnerCells(m) - {c})
    ensures IsHistogram(m, InnerCells(m) - {c}, bins[k := bins[k] - 1])
  {
    OneBin(m, c, k);
    var others := InnerCells(m) - {c};
    assert InnerCells(m) == others + {c};
    forall h ensures Count(m, InnerCells(m), h) == Count(m, others, h) + if h == k then 1 else 0 {
      CountAdd(m, others, c, h);
    }
  }

  // The driver's matrix.

  /** Row i of the driver's matrix holds 100 * i / n. */
  function Ramp(n: nat): (m: Matrix)
    requires n > 0
    ensures Square(m) && |m| == n
  {
    seq(n, i => seq(n, j => 100.0 * i as real / n as real))
  }

  /** Two values one row apart. */
  lemma RampStep(i: int, n: real)
    requires n > 0.0
    ensures 100.0 * (i + 1) as real / n - 100.0 * i as real / n == 100.0 / n
  {
  }

  lemma RampProduct(n: real)
    requires n > 0.0
    ensures (100.0 / n + 100.0 / n) * n == 200.0 && 100.0 / n + 100.0 / n == 200.0 / n && 100.0 / n > 0.0
  {
    assert 100.0 / n * n == 100.0;
  }

  lemma RampSum(n: nat, c: Cell)
    requires n > 0 && Inner(Ramp(n), c)
    ensures CellSum(Ramp(n), c) == 100.0 / n as real + 100.0 / n as real
  {
    var (i, j) := c;
    RampProduct(n as real);
    RampStep(i - 1, n as real);
    RampStep(i, n as real);
  }

  lemma RampCell(n: nat, c: Cell)
    requires n > 0 && Inner(Ramp(n), c)
    ensures CellSum(Ramp(n), c) == 200.0 / n as real && Bin(Ramp(n), c) == 200
  {
    RampSum(n, c);
    RampProduct(n as real);
    var m := Ramp(n);
    assert CellSum(m, c) * |m| as real == (100.0 / n as real + 100.0 / n as real) * n as real;
    OneBin(m, c, 200);
  }

  /** Whatever its size, the driver's matrix fills bin 200 alone. */
  lemma RampHistogram(n: nat, bins: seq<int>, max: real)
    requires n >= 3 && |bins| > 200
    ensures BinsFit(Ramp(n), |bins|)
    ensures Matches(Ramp(n), InnerCells(Ramp(n)), bins, max) <==>
            max == 200.0 / n as real && forall k :: 0 <= k < |bins| ==> bins[k] == if k == 200 then (n - 2) * (n - 2) else 0
  {
    var m := Ramp(n);
    var cells := InnerCells(m);
    forall c | Inner(m, c) ensures CellSum(m, c) == 200.0 / n as real && Bin(m, c) == 200 {
      RampCell(n, c);
    }
    forall k ensures Count(m, cells, k) == if k == 200 then (n - 2) * (n - 2) else 0 {
      InnerCellCount(m);
      assert InBin(m, cells, k) == if k == 200 then cells else {};
    }
    assert (1, 1) in cells;
  }

  /** The comparison adds up signed differences, so it returns the difference of the totals. */
  method CompareHists(hist1: array<int>, hist2: array<int>, n: int) returns (diff: int)
    requires n <= hist1.Length && n <= hist2.Length
    ensures diff == if n <= 0 then 0 else Total(hist1[..n]) - Total(hist2[..n])
  {
    diff := 0;
    var i := 0;
    while i < n
      invariant 0 <= i && (i == 0 || i <= n)
      invariant diff == Total(hist1[..i]) - Total(hist2[..i])
    {
      var tmp := hist1[i] - hist2[i];
      diff := diff + tmp;
      assert hist1[..i + 1][..i] == hist1[..i] && hist2[..i + 1][..i] == hist2[..i];
      i := i + 1;
    }
  }

  /** A zero comparison does not mean equal histograms: misplaced counts cancel. */
  lemma ZeroDifferenceIsNotEquality()
    ensures exists a: seq<int>, b: seq<int> :: |a| == |b| && a != b && Total(a) - Total(b) == 0
  {
    var a, b := [1, 0], [0, 1];
    assert a[..1] == [1] && b[..1] == [0] && [1][..0] == [] && [0][..0] == [];
    assert Total([1]) == 1 && Total([0]) == 0;
    assert Total(a) == 1 && Total(b) == 1;
    assert a[0] != b[0];
  }
}
