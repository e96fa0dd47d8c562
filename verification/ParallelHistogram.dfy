/** The parallel histogram as a step system: any threads, any split of rows, any interleaving. */
module ParallelHistogram {
  import opened Histogram

  /** Where a thread is: between rows, at a cell, at the barrier that ends the loop, in the critical section, done. */
  datatype Phase = Idle | AtCell(row: int, col: int) | AtBarrier | Merging(bin: nat) | Done

  /** A thread with its private histogram and maximum. */
  datatype Thread = Thread(phase: Phase, bins: seq<int>, max: real)

  /**
   * The shared histogram and maximum, the owner of the critical section, the rows not yet handed out
   * and the threads. `counted` is a history of the cells processed so far; no step reads it.
   */
  datatype State = State(bins: seq<int>, max: real, owner: int, todo: set<int>, threads: seq<Thread>, counted: set<Cell>)

  const FREE: int := -1

  datatype Action =
    | TakeRow(t: nat, row: int)
    | DoCell(t: nat)
    | EndRow(t: nat)
    | Arrive(t: nat)
    | Enter(t: nat)
    | MergeBin(t: nat)
    | Leave(t: nat)

  function Zeros(size: nat): seq<int> {
    seq(size, _ => 0)
  }

  predicate InnerRow(m: Matrix, i: int) {
    1 <= i < |m| - 1
  }

  function Rows(m: Matrix): set<int> {
    set i | 1 <= i < |m| - 1 && InnerRow(m, i)
  }

  function Init(m: Matrix, size: nat, workers: nat): State {
    State(Zeros(size), 0.0, FREE, Rows(m), seq(workers, _ => Thread(Idle, Zeros(size), 0.0)), {})
  }

  /** The worksharing loop ends with a barrier: no thread passes while one still works on rows. */
  predicate BarrierOpen(s: State) {
    s.todo == {} && forall u :: 0 <= u < |s.threads| ==> !s.threads[u].phase.Idle? && !s.threads[u].phase.AtCell?
  }

  predicate Enabled(m: Matrix, s: State, a: Action) {
    a.t < |s.threads| &&
    var p := s.threads[a.t].phase;
    match a
    case TakeRow(_, row) => p.Idle? && row in s.todo
    case DoCell(_) => p.AtCell? && p.col < |m| - 1
    case EndRow(_) => p.AtCell? && p.col >= |m| - 1
    case Arrive(_) => p.Idle? && s.todo == {}
    case Enter(_) => p.AtBarrier? && BarrierOpen(s) && s.owner == FREE
    case MergeBin(_) => p.Merging? && p.bin < |s.bins|
    case Leave(_) => p.Merging? && p.bin >= |s.bins|
  }

  /** Processing a cell touches only the thread's private data. */
  function CountPrivately(m: Matrix, th: Thread): (next: Thread)
    requires BinsFit(m, |th.bins|) && th.phase.AtCell? && Inner(m, (th.phase.row, th.phase.col))
    ensures |next.bins| == |th.bins|
    ensures forall k :: 0 <= k < |th.bins| ==>
              next.bins[k] == th.bins[k] + if FallsInto(m, (th.phase.row, th.phase.col), k) then 1 else 0
  {
    var c := (th.phase.row, th.phase.col);
    var k, sum := Bin(m, c), CellSum(m, c);
    Thread(AtCell(c.0, c.1 + 1), th.bins[k := th.bins[k] + 1], if sum > th.max then sum else th.max)
  }

  // The invariant.

  /** Shapes: sizes of the histograms, rows in range, bins never negative. */
  ghost predicate Shape(m: Matrix, size: nat, s: State) {
    && BinsFit(m, size) && |s.bins| == size && AllInner(m, s.counted)
    && (forall k :: 0 <= k < size ==> s.bins[k] >= 0)
    && (forall i :: i in s.todo ==> i in Rows(m))
    && (forall u :: 0 <= u < |s.threads| ==> ThreadShape(m, size, s.threads[u]))
  }

  ghost predicate ThreadShape(m: Matrix, size: nat, th: Thread) {
    && |th.bins| == size && (forall k :: 0 <= k < size ==> th.bins[k] >= 0)
    && th.max >= 0.0
    && (th.phase.AtCell? ==> th.phase.row in Rows(m) && 1 <= th.phase.col <= |m| - 1)
    && (th.phase.Merging? ==> th.phase.bin <= size)
  }

  /** A row is handed out once: a row being worked on is neither still to do nor anyone else's. */
  predicate RowsOwned(s: State) {
    && (forall u :: 0 <= u < |s.threads| && s.threads[u].phase.AtCell? ==> s.threads[u].phase.row !in s.todo)
    && (forall u, v :: 0 <= u < v < |s.threads| && s.threads[u].phase.AtCell? && s.threads[v].phase.AtCell?
          ==> s.threads[u].phase.row != s.threads[v].phase.row)
  }

  /** Whether a thread is in the row of `c` and has not yet processed it. */
  predicate Ahead(th: Thread, c: Cell) {
    th.phase.AtCell? && th.phase.row == c.0 && th.phase.col <= c.1
  }

  /** Whether cell `c` has been reached: its row was handed out and no thread has it still ahead. */
  predicate Reached(s: State, c: Cell) {
    c.0 !in s.todo && forall u :: 0 <= u < |s.threads| ==> !Ahead(s.threads[u], c)
  }

  ghost predicate History(m: Matrix, s: State) {
    forall c: Cell {:trigger c in s.counted} :: c in s.counted <==> Inner(m, c) && Reached(s, c)
  }

  /** Mutual exclusion, and nothing is merged before all rows are done. */
  predicate Exclusive(s: State) {
    && (s.owner == FREE || 0 <= s.owner < |s.threads|)
    && (forall u :: 0 <= u < |s.threads| ==> (s.threads[u].phase.Merging? <==> s.owner == u))
    && ((exists u :: 0 <= u < |s.threads| && (s.threads[u].phase.Merging? || s.threads[u].phase.Done?)) ==> BarrierOpen(s))
    && ((exists u :: 0 <= u < |s.threads| && s.threads[u].phase.AtBarrier?) ==> s.todo == {})
  }

  /** What a thread has counted in bin `k` and not yet merged. */
  function Pending(th: Thread, k: nat): int
    requires k < |th.bins|
  {
    if th.phase.Done? || (th.phase.Merging? && k < th.phase.bin) then 0 else th.bins[k]
  }

  function PendingSum(threads: seq<Thread>, k: nat): int
    requires forall u :: 0 <= u < |threads| ==> k < |threads[u].bins|
  {
    if threads == [] then 0 else PendingSum(threads[..|threads| - 1], k) + Pending(threads[|threads| - 1], k)
  }

  /** Conservation: shared counts plus pending counts are the counts of the processed cells. */
  ghost predicate Conserved(m: Matrix, size: nat, s: State)
    requires Shape(m, size, s)
  {
    forall k: nat :: k < size ==> s.bins[k] + PendingSum(s.threads, k) == Count(m, s.counted, k)
  }

  /** Every processed cell is covered by the shared maximum or by the maximum of a thread still to merge. */
  ghost predicate Covered(m: Matrix, s: State, c: Cell)
    requires Square(m) && Inner(m, c)
  {
    CellSum(m, c) <= s.max
    || exists u :: 0 <= u < |s.threads| && !s.threads[u].phase.Done? && CellSum(m, c) <= s.threads[u].max
  }

  ghost predicate MaxTracked(m: Matrix, s: State)
    requires Square(m) && AllInner(m, s.counted)
  {
    && s.max >= 0.0 && Attained(m, s.counted, s.max)
    && (forall u :: 0 <= u < |s.threads| ==> Attained(m, s.counted, s.threads[u].max))
    && (forall c :: c in s.counted ==> Covered(m, s, c))
  }

  ghost predicate Inv(m: Matrix, size: nat, s: State) {
    Shape(m, size, s) && RowsOwned(s) && History(m, s) && Exclusive(s) && Conserved(m, size, s) && MaxTracked(m, s)
  }

  /** Every array access of the action is in bounds. */
  ghost predicate InBounds(m: Matrix, s: State, a: Action)
    requires a.t < |s.threads|
  {
    && BinsFit(m, |s.bins|) && |s.threads[a.t].bins| == |s.bins|
    && (s.threads[a.t].phase.AtCell? ==> s.threads[a.t].phase.row in Rows(m) && 1 <= s.threads[a.t].phase.col)
  }

  function Apply(m: Matrix, s: State, a: Action): State
    requires Enabled(m, s, a) && InBounds(m, s, a)
  {
    var th := s.threads[a.t];
    match a
    case TakeRow(t, row) => s.(todo := s.todo - {row}, threads := s.threads[t := th.(phase := AtCell(row, 1))])
    case DoCell(t) =>
      s.(threads := s.threads[t := CountPrivately(m, th)], counted := s.counted + {(th.phase.row, th.phase.col)})
    case EndRow(t) => s.(threads := s.threads[t := th.(phase := Idle)])
    case Arrive(t) => s.(threads := s.threads[t := th.(phase := AtBarrier)])
    case Enter(t) => s.(threads := s.threads[t := th.(phase := Merging(0))], owner := t)
    case MergeBin(t) =>
      var b := th.phase.bin;
      s.(bins := s.bins[b := s.bins[b] + th.bins[b]], threads := s.threads[t := th.(phase := Merging(b + 1))])
    case Leave(t) =>
      s.(max := if th.max > s.max then th.max else s.max, threads := s.threads[t := th.(phase := Done)], owner := FREE)
  }

  // Each step keeps each part.

  lemma {:induction false} PendingUpdate(threads: seq<Thread>, t: nat, th: Thread, k: nat)
    requires t < |threads| && k < |th.bins| && forall u :: 0 <= u < |threads| ==> k < |threads[u].bins|
    ensures PendingSum(threads[t := th], k) == PendingSum(threads, k) - Pending(threads[t], k) + Pending(th, k)
  {
    var n := |threads| - 1;
    if t == n {
      assert threads[t := th][..n] == threads[..n];
    } else {
      assert threads[t := th][..n] == threads[..n][t := th];
      PendingUpdate(threads[..n], t, th, k);
    }
  }

  lemma StepKeepsShape(m: Matrix, size: nat, s: State, a: Action)
    requires Shape(m, size, s) && Enabled(m, s, a)
    ensures Shape(m, size, Apply(m, s, a))
  {
  }

  lemma StepKeepsRows(m: Matrix, size: nat, s: State, a: Action)
    requires Shape(m, size, s) && RowsOwned(s) && Enabled(m, s, a)
    ensures RowsOwned(Apply(m, s, a))
  {
  }

  lemma StepKeepsExclusive(m: Matrix, size: nat, s: State, a: Action)
    requires Shape(m, size, s) && Exclusive(s) && Enabled(m, s, a)
    ensures Exclusive(Apply(m, s, a))
  {
  }

  lemma StepKeepsHistory(m: Matrix, size: nat, s: State, a: Action)
    requires Shape(m, size, s) && RowsOwned(s) && History(m, s) && Enabled(m, s, a)
    ensures History(m, Apply(m, s, a))
  {
    var s' := Apply(m, s, a);
    forall c: Cell ensures c in s'.counted <==> Inner(m, c) && Reached(s', c) {
      if Inner(m, c) {
        ReachedAfter(m, size, s, a, c);
      }
    }
  }

  /** A step reaches the cell it processes and no other. */
  lemma ReachedAfter(m: Matrix, size: nat, s: State, a: Action, c: Cell)
    requires Shape(m, size, s) && RowsOwned(s) && Enabled(m, s, a) && Inner(m, c)
    ensures Reached(Apply(m, s, a), c) <==>
      Reached(s, c) || (a.DoCell? && c == (s.threads[a.t].phase.row, s.threads[a.t].phase.col))
  {
    var s', t := Apply(m, s, a), a.t;
    assert forall u :: 0 <= u < |s.threads| && u != t ==> s'.threads[u] == s.threads[u];
    if a.TakeRow? && c.0 == a.row {
      assert Ahead(s'.threads[t], c);
    } else if a.DoCell? && c == (s.threads[t].phase.row, s.threads[t].phase.col) {
      assert forall u :: 0 <= u < |s.threads| && u != t ==> !Ahead(s.threads[u], c);
      assert !Ahead(s'.threads[t], c);
    } else {
      assert Ahead(s'.threads[t], c) <==> Ahead(s.threads[t], c);
    }
  }

  lemma StepKeepsCounts(m: Matrix, size: nat, s: State, a: Action)
    requires Shape(m, size, s) && History(m, s) && Conserved(m, size, s) && Enabled(m, s, a) && Shape(m, size, Apply(m, s, a))
    ensures Conserved(m, size, Apply(m, s, a))
  {
    var s' := Apply(m, s, a);
    var th := s.threads[a.t];
    forall k: nat | k < size ensures s'.bins[k] + PendingSum(s'.threads, k) == Count(m, s'.counted, k) {
      PendingUpdate(s.threads, a.t, s'.threads[a.t], k);
      if a.DoCell? {
        var c := (th.phase.row, th.phase.col);
        assert !Reached(s, c);
        CountAdd(m, s.counted, c, k);
      }
    }
  }

  lemma StepKeepsMax(m: Matrix, size: nat, s: State, a: Action)
    requires Shape(m, size, s) && MaxTracked(m, s) && Enabled(m, s, a) && Shape(m, size, Apply(m, s, a))
    ensures MaxTracked(m, Apply(m, s, a))
  {
    var s' := Apply(m, s, a);
    forall x | Attained(m, s.counted, x) ensures Attained(m, s'.counted, x) {
      assert s.counted <= s'.counted;
    }
    if a.DoCell? {
      var c := (s.threads[a.t].phase.row, s.threads[a.t].phase.col);
      assert c in s'.counted;
      assert CellSum(m, c) <= s'.threads[a.t].max;
    }
    forall c | c in s.counted ensures Covered(m, s', c) {
      CoveredAfter(m, size, s, a, c);
    }
  }

  lemma CoveredAfter(m: Matrix, size: nat, s: State, a: Action, c: Cell)
    requires Shape(m, size, s) && Enabled(m, s, a) && Inner(m, c) && Covered(m, s, c)
    ensures Covered(m, Apply(m, s, a), c)
  {
    CoverTransfer(m, s, Apply(m, s, a), a.t, c);
  }

  /** Cover survives if one thread's maximum only grows, or moves into the shared one when it is done. */
  lemma CoverTransfer(m: Matrix, s: State, s': State, t: nat, c: Cell)
    requires Square(m) && Inner(m, c) && Covered(m, s, c)
    requires t < |s.threads| == |s'.threads| && s'.threads == s.threads[t := s'.threads[t]] && s'.max >= s.max
    requires s.threads[t].phase.Done? || s.threads[t].max <= s'.max
      || (!s'.threads[t].phase.Done? && s.threads[t].max <= s'.threads[t].max)
    ensures Covered(m, s', c)
  {
    if CellSum(m, c) > s.max {
      var u :| 0 <= u < |s.threads| && !s.threads[u].phase.Done? && CellSum(m, c) <= s.threads[u].max;
      if u != t {
        assert s'.threads[u] == s.threads[u];
      }
    }
  }

  /** Every step keeps the invariant. */
  lemma StepKeepsInvariant(m: Matrix, size: nat, s: State, a: Action)
    requires Inv(m, size, s) && Enabled(m, s, a)
    ensures Inv(m, size, Apply(m, s, a))
  {
    StepKeepsShape(m, size, s, a);
    StepKeepsRows(m, size, s, a);
    StepKeepsExclusive(m, size, s, a);
    StepKeepsHistory(m, size, s, a);
    StepKeepsCounts(m, size, s, a);
    StepKeepsMax(m, size, s, a);
  }

  // Runs.

  /** A run performs enabled actions one after another. */
  ghost predicate Runs(m: Matrix, s: State, actions: seq<Action>, end: State)
    decreases |actions|
  {
    if actions == [] then end == s
    else Enabled(m, s, actions[0]) && InBounds(m, s, actions[0]) && Runs(m, Apply(m, s, actions[0]), actions[1..], end)
  }

  predicate AllDone(s: State) {
    forall u :: 0 <= u < |s.threads| ==> s.threads[u].phase.Done?
  }

  lemma {:induction false} PendingZero(threads: seq<Thread>, k: nat)
    requires forall u :: 0 <= u < |threads| ==> k < |threads[u].bins| && Pending(threads[u], k) == 0
    ensures PendingSum(threads, k) == 0
  {
    if threads != [] {
      PendingZero(threads[..|threads| - 1], k);
    }
  }

  lemma InitKeepsInvariant(m: Matrix, size: nat, workers: nat)
    requires BinsFit(m, size)
    ensures Inv(m, size, Init(m, size, workers))
  {
    var s := Init(m, size, workers);
    NothingCounted(m, size);
    forall k: nat | k < size ensures s.bins[k] + PendingSum(s.threads, k) == Count(m, {}, k) {
      PendingZero(s.threads, k);
      assert InBin(m, {}, k) == {};
    }
    forall c: Cell ensures c in s.counted <==> Inner(m, c) && Reached(s, c) {
      assert Inner(m, c) ==> InnerRow(m, c.0);
    }
  }

  /** Every reachable state satisfies the invariant. */
  lemma {:induction false} RunKeepsInvariant(m: Matrix, size: nat, s: State, actions: seq<Action>, end: State)
    requires Inv(m, size, s) && Runs(m, s, actions, end)
    ensures Inv(m, size, end)
    decreases |actions|
  {
    if actions != [] {
      StepKeepsInvariant(m, size, s, actions[0]);
      RunKeepsInvariant(m, size, Apply(m, s, actions[0]), actions[1..], end);
    }
  }

  /** The barrier: when any thread has begun to merge, every inner cell has been processed. */
  lemma MergesComeLast(m: Matrix, size: nat, s: State, u: nat)
    requires Inv(m, size, s) && u < |s.threads| && (s.threads[u].phase.Merging? || s.threads[u].phase.Done?)
    ensures s.counted == InnerCells(m)
  {
    assert BarrierOpen(s);
    forall c: Cell ensures c in s.counted <==> c in InnerCells(m) {
      assert Inner(m, c) ==> Reached(s, c);
    }
  }

  /** In a reachable state with all threads done, bins and maximum are those of all inner cells. */
  lemma FinalState(m: Matrix, size: nat, s: State)
    requires Inv(m, size, s) && AllDone(s) && |s.threads| > 0
    ensures Matches(m, InnerCells(m), s.bins, s.max)
  {
    MergesComeLast(m, size, s, 0);
    forall k: nat | k < size ensures s.bins[k] == Count(m, s.counted, k) {
      PendingZero(s.threads, k);
    }
    forall c | c in s.counted ensures CellSum(m, c) <= s.max {
      assert Covered(m, s, c);
    }
  }

  /**
   * The parallel version refines the serial one: with any positive number of threads and in any run that
   * ends with all of them done, bins and maximum are those of the serial loop, and every inner cell is
   * counted once.
   */
  lemma RefinesSerial(m: Matrix, size: nat, workers: nat, actions: seq<Action>, end: State,
                      serialBins: seq<int>, serialMax: real)
    requires BinsFit(m, size) && workers > 0 && Runs(m, Init(m, size, workers), actions, end) && AllDone(end)
    requires |serialBins| == size && Matches(m, InnerCells(m), serialBins, serialMax)
    ensures end.bins == serialBins && end.max == serialMax && Total(end.bins) == InnerCount(m)
  {
    InitKeepsInvariant(m, size, workers);
    RunKeepsInvariant(m, size, Init(m, size, workers), actions, end);
    RunKeepsThreads(m, Init(m, size, workers), actions, end);
    FinalState(m, size, end);
    ReferenceUnique(m, InnerCells(m), end.bins, end.max, serialBins, serialMax);
    HistogramTotal(m, end.bins);
  }

  lemma {:induction false} RunKeepsThreads(m: Matrix, s: State, actions: seq<Action>, end: State)
    requires Runs(m, s, actions, end)
    ensures |end.threads| == |s.threads|
    decreases |actions|
  {
    if actions != [] {
      RunKeepsThreads(m, Apply(m, s, actions[0]), actions[1..], end);
    }
  }

  // Progress.

  function ThreadRank(m: Matrix, size: nat, th: Thread): nat {
    match th.phase
    case Idle => size + 4
    case AtCell(_, col) => size + 5 + if col < |m| - 1 then |m| - 1 - col else 0
    case AtBarrier => size + 3
    case Merging(bin) => 1 + if bin < size then size - bin else 0
    case Done => 0
  }

  function RankSum(m: Matrix, size: nat, threads: seq<Thread>): nat {
    if threads == [] then 0
    else RankSum(m, size, threads[..|threads| - 1]) + ThreadRank(m, size, threads[|threads| - 1])
  }

  function Rank(m: Matrix, s: State): nat {
    |s.todo| * (|m| + 1) + RankSum(m, |s.bins|, s.threads)
  }

  lemma {:induction false} RankUpdate(m: Matrix, size: nat, threads: seq<Thread>, t: nat, th: Thread)
    requires t < |threads|
    ensures RankSum(m, size, threads[t := th]) + ThreadRank(m, size, threads[t])
         == RankSum(m, size, threads) + ThreadRank(m, size, th)
  {
    var n := |threads| - 1;
    if t == n {
      assert threads[t := th][..n] == threads[..n];
    } else {
      assert threads[t := th][..n] == threads[..n][t := th];
      RankUpdate(m, size, threads[..n], t, th);
    }
  }

  lemma OneRowLess(rows: int, cost: int)
    ensures rows * cost == (rows - 1) * cost + cost
  {
  }

  /** Every action lowers the rank. */
  lemma StepDescends(m: Matrix, s: State, a: Action)
    requires Enabled(m, s, a) && InBounds(m, s, a)
    requires a.TakeRow? ==> InnerRow(m, a.row)
    ensures Rank(m, Apply(m, s, a)) < Rank(m, s)
  {
    var s' := Apply(m, s, a);
    RankUpdate(m, |s.bins|, s.threads, a.t, s'.threads[a.t]);
    if a.TakeRow? {
      assert |s'.todo| == |s.todo| - 1;
      OneRowLess(|s.todo|, |m| + 1);
    }
  }

  lemma OwnerMerges(s: State)
    requires Exclusive(s)
    ensures s.owner == FREE || exists u: nat :: u < |s.threads| && s.threads[u].phase.Merging?
  {
    if s.owner != FREE {
      assert s.threads[s.owner].phase.Merging?;
    }
  }

  /** No reachable state is stuck before all threads are done. */
  lemma NotStuck(m: Matrix, size: nat, s: State)
    requires Inv(m, size, s) && !AllDone(s)
    ensures exists a: Action :: Enabled(m, s, a) && InBounds(m, s, a)
  {
    if t: nat :| t < |s.threads| && s.threads[t].phase.AtCell? {
      var a := if s.threads[t].phase.col < |m| - 1 then DoCell(t) else EndRow(t);
      assert Enabled(m, s, a) && InBounds(m, s, a);
    } else if t: nat :| t < |s.threads| && s.threads[t].phase.Idle? {
      var a := if row :| row in s.todo then TakeRow(t, row) else Arrive(t);
      assert Enabled(m, s, a) && InBounds(m, s, a);
    } else if t: nat :| t < |s.threads| && s.threads[t].phase.Merging? {
      var a := if s.threads[t].phase.bin < |s.bins| then MergeBin(t) else Leave(t);
      assert Enabled(m, s, a) && InBounds(m, s, a);
    } else {
      var t: nat :| t < |s.threads| && s.threads[t].phase.AtBarrier?;
      OwnerMerges(s);
      assert Enabled(m, s, Enter(t)) && InBounds(m, s, Enter(t));
    }
  }

  /**
   * Every run ends: no run is longer than the initial rank, and a reachable state in which nothing is
   * enabled has all threads done.
   */
  lemma {:induction false} RunsEnd(m: Matrix, size: nat, s: State, actions: seq<Action>, end: State)
    requires Inv(m, size, s) && Runs(m, s, actions, end)
    ensures |actions| + Rank(m, end) <= Rank(m, s)
    ensures (forall a: Action :: !(Enabled(m, end, a) && InBounds(m, end, a))) ==> AllDone(end)
    decreases |actions|
  {
    if actions == [] {
      if !AllDone(end) {
        NotStuck(m, size, end);
      }
    } else {
      StepKeepsInvariant(m, size, s, actions[0]);
      StepDescends(m, s, actions[0]);
      RunsEnd(m, size, Apply(m, s, actions[0]), actions[1..], end);
    }
  }

  /** At every step, shared and pending counts together number the cells processed so far. */
  lemma ProcessedTotal(m: Matrix, size: nat, s: State)
    requires Inv(m, size, s)
    ensures Total(seq(size, k requires 0 <= k < size => s.bins[k] + PendingSum(s.threads, k))) == |s.counted|
  {
    var sums := seq(size, k requires 0 <= k < size => s.bins[k] + PendingSum(s.threads, k));
    TotalOfCounts(m, s.counted, sums);
    assert BinnedBelow(m, s.counted, size) == s.counted;
  }

  // Machine integers.

  lemma {:induction false} PendingAtMostSum(threads: seq<Thread>, k: nat, t: nat)
    requires forall u :: 0 <= u < |threads| ==> k < |threads[u].bins| && threads[u].bins[k] >= 0
    ensures PendingSum(threads, k) >= 0
    ensures t < |threads| ==> Pending(threads[t], k) <= PendingSum(threads, k)
  {
    if threads != [] {
      PendingAtMostSum(threads[..|threads| - 1], k, t);
    }
  }

  /**
   * In every reachable state no shared bin and no pending private bin exceeds the number of inner cells,
   * so no increment or merge wraps around while that number fits the machine integer.
   */
  lemma CountsBounded(m: Matrix, size: nat, s: State, k: nat, t: nat)
    requires Inv(m, size, s) && k < size && t < |s.threads|
    ensures 0 <= s.bins[k] <= InnerCount(m) && 0 <= Pending(s.threads[t], k) <= InnerCount(m)
    ensures s.bins[k] + Pending(s.threads[t], k) <= InnerCount(m)
  {
    PendingAtMostSum(s.threads, k, t);
    CountBound(m, s.counted, k);
    assert s.counted <= InnerCells(m);
    SubsetSize(s.counted, InnerCells(m));
    InnerCellCount(m);
  }
}
