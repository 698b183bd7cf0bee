/** Fetching the data of a graph definition and reducing it to the step of the graph (data_fetch in rrd_graph.c). */
module GraphFetch {
  import opened Values
  import opened Rows
  import opened Arith
  import A = Archives
  import F = Fetch
  import R = Reduce

  function Reduction(f: F.Fetched, want: nat): (factor: nat)
    requires 0 < f.step < want
    ensures factor > 0
  {
    R.Factor(want, f.step)
  }

  /** Sizes that the C types can hold: the reduction factor is an int, times are signed 64-bit words. */
  ghost predicate Fits(rrd: A.Rrd, end: nat, want: nat) {
    want <= R.INT_MAX && forall i: nat :: i < |rrd.rras| ==> end + F.Step(rrd, i) < R.SIGNED_LIMIT
  }

  ghost predicate OnGrid(f: F.Fetched) {
    f.step > 0 && 0 <= f.start < f.end && f.start % f.step == 0 && f.end % f.step == 0 &&
    |f.data| == Cells(f.dsCnt, (f.end - f.start) / f.step)
  }

  function LayoutOf(f: F.Fetched, want: nat): (l: R.Layout)
    requires OnGrid(f) && f.step < want
    ensures l.Valid()
  {
    R.LayoutOf(f.dsCnt, f.step, Reduction(f, want), f.start, f.end)
  }

  /** The fetched data as it is, or reduced if its step is finer than the wanted one. */
  ghost predicate IsReduced(cfReduce: R.Cf, f: F.Fetched, want: nat, g: F.Fetched)
    requires OnGrid(f)
  {
    if f.step >= want then g == f else
    var l := LayoutOf(f, want);
    g.dsCnt == f.dsCnt && g.step == Mul(f.step, l.factor) && g.step >= want &&
    g.start == f.start - f.start % g.step && g.end - g.start == Mul(g.step, l.Total()) &&
    Cells(l.ds, l.n) <= |f.data| && g.data == R.Reduced(cfReduce, f.data, l, l.Total())
  }

  lemma {:induction false} TableLength(rrd: A.Rrd, ci: nat, k: int, n: nat)
    requires F.WellFormed(rrd) && ci < |rrd.rras|
    ensures |F.Table(rrd, ci, k, n)| == Cells(rrd.dsCnt, n)
  {
    hide F.RowAt;
    if n > 0 { TableLength(rrd, ci, k, n - 1); }
  }

  lemma FetchedOnGrid(rrd: A.Rrd, cf: nat, start: nat, end: nat, step: nat, ci: nat, f: F.Fetched)
    requires F.WellFormed(rrd) && start <= end && F.IsFetched(rrd, cf, start, end, step, ci, f)
    ensures OnGrid(f) && f.end <= end + F.Step(rrd, ci) && ci < |rrd.rras| && f.step == F.Step(rrd, ci)
    ensures f.start / f.step == start / f.step && f.data == F.Table(rrd, ci, start / f.step + 1, (f.end - f.start) / f.step)
  {
    hide F.WellFormed, F.Table, F.Step, Cells, F.BestPart, F.BestFull, F.NoFull, Mul;
    var s := f.step;
    MulIs(s, start / s);
    MulIs(s, end / s + 1);
    Divide(f.start, s, start / s, 0);
    Divide(f.end, s, end / s + 1, 0);
    F.DivMonotone(start, end, s);
    MulOrder(s, start / s, end / s + 1);
    Quotient(end, s);
    MulNext(s, end / s);
    Difference(s, f.start, f.end);
    TableLength(rrd, ci, start / s + 1, F.Intervals(start, end, s));
  }

  /** The reduction of fetched data, in the memory that the fetch has allocated: room for one row more than it read. */
  method Reduce(cfReduce: R.Cf, f: F.Fetched, want: nat) returns (g: F.Fetched, sane: bool)
    requires OnGrid(f) && f.step < want <= R.INT_MAX && f.end < R.SIGNED_LIMIT
    ensures sane ==> IsReduced(cfReduce, f, want, g)
    ensures sane <==> (R.Inner(LayoutOf(f, want)) ==> R.WORD % Reduction(f, want) == 0)
  {
    hide Mul, Cells, R.Reduced, R.Inner, R.Layout.Total, R.Layout.Valid, IsReduced, R.Factor, R.LayoutOf;
    var n := (f.end - f.start) / f.step;
    FactorBound(want, f.step);
    LayoutFields(f, want);
    OneRow(f.dsCnt, n);
    var data := new Val[Cells(f.dsCnt, n + 1)](i => if 0 <= i < |f.data| then f.data[i] else NaN);
    ghost var cells := data[..];
    ghost var l := LayoutOf(f, want);
    var start, end, step;
    start, end, step, sane := R.ReduceData(cfReduce, f.step, f.start, f.end, want, f.dsCnt, data);
    RowTotal(end - start, step, l.Total());
    var total := (end - start) / step;
    g := F.Fetched(start, end, step, f.dsCnt, data[..Cells(f.dsCnt, total)]);
    if sane {
      ReducedPrefix(cfReduce, f.data, cells, l, l.Total());
      FloorIs(f.start, start, step);
      Finish(cfReduce, f, want, g);
    }
  }

  lemma LayoutFields(f: F.Fetched, want: nat)
    requires OnGrid(f) && f.step < want
    ensures var l := LayoutOf(f, want);
            l.ds == f.dsCnt && l.factor == Reduction(f, want) && l.n == (f.end - f.start) / f.step && l.Valid()
  {
    hide R.Factor;
  }

  lemma RowTotal(x: int, step: nat, total: nat)
    requires x == Mul(step, total) && step > 0
    ensures x / step == total
  {
    Divide(x, step, total, 0);
  }

  lemma FloorIs(x: nat, s: int, step: nat)
    requires step > 0 && s % step == 0 && s <= x < s + step
    ensures s == x - x % step
  {
    hide Mul;
    if s >= 0 {
      Quotient(s, step);
      Divide(x, step, s / step, x - s);
    }
  }

  lemma Finish(cfReduce: R.Cf, f: F.Fetched, want: nat, g: F.Fetched)
    requires OnGrid(f) && f.step < want
    requires var l := LayoutOf(f, want);
             g.dsCnt == f.dsCnt && g.step == Mul(f.step, l.factor) && g.step >= want &&
             g.start == f.start - f.start % g.step && g.end - g.start == Mul(g.step, l.Total()) &&
             Cells(l.ds, l.n) <= |f.data| && g.data == R.Reduced(cfReduce, f.data, l, l.Total())
    ensures IsReduced(cfReduce, f, want, g)
  {
    hide Mul, Cells, R.Reduced, R.Layout.Total, R.Factor;
  }

  lemma FactorBound(want: nat, cur: nat)
    requires 0 < cur && 0 < want
    ensures R.Factor(want, cur) <= want
  {
    hide Mul, R.Factor;
    var factor := R.Factor(want, cur);
    AtLeast(cur, factor - 1);
    if factor > 1 { MulLess(factor - 1, 1, cur); }
  }

  /** Rows behind the ones to be reduced do not matter. */
  lemma {:induction false} ReducedPrefix(cf: R.Cf, a: seq<Val>, b: seq<Val>, l: R.Layout, rows: nat)
    requires l.Valid() && Cells(l.ds, l.n) <= |a| <= |b| && b[..|a|] == a
    ensures R.Reduced(cf, a, l, rows) == R.Reduced(cf, b, l, rows)
  {
    hide Mul, Cells, R.GroupRow;
    if rows > 0 {
      ReducedPrefix(cf, a, b, l, rows - 1);
      if l.Whole(rows - 1) {
        R.WholeInside(l, rows - 1);
        var first := Mul(l.factor, rows - 1) - l.lead;
        assert forall j :: 0 <= j < |a| ==> a[j] == b[..|a|][j] == b[j];
        R.GroupRowUnchanged(cf, a, b, l.ds, first, l.factor, l.ds);
      }
    }
  }

  /** The program does not end in the sanity check of the reduction. */
  ghost predicate CanReduce(f: F.Fetched, want: nat)
    requires OnGrid(f)
  {
    f.step < want && R.Inner(LayoutOf(f, want)) ==> R.WORD % Reduction(f, want) == 0
  }

  /** `data_fetch` for one definition that is not yet in the cache of fetched data. */
  method DataFetch(rrd: A.Rrd, cf: nat, cfReduce: R.Cf, start: nat, end: nat, ftStep: nat, want: nat)
    returns (result: Option<F.Fetched>, sane: bool)
    requires F.WellFormed(rrd) && start <= end && Fits(rrd, end, want)
    ensures result.None? <==> forall i :: 0 <= i < |rrd.rras| ==> rrd.rras[i].cf != cf
    ensures result.Some? ==>
      exists ci: nat, f :: F.IsFetched(rrd, cf, start, end, ftStep, ci, f) && OnGrid(f) &&
        (sane <==> CanReduce(f, want)) && (sane ==> IsReduced(cfReduce, f, want, result.value))
  {
    hide F.WellFormed, F.IsFetched, F.Step, Mul, R.Factor, R.Reduced, Cells, OnGrid;
    sane := true;
    result := F.RrdFetch(rrd, cf, start, end, ftStep);
    if result.None? {
      return;
    }
    var f := result.value;
    ghost var ci: nat :| F.IsFetched(rrd, cf, start, end, ftStep, ci, f);
    FetchedOnGrid(rrd, cf, start, end, ftStep, ci, f);
    if f.step < want {
      var g;
      g, sane := Reduce(cfReduce, f, want);
      result := Some(g);
    }
  }

  lemma FetchedIsHistory(rrd: A.Rrd, cf: nat, start: nat, end: nat, step: nat, ci: nat, f: F.Fetched)
    requires F.WellFormed(rrd) && start <= end && F.IsFetched(rrd, cf, start, end, step, ci, f)
    ensures IsHistory(rrd, ci, f)
  {
    hide F.WellFormed, F.Table, F.Step, Cells, F.BestPart, F.BestFull, F.NoFull, F.Newest;
    FetchedOnGrid(rrd, cf, start, end, step, ci, f);
  }

  /** The values that the archive's table holds for one data source in `n` consecutive intervals, the first being `k`. */
  function Stored(rrd: A.Rrd, ci: nat, k: int, n: nat, col: nat): seq<Val>
    requires F.WellFormed(rrd) && ci < |rrd.rras| && col < rrd.dsCnt
  {
    if n == 0 then [] else
    Stored(rrd, ci, k, n - 1, col) + [F.RowAt(rrd, ci, k + n - 1)[col]]
  }

  lemma {:induction false} TableCell(rrd: A.Rrd, ci: nat, k: int, n: nat, i: nat, col: nat)
    requires F.WellFormed(rrd) && ci < |rrd.rras| && i < n && col < rrd.dsCnt
    ensures Cells(rrd.dsCnt, i) + col < |F.Table(rrd, ci, k, n)|
    ensures F.Table(rrd, ci, k, n)[Cells(rrd.dsCnt, i) + col] == F.RowAt(rrd, ci, k + i)[col]
  {
    hide F.RowAt, F.WellFormed, Cells;
    TableLength(rrd, ci, k, n);
    TableLength(rrd, ci, k, n - 1);
    CellInRow(rrd.dsCnt, 0, i, col);
    RowsInside(rrd.dsCnt, 0, i + 1, n);
    if i < n - 1 {
      RowsInside(rrd.dsCnt, 0, i + 1, n - 1);
      TableCell(rrd, ci, k, n - 1, i, col);
    }
  }

  lemma {:induction false} StoredColumn(rrd: A.Rrd, ci: nat, k: int, rows: nat, first: nat, n: nat, col: nat)
    requires F.WellFormed(rrd) && ci < |rrd.rras| && col < rrd.dsCnt && first + n <= rows
    ensures Cells(rrd.dsCnt, first + n) <= |F.Table(rrd, ci, k, rows)|
    ensures Column(F.Table(rrd, ci, k, rows), rrd.dsCnt, first, n, col) == Stored(rrd, ci, k + first, n, col)
  {
    hide F.RowAt, F.WellFormed, Cells, F.Table;
    TableLength(rrd, ci, k, rows);
    RowsInside(rrd.dsCnt, 0, first + n, rows);
    if n > 0 {
      StoredColumn(rrd, ci, k, rows, first, n - 1, col);
      TableCell(rrd, ci, k, rows, first + n - 1, col);
    }
  }

  /** The fetched rows are those of consecutive intervals of an archive. */
  ghost predicate IsHistory(rrd: A.Rrd, ci: nat, f: F.Fetched)
    requires F.WellFormed(rrd)
  {
    ci < |rrd.rras| && OnGrid(f) && f.dsCnt == rrd.dsCnt &&
    f.data == F.Table(rrd, ci, f.start / f.step + 1, (f.end - f.start) / f.step)
  }

  /** Destination interval q is consolidated from what the archive holds for the intervals that make it up, if the fetched
      range covers them all; otherwise it is unknown. */
  function Drawn(rrd: A.Rrd, ci: nat, cfReduce: R.Cf, from: nat, to: nat, factor: nat, q: nat, col: nat): Val
    requires F.WellFormed(rrd) && ci < |rrd.rras| && col < rrd.dsCnt
  {
    if from <= Mul(factor, q) && Mul(factor, q) + factor <= to
    then R.Consolidate(cfReduce, Stored(rrd, ci, Mul(factor, q) + 1, factor, col)) else NaN
  }

  /** Numbers of the intervals that the fetched range begins and ends with, and of the k-th destination interval. */
  function From(f: F.Fetched): nat
    requires OnGrid(f)
  {
    f.start / f.step
  }

  function To(f: F.Fetched): nat
    requires OnGrid(f)
  {
    f.end / f.step
  }

  function Interval(from: nat, factor: nat, k: nat): nat
    requires factor > 0
  {
    from / factor + k
  }

  /** The reduced data in terms of the archive. */
  lemma ReducedHistory(rrd: A.Rrd, ci: nat, cfReduce: R.Cf, f: F.Fetched, want: nat, g: F.Fetched, k: nat, col: nat)
    requires F.WellFormed(rrd) && IsHistory(rrd, ci, f) && f.step < want && IsReduced(cfReduce, f, want, g)
    requires g.start + Mul(g.step, k) < g.end && col < rrd.dsCnt
    ensures Cells(g.dsCnt, k) + col < |g.data|
    ensures g.data[Cells(g.dsCnt, k) + col] ==
      Drawn(rrd, ci, cfReduce, From(f), To(f), Reduction(f, want), Interval(From(f), Reduction(f, want), k), col)
  {
    hide F.WellFormed, F.Table, Cells, Mul, R.Reduced, R.Consolidate, Column, R.Layout.Total, Stored, R.Factor, OnGrid;
    var l := LayoutOf(f, want);
    KnownRow(cfReduce, f, want, g, k);
    R.ReducedCell(cfReduce, f.data, l, l.Total(), k, col);
    Numbering(f, want, k);
    if l.Whole(k) {
      StoredColumn(rrd, ci, From(f) + 1, l.n, Mul(l.factor, k) - l.lead, l.factor, col);
    }
  }

  lemma KnownRow(cfReduce: R.Cf, f: F.Fetched, want: nat, g: F.Fetched, k: nat)
    requires OnGrid(f) && f.step < want && IsReduced(cfReduce, f, want, g)
    requires g.start + Mul(g.step, k) < g.end
    ensures var l := LayoutOf(f, want);
            k < l.Total() && Cells(l.ds, l.n) <= |f.data| && l.ds == g.dsCnt && g.data == R.Reduced(cfReduce, f.data, l, l.Total())
  {
    hide Cells, Mul, R.Reduced, R.Layout.Total, R.Factor;
    MulOrder(g.step, k, LayoutOf(f, want).Total());
  }

  /** Interval numbers counted from time 0 and from the start of the destination. */
  lemma Numbering(f: F.Fetched, want: nat, k: nat)
    requires OnGrid(f) && f.step < want
    ensures var factor, l, q := Reduction(f, want), LayoutOf(f, want), Interval(From(f), Reduction(f, want), k);
            Mul(factor, q) + l.lead == From(f) + Mul(factor, k) && l.n + From(f) == To(f) && l.factor == factor
  {
    hide Mul, R.Factor;
    var factor, a := Reduction(f, want), f.start / f.step;
    Quotient(a, factor);
    MulAdd(factor, a / factor, k);
    Difference(f.step, f.start, f.end);
  }
}
