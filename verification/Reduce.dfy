/** Consolidating fetched rows in place to a coarser step (reduce_data in rrd_graph.c). */
module Reduce {
  import opened Values
  import opened Rows
  import opened Arith
  import opened Sums

  datatype Cf = Average | Minimum | Maximum | Last | HwPredict | Seasonal | DevPredict | DevSeasonal | Failures | MhwPredict

  // ----- consolidating the values of one interval

  /** The known values. */
  function Known(s: seq<Val>): seq<real> {
    if s == [] then [] else
    var front := Known(s[..|s| - 1]);
    match s[|s| - 1]
    case NaN => front
    case Fin(v) => front + [v]
  }

  function Least(s: seq<real>): (m: real)
    requires s != []
    ensures m in s && forall i :: 0 <= i < |s| ==> m <= s[i]
  {
    if |s| == 1 then s[0] else
    var front := Least(s[..|s| - 1]);
    assert forall i :: 0 <= i < |s| - 1 ==> s[i] == s[..|s| - 1][i];
    if s[|s| - 1] < front then s[|s| - 1] else front
  }

  function Greatest(s: seq<real>): (m: real)
    requires s != []
    ensures m in s && forall i :: 0 <= i < |s| ==> s[i] <= m
  {
    if |s| == 1 then s[0] else
    var front := Greatest(s[..|s| - 1]);
    assert forall i :: 0 <= i < |s| - 1 ==> s[i] == s[..|s| - 1][i];
    if s[|s| - 1] > front then s[|s| - 1] else front
  }

  /** One value for an interval: unknown values do not take part, and with none known the result is unknown. */
  function Consolidate(cf: Cf, s: seq<Val>): Val {
    var known := Known(s);
    if known == [] then NaN else
    match cf
    case Minimum => Fin(Least(known))
    case Maximum | Failures => Fin(Greatest(known))
    case Last => Fin(known[|known| - 1])
    case Average | HwPredict | Seasonal | DevPredict | DevSeasonal | MhwPredict => Fin(Sum(known) / (|known| as real))
  }

  /** What the loop over an interval holds after the values `known`, before the final division. */
  function Gathered(cf: Cf, known: seq<real>): Val {
    if known == [] then NaN else
    match cf
    case Minimum => Fin(Least(known))
    case Maximum | Failures => Fin(Greatest(known))
    case Last => Fin(known[|known| - 1])
    case Average | HwPredict | Seasonal | DevPredict | DevSeasonal | MhwPredict => Fin(Sum(known))
  }

  /** One turn of the loop over an interval. */
  function Merge(cf: Cf, newval: Val, x: real): Val {
    match newval
    case NaN => Fin(x)
    case Fin(v) =>
      match cf
      case Minimum => Fin(if x < v then x else v)
      case Maximum | Failures => Fin(if x > v then x else v)
      case Last => Fin(x)
      case Average | HwPredict | Seasonal | DevPredict | DevSeasonal | MhwPredict => Fin(v + x)
  }

  lemma {:induction false} LeastNext(known: seq<real>, x: real)
    ensures Least(known + [x]) == if known == [] || x < Least(known) then x else Least(known)
  {
    assert (known + [x])[..|known|] == known;
  }

  lemma {:induction false} GreatestNext(known: seq<real>, x: real)
    ensures Greatest(known + [x]) == if known == [] || x > Greatest(known) then x else Greatest(known)
  {
    assert (known + [x])[..|known|] == known;
  }

  lemma MergeStep(cf: Cf, known: seq<real>, x: real)
    ensures Merge(cf, Gathered(cf, known), x) == Gathered(cf, known + [x])
  {
    hide Least, Greatest, Sum;
    LeastNext(known, x);
    GreatestNext(known, x);
    SumNext(known, x);
    SumNone();
  }

  lemma SumNone()
    ensures Sum([]) == 0.0
  {
  }

  // ----- rows

  /** The first `cols` values of the row that stands for the source rows first, ..., first + n - 1. */
  function GroupRow(cf: Cf, src: seq<Val>, ds: nat, first: nat, n: nat, cols: nat): (row: seq<Val>)
    requires cols <= ds && Cells(ds, first + n) <= |src|
    ensures |row| == cols
  {
    if cols == 0 then [] else
    GroupRow(cf, src, ds, first, n, cols - 1) + [Consolidate(cf, Column(src, ds, first, n, cols - 1))]
  }

  /** `n` source rows, the first of which is row `lead` of the destination interval it lies in, `factor` rows to an
      interval. Destination interval k holds the source rows factor * k - lead and following. */
  datatype Layout = Layout(ds: nat, factor: nat, lead: nat, n: nat) {
    predicate Valid() { lead < factor }

    /** Interval k is covered by source rows from its start to its end. */
    predicate Whole(k: nat) {
      lead <= Mul(factor, k) && Mul(factor, k) + factor <= lead + n
    }

    /** Number of destination intervals that meet the source rows. */
    function Total(): (total: nat)
      requires Valid()
    {
      (lead + n) / factor + (if (lead + n) % factor == 0 then 0 else 1)
    }
  }

  lemma WholeInside(l: Layout, k: nat)
    requires l.Valid() && l.Whole(k)
    ensures Cells(l.ds, Mul(l.factor, k) - l.lead + l.factor) <= Cells(l.ds, l.n)
  {
    var end := Mul(l.factor, k) - l.lead + l.factor;
    CellsAdd(l.ds, end, l.n - end);
  }

  /** Destination row k: consolidated where the interval is whole, unknown where it is cut off. */
  function OutRow(cf: Cf, src: seq<Val>, l: Layout, k: nat): (row: seq<Val>)
    requires l.Valid() && Cells(l.ds, l.n) <= |src|
    ensures |row| == l.ds
  {
    if l.Whole(k) then
      WholeInside(l, k);
      GroupRow(cf, src, l.ds, Mul(l.factor, k) - l.lead, l.factor, l.ds)
    else Unknown(l.ds)
  }

  /** The first `rows` destination rows. */
  function Reduced(cf: Cf, src: seq<Val>, l: Layout, rows: nat): (out: seq<Val>)
    requires l.Valid() && Cells(l.ds, l.n) <= |src|
    ensures |out| == Cells(l.ds, rows)
  {
    if rows == 0 then [] else Reduced(cf, src, l, rows - 1) + OutRow(cf, src, l, rows - 1)
  }

  /** Cell `col` of destination row k. */
  lemma {:induction false} ReducedAt(cf: Cf, src: seq<Val>, l: Layout, rows: nat, k: nat, col: nat)
    requires l.Valid() && Cells(l.ds, l.n) <= |src| && k < rows && col < l.ds
    ensures Cells(l.ds, k) + col < |Reduced(cf, src, l, rows)|
    ensures Reduced(cf, src, l, rows)[Cells(l.ds, k) + col] == OutRow(cf, src, l, k)[col]
  {
    hide OutRow;
    CellInRow(l.ds, 0, k, col);
    CellsAdd(l.ds, k + 1, rows - k - 1);
    if k < rows - 1 {
      CellsAdd(l.ds, k + 1, rows - k - 2);
      ReducedAt(cf, src, l, rows - 1, k, col);
    }
  }

  lemma {:induction false} GroupRowAt(cf: Cf, src: seq<Val>, ds: nat, first: nat, n: nat, cols: nat, col: nat)
    requires col < cols <= ds && Cells(ds, first + n) <= |src|
    ensures GroupRow(cf, src, ds, first, n, cols)[col] == Consolidate(cf, Column(src, ds, first, n, col))
  {
    hide Consolidate, Column;
    if col < cols - 1 { GroupRowAt(cf, src, ds, first, n, cols - 1, col); }
  }

  // ----- the loops

  lemma GatheredNone(cf: Cf)
    ensures Gathered(cf, []) == NaN
  {
  }

  /** The division behind the loop completes the consolidation. */
  lemma Divided(cf: Cf, s: seq<Val>)
    requires Known(s) != []
    ensures var known, g := Known(s), Gathered(cf, Known(s));
            g.Fin? && Consolidate(cf, s) == (if Averaging(cf) then Fin(g.v / (|known| as real)) else g)
  {
  }

  predicate Averaging(cf: Cf) {
    cf.Average? || cf.HwPredict? || cf.Seasonal? || cf.DevPredict? || cf.DevSeasonal? || cf.MhwPredict?
  }

  lemma KnownNext(s: seq<Val>, x: Val)
    ensures Known(s + [x]) == match x case NaN => Known(s) case Fin(v) => Known(s) + [v]
  {
    assert (s + [x])[..|s|] == s;
  }

  /** The loop over the source values of one destination cell; `src` is the first cell of row `first`. */
  method ReduceCell(cf: Cf, data: array<Val>, ds: nat, src: nat, ghost first: nat, factor: nat, col: nat) returns (newval: Val)
    requires col < ds && src == Cells(ds, first) && Cells(ds, first + factor) <= data.Length
    ensures newval == Consolidate(cf, Column(data[..], ds, first, factor, col))
  {
    hide Gathered, Cells, Consolidate, Known, Averaging, Merge;
    newval := NaN;
    var validval := 0;
    ghost var cells := data[..];
    RowsInside(ds, first, 0, factor);
    GatheredNone(cf);
    KnownNone();
    var i := 0;
    while i < factor
      invariant 0 <= i <= factor && Cells(ds, first + i) <= |cells|
      invariant validval == |Known(Column(cells, ds, first, i, col))|
      invariant newval == Gathered(cf, Known(Column(cells, ds, first, i, col)))
    {
      RowsInside(ds, first, i + 1, factor);
      CellInRow(ds, first, i, col);
      var x := data[src + Cells(ds, i) + col];
      KnownNext(Column(cells, ds, first, i, col), x);
      if x.Fin? {
        MergeStep(cf, Known(Column(cells, ds, first, i, col)), x.v);
        validval := validval + 1;
        newval := Merge(cf, newval, x.v);
      }
      i := i + 1;
    }
    if validval == 0 {
      newval := NaN;
      NothingKnown(cf, Column(cells, ds, first, factor, col));
    } else {
      Divided(cf, Column(cells, ds, first, factor, col));
      if Averaging(cf) {
        newval := Fin(newval.v / (validval as real));
      }
    }
  }

  lemma KnownNone()
    ensures Known([]) == []
  {
  }

  lemma NothingKnown(cf: Cf, s: seq<Val>)
    requires Known(s) == []
    ensures Consolidate(cf, s) == NaN
  {
  }

  /** The loop over the columns of one destination row, which begins no later than the source rows it stands for. */
  method ReduceRow(cf: Cf, data: array<Val>, ds: nat, dst: nat, src: nat, ghost first: nat, factor: nat)
    requires dst <= src == Cells(ds, first) && factor > 0 && Cells(ds, first + factor) <= data.Length
    modifies data
    ensures dst + ds <= data.Length
    ensures data[..] == old(data[..dst]) + GroupRow(cf, old(data[..]), ds, first, factor, ds) + old(data[dst + ds..])
  {
    hide Consolidate, Column, Cells, GroupRow;
    ghost var cells := data[..];
    RowsInside(ds, first, 1, factor);
    OneRow(ds, first);
    ghost var row := GroupRow(cf, cells, ds, first, factor, ds);
    var col := 0;
    while col < ds
      invariant 0 <= col <= ds
      invariant forall j :: 0 <= j < data.Length && (j < dst || j >= dst + col) ==> data[j] == cells[j]
      invariant forall j :: dst <= j < dst + col ==> data[j] == row[j - dst]
    {
      var newval := ReduceCell(cf, data, ds, src, first, factor, col);
      ColumnUnchanged(data[..], cells, ds, first, factor, col);
      GroupRowAt(cf, cells, ds, first, factor, ds, col);
      data[dst + col] := newval;
      col := col + 1;
    }
    assert data[..] == cells[..dst] + row + cells[dst + ds..];
  }

  /** A destination row of unknown values. */
  method UnknownRow(data: array<Val>, ds: nat, dst: nat)
    requires dst + ds <= data.Length
    modifies data
    ensures data[..] == old(data[..dst]) + Unknown(ds) + old(data[dst + ds..])
  {
    ghost var cells := data[..];
    var col := 0;
    while col < ds
      invariant 0 <= col <= ds
      invariant forall j :: 0 <= j < data.Length && (j < dst || j >= dst + col) ==> data[j] == cells[j]
      invariant forall j :: dst <= j < dst + col ==> data[j] == NaN
    {
      data[dst + col] := NaN;
      col := col + 1;
    }
    assert data[..] == cells[..dst] + Unknown(ds) + cells[dst + ds..];
  }

  // ----- the arithmetic of the offsets

  /** Row counts are unsigned 64-bit words; the loop reads them as signed ones. */
  const WORD: int := 0x1_0000_0000_0000_0000
  const SIGNED_LIMIT: int := 0x8000_0000_0000_0000
  const INT_MAX: int := 0x7fff_ffff

  function Word(x: int): nat { x % WORD }

  function Signed(x: nat): int { if x < SIGNED_LIMIT then x else x - WORD }

  /** The source rows lie strictly inside one destination interval. */
  predicate Inner(l: Layout) { l.lead > 0 && l.lead + l.n < l.factor }

  /** Rows skipped at the start and at the end. */
  function Skip(l: Layout): nat
    requires l.Valid()
  {
    if l.lead == 0 then 0 else l.factor - l.lead
  }

  function Tail(l: Layout): nat
    requires l.Valid()
  {
    (l.lead + l.n) % l.factor
  }

  /** The first destination row that can be whole. */
  function First(l: Layout): nat { if l.lead == 0 then 0 else 1 }

  /** Whole destination rows: First, ..., Stop - 1. */
  function Stop(l: Layout): nat
    requires l.Valid()
  {
    (l.lead + l.n) / l.factor
  }

  /** What is left after the skips is a multiple of the factor, except for rows strictly inside one interval. */
  lemma RowsLeft(l: Layout)
    requires l.Valid() && l.n > 0
    ensures Inner(l) ==> Skip(l) + Tail(l) == l.n + l.factor && Stop(l) == 0 && Tail(l) > 0
    ensures !Inner(l) ==> First(l) <= Stop(l)
    ensures First(l) <= Stop(l) ==> l.n == Skip(l) + Tail(l) + Mul(l.factor, Stop(l) - First(l))
  {
    Quotient(l.lead + l.n, l.factor);
    MulNext(l.factor, 0);
    if Inner(l) {
      MulOrder(l.factor, 1, Stop(l));
    } else {
      MulOrder(l.factor, Stop(l) + 1, 1);
      MulNext(l.factor, Stop(l));
      if First(l) == 1 {
        MulLessOne(l.factor, Stop(l));
      }
    }
  }

  /** The remainder of the wrapped count. */
  lemma WrappedRemainder(f: nat)
    requires 0 < f <= INT_MAX
    ensures (WORD - f) % f == WORD % f
  {
    Quotient(WORD, f);
    if WORD / f == 0 { MulNext(f, 0); }
    MulLessOne(f, WORD / f);
    Divide(WORD - f, f, WORD / f - 1, WORD % f);
  }

  // ----- the arithmetic of the times

  lemma Ceiling(step: nat, cur: nat)
    requires step > 0 && cur > 0
    ensures var q := (step + cur - 1) / cur; q > 0 && Mul(cur, q - 1) < step <= Mul(cur, q)
  {
    var q := (step + cur - 1) / cur;
    Quotient(step + cur - 1, cur);
    MulNext(cur, 0);
    MulNext(cur, q);
    MulOrder(cur, 1, q + 1);
    MulLessOne(cur, q);
  }

  /** `ceil(step / cur)`: the least factor with which the current step reaches the requested one. */
  function Factor(step: nat, cur: nat): (factor: nat)
    requires step > 0 && cur > 0
    ensures factor > 0 && Mul(cur, factor - 1) < step <= Mul(cur, factor)
  {
    Ceiling(step, cur);
    (step + cur - 1) / cur
  }

  /** A time on the grid of the current step, seen on the grid of the new one. */
  lemma OnGrid(cur: nat, factor: nat, t: nat)
    requires cur > 0 && factor > 0 && t % cur == 0
    ensures var step, x := Mul(cur, factor), t / cur;
            t == Mul(cur, x) && t / step == x / factor && t % step == Mul(cur, x % factor) && (t % step) / cur == x % factor &&
            (t % step == 0 <==> x % factor == 0)
  {
    hide Mul;
    var step, x := Mul(cur, factor), t / cur;
    Quotient(t, cur);
    Quotient(x, factor);
    MulAdd(cur, Mul(factor, x / factor), x % factor);
    MulMul(cur, factor, x / factor);
    MulOrder(cur, x % factor, factor);
    Divide(t, step, x / factor, Mul(cur, x % factor));
    Divide(Mul(cur, x % factor), cur, x % factor, 0);
    MulNext(cur, 0);
  }

  function LayoutOf(ds: nat, cur: nat, factor: nat, start: nat, end: nat): (l: Layout)
    requires cur > 0 && factor > 0 && start <= end
    ensures l.Valid()
  {
    Layout(ds, factor, (start / cur) % factor, (end - start) / cur)
  }

  /** Division counted from the start of the interval of `a`. */
  lemma DivideShift(f: nat, a: nat, b: nat)
    requires f > 0 && a <= b
    ensures a / f <= b / f && (a % f + (b - a)) / f == b / f - a / f && (a % f + (b - a)) % f == b % f
  {
    hide Mul;
    var z := a % f + (b - a);
    Quotient(a, f);
    Quotient(z, f);
    MulAdd(f, a / f, z / f);
    Divide(b, f, a / f + z / f, z % f);
  }

  /** The source rows end at the given end. */
  lemma EndOfRows(ds: nat, cur: nat, factor: nat, start: nat, end: nat)
    requires cur > 0 && factor > 0 && start <= end && start % cur == 0 && end % cur == 0
    ensures var l := LayoutOf(ds, cur, factor, start, end);
            Mul(cur, l.n) == end - start && (start < end ==> l.n > 0) && l.n <= end &&
            Tail(l) == (end / cur) % factor && Stop(l) == (end / cur) / factor - (start / cur) / factor
  {
    hide Mul;
    var l := LayoutOf(ds, cur, factor, start, end);
    Difference(cur, start, end);
    DivideShift(factor, start / cur, end / cur);
    MulNext(cur, 0);
    AtLeast(cur, l.n);
  }

  /** The adjusted range is as long as the destination rows. */
  lemma AdjustedRange(ds: nat, cur: nat, factor: nat, start: nat, end: nat)
    requires cur > 0 && factor > 0 && start <= end && start % cur == 0 && end % cur == 0
    ensures var l, step := LayoutOf(ds, cur, factor, start, end), Mul(cur, factor);
            (end - end % step + (if end % step == 0 then 0 else step)) - (start - start % step) == Mul(step, l.Total())
  {
    hide Mul, LayoutOf;
    var l, step := LayoutOf(ds, cur, factor, start, end), Mul(cur, factor);
    RowsInSteps(ds, cur, factor, start, end);
    hide Layout.Total;
    Quotient(start, step);
    Quotient(end, step);
    RangeLength(step, start / step, start % step, end / step, end % step, l.Total());
  }

  lemma RowsInSteps(ds: nat, cur: nat, factor: nat, start: nat, end: nat)
    requires cur > 0 && factor > 0 && start <= end && start % cur == 0 && end % cur == 0
    ensures var l, step := LayoutOf(ds, cur, factor, start, end), Mul(cur, factor);
            step > 0 && start / step <= end / step &&
            l.Total() == end / step - start / step + if end % step == 0 then 0 else 1
  {
    hide Mul, LayoutOf, Layout.Total;
    RowsInFactors(ds, cur, factor, start, end);
    StepOfFactors(cur, factor, start);
    StepOfFactors(cur, factor, end);
  }

  lemma RowsInFactors(ds: nat, cur: nat, factor: nat, start: nat, end: nat)
    requires cur > 0 && factor > 0 && start <= end && start % cur == 0 && end % cur == 0
    ensures var x, y := start / cur, end / cur;
            x / factor <= y / factor &&
            LayoutOf(ds, cur, factor, start, end).Total() == y / factor - x / factor + if y % factor == 0 then 0 else 1
  {
    EndOfRows(ds, cur, factor, start, end);
    DivideShift(factor, start / cur, end / cur);
  }

  lemma StepOfFactors(cur: nat, factor: nat, t: nat)
    requires cur > 0 && factor > 0 && t % cur == 0
    ensures var step, x := Mul(cur, factor), t / cur;
            step > 0 && t / step == x / factor && (t % step == 0 <==> x % factor == 0)
  {
    hide Mul;
    OnGrid(cur, factor, t);
  }

  lemma RangeLength(step: nat, a: nat, before: nat, b: nat, behind: nat, total: nat)
    requires a <= b && total == b - a + if behind == 0 then 0 else 1
    ensures (Mul(step, b) + behind - behind + (if behind == 0 then 0 else step)) - (Mul(step, a) + before - before) ==
            Mul(step, total)
  {
    hide Mul;
    MulAdd(step, a, b - a);
    MulNext(step, b - a);
  }

  // ----- the whole reduction

  /** From here on the cells in front of the write cursor belong to the result and the others are still the source's. */
  ghost predicate Written(cf: Cf, src: seq<Val>, l: Layout, k: nat, cells: seq<Val>)
    requires l.Valid()
  {
    Cells(l.ds, l.n) <= |src| == |cells| && Cells(l.ds, k) <= |src| &&
    cells == Reduced(cf, src, l, k) + src[Cells(l.ds, k)..]
  }

  lemma NothingWritten(cf: Cf, src: seq<Val>, l: Layout)
    requires l.Valid() && Cells(l.ds, l.n) <= |src|
    ensures Written(cf, src, l, 0, src)
  {
  }

  /** One more row written at the write cursor. */
  lemma WriteRow(cf: Cf, src: seq<Val>, l: Layout, k: nat, cells: seq<Val>, row: seq<Val>)
    requires l.Valid() && Written(cf, src, l, k, cells) && row == OutRow(cf, src, l, k)
    requires Cells(l.ds, k) + l.ds <= |src|
    ensures Written(cf, src, l, k + 1, cells[..Cells(l.ds, k)] + row + cells[Cells(l.ds, k) + l.ds..])
  {
    hide OutRow, Reduced;
    ReducedNext(cf, src, l, k);
    Splice(Reduced(cf, src, l, k), src, row);
    OneRow(l.ds, k);
  }

  lemma ReducedNext(cf: Cf, src: seq<Val>, l: Layout, k: nat)
    requires l.Valid() && Cells(l.ds, l.n) <= |src|
    ensures Reduced(cf, src, l, k + 1) == Reduced(cf, src, l, k) + OutRow(cf, src, l, k)
  {
  }

  lemma Splice<T>(done: seq<T>, src: seq<T>, row: seq<T>)
    requires |done| + |row| <= |src|
    ensures var cells := done + src[|done|..];
            cells[..|done|] + row + cells[|done| + |row|..] == (done + row) + src[|done| + |row|..]
  {
    var cells := done + src[|done|..];
    assert cells[..|done|] == done && cells[|done| + |row|..] == src[|done| + |row|..];
  }

  lemma {:induction false} GroupRowUnchanged(cf: Cf, a: seq<Val>, b: seq<Val>, ds: nat, first: nat, n: nat, cols: nat)
    requires cols <= ds && Cells(ds, first + n) <= |a| && Cells(ds, first + n) <= |b|
    requires forall j :: Cells(ds, first) <= j < Cells(ds, first + n) ==> a[j] == b[j]
    ensures GroupRow(cf, a, ds, first, n, cols) == GroupRow(cf, b, ds, first, n, cols)
  {
    hide Consolidate, Column, Cells;
    if cols > 0 {
      ColumnUnchanged(a, b, ds, first, n, cols - 1);
      GroupRowUnchanged(cf, a, b, ds, first, n, cols - 1);
    }
  }

  /** A whole destination row: where its source rows are, and that the write cursor has not passed them. */
  lemma WholeRow(l: Layout, k: nat)
    requires l.Valid() && First(l) <= k < Stop(l)
    ensures l.Whole(k) && k <= Mul(l.factor, k) - l.lead
    ensures Mul(l.factor, k + 1) == Mul(l.factor, k) + l.factor
  {
    Quotient(l.lead + l.n, l.factor);
    MulOrder(l.factor, k + 1, Stop(l));
    MulNext(l.factor, k);
    if k > 0 {
      MulOrder(l.factor, 1, k);
      MulLessOne(l.factor, k);
      AtLeast(l.factor, k - 1);
    }
  }

  /** Rows at the two ends that are cut off. */
  lemma CutRows(cf: Cf, src: seq<Val>, l: Layout)
    requires l.Valid() && Cells(l.ds, l.n) <= |src|
    ensures l.lead > 0 ==> OutRow(cf, src, l, 0) == Unknown(l.ds)
    ensures Tail(l) > 0 ==> OutRow(cf, src, l, Stop(l)) == Unknown(l.ds)
  {
    hide Mul, Cells, GroupRow, Unknown;
    MulNext(l.factor, 0);
    MulNext(l.factor, Stop(l));
    Quotient(l.lead + l.n, l.factor);
  }

  /** How many rows are written before the row for the cut-off end. */
  function Lead(l: Layout): nat
    requires l.Valid()
  {
    if Inner(l) then 1 else Stop(l)
  }

  /** Where the read cursor is before destination row k. */
  function Source(l: Layout, k: nat): nat {
    if Mul(l.factor, k) < l.lead then 0 else Mul(l.factor, k) - l.lead
  }

  lemma SourceStart(l: Layout)
    requires l.Valid()
    ensures Source(l, First(l)) == Skip(l)
  {
    MulNext(l.factor, 0);
  }

  /** One turn of the main loop: enough rows are left exactly if destination row k is whole. */
  lemma Turn(l: Layout, k: nat)
    requires l.Valid() && First(l) <= k <= Stop(l)
    ensures Mul(l.factor, Stop(l) - k) >= l.factor <==> k < Stop(l)
    ensures k < Stop(l) ==> Mul(l.factor, Stop(l) - k) - l.factor == Mul(l.factor, Stop(l) - k - 1)
    ensures k < Stop(l) ==> Cells(l.ds, k) + l.ds <= Cells(l.ds, Source(l, k) + l.factor) <= Cells(l.ds, l.n)
    ensures k < Stop(l) ==> Cells(l.ds, k) <= Cells(l.ds, Source(l, k)) && Source(l, k + 1) == Source(l, k) + l.factor
    ensures k < Stop(l) ==> Cells(l.ds, Source(l, k + 1)) == Cells(l.ds, Source(l, k)) + Cells(l.ds, l.factor)
  {
    hide Mul, Cells;
    MulNext(l.factor, 0);
    OneRow(l.ds, k);
    if k < Stop(l) {
      WholeRow(l, k);
      WholeInside(l, k);
      MulLessOne(l.factor, Stop(l) - k);
      RowsInside(l.ds, 0, k, Source(l, k));
      RowsInside(l.ds, 0, k + 1, Source(l, k) + l.factor);
      CellsAdd(l.ds, Source(l, k), l.factor);
    }
  }

  lemma WholeOutRow(cf: Cf, src: seq<Val>, l: Layout, k: nat)
    requires l.Valid() && First(l) <= k < Stop(l) && Cells(l.ds, l.n) <= |src|
    ensures Cells(l.ds, Source(l, k) + l.factor) <= |src|
    ensures OutRow(cf, src, l, k) == GroupRow(cf, src, l.ds, Source(l, k), l.factor, l.ds)
  {
    hide GroupRow, Cells, Stop, Mul;
    WholeRow(l, k);
    WholeInside(l, k);
  }

  /** Consolidating in place is consolidating the original rows: what was overwritten lies in front of them. */
  lemma GroupWritten(cf: Cf, src: seq<Val>, l: Layout, k: nat, cells: seq<Val>)
    requires l.Valid() && First(l) <= k < Stop(l) && Written(cf, src, l, k, cells)
    ensures Cells(l.ds, Source(l, k) + l.factor) <= |cells| && Cells(l.ds, k) + l.ds <= |cells|
    ensures Written(cf, src, l, k + 1, cells[..Cells(l.ds, k)] + GroupRow(cf, cells, l.ds, Source(l, k), l.factor, l.ds) +
      cells[Cells(l.ds, k) + l.ds..])
  {
    hide GroupRow, Cells, Reduced, Stop, Mul, OutRow, Source;
    Turn(l, k);
    WholeOutRow(cf, src, l, k);
    GroupRowUnchanged(cf, cells, src, l.ds, Source(l, k), l.factor, l.ds);
    WriteRow(cf, src, l, k, cells, GroupRow(cf, cells, l.ds, Source(l, k), l.factor, l.ds));
  }

  /** The main loop: one destination row per turn. */
  method ReduceGroups(cf: Cf, data: array<Val>, l: Layout, dst0: nat, src0: nat, rowCnt0: nat, ghost cells: seq<Val>)
    returns (dst: nat)
    requires l.Valid() && l.factor <= INT_MAX
    requires Written(cf, cells, l, First(l), data[..])
    requires dst0 == Cells(l.ds, First(l)) && src0 == Cells(l.ds, Skip(l))
    requires !Inner(l) ==> First(l) <= Stop(l) && rowCnt0 == Mul(l.factor, Stop(l) - First(l)) < SIGNED_LIMIT
    requires Inner(l) ==> Signed(rowCnt0) < 0
    modifies data
    ensures Written(cf, cells, l, Lead(l), data[..]) && dst == Cells(l.ds, Lead(l))
  {
    hide Written, Cells, GroupRow, Stop, Source, Skip;
    var src, rowCnt := src0, rowCnt0;
    dst := dst0;
    ghost var k := First(l);
    SourceStart(l);
    while Signed(rowCnt) >= l.factor
      invariant First(l) <= k && Written(cf, cells, l, k, data[..]) && dst == Cells(l.ds, k)
      invariant Inner(l) ==> k == 1 && rowCnt == rowCnt0
      invariant !Inner(l) ==> k <= Stop(l) && rowCnt == Mul(l.factor, Stop(l) - k) < SIGNED_LIMIT
      invariant !Inner(l) ==> src == Cells(l.ds, Source(l, k))
      decreases rowCnt
    {
      Turn(l, k);
      GroupWritten(cf, cells, l, k, data[..]);
      ReduceRow(cf, data, l.ds, dst, src, Source(l, k), l.factor);
      OneRow(l.ds, k);
      dst := dst + l.ds;
      src := src + Cells(l.ds, l.factor);
      rowCnt := rowCnt - l.factor;
      k := k + 1;
    }
    if !Inner(l) { Turn(l, k); }
  }

  /** There is room for the row for a cut-off end behind the others, given one row more than there are source rows. */
  lemma RoomForTail(l: Layout)
    requires l.Valid() && l.n > 0
    ensures Lead(l) <= l.n && Cells(l.ds, Lead(l)) + l.ds <= Cells(l.ds, l.n + 1) && l.ds <= Cells(l.ds, l.n + 1)
    ensures Cells(l.ds, l.n) <= Cells(l.ds, l.n + 1)
  {
    hide Mul, Cells;
    Quotient(l.lead + l.n, l.factor);
    MulNext(l.factor, l.n);
    AtLeast(l.factor, l.n);
    MulOrder(l.factor, Stop(l), l.n + 1);
    OneRow(l.ds, 0);
    OneRow(l.ds, l.n);
    OneRow(l.ds, Lead(l));
    NoCells(l.ds);
    RowsInside(l.ds, 0, 1, l.n + 1);
    RowsInside(l.ds, 0, Lead(l) + 1, l.n + 1);
  }

  /** The word arithmetic of the row count and the sanity check: it fails only for rows strictly inside one interval. */
  lemma SanityCheck(l: Layout)
    requires l.Valid() && l.factor <= INT_MAX && 0 < l.n < SIGNED_LIMIT
    ensures var left := Word(Word(l.n - Skip(l)) - Tail(l));
            (left % l.factor == 0 <==> (Inner(l) ==> WORD % l.factor == 0)) &&
            (Inner(l) ==> Signed(left) < 0) &&
            (!Inner(l) ==> First(l) <= Stop(l) && left == Mul(l.factor, Stop(l) - First(l)) < SIGNED_LIMIT)
    ensures Tail(l) < l.factor && Skip(l) <= l.factor
  {
    hide Mul, Stop, Tail, Skip, Word, Signed;
    RowsLeft(l);
    SkipsBelow(l);
    if Inner(l) {
      WordBelow(l.n, Skip(l), Tail(l), l.factor);
      WrappedRemainder(l.factor);
      Negative(l.factor);
    } else {
      Divide(Mul(l.factor, Stop(l) - First(l)), l.factor, Stop(l) - First(l), 0);
      NoWrap(l.n, Skip(l), Tail(l), Mul(l.factor, Stop(l) - First(l)));
    }
  }

  lemma SkipsBelow(l: Layout)
    requires l.Valid()
    ensures Tail(l) < l.factor && Skip(l) <= l.factor
  {
  }

  lemma Negative(f: nat)
    requires 0 < f <= INT_MAX
    ensures Signed(WORD - f) < 0
  {
  }

  lemma WordBelow(n: nat, skip: nat, tail: nat, f: nat)
    requires n < SIGNED_LIMIT && skip <= f && tail < f && 0 < f <= INT_MAX && skip + tail == n + f
    ensures Word(Word(n - skip) - tail) == WORD - f
  {
    assert n < skip;
    assert Word(n - skip) == WORD + n - skip;
  }

  lemma NoWrap(n: nat, skip: nat, tail: nat, left: nat)
    requires n < SIGNED_LIMIT && n == skip + tail + left
    ensures Word(Word(n - skip) - tail) == left
  {
    assert Word(n - skip) == n - skip;
  }

  /** The skip at the start: an unknown row for the interval that is cut off, and the read cursor behind its rows. */
  method SkipHead(cf: Cf, data: array<Val>, l: Layout, ghost cells: seq<Val>) returns (dst: nat, src: nat)
    requires l.Valid() && l.n > 0 && Cells(l.ds, l.n + 1) <= data.Length && Cells(l.ds, l.n) <= |cells| && data[..] == cells
    modifies data
    ensures Written(cf, cells, l, First(l), data[..]) && dst == Cells(l.ds, First(l)) && src == Cells(l.ds, Skip(l))
  {
    hide Mul, Cells, Written, Reduced, OutRow, Unknown, Tail, Stop, Lead, Layout.Total;
    RoomForTail(l);
    NothingWritten(cf, cells, l);
    CutRows(cf, cells, l);
    NoCells(l.ds);
    OneRow(l.ds, 0);
    dst, src := 0, 0;
    if l.lead != 0 {
      var skip := l.factor - l.lead;
      src := Cells(l.ds, skip);
      WriteRow(cf, cells, l, 0, data[..], Unknown(l.ds));
      UnknownRow(data, l.ds, dst);
      dst := dst + l.ds;
    }
  }

  /** The part of `reduce_data` that moves rows. It ends the program, here `sane == false`, if and only if the rows lie
      strictly inside one destination interval and the factor does not divide the word size. */
  method ReduceRows(cf: Cf, data: array<Val>, l: Layout, tail: nat) returns (sane: bool)
    requires l.Valid() && l.factor <= INT_MAX && 0 < l.n < SIGNED_LIMIT && tail == Tail(l)
    requires data.Length >= Cells(l.ds, l.n + 1)
    modifies data
    ensures sane <==> (Inner(l) ==> WORD % l.factor == 0)
    ensures Cells(l.ds, l.n) <= data.Length
    ensures sane ==> if Inner(l) then Cells(l.ds, 1) <= data.Length && data[..Cells(l.ds, 1)] == Reduced(cf, old(data[..]), l, 1)
                     else Written(cf, old(data[..]), l, l.Total(), data[..])
  {
    hide Mul, Cells, Written, Reduced, Stop, OutRow, Skip, Tail, Word, Signed, Inner, Lead, Unknown;
    ghost var cells := data[..];
    RoomForTail(l);
    SanityCheck(l);
    Skips(l);
    var dst, src := SkipHead(cf, data, l, cells);
    var rowCnt := l.n;
    if l.lead != 0 {
      rowCnt := Word(rowCnt - (l.factor - l.lead));
    }
    if tail != 0 {
      rowCnt := Word(rowCnt - tail);
    }
    if rowCnt % l.factor != 0 {
      return false;
    }
    dst := ReduceGroups(cf, data, l, dst, src, rowCnt, cells);
    TailRow(cf, cells, l, data[..]);
    if tail != 0 {
      UnknownRow(data, l.ds, dst);
    }
    LeadIs(l);
    return true;
  }

  lemma LeadIs(l: Layout)
    requires l.Valid()
    ensures !Inner(l) ==> Lead(l) == Stop(l)
    ensures Inner(l) ==> Lead(l) == 1
  {
  }

  lemma Skips(l: Layout)
    requires l.Valid() && l.n < SIGNED_LIMIT
    ensures Skip(l) == if l.lead == 0 then 0 else l.factor - l.lead
    ensures Skip(l) == 0 ==> Word(l.n - Skip(l)) == l.n
    ensures Tail(l) == 0 ==> Word(Word(l.n - Skip(l)) - Tail(l)) == Word(l.n - Skip(l))
  {
  }

  /** The row for the cut-off end. */
  lemma TailRow(cf: Cf, src: seq<Val>, l: Layout, cells: seq<Val>)
    requires l.Valid() && l.n > 0 && Written(cf, src, l, Lead(l), cells) && Cells(l.ds, Lead(l)) + l.ds <= |cells|
    ensures !Inner(l) && Tail(l) == 0 ==> l.Total() == Lead(l)
    ensures Inner(l) ==> Tail(l) > 0
    ensures var dst := Cells(l.ds, Lead(l));
            var cells' := cells[..dst] + Unknown(l.ds) + cells[dst + l.ds..];
            Tail(l) > 0 ==> if Inner(l) then cells'[..Cells(l.ds, 1)] == Reduced(cf, src, l, 1) else Written(cf, src, l, l.Total(), cells')
  {
    hide Mul, Cells, Reduced, OutRow;
    RoomForTail(l);
    CutRows(cf, src, l);
    if Tail(l) > 0 && !Inner(l) { WriteRow(cf, src, l, Stop(l), cells, Unknown(l.ds)); }
    if Inner(l) { RowsLeft(l); }
  }

  /** A range widened to whole intervals. */
  lemma Widened(x: nat, y: nat, step: nat, s: int, e: int)
    requires step > 0 && s == x - x % step && e == y - y % step + (if y % step == 0 then 0 else step)
    ensures s % step == 0 && s <= x < s + step && e % step == 0 && e - step < y <= e
  {
    hide Mul;
    Quotient(x, step);
    Quotient(y, step);
    MulNext(step, y / step);
    Divide(s, step, x / step, 0);
    Divide(e, step, y / step + (if y % step == 0 then 0 else 1), 0);
  }

  /** `reduce_data`: afterwards the step is a multiple of the old one, the range has been widened to multiples of it, and
      there is one row for each new interval, the consolidation of its source rows or unknown if they are not complete. */
  method ReduceData(cf: Cf, cur: nat, start0: nat, end0: nat, step0: nat, ds: nat, data: array<Val>)
    returns (start: int, end: int, step: nat, sane: bool)
    requires cur > 0 && step0 > 0 && Factor(step0, cur) <= INT_MAX
    requires start0 < end0 < SIGNED_LIMIT && start0 % cur == 0 && end0 % cur == 0
    requires data.Length >= Cells(ds, (end0 - start0) / cur + 1)
    modifies data
    ensures step == Mul(cur, Factor(step0, cur)) >= step0
    ensures start % step == 0 && start <= start0 < start + step
    ensures end % step == 0 && end - step < end0 <= end
    ensures var l := LayoutOf(ds, cur, Factor(step0, cur), start0, end0);
            end - start == Mul(step, l.Total()) && (sane <==> (Inner(l) ==> WORD % l.factor == 0)) &&
            Cells(ds, l.n) <= data.Length && Cells(ds, l.Total()) <= data.Length &&
            (sane ==> data[..Cells(ds, l.Total())] == Reduced(cf, old(data[..]), l, l.Total())) &&
            (!Inner(l) ==> data[Cells(ds, l.Total())..] == old(data[Cells(ds, l.Total())..]))
  {
    hide Mul, Cells, Reduced, Factor, Stop, OutRow, Tail;
    var factor := Factor(step0, cur);
    step := Mul(cur, factor);
    AdjustedRange(ds, cur, factor, start0, end0);
    EndOfRows(ds, cur, factor, start0, end0);
    OnGrid(cur, factor, start0);
    OnGrid(cur, factor, end0);
    start, end := start0, end0;
    var rowCnt := (end0 - start0) / cur;
    var endOffset := end0 % step;
    var startOffset := start0 % step;
    if startOffset != 0 {
      start := start - startOffset;
    }
    if endOffset != 0 {
      end := end - endOffset + step;
    }
    var l := Layout(ds, factor, startOffset / cur, rowCnt);
    TotalRows(l);
    Widened(start0, end0, step, start, end);
    sane := ReduceRows(cf, data, l, endOffset / cur);
  }

  lemma TotalRows(l: Layout)
    requires l.Valid() && l.n > 0
    ensures Cells(l.ds, l.Total()) <= Cells(l.ds, l.n + 1)
    ensures Inner(l) ==> l.Total() == 1
  {
    hide Cells, Mul;
    RoomForTail(l);
    OneRow(l.ds, Lead(l));
    if Inner(l) { RowsLeft(l); }
  }

  // ----- what the reduced rows are

  /** Each cell is the consolidation of exactly the source cells of its interval, or unknown if the interval is cut off. */
  lemma ReducedCell(cf: Cf, src: seq<Val>, l: Layout, rows: nat, k: nat, col: nat)
    requires l.Valid() && Cells(l.ds, l.n) <= |src| && k < rows && col < l.ds
    ensures l.Whole(k) ==> Cells(l.ds, Mul(l.factor, k) - l.lead + l.factor) <= |src|
    ensures Cells(l.ds, k) + col < |Reduced(cf, src, l, rows)|
    ensures Reduced(cf, src, l, rows)[Cells(l.ds, k) + col] ==
      if l.Whole(k) then Consolidate(cf, Column(src, l.ds, Mul(l.factor, k) - l.lead, l.factor, col)) else NaN
  {
    hide Reduced, Mul, Consolidate, Column, GroupRow, Cells;
    ReducedAt(cf, src, l, rows, k, col);
    if l.Whole(k) {
      WholeInside(l, k);
      GroupRowAt(cf, src, l.ds, Mul(l.factor, k) - l.lead, l.factor, l.ds, col);
    }
  }

  /** In terms of time: source row i, which ends at start + (i + 1) * cur, is among the rows of destination row k exactly
      if it ends in the interval of that row, and the row is whole exactly if its interval lies in the given range. */
  lemma IntervalRows(ds: nat, cur: nat, factor: nat, start: nat, end: nat, k: nat, i: nat)
    requires cur > 0 && factor > 0 && start < end && start % cur == 0 && end % cur == 0
    ensures var l, step := LayoutOf(ds, cur, factor, start, end), Mul(cur, factor);
            var from := start - start % step + Mul(step, k);
            (Mul(factor, k) <= l.lead + i < Mul(factor, k) + factor <==> from < start + Mul(cur, i + 1) <= from + step) &&
            (l.Whole(k) <==> start <= from && from + step <= end)
  {
    hide Mul;
    var l, step := LayoutOf(ds, cur, factor, start, end), Mul(cur, factor);
    OnGrid(cur, factor, start);
    EndOfRows(ds, cur, factor, start, end);
    MulMul(cur, factor, k);
    MulAdd(cur, Mul(factor, k), factor);
    MulAdd(cur, l.lead, i + 1);
    MulAdd(cur, l.lead, l.n);
    MulOrder(cur, Mul(factor, k), l.lead + i + 1);
    MulOrder(cur, l.lead + i + 1, Mul(factor, k) + factor);
    MulOrder(cur, l.lead, Mul(factor, k));
    MulOrder(cur, Mul(factor, k) + factor, l.lead + l.n);
  }

  /** The sanity check can fail: one row from time 1 to time 2, in an interval of three rows. */
  lemma SanityCheckFails()
    ensures var l := LayoutOf(1, 1, Factor(3, 1), 1, 2); Inner(l) && WORD % l.factor != 0
  {
    assert Factor(3, 1) == 3;
  }
}
