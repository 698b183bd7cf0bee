/** Choosing an archive and reading a time range from its ring of rows (rrd_fetch.c). */
module Fetch {
  import opened Values
  import opened Slices
  import opened Rows
  import opened Arith
  import opened Archives

  ghost predicate WellFormed(rrd: Rrd) {
    LaidOut(rrd) && rrd.pdpStep > 0 && forall i :: 0 <= i < |rrd.rras| ==> rrd.rras[i].pdpCnt > 0
  }

  // ----- the choice

  /** Seconds per row. */
  function Step(rrd: Rrd, i: nat): (s: nat)
    requires i < |rrd.rras|
    ensures rrd.pdpStep > 0 && rrd.rras[i].pdpCnt > 0 ==> s > 0
  {
    Mul(rrd.pdpStep, rrd.rras[i].pdpCnt)
  }

  /** Where the archive's coverage begins. */
  function CalStart(rrd: Rrd, i: nat): int
    requires WellFormed(rrd) && i < |rrd.rras|
  {
    rrd.lastUp - rrd.lastUp % Step(rrd, i) - Mul(Step(rrd, i), rrd.rras[i].rowCnt)
  }

  function StepDiff(rrd: Rrd, i: nat, step: nat): nat
    requires i < |rrd.rras|
  {
    if step >= Step(rrd, i) then step - Step(rrd, i) else Step(rrd, i) - step
  }

  /** The archive covers the whole range, or only its later part. */
  predicate Full(rrd: Rrd, cf: nat, start: nat, i: nat)
    requires WellFormed(rrd) && i < |rrd.rras|
  {
    rrd.rras[i].cf == cf && CalStart(rrd, i) <= start
  }

  predicate Part(rrd: Rrd, cf: nat, start: nat, i: nat)
    requires WellFormed(rrd) && i < |rrd.rras|
  {
    rrd.rras[i].cf == cf && CalStart(rrd, i) > start
  }

  /** How much of the range a partial archive covers. */
  function Coverage(rrd: Rrd, start: nat, end: nat, i: nat): int
    requires WellFormed(rrd) && i < |rrd.rras|
  {
    end - start - (CalStart(rrd, i) - start)
  }

  /** i is the first of the full archives below n with the least step difference. */
  ghost predicate BestFull(rrd: Rrd, cf: nat, start: nat, step: nat, n: nat, i: nat)
    requires WellFormed(rrd) && n <= |rrd.rras|
  {
    i < n && Full(rrd, cf, start, i) &&
    forall j :: 0 <= j < n && Full(rrd, cf, start, j) ==>
      StepDiff(rrd, i, step) <= StepDiff(rrd, j, step) && (j < i ==> StepDiff(rrd, i, step) < StepDiff(rrd, j, step))
  }

  /** i is the first of the partial archives below n with the most coverage, and among those the least step difference. */
  ghost predicate BestPart(rrd: Rrd, cf: nat, start: nat, end: nat, step: nat, n: nat, i: nat)
    requires WellFormed(rrd) && n <= |rrd.rras|
  {
    i < n && Part(rrd, cf, start, i) &&
    forall j :: 0 <= j < n && Part(rrd, cf, start, j) ==>
      Coverage(rrd, start, end, j) < Coverage(rrd, start, end, i) ||
      (Coverage(rrd, start, end, j) == Coverage(rrd, start, end, i) &&
       (if j < i then StepDiff(rrd, i, step) < StepDiff(rrd, j, step) else StepDiff(rrd, i, step) <= StepDiff(rrd, j, step)))
  }

  ghost predicate NoFull(rrd: Rrd, cf: nat, start: nat, n: nat)
    requires WellFormed(rrd) && n <= |rrd.rras|
  {
    forall j :: 0 <= j < n ==> !Full(rrd, cf, start, j)
  }

  ghost predicate NoPart(rrd: Rrd, cf: nat, start: nat, n: nat)
    requires WellFormed(rrd) && n <= |rrd.rras|
  {
    forall j :: 0 <= j < n ==> !Part(rrd, cf, start, j)
  }

  lemma Measures(rrd: Rrd, i: nat, step: nat)
    requires WellFormed(rrd) && i < |rrd.rras|
    ensures var rowStep := Mul(rrd.pdpStep, rrd.rras[i].pdpCnt);
            rowStep > 0 && CalStart(rrd, i) == rrd.lastUp - rrd.lastUp % rowStep - Mul(rowStep, rrd.rras[i].rowCnt) &&
            StepDiff(rrd, i, step) == if step >= rowStep then step - rowStep else rowStep - step
  {
    hide Mul;
  }

  /** The selection loop of `rrd_fetch_fn`; None is the error for a missing consolidation function. */
  method Choose(rrd: Rrd, cf: nat, start: nat, end: nat, step: nat) returns (chosen: Option<nat>)
    requires WellFormed(rrd)
    ensures chosen.None? <==> forall i :: 0 <= i < |rrd.rras| ==> rrd.rras[i].cf != cf
    ensures chosen.Some? ==>
      if NoFull(rrd, cf, start, |rrd.rras|) then BestPart(rrd, cf, start, end, step, |rrd.rras|, chosen.value)
      else BestFull(rrd, cf, start, step, |rrd.rras|, chosen.value)
  {
    hide Step, CalStart, StepDiff, Mul;
    var bestFull, bestPart, firstFull, firstPart := 0, 0, true, true;
    var bestFullDiff, bestPartDiff := 0, 0;
    var bestMatch: int := 0;
    var i := 0;
    while i < |rrd.rras|
      invariant 0 <= i <= |rrd.rras|
      invariant if firstFull then NoFull(rrd, cf, start, i)
                else BestFull(rrd, cf, start, step, i, bestFull) && bestFullDiff == StepDiff(rrd, bestFull, step)
      invariant if firstPart then NoPart(rrd, cf, start, i)
                else BestPart(rrd, cf, start, end, step, i, bestPart) && bestPartDiff == StepDiff(rrd, bestPart, step) &&
                     bestMatch == Coverage(rrd, start, end, bestPart)
    {
      if rrd.rras[i].cf == cf {
        var rowStep := Mul(rrd.pdpStep, rrd.rras[i].pdpCnt);
        var calEnd := rrd.lastUp - rrd.lastUp % rowStep;
        var calStart: int := calEnd - Mul(rowStep, rrd.rras[i].rowCnt);
        var fullMatch: int := end - start;
        var diff := if step >= rowStep then step - rowStep else rowStep - step;
        Measures(rrd, i, step);
        if calStart <= start {
          if firstFull || diff < bestFullDiff {
            firstFull, bestFullDiff, bestFull := false, diff, i;
          }
        } else {
          var match_: int := fullMatch - (calStart - start);
          if firstPart || bestMatch < match_ || (bestMatch == match_ && diff < bestPartDiff) {
            firstPart, bestMatch, bestPartDiff, bestPart := false, match_, diff, i;
          }
        }
      }
      i := i + 1;
    }
    if !firstFull {
      chosen := Some(bestFull);
    } else if !firstPart {
      chosen := Some(bestPart);
    } else {
      chosen := None;
      forall j | 0 <= j < |rrd.rras| ensures rrd.rras[j].cf != cf {
        assert !Full(rrd, cf, start, j) && !Part(rrd, cf, start, j);
      }
    }
  }

  // ----- the rows

  /** Offsets in seconds turned into row numbers. `a`, `b` and `e` number the intervals that end at the adjusted start,
      the adjusted end and the last row; the archive has `rows` rows. */
  lemma Offsets(step: nat, a: int, b: int, e: int, rows: nat)
    requires step > 0
    ensures var first := step * e - step * (rows - 1);
            (step * a + step - first) / step == a - e + rows &&
            (step * e - step * b) / step == e - b &&
            (step * a <= step * e <==> a <= e) &&
            (step * b >= first - step <==> b >= e - rows)
  {
    assert step * a + step - (step * e - step * (rows - 1)) == step * (a - e + rows);
    ExactDivision(step, a - e + rows);
    assert step * e - step * b == step * (e - b);
    ExactDivision(step, e - b);
    MulLess(step, a, e);
    assert step * e - step * (rows - 1) - step == step * (e - rows);
    MulLess(step, e - rows, b);
  }

  lemma Align(step: nat, t: nat)
    requires step > 0
    ensures t - t % step == step * (t / step)
    ensures t + (step - t % step) == step * (t / step + 1)
  {
  }

  /** A row lies inside the file. */
  lemma RowInFile(rrd: Rrd, i: nat, row: nat)
    requires WellFormed(rrd) && i < |rrd.rras| && row < rrd.rras[i].rowCnt
    ensures Base(rrd.dsCnt, rrd.rras, i) + Cells(rrd.dsCnt, row) + rrd.dsCnt <= |rrd.cells|
    ensures Cells(rrd.dsCnt, row + 1) == Cells(rrd.dsCnt, row) + rrd.dsCnt
  {
    CellsAdd(rrd.dsCnt, row + 1, rrd.rras[i].rowCnt - row - 1);
    BaseMonotone(rrd.dsCnt, rrd.rras, i + 1, |rrd.rras|);
  }

  function StoredRow(rrd: Rrd, i: nat, row: nat): (cells: seq<Val>)
    requires WellFormed(rrd) && i < |rrd.rras| && row < rrd.rras[i].rowCnt
    ensures |cells| == rrd.dsCnt
  {
    RowInFile(rrd, i, row);
    var at := Base(rrd.dsCnt, rrd.rras, i) + Cells(rrd.dsCnt, row);
    rrd.cells[at..at + rrd.dsCnt]
  }

  /** The interval that the row under the cursor ends: the last complete one. */
  function Newest(rrd: Rrd, i: nat): nat
    requires WellFormed(rrd) && i < |rrd.rras|
  {
    rrd.lastUp / Step(rrd, i)
  }

  /** The archive as a table over time: the row of the interval that ends at Step * k. It is stored as far behind the
      cursor as the interval lies behind the newest one; outside the archive's window it is unknown. */
  function RowAt(rrd: Rrd, i: nat, k: int): (row: seq<Val>)
    requires WellFormed(rrd) && i < |rrd.rras|
    ensures |row| == rrd.dsCnt
  {
    var age, rows := Newest(rrd, i) - k, rrd.rras[i].rowCnt;
    if 0 <= age < rows then
      StoredRow(rrd, i, if age <= rrd.rras[i].curRow then rrd.rras[i].curRow - age else rrd.rras[i].curRow - age + rows)
    else Unknown(rrd.dsCnt)
  }

  /** The rows of `n` consecutive intervals, the first ending at Step * k. */
  function Table(rrd: Rrd, i: nat, k: int, n: nat): seq<Val>
    requires WellFormed(rrd) && i < |rrd.rras|
  {
    if n == 0 then [] else Table(rrd, i, k, n - 1) + RowAt(rrd, i, k + n - 1)
  }

  /** Position in the ring of the i-th row after the cursor, and its row. */
  lemma RingRow(rrd: Rrd, ci: nat, i: nat)
    requires WellFormed(rrd) && ci < |rrd.rras| && i < rrd.rras[ci].rowCnt
    ensures var rra := rrd.rras[ci];
            (rra.curRow + 1 + i) % rra.rowCnt == Wrap(rra.curRow + 1 + i, rra.rowCnt) < rra.rowCnt &&
            RowAt(rrd, ci, Newest(rrd, ci) - rra.rowCnt + 1 + i) == StoredRow(rrd, ci, Wrap(rra.curRow + 1 + i, rra.rowCnt))
  {
    hide StoredRow, Newest;
    WrapMod(rrd.rras[ci].curRow + 1 + i, rrd.rras[ci].rowCnt);
  }

  function Wrap(x: nat, n: nat): nat {
    if x >= n then x - n else x
  }

  lemma WrapMod(x: nat, n: nat)
    requires x < 2 * n
    ensures x % n == Wrap(x, n)
  {
  }

  lemma DivMonotone(a: nat, b: nat, step: nat)
    requires step > 0 && a <= b
    ensures a / step <= b / step
  {
    MulLess(step, b / step + 1, a / step);
    Align(step, a);
    Align(step, b);
  }

  /** Number of rows in the adjusted range: the end always moves on to the next interval. */
  function Intervals(start: nat, end: nat, step: nat): (n: nat)
    requires step > 0 && start <= end
    ensures n >= 1
  {
    DivMonotone(start, end, step);
    end / step - start / step + 1
  }

  /** The time arithmetic: adjusted range, offsets, and whether the range meets the archive's window. */
  method Adjust(step: nat, start0: nat, end0: nat, lastUp: nat, rows: nat)
    returns (start: int, end: int, startOffset: int, endOffset: int, meets: bool)
    requires step > 0 && rows > 0
    ensures start == step * (start0 / step) <= start0 && end == step * (end0 / step + 1) > end0
    ensures startOffset == start0 / step - lastUp / step + rows && endOffset == lastUp / step - (end0 / step + 1)
    ensures meets <==> start0 / step <= lastUp / step && end0 / step + 1 >= lastUp / step - rows
  {
    start := start0 - start0 % step;
    end := end0 + (step - end0 % step);
    Align(step, start0);
    Align(step, end0);
    Align(step, lastUp);
    var rraEnd: int := lastUp - lastUp % step;
    var rraStart := rraEnd - step * (rows - 1);
    startOffset := (start + step - rraStart) / step;
    endOffset := (rraEnd - end) / step;
    meets := start <= rraEnd && end >= rraStart - step;
    Offsets(step, start0 / step, end0 / step + 1, lastUp / step, rows);
  }

  /** The reading half of `rrd_fetch_fn` for the chosen archive. */
  method ReadRows(rrd: Rrd, ci: nat, start0: nat, end0: nat) returns (start: int, end: int, step: nat, data: seq<Val>)
    requires WellFormed(rrd) && ci < |rrd.rras| && start0 <= end0
    ensures step == Step(rrd, ci) > 0
    ensures start == step * (start0 / step) <= start0 && end == step * (end0 / step + 1) > end0
    ensures data == Table(rrd, ci, start0 / step + 1, Intervals(start0, end0, step))
  {
    hide Step, Cells, Base, Newest, Table;
    var rra := rrd.rras[ci];
    step := Step(rrd, ci);
    var startOffset, endOffset, meets;
    start, end, startOffset, endOffset, meets := Adjust(step, start0, end0, rrd.lastUp, rra.rowCnt);
    NewestIs(rrd, ci);
    ghost var rows := Intervals(start0, end0, step);
    var ptr, pos := 0, 0;
    if meets {
      ptr := SeekRow(rra, startOffset);
      pos := Base(rrd.dsCnt, rrd.rras, ci) + Cells(rrd.dsCnt, ptr);
    }
    data := ReadLoop(rrd, ci, startOffset, endOffset, meets, ptr, pos, Newest(rrd, ci));
  }

  /** Where the first seek goes. */
  method SeekRow(rra: Rra, startOffset: int) returns (ptr: nat)
    requires rra.curRow < rra.rowCnt
    ensures ptr < rra.rowCnt && OnRow(rra, ptr, startOffset)
  {
    if 0 <= startOffset < rra.rowCnt {
      WrapMod(rra.curRow + 1 + startOffset, rra.rowCnt);
    }
    if startOffset <= 0 {
      WrapMod(rra.curRow + 1, rra.rowCnt);
    }
    ptr := if startOffset <= 0 then rra.curRow + 1 else rra.curRow + 1 + startOffset;
    ptr := ptr % rra.rowCnt;
  }

  /** The loop over the rows; `e` numbers the newest interval. */
  method ReadLoop(rrd: Rrd, ci: nat, startOffset: int, endOffset: int, ghost seeked: bool, ptr0: int, pos0: nat, ghost e: nat)
    returns (data: seq<Val>)
    requires WellFormed(rrd) && ci < |rrd.rras| && e == Newest(rrd, ci)
    requires startOffset <= rrd.rras[ci].rowCnt - endOffset
    requires seeked || startOffset >= rrd.rras[ci].rowCnt || rrd.rras[ci].rowCnt - endOffset <= 0
    requires seeked ==>
      0 <= ptr0 < rrd.rras[ci].rowCnt && OnRow(rrd.rras[ci], ptr0, startOffset) &&
      pos0 == Base(rrd.dsCnt, rrd.rras, ci) + Cells(rrd.dsCnt, ptr0)
    ensures data == Table(rrd, ci, e - rrd.rras[ci].rowCnt + 1 + startOffset, rrd.rras[ci].rowCnt - endOffset - startOffset)
  {
    hide Cells, Base, Newest, Table, RowAt, StoredRow, Unknown;
    var rra := rrd.rras[ci];
    ghost var k := e - rra.rowCnt + 1 + startOffset;
    var ptr, pos := ptr0, pos0;
    var rraBase := Base(rrd.dsCnt, rrd.rras, ci);
    data := [];
    var i := startOffset;
    NoRows(rrd, ci, k);
    while i < rra.rowCnt - endOffset
      invariant startOffset <= i <= rra.rowCnt - endOffset
      invariant data == Table(rrd, ci, k, i - startOffset)
      invariant seeked ==> 0 <= ptr <= rra.rowCnt && pos == rraBase + Cells(rrd.dsCnt, ptr) && OnRow(rra, ptr, i)
    {
      TableNext(rrd, ci, k, i - startOffset);
      if i < 0 || i >= rra.rowCnt {
        OutsideRow(rrd, ci, e, i);
        data := WriteUnknown(data, rrd.dsCnt);
      } else {
        if ptr >= rra.rowCnt {
          ptr := ptr - rra.rowCnt;
          pos := rraBase + Cells(rrd.dsCnt, ptr);
        }
        InsideRow(rrd, ci, e, i);
        RowInFile(rrd, ci, ptr);
        data := data + rrd.cells[pos..pos + rrd.dsCnt];
        pos := pos + rrd.dsCnt;
        ptr := ptr + 1;
      }
      i := i + 1;
    }
  }

  /** The pointer stands on the i-th row after the cursor, or one past the end when that row is the first one. */
  ghost predicate OnRow(rra: Rra, ptr: int, i: int) {
    if i <= 0 then ptr == Wrap(rra.curRow + 1, rra.rowCnt)
    else i < rra.rowCnt ==>
      var p := Wrap(rra.curRow + 1 + i, rra.rowCnt);
      ptr == p || (ptr == rra.rowCnt && p == 0)
  }

  lemma NewestIs(rrd: Rrd, ci: nat)
    requires WellFormed(rrd) && ci < |rrd.rras|
    ensures Newest(rrd, ci) == rrd.lastUp / Step(rrd, ci)
  {
  }

  lemma NoRows(rrd: Rrd, ci: nat, k: int)
    requires WellFormed(rrd) && ci < |rrd.rras|
    ensures Table(rrd, ci, k, 0) == []
  {
  }

  lemma TableNext(rrd: Rrd, ci: nat, k: int, n: nat)
    requires WellFormed(rrd) && ci < |rrd.rras|
    ensures Table(rrd, ci, k, n + 1) == Table(rrd, ci, k, n) + RowAt(rrd, ci, k + n)
  {
  }

  lemma OutsideRow(rrd: Rrd, ci: nat, e: int, i: int)
    requires WellFormed(rrd) && ci < |rrd.rras| && e == Newest(rrd, ci) && (i < 0 || i >= rrd.rras[ci].rowCnt)
    ensures RowAt(rrd, ci, e - rrd.rras[ci].rowCnt + 1 + i) == Unknown(rrd.dsCnt)
  {
    hide Newest;
  }

  lemma InsideRow(rrd: Rrd, ci: nat, e: int, i: nat)
    requires WellFormed(rrd) && ci < |rrd.rras| && e == Newest(rrd, ci) && i < rrd.rras[ci].rowCnt
    ensures var p := Wrap(rrd.rras[ci].curRow + 1 + i, rrd.rras[ci].rowCnt);
            p < rrd.rras[ci].rowCnt &&
            Base(rrd.dsCnt, rrd.rras, ci) + Cells(rrd.dsCnt, p) + rrd.dsCnt <= |rrd.cells| &&
            RowAt(rrd, ci, e - rrd.rras[ci].rowCnt + 1 + i) ==
            rrd.cells[Base(rrd.dsCnt, rrd.rras, ci) + Cells(rrd.dsCnt, p)..Base(rrd.dsCnt, rrd.rras, ci) + Cells(rrd.dsCnt, p) + rrd.dsCnt]
  {
    hide Newest, RowAt;
    RingRow(rrd, ci, i);
    RowInFile(rrd, ci, Wrap(rrd.rras[ci].curRow + 1 + i, rrd.rras[ci].rowCnt));
  }

  /** The result of `rrd_fetch_fn`: the adjusted range, the step, the number of data sources and the rows. */
  datatype Fetched = Fetched(start: int, end: int, step: nat, dsCnt: nat, data: seq<Val>)

  /** `rrd_fetch_fn`: choose an archive, then read the range from it. */
  method RrdFetch(rrd: Rrd, cf: nat, start: nat, end: nat, step: nat) returns (result: Option<Fetched>)
    requires WellFormed(rrd) && start <= end
    ensures result.None? <==> forall i :: 0 <= i < |rrd.rras| ==> rrd.rras[i].cf != cf
    ensures result.Some? ==> exists ci: nat :: IsFetched(rrd, cf, start, end, step, ci, result.value)
  {
    hide Step, Table, NoFull, BestPart, BestFull;
    var chosen := Choose(rrd, cf, start, end, step);
    if chosen.None? {
      return None;
    }
    hide WellFormed;
    BestInRange(rrd, cf, start, end, step, chosen.value);
    var s, e, st, data := ReadRows(rrd, chosen.value, start, end);
    result := Some(Fetched(s, e, st, rrd.dsCnt, data));
    assert IsFetched(rrd, cf, start, end, step, chosen.value, result.value);
  }

  lemma BestInRange(rrd: Rrd, cf: nat, start: nat, end: nat, step: nat, ci: nat)
    requires WellFormed(rrd)
    requires if NoFull(rrd, cf, start, |rrd.rras|) then BestPart(rrd, cf, start, end, step, |rrd.rras|, ci)
             else BestFull(rrd, cf, start, step, |rrd.rras|, ci)
    ensures ci < |rrd.rras|
  {
  }

  /** One row for each interval start + step, ..., end of the best archive, each the row that the archive's table
      holds for that time. */
  ghost predicate IsFetched(rrd: Rrd, cf: nat, start: nat, end: nat, step: nat, ci: nat, f: Fetched)
    requires WellFormed(rrd) && start <= end
  {
    ci < |rrd.rras| &&
    (if NoFull(rrd, cf, start, |rrd.rras|) then BestPart(rrd, cf, start, end, step, |rrd.rras|, ci)
     else BestFull(rrd, cf, start, step, |rrd.rras|, ci)) &&
    f.step == Step(rrd, ci) > 0 && f.dsCnt == rrd.dsCnt &&
    f.start == f.step * (start / f.step) <= start && f.end == f.step * (end / f.step + 1) > end &&
    f.data == Table(rrd, ci, start / f.step + 1, Intervals(start, end, f.step))
  }

  lemma BlockSize(rrd: Rrd, i: nat)
    requires WellFormed(rrd) && i < |rrd.rras|
    ensures |Block(rrd, i)| == Cells(rrd.dsCnt, rrd.rras[i].rowCnt)
    ensures Cells(rrd.dsCnt, rrd.rras[i].curRow + 1) <= |Block(rrd, i)|
  {
    BaseMonotone(rrd.dsCnt, rrd.rras, i + 1, |rrd.rras|);
    CellsAdd(rrd.dsCnt, rrd.rras[i].curRow + 1, rrd.rras[i].rowCnt - rrd.rras[i].curRow - 1);
  }

  lemma BlockRow(rrd: Rrd, i: nat, row: nat)
    requires WellFormed(rrd) && i < |rrd.rras| && row < rrd.rras[i].rowCnt
    ensures Cells(rrd.dsCnt, row) + rrd.dsCnt == Cells(rrd.dsCnt, row + 1) <= |Block(rrd, i)|
    ensures StoredRow(rrd, i, row) == Block(rrd, i)[Cells(rrd.dsCnt, row)..Cells(rrd.dsCnt, row + 1)]
  {
    BlockSize(rrd, i);
    RowInFile(rrd, i, row);
    CellsAdd(rrd.dsCnt, row + 1, rrd.rras[i].rowCnt - row - 1);
    BaseMonotone(rrd.dsCnt, rrd.rras, i + 1, |rrd.rras|);
    SubBlock(rrd.cells, Base(rrd.dsCnt, rrd.rras, i), Cells(rrd.dsCnt, row), Cells(rrd.dsCnt, row + 1),
             Base(rrd.dsCnt, rrd.rras, i + 1));
  }

  /** The first n rows of a ring: those behind the cursor, then those from the first row on. */
  function FirstRows(ds: nat, rra: Rra, block: seq<Val>, n: nat): seq<Val>
    requires rra.curRow < rra.rowCnt && n <= rra.rowCnt && |block| == Cells(ds, rra.rowCnt)
  {
    var behind := rra.rowCnt - 1 - rra.curRow;
    CellsSplit(ds, rra.curRow + 1, rra.rowCnt);
    if n <= behind then
      CellsSplit(ds, rra.curRow + 1, rra.curRow + 1 + n);
      CellsSplit(ds, rra.curRow + 1 + n, rra.rowCnt);
      block[Cells(ds, rra.curRow + 1)..Cells(ds, rra.curRow + 1 + n)]
    else
      CellsSplit(ds, n - behind, rra.rowCnt);
      block[Cells(ds, rra.curRow + 1)..] + block[..Cells(ds, n - behind)]
  }

  lemma NextRow(ds: nat, rra: Rra, block: seq<Val>, n: nat)
    requires rra.curRow < rra.rowCnt && 0 < n <= rra.rowCnt && |block| == Cells(ds, rra.rowCnt)
    ensures var row := Wrap(rra.curRow + n, rra.rowCnt);
            Cells(ds, row) <= Cells(ds, row + 1) <= |block| &&
            FirstRows(ds, rra, block, n) == FirstRows(ds, rra, block, n - 1) + block[Cells(ds, row)..Cells(ds, row + 1)]
  {
    hide Cells;
    var row := Wrap(rra.curRow + n, rra.rowCnt);
    CellsAdd(ds, row, 1);
    CellsSplit(ds, row + 1, rra.rowCnt);
    CellsSplit(ds, rra.curRow + 1, rra.rowCnt);
    CellsAdd(ds, 0, 0);
    if rra.curRow + n < rra.rowCnt { CellsSplit(ds, rra.curRow + 1, rra.curRow + n); }
  }

  lemma {:induction false} WindowPrefix(rrd: Rrd, ci: nat, n: nat)
    requires WellFormed(rrd) && ci < |rrd.rras| && n <= rrd.rras[ci].rowCnt
    ensures |Block(rrd, ci)| == Cells(rrd.dsCnt, rrd.rras[ci].rowCnt)
    ensures Table(rrd, ci, Newest(rrd, ci) - rrd.rras[ci].rowCnt + 1, n) == FirstRows(rrd.dsCnt, rrd.rras[ci], Block(rrd, ci), n)
  {
    hide Newest, Block, StoredRow, RowAt, Cells, Base, FirstRows;
    var rra := rrd.rras[ci];
    BlockSize(rrd, ci);
    if n == 0 {
      NoFirstRows(rrd.dsCnt, rra, Block(rrd, ci));
    } else {
      WindowPrefix(rrd, ci, n - 1);
      RingRow(rrd, ci, n - 1);
      BlockRow(rrd, ci, Wrap(rra.curRow + n, rra.rowCnt));
      NextRow(rrd.dsCnt, rra, Block(rrd, ci), n);
    }
  }

  lemma NoFirstRows(ds: nat, rra: Rra, block: seq<Val>)
    requires rra.curRow < rra.rowCnt && |block| == Cells(ds, rra.rowCnt)
    ensures FirstRows(ds, rra, block, 0) == []
  {
    hide Cells;
    CellsSplit(ds, rra.curRow + 1, rra.rowCnt);
  }

  /** Fetching a whole window gives the archive's history, oldest row first. */
  lemma WindowIsHistory(rrd: Rrd, ci: nat)
    requires WellFormed(rrd) && ci < |rrd.rras|
    ensures var rra := rrd.rras[ci];
            Table(rrd, ci, Newest(rrd, ci) - rra.rowCnt + 1, rra.rowCnt) == History(rrd.dsCnt, rra, Block(rrd, ci))
  {
    hide Cells, Base, Newest, Table, Block;
    WindowPrefix(rrd, ci, rrd.rras[ci].rowCnt);
    InRing(rrd, ci);
  }

  lemma InRing(rrd: Rrd, ci: nat)
    requires WellFormed(rrd) && ci < |rrd.rras|
    ensures rrd.rras[ci].curRow < rrd.rras[ci].rowCnt
  {
  }
}
