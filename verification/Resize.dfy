/** Growing and shrinking a round-robin archive by copying the file (rrd_resize.c). */
module Resize {
  import opened Values
  import opened Slices
  import opened Rows
  import opened Archives

  /** What becomes of one archive: unknown rows appear just behind the cursor, or rows just behind the cursor
      disappear, going on at the first row when the end is reached. */
  datatype Resized = Resized(rra: Rra, block: seq<Val>)

  function Grown(dsCnt: nat, rra: Rra, block: seq<Val>, k: nat): Resized
    requires rra.curRow < rra.rowCnt && |block| == Cells(dsCnt, rra.rowCnt)
  {
    CellsSplit(dsCnt, rra.curRow + 1, rra.rowCnt);
    var cut := Cells(dsCnt, rra.curRow + 1);
    Resized(rra.(rowCnt := rra.rowCnt + k), block[..cut] + Unknown(Cells(dsCnt, k)) + block[cut..])
  }

  function Shrunk(dsCnt: nat, rra: Rra, block: seq<Val>, k: nat): Resized
    requires rra.curRow < rra.rowCnt && |block| == Cells(dsCnt, rra.rowCnt) && 0 < k < rra.rowCnt
  {
    CellsSplit(dsCnt, rra.curRow + 1, rra.rowCnt);
    if rra.curRow + k >= rra.rowCnt then
      var gone := rra.curRow + k - rra.rowCnt + 1;
      CellsSplit(dsCnt, gone, rra.curRow + 1);
      Resized(rra.(rowCnt := rra.rowCnt - k, curRow := rra.curRow - gone), block[Cells(dsCnt, gone)..Cells(dsCnt, rra.curRow + 1)])
    else
      CellsSplit(dsCnt, rra.curRow + 1 + k, rra.rowCnt);
      Resized(rra.(rowCnt := rra.rowCnt - k), block[..Cells(dsCnt, rra.curRow + 1)] + block[Cells(dsCnt, rra.curRow + 1 + k)..])
  }

  lemma ResizedSizes(dsCnt: nat, rra: Rra, block: seq<Val>, k: nat)
    requires rra.curRow < rra.rowCnt && |block| == Cells(dsCnt, rra.rowCnt) && 0 < k
    ensures var g := Grown(dsCnt, rra, block, k);
            g.rra.curRow < g.rra.rowCnt && |g.block| == Cells(dsCnt, g.rra.rowCnt)
    ensures k < rra.rowCnt ==>
            var s := Shrunk(dsCnt, rra, block, k);
            s.rra.curRow < s.rra.rowCnt && |s.block| == Cells(dsCnt, s.rra.rowCnt)
  {
    hide Cells;
    CellsAdd(dsCnt, rra.rowCnt, k);
    CellsSplit(dsCnt, rra.curRow + 1, rra.rowCnt);
    if k < rra.rowCnt {
      if rra.curRow + k >= rra.rowCnt {
        var gone := rra.curRow + k - rra.rowCnt + 1;
        CellsSplit(dsCnt, gone, rra.curRow + 1);
      } else {
        CellsSplit(dsCnt, rra.curRow + 1, rra.curRow + 1 + k);
        CellsSplit(dsCnt, rra.curRow + 1 + k, rra.rowCnt);
        CellsSplit(dsCnt, k, rra.rowCnt);
      }
    }
  }

  /** Growing puts unknown rows before the oldest one. */
  lemma GrowHistory(dsCnt: nat, rra: Rra, block: seq<Val>, k: nat)
    requires rra.curRow < rra.rowCnt && |block| == Cells(dsCnt, rra.rowCnt) && 0 < k
    ensures var g := Grown(dsCnt, rra, block, k);
            g.rra.curRow < g.rra.rowCnt && |g.block| == Cells(dsCnt, g.rra.rowCnt) &&
            History(dsCnt, g.rra, g.block) == Unknown(Cells(dsCnt, k)) + History(dsCnt, rra, block)
  {
    hide Cells, Unknown;
    ResizedSizes(dsCnt, rra, block, k);
    CellsSplit(dsCnt, rra.curRow + 1, rra.rowCnt);
  }

  /** Shrinking drops exactly the oldest rows, whether or not they wrap around the end. */
  lemma ShrinkHistory(dsCnt: nat, rra: Rra, block: seq<Val>, k: nat)
    requires rra.curRow < rra.rowCnt && |block| == Cells(dsCnt, rra.rowCnt) && 0 < k < rra.rowCnt
    ensures var s := Shrunk(dsCnt, rra, block, k);
            s.rra.curRow < s.rra.rowCnt && |s.block| == Cells(dsCnt, s.rra.rowCnt) &&
            Cells(dsCnt, k) <= |History(dsCnt, rra, block)| &&
            History(dsCnt, s.rra, s.block) == History(dsCnt, rra, block)[Cells(dsCnt, k)..]
  {
    hide Cells;
    ResizedSizes(dsCnt, rra, block, k);
    CellsSplit(dsCnt, rra.curRow + 1, rra.rowCnt);
    CellsSplit(dsCnt, k, rra.rowCnt);
    var cut := Cells(dsCnt, rra.curRow + 1);
    if rra.curRow + k >= rra.rowCnt {
      var gone := rra.curRow + k - rra.rowCnt + 1;
      CellsSplit(dsCnt, gone, rra.curRow + 1);
      CellsSplit(dsCnt, rra.rowCnt - rra.curRow - 1, k);
    } else {
      CellsSplit(dsCnt, rra.curRow + 1, rra.curRow + 1 + k);
      CellsSplit(dsCnt, rra.curRow + 1 + k, rra.rowCnt);
    }
  }

  /** Growing and then shrinking by the same number gives the archive back, cell by cell. */
  lemma GrowShrink(dsCnt: nat, rra: Rra, block: seq<Val>, k: nat)
    requires rra.curRow < rra.rowCnt && |block| == Cells(dsCnt, rra.rowCnt) && 0 < k
    ensures var g := Grown(dsCnt, rra, block, k);
            g.rra.curRow < g.rra.rowCnt && |g.block| == Cells(dsCnt, g.rra.rowCnt) &&
            Shrunk(dsCnt, g.rra, g.block, k) == Resized(rra, block)
  {
    hide Cells, Unknown;
    ResizedSizes(dsCnt, rra, block, k);
    CellsSplit(dsCnt, rra.curRow + 1, rra.rowCnt);
    CellsAdd(dsCnt, rra.curRow + 1, k);
  }

  // ----- the copy loops

  /** Read a cell, write a cell, `n` times. */
  method CopyCells(cells: seq<Val>, pos: nat, out: seq<Val>, n: nat) returns (pos': nat, out': seq<Val>)
    requires pos + n <= |cells|
    ensures pos' == pos + n && out' == out + cells[pos..pos + n]
  {
    var l := n;
    pos', out' := pos, out;
    while l > 0
      invariant 0 <= l <= n && pos' == pos + (n - l) && out' == out + cells[pos..pos']
    {
      var buffer := cells[pos'];
      pos' := pos' + 1;
      out' := out' + [buffer];
      l := l - 1;
    }
  }

  /** Copy rows 0 to `curRow`, cell by cell. */
  method CopyRows(dsCnt: nat, cells: seq<Val>, pos: nat, out: seq<Val>, curRow: nat) returns (pos': nat, out': seq<Val>)
    requires pos + Cells(dsCnt, curRow + 1) <= |cells|
    ensures pos' == pos + Cells(dsCnt, curRow + 1) && out' == out + cells[pos..pos']
  {
    var l := 0;
    pos', out' := pos, out;
    while l <= curRow
      invariant l <= curRow + 1 && pos' == pos + Cells(dsCnt, l) && pos' <= |cells|
      invariant out' == out + cells[pos..pos']
    {
      CellsSplit(dsCnt, l + 1, curRow + 1);
      pos', out' := CopyCells(cells, pos', out', dsCnt);
      l := l + 1;
    }
  }

  /** Everything up to the end of the file; a cell that would not fit any more is dropped with a warning. */
  method CopyRest(cells: seq<Val>, pos: nat, out: seq<Val>, fileLen: nat) returns (out': seq<Val>)
    requires pos <= |cells| && |out| + (|cells| - pos) <= fileLen
    ensures out' == out + cells[pos..]
  {
    var p := pos;
    out' := out;
    while p < |cells|
      invariant pos <= p <= |cells| && out' == out + cells[pos..p]
    {
      var buffer := cells[p];
      p := p + 1;
      if |out'| + 1 <= fileLen {
        out' := out' + [buffer];
      }
    }
  }

  /** The part that removes rows. The counters are the variables of the source: the rows left to remove are
      counted up to zero in `modify`, and the cursor and the row count are adjusted on the way. */
  method ShrinkBlock(dsCnt: nat, rra: Rra, cells: seq<Val>, base: nat, out: seq<Val>, k: nat)
    returns (rra': Rra, pos: nat, out': seq<Val>)
    requires rra.curRow < rra.rowCnt && 0 < k < rra.rowCnt && base + Cells(dsCnt, rra.rowCnt) <= |cells|
    ensures var end := base + Cells(dsCnt, rra.rowCnt);
            var r := Shrunk(dsCnt, rra, cells[base..end], k);
            rra' == r.rra && pos <= end && out' + cells[pos..end] == out + r.block
  {
    hide Cells, Shrunk;
    var curRow: int, rowCnt: int, change: int := rra.curRow, rra.rowCnt, -(k as int);
    pos := base;
    var removeEnd: int := (curRow - change) % rowCnt;
    RemoveEnd(rra.curRow, k, rra.rowCnt);
    ghost var gone := 0;
    CellsSplit(dsCnt, 0, 0);
    if removeEnd <= curRow {
      while removeEnd >= 0
        invariant 0 <= gone <= rra.curRow && gone + removeEnd + 1 == rra.curRow + k - rra.rowCnt + 1
        invariant -1 <= removeEnd
        invariant curRow == rra.curRow - gone && rowCnt == rra.rowCnt - gone && change == gone - k
        invariant pos == base + Cells(dsCnt, gone)
      {
        CellsNext(dsCnt, gone);
        pos := pos + dsCnt;
        curRow, rowCnt, removeEnd, change := curRow - 1, rowCnt - 1, removeEnd - 1, change + 1;
        gone := gone + 1;
      }
    }
    SkippedFront(dsCnt, rra, gone);
    ghost var from := pos;
    pos, out' := CopyRows(dsCnt, cells, pos, out, curRow);
    ghost var left := 0;
    while change < 0
      invariant 0 <= left && change - left == gone - k && change <= 0
      invariant rowCnt == rra.rowCnt - gone - left
      invariant pos == base + Cells(dsCnt, rra.curRow + 1) + Cells(dsCnt, left)
    {
      CellsNext(dsCnt, left);
      pos := pos + dsCnt;
      rowCnt, change := rowCnt - 1, change + 1;
      left := left + 1;
    }
    ShrunkBlock(dsCnt, rra, cells, base, gone, left, k);
    rra' := rra.(rowCnt := rowCnt, curRow := curRow);
  }

  lemma CellsNext(dsCnt: nat, n: nat)
    ensures Cells(dsCnt, n + 1) == Cells(dsCnt, n) + dsCnt
    ensures Cells(dsCnt, 0) == 0
  {
  }

  lemma SkippedFront(dsCnt: nat, rra: Rra, gone: nat)
    requires gone <= rra.curRow < rra.rowCnt
    ensures Cells(dsCnt, gone) + Cells(dsCnt, rra.curRow - gone + 1) == Cells(dsCnt, rra.curRow + 1) <= Cells(dsCnt, rra.rowCnt)
  {
    CellsSplit(dsCnt, gone, rra.curRow + 1);
    CellsSplit(dsCnt, rra.curRow + 1, rra.rowCnt);
  }

  /** The rows copied between the two skips, together with those behind the second one. */
  lemma ShrunkBlock(dsCnt: nat, rra: Rra, cells: seq<Val>, base: nat, gone: nat, left: nat, k: nat)
    requires rra.curRow < rra.rowCnt && 0 < k < rra.rowCnt && base + Cells(dsCnt, rra.rowCnt) <= |cells|
    requires gone + left == k && gone == (if rra.curRow + k >= rra.rowCnt then rra.curRow + k - rra.rowCnt + 1 else 0)
    ensures var end, upto := base + Cells(dsCnt, rra.rowCnt), base + Cells(dsCnt, rra.curRow + 1);
            base + Cells(dsCnt, gone) <= upto && upto + Cells(dsCnt, left) <= end &&
            Shrunk(dsCnt, rra, cells[base..end], k) ==
            Resized(rra.(rowCnt := rra.rowCnt - k, curRow := rra.curRow - gone),
                    cells[base + Cells(dsCnt, gone)..upto] + cells[upto + Cells(dsCnt, left)..end])
  {
    hide Cells, Shrunk;
    var a, b, c, all := Cells(dsCnt, gone), Cells(dsCnt, rra.curRow + 1), Cells(dsCnt, left), Cells(dsCnt, rra.rowCnt);
    var block := cells[base..base + all];
    ShrunkParts(dsCnt, rra, block, gone, left, k);
    CellsAdd(dsCnt, rra.curRow + 1, left);
    SubBlock(cells, base, a, b, base + all);
    SubBlock(cells, base, b + c, all, base + all);
    assert block[a..b] + block[b + c..all] == cells[base + a..base + b] + cells[base + b + c..base + all];
  }

  lemma ShrunkParts(dsCnt: nat, rra: Rra, block: seq<Val>, gone: nat, left: nat, k: nat)
    requires rra.curRow < rra.rowCnt && 0 < k < rra.rowCnt && |block| == Cells(dsCnt, rra.rowCnt)
    requires gone + left == k && gone == (if rra.curRow + k >= rra.rowCnt then rra.curRow + k - rra.rowCnt + 1 else 0)
    ensures Cells(dsCnt, gone) <= Cells(dsCnt, rra.curRow + 1) <= Cells(dsCnt, rra.curRow + 1 + left) <= |block|
    ensures Shrunk(dsCnt, rra, block, k) ==
            Resized(rra.(rowCnt := rra.rowCnt - k, curRow := rra.curRow - gone),
                    block[Cells(dsCnt, gone)..Cells(dsCnt, rra.curRow + 1)] +
                    block[Cells(dsCnt, rra.curRow + 1 + left)..Cells(dsCnt, rra.rowCnt)])
  {
    hide Cells;
    CellsNext(dsCnt, 0);
    SkippedFront(dsCnt, rra, gone);
    CellsSplit(dsCnt, rra.curRow + 1, rra.curRow + 1 + left);
    CellsSplit(dsCnt, rra.curRow + 1 + left, rra.rowCnt);
  }

  lemma RemoveEnd(cur: nat, k: nat, rows: nat)
    requires cur < rows && 0 < k < rows
    ensures (cur + k) % rows == if cur + k >= rows then cur + k - rows else cur + k
  {
  }

  // ----- the whole operation

  /** The file with one archive replaced. */
  function Replaced(rrd: Rrd, target: nat, r: Resized): Rrd
    requires LaidOut(rrd) && target < |rrd.rras|
  {
    BaseMonotone(rrd.dsCnt, rrd.rras, target, target + 1);
    BaseMonotone(rrd.dsCnt, rrd.rras, target + 1, |rrd.rras|);
    rrd.(rras := rrd.rras[target := r.rra],
         cells := rrd.cells[..Base(rrd.dsCnt, rrd.rras, target)] + r.block + rrd.cells[Base(rrd.dsCnt, rrd.rras, target + 1)..])
  }

  /** The cells of the first n archives. */
  function FirstBlocks(rrd: Rrd, n: nat): seq<Val>
    requires LaidOut(rrd) && n <= |rrd.rras|
  {
    if n == 0 then [] else FirstBlocks(rrd, n - 1) + Block(rrd, n - 1)
  }

  /** The archives one after the other are the file, nothing in front and nothing behind. */
  lemma BlocksFill(rrd: Rrd)
    requires LaidOut(rrd)
    ensures FirstBlocks(rrd, |rrd.rras|) == rrd.cells
  {
    FirstBlocksAre(rrd, |rrd.rras|);
  }

  lemma {:induction false} FirstBlocksAre(rrd: Rrd, n: nat)
    requires LaidOut(rrd) && n <= |rrd.rras|
    ensures Base(rrd.dsCnt, rrd.rras, n) <= |rrd.cells| && FirstBlocks(rrd, n) == rrd.cells[..Base(rrd.dsCnt, rrd.rras, n)]
  {
    BaseMonotone(rrd.dsCnt, rrd.rras, n, |rrd.rras|);
    if n > 0 {
      FirstBlocksAre(rrd, n - 1);
      BaseMonotone(rrd.dsCnt, rrd.rras, n - 1, n);
    }
  }

  /** Archives in front keep their place; those behind move by the change in size. */
  lemma {:induction false} BaseReplaced(dsCnt: nat, rras: seq<Rra>, target: nat, rra: Rra, i: nat)
    requires target < |rras| && i <= |rras|
    ensures Base(dsCnt, rras[target := rra], i) ==
            Base(dsCnt, rras, i) + (if i > target then Cells(dsCnt, rra.rowCnt) - Cells(dsCnt, rras[target].rowCnt) else 0)
  {
    hide Cells;
    if i > 0 { BaseReplaced(dsCnt, rras, target, rra, i - 1); }
  }

  lemma ReplacedLaidOut(rrd: Rrd, target: nat, r: Resized)
    requires LaidOut(rrd) && target < |rrd.rras|
    requires r.rra.curRow < r.rra.rowCnt && |r.block| == Cells(rrd.dsCnt, r.rra.rowCnt)
    ensures LaidOut(Replaced(rrd, target, r))
  {
    hide Cells;
    var ds, rras := rrd.dsCnt, rrd.rras;
    BaseReplaced(ds, rras, target, r.rra, |rras|);
    BaseMonotone(ds, rras, target, target + 1);
    BaseMonotone(ds, rras, target + 1, |rras|);
    BaseNext(ds, rras, target);
    hide Base;
  }

  lemma FileEnd(rrd: Rrd)
    requires LaidOut(rrd)
    ensures |rrd.cells| == Base(rrd.dsCnt, rrd.rras, |rrd.rras|)
  {
  }

  lemma BaseNext(dsCnt: nat, rras: seq<Rra>, i: nat)
    requires i < |rras|
    ensures Base(dsCnt, rras, i + 1) == Base(dsCnt, rras, i) + Cells(dsCnt, rras[i].rowCnt)
  {
  }

  /** Only the resized archive changes, and it changes into what `r` says. */
  lemma ReplacedBlocks(rrd: Rrd, target: nat, r: Resized, i: nat)
    requires LaidOut(rrd) && target < |rrd.rras| && i < |rrd.rras|
    requires r.rra.curRow < r.rra.rowCnt && |r.block| == Cells(rrd.dsCnt, r.rra.rowCnt)
    ensures LaidOut(Replaced(rrd, target, r))
    ensures Block(Replaced(rrd, target, r), i) == if i == target then r.block else Block(rrd, i)
    ensures i != target ==> Replaced(rrd, target, r).rras[i] == rrd.rras[i]
  {
    hide Cells, LaidOut;
    ReplacedLaidOut(rrd, target, r);
    var ds, rras := rrd.dsCnt, rrd.rras;
    FileEnd(rrd);
    BaseNext(ds, rras, target);
    BaseReplaced(ds, rras, target, r.rra, i);
    BaseReplaced(ds, rras, target, r.rra, i + 1);
    BaseMonotone(ds, rras, target + 1, |rras|);
    BaseMonotone(ds, rras, i + 1, |rras|);
    var lo, hi := Base(ds, rras, target), Base(ds, rras, target + 1);
    hide Base;
    if i < target {
      BaseMonotone(ds, rras, i + 1, target);
      SpliceBefore(rrd.cells, lo, hi, r.block, Base(ds, rras, i), Base(ds, rras, i + 1));
    } else if i > target {
      BaseMonotone(ds, rras, target + 1, i);
      SpliceBehind(rrd.cells, lo, hi, r.block, Base(ds, rras, i), Base(ds, rras, i + 1));
    } else {
      SpliceAt(rrd.cells, lo, hi, r.block);
    }
  }

  /** `rrd_resize`: None for the refused requests, otherwise the new file. */
  method RrdResize(rrd: Rrd, target: nat, shrink: bool, rows: int) returns (result: Option<Rrd>)
    requires LaidOut(rrd)
    ensures result.None? <==> rows < 1 || target >= |rrd.rras| || (shrink && rrd.rras[target].rowCnt <= rows)
    ensures result.Some? ==>
      result.value == Replaced(rrd, target,
        if shrink then Shrunk(rrd.dsCnt, rrd.rras[target], Block(rrd, target), rows)
        else Grown(rrd.dsCnt, rrd.rras[target], Block(rrd, target), rows))
  {
    hide Cells, Base, Shrunk, Grown;
    if rows < 1 || target >= |rrd.rras| || (shrink && rrd.rras[target].rowCnt <= rows) {
      return None;
    }
    var rra, ds := rrd.rras[target], rrd.dsCnt;
    ghost var r := if shrink then Shrunk(ds, rra, Block(rrd, target), rows) else Grown(ds, rra, Block(rrd, target), rows);
    TargetOk(rrd, target);
    ResizedSizes(ds, rra, Block(rrd, target), rows);
    // the new file is created with its final length
    var sized := rra.(rowCnt := if shrink then rra.rowCnt - rows else rra.rowCnt + rows);
    var fileLen := Base(ds, rrd.rras[target := sized], |rrd.rras|);
    BaseReplaced(ds, rrd.rras, target, sized, |rrd.rras|);
    BlockEnd(rrd, target);
    BaseMonotone(ds, rrd.rras, target, target + 1);
    var pos, out := CopyCells(rrd.cells, 0, [], Base(ds, rrd.rras, target));
    ghost var head := out;
    var rra';
    rra', pos, out := ResizeBlock(ds, rra, rrd.cells, pos, out, shrink, rows);
    RestLength(rrd.cells, out, pos, Base(ds, rrd.rras, target + 1), head, r.block);
    out := CopyRest(rrd.cells, pos, out, fileLen);
    result := Some(rrd.(rras := rrd.rras[target := rra'], cells := out));
  }

  lemma RestLength(cells: seq<Val>, out: seq<Val>, pos: nat, end: nat, head: seq<Val>, block: seq<Val>)
    requires pos <= end <= |cells| && out + cells[pos..end] == head + block
    ensures |out| + (|cells| - pos) == |head| + |block| + (|cells| - end)
    ensures out + cells[pos..] == head + block + cells[end..]
  {
    assert |out + cells[pos..end]| == |out| + (end - pos);
    assert cells[pos..] == cells[pos..end] + cells[end..];
  }

  /** Move the data of the archive itself, either removing or adding rows. */
  method ResizeBlock(dsCnt: nat, rra: Rra, cells: seq<Val>, base: nat, out: seq<Val>, shrink: bool, k: nat)
    returns (rra': Rra, pos: nat, out': seq<Val>)
    requires rra.curRow < rra.rowCnt && 0 < k && (shrink ==> k < rra.rowCnt) && base + Cells(dsCnt, rra.rowCnt) <= |cells|
    ensures var end := base + Cells(dsCnt, rra.rowCnt);
            var r := if shrink then Shrunk(dsCnt, rra, cells[base..end], k) else Grown(dsCnt, rra, cells[base..end], k);
            rra' == r.rra && pos <= end && out' + cells[pos..end] == out + r.block &&
            r.rra.rowCnt == if shrink then rra.rowCnt - k else rra.rowCnt + k
  {
    hide Cells, Shrunk, Grown;
    if shrink {
      ShrunkRow(dsCnt, rra, cells[base..base + Cells(dsCnt, rra.rowCnt)], k);
      rra', pos, out' := ShrinkBlock(dsCnt, rra, cells, base, out, k);
    } else {
      rra', pos, out' := GrowBlock(dsCnt, rra, cells, base, out, k);
    }
  }

  lemma BlockEnd(rrd: Rrd, i: nat)
    requires LaidOut(rrd) && i < |rrd.rras|
    ensures Base(rrd.dsCnt, rrd.rras, i + 1) == Base(rrd.dsCnt, rrd.rras, i) + Cells(rrd.dsCnt, rrd.rras[i].rowCnt)
    ensures Base(rrd.dsCnt, rrd.rras, i + 1) <= |rrd.cells|
  {
    BaseMonotone(rrd.dsCnt, rrd.rras, i + 1, |rrd.rras|);
  }

  lemma ShrunkRow(dsCnt: nat, rra: Rra, block: seq<Val>, k: nat)
    requires rra.curRow < rra.rowCnt && |block| == Cells(dsCnt, rra.rowCnt) && 0 < k < rra.rowCnt
    ensures Shrunk(dsCnt, rra, block, k).rra.rowCnt == rra.rowCnt - k
  {
  }

  /** The part that adds rows: copy up to the cursor, then write unknown cells; the rest follows. */
  method GrowBlock(dsCnt: nat, rra: Rra, cells: seq<Val>, base: nat, out: seq<Val>, k: nat)
    returns (rra': Rra, pos: nat, out': seq<Val>)
    requires rra.curRow < rra.rowCnt && base + Cells(dsCnt, rra.rowCnt) <= |cells|
    ensures var end := base + Cells(dsCnt, rra.rowCnt);
            var r := Grown(dsCnt, rra, cells[base..end], k);
            rra' == r.rra && pos <= end && out' + cells[pos..end] == out + r.block && r.rra.rowCnt == rra.rowCnt + k
  {
    hide Cells, Unknown;
    CellsSplit(dsCnt, rra.curRow + 1, rra.rowCnt);
    pos, out' := CopyCells(cells, base, out, Cells(dsCnt, rra.curRow + 1));
    out' := WriteUnknown(out', Cells(dsCnt, k));
    rra' := rra.(rowCnt := rra.rowCnt + k);
    SubBlock(cells, base, Cells(dsCnt, rra.curRow + 1), Cells(dsCnt, rra.rowCnt), base + Cells(dsCnt, rra.rowCnt));
  }

  /** Resizing, seen from oldest to newest: growing puts unknown rows in front, shrinking drops exactly the oldest
      rows, the newest row stays under the cursor, and every other archive keeps its cells. */
  lemma ResizeRefines(rrd: Rrd, target: nat, shrink: bool, rows: nat)
    requires LaidOut(rrd) && target < |rrd.rras| && 0 < rows && (shrink ==> rows < rrd.rras[target].rowCnt)
    ensures var ds, rra, block := rrd.dsCnt, rrd.rras[target], Block(rrd, target);
            var r := if shrink then Shrunk(ds, rra, block, rows) else Grown(ds, rra, block, rows);
            var t := Replaced(rrd, target, r);
            LaidOut(t) &&
            Cells(ds, rows) <= |History(ds, rra, block)| + (if shrink then 0 else Cells(ds, rows)) &&
            History(ds, t.rras[target], Block(t, target)) ==
              (if shrink then History(ds, rra, block)[Cells(ds, rows)..]
               else Unknown(Cells(ds, rows)) + History(ds, rra, block)) &&
            forall i :: 0 <= i < |rrd.rras| && i != target ==> t.rras[i] == rrd.rras[i] && Block(t, i) == Block(rrd, i)
  {
    hide Cells, Base, Unknown, Shrunk, Grown, History, Block, Replaced, LaidOut;
    var ds, rra, block := rrd.dsCnt, rrd.rras[target], Block(rrd, target);
    TargetOk(rrd, target);
    ResizedSizes(ds, rra, block, rows);
    var r := if shrink then Shrunk(ds, rra, block, rows) else Grown(ds, rra, block, rows);
    if shrink {
      ShrinkHistory(ds, rra, block, rows);
    } else {
      GrowHistory(ds, rra, block, rows);
    }
    ReplacedBlocks(rrd, target, r, target);
    ReplacedRra(rrd, target, r);
    forall i | 0 <= i < |rrd.rras| && i != target
      ensures Replaced(rrd, target, r).rras[i] == rrd.rras[i] && Block(Replaced(rrd, target, r), i) == Block(rrd, i)
    {
      ReplacedBlocks(rrd, target, r, i);
    }
    ReplacedRra(rrd, target, r);
  }

  lemma TargetOk(rrd: Rrd, target: nat)
    requires LaidOut(rrd) && target < |rrd.rras|
    ensures rrd.rras[target].curRow < rrd.rras[target].rowCnt
  {
  }

  lemma ReplacedRra(rrd: Rrd, target: nat, r: Resized)
    requires LaidOut(rrd) && target < |rrd.rras|
    ensures var t := Replaced(rrd, target, r);
            |t.rras| == |rrd.rras| && t.rras[target] == r.rra && t.dsCnt == rrd.dsCnt
  {
  }
}
