/** What a fetch sees of a resized file (rrd_resize.c, rrd_fetch.c). */
module ResizeFetch {
  import opened Values
  import opened Slices
  import opened Rows
  import opened Archives
  import opened Fetch
  import opened Resize

  /** The i-th interval from the oldest one, and its place in the history. */
  lemma RowInHistory(rrd: Rrd, ci: nat, j: nat)
    requires WellFormed(rrd) && ci < |rrd.rras| && j < rrd.rras[ci].rowCnt
    ensures var ds, rra, h := rrd.dsCnt, rrd.rras[ci], History(rrd.dsCnt, rrd.rras[ci], Block(rrd, ci));
            Cells(ds, j) <= Cells(ds, j + 1) <= |h| &&
            RowAt(rrd, ci, Newest(rrd, ci) - rra.rowCnt + 1 + j) == h[Cells(ds, j)..Cells(ds, j + 1)]
  {
    hide StoredRow, RowAt, Newest, Cells, Base, Block;
    var ds, rra, block := rrd.dsCnt, rrd.rras[ci], Block(rrd, ci);
    var row := Wrap(rra.curRow + 1 + j, rra.rowCnt);
    RingRow(rrd, ci, j);
    BlockRow(rrd, ci, row);
    CellsAdd(ds, j, 1);
    CellsSplit(ds, rra.curRow + 1, rra.rowCnt);
    CellsSplit(ds, j + 1, rra.rowCnt);
    var behind := rra.rowCnt - 1 - rra.curRow;
    if j < behind {
      CellsAdd(ds, rra.curRow + 1, j);
      CellsAdd(ds, rra.curRow + 1, j + 1);
    } else {
      CellsSplit(ds, behind, j);
      CellsSplit(ds, behind, j + 1);
    }
    InParts(block, Cells(ds, rra.curRow + 1), Cells(ds, row), Cells(ds, row + 1), Cells(ds, j), Cells(ds, j + 1));
  }

  /** A part of a block, found again after its two ends have changed places. */
  lemma InParts<T>(block: seq<T>, cut: nat, lo: nat, hi: nat, at: nat, end: nat)
    requires cut <= |block| && lo <= hi <= |block| && at <= end <= |block| && hi - lo == end - at
    requires (cut <= lo && at == lo - cut) || (hi <= cut && at == |block| - cut + lo)
    ensures block[lo..hi] == (block[cut..] + block[..cut])[at..end]
  {
  }

  /** The file that `rrd_resize` leaves. */
  function After(rrd: Rrd, target: nat, shrink: bool, rows: nat): Rrd
    requires LaidOut(rrd) && target < |rrd.rras| && 0 < rows && (shrink ==> rows < rrd.rras[target].rowCnt)
  {
    Replaced(rrd, target, if shrink then Shrunk(rrd.dsCnt, rrd.rras[target], Block(rrd, target), rows)
                          else Grown(rrd.dsCnt, rrd.rras[target], Block(rrd, target), rows))
  }

  /** Times and steps of the archives stay as they are. */
  lemma SameTimes(rrd: Rrd, target: nat, shrink: bool, rows: nat, ci: nat)
    requires WellFormed(rrd) && target < |rrd.rras| && 0 < rows && (shrink ==> rows < rrd.rras[target].rowCnt)
    requires ci < |rrd.rras|
    ensures var t := After(rrd, target, shrink, rows);
            WellFormed(t) && |t.rras| == |rrd.rras| && t.dsCnt == rrd.dsCnt && Newest(t, ci) == Newest(rrd, ci) &&
            t.rras[ci].rowCnt ==
              if ci != target then rrd.rras[ci].rowCnt else if shrink then rrd.rras[ci].rowCnt - rows else rrd.rras[ci].rowCnt + rows
  {
    hide Cells, Base, Block;
    ResizedSizes(rrd.dsCnt, rrd.rras[target], Block(rrd, target), rows);
    var r := if shrink then Shrunk(rrd.dsCnt, rrd.rras[target], Block(rrd, target), rows)
             else Grown(rrd.dsCnt, rrd.rras[target], Block(rrd, target), rows);
    ReplacedLaidOut(rrd, target, r);
  }

  predicate InWindow(rrd: Rrd, ci: nat, k: int)
    requires WellFormed(rrd) && ci < |rrd.rras|
  {
    Newest(rrd, ci) - rrd.rras[ci].rowCnt < k <= Newest(rrd, ci)
  }

  lemma OutsideWindow(rrd: Rrd, ci: nat, k: int)
    requires WellFormed(rrd) && ci < |rrd.rras| && !InWindow(rrd, ci, k)
    ensures RowAt(rrd, ci, k) == Unknown(rrd.dsCnt)
  {
  }

  lemma Histories(rrd: Rrd, target: nat, shrink: bool, rows: nat, ci: nat)
    requires WellFormed(rrd) && target < |rrd.rras| && 0 < rows && (shrink ==> rows < rrd.rras[target].rowCnt)
    requires ci < |rrd.rras|
    ensures var t := After(rrd, target, shrink, rows);
            WellFormed(t) && |t.rras| == |rrd.rras| && t.dsCnt == rrd.dsCnt &&
            var ds, h, g := rrd.dsCnt, History(rrd.dsCnt, rrd.rras[ci], Block(rrd, ci)), History(t.dsCnt, t.rras[ci], Block(t, ci));
            if ci != target then g == h
            else if shrink then Cells(ds, rows) <= |h| && g == h[Cells(ds, rows)..]
            else g == Unknown(Cells(ds, rows)) + h
  {
    hide Cells, Base, Block, Shrunk, Grown, Replaced, History, Unknown;
    SameTimes(rrd, target, shrink, rows, ci);
    ResizeRefines(rrd, target, shrink, rows);
  }

  /** Resizing seen by a fetch, at every time and for every archive: growing changes nothing that can be read, and shrinking
      makes exactly the intervals in front of the smaller window unknown. */
  lemma FetchAfterResize(rrd: Rrd, target: nat, shrink: bool, rows: nat, ci: nat, k: int)
    requires WellFormed(rrd) && target < |rrd.rras| && 0 < rows && (shrink ==> rows < rrd.rras[target].rowCnt)
    requires ci < |rrd.rras|
    ensures var t := After(rrd, target, shrink, rows);
            WellFormed(t) && |t.rras| == |rrd.rras| &&
            RowAt(t, ci, k) ==
              if ci == target && shrink && k <= Newest(rrd, ci) - (rrd.rras[ci].rowCnt - rows) then Unknown(rrd.dsCnt)
              else RowAt(rrd, ci, k)
  {
    hide RowAt, Newest, Cells, Base, Block, History, After, Unknown;
    SameTimes(rrd, target, shrink, rows, ci);
    hide WellFormed;
    var t := After(rrd, target, shrink, rows);
    if !InWindow(t, ci, k) {
      OutsideWindow(t, ci, k);
      if !InWindow(rrd, ci, k) { OutsideWindow(rrd, ci, k); }
    } else if InWindow(rrd, ci, k) {
      RowKept(rrd, target, shrink, rows, ci, k);
    } else {
      OutsideWindow(rrd, ci, k);
      RowAdded(rrd, target, rows, k);
    }
  }

  /** A row in both windows is the same row. */
  lemma RowKept(rrd: Rrd, target: nat, shrink: bool, rows: nat, ci: nat, k: int)
    requires WellFormed(rrd) && target < |rrd.rras| && 0 < rows && (shrink ==> rows < rrd.rras[target].rowCnt)
    requires ci < |rrd.rras| && InWindow(rrd, ci, k)
    ensures var t := After(rrd, target, shrink, rows);
            WellFormed(t) && |t.rras| == |rrd.rras| && (InWindow(t, ci, k) ==> RowAt(t, ci, k) == RowAt(rrd, ci, k))
  {
    hide RowAt, Newest, Cells, Base, Block, History, After, Unknown;
    SameTimes(rrd, target, shrink, rows, ci);
    Histories(rrd, target, shrink, rows, ci);
    hide WellFormed;
    var t, ds := After(rrd, target, shrink, rows), rrd.dsCnt;
    if InWindow(t, ci, k) {
      var i := k - (Newest(rrd, ci) - rrd.rras[ci].rowCnt + 1);
      var j := k - (Newest(t, ci) - t.rras[ci].rowCnt + 1);
      RowInHistory(rrd, ci, i);
      RowInHistory(t, ci, j);
      SameRow(ds, rows, i, j);
      var h := History(ds, rrd.rras[ci], Block(rrd, ci));
      if ci == target {
        Shift(h, Cells(ds, rows), Unknown(Cells(ds, rows)), Cells(ds, i), Cells(ds, i + 1));
        Shift(h, Cells(ds, rows), Unknown(Cells(ds, rows)), Cells(ds, j), Cells(ds, j + 1));
      }
    }
  }

  /** A row in front of the old window is unknown in the grown one, too. */
  lemma RowAdded(rrd: Rrd, target: nat, rows: nat, k: int)
    requires WellFormed(rrd) && target < |rrd.rras| && 0 < rows && !InWindow(rrd, target, k)
    ensures var t := After(rrd, target, false, rows);
            WellFormed(t) && |t.rras| == |rrd.rras| && (InWindow(t, target, k) ==> RowAt(t, target, k) == Unknown(rrd.dsCnt))
  {
    hide RowAt, Newest, Cells, Base, Block, History, After, Unknown;
    SameTimes(rrd, target, false, rows, target);
    Histories(rrd, target, false, rows, target);
    hide WellFormed;
    var t, ds := After(rrd, target, false, rows), rrd.dsCnt;
    if InWindow(t, target, k) {
      var j := k - (Newest(t, target) - t.rras[target].rowCnt + 1);
      RowInHistory(t, target, j);
      CellsAdd(ds, j, 1);
      CellsSplit(ds, j + 1, rows);
      OneRow(ds, 0);
      UnknownPart(Cells(ds, rows), Cells(ds, j), Cells(ds, j + 1), ds, History(ds, rrd.rras[target], Block(rrd, target)));
    }
  }

  lemma Shift<T>(h: seq<T>, n: nat, front: seq<T>, lo: nat, hi: nat)
    requires |front| == n && lo <= hi
    ensures hi <= |h| ==> (front + h)[n + lo..n + hi] == h[lo..hi]
    ensures n <= |h| && hi <= |h| - n ==> h[n..][lo..hi] == h[n + lo..n + hi]
  {
  }

  lemma SameRow(ds: nat, rows: nat, i: nat, j: nat)
    ensures j == i + rows ==> Cells(ds, j) == Cells(ds, rows) + Cells(ds, i) && Cells(ds, j + 1) == Cells(ds, rows) + Cells(ds, i + 1)
    ensures i == j + rows ==> Cells(ds, i) == Cells(ds, rows) + Cells(ds, j) && Cells(ds, i + 1) == Cells(ds, rows) + Cells(ds, j + 1)
  {
    hide Cells;
    CellsAdd(ds, rows, i);
    CellsAdd(ds, rows, i + 1);
    CellsAdd(ds, rows, j);
    CellsAdd(ds, rows, j + 1);
  }

  lemma UnknownPart(n: nat, lo: nat, hi: nat, ds: nat, h: seq<Val>)
    requires lo <= hi <= n && hi - lo == ds
    ensures (Unknown(n) + h)[lo..hi] == Unknown(ds)
  {
  }
}
