/** Measured values: a double without rounding, which is unknown or a real number. */
module Values {

  datatype Val = NaN | Fin(v: real)

  datatype Option<+T> = None | Some(value: T)
}

/** Facts about slices of sequences that the solver does not find by itself. */
module Slices {

  lemma SubBlock<T>(s: seq<T>, base: nat, a: nat, b: nat, end: nat)
    requires a <= b && base + b <= end <= |s|
    ensures s[base..end][a..b] == s[base + a..base + b]
  {
    var block := s[base..end];
    var x, y := block[a..b], s[base + a..base + b];
    forall i | 0 <= i < b - a ensures x[i] == y[i] {
      assert x[i] == block[a + i];
      assert block[a + i] == s[base + a + i];
    }
  }

  lemma SpliceBefore<T>(s: seq<T>, lo: nat, hi: nat, x: seq<T>, b: nat, e: nat)
    requires b <= e <= lo <= hi <= |s|
    ensures (s[..lo] + x + s[hi..])[b..e] == s[b..e]
  {
  }

  lemma SpliceAt<T>(s: seq<T>, lo: nat, hi: nat, x: seq<T>)
    requires lo <= hi <= |s|
    ensures (s[..lo] + x + s[hi..])[lo..lo + |x|] == x
  {
  }

  lemma SpliceBehind<T>(s: seq<T>, lo: nat, hi: nat, x: seq<T>, b: nat, e: nat)
    requires lo <= hi <= b <= e <= |s|
    ensures (s[..lo] + x + s[hi..])[lo + |x| + (b - hi)..lo + |x| + (e - hi)] == s[b..e]
  {
    var t, d := s[..lo] + x + s[hi..], lo + |x|;
    assert t[d..] == s[hi..];
    assert t[d + (b - hi)..d + (e - hi)] == t[d..][b - hi..e - hi];
  }
}

/** Rows of cells, one cell per data source, laid out one row after the other. */
module Rows {
  import opened Values

  /** Number of cells in `rows` rows. */
  function Cells(dsCnt: nat, rows: nat): nat {
    if rows == 0 then 0 else Cells(dsCnt, rows - 1) + dsCnt
  }

  lemma {:induction false} CellsAdd(dsCnt: nat, a: nat, b: nat)
    ensures Cells(dsCnt, a + b) == Cells(dsCnt, a) + Cells(dsCnt, b)
  {
    if b > 0 { CellsAdd(dsCnt, a, b - 1); }
  }

  lemma CellInRow(ds: nat, first: nat, i: nat, col: nat)
    requires col < ds
    ensures Cells(ds, first + i) + col < Cells(ds, first + i + 1)
    ensures Cells(ds, first + i) + col == Cells(ds, first) + Cells(ds, i) + col
  {
    CellsAdd(ds, first, i);
  }

  /** The values of one data source in `n` rows from row `first` on. */
  function Column<T>(src: seq<T>, ds: nat, first: nat, n: nat, col: nat): (s: seq<T>)
    requires col < ds && Cells(ds, first + n) <= |src|
    ensures |s| == n
  {
    if n == 0 then [] else
    CellInRow(ds, first, n - 1, col);
    Column(src, ds, first, n - 1, col) + [src[Cells(ds, first + n - 1) + col]]
  }

  lemma {:induction false} ColumnAt<T>(src: seq<T>, ds: nat, first: nat, n: nat, col: nat, i: nat)
    requires col < ds && Cells(ds, first + n) <= |src| && i < n
    ensures Cells(ds, first + i) + col < |src|
    ensures Column(src, ds, first, n, col)[i] == src[Cells(ds, first + i) + col]
  {
    CellInRow(ds, first, n - 1, col);
    if i < n - 1 { ColumnAt(src, ds, first, n - 1, col, i); }
  }

  lemma RowsInside(ds: nat, first: nat, i: nat, n: nat)
    requires i <= n
    ensures Cells(ds, first + i) <= Cells(ds, first + n)
  {
    CellsAdd(ds, first + i, n - i);
  }

  /** Cells in front of the ones to be read do not matter. */
  lemma {:induction false} ColumnUnchanged<T>(a: seq<T>, b: seq<T>, ds: nat, first: nat, n: nat, col: nat)
    requires col < ds && Cells(ds, first + n) <= |a| && Cells(ds, first + n) <= |b|
    requires forall j :: Cells(ds, first) + col <= j < Cells(ds, first + n) ==> a[j] == b[j]
    ensures Column(a, ds, first, n, col) == Column(b, ds, first, n, col)
  {
    if n > 0 {
      CellInRow(ds, first, n - 1, col);
      ColumnUnchanged(a, b, ds, first, n - 1, col);
    }
  }

  lemma OneRow(ds: nat, first: nat)
    ensures Cells(ds, first + 1) == Cells(ds, first) + ds
  {
  }

  /** Cells of unknown value. */
  function Unknown(n: nat): (s: seq<Val>)
    ensures |s| == n && forall i :: 0 <= i < n ==> s[i] == NaN
  {
    if n == 0 then [] else Unknown(n - 1) + [NaN]
  }

  lemma NoCells(ds: nat)
    ensures Cells(ds, 0) == 0
  {
  }

  /** Unknown values, one after the other. */
  method WriteUnknown(out: seq<Val>, n: nat) returns (out': seq<Val>)
    ensures out' == out + Unknown(n)
  {
    var k := 0;
    out' := out;
    while k < n
      invariant 0 <= k <= n && out' == out + Unknown(k)
    {
      out' := out' + [NaN];
      k := k + 1;
    }
  }
}

/** Products of variables, quotients and remainders: the few facts that the modules need, each proved once. */
module Arith {

  function Mul(a: nat, b: nat): (p: nat)
    ensures a > 0 && b > 0 ==> p > 0
  {
    a * b
  }

  lemma ExactDivision(s: nat, x: int)
    requires s > 0
    ensures (s * x) / s == x
  {
    var q := (s * x) / s;
    assert s * x - s * q == s * (x - q);
    MulLess(s, 1, x - q);
    MulLess(s, 0, x - q);
  }

  lemma MulLess(s: nat, x: int, y: int)
    requires s > 0
    ensures s * x <= s * y <==> x <= y
  {
    if x < y {
      assert s * y == s * x + s * (y - x);
    } else if y < x {
      assert s * x == s * y + s * (x - y);
    }
  }

  lemma Quotient(x: nat, f: nat)
    requires f > 0
    ensures x == Mul(f, x / f) + x % f
  {
  }

  lemma MulNext(f: nat, k: nat)
    ensures Mul(f, k + 1) == Mul(f, k) + f
    ensures Mul(f, 0) == 0 && Mul(f, 1) == f
  {
  }

  lemma MulOrder(f: nat, a: nat, b: nat)
    requires f > 0
    ensures Mul(f, a) <= Mul(f, b) <==> a <= b
    ensures Mul(f, a) < Mul(f, b) <==> a < b
  {
    MulLess(f, a, b);
    MulLess(f, b, a);
  }

  lemma MulLessOne(f: nat, k: nat)
    requires k >= 1
    ensures Mul(f, k - 1) == Mul(f, k) - f
  {
  }

  /** Quotient and remainder are unique. */
  lemma Divide(x: nat, f: nat, q: nat, r: nat)
    requires r < f && x == Mul(f, q) + r
    ensures x / f == q && x % f == r
  {
    Quotient(x, f);
    MulNext(f, q);
    MulNext(f, x / f);
    MulOrder(f, q, x / f + 1);
    MulOrder(f, x / f, q + 1);
  }

  lemma MulAdd(f: nat, a: nat, b: nat)
    ensures Mul(f, a + b) == Mul(f, a) + Mul(f, b)
  {
  }

  lemma MulMul(a: nat, b: nat, c: nat)
    ensures Mul(a, Mul(b, c)) == Mul(Mul(a, b), c)
  {
  }

  lemma AtLeast(f: nat, k: nat)
    requires f > 0
    ensures Mul(f, k) >= k
  {
    if k > 0 { MulLess(k, 1, f); }
  }

  /** Differences of times on a grid. */
  lemma Difference(cur: nat, x: nat, y: nat)
    requires cur > 0 && x <= y && x % cur == 0 && y % cur == 0
    ensures x / cur <= y / cur && (y - x) / cur == y / cur - x / cur && Mul(cur, (y - x) / cur) == y - x
  {
    hide Mul;
    Quotient(x, cur);
    Quotient(y, cur);
    MulOrder(cur, x / cur, y / cur);
    MulAdd(cur, x / cur, y / cur - x / cur);
    Divide(y - x, cur, y / cur - x / cur, 0);
  }

  lemma MulIs(a: nat, b: nat)
    ensures a * b == Mul(a, b)
  {
  }
}

/** Sums of real numbers. */
module Sums {

  function Sum(s: seq<real>): real {
    if s == [] then 0.0 else Sum(s[..|s| - 1]) + s[|s| - 1]
  }

  lemma SumNext(s: seq<real>, x: real)
    ensures Sum(s + [x]) == Sum(s) + x
  {
    assert (s + [x])[..|s|] == s;
  }

  // ----- means

  function Times(n: nat, x: real): real { n as real * x }

  lemma TimesNext(n: nat, x: real)
    ensures Times(n + 1, x) == Times(n, x) + x && Times(0, x) == 0.0
  {
  }

  lemma Mean(x: real, n: nat, lo: real, hi: real, d: real)
    requires n > 0
    ensures n as real != 0.0 && (x + Times(n, d)) / n as real == x / n as real + d
    ensures Times(n, lo) <= x <= Times(n, hi) ==> lo <= x / n as real <= hi
  {
    Share(n, d);
    Share(n, lo);
    Share(n, hi);
    hide Times;
    SumOver(x, Times(n, d), n as real);
    if Times(n, lo) <= x <= Times(n, hi) {
      SumOver(x - Times(n, lo), Times(n, lo), n as real);
      SumOver(Times(n, hi) - x, x, n as real);
    }
  }

  lemma Share(n: nat, x: real)
    requires n > 0
    ensures n as real != 0.0 && Times(n, x) / n as real == x
  {
  }

  lemma SumOver(x: real, y: real, m: real)
    requires m > 0.0
    ensures (x + y) / m == x / m + y / m && (x >= 0.0 ==> x / m >= 0.0)
  {
  }

  lemma Parts(sum: real, n: nat)
    requires n > 0
    ensures n as real != 0.0 && Times(n, sum / n as real) == sum
  {
  }
}

/** A database file: a header and the cells of its round-robin archives. */
module Archives {
  import opened Values
  import opened Rows

  /** Consolidation function, primary steps per row, number of rows, and the row written last. */
  datatype Rra = Rra(cf: nat, pdpCnt: nat, rowCnt: nat, curRow: nat)

  /** Archives one after the other, each row holding one cell per data source. */
  datatype Rrd = Rrd(dsCnt: nat, pdpStep: nat, lastUp: nat, rras: seq<Rra>, cells: seq<Val>)

  /** First cell of the i-th archive. */
  function Base(dsCnt: nat, rras: seq<Rra>, i: nat): nat
    requires i <= |rras|
  {
    if i == 0 then 0 else Base(dsCnt, rras, i - 1) + Cells(dsCnt, rras[i - 1].rowCnt)
  }

  lemma {:induction false} BaseMonotone(dsCnt: nat, rras: seq<Rra>, i: nat, j: nat)
    requires i <= j <= |rras|
    ensures Base(dsCnt, rras, i) <= Base(dsCnt, rras, j)
  {
    if i < j { BaseMonotone(dsCnt, rras, i, j - 1); }
  }

  /** The cells are those of the archives, and every cursor is on a row. */
  ghost predicate LaidOut(rrd: Rrd) {
    (forall i :: 0 <= i < |rrd.rras| ==> rrd.rras[i].curRow < rrd.rras[i].rowCnt) &&
    |rrd.cells| == Base(rrd.dsCnt, rrd.rras, |rrd.rras|)
  }

  /** The cells of the i-th archive, in file order. */
  function Block(rrd: Rrd, i: nat): (block: seq<Val>)
    requires LaidOut(rrd) && i < |rrd.rras|
    ensures |block| == Cells(rrd.dsCnt, rrd.rras[i].rowCnt)
  {
    BaseMonotone(rrd.dsCnt, rrd.rras, i + 1, |rrd.rras|);
    rrd.cells[Base(rrd.dsCnt, rrd.rras, i)..Base(rrd.dsCnt, rrd.rras, i + 1)]
  }

  lemma CellsSplit(dsCnt: nat, rows: nat, all: nat)
    requires rows <= all
    ensures Cells(dsCnt, all) == Cells(dsCnt, rows) + Cells(dsCnt, all - rows)
  {
    CellsAdd(dsCnt, rows, all - rows);
  }

  /** The rows of an archive from the oldest to the newest: behind the cursor first, then up to the cursor. */
  function History(dsCnt: nat, rra: Rra, block: seq<Val>): seq<Val>
    requires rra.curRow < rra.rowCnt && |block| == Cells(dsCnt, rra.rowCnt)
  {
    CellsSplit(dsCnt, rra.curRow + 1, rra.rowCnt);
    block[Cells(dsCnt, rra.curRow + 1)..] + block[..Cells(dsCnt, rra.curRow + 1)]
  }
}
