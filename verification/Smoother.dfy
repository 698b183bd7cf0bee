/** The fixed-capacity queue behind the moving average (queue_alloc, queue_push and queue_pop in rrd_hw.c). */
module Fifo {

  /** Where the i-th of the oldest elements lies. */
  function Slot(head: nat, capacity: nat, i: nat): nat {
    var x := (if head == capacity then 0 else head) + i;
    if x >= capacity then x - capacity else x
  }

  /** The slots of the queue hold the elements from the oldest to the newest. */
  ghost predicate Holds(queue: seq<real>, head: nat, contents: seq<real>) {
    head <= |queue| && |contents| <= |queue| &&
    forall i :: 0 <= i < |contents| ==> Slot(head, |queue|, i) < |queue| && queue[Slot(head, |queue|, i)] == contents[i]
  }

  lemma ModSmall(x: nat, n: nat)
    requires x <= n && n > 0
    ensures x % n == if x == n then 0 else x
  {
  }

  lemma PushHolds(queue: seq<real>, head: nat, contents: seq<real>, value: real)
    requires Holds(queue, head, contents) && |contents| < |queue|
    ensures Slot(head, |queue|, |contents|) < |queue|
    ensures Holds(queue[Slot(head, |queue|, |contents|) := value], head, contents + [value])
    ensures var tail := Slot(head, |queue|, |contents|);
            Slot(head, |queue|, |contents| + 1) == if tail + 1 == |queue| then 0 else tail + 1
  {
  }

  lemma PopHolds(queue: seq<real>, head: nat, contents: seq<real>)
    requires Holds(queue, head, contents) && contents != []
    ensures var h := Slot(head, |queue|, 0);
            h < |queue| && queue[h] == contents[0] && Holds(queue, h + 1, contents[1..]) &&
            Slot(h + 1, |queue|, |contents| - 1) == Slot(head, |queue|, |contents|)
    ensures Slot(head, |queue|, 0) == if head == |queue| then 0 else head
  {
    var h := Slot(head, |queue|, 0);
    forall i | 0 <= i < |contents| - 1
      ensures Slot(h + 1, |queue|, i) < |queue| && queue[Slot(h + 1, |queue|, i)] == contents[1..][i]
    {
      assert Slot(h + 1, |queue|, i) == Slot(head, |queue|, i + 1);
    }
  }

  class Queue {
    const queue: array<real>
    const capacity: nat
    var head: nat
    var tail: nat
    ghost var contents: seq<real>

    /** `queue_alloc`: the head starts one past the end. */
    constructor (capacity: nat)
      requires capacity > 0
      ensures Valid() && contents == [] && this.capacity == capacity && fresh(queue)
    {
      this.capacity := capacity;
      queue := new real[capacity];
      head := capacity;
      tail := 0;
      contents := [];
    }

    ghost predicate Valid()
      reads this, queue
    {
      capacity > 0 && queue.Length == capacity && tail == Slot(head, capacity, |contents|) && tail < capacity &&
      Holds(queue[..], head, contents)
    }

    /** `queue_isempty`. It takes a full queue for an empty one as well. */
    method IsEmpty() returns (empty: bool)
      requires Valid()
      ensures empty <==> contents == [] || |contents| == capacity
    {
      ModSmall(head, capacity);
      empty := head % capacity == tail;
    }

    /** `queue_push`; the caller sees to it that there is room. */
    method Push(value: real)
      requires Valid() && |contents| < capacity
      modifies this, queue
      ensures Valid() && contents == old(contents) + [value] && head == old(head)
    {
      hide Slot, Holds;
      PushHolds(queue[..], head, contents, value);
      ModSmall(tail + 1, capacity);
      queue[tail] := value;
      tail := tail + 1;
      tail := tail % capacity;
      contents := contents + [value];
    }

    /** `queue_pop`; the caller sees to it that there is an element. */
    method Pop() returns (value: real)
      requires Valid() && contents != []
      modifies this, queue
      ensures Valid() && value == old(contents[0]) && contents == old(contents[1..]) && queue[..] == old(queue[..])
    {
      hide Slot, Holds;
      PopHolds(queue[..], head, contents);
      HeadInside();
      ModSmall(head, capacity);
      head := head % capacity;
      value := queue[head];
      head := head + 1;
      contents := contents[1..];
    }

    lemma HeadInside()
      requires Valid()
      ensures head <= capacity
    {
    }
  }
}

/** The moving average over a seasonal archive and its recentring (apply_smoother in rrd_hw.c). */
module Smoother {
  import opened Values
  import opened Rows
  import opened Arith
  import opened HwMath
  import opened Sums
  import Fifo

  // ----- one column

  lemma {:induction false} SumFirst(s: seq<real>)
    requires s != []
    ensures Sum(s) == s[0] + Sum(s[1..])
  {
    if |s| == 1 {
      assert s[..0] == [] && s[1..] == [];
    } else {
      SumFirst(s[..|s| - 1]);
      assert s[..|s| - 1][1..] == s[1..][..|s| - 2];
    }
  }

  /** `MyMod`. */
  function MyMod(val: int, mod: nat): nat
    requires mod > 0
  {
    if val < 0 then mod - (-val) % mod else val % mod
  }

  /** It is the remainder, except that a negative multiple of the modulus yields the modulus itself. */
  lemma MyModIs(val: int, mod: nat)
    requires mod > 0
    ensures MyMod(val, mod) == val % mod <==> !(val < 0 && val % mod == 0)
  {
    if val < 0 {
      NegatedRest(-val, mod);
    }
  }

  lemma MyModNear(val: int, mod: nat)
    requires mod > 0 && -(mod as int) < val < 2 * mod
    ensures MyMod(val, mod) == if val < 0 then val + mod else if val < mod then val else val - mod
  {
    hide Mul;
    MulNext(mod, 0);
    if val < 0 {
      Divide(-val, mod, 0, -val);
    } else if val < mod {
      Divide(val, mod, 0, val);
    } else {
      Divide(val, mod, 1, val - mod);
    }
  }

  lemma NegatedRest(x: int, mod: nat)
    requires mod > 0 && x > 0
    ensures x % mod == if (-x) % mod == 0 then 0 else mod - (-x) % mod
  {
    var q, r := (-x) / mod, (-x) % mod;
    assert -x == mod * q + r;
    NotPositive(mod, q, r, x);
    if r == 0 {
      MulIs(mod, -q);
      Divide(x, mod, -q, 0);
    } else {
      MulIs(mod, -q - 1);
      Divide(x, mod, -q - 1, mod - r);
    }
  }

  lemma NotPositive(mod: nat, q: int, r: nat, x: int)
    requires -x == mod * q + r && x > 0 && mod > 0
    ensures q < 0 && mod * -q == -(mod * q) && mod * (-q - 1) == -(mod * q) - mod
  {
    MulLess(mod, 0, q);
  }

  /** What the loop reads for position m of the unrolled season, with `outs` computed so far: an original value, or beyond
      the last one, the already smoothed value at the front. */
  function Read(orig: seq<real>, outs: seq<real>, m: int): real
    requires -(|orig| as int) <= m < |orig| + |outs|
  {
    if m < 0 then orig[m + |orig|] else if m < |orig| then orig[m] else outs[m - |orig|]
  }

  /** The values at n positions from lo on. */
  function Window(orig: seq<real>, outs: seq<real>, lo: int, n: nat): (w: seq<real>)
    requires -(|orig| as int) <= lo && lo + n <= |orig| + |outs|
    ensures |w| == n
  {
    if n == 0 then [] else Window(orig, outs, lo, n - 1) + [Read(orig, outs, lo + n - 1)]
  }

  /** The smoothed values of the first t centres: each the mean of the 2 * offset + 1 values around its centre. */
  function Outs(orig: seq<real>, offset: nat, t: nat): (outs: seq<real>)
    requires 0 < 2 * offset <= |orig| && t <= |orig|
    ensures |outs| == t
  {
    if t == 0 then [] else
    var outs := Outs(orig, offset, t - 1);
    outs + [Mean(orig, outs, offset, t - 1)]
  }

  function Mean(orig: seq<real>, outs: seq<real>, offset: nat, t: nat): real
    requires 0 < 2 * offset <= |orig| && t < |orig| && |outs| >= t
  {
    Sum(Window(orig, outs, t - offset, 2 * offset + 1)) / ((2 * offset + 1) as real)
  }

  /** The column in the middle of smoothing. */
  function Current(orig: seq<real>, offset: nat, t: nat): (s: seq<real>)
    requires 0 < 2 * offset <= |orig| && t <= |orig|
    ensures |s| == |orig|
  {
    Outs(orig, offset, t) + orig[t..]
  }

  lemma {:induction false} WindowAt(orig: seq<real>, outs: seq<real>, lo: int, n: nat, i: nat)
    requires -(|orig| as int) <= lo && lo + n <= |orig| + |outs| && i < n
    ensures Window(orig, outs, lo, n)[i] == Read(orig, outs, lo + i)
  {
    if i < n - 1 { WindowAt(orig, outs, lo, n - 1, i); }
  }

  /** Without its first value a window is the one that begins one later. */
  lemma {:induction false} WindowRest(orig: seq<real>, outs: seq<real>, lo: int, n: nat)
    requires -(|orig| as int) <= lo && lo + n <= |orig| + |outs| && n > 0
    ensures Window(orig, outs, lo, n)[1..] == Window(orig, outs, lo + 1, n - 1)
  {
    hide Read;
    if n > 1 {
      WindowRest(orig, outs, lo, n - 1);
      var w := Window(orig, outs, lo, n - 1);
      assert (w + [Read(orig, outs, lo + n - 1)])[1..] == w[1..] + [Read(orig, outs, lo + n - 1)];
    }
  }

  /** Later outputs do not change a window. */
  lemma {:induction false} WindowStable(orig: seq<real>, outs: seq<real>, x: real, lo: int, n: nat)
    requires -(|orig| as int) <= lo && lo + n <= |orig| + |outs|
    ensures Window(orig, outs + [x], lo, n) == Window(orig, outs, lo, n)
  {
    if n > 0 { WindowStable(orig, outs, x, lo, n - 1); }
  }

  /** One turn of the main loop for one column: from the window in front of centre t to the one in front of t + 1. */
  lemma Turn(orig: seq<real>, offset: nat, t: nat)
    requires 0 < 2 * offset <= |orig| && t < |orig|
    ensures var outs, n := Outs(orig, offset, t), |orig|;
            var next := Outs(orig, offset, t + 1);
            var before, after := Window(orig, outs, t - offset, 2 * offset), Window(orig, next, t + 1 - offset, 2 * offset);
            var k := MyMod(t + offset, n);
            var full := before + [Current(orig, offset, t)[k]];
            MyMod(t, n) == t && k < n && next == outs + [Sum(full) / ((2 * offset + 1) as real)] &&
            after == full[1..] && Sum(after) == Sum(full) - full[0] && Sum(full) == Sum(before) + Current(orig, offset, t)[k] &&
            Current(orig, offset, t + 1) == Current(orig, offset, t)[t := next[t]]
  {
    hide Mean, Window, Sum;
    var outs, next := Outs(orig, offset, t), Outs(orig, offset, t + 1);
    MyModNear(t + offset, |orig|);
    MyModNear(t, |orig|);
    WindowGrows(orig, outs, t - offset, 2 * offset);
    var full := Window(orig, outs, t - offset, 2 * offset + 1);
    MeanIs(orig, outs, offset, t);
    WindowStable(orig, outs, next[t], t + 1 - offset, 2 * offset);
    WindowRest(orig, outs, t - offset, 2 * offset + 1);
    SumFirst(full);
    SumNext(Window(orig, outs, t - offset, 2 * offset), Read(orig, outs, t + offset));
  }

  lemma WindowGrows(orig: seq<real>, outs: seq<real>, lo: int, n: nat)
    requires -(|orig| as int) <= lo && lo + n < |orig| + |outs|
    ensures Window(orig, outs, lo, n + 1) == Window(orig, outs, lo, n) + [Read(orig, outs, lo + n)]
  {
  }

  lemma MeanIs(orig: seq<real>, outs: seq<real>, offset: nat, t: nat)
    requires 0 < 2 * offset <= |orig| && t < |orig| && |outs| >= t
    ensures Mean(orig, outs, offset, t) == Sum(Window(orig, outs, t - offset, 2 * offset + 1)) / ((2 * offset + 1) as real)
  {
  }

  // ----- what the smoothed values are

  /** The original values around position lo, going round the season. */
  function Circular(orig: seq<real>, lo: int, n: nat): (w: seq<real>)
    requires orig != []
    ensures |w| == n && forall i :: 0 <= i < n ==> w[i] == orig[(lo + i) % |orig|]
  {
    seq(n, i => orig[(lo + i) % |orig|])
  }

  lemma {:induction false} OutsPrefix(orig: seq<real>, offset: nat, t: nat, u: nat)
    requires 0 < 2 * offset <= |orig| && t <= u <= |orig|
    ensures Outs(orig, offset, u)[..t] == Outs(orig, offset, t)
  {
    hide Mean;
    if t < u { OutsPrefix(orig, offset, t, u - 1); }
  }

  /** Later outputs do not change a window that ends before them. */
  lemma {:induction false} WindowOf(orig: seq<real>, outs: seq<real>, t: nat, lo: int, n: nat)
    requires t <= |outs| && -(|orig| as int) <= lo && lo + n <= |orig| + t
    ensures Window(orig, outs, lo, n) == Window(orig, outs[..t], lo, n)
  {
    if n > 0 { WindowOf(orig, outs, t, lo, n - 1); }
  }

  /** Every smoothed value is the mean of the 2 * offset + 1 values around it, where the positions behind the end of the
      season stand for the smoothed values at its front. */
  lemma SmoothedMean(orig: seq<real>, offset: nat, t: nat)
    requires 0 < 2 * offset <= |orig| && t < |orig|
    ensures var outs := Outs(orig, offset, |orig|);
            outs[t] == Sum(Window(orig, outs, t - offset, 2 * offset + 1)) / ((2 * offset + 1) as real)
  {
    hide Window, Sum;
    var outs := Outs(orig, offset, |orig|);
    OutsPrefix(orig, offset, t, |orig|);
    OutsPrefix(orig, offset, t + 1, |orig|);
    assert outs[t] == outs[..t + 1][t];
    MeanIs(orig, outs[..t], offset, t);
    WindowOf(orig, outs, t, t - offset, 2 * offset + 1);
  }

  lemma ModWrap(m: int, n: nat)
    requires n > 0 && -(n as int) <= m < n
    ensures m % n == if m < 0 then m + n else m
  {
    hide Mul;
    MulNext(n, 0);
    if m >= 0 {
      Divide(m, n, 0, m);
    } else {
      if m == -(n as int) {
        NegatedRest(n, n);
        Divide(n, n, 1, 0);
      } else {
        NegatedRest(-m, n);
        Divide(-m, n, 0, -m);
      }
    }
  }

  /** Away from the end of the season the smoothed value is the mean of the original values around it, going round. */
  lemma ExactMean(orig: seq<real>, offset: nat, t: nat)
    requires 0 < 2 * offset <= |orig| && t < |orig| - offset
    ensures Outs(orig, offset, |orig|)[t] == Sum(Circular(orig, t - offset, 2 * offset + 1)) / ((2 * offset + 1) as real)
  {
    hide Window, Sum, Outs, Circular;
    var outs, w := Outs(orig, offset, |orig|), Window(orig, Outs(orig, offset, |orig|), t - offset, 2 * offset + 1);
    SmoothedMean(orig, offset, t);
    forall i | 0 <= i < 2 * offset + 1 ensures w[i] == Circular(orig, t - offset, 2 * offset + 1)[i] {
      WindowAt(orig, outs, t - offset, 2 * offset + 1, i);
      ModWrap(t - offset + i, |orig|);
    }
    assert w == Circular(orig, t - offset, 2 * offset + 1);
  }

  ghost predicate Within(s: seq<real>, a: real, b: real) {
    forall i :: 0 <= i < |s| ==> a <= s[i] <= b
  }

  lemma {:induction false} SumWithin(s: seq<real>, a: real, b: real)
    requires Within(s, a, b)
    ensures (|s| as real) * a <= Sum(s) <= (|s| as real) * b
  {
    if s != [] {
      SumWithin(s[..|s| - 1], a, b);
      assert (|s| as real) * a == ((|s| - 1) as real) * a + a;
      assert (|s| as real) * b == ((|s| - 1) as real) * b + b;
    }
  }

  lemma MeanWithin(sum: real, n: real, a: real, b: real)
    requires n > 0.0 && n * a <= sum <= n * b
    ensures a <= sum / n <= b
  {
    var q := sum / n;
    assert q * n == sum;
    PositiveFactor(q - a, n);
    PositiveFactor(b - q, n);
  }

  lemma PositiveFactor(d: real, n: real)
    requires n > 0.0 && d * n >= 0.0
    ensures d >= 0.0
  {
  }

  /** Smoothing stays within the bounds of the original values, although it goes on with smoothed ones at the end. */
  lemma {:induction false} SmoothedWithin(orig: seq<real>, offset: nat, t: nat, a: real, b: real)
    requires 0 < 2 * offset <= |orig| && t <= |orig| && Within(orig, a, b)
    ensures Within(Outs(orig, offset, t), a, b)
  {
    hide Window, Sum;
    if t > 0 {
      var outs := Outs(orig, offset, t - 1);
      SmoothedWithin(orig, offset, t - 1, a, b);
      var n := 2 * offset + 1;
      var w := Window(orig, outs, t - 1 - offset, n);
      forall i | 0 <= i < n ensures a <= w[i] <= b {
        WindowAt(orig, outs, t - 1 - offset, n, i);
      }
      SumWithin(w, a, b);
      MeanWithin(Sum(w), n as real, a, b);
    }
  }

  // ----- recentring

  /** `baseline` as it is after the main loop. */
  function BaselineOf(outs: seq<real>): real
    requires outs != []
  {
    Sum(outs) / (|outs| as real)
  }

  function Shifted(outs: seq<real>, shift: real): (s: seq<real>)
    ensures |s| == |outs| && forall i :: 0 <= i < |s| ==> s[i] == outs[i] - shift
  {
    seq(|outs|, i requires 0 <= i < |outs| => outs[i] - shift)
  }

  lemma {:induction false} SumShifted(outs: seq<real>, shift: real)
    ensures Sum(Shifted(outs, shift)) == Sum(outs) - (|outs| as real) * shift
  {
    if outs != [] {
      var front := outs[..|outs| - 1];
      SumShifted(front, shift);
      assert Shifted(outs, shift)[..|outs| - 1] == Shifted(front, shift);
      assert (|outs| as real) * shift == (|front| as real) * shift + shift;
    }
  }

  /** After recentring, the seasonal coefficients of the additive method sum to zero, and intercept and coefficient together
      are what they were. */
  lemma Recentred(outs: seq<real>, intercept: real)
    requires outs != []
    ensures var base := BaselineOf(outs);
            Sum(Shifted(outs, base)) == 0.0 &&
            forall i :: 0 <= i < |outs| ==> (intercept + base) + Shifted(outs, base)[i] == intercept + outs[i]
  {
    hide Sum;
    SumShifted(outs, BaselineOf(outs));
    DivideBack(Sum(outs), |outs| as real);
  }

  lemma DivideBack(x: real, n: real)
    requires n != 0.0
    ensures n * (x / n) == x
  {
  }

  // ----- the loops over all columns

  /** One column before centre t: the values so far, the queue with the window in front of t, its sum, and the sum of the
      smoothed values. */
  ghost predicate At(orig: seq<real>, offset: nat, t: nat, column: seq<real>, contents: seq<real>, average: real, base: real)
    requires 0 < 2 * offset <= |orig| && t <= |orig|
  {
    column == Current(orig, offset, t) && contents == Window(orig, Outs(orig, offset, t), t - offset, 2 * offset) &&
    average == Sum(contents) && base == Sum(Outs(orig, offset, t))
  }

  lemma NextCentre(orig: seq<real>, offset: nat, t: nat, column: seq<real>, contents: seq<real>, average: real, base: real)
    requires 0 < 2 * offset <= |orig| && t < |orig| && At(orig, offset, t, column, contents, average, base)
    ensures |column| == |orig| && MyMod(t + offset, |orig|) < |orig| && MyMod(t, |orig|) == t && |contents| == 2 * offset
    ensures var x := column[MyMod(t + offset, |orig|)];
            var out := (average + x) / ((2 * offset + 1) as real);
            At(orig, offset, t + 1, column[t := out], (contents + [x])[1..], average + x - (contents + [x])[0], base + out)
  {
    hide Window, Sum, Outs, Current, MyMod;
    Turn(orig, offset, t);
    SumNext(Outs(orig, offset, t), Outs(orig, offset, t + 1)[t]);
  }

  /** The queue is being filled with the first i of the values in front of the season's start. */
  ghost predicate Filled(orig: seq<real>, offset: nat, i: nat, contents: seq<real>, average: real)
    requires 0 < 2 * offset <= |orig| && i <= 2 * offset
  {
    contents == Window(orig, [], 0 - offset, i) && average == Sum(contents)
  }

  lemma FillNext(orig: seq<real>, offset: nat, i: nat, contents: seq<real>, average: real)
    requires 0 < 2 * offset <= |orig| && i < 2 * offset && Filled(orig, offset, i, contents, average)
    ensures MyMod(i - offset, |orig|) < |orig| && |contents| == i
    ensures var x := orig[MyMod(i - offset, |orig|)]; Filled(orig, offset, i + 1, contents + [x], average + x)
  {
    hide Sum, MyMod;
    MyModNear(i - offset, |orig|);
    SumNext(contents, orig[MyMod(i - offset, |orig|)]);
  }

  lemma FilledIsStart(orig: seq<real>, offset: nat, contents: seq<real>, average: real)
    requires 0 < 2 * offset <= |orig| && Filled(orig, offset, 2 * offset, contents, average)
    ensures At(orig, offset, 0, orig, contents, average, 0.0)
  {
    assert Current(orig, offset, 0) == orig;
  }

  lemma Apart(ds: nat, k: nat, j: nat, k': nat, j': nat)
    requires j < ds && j' < ds && (k != k' || j != j')
    ensures Cells(ds, k) + j != Cells(ds, k') + j'
  {
    if k < k' {
      RowsInside(ds, 0, k + 1, k');
      OneRow(ds, k);
    } else if k' < k {
      RowsInside(ds, 0, k' + 1, k);
      OneRow(ds, k');
    }
  }

  lemma CellInside(ds: nat, n: nat, k: nat, j: nat)
    requires j < ds && k < n
    ensures Cells(ds, k) + j < Cells(ds, n)
  {
    OneRow(ds, k);
    RowsInside(ds, 0, k + 1, n);
  }

  /** Writing one cell changes one column in one place. */
  lemma SetCell<T>(s: seq<T>, ds: nat, n: nat, k: nat, j: nat, x: T, j': nat)
    requires j < ds && j' < ds && k < n && Cells(ds, n) <= |s|
    ensures Cells(ds, k) + j < |s|
    ensures Column(s[Cells(ds, k) + j := x], ds, 0, n, j') ==
      if j' == j then Column(s, ds, 0, n, j)[k := x] else Column(s, ds, 0, n, j')
  {
    hide Cells, Column;
    CellInside(ds, n, k, j);
    var t := s[Cells(ds, k) + j := x];
    var a := Column(t, ds, 0, n, j');
    var b := if j' == j then Column(s, ds, 0, n, j)[k := x] else Column(s, ds, 0, n, j');
    forall i | 0 <= i < n ensures a[i] == b[i] {
      ColumnAt(t, ds, 0, n, j', i);
      ColumnAt(s, ds, 0, n, j', i);
      if i != k || j' != j { Apart(ds, i, j', k, j); }
    }
  }

  /** A column of the array. */
  ghost function Col<T>(values: array<T>, rowLength: nat, rowCount: nat, j: nat): (column: seq<T>)
    requires j < rowLength && values.Length == Cells(rowLength, rowCount)
    reads values
    ensures |column| == rowCount
  {
    Column(values[..], rowLength, 0, rowCount, j)
  }

  lemma ColAt<T>(values: array<T>, rowLength: nat, rowCount: nat, j: nat, k: nat)
    requires j < rowLength && values.Length == Cells(rowLength, rowCount) && k < rowCount
    ensures Cells(rowLength, k) + j < values.Length
    ensures values[Cells(rowLength, k) + j] == Col(values, rowLength, rowCount, j)[k]
  {
    hide Cells, Column;
    CellInside(rowLength, rowCount, k, j);
    ColumnAt(values[..], rowLength, 0, rowCount, j, k);
  }

  /** Overwriting one cell. */
  method Put<T>(values: array<T>, rowLength: nat, rowCount: nat, j: nat, k: nat, x: T)
    requires j < rowLength && values.Length == Cells(rowLength, rowCount) && k < rowCount
    modifies values
    ensures forall l :: 0 <= l < rowLength ==>
      Col(values, rowLength, rowCount, l) ==
        if l == j then old(Col(values, rowLength, rowCount, l))[k := x] else old(Col(values, rowLength, rowCount, l))
  {
    hide Cells, Column;
    CellInside(rowLength, rowCount, k, j);
    ghost var was := values[..];
    values[Cells(rowLength, k) + j] := x;
    assert values[..] == was[Cells(rowLength, k) + j := x];
    forall l | 0 <= l < rowLength
      ensures Col(values, rowLength, rowCount, l) ==
        if l == j then old(Col(values, rowLength, rowCount, l))[k := x] else old(Col(values, rowLength, rowCount, l))
    {
      SetCell(was, rowLength, rowCount, k, j, x, l);
    }
  }

  ghost function Arrays(buffers: seq<Fifo.Queue>): set<array<real>> { set q <- buffers :: q.queue }

  /** One queue for each column, with room for a whole window, all of them apart from each other and the other arrays. */
  ghost predicate Bank(buffers: seq<Fifo.Queue>, capacity: nat, others: set<array<real>>) {
    (forall j :: 0 <= j < |buffers| ==> buffers[j].capacity == capacity && buffers[j].queue !in others) &&
    forall j, k :: 0 <= j < k < |buffers| ==> buffers[j] != buffers[k] && buffers[j].queue != buffers[k].queue
  }

  /** The body of the inner loop of the main loop. */
  method SmoothCell(values: array<real>, rowLength: nat, rowCount: nat, j: nat, i: nat, offset: nat, q: Fifo.Queue,
                    average: real, base: real, ghost orig: seq<real>) returns (average': real, base': real)
    requires j < rowLength && Cells(rowLength, rowCount) == values.Length && |orig| == rowCount
    requires 0 < 2 * offset <= rowCount && offset <= i < rowCount + offset
    requires q.Valid() && q.capacity == 2 * offset + 1 && q.queue != values
    requires At(orig, offset, i - offset, Col(values, rowLength, rowCount, j), q.contents, average, base)
    modifies values, q, q.queue
    ensures q.Valid()
    ensures At(orig, offset, i - offset + 1, Col(values, rowLength, rowCount, j), q.contents, average', base')
    ensures forall l :: 0 <= l < rowLength && l != j ==>
      Col(values, rowLength, rowCount, l) == old(Col(values, rowLength, rowCount, l))
  {
    hide At, Col, Cells, Window, Outs, Sum, MyMod, Fifo.Queue.Valid, Current;
    NextCentre(orig, offset, i - offset, Col(values, rowLength, rowCount, j), q.contents, average, base);
    var k := MyMod(i, rowCount);
    ColAt(values, rowLength, rowCount, j, k);
    var x := values[Cells(rowLength, k) + j];
    average' := average + x;
    q.Push(x);
    k := MyMod(i - offset, rowCount);
    Put(values, rowLength, rowCount, j, k, average' / ((2 * offset + 1) as real));
    ColAt(values, rowLength, rowCount, j, k);
    base' := base + values[Cells(rowLength, k) + j];
    var first := q.Pop();
    average' := average' - first;
  }

  /** The columns below `done` are before centre t + 1, the others before centre t. */
  ghost predicate AllAt(buffers: seq<Fifo.Queue>, values: array<real>, averages: array<real>, bases: array<real>,
                        rowLength: nat, rowCount: nat, origs: seq<seq<real>>, offset: nat, t: nat, done: nat)
    requires Sized(buffers, values, averages, bases, rowLength, rowCount, origs) && 0 < 2 * offset <= rowCount
    requires t <= rowCount && (done > 0 ==> t < rowCount)
    reads values, averages, bases, buffers, Arrays(buffers)
  {
    forall j :: 0 <= j < rowLength ==>
      buffers[j].Valid() &&
      At(origs[j], offset, if j < done then t + 1 else t, Col(values, rowLength, rowCount, j), buffers[j].contents,
         averages[j], bases[j])
  }

  ghost predicate Sized(buffers: seq<Fifo.Queue>, values: array<real>, averages: array<real>, bases: array<real>,
                        rowLength: nat, rowCount: nat, origs: seq<seq<real>>)
  {
    |buffers| == rowLength && averages.Length == rowLength && bases.Length == rowLength && averages != bases &&
    averages != values && bases != values && values.Length == Cells(rowLength, rowCount) && |origs| == rowLength &&
    forall j :: 0 <= j < rowLength ==> |origs[j]| == rowCount
  }

  /** One turn of the main loop: the inner loop over the columns. */
  method SmoothRow(values: array<real>, rowLength: nat, rowCount: nat, i: nat, offset: nat, buffers: seq<Fifo.Queue>,
                   averages: array<real>, bases: array<real>, ghost origs: seq<seq<real>>)
    requires Sized(buffers, values, averages, bases, rowLength, rowCount, origs) && 0 < 2 * offset <= rowCount
    requires offset <= i < rowCount + offset && Bank(buffers, 2 * offset + 1, {values, averages, bases})
    requires AllAt(buffers, values, averages, bases, rowLength, rowCount, origs, offset, i - offset, 0)
    modifies values, averages, bases, buffers, Arrays(buffers)
    ensures AllAt(buffers, values, averages, bases, rowLength, rowCount, origs, offset, i - offset + 1, 0)
  {
    hide At, Col, Cells, Fifo.Queue.Valid;
    var j := 0;
    while j < rowLength
      invariant 0 <= j <= rowLength
      invariant AllAt(buffers, values, averages, bases, rowLength, rowCount, origs, offset, i - offset, j)
    {
      assert buffers[j] in buffers;
      assert buffers[j].queue in Arrays(buffers);
      var a, b := SmoothCell(values, rowLength, rowCount, j, i, offset, buffers[j], averages[j], bases[j], origs[j]);
      averages[j] := a;
      bases[j] := b;
      j := j + 1;
    }
  }

  ghost predicate AllFilled(buffers: seq<Fifo.Queue>, averages: array<real>, rowLength: nat, rowCount: nat,
                            origs: seq<seq<real>>, offset: nat, i: nat, done: nat)
    requires |buffers| == rowLength == averages.Length == |origs| && 0 < 2 * offset <= rowCount
    requires i <= 2 * offset && (done > 0 ==> i < 2 * offset) && forall j :: 0 <= j < rowLength ==> |origs[j]| == rowCount
    reads averages, buffers, Arrays(buffers)
  {
    forall j :: 0 <= j < rowLength ==>
      buffers[j].Valid() && Filled(origs[j], offset, if j < done then i + 1 else i, buffers[j].contents, averages[j])
  }

  /** The body of the inner loop that fills the queues. */
  method FillCell(values: array<real>, rowLength: nat, rowCount: nat, j: nat, i: nat, offset: nat, q: Fifo.Queue,
                  average: real, ghost orig: seq<real>) returns (average': real)
    requires j < rowLength && Cells(rowLength, rowCount) == values.Length && |orig| == rowCount
    requires 0 < 2 * offset <= rowCount && i < 2 * offset
    requires q.Valid() && q.capacity == 2 * offset + 1 && q.queue != values
    requires Col(values, rowLength, rowCount, j) == orig && Filled(orig, offset, i, q.contents, average)
    modifies q, q.queue
    ensures q.Valid() && Filled(orig, offset, i + 1, q.contents, average')
  {
    hide Filled, Col, Cells, MyMod;
    FillNext(orig, offset, i, q.contents, average);
    var k := MyMod(i - offset, rowCount);
    ColAt(values, rowLength, rowCount, j, k);
    var x := values[Cells(rowLength, k) + j];
    q.Push(x);
    average' := average + x;
  }

  /** One turn of the loop that fills the queues. */
  method FillRow(values: array<real>, rowLength: nat, rowCount: nat, i: nat, offset: nat, buffers: seq<Fifo.Queue>,
                 averages: array<real>, bases: array<real>, ghost origs: seq<seq<real>>)
    requires Sized(buffers, values, averages, bases, rowLength, rowCount, origs) && 0 < 2 * offset <= rowCount
    requires i < 2 * offset && Bank(buffers, 2 * offset + 1, {values, averages, bases})
    requires forall j :: 0 <= j < rowLength ==> Col(values, rowLength, rowCount, j) == origs[j]
    requires AllFilled(buffers, averages, rowLength, rowCount, origs, offset, i, 0)
    modifies averages, buffers, Arrays(buffers)
    ensures AllFilled(buffers, averages, rowLength, rowCount, origs, offset, i + 1, 0)
  {
    hide Filled, Col, Cells, Fifo.Queue.Valid;
    var j := 0;
    while j < rowLength
      invariant 0 <= j <= rowLength
      invariant AllFilled(buffers, averages, rowLength, rowCount, origs, offset, i, j)
    {
      assert buffers[j] in buffers;
      assert buffers[j].queue in Arrays(buffers);
      var a := FillCell(values, rowLength, rowCount, j, i, offset, buffers[j], averages[j], origs[j]);
      averages[j] := a;
      j := j + 1;
    }
  }

  /** `queue_alloc` for every column. */
  method Allocate(rowLength: nat, capacity: nat) returns (buffers: seq<Fifo.Queue>)
    requires capacity > 0
    ensures |buffers| == rowLength && Bank(buffers, capacity, {})
    ensures forall j :: 0 <= j < rowLength ==>
      fresh(buffers[j]) && fresh(buffers[j].queue) && buffers[j].Valid() && buffers[j].contents == []
  {
    buffers := [];
    while |buffers| < rowLength
      invariant |buffers| <= rowLength && Bank(buffers, capacity, {})
      invariant forall j :: 0 <= j < |buffers| ==>
        fresh(buffers[j]) && fresh(buffers[j].queue) && buffers[j].Valid() && buffers[j].contents == []
    {
      var q := new Fifo.Queue(capacity);
      buffers := buffers + [q];
    }
  }

  /** The loop that fills the queues. */
  method Fill(values: array<real>, rowLength: nat, rowCount: nat, offset: nat, buffers: seq<Fifo.Queue>,
              averages: array<real>, bases: array<real>, ghost origs: seq<seq<real>>)
    requires Sized(buffers, values, averages, bases, rowLength, rowCount, origs) && 0 < 2 * offset <= rowCount
    requires Bank(buffers, 2 * offset + 1, {values, averages, bases})
    requires forall j :: 0 <= j < rowLength ==> Col(values, rowLength, rowCount, j) == origs[j]
    requires forall j :: 0 <= j < rowLength ==> buffers[j].Valid() && buffers[j].contents == [] && averages[j] == 0.0 == bases[j]
    modifies averages, buffers, Arrays(buffers)
    ensures AllAt(buffers, values, averages, bases, rowLength, rowCount, origs, offset, 0, 0)
  {
    hide Col, Cells, Filled, AllFilled, AllAt, Fifo.Queue.Valid;
    FillStart(buffers, averages, rowLength, rowCount, origs, offset);
    var i := 0;
    while i < 2 * offset
      invariant 0 <= i <= 2 * offset
      invariant AllFilled(buffers, averages, rowLength, rowCount, origs, offset, i, 0)
    {
      FillRow(values, rowLength, rowCount, i, offset, buffers, averages, bases, origs);
      i := i + 1;
    }
    AllStart(buffers, values, averages, bases, rowLength, rowCount, origs, offset);
  }

  /** With all queues filled, the first centre is next. */
  lemma AllStart(buffers: seq<Fifo.Queue>, values: array<real>, averages: array<real>, bases: array<real>,
                 rowLength: nat, rowCount: nat, origs: seq<seq<real>>, offset: nat)
    requires Sized(buffers, values, averages, bases, rowLength, rowCount, origs) && 0 < 2 * offset <= rowCount
    requires AllFilled(buffers, averages, rowLength, rowCount, origs, offset, 2 * offset, 0)
    requires forall j :: 0 <= j < rowLength ==> Col(values, rowLength, rowCount, j) == origs[j] && bases[j] == 0.0
    ensures AllAt(buffers, values, averages, bases, rowLength, rowCount, origs, offset, 0, 0)
  {
    hide Col, Cells, Filled, At, Fifo.Queue.Valid;
    forall j | 0 <= j < rowLength
      ensures At(origs[j], offset, 0, Col(values, rowLength, rowCount, j), buffers[j].contents, averages[j], bases[j])
    {
      FilledIsStart(origs[j], offset, buffers[j].contents, averages[j]);
    }
  }

  /** The queues and the sums, all of them new. */
  method SetUp(values: array<real>, rowLength: nat, rowCount: nat, offset: nat, ghost origs: seq<seq<real>>)
    returns (buffers: seq<Fifo.Queue>, averages: array<real>, bases: array<real>)
    requires values.Length == Cells(rowLength, rowCount) && |origs| == rowLength
    requires forall j :: 0 <= j < rowLength ==> |origs[j]| == rowCount
    ensures Sized(buffers, values, averages, bases, rowLength, rowCount, origs)
    ensures Bank(buffers, 2 * offset + 1, {values, averages, bases})
    ensures fresh(averages) && fresh(bases) && forall j :: 0 <= j < rowLength ==> fresh(buffers[j]) && fresh(buffers[j].queue)
    ensures forall j :: 0 <= j < rowLength ==> buffers[j].Valid() && buffers[j].contents == [] && averages[j] == 0.0 == bases[j]
  {
    hide Cells;
    averages := new real[rowLength](_ => 0.0);
    bases := new real[rowLength](_ => 0.0);
    buffers := Allocate(rowLength, 2 * offset + 1);
  }

  /** The main loop. */
  method Smooth(values: array<real>, rowLength: nat, rowCount: nat, offset: nat, buffers: seq<Fifo.Queue>,
                averages: array<real>, bases: array<real>, ghost origs: seq<seq<real>>)
    requires Sized(buffers, values, averages, bases, rowLength, rowCount, origs) && 0 < 2 * offset <= rowCount
    requires Bank(buffers, 2 * offset + 1, {values, averages, bases})
    requires AllAt(buffers, values, averages, bases, rowLength, rowCount, origs, offset, 0, 0)
    modifies values, averages, bases, buffers, Arrays(buffers)
    ensures AllAt(buffers, values, averages, bases, rowLength, rowCount, origs, offset, rowCount, 0)
  {
    hide Cells, AllAt;
    var i := offset;
    while i < rowCount + offset
      invariant offset <= i <= rowCount + offset
      invariant AllAt(buffers, values, averages, bases, rowLength, rowCount, origs, offset, i - offset, 0)
    {
      SmoothRow(values, rowLength, rowCount, i, offset, buffers, averages, bases, origs);
      i := i + 1;
    }
  }

  /** From the allocation to the baselines, which are the means of the smoothed columns. */
  method Average(values: array<real>, rowLength: nat, rowCount: nat, offset: nat, ghost origs: seq<seq<real>>) returns (bases: array<real>)
    requires values.Length == Cells(rowLength, rowCount) && 0 < 2 * offset <= rowCount && |origs| == rowLength
    requires forall j :: 0 <= j < rowLength ==> |origs[j]| == rowCount && Col(values, rowLength, rowCount, j) == origs[j]
    modifies values
    ensures fresh(bases) && bases.Length == rowLength
    ensures forall j :: 0 <= j < rowLength ==>
      Col(values, rowLength, rowCount, j) == Outs(origs[j], offset, rowCount) &&
      bases[j] == BaselineOf(Outs(origs[j], offset, rowCount))
  {
    hide Col, Cells, Sum, Outs, AllAt, Bank;
    var buffers, averages;
    buffers, averages, bases := SetUp(values, rowLength, rowCount, offset, origs);
    Fill(values, rowLength, rowCount, offset, buffers, averages, bases, origs);
    Smooth(values, rowLength, rowCount, offset, buffers, averages, bases, origs);
    AllSmoothed(buffers, values, averages, bases, rowLength, rowCount, origs, offset);
    DivideAll(bases, rowCount);
  }

  /** `baseline[i] /= row_count`. */
  method DivideAll(bases: array<real>, rowCount: nat)
    requires rowCount > 0
    modifies bases
    ensures forall j :: 0 <= j < bases.Length ==> bases[j] == old(bases[j]) / (rowCount as real)
  {
    var i := 0;
    while i < bases.Length
      invariant 0 <= i <= bases.Length
      invariant forall j :: 0 <= j < i ==> bases[j] == old(bases[j]) / (rowCount as real)
      invariant forall j :: i <= j < bases.Length ==> bases[j] == old(bases[j])
    {
      bases[i] := bases[i] / (rowCount as real);
      i := i + 1;
    }
  }

  lemma FillStart(buffers: seq<Fifo.Queue>, averages: array<real>, rowLength: nat, rowCount: nat, origs: seq<seq<real>>,
                  offset: nat)
    requires |buffers| == rowLength == averages.Length == |origs| && 0 < 2 * offset <= rowCount
    requires forall j :: 0 <= j < |origs| ==> |origs[j]| == rowCount
    requires forall j :: 0 <= j < rowLength ==> buffers[j].Valid() && buffers[j].contents == [] && averages[j] == 0.0
    ensures AllFilled(buffers, averages, rowLength, rowCount, origs, offset, 0, 0)
  {
  }

  /** After the last centre. */
  lemma AllSmoothed(buffers: seq<Fifo.Queue>, values: array<real>, averages: array<real>, bases: array<real>,
                    rowLength: nat, rowCount: nat, origs: seq<seq<real>>, offset: nat)
    requires Sized(buffers, values, averages, bases, rowLength, rowCount, origs) && 0 < 2 * offset <= rowCount
    requires AllAt(buffers, values, averages, bases, rowLength, rowCount, origs, offset, rowCount, 0)
    ensures forall j :: 0 <= j < rowLength ==>
      Col(values, rowLength, rowCount, j) == Outs(origs[j], offset, rowCount) &&
      bases[j] == Sum(Outs(origs[j], offset, rowCount))
  {
    hide Col, Cells, Window, Sum, Outs;
    forall j | 0 <= j < rowLength
      ensures Col(values, rowLength, rowCount, j) == Outs(origs[j], offset, rowCount) &&
              bases[j] == Sum(Outs(origs[j], offset, rowCount))
    {
      assert Current(origs[j], offset, rowCount) == Outs(origs[j], offset, rowCount);
    }
  }

  // ----- the whole smoother

  /** Half the window in rows. */
  function Offset(window: real, rowCount: nat): int { (window / 2.0 * (rowCount as real)).Floor }

  /** On both sides of its middle row the window has as many whole rows as its share of the season allows. */
  lemma OffsetBound(window: real, rowCount: nat)
    requires 0.0 <= window <= 1.0
    ensures 0 <= 2 * Offset(window, rowCount) <= rowCount
    ensures (2 * Offset(window, rowCount)) as real <= window * rowCount as real < (2 * Offset(window, rowCount) + 2) as real
  {
    var x := window / 2.0 * (rowCount as real);
    PositiveProduct(window / 2.0, rowCount as real);
    PositiveProduct(0.5 - window / 2.0, rowCount as real);
  }

  lemma PositiveProduct(a: real, b: real)
    requires a >= 0.0 && b >= 0.0
    ensures a * b >= 0.0
  {
  }

  ghost predicate AllKnown(s: seq<Val>) { forall i :: 0 <= i < |s| ==> s[i].Fin? }

  function Reals(s: seq<Val>): (r: seq<real>)
    requires AllKnown(s)
    ensures |r| == |s| && forall i :: 0 <= i < |r| ==> s[i] == Fin(r[i])
  {
    seq(|s|, i requires 0 <= i < |s| => s[i].v)
  }

  /** What is stored for a smoothed column: as it is, or recentred around the baseline. */
  function Stored(seasonal: bool, m: Model, outs: seq<real>, base: real): (s: seq<Val>)
    ensures |s| == |outs|
    ensures forall i :: 0 <= i < |s| ==> s[i] == if seasonal then InitSeasonality(m, Fin(outs[i]), Fin(base)) else Fin(outs[i])
  {
    seq(|outs|, i requires 0 <= i < |outs| => if seasonal then InitSeasonality(m, Fin(outs[i]), Fin(base)) else Fin(outs[i]))
  }

  /** Reading the archive, which ends at the first unknown value. */
  method ReadAll(cells: array<Val>, rowLength: nat, rowCount: nat) returns (known: bool, values: array<real>)
    requires cells.Length == Cells(rowLength, rowCount)
    ensures fresh(values) && values.Length == cells.Length
    ensures known <==> AllKnown(cells[..])
    ensures known ==> forall p :: 0 <= p < cells.Length ==> cells[p] == Fin(values[p])
  {
    hide Cells;
    values := new real[cells.Length](_ => 0.0);
    NoCells(rowLength);
    var i := 0;
    while i < rowCount
      invariant 0 <= i <= rowCount && Cells(rowLength, i) <= cells.Length
      invariant forall p :: 0 <= p < Cells(rowLength, i) ==> cells[p] == Fin(values[p])
    {
      OneRow(rowLength, i);
      RowsInside(rowLength, 0, i + 1, rowCount);
      var j := 0;
      while j < rowLength
        invariant 0 <= j <= rowLength
        invariant forall p :: 0 <= p < Cells(rowLength, i) + j ==> cells[p] == Fin(values[p])
      {
        var x := cells[Cells(rowLength, i) + j];
        if x.NaN? {
          assert cells[..][Cells(rowLength, i) + j] == x;
          return false, values;
        }
        values[Cells(rowLength, i) + j] := x.v;
        j := j + 1;
      }
      i := i + 1;
    }
    known := true;
  }

  /** Every column of the numbers read is a column of the archive. */
  lemma ReadColumn(cells: array<Val>, values: array<real>, rowLength: nat, rowCount: nat, j: nat)
    requires j < rowLength && cells.Length == values.Length == Cells(rowLength, rowCount)
    requires forall p :: 0 <= p < cells.Length ==> cells[p] == Fin(values[p])
    ensures AllKnown(Col(cells, rowLength, rowCount, j))
    ensures Reals(Col(cells, rowLength, rowCount, j)) == Col(values, rowLength, rowCount, j)
  {
    hide Col, Cells;
    var a, b := Col(cells, rowLength, rowCount, j), Col(values, rowLength, rowCount, j);
    forall k | 0 <= k < rowCount ensures a[k] == Fin(b[k]) {
      ColAt(cells, rowLength, rowCount, j, k);
      ColAt(values, rowLength, rowCount, j, k);
    }
    assert Reals(a) == b;
  }

  /** Storing one smoothed column. */
  method StoreColumn(cells: array<Val>, values: array<real>, rowLength: nat, rowCount: nat, j: nat, seasonal: bool, m: Model, base: real)
    requires j < rowLength && cells.Length == values.Length == Cells(rowLength, rowCount)
    modifies cells
    ensures Col(cells, rowLength, rowCount, j) == Stored(seasonal, m, Col(values, rowLength, rowCount, j), base)
    ensures forall l :: 0 <= l < rowLength && l != j ==> Col(cells, rowLength, rowCount, l) == old(Col(cells, rowLength, rowCount, l))
  {
    hide Col, Cells;
    ghost var stored := Stored(seasonal, m, Col(values, rowLength, rowCount, j), base);
    var i := 0;
    while i < rowCount
      invariant 0 <= i <= rowCount
      invariant forall k :: 0 <= k < i ==> Col(cells, rowLength, rowCount, j)[k] == stored[k]
      invariant forall l :: 0 <= l < rowLength && l != j ==> Col(cells, rowLength, rowCount, l) == old(Col(cells, rowLength, rowCount, l))
    {
      ColAt(values, rowLength, rowCount, j, i);
      var v := values[Cells(rowLength, i) + j];
      Put(cells, rowLength, rowCount, j, i, if seasonal then InitSeasonality(m, Fin(v), Fin(base)) else Fin(v));
      i := i + 1;
    }
  }

  /** `apply_smoother` for a SEASONAL archive, with the intercepts of the archive it depends on, or for a DEVSEASONAL one.
      A window without a neighbour, or an unknown value anywhere, leaves everything as it is. */
  method ApplySmoother(cells: array<Val>, rowLength: nat, rowCount: nat, window: real, seasonal: bool, m: Model, intercepts: array<Val>)
    requires cells.Length == Cells(rowLength, rowCount) && intercepts.Length == rowLength && cells != intercepts
    requires 0.0 <= window <= 1.0
    modifies cells, intercepts
    ensures Offset(window, rowCount) == 0 || !AllKnown(old(cells[..])) ==>
      cells[..] == old(cells[..]) && intercepts[..] == old(intercepts[..])
    ensures Offset(window, rowCount) != 0 && AllKnown(old(cells[..])) ==>
      forall j :: 0 <= j < rowLength ==>
        Smoothed(Offset(window, rowCount), seasonal, m, old(Col(cells, rowLength, rowCount, j)), Col(cells, rowLength, rowCount, j),
          old(intercepts[j]), intercepts[j])
  {
    hide Col, Cells, Outs, Sum, BaselineOf, Offset;
    OffsetBound(window, rowCount);
    var offset := Offset(window, rowCount);
    if offset == 0 {
      return;
    }
    ghost var befores := Columns(cells[..], rowLength, rowCount);
    ColumnsAre(cells, rowLength, rowCount);
    var known, values := ReadAll(cells, rowLength, rowCount);
    if !known {
      return;
    }
    ghost var origs := Columns(values[..], rowLength, rowCount);
    ColumnsAre(values, rowLength, rowCount);
    forall j | 0 <= j < rowLength ensures AllKnown(befores[j]) && Reals(befores[j]) == origs[j] && |befores[j]| == rowCount {
      ReadColumn(cells, values, rowLength, rowCount, j);
    }
    var bases := Average(values, rowLength, rowCount, offset, origs);
    var j := 0;
    while j < rowLength
      modifies cells, intercepts
      invariant 0 <= j <= rowLength
      invariant forall l :: 0 <= l < j ==>
        Smoothed(offset, seasonal, m, befores[l], Col(cells, rowLength, rowCount, l), old(intercepts[l]), intercepts[l])
      invariant forall l :: j <= l < rowLength ==> intercepts[l] == old(intercepts[l])
    {
      StoreColumn(cells, values, rowLength, rowCount, j, seasonal, m, bases[j]);
      if seasonal {
        intercepts[j] := Plus(intercepts[j], Fin(bases[j]));
      }
      j := j + 1;
    }
  }

  function Columns<T>(s: seq<T>, rowLength: nat, rowCount: nat): (columns: seq<seq<T>>)
    requires Cells(rowLength, rowCount) == |s|
    ensures |columns| == rowLength && forall j :: 0 <= j < rowLength ==> columns[j] == Column(s, rowLength, 0, rowCount, j)
  {
    seq(rowLength, j requires 0 <= j < rowLength => Column(s, rowLength, 0, rowCount, j))
  }

  lemma ColumnsAre<T>(values: array<T>, rowLength: nat, rowCount: nat)
    requires values.Length == Cells(rowLength, rowCount)
    ensures forall j :: 0 <= j < rowLength ==> Columns(values[..], rowLength, rowCount)[j] == Col(values, rowLength, rowCount, j)
  {
    hide Cells, Column;
  }

  /** What smoothing makes of one column and of the intercept that goes with it. */
  ghost predicate Smoothed(offset: nat, seasonal: bool, m: Model, before: seq<Val>, after: seq<Val>, interceptBefore: Val, intercept: Val) {
    AllKnown(before) && 0 < 2 * offset <= |before| &&
    var outs := Outs(Reals(before), offset, |before|);
    var base := BaselineOf(outs);
    after == Stored(seasonal, m, outs, base) &&
    intercept == if seasonal then Plus(interceptBefore, Fin(base)) else interceptBefore
  }

  /** The additive method after smoothing: the coefficients of every column sum to zero, and together with the intercept
      they predict what the smoothed ones would have predicted with the old intercept. */
  lemma SmoothedAdditive(offset: nat, before: seq<Val>, after: seq<Val>, interceptBefore: Val, intercept: Val)
    requires Smoothed(offset, true, Additive, before, after, interceptBefore, intercept) && interceptBefore.Fin?
    ensures intercept.Fin? && AllKnown(after) && |after| == |before| && Sum(Reals(after)) == 0.0
    ensures forall i :: 0 <= i < |before| ==>
      intercept.v + after[i].v == interceptBefore.v + Outs(Reals(before), offset, |before|)[i]
  {
    hide Outs, Sum;
    var outs := Outs(Reals(before), offset, |before|);
    Recentred(outs, interceptBefore.v);
    assert Reals(after) == Shifted(outs, BaselineOf(outs));
  }

  /** The multiplicative method divides by the baseline: if that is positive, the coefficients of every column sum to their
      number, and baseline and coefficient together are the smoothed value; otherwise none of them is known. */
  lemma SmoothedMultiplicative(offset: nat, before: seq<Val>, after: seq<Val>, interceptBefore: Val, intercept: Val)
    requires Smoothed(offset, true, Multiplicative, before, after, interceptBefore, intercept)
    ensures var outs := Outs(Reals(before), offset, |before|);
            var base := BaselineOf(outs);
            |after| == |outs| &&
            (base > 0.0 ==> AllKnown(after) && Sum(Reals(after)) == |after| as real &&
                            forall i :: 0 <= i < |after| ==> base * Reals(after)[i] == outs[i]) &&
            (base <= 0.0 ==> forall i :: 0 <= i < |after| ==> after[i].NaN?)
  {
    hide Outs, Sum;
    var outs := Outs(Reals(before), offset, |before|);
    var base := BaselineOf(outs);
    if base > 0.0 {
      assert Reals(after) == Divided(outs, base);
      SumDivided(outs, base);
      DivideBack(Sum(outs), |outs| as real);
      Cancel(Sum(Divided(outs, base)), |outs| as real, base);
      forall i | 0 <= i < |after| ensures base * Reals(after)[i] == outs[i] {
        DivideBack(outs[i], base);
      }
    }
  }

  function Divided(outs: seq<real>, d: real): (s: seq<real>)
    requires d > 0.0
    ensures |s| == |outs| && forall i :: 0 <= i < |s| ==> s[i] == outs[i] / d
  {
    seq(|outs|, i requires 0 <= i < |outs| => outs[i] / d)
  }

  lemma {:induction false} SumDivided(outs: seq<real>, d: real)
    requires d > 0.0
    ensures d * Sum(Divided(outs, d)) == Sum(outs)
  {
    if outs != [] {
      var front := outs[..|outs| - 1];
      SumDivided(front, d);
      assert Divided(outs, d)[..|outs| - 1] == Divided(front, d);
      DivideBack(outs[|outs| - 1], d);
      MulPlus(d, Sum(Divided(front, d)), outs[|outs| - 1] / d);
    }
  }

  lemma MulPlus(d: real, x: real, y: real)
    ensures d * (x + y) == d * x + d * y
  {
  }

  lemma Cancel(x: real, n: real, d: real)
    requires d > 0.0 && d * x == n * d
    ensures x == n
  {
    assert d * (x - n) == 0.0;
  }
}
