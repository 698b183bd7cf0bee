/** What consolidating the values of an interval means, for every consolidation function (rrd_graph.c). */
module ReduceLaws {
  import opened Values
  import opened Sums
  import opened Reduce

  lemma {:induction false} KnownConcat(a: seq<Val>, b: seq<Val>)
    ensures Known(a + b) == Known(a) + Known(b)
  {
    hide Known;
    if b == [] {
      KnownNone();
      assert a + b == a;
    } else {
      var front, x := b[..|b| - 1], b[|b| - 1];
      KnownConcat(a, front);
      KnownNext(a + front, x);
      KnownNext(front, x);
      assert a + b == a + front + [x] && b == front + [x];
    }
  }

  /** Unknown values do not take part, and the result is unknown exactly if nothing is known. */
  lemma {:induction false} UnknownIgnored(cf: Cf, a: seq<Val>, b: seq<Val>)
    ensures Consolidate(cf, a + [NaN] + b) == Consolidate(cf, a + b)
    ensures Consolidate(cf, a).NaN? <==> forall i :: 0 <= i < |a| ==> a[i].NaN?
  {
    hide Least, Greatest, Sum;
    KnownNext(a, NaN);
    KnownConcat(a + [NaN], b);
    KnownConcat(a, b);
    NothingKnown(a);
    hide Known;
  }

  lemma {:induction false} NothingKnown(s: seq<Val>)
    ensures Known(s) == [] <==> forall i :: 0 <= i < |s| ==> s[i].NaN?
    ensures forall v :: v in Known(s) <==> Fin(v) in s
  {
    if s != [] {
      var front, x := s[..|s| - 1], s[|s| - 1];
      NothingKnown(front);
      assert s == front + [x];
      assert forall i :: 0 <= i < |front| ==> s[i] == front[i];
    }
  }

  /** MINIMUM, MAXIMUM and FAILURES give one of the values, which bounds all of them; LAST gives the last known one. */
  lemma {:induction false} Extremes(s: seq<Val>, x: real)
    requires Fin(x) in s
    ensures var lo, hi := Consolidate(Minimum, s), Consolidate(Maximum, s);
            lo in s && hi in s && lo.Fin? && hi.Fin? && lo.v <= x <= hi.v && Consolidate(Failures, s) == hi
    ensures Consolidate(Last, s + [Fin(x)]) == Fin(x)
  {
    hide Known, Sum, Least, Greatest;
    NothingKnown(s);
    KnownNext(s, Fin(x));
    var known := Known(s);
    assert x in known;
  }

  // ----- averages

  lemma {:induction false} SumBetween(s: seq<real>, lo: real, hi: real)
    requires forall i :: 0 <= i < |s| ==> lo <= s[i] <= hi
    ensures Times(|s|, lo) <= Sum(s) <= Times(|s|, hi)
  {
    hide Times;
    if s == [] {
      TimesNext(0, lo);
      TimesNext(0, hi);
    } else {
      SumBetween(s[..|s| - 1], lo, hi);
      TimesNext(|s| - 1, lo);
      TimesNext(|s| - 1, hi);
    }
  }

  lemma {:induction false} SumRaised(s: seq<real>, t: seq<real>, d: real)
    requires |s| == |t| && forall i :: 0 <= i < |s| ==> t[i] == s[i] + d
    ensures Sum(t) == Sum(s) + Times(|s|, d)
  {
    hide Times;
    if s == [] {
      TimesNext(0, d);
    } else {
      SumRaised(s[..|s| - 1], t[..|s| - 1], d);
      TimesNext(|s| - 1, d);
    }
  }

  /** AVERAGE, and every function that is treated like it, lies between the bounds of the known values. */
  lemma {:induction false} AverageBetween(cf: Cf, s: seq<Val>, lo: real, hi: real)
    requires Averaging(cf) && forall i :: 0 <= i < |s| ==> s[i].NaN? || lo <= s[i].v <= hi
    ensures Consolidate(cf, s).NaN? || lo <= Consolidate(cf, s).v <= hi
  {
    var known := Known(s);
    NothingKnown(s);
    assert forall i :: 0 <= i < |known| ==> known[i] in known;
    if known != [] {
      SumBetween(known, lo, hi);
      Mean(Sum(known), |known|, lo, hi, 0.0);
    }
    hide Known, Sum, Times, Least, Greatest;
  }

  /** Raising all values raises it by as much. */
  lemma {:induction false} AverageRaised(cf: Cf, s: seq<Val>, t: seq<Val>, d: real)
    requires Averaging(cf) && |s| == |t|
    requires forall i :: 0 <= i < |s| ==> t[i] == match s[i] case NaN => NaN case Fin(v) => Fin(v + d)
    ensures Consolidate(cf, t) == match Consolidate(cf, s) case NaN => NaN case Fin(v) => Fin(v + d)
  {
    KnownRaised(s, t, d);
    var p, q := Known(s), Known(t);
    hide Known;
    if p != [] {
      SumRaised(p, q, d);
      hide Sum, Times;
      Mean(Sum(p), |p|, 0.0, 0.0, d);
    }
  }

  lemma {:induction false} KnownRaised(s: seq<Val>, t: seq<Val>, d: real)
    requires |s| == |t| && forall i :: 0 <= i < |s| ==> t[i] == match s[i] case NaN => NaN case Fin(v) => Fin(v + d)
    ensures |Known(t)| == |Known(s)| && forall i :: 0 <= i < |Known(s)| ==> Known(t)[i] == Known(s)[i] + d
  {
    if s != [] { KnownRaised(s[..|s| - 1], t[..|s| - 1], d); }
  }

  // ----- consolidating twice

  lemma {:induction false} LeastConcat(a: seq<real>, b: seq<real>)
    requires a != [] && b != []
    ensures Least(a + b) == if Least(a) <= Least(b) then Least(a) else Least(b)
    ensures Greatest(a + b) == if Greatest(a) >= Greatest(b) then Greatest(a) else Greatest(b)
  {
    var s := a + b;
    assert forall i :: 0 <= i < |a| ==> s[i] == a[i];
    assert forall i :: 0 <= i < |b| ==> s[|a| + i] == b[i];
    hide Least, Greatest;
  }

  lemma {:induction false} SumConcat(a: seq<real>, b: seq<real>)
    ensures Sum(a + b) == Sum(a) + Sum(b)
  {
    if b == [] {
      assert a + b == a;
    } else {
      SumConcat(a, b[..|b| - 1]);
      assert (a + b)[..|a + b| - 1] == a + b[..|b| - 1];
    }
  }

  lemma {:induction false} TwoKnown(x: Val, y: Val)
    ensures Known([x, y]) == if x.NaN? && y.NaN? then [] else if x.NaN? then [y.v] else if y.NaN? then [x.v] else [x.v, y.v]
  {
    assert [x, y][..1] == [x] && [x][..0] == [];
    assert Known([x]) == if x.Fin? then [x.v] else [];
  }

  /** Consolidating two intervals each and then the results is consolidating all at once, for every function that does not
      average. */
  lemma {:induction false} Twice(cf: Cf, a: seq<Val>, b: seq<Val>)
    requires !Averaging(cf)
    ensures Consolidate(cf, [Consolidate(cf, a), Consolidate(cf, b)]) == Consolidate(cf, a + b)
  {
    var x, y := Consolidate(cf, a), Consolidate(cf, b);
    KnownConcat(a, b);
    TwoKnown(x, y);
    ConsolidatedIs(cf, a);
    ConsolidatedIs(cf, b);
    ConsolidatedIs(cf, a + b);
    ConsolidatedIs(cf, [x, y]);
    hide Known, Consolidate, Gathered, Averaging;
    assert Known(a) + [] == Known(a) && [] + Known(b) == Known(b);
    if x.Fin? && y.Fin? {
      GatheredConcat(cf, Known(a), Known(b));
    } else if x.Fin? {
      GatheredOne(cf, x.v);
    } else if y.Fin? {
      GatheredOne(cf, y.v);
    }
  }

  lemma {:induction false} ConsolidatedIs(cf: Cf, s: seq<Val>)
    ensures !Averaging(cf) ==> Consolidate(cf, s) == Gathered(cf, Known(s))
    ensures Consolidate(cf, s).NaN? <==> Known(s) == []
  {
    hide Known, Least, Greatest, Sum;
  }

  lemma {:induction false} GatheredConcat(cf: Cf, a: seq<real>, b: seq<real>)
    requires !Averaging(cf) && a != [] && b != []
    ensures Gathered(cf, a).Fin? && Gathered(cf, b).Fin?
    ensures Gathered(cf, a + b) == Gathered(cf, [Gathered(cf, a).v, Gathered(cf, b).v])
  {
    LeastConcat(a, b);
    PairLeast(Least(a), Least(b));
    PairLeast(Greatest(a), Greatest(b));
    hide Least, Greatest, Sum;
  }

  lemma {:induction false} GatheredOne(cf: Cf, x: real)
    requires !Averaging(cf)
    ensures Gathered(cf, [x]) == Fin(x)
  {
    PairLeast(x, x);
    hide Least, Greatest, Sum;
  }

  lemma {:induction false} PairLeast(x: real, y: real)
    ensures Least([x]) == x == Greatest([x]) && Least([x, y]) == (if x <= y then x else y)
    ensures Greatest([x, y]) == if x >= y then x else y
    ensures Sum([x]) == x && Sum([x, y]) == x + y
  {
    assert [x, y][..1] == [x] && [x][..0] == [];
    assert Sum([]) == 0.0;
  }

  /** An average of two averages is the average of all exactly if as many values are known on both sides, both averages are the
      same, or nothing is known on one side. */
  lemma {:induction false} AverageTwice(cf: Cf, a: seq<Val>, b: seq<Val>)
    requires Averaging(cf)
    ensures var x, y := Consolidate(cf, a), Consolidate(cf, b);
            Consolidate(cf, [x, y]) == Consolidate(cf, a + b) <==>
            x.NaN? || y.NaN? || x == y || |Known(a)| == |Known(b)|
  {
    hide Known, Consolidate, Times, Averaging;
    var x, y := Consolidate(cf, a), Consolidate(cf, b);
    if x.Fin? && y.Fin? {
      AverageOfTwo(cf, x.v, y.v);
      AverageOfAll(cf, a, b);
      KnownExists(cf, a);
      KnownExists(cf, b);
      Weighted(x.v, y.v, |Known(a)|, |Known(b)|);
    } else {
      AverageOfOne(cf, a, b);
    }
  }

  lemma {:induction false} KnownExists(cf: Cf, s: seq<Val>)
    ensures Consolidate(cf, s).Fin? <==> |Known(s)| > 0
  {
    hide Known, Sum, Least, Greatest;
  }

  lemma {:induction false} AverageOfTwo(cf: Cf, x: real, y: real)
    requires Averaging(cf)
    ensures Consolidate(cf, [Fin(x), Fin(y)]) == Fin((x + y) / 2.0)
  {
    TwoKnown(Fin(x), Fin(y));
    PairLeast(x, y);
    hide Known, Sum;
  }

  lemma {:induction false} AverageOfOne(cf: Cf, a: seq<Val>, b: seq<Val>)
    requires Averaging(cf) && (Consolidate(cf, a).NaN? || Consolidate(cf, b).NaN?)
    ensures Consolidate(cf, [Consolidate(cf, a), Consolidate(cf, b)]) == Consolidate(cf, a + b)
  {
    var x, y := Consolidate(cf, a), Consolidate(cf, b);
    KnownConcat(a, b);
    ConsolidatedIs(cf, a);
    ConsolidatedIs(cf, b);
    if x.NaN? {
      assert Known(a) + Known(b) == Known(b);
      AverageWithNothing(cf, y, a + b, b);
    } else {
      assert Known(a) + Known(b) == Known(a);
      AverageWithNothing(cf, x, a + b, a);
    }
    hide Known, Consolidate;
  }

  /** The average of one average is that average. */
  lemma {:induction false} AverageWithNothing(cf: Cf, x: Val, all: seq<Val>, s: seq<Val>)
    requires Averaging(cf) && Known(all) == Known(s) && x == Consolidate(cf, s)
    ensures Consolidate(cf, [x, NaN]) == x == Consolidate(cf, [NaN, x]) && Consolidate(cf, all) == x
  {
    TwoKnown(x, NaN);
    TwoKnown(NaN, x);
    SameKnown(cf, all, s);
    ConsolidatedIs(cf, [x, NaN]);
    ConsolidatedIs(cf, [NaN, x]);
    if x.Fin? {
      OneKnown(cf, [x, NaN], x.v);
      OneKnown(cf, [NaN, x], x.v);
    }
    hide Known, Consolidate, Averaging;
  }

  lemma {:induction false} SameKnown(cf: Cf, s: seq<Val>, t: seq<Val>)
    requires Known(s) == Known(t)
    ensures Consolidate(cf, s) == Consolidate(cf, t)
  {
    hide Known, Sum, Least, Greatest;
  }

  lemma {:induction false} OneKnown(cf: Cf, s: seq<Val>, x: real)
    requires Averaging(cf) && Known(s) == [x]
    ensures Consolidate(cf, s) == Fin(x)
  {
    PairLeast(x, x);
    hide Known, Sum;
  }

  lemma {:induction false} AverageOfAll(cf: Cf, a: seq<Val>, b: seq<Val>)
    requires Averaging(cf) && Consolidate(cf, a).Fin? && Consolidate(cf, b).Fin?
    ensures var x, y, m, n := Consolidate(cf, a).v, Consolidate(cf, b).v, |Known(a)|, |Known(b)|;
            (m + n) as real != 0.0 && Consolidate(cf, a + b) == Fin((Times(m, x) + Times(n, y)) / (m + n) as real)
  {
    KnownConcat(a, b);
    SumConcat(Known(a), Known(b));
    hide Known, Sum;
    Parts(Sum(Known(a)), |Known(a)|);
    Parts(Sum(Known(b)), |Known(b)|);
    hide Times;
  }

  lemma Weighted(x: real, y: real, m: nat, n: nat)
    requires m > 0 && n > 0
    ensures (x + y) / 2.0 == (Times(m, x) + Times(n, y)) / (m + n) as real <==> x == y || m == n
  {
    var p, q := m as real, n as real;
    assert (m + n) as real == p + q;
    var s, t := (x + y) / 2.0, (p * x + q * y) / (p + q);
    assert t * (p + q) == p * x + q * y;
    assert s * (p + q) == (x * p + x * q + y * p + y * q) / 2.0;
    assert (s - t) * (p + q) == s * (p + q) - t * (p + q);
    assert (x - y) * (q - p) == x * q - x * p - y * q + y * p;
    ZeroProduct(s - t, p + q);
    ZeroProduct(x - y, q - p);
  }

  lemma ZeroProduct(a: real, b: real)
    ensures a * b == 0.0 <==> a == 0.0 || b == 0.0
  {
  }
}
