/** What the Holt-Winters methods learn and predict: error correction, unknown stretches, exact signals (rrd_hw_math.c). */
module HoltWintersLaws {
  import opened Values
  import opened HwMath
  import opened HoltWinters
  import opened HoltWintersRuns
  import A = Arith

  /** The absolute error: symmetric, never negative, and zero exactly at equal values. */
  lemma AbsoluteError(a: real, b: real)
    ensures Distance(Fin(a), Fin(b)) == Distance(Fin(b), Fin(a)) && Distance(Fin(a), Fin(b)).Fin?
    ensures var d := Distance(Fin(a), Fin(b)).v; d >= 0.0 && (d == 0.0 <==> a == b) && (d == a - b || d == b - a)
  {
  }

  /** A season that has not begun leaves the prediction to the baseline, and the first coefficient of an interval is what makes
      the observed value out of the intercept. */
  lemma SeasonBegins(m: Model, intercept: real, slope: real, n: nat, x: real)
    ensures Predict(m, Fin(intercept), Fin(slope), n, Identity(m)) == Fin(intercept + slope * n as real)
    ensures var c := InitSeasonality(m, Fin(x), Fin(intercept));
            if m.Additive? then Plus(Fin(intercept), c) == Fin(x)
            else if intercept > 0.0 then Times(Fin(intercept), c) == Fin(x) else c.NaN?
  {
  }

  // ----- error correction

  /** n steps along the slope. */
  function Along(slope: real, n: nat): real { slope * n as real }

  lemma AlongNext(slope: real, n: nat)
    ensures Along(slope, n + 1) == Along(slope, n) + slope && Along(slope, 0) == 0.0
  {
  }

  /** Where the intercept has come along the slope since the last known observation. */
  function Level(b: Before): real
    requires b.Known()
  {
    b.hw.coef.v + Along(b.hw.slope.v, b.hw.nullCount)
  }

  lemma PredictionIs(b: Before)
    requires b.Known()
    ensures b.Prediction() == Fin(if b.m.Additive? then Level(b) + b.sea.coef.v else Level(b) * b.sea.coef.v)
  {
  }

  lemma Corrected(w: real, new': real, old': real)
    ensures Blend(w, Fin(new'), Fin(old')) == Fin(old' + w * (new' - old'))
  {
  }

  /** The additive update as a correction by the error e of the prediction: the intercept follows the slope and takes up alpha
      of e, the slope takes up beta of what the intercept has moved too far, the season gamma of the rest of e. */
  lemma AdditiveCorrection(b: Before)
    requires b.m.Additive? && b.Known() && b.x.Fin?
    ensures b.Prediction() == Fin(Level(b) + b.sea.coef.v)
    ensures var e := b.x.v - b.Prediction().v;
            b.HwNext().coef == Fin(Level(b) + b.alpha * e) &&
            b.HwNext().slope == Fin(b.hw.slope.v + b.beta * (Along(b.hw.slope.v, b.hw.nullCount) - b.hw.slope.v + b.alpha * e)) &&
            b.SeaNext().val == Fin(b.sea.coef.v + b.gamma * ((1.0 - b.alpha) * e))
  {
    PredictionIs(b);
    AdditiveLearning(b);
    hide *;
  }

  lemma AdditiveLearning(b: Before)
    requires b.m.Additive? && b.Known() && b.x.Fin?
    ensures var e := b.x.v - (Level(b) + b.sea.coef.v);
            b.HwNext().coef == Fin(Level(b) + b.alpha * e) &&
            b.HwNext().slope == Fin(b.hw.slope.v + b.beta * (Along(b.hw.slope.v, b.hw.nullCount) - b.hw.slope.v + b.alpha * e)) &&
            b.SeaNext().val == Fin(b.sea.coef.v + b.gamma * ((1.0 - b.alpha) * e))
  {
    AdditiveIntercept(b);
    hide Intercept, Level;
    var e := b.x.v - (Level(b) + b.sea.coef.v);
    var level := b.NewIntercept().v;
    Corrected(b.beta, level - b.hw.coef.v, b.hw.slope.v);
    Corrected(b.gamma, b.x.v - level, b.sea.coef.v);
    hide Blend;
    Rest(e, b.alpha);
    LevelIs(b);
    hide Along;
    assert level - b.hw.coef.v - b.hw.slope.v == Along(b.hw.slope.v, b.hw.nullCount) - b.hw.slope.v + b.alpha * e;
    assert b.x.v - level - b.sea.coef.v == (1.0 - b.alpha) * e;
  }

  lemma AdditiveIntercept(b: Before)
    requires b.m.Additive? && b.Known() && b.x.Fin?
    ensures b.NewIntercept() == Fin(Level(b) + b.alpha * (b.x.v - (Level(b) + b.sea.coef.v)))
  {
    Corrected(b.alpha, b.x.v - b.sea.coef.v, Level(b));
    hide Blend;
  }

  lemma LevelIs(b: Before)
    requires b.Known()
    ensures Level(b) == b.hw.coef.v + Along(b.hw.slope.v, b.hw.nullCount)
  {
  }

  lemma Rest(e: real, alpha: real)
    ensures e - alpha * e == (1.0 - alpha) * e
  {
  }

  /** The multiplicative update: the same with the error taken relative to the seasonal coefficient and to the intercept. */
  lemma MultiplicativeCorrection(b: Before)
    requires b.m.Multiplicative? && b.Known() && b.x.Fin? && b.sea.coef.v > 0.0
    ensures b.Prediction() == Fin(Level(b) * b.sea.coef.v)
    ensures var e := b.x.v - b.Prediction().v;
            b.HwNext().coef == Fin(Level(b) + b.alpha * (e / b.sea.coef.v)) &&
            (b.HwNext().coef.v > 0.0 ==>
              b.SeaNext().val == Fin(b.sea.coef.v + b.gamma * ((1.0 - b.alpha) * e / b.HwNext().coef.v)))
  {
    PredictionIs(b);
    InterceptCorrection(b);
    var level := b.NewIntercept().v;
    if level > 0.0 {
      Corrected(b.gamma, b.x.v / level, b.sea.coef.v);
      Relative(b.x.v, b.sea.coef.v, level);
      RestOfError(b.x.v, Level(b), b.sea.coef.v, b.alpha);
    }
    hide Blend, Intercept, Predict, Level;
  }

  lemma InterceptCorrection(b: Before)
    requires b.m.Multiplicative? && b.Known() && b.x.Fin? && b.sea.coef.v > 0.0
    ensures b.NewIntercept() == Fin(Level(b) + b.alpha * ((b.x.v - Level(b) * b.sea.coef.v) / b.sea.coef.v))
  {
    Corrected(b.alpha, b.x.v / b.sea.coef.v, Level(b));
    Relative(b.x.v, Level(b), b.sea.coef.v);
    hide Blend;
  }

  lemma Relative(x: real, a: real, s: real)
    requires s > 0.0
    ensures x / s - a == (x - a * s) / s
  {
    assert a * s / s == a;
  }

  lemma RestOfError(x: real, base: real, s: real, alpha: real)
    requires s > 0.0
    ensures var e := x - base * s; x - s * (base + alpha * (e / s)) == (1.0 - alpha) * e
  {
    var e := x - base * s;
    var q := e / s;
    assert s * q == e;
    assert s * (base + alpha * q) == s * base + alpha * (s * q);
  }

  /** The deviation takes up its weight of the absolute error. */
  lemma DeviationCorrection(b: Before)
    requires b.Known() && b.Prediction().Fin? && b.x.Fin?
    ensures b.dev.coef.Fin? ==>
      b.DevNext().val == Fin(b.dev.coef.v + b.devGamma * (Distance(b.x, b.Prediction()).v - b.dev.coef.v))
    ensures b.dev.coef.NaN? ==> b.DevNext().val == Distance(b.x, b.Prediction())
  {
    if b.dev.coef.Fin? { Corrected(b.devGamma, Distance(b.Prediction(), b.x).v, b.dev.coef.v); }
    hide Blend;
  }

  // ----- what is kept and what moves on

  /** An update keeps what was before as the last state, takes over the coefficients for the next time, and stores as predicted
      deviation the one that was expected. */
  lemma MovesOn(b: Before)
    ensures b.SeaNext().lastCoef == b.sea.coef && b.SeaNext().coef == b.nextSea
    ensures b.DevNext().lastCoef == b.dev.coef && b.DevNext().coef == b.nextDev && b.DpNext().val == b.dev.coef
    ensures b.Known() ==> b.HwNext().lastCoef == b.hw.coef && b.HwNext().lastSlope == b.hw.slope &&
                          b.HwNext().lastNullCount == b.hw.nullCount && b.HwNext().val == b.Prediction()
  {
  }

  /** An unknown value changes no coefficient, and without a prediction there is no deviation. */
  lemma UnknownKeeps(b: Before)
    requires b.x.NaN?
    ensures b.HwNext().coef == b.hw.coef && b.HwNext().slope == b.hw.slope && b.SeaNext().val == b.sea.coef
    ensures b.Known() ==> b.DevNext().val == b.dev.coef
    ensures !b.Known() ==> b.HwNext().nullCount == b.hw.nullCount && b.DevNext().val.NaN? && b.HwNext().val.NaN?
  {
  }

  /** The first known value becomes the intercept, without a slope and without a season; as long as the season has no coefficient
      of its own for the time, intercept and slope stay. */
  lemma Starts(b: Before)
    requires b.x.Fin? && !b.Known()
    ensures b.hw.coef.NaN? ==>
      b.HwNext().coef == b.x && b.HwNext().slope == Fin(0.0) && b.HwNext().nullCount == 1 && b.SeaNext().val == Identity(b.m)
    ensures b.hw.coef.Fin? ==>
      b.HwNext().coef == b.hw.coef && b.HwNext().slope == b.hw.slope && b.HwNext().nullCount == b.hw.nullCount
    ensures b.hw.coef.Fin? && b.hw.slope.Fin? ==> b.SeaNext().val == InitSeasonality(b.m, b.x, b.hw.coef)
    ensures b.HwNext().val.NaN? && b.DevNext().val.NaN?
  {
  }

  /** An observation over the whole state: each area goes on from its own, the rows written are what was stored, and the
      coefficients for the next time are those two rows on. */
  lemma ObserveAreas(p: Params, s: State, x: Val)
    requires s.season.Valid() && s.deviations.Valid()
    ensures var t, n, d := Step(p, s, Observe(x)), |s.season.rows|, |s.deviations.rows|;
            t.sea.lastCoef == s.sea.coef && t.dev.lastCoef == s.dev.coef && t.dp.val == s.dev.coef &&
            t.sea.coef == s.season.rows[(s.season.cur + 2) % n] && t.dev.coef == s.deviations.rows[(s.deviations.cur + 2) % d] &&
            t.season == Ring(s.season.rows[(s.season.cur + 1) % n := t.sea.val], (s.season.cur + 1) % n) &&
            t.deviations == Ring(s.deviations.rows[(s.deviations.cur + 1) % d := t.dev.val], (s.deviations.cur + 1) % d)
  {
    MovesOn(BeforeUpdate(p, s, x));
    hide Predict, Intercept, Slope, Seasonality, Deviation, InitSeasonality, Before.SeaValue, Before.DevValue, Before.HwNext;
  }

  /** A reset forgets everything: the next known value starts over. */
  lemma StartsOver(p: Params, s: State, x: Val)
    requires s.season.Valid() && s.deviations.Valid()
    ensures var t := Step(p, s, Reset);
            t.season.Valid() && t.deviations.Valid() && Inv(t) && !BeforeUpdate(p, t, x).Known() && t.hw.coef.NaN? &&
            t.sea.lastCoef.NaN? && t.dev.lastCoef.NaN? && t.hw.lastCoef.NaN? && t.season.AllUnknown() && t.deviations.AllUnknown()
  {
  }

  // ----- unknown stretches

  /** The seasonal coefficient for the k-th observation from now on. */
  function Coefficient(s: State, k: nat): Val
    requires s.season.Valid()
  {
    s.season.rows[(s.season.cur + 1 + k) % |s.season.rows|]
  }

  /** Intercept, slope and season are known, and the SEASONAL archive holds the coefficient for the next observation. */
  ghost predicate Ready(s: State) {
    s.season.Valid() && s.deviations.Valid() && s.hw.coef.Fin? && s.hw.slope.Fin? && s.season.AllKnown() &&
    s.sea.coef == Coefficient(s, 0)
  }

  function Unknowns(n: nat): (es: seq<Event>)
    ensures |es| == n && forall i :: 0 <= i < n ==> es[i] == Observe(NaN)
  {
    seq(n, _ => Observe(NaN))
  }

  /** The season goes on by one interval and keeps its coefficients if the one written is the one that was there. */
  lemma SeasonMoves(s: State, t: State, k: nat)
    requires Ready(s) && t.season == s.season.Write(s.sea.coef)
    ensures t.season.rows == s.season.rows && t.season.cur == s.season.Next()
    ensures Coefficient(t, k) == Coefficient(s, k + 1) && s.season.Ahead() == Coefficient(s, 1)
  {
    var n, cur := |s.season.rows|, s.season.cur;
    ModOfMod(cur + 1, k + 1, n);
  }

  lemma ModOfMod(a: nat, b: nat, n: nat)
    requires n > 0
    ensures (a % n + b) % n == (a + b) % n
  {
    hide A.Mul;
    A.Quotient(a, n);
    A.Quotient(a % n + b, n);
    A.MulAdd(n, a / n, (a % n + b) / n);
    A.Divide(a + b, n, a / n + (a % n + b) / n, (a % n + b) % n);
  }

  /** An unknown observation changes nothing but the count, and the season moves on. */
  lemma UnknownStep(p: Params, s: State, k: nat)
    requires Ready(s)
    ensures var t := Step(p, s, Observe(NaN));
            Ready(t) && t.hw.coef == s.hw.coef && t.hw.slope == s.hw.slope && t.hw.nullCount == s.hw.nullCount + 1 &&
            Coefficient(t, k) == Coefficient(s, k + 1)
  {
    var t := Step(p, s, Observe(NaN));
    hide Ring.Write, Ring.Ahead, Predict;
    SeasonMoves(s, t, k);
    SeasonMoves(s, t, 0);
  }

  /** After n unknown observations in a row the prediction has moved n times along the slope, with the coefficient of the
      season that belongs to its time. */
  lemma {:induction false} UnknownStretch(p: Params, first: State, n: nat, last: State, x: Val)
    requires Ready(first) && IsRun(p, first, Unknowns(n), last)
    ensures Ready(last) && last.hw.coef == first.hw.coef && last.hw.slope == first.hw.slope
    ensures last.hw.nullCount == first.hw.nullCount + n && Coefficient(last, 0) == Coefficient(first, n)
    ensures var base, c := first.hw.coef.v + Along(first.hw.slope.v, first.hw.nullCount + n), Coefficient(first, n).v;
            BeforeUpdate(p, last, x).Prediction() == Fin(if p.m.Additive? then base + c else base * c)
    decreases n
  {
    hide Step, Coefficient;
    StretchEnd(p, first, n, last);
    PredictionOf(p, last, x);
  }

  lemma {:induction false} StretchEnd(p: Params, first: State, n: nat, last: State)
    requires Ready(first) && IsRun(p, first, Unknowns(n), last)
    ensures Ready(last) && last.hw.coef == first.hw.coef && last.hw.slope == first.hw.slope
    ensures last.hw.nullCount == first.hw.nullCount + n && Coefficient(last, 0) == Coefficient(first, n)
    decreases n
  {
    hide Step, Coefficient, Ready;
    if n > 0 {
      UnknownStep(p, first, n - 1);
      assert Unknowns(n)[1..] == Unknowns(n - 1);
      StretchEnd(p, Step(p, first, Observe(NaN)), n - 1, last);
    }
  }

  lemma PredictionOf(p: Params, s: State, x: Val)
    requires Ready(s)
    ensures Coefficient(s, 0).Fin?
    ensures var base, c := s.hw.coef.v + Along(s.hw.slope.v, s.hw.nullCount), Coefficient(s, 0).v;
            BeforeUpdate(p, s, x).Prediction() == Fin(if p.m.Additive? then base + c else base * c)
  {
  }

  // ----- exact signals

  /** The additive method, in a state without unknown observations behind it, when the signal is what it predicts. */
  ghost predicate Tracks(p: Params, s: State) {
    p.m.Additive? && Ready(s) && s.hw.nullCount == 1
  }

  /** The signal that goes on from here along the slope, with the season on top. */
  function Signal(s: State, k: nat): Val
    requires Ready(s)
  {
    Fin(s.hw.coef.v + Along(s.hw.slope.v, k + 1) + Coefficient(s, k).v)
  }

  function Signals(s: State, n: nat): (es: seq<Event>)
    requires Ready(s)
    ensures |es| == n && forall k :: 0 <= k < n ==> es[k] == Observe(Signal(s, k))
  {
    seq(n, k requires 0 <= k < n => Observe(Signal(s, k)))
  }

  lemma SignalStep(p: Params, s: State)
    requires Tracks(p, s)
    ensures BeforeUpdate(p, s, Signal(s, 0)).Prediction() == Signal(s, 0)
    ensures var t := Step(p, s, Observe(Signal(s, 0)));
            Tracks(p, t) && t.hw.slope == s.hw.slope && t.hw.coef == Fin(s.hw.coef.v + s.hw.slope.v) &&
            forall k: nat :: Coefficient(t, k) == Coefficient(s, k + 1)
  {
    var t := Step(p, s, Observe(Signal(s, 0)));
    SignalUpdate(p, s);
    hide Before.HwNext, Before.SeaValue, Before.Prediction, Ring.Write, Ring.Ahead, Signal;
    forall k: nat ensures Coefficient(t, k) == Coefficient(s, k + 1) {
      SeasonMoves(s, t, k);
    }
    SeasonMoves(s, t, 0);
  }

  lemma SignalUpdate(p: Params, s: State)
    requires Tracks(p, s)
    ensures var b := BeforeUpdate(p, s, Signal(s, 0));
            b.Prediction() == Signal(s, 0) && b.HwNext().coef == Fin(s.hw.coef.v + s.hw.slope.v) &&
            b.HwNext().slope == s.hw.slope && b.HwNext().nullCount == 1 && b.SeaValue() == s.sea.coef
  {
    var b := BeforeUpdate(p, s, Signal(s, 0));
    PredictionIs(b);
    AdditiveCorrection(b);
    hide Predict, Intercept, Slope, Seasonality, Ring.Ahead;
  }

  /** A linear trend with a season on top, once learned, is predicted exactly for ever, whatever the weights. */
  lemma {:induction false} ExactSignal(p: Params, first: State, n: nat, last: State)
    requires Tracks(p, first) && IsRun(p, first, Signals(first, n), last)
    ensures Tracks(p, last) && last.hw.slope == first.hw.slope
    ensures BeforeUpdate(p, last, Signal(first, n)).Prediction() == Signal(first, n)
    decreases n
  {
    hide Step, Coefficient;
    if n == 0 {
      SignalStep(p, first);
    } else {
      var s := Step(p, first, Observe(Signal(first, 0)));
      SignalStep(p, first);
      forall k: nat ensures Signal(s, k) == Signal(first, k + 1) {
        AlongNext(first.hw.slope.v, k + 1);
      }
      assert Signals(first, n)[1..] == Signals(s, n - 1);
      ExactSignal(p, s, n - 1, last);
    }
  }

  /** After n unknown observations such a signal is still predicted exactly, but the next observation makes the slope steeper by
      beta * n, so that it is kept if and only if nothing was unknown, beta is zero, or there is no trend. */
  lemma SlopeAfterGap(p: Params, first: State, n: nat, last: State)
    requires Tracks(p, first) && IsRun(p, first, Unknowns(n), last)
    ensures last.season.Valid() && last.deviations.Valid()
    ensures BeforeUpdate(p, last, Signal(first, n)).Prediction() == Signal(first, n)
    ensures var t := Step(p, last, Observe(Signal(first, n)));
            t.hw.coef == Fin(first.hw.coef.v + Along(first.hw.slope.v, n + 1)) &&
            t.hw.slope == Fin(first.hw.slope.v + p.beta * Along(first.hw.slope.v, n)) &&
            (t.hw.slope == first.hw.slope <==> n == 0 || p.beta == 0.0 || first.hw.slope == Fin(0.0))
  {
    hide Step, Coefficient, IsRun, Along, Before.HwNext, Before.Prediction, Before.Known, Level, Signal, Ready;
    GapPrediction(p, first, n, last);
    HwOfStep(p, last, Signal(first, n));
    var b := BeforeUpdate(p, last, Signal(first, n));
    AfterGap(b);
    LevelIs(b);
    Steeper(first.hw.slope.v, p.beta, n);
  }

  lemma GapPrediction(p: Params, first: State, n: nat, last: State)
    requires Tracks(p, first) && IsRun(p, first, Unknowns(n), last)
    ensures last.season.Valid() && last.deviations.Valid()
    ensures var b := BeforeUpdate(p, last, Signal(first, n));
            b.m.Additive? && b.beta == p.beta && b.Known() && b.x == b.Prediction() && b.hw.coef == first.hw.coef &&
            b.hw.slope == first.hw.slope && b.hw.nullCount == n + 1 && first.hw.coef.Fin? && first.hw.slope.Fin?
  {
    hide Step, IsRun, Along;
    UnknownStretch(p, first, n, last, Signal(first, n));
    hide Coefficient;
  }

  /** An exact prediction after a gap. */
  lemma AfterGap(b: Before)
    requires b.m.Additive? && b.Known() && b.x == b.Prediction()
    ensures b.HwNext().coef == Fin(Level(b))
    ensures b.HwNext().slope == Fin(b.hw.slope.v + b.beta * (Along(b.hw.slope.v, b.hw.nullCount) - b.hw.slope.v))
  {
    AdditiveCorrection(b);
    hide Before.HwNext, Before.SeaNext, Level;
  }

  lemma HwOfStep(p: Params, s: State, x: Val)
    requires s.season.Valid() && s.deviations.Valid()
    ensures Step(p, s, Observe(x)).hw == BeforeUpdate(p, s, x).HwNext()
  {
  }

  lemma Steeper(slope: real, beta: real, n: nat)
    ensures Along(slope, n + 1) - slope == Along(slope, n)
    ensures beta * Along(slope, n) == 0.0 <==> n == 0 || beta == 0.0 || slope == 0.0
  {
  }

  // ----- failures

  /** The corridor: with the deltas and the deviation not negative, a value above the prediction is a violation if its error
      exceeds the positive delta's share of the deviation, and one below it if its error exceeds the negative delta's. */
  lemma Corridor(x: real, prediction: real, deviation: real, deltaPos: real, deltaNeg: real)
    requires deviation >= 0.0 && deltaPos >= 0.0 && deltaNeg >= 0.0
    ensures var error := Distance(Fin(x), Fin(prediction)).v;
            IsViolation(Fin(x), Fin(prediction), Fin(deviation), deltaPos, deltaNeg) <==>
            error > (if x >= prediction then deltaPos else deltaNeg) * deviation
  {
    assert deltaPos * deviation >= 0.0 && deltaNeg * deviation >= 0.0;
  }

  /** Positions of the violations in a window. */
  function Where(window: seq<bool>): set<nat> { set i: nat | i < |window| && window[i] }

  lemma {:induction false} CountIs(window: seq<bool>)
    ensures CountTrue(window) == |Where(window)|
  {
    if window != [] {
      var n := |window| - 1;
      CountIs(window[..n]);
      assert Where(window) == Where(window[..n]) + if window[n] then {n} else {};
    }
  }

  /** An unknown value is a violation, as long as the deviation is known; a known one if it lies outside the corridor. */
  lemma ViolatedIff(b: Before, def: Def, deviation: Val)
    requires deviation.Fin? ==> deviation.v >= 0.0
    requires def.deltaPos >= 0.0 && def.deltaNeg >= 0.0
    ensures deviation.NaN? ==> !Violated(b, def, deviation)
    ensures deviation.Fin? && b.x.NaN? ==> Violated(b, def, deviation)
    ensures deviation.Fin? && b.x.Fin? && b.Prediction().NaN? ==> !Violated(b, def, deviation)
    ensures deviation.Fin? && b.x.Fin? && b.Prediction().Fin? ==>
      (Violated(b, def, deviation) <==>
       Distance(b.x, b.Prediction()).v > (if b.x.v >= b.Prediction().v then def.deltaPos else def.deltaNeg) * deviation.v)
  {
    if deviation.Fin? && b.x.Fin? && b.Prediction().Fin? {
      Corridor(b.x.v, b.Prediction().v, deviation.v, def.deltaPos, def.deltaNeg);
    }
    hide IsViolation;
  }

  /** The violations of a run of updates of a FAILURES archive, newest first, in front of what was there. */
  ghost predicate FailRun(def: Def, f: Cdp, updates: seq<(Before, Val)>, g: Cdp, recent: seq<bool>)
    requires |f.violations| == def.windowLen > 0
    decreases |updates|
  {
    if updates == [] then g == f && recent == []
    else
      recent != [] && recent[|recent| - 1] == Violated(updates[0].0, def, updates[0].1) &&
      FailRun(def, FailNext(updates[0].0, def, f, updates[0].1), updates[1..], g, recent[..|recent| - 1])
  }

  /** Over every run: the window holds what the last updates were, newest first, and a failure is stored exactly if at least
      `threshold` of them were violations. */
  lemma {:induction false} WindowIsRecent(def: Def, f: Cdp, updates: seq<(Before, Val)>, g: Cdp, recent: seq<bool>)
    requires |f.violations| == def.windowLen > 0 && FailRun(def, f, updates, g, recent)
    ensures |recent| == |updates| && g.violations == (recent + f.violations)[..def.windowLen]
    ensures updates != [] ==> g.val == if |Where(g.violations)| >= def.threshold then Fin(1.0) else Fin(0.0)
    decreases |updates|
  {
    hide Violated, CountTrue, Where;
    CountIs(g.violations);
    if updates != [] {
      var v := recent[|recent| - 1];
      var f' := FailNext(updates[0].0, def, f, updates[0].1);
      WindowIsRecent(def, f', updates[1..], g, recent[..|recent| - 1]);
      Pushed(recent[..|recent| - 1], v, f.violations, def.windowLen);
      assert recent == recent[..|recent| - 1] + [v];
    }
  }

  lemma Pushed(front: seq<bool>, v: bool, window: seq<bool>, n: nat)
    requires |window| == n > 0
    ensures (front + ([v] + window[..n - 1]))[..n] == (front + [v] + window)[..n]
  {
  }
}
