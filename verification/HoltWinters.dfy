/** The formulas of the Holt-Winters methods (rrd_hw_math.c). Unknown values make results unknown. */
module HwMath {
  import opened Values

  datatype Model = Additive | Multiplicative

  function Plus(a: Val, b: Val): Val { if a.Fin? && b.Fin? then Fin(a.v + b.v) else NaN }

  function Minus(a: Val, b: Val): Val { if a.Fin? && b.Fin? then Fin(a.v - b.v) else NaN }

  function Times(a: Val, b: Val): Val { if a.Fin? && b.Fin? then Fin(a.v * b.v) else NaN }

  /** The quotient; unknown unless the divisor is positive, as the callers make sure. */
  function Over(a: Val, b: Val): Val { if a.Fin? && b.Fin? && b.v > 0.0 then Fin(a.v / b.v) else NaN }

  function Distance(a: Val, b: Val): Val {
    if a.Fin? && b.Fin? then Fin(if a.v < b.v then b.v - a.v else a.v - b.v) else NaN
  }

  /** Weighted by w and by what is left of 1. */
  function Blend(w: real, a: Val, b: Val): Val { Plus(Times(Fin(w), a), Times(Fin(1.0 - w), b)) }

  function Baseline(intercept: Val, slope: Val, n: nat): Val { Plus(intercept, Times(slope, Fin(n as real))) }

  function Predict(m: Model, intercept: Val, slope: Val, n: nat, seasonal: Val): Val {
    match m
    case Additive => Plus(Baseline(intercept, slope, n), seasonal)
    case Multiplicative => Times(Baseline(intercept, slope, n), seasonal)
  }

  function Intercept(m: Model, alpha: real, x: Val, seasonal: Val, intercept: Val, slope: Val, n: nat): Val {
    Blend(alpha, if m.Additive? then Minus(x, seasonal) else Over(x, seasonal), Baseline(intercept, slope, n))
  }

  function Slope(beta: real, intercept: Val, lastIntercept: Val, slope: Val): Val {
    Blend(beta, Minus(intercept, lastIntercept), slope)
  }

  function Seasonality(m: Model, gamma: real, x: Val, intercept: Val, seasonal: Val): Val {
    Blend(gamma, if m.Additive? then Minus(x, intercept) else Over(x, intercept), seasonal)
  }

  function InitSeasonality(m: Model, x: Val, intercept: Val): Val {
    if m.Additive? then Minus(x, intercept) else Over(x, intercept)
  }

  function Deviation(gamma: real, prediction: Val, x: Val, last: Val): Val {
    Blend(gamma, Distance(prediction, x), last)
  }

  function Identity(m: Model): Val { if m.Additive? then Fin(0.0) else Fin(1.0) }
}

/** Updating the Holt-Winters archives one after the other (rrd_hw_update.c). */
module HoltWinters {
  import opened Values
  import opened HwMath

  /** The preparation area of one archive. One slot is the intercept of an HWPREDICT archive, the seasonal coefficient of a
      SEASONAL one and the seasonal deviation of a DEVSEASONAL one, and likewise for its last value. `val` takes the
      observed value and then what is stored in the archive. A FAILURES archive keeps its window in the same area. */
  datatype Cdp = Cdp(coef: Val, lastCoef: Val, slope: Val, lastSlope: Val, nullCount: nat, lastNullCount: nat, val: Val,
                     violations: seq<bool>)

  datatype Cf = HwPredict | MhwPredict | Seasonal | DevSeasonal | DevPredict | Failures | Other

  /** Parameters of an archive; `dep` is the archive it depends on. */
  datatype Def = Def(cf: Cf, dep: nat, alpha: real, beta: real, gamma: real, deltaPos: real, deltaNeg: real,
                     windowLen: nat, threshold: nat)

  // ----- the update without any order

  /** Everything that one update starts from: the areas of the four archives, the observed value, and the coefficients
      that the seasonal archives hold for the next time. */
  datatype Before = Before(m: Model, alpha: real, beta: real, gamma: real, devGamma: real,
                           hw: Cdp, sea: Cdp, dev: Cdp, dp: Cdp, x: Val, nextSea: Val, nextDev: Val) {

    /** Intercept, slope and seasonal coefficient are known. */
    predicate Known() { hw.coef.Fin? && hw.slope.Fin? && sea.coef.Fin? }

    function Prediction(): Val {
      if Known() then Predict(m, hw.coef, hw.slope, hw.nullCount, sea.coef) else NaN
    }

    function NewIntercept(): Val {
      Intercept(m, alpha, x, sea.coef, hw.coef, hw.slope, hw.nullCount)
    }

    function HwNext(): Cdp {
      if !Known() then
        if hw.coef.NaN? && x.Fin? then Cdp(x, x, Fin(0.0), Fin(0.0), 1, 1, NaN, hw.violations)
        else Cdp(hw.coef, hw.coef, hw.slope, hw.slope, hw.nullCount, hw.nullCount, NaN, hw.violations)
      else if x.NaN? then
        Cdp(hw.coef, hw.coef, hw.slope, hw.slope, hw.nullCount + 1, hw.nullCount, Prediction(), hw.violations)
      else
        Cdp(NewIntercept(), hw.coef, Slope(beta, NewIntercept(), hw.coef, hw.slope), hw.slope, 1, hw.nullCount, Prediction(),
            hw.violations)
    }

    function SeaValue(): Val {
      if x.NaN? then sea.coef
      else if hw.coef.NaN? || hw.slope.NaN? then Identity(m)
      else if sea.coef.NaN? then InitSeasonality(m, x, hw.coef)
      else Seasonality(m, gamma, x, NewIntercept(), sea.coef)
    }

    function SeaNext(): Cdp { sea.(coef := nextSea, lastCoef := sea.coef, val := SeaValue()) }

    function DevValue(): Val {
      if !Known() then NaN
      else if x.NaN? then dev.coef
      else if dev.coef.NaN? then Distance(Prediction(), x)
      else Deviation(devGamma, Prediction(), x, dev.coef)
    }

    function DevNext(): Cdp { dev.(coef := nextDev, lastCoef := dev.coef, val := DevValue()) }

    function DpNext(): Cdp { dp.(val := dev.coef) }

    /** What the second round of an update over two steps starts from. */
    function Again(nextSea: Val, nextDev: Val): Before {
      this.(hw := HwNext(), sea := SeaNext(), dev := DevNext(), dp := DpNext(), nextSea := nextSea, nextDev := nextDev)
    }

    /** What holds from the creation on: the slope is known exactly if the intercept is, and as long as they are not, no
        seasonal coefficient or deviation is. */
    predicate Sound() {
      (hw.coef.NaN? <==> hw.slope.NaN?) && (hw.coef.NaN? ==> sea.coef.NaN? && dev.coef.NaN?)
    }

    /** The first observed value is one that the multiplicative method cannot use. */
    predicate BadStart() { m.Multiplicative? && hw.coef.NaN? && x.Fin? && x.v <= 0.0 }
  }

  /** A value that was predicted exactly changes nothing that the additive method has learned: the intercept moves on along
      the slope, slope and seasonal coefficient stay, and the deviation only fades. */
  lemma PerfectPrediction(b: Before)
    requires b.m.Additive? && b.Known() && b.x == b.Prediction() && b.dev.coef.Fin?
    ensures b.HwNext().coef == Baseline(b.hw.coef, b.hw.slope, b.hw.nullCount)
    ensures b.hw.nullCount == 1 ==> b.HwNext().slope == b.hw.slope
    ensures b.SeaNext().val == b.sea.coef && b.DevNext().val == Fin((1.0 - b.devGamma) * b.dev.coef.v)
  {
    var base := Baseline(b.hw.coef, b.hw.slope, b.hw.nullCount).v;
    BlendSame(b.alpha, base);
    BlendSame(b.gamma, b.sea.coef.v);
    BlendSame(b.beta, b.hw.slope.v);
    assert b.x.v - b.sea.coef.v == base;
    assert b.NewIntercept() == Fin(base);
  }

  lemma BlendSame(w: real, x: real)
    ensures w * x + (1.0 - w) * x == x
    ensures Blend(w, Fin(x), Fin(x)) == Fin(x)
  {
  }

  /** The weights at their ends: with weight 1 only the new value counts, with weight 0 only the old one. */
  lemma Weights(b: Before)
    requires b.m.Additive? && b.Known() && b.x.Fin?
    ensures b.alpha == 1.0 ==> b.HwNext().coef == Minus(b.x, b.sea.coef)
    ensures b.alpha == 0.0 ==> b.HwNext().coef == Baseline(b.hw.coef, b.hw.slope, b.hw.nullCount)
    ensures b.beta == 1.0 ==> b.HwNext().slope == Minus(b.HwNext().coef, b.hw.coef)
    ensures b.beta == 0.0 ==> b.HwNext().slope == b.hw.slope
    ensures b.gamma == 1.0 ==> b.SeaNext().val == Minus(b.x, b.HwNext().coef)
    ensures b.gamma == 0.0 ==> b.SeaNext().val == b.sea.coef
    ensures b.dev.coef.Fin? && b.devGamma == 1.0 ==> b.DevNext().val == Distance(b.Prediction(), b.x)
  {
  }

  /** Positions of the archives of a group in the file. */
  datatype Indices = Indices(hw: nat, sea: nat, dev: nat, dp: nat, fail: nat)

  // ----- failures

  function CountTrue(s: seq<bool>): nat {
    if s == [] then 0 else CountTrue(s[..|s| - 1]) + (if s[|s| - 1] then 1 else 0)
  }

  /** `hw_is_violation`: C comparisons, which are false for unknown values. */
  predicate IsViolation(x: Val, prediction: Val, deviation: Val, deltaPos: real, deltaNeg: real) {
    x.Fin? && prediction.Fin? && deviation.Fin? &&
    (x.v > prediction.v + deltaPos * deviation.v || x.v < prediction.v - deltaNeg * deviation.v)
  }

  /** A violation, given the deviation that is compared with; an unknown value counts as one. */
  predicate Violated(b: Before, def: Def, deviation: Val) {
    deviation.Fin? && (b.x.NaN? || IsViolation(b.x, b.Prediction(), deviation, def.deltaPos, def.deltaNeg))
  }

  /** The window moves on by one, and enough violations in it are a failure. */
  function FailNext(b: Before, def: Def, f: Cdp, deviation: Val): Cdp
    requires |f.violations| == def.windowLen > 0
  {
    var window := [Violated(b, def, deviation)] + f.violations[..def.windowLen - 1];
    f.(violations := window, val := if CountTrue(window) < def.threshold then Fin(0.0) else Fin(1.0))
  }

  lemma SelfQuotient(x: real)
    ensures x > 0.0 ==> x / x == 1.0
  {
  }

  // ----- the handlers

  class Rrd {
    const defs: seq<Def>
    const cdp: array<Cdp>

    constructor (defs: seq<Def>)
      ensures this.defs == defs && fresh(cdp) && cdp.Length == |defs|
    {
      this.defs := defs;
      cdp := new Cdp[|defs|](_ => Cdp(NaN, NaN, NaN, NaN, 1, 1, NaN, []));
    }

    ghost predicate Valid() {
      cdp.Length == |defs| && forall i :: 0 <= i < |defs| ==> defs[i].dep < |defs|
    }

    /** An archive in its state before or after its own update, as its index lies behind or before that of the reader. */
    ghost predicate Seen(k: nat, reader: nat, before: Cdp, next: Cdp)
      requires Valid() && k < |defs|
      reads cdp
    {
      cdp[k] == if k < reader then next else before
    }

    /** The archives that a handler reads are those of `b`, before or after their own updates, and its own area holds the
        observed value. */
    ghost predicate HwReady(i: nat, m: Model, b: Before)
      requires Valid() && i < |defs|
      reads cdp
    {
      b.m == m && b.alpha == defs[i].alpha && b.beta == defs[i].beta && cdp[i] == b.hw.(val := b.x) &&
      SeaSeen(defs[i].dep, i, b)
    }

    ghost predicate SeaReady(i: nat, m: Model, next: Val, b: Before)
      requires Valid() && i < |defs|
      reads cdp
    {
      b.m == m && b.gamma == defs[i].gamma && b.alpha == defs[defs[i].dep].alpha && b.nextSea == next &&
      cdp[i] == b.sea.(val := b.x) && Seen(defs[i].dep, i, b.hw, b.HwNext())
    }

    ghost predicate DevReady(i: nat, m: Model, next: Val, b: Before)
      requires Valid() && i < |defs|
      reads cdp
    {
      b.m == m && b.devGamma == defs[i].gamma && b.nextDev == next && cdp[i] == b.dev.(val := b.x) &&
      Seen(defs[i].dep, i, b.hw, b.HwNext()) && SeaSeen(defs[defs[i].dep].dep, i, b)
    }

    ghost predicate DpReady(i: nat, b: Before)
      requires Valid() && i < |defs|
      reads cdp
    {
      cdp[i] == b.dp.(val := b.x) && Seen(defs[i].dep, i, b.dev, b.DevNext())
    }

    /** The coefficients of the SEASONAL archive; its stored value does not matter to the others. */
    ghost predicate SeaSeen(k: nat, reader: nat, b: Before)
      requires Valid() && k < |defs|
      reads cdp
    {
      if k < reader then cdp[k].coef == b.nextSea && cdp[k].lastCoef == b.sea.coef else cdp[k].coef == b.sea.coef
    }

    /** `update_hwpredict`. */
    method UpdateHwPredict(i: nat, m: Model, ghost b: Before)
      requires Valid() && i < |defs| && defs[i].dep != i
      modifies cdp
      ensures forall j :: 0 <= j < |defs| && j != i ==> cdp[j] == old(cdp[j])
      ensures old(HwReady(i, m, b)) ==> cdp[i] == b.HwNext()
    {
      hide Predict, Intercept, Slope;
      var def := defs[i];
      var c := cdp[i];
      c := c.(lastCoef := c.coef, lastSlope := c.slope, lastNullCount := c.nullCount);
      var seasonalCoef := if def.dep < i then cdp[def.dep].lastCoef else cdp[def.dep].coef;
      var prediction := NaN;
      if c.coef.NaN? || c.slope.NaN? || seasonalCoef.NaN? {
        if c.coef.NaN? && !c.val.NaN? {
          c := c.(coef := c.val, lastCoef := c.val, slope := Fin(0.0), lastSlope := Fin(0.0), nullCount := 1, lastNullCount := 1);
        }
      } else {
        prediction := Predict(m, c.coef, c.slope, c.nullCount, seasonalCoef);
        if c.val.NaN? {
          c := c.(nullCount := c.nullCount + 1);
        } else {
          c := c.(coef := Intercept(m, def.alpha, c.val, seasonalCoef, c.coef, c.slope, c.nullCount));
          c := c.(slope := Slope(def.beta, c.coef, c.lastCoef, c.slope));
          c := c.(nullCount := 1);
        }
      }
      cdp[i] := c.(val := prediction);
    }

    /** `update_seasonal`; `next` is the coefficient that the archive holds for the next time. */
    method UpdateSeasonal(i: nat, m: Model, next: Val, ghost b: Before)
      requires Valid() && i < |defs| && defs[i].dep != i
      modifies cdp
      ensures forall j :: 0 <= j < |defs| && j != i ==> cdp[j] == old(cdp[j])
      ensures b.Sound() && old(SeaReady(i, m, next, b)) ==>
        cdp[i] == if defs[i].dep < i && b.BadStart() then b.SeaNext().(val := NaN) else b.SeaNext()
    {
      hide Intercept, Seasonality, Slope;
      var def := defs[i];
      var hw := cdp[def.dep];
      var seasonal := cdp[i].coef;
      cdp[i] := cdp[i].(lastCoef := seasonal, coef := next);
      if cdp[i].val.NaN? {
        cdp[i] := cdp[i].(val := seasonal);
        return;
      }
      var x := cdp[i].val;
      SelfQuotient(x.v);
      var v;
      if def.dep < i {
        if hw.lastCoef.NaN? || hw.lastSlope.NaN? {
          v := NaN;
        } else if seasonal.NaN? {
          v := InitSeasonality(m, x, hw.lastCoef);
        } else {
          v := Seasonality(m, def.gamma, x, hw.coef, seasonal);
        }
      } else {
        if hw.coef.NaN? || hw.slope.NaN? {
          v := Identity(m);
        } else if seasonal.NaN? {
          v := InitSeasonality(m, x, hw.coef);
        } else {
          v := Seasonality(m, def.gamma, x, Intercept(m, defs[def.dep].alpha, x, seasonal, hw.coef, hw.slope, hw.nullCount), seasonal);
        }
      }
      cdp[i] := cdp[i].(val := v);
    }

    /** `update_devpredict`. */
    method UpdateDevPredict(i: nat, ghost b: Before)
      requires Valid() && i < |defs| && defs[i].dep != i
      modifies cdp
      ensures forall j :: 0 <= j < |defs| && j != i ==> cdp[j] == old(cdp[j])
      ensures old(DpReady(i, b)) ==> cdp[i] == b.DpNext()
    {
      var dev := cdp[defs[i].dep];
      cdp[i] := cdp[i].(val := if defs[i].dep < i then dev.lastCoef else dev.coef);
    }

    /** `update_devseasonal`. */
    method UpdateDevSeasonal(i: nat, m: Model, next: Val, ghost b: Before)
      requires Valid() && i < |defs| && defs[i].dep != i && defs[defs[i].dep].dep != i
      modifies cdp
      ensures forall j :: 0 <= j < |defs| && j != i ==> cdp[j] == old(cdp[j])
      ensures b.Sound() && old(DevReady(i, m, next, b)) ==> cdp[i] == b.DevNext()
    {
      hide Intercept, Slope, Predict, Deviation;
      var hwIdx := defs[i].dep;
      var seaIdx := defs[hwIdx].dep;
      var hw := cdp[hwIdx];
      var c := cdp[i];
      c := c.(lastCoef := c.coef, coef := next);
      var seasonalCoef := if seaIdx < i then cdp[seaIdx].lastCoef else cdp[seaIdx].coef;
      var prediction;
      if hwIdx < i {
        if hw.lastCoef.NaN? || hw.lastSlope.NaN? || seasonalCoef.NaN? {
          cdp[i] := c.(val := NaN);
          return;
        }
        prediction := Predict(m, hw.lastCoef, hw.lastSlope, hw.lastNullCount, seasonalCoef);
      } else {
        if hw.coef.NaN? || hw.slope.NaN? || seasonalCoef.NaN? {
          cdp[i] := c.(val := NaN);
          return;
        }
        prediction := Predict(m, hw.coef, hw.slope, hw.nullCount, seasonalCoef);
      }
      if c.val.NaN? {
        c := c.(val := c.lastCoef);
      } else if c.lastCoef.NaN? {
        c := c.(val := Distance(prediction, c.val));
      } else {
        c := c.(val := Deviation(defs[i].gamma, prediction, c.val, c.lastCoef));
      }
      cdp[i] := c;
    }

    /** The deviation that `update_failures` finds. It goes by the index of the SEASONAL archive instead of that of the
        DEVSEASONAL one, so between the two it takes the deviation of the next or of the last time. */
    function DeviationRead(i: nat, b: Before): Val
      requires Valid() && i < |defs|
    {
      var dev := defs[i].dep;
      var sea := defs[defs[dev].dep].dep;
      if i < sea then (if dev < i then b.nextDev else b.dev.coef)
      else (if dev < i then b.dev.coef else b.dev.lastCoef)
    }

    ghost predicate FailReady(i: nat, m: Model, b: Before, f: Cdp)
      requires Valid() && i < |defs|
      reads cdp
    {
      var dev := defs[i].dep;
      var hw := defs[dev].dep;
      b.m == m && cdp[i] == f.(val := b.x) && |f.violations| == defs[i].windowLen > 0 &&
      Seen(dev, i, b.dev, b.DevNext()) && Seen(hw, i, b.hw, b.HwNext()) && SeaSeen(defs[hw].dep, i, b)
    }

    /** `update_failures`. */
    method UpdateFailures(i: nat, m: Model, ghost b: Before, ghost f: Cdp)
      requires Valid() && i < |defs| && |cdp[i].violations| == defs[i].windowLen > 0
      requires var dev := defs[i].dep; i != dev && i != defs[dev].dep && i != defs[defs[dev].dep].dep
      modifies cdp
      ensures forall j :: 0 <= j < |defs| && j != i ==> cdp[j] == old(cdp[j])
      ensures |cdp[i].violations| == defs[i].windowLen
      ensures b.Sound() && old(FailReady(i, m, b, f)) ==>
        cdp[i] == FailNext(b, defs[i], f, DeviationRead(i, b))
    {
      hide Predict, Intercept, Slope, CountTrue;
      var def := defs[i];
      var devIdx := def.dep;
      var hwIdx := defs[devIdx].dep;
      var seaIdx := defs[hwIdx].dep;
      var deviation := if i < seaIdx then cdp[devIdx].coef else cdp[devIdx].lastCoef;
      var violation := false;
      if !deviation.NaN? {
        var seasonalCoef := if i < seaIdx then cdp[seaIdx].coef else cdp[seaIdx].lastCoef;
        var hw := cdp[hwIdx];
        var prediction := if i < hwIdx then Predict(m, hw.coef, hw.slope, hw.nullCount, seasonalCoef)
                          else Predict(m, hw.lastCoef, hw.lastSlope, hw.lastNullCount, seasonalCoef);
        PredictUnknown(m, hw.coef, hw.slope, hw.nullCount, seasonalCoef);
        PredictUnknown(m, hw.lastCoef, hw.lastSlope, hw.lastNullCount, seasonalCoef);
        violation := cdp[i].val.NaN? || IsViolation(cdp[i].val, prediction, deviation, def.deltaPos, def.deltaNeg);
      }
      var window, count := ShiftWindow(cdp[i].violations, violation);
      cdp[i] := cdp[i].(violations := window, val := if count < def.threshold then Fin(0.0) else Fin(1.0));
    }

    /** Dependencies lead to archives of the right kind, and so never back to the archive itself. */
    ghost predicate Linked(i: nat)
      requires Valid() && i < |defs|
    {
      var d := defs[i].dep;
      match defs[i].cf
      case HwPredict | MhwPredict => defs[d].cf == Seasonal
      case Seasonal => defs[d].cf == HwPredict || defs[d].cf == MhwPredict
      case DevSeasonal => defs[d].cf == HwPredict || defs[d].cf == MhwPredict
      case DevPredict => defs[d].cf == DevSeasonal
      case Failures => defs[d].cf == DevSeasonal && defs[i].windowLen > 0
      case Other => true
    }

    ghost predicate AllLinked()
      requires Valid()
    {
      forall i :: 0 <= i < |defs| ==> Linked(i)
    }

    ghost predicate Windows()
      requires Valid()
      reads cdp
    {
      forall i :: 0 <= i < |defs| && defs[i].cf == Failures ==> |cdp[i].violations| == defs[i].windowLen
    }

    function ModelOf(hw: nat): Model
      requires hw < |defs|
    {
      if defs[hw].cf == HwPredict then Additive else Multiplicative
    }

    /** The archives of one group have these indices, in any order, and the parameters of `b`. A group may lack the last
        three: an index behind the end stands for that. */
    ghost predicate Group(g: Indices, b: Before)
      requires Valid()
    {
      g.hw < |defs| && g.sea < |defs| &&
      defs[g.hw].cf == (if b.m.Additive? then HwPredict else MhwPredict) && defs[g.hw].dep == g.sea &&
      defs[g.sea].cf == Seasonal && defs[g.sea].dep == g.hw &&
      b.alpha == defs[g.hw].alpha && b.beta == defs[g.hw].beta && b.gamma == defs[g.sea].gamma &&
      (g.dev < |defs| ==> defs[g.dev].cf == DevSeasonal && defs[g.dev].dep == g.hw && b.devGamma == defs[g.dev].gamma) &&
      (g.dp < |defs| ==> defs[g.dp].cf == DevPredict && defs[g.dp].dep == g.dev) &&
      (g.fail < |defs| ==> defs[g.fail].cf == Failures && defs[g.fail].dep == g.dev)
    }

    /** What becomes of the SEASONAL archive: it alone can depend on the order, and only when the multiplicative method
        starts with a value that is not positive. */
    function SeaResult(g: Indices, b: Before): Cdp {
      if g.hw < g.sea && b.BadStart() then b.SeaNext().(val := NaN) else b.SeaNext()
    }

    /** The archives below i have been updated and the others have not. */
    ghost predicate Progress(i: nat, g: Indices, b: Before, f: Cdp)
      requires Valid() && Group(g, b)
      reads cdp
    {
      cdp[g.hw] == (if g.hw < i then b.HwNext() else b.hw) &&
      cdp[g.sea] == (if g.sea < i then SeaResult(g, b) else b.sea) &&
      (g.dev < |defs| ==> cdp[g.dev] == (if g.dev < i then b.DevNext() else b.dev)) &&
      (g.dp < |defs| ==> cdp[g.dp] == (if g.dp < i then b.DpNext() else b.dp)) &&
      (g.fail < |defs| ==>
         |f.violations| == defs[g.fail].windowLen > 0 &&
         cdp[g.fail] == (if g.fail < i then FailNext(b, defs[g.fail], f, DeviationRead(g.fail, b)) else f))
    }

    /** FAILURES compares with the current deviation, whatever that is, exactly if its archive lies on the same side of the
        SEASONAL and of the DEVSEASONAL archive. */
    lemma FailuresOrder(i: nat)
      requires Valid() && i < |defs|
      ensures (forall b: Before :: DeviationRead(i, b) == b.dev.coef) <==>
        (i < defs[defs[defs[i].dep].dep].dep <==> i <= defs[i].dep)
    {
      var c := Cdp(Fin(0.0), Fin(1.0), NaN, NaN, 1, 1, NaN, []);
      var b := Before(Additive, 0.0, 0.0, 0.0, 0.0, c, c, c, c, NaN, NaN, Fin(1.0));
      assert DeviationRead(i, b) == b.dev.coef <==> (i < defs[defs[defs[i].dep].dep].dep <==> i <= defs[i].dep);
    }

    /** The turn of archive i has come. */
    ghost predicate Due(i: nat, x: Val, next: Val, g: Indices, b: Before, f: Cdp)
      reads cdp
    {
      Valid() && AllLinked() && Windows() && i < |defs| && Group(g, b) && b.Sound() && x == b.x &&
      (i == g.sea ==> next == b.nextSea) && (i == g.dev ==> next == b.nextDev) && Progress(i, g, b, f)
    }

    /** The cases of `update_aberrant_CF`. */
    method ForHwPredict(i: nat, x: Val, next: Val, ghost g: Indices, ghost b: Before, ghost f: Cdp)
      requires Due(i, x, next, g, b, f) && (defs[i].cf == HwPredict || defs[i].cf == MhwPredict)
      modifies cdp
      ensures Windows() && Progress(i + 1, g, b, f)
    {
      hide Before.HwNext, Before.SeaValue, Before.DevValue, Before.Prediction, FailNext, Before.BadStart;
      assert Linked(i) && Linked(defs[i].dep);
      cdp[i] := cdp[i].(val := x);
      UpdateHwPredict(i, ModelOf(i), b);
    }

    method ForSeasonal(i: nat, x: Val, next: Val, ghost g: Indices, ghost b: Before, ghost f: Cdp)
      requires Due(i, x, next, g, b, f) && defs[i].cf == Seasonal
      modifies cdp
      ensures Windows() && Progress(i + 1, g, b, f)
    {
      hide Before.HwNext, Before.SeaValue, Before.DevValue, Before.Prediction, FailNext, Before.BadStart;
      assert Linked(i) && Linked(defs[i].dep);
      cdp[i] := cdp[i].(val := x);
      UpdateSeasonal(i, ModelOf(defs[i].dep), next, b);
    }

    method ForDevSeasonal(i: nat, x: Val, next: Val, ghost g: Indices, ghost b: Before, ghost f: Cdp)
      requires Due(i, x, next, g, b, f) && defs[i].cf == DevSeasonal
      modifies cdp
      ensures Windows() && Progress(i + 1, g, b, f)
    {
      hide Before.HwNext, Before.SeaValue, Before.DevValue, Before.Prediction, FailNext, Before.BadStart;
      assert Linked(i) && Linked(defs[i].dep);
      cdp[i] := cdp[i].(val := x);
      UpdateDevSeasonal(i, ModelOf(defs[i].dep), next, b);
    }

    method ForDevPredict(i: nat, x: Val, next: Val, ghost g: Indices, ghost b: Before, ghost f: Cdp)
      requires Due(i, x, next, g, b, f) && defs[i].cf == DevPredict
      modifies cdp
      ensures Windows() && Progress(i + 1, g, b, f)
    {
      hide Before.HwNext, Before.SeaValue, Before.DevValue, Before.Prediction, FailNext, Before.BadStart;
      assert Linked(i) && Linked(defs[i].dep);
      cdp[i] := cdp[i].(val := x);
      UpdateDevPredict(i, b);
    }

    method ForFailures(i: nat, x: Val, next: Val, ghost g: Indices, ghost b: Before, ghost f: Cdp)
      requires Due(i, x, next, g, b, f) && defs[i].cf == Failures
      modifies cdp
      ensures Windows() && Progress(i + 1, g, b, f)
    {
      hide Before.HwNext, Before.SeaValue, Before.DevValue, Before.Prediction, FailNext, Before.BadStart;
      assert Linked(i) && Linked(defs[i].dep);
      cdp[i] := cdp[i].(val := x);
      assert Linked(defs[defs[i].dep].dep);
      UpdateFailures(i, ModelOf(defs[defs[i].dep].dep), b, f);
    }

    /** `update_aberrant_CF` for one archive. */
    method UpdateAberrantCf(i: nat, x: Val, next: Val, ghost g: Indices, ghost b: Before, ghost f: Cdp)
      requires Due(i, x, next, g, b, f)
      modifies cdp
      ensures Windows() && Progress(i + 1, g, b, f)
    {
      match defs[i].cf {
        case HwPredict | MhwPredict => ForHwPredict(i, x, next, g, b, f);
        case Seasonal => ForSeasonal(i, x, next, g, b, f);
        case DevSeasonal => ForDevSeasonal(i, x, next, g, b, f);
        case DevPredict => ForDevPredict(i, x, next, g, b, f);
        case Failures => ForFailures(i, x, next, g, b, f);
        case Other => cdp[i] := cdp[i].(val := x);
      }
    }

    /** One round over all archives: whatever the order of the archives of a group in the file, their areas end up as if
        each had been updated from what all of them were before. `next` are the coefficients that the seasonal archives
        hold for the next time. */
    method UpdateAberrantCdps(x: Val, next: seq<Val>, ghost g: Indices, ghost b: Before, ghost f: Cdp)
      requires Valid() && AllLinked() && Windows() && |next| == |defs|
      requires Group(g, b) && b.Sound() && x == b.x && next[g.sea] == b.nextSea && (g.dev < |defs| ==> next[g.dev] == b.nextDev)
      requires b.hw == cdp[g.hw] && b.sea == cdp[g.sea] && (g.dev < |defs| ==> b.dev == cdp[g.dev])
      requires (g.dp < |defs| ==> b.dp == cdp[g.dp]) && (g.fail < |defs| ==> f == cdp[g.fail])
      modifies cdp
      ensures Windows()
      ensures cdp[g.hw] == b.HwNext() && (g.dev < |defs| ==> cdp[g.dev] == b.DevNext()) && (g.dp < |defs| ==> cdp[g.dp] == b.DpNext())
      ensures cdp[g.sea] == b.SeaNext() <==> !(g.hw < g.sea && b.BadStart())
      ensures cdp[g.sea].(val := NaN) == b.SeaNext().(val := NaN)
      ensures g.fail < |defs| ==>
        |f.violations| == defs[g.fail].windowLen > 0 && cdp[g.fail] == FailNext(b, defs[g.fail], f, DeviationRead(g.fail, b))
    {
      hide Before.HwNext, Before.DevValue, Before.Prediction, FailNext;
      assert g.fail < |defs| ==> Linked(g.fail);
      var i := 0;
      while i < |defs|
        invariant 0 <= i <= |defs| && Windows() && Progress(i, g, b, f)
      {
        UpdateAberrantCf(i, x, next[i], g, b, f);
        i := i + 1;
      }
    }

    /** An update over two steps: two rounds with the same value. What the first one stores is kept for the row of the first
        step, and the second starts from what the first has left. */
    method UpdateTwoSteps(x: Val, next: seq<Val>, next': seq<Val>, ghost g: Indices, ghost b: Before, ghost f: Cdp)
      returns (primary: seq<Val>)
      requires Valid() && AllLinked() && Windows() && |next| == |next'| == |defs|
      requires Group(g, b) && b.Sound() && x == b.x && next[g.sea] == b.nextSea && (g.dev < |defs| ==> next[g.dev] == b.nextDev)
      requires b.hw == cdp[g.hw] && b.sea == cdp[g.sea] && (g.dev < |defs| ==> b.dev == cdp[g.dev])
      requires (g.dp < |defs| ==> b.dp == cdp[g.dp]) && (g.fail < |defs| ==> f == cdp[g.fail])
      requires b.Again(next'[g.sea], if g.dev < |defs| then next'[g.dev] else NaN).Sound()
      modifies cdp
      ensures |primary| == |defs| && primary[g.hw] == b.HwNext().val
      ensures primary[g.sea] == b.SeaNext().val <==> !(g.hw < g.sea && b.BadStart())
      ensures g.dev < |defs| ==> primary[g.dev] == b.DevNext().val
      ensures var c := b.Again(next'[g.sea], if g.dev < |defs| then next'[g.dev] else NaN);
              cdp[g.hw] == c.HwNext() && (g.dev < |defs| ==> cdp[g.dev] == c.DevNext()) &&
              (g.dp < |defs| ==> cdp[g.dp] == c.DpNext()) &&
              (cdp[g.sea] == c.SeaNext() <==> !(g.hw < g.sea && c.BadStart()))
      ensures g.fail < |defs| ==>
        |f.violations| == defs[g.fail].windowLen > 0 &&
        |FailNext(b, defs[g.fail], f, DeviationRead(g.fail, b)).violations| == defs[g.fail].windowLen &&
        var c := b.Again(next'[g.sea], if g.dev < |defs| then next'[g.dev] else NaN);
        cdp[g.fail] == FailNext(c, defs[g.fail], FailNext(b, defs[g.fail], f, DeviationRead(g.fail, b)), DeviationRead(g.fail, c))
    {
      hide Before.HwNext, Before.SeaNext, Before.DevNext, Before.DpNext, Before.Prediction, FailNext, Before.Sound, Before.BadStart;
      UpdateAberrantCdps(x, next, g, b, f);
      primary := seq(|defs|, i requires 0 <= i < |defs| reads cdp, this => cdp[i].val);
      ghost var c := b.Again(next'[g.sea], if g.dev < |defs| then next'[g.dev] else NaN);
      ghost var c' := c.(sea := cdp[g.sea]);
      SeasonalValue(c, cdp[g.sea].val);
      if g.fail < |defs| {
        SameFailure(c, cdp[g.sea].val, defs[g.fail], cdp[g.fail], DeviationRead(g.fail, c));
      }
      UpdateAberrantCdps(x, next', g, c', if g.fail < |defs| then cdp[g.fail] else f);
    }
  }

  /** The value that a SEASONAL area has stored does not matter to the next update. */
  lemma SeasonalValue(b: Before, v: Val)
    ensures var c := b.(sea := b.sea.(val := v));
            c.HwNext() == b.HwNext() && c.SeaNext() == b.SeaNext() && c.DevNext() == b.DevNext() && c.DpNext() == b.DpNext() &&
            (c.Sound() <==> b.Sound()) && (c.BadStart() <==> b.BadStart()) && c.Prediction() == b.Prediction()
  {
  }

  lemma SameFailure(b: Before, v: Val, def: Def, f: Cdp, deviation: Val)
    requires |f.violations| == def.windowLen > 0
    ensures FailNext(b.(sea := b.sea.(val := v)), def, f, deviation) == FailNext(b, def, f, deviation)
  {
    hide Before.Prediction;
    SeasonalValue(b, v);
  }

  lemma PredictUnknown(m: Model, intercept: Val, slope: Val, n: nat, seasonal: Val)
    ensures intercept.NaN? || slope.NaN? || seasonal.NaN? ==> Predict(m, intercept, slope, n, seasonal).NaN?
  {
  }

  /** The window when only its end has been shifted, from position i on. */
  function Shifted(before: seq<bool>, i: nat): (window: seq<bool>)
    requires 1 <= i <= |before|
    ensures |window| == |before|
  {
    before[..i] + before[i - 1..|before| - 1]
  }

  lemma ShiftOne(before: seq<bool>, i: nat)
    requires 1 < i <= |before|
    ensures Shifted(before, i)[i - 2] == before[i - 2]
    ensures Shifted(before, i)[i - 1 := before[i - 2]] == Shifted(before, i - 1)
    ensures before[i - 2..|before| - 1] == [before[i - 2]] + before[i - 1..|before| - 1]
  {
  }

  lemma ShiftEnds(before: seq<bool>, violation: bool)
    requires before != []
    ensures Shifted(before, |before|) == before
    ensures Shifted(before, 1)[0 := violation] == [violation] + before[..|before| - 1]
    ensures before[|before| - 1..|before| - 1] == [] && before[0..|before| - 1] == before[..|before| - 1]
  {
  }

  /** The loop that shifts the violations and counts them. */
  method ShiftWindow(before: seq<bool>, violation: bool) returns (window: seq<bool>, count: nat)
    requires before != []
    ensures window == [violation] + before[..|before| - 1] && count == CountTrue(window)
  {
    var n := |before|;
    window := before;
    count := if violation then 1 else 0;
    var i := n;
    ShiftEnds(before, violation);
    assert CountTrue([]) == 0;
    hide CountTrue, Shifted;
    while i > 1
      invariant 1 <= i <= n && window == Shifted(before, i)
      invariant count == CountTrue(before[i - 1..n - 1]) + if violation then 1 else 0
    {
      ShiftOne(before, i);
      CountSplit([before[i - 2]], before[i - 1..n - 1]);
      var v := window[i - 2];
      window := window[i - 1 := v];
      count := count + (if v then 1 else 0);
      i := i - 1;
    }
    window := window[0 := violation];
    CountSplit([violation], before[..n - 1]);
  }

  lemma {:induction false} CountSplit(a: seq<bool>, b: seq<bool>)
    requires |a| == 1
    ensures CountTrue(a + b) == (if a[0] then 1 else 0) + CountTrue(b)
  {
    if b == [] {
      assert a + b == a && a[..0] == [];
      assert CountTrue(a[..0]) == 0;
    } else {
      CountSplit(a, b[..|b| - 1]);
      assert (a + b)[..|a + b| - 1] == a + b[..|b| - 1];
    }
  }
}

/** The Holt-Winters archives over whole runs of updates. */
module HoltWintersRuns {
  import opened Values
  import opened HwMath
  import opened HoltWinters

  datatype Params = Params(m: Model, alpha: real, beta: real, gamma: real, devGamma: real)

  /** A seasonal archive: one row for each interval of the season, and the row written last. */
  datatype Ring = Ring(rows: seq<Val>, cur: nat) {
    predicate Valid() { cur < |rows| }

    function Next(): nat
      requires Valid()
    {
      (cur + 1) % |rows|
    }

    /** The coefficient for the interval behind the one that is written next. */
    function Ahead(): Val
      requires Valid()
    {
      rows[(cur + 2) % |rows|]
    }

    function Write(x: Val): Ring
      requires Valid()
    {
      Ring(rows[Next() := x], Next())
    }

    ghost predicate AllUnknown() { forall i :: 0 <= i < |rows| ==> rows[i].NaN? }

    ghost predicate AllKnown() { forall i :: 0 <= i < |rows| ==> rows[i].Fin? }
  }

  datatype State = State(hw: Cdp, sea: Cdp, dev: Cdp, dp: Cdp, season: Ring, deviations: Ring)

  /** An observed value arrives; the coefficients are reset; one of the seasonal archives is smoothed, which takes the
      baseline off the seasonal coefficients and adds it to the intercept. */
  datatype Event = Observe(x: Val) | Reset | Smooth(rows: seq<Val>, baseline: real) | SmoothDeviations(rows: seq<Val>)

  function BeforeUpdate(p: Params, s: State, x: Val): Before
    requires s.season.Valid() && s.deviations.Valid()
  {
    Before(p.m, p.alpha, p.beta, p.gamma, p.devGamma, s.hw, s.sea, s.dev, s.dp, x, s.season.Ahead(), s.deviations.Ahead())
  }

  function Unset(c: Cdp): Cdp { c.(coef := NaN, lastCoef := NaN) }

  function UnknownRing(r: Ring): Ring { r.(rows := seq(|r.rows|, _ => NaN)) }

  /** Smoothing needs all rows and leaves all of them known, except that the multiplicative method cannot divide by a
      baseline that is not positive. */
  ghost predicate CanSmooth(r: Ring, rows: seq<Val>, divides: bool) {
    r.AllKnown() && |rows| == |r.rows| && (divides ==> Ring(rows, r.cur).AllKnown())
  }

  ghost function Step(p: Params, s: State, e: Event): State
    requires s.season.Valid() && s.deviations.Valid()
  {
    match e
    case Observe(x) =>
      var b := BeforeUpdate(p, s, x);
      State(b.HwNext(), b.SeaNext(), b.DevNext(), b.DpNext(), s.season.Write(b.SeaValue()), s.deviations.Write(b.DevValue()))
    case Reset =>
      s.(hw := s.hw.(coef := NaN, lastCoef := NaN, slope := NaN, lastSlope := NaN, nullCount := 1, lastNullCount := 1),
         sea := Unset(s.sea), dev := Unset(s.dev), season := UnknownRing(s.season), deviations := UnknownRing(s.deviations))
    case Smooth(rows, baseline) =>
      if CanSmooth(s.season, rows, p.m.Additive? || baseline > 0.0) then
        s.(season := s.season.(rows := rows), hw := s.hw.(coef := Plus(s.hw.coef, Fin(baseline))))
      else s
    case SmoothDeviations(rows) =>
      if CanSmooth(s.deviations, rows, true) then s.(deviations := s.deviations.(rows := rows)) else s
  }

  /** Slope and intercept are known together; before that, nothing seasonal is known. */
  ghost predicate Inv(s: State) {
    s.season.Valid() && s.deviations.Valid() && (s.hw.coef.NaN? <==> s.hw.slope.NaN?) &&
    (s.hw.coef.NaN? ==> s.sea.coef.NaN? && s.dev.coef.NaN? && s.season.AllUnknown() && s.deviations.AllUnknown())
  }

  function EmptyCdp(): Cdp { Cdp(NaN, NaN, NaN, NaN, 1, 1, NaN, []) }

  function Created(rows: nat, devRows: nat): State {
    State(EmptyCdp(), EmptyCdp(), EmptyCdp(), EmptyCdp(), Ring(seq(rows, _ => NaN), 0), Ring(seq(devRows, _ => NaN), 0))
  }

  /** The observation makes the multiplicative method divide by a seasonal coefficient that is not positive. */
  predicate Loses(p: Params, s: State, e: Event)
    requires s.season.Valid() && s.deviations.Valid()
  {
    e.Observe? && p.m.Multiplicative? && BeforeUpdate(p, s, e.x).Known() && e.x.Fin? && s.sea.coef.v <= 0.0
  }

  /** The intercept becomes unknown again exactly in this way. */
  lemma LosesIntercept(b: Before)
    requires b.hw.coef.Fin? && b.hw.slope.Fin?
    ensures b.HwNext().coef.NaN? <==> b.m.Multiplicative? && b.Known() && b.x.Fin? && b.sea.coef.v <= 0.0
    ensures b.HwNext().slope.NaN? <==> b.HwNext().coef.NaN?
    ensures b.HwNext().coef.NaN? ==> b.DevValue().Fin?
  {
  }

  /** Every event of either method keeps the invariant, except an observation that divides by such a coefficient. */
  lemma StepInv(p: Params, s: State, e: Event)
    requires Inv(s)
    ensures Inv(Step(p, s, e)) <==> !Loses(p, s, e)
  {
    var t := Step(p, s, e);
    match e
    case Observe(x) =>
      hide Ring.Write, Ring.Ahead, Ring.Next;
      ObserveInv(p, s, x);
    case Reset =>
    case Smooth(rows, baseline) =>
      if s.season.AllKnown() { assert s.season.rows[0].Fin?; }
    case SmoothDeviations(rows) =>
      if s.deviations.AllKnown() { assert s.deviations.rows[0].Fin?; }
  }

  lemma ObserveInv(p: Params, s: State, x: Val)
    requires Inv(s)
    ensures Inv(Step(p, s, Observe(x))) <==> !Loses(p, s, Observe(x))
  {
    var b := BeforeUpdate(p, s, x);
    if s.hw.coef.Fin? {
      LosesIntercept(b);
      var t := Step(p, s, Observe(x));
      if Loses(p, s, Observe(x)) {
        assert t.deviations.rows[s.deviations.Next()] == b.DevValue();
      }
    }
  }

  ghost predicate IsRun(p: Params, first: State, events: seq<Event>, last: State)
    decreases |events|
  {
    first.season.Valid() && first.deviations.Valid() &&
    if events == [] then last == first else
    var s := Step(p, first, events[0]);
    IsRun(p, s, events[1..], last)
  }

  /** No observation of the run loses the intercept. */
  ghost predicate KeepsIntercept(p: Params, first: State, events: seq<Event>)
    decreases |events|
  {
    first.season.Valid() && first.deviations.Valid() &&
    (events != [] ==> !Loses(p, first, events[0]) && KeepsIntercept(p, Step(p, first, events[0]), events[1..]))
  }

  /** The invariant holds in every state of the run. */
  ghost predicate InvAlong(p: Params, first: State, events: seq<Event>)
    decreases |events|
  {
    Inv(first) && (events != [] ==> InvAlong(p, Step(p, first, events[0]), events[1..]))
  }

  lemma {:induction false} RunInv(p: Params, first: State, events: seq<Event>)
    requires Inv(first)
    ensures InvAlong(p, first, events) <==> KeepsIntercept(p, first, events)
    decreases |events|
  {
    hide Step, Loses;
    if events != [] {
      StepInv(p, first, events[0]);
      if !Loses(p, first, events[0]) {
        hide Inv;
        RunInv(p, Step(p, first, events[0]), events[1..]);
      }
    }
  }

  lemma {:induction false} RunEnd(p: Params, first: State, events: seq<Event>, last: State)
    requires InvAlong(p, first, events) && IsRun(p, first, events, last)
    ensures Inv(last)
    decreases |events|
  {
    hide Step, Inv;
    if events != [] {
      RunEnd(p, Step(p, first, events[0]), events[1..], last);
    }
  }

  lemma {:induction false} AdditiveKeeps(p: Params, first: State, events: seq<Event>, last: State)
    requires p.m.Additive? && IsRun(p, first, events, last)
    ensures KeepsIntercept(p, first, events)
    decreases |events|
  {
    hide Step;
    if events != [] {
      AdditiveKeeps(p, Step(p, first, events[0]), events[1..], last);
    }
  }

  /** From the creation on, every update of the additive method, and every update of the multiplicative one up to the
      loss of its intercept, finds a state in which the order of the archives does not matter. */
  lemma AlwaysSound(p: Params, rows: nat, devRows: nat, events: seq<Event>, last: State, x: Val)
    requires rows > 0 && devRows > 0 && IsRun(p, Created(rows, devRows), events, last)
    requires p.m.Additive? || KeepsIntercept(p, Created(rows, devRows), events)
    ensures last.season.Valid() && last.deviations.Valid()
    ensures var b := BeforeUpdate(p, last, x); b.Sound() && (b.BadStart() ==> p.m.Multiplicative?)
  {
    hide IsRun, KeepsIntercept, InvAlong;
    if p.m.Additive? {
      AdditiveKeeps(p, Created(rows, devRows), events, last);
    }
    RunInv(p, Created(rows, devRows), events);
    RunEnd(p, Created(rows, devRows), events, last);
  }

  // ----- the multiplicative method loses its intercept

  function Four(): seq<Event> {
    [Observe(Fin(1.0)), Observe(Fin(-1.0)), Observe(Fin(1.0)), Observe(Fin(1.0))]
  }

  /** Intercept with slope 0, seasonal coefficient and seasonal archive of two rows. */
  ghost predicate Looks(s: State, coef: Val, sea: Val, rows: seq<Val>, cur: nat) {
    s.hw.coef == coef && (coef.Fin? ==> s.hw.slope == Fin(0.0) && s.hw.nullCount == 1) && s.sea.coef == sea &&
    s.season == Ring(rows, cur) && |rows| == 2 && cur < 2 && s.deviations.Valid()
  }

  lemma First(p: Params)
    requires p.m.Multiplicative?
    ensures Looks(Step(p, Created(2, 2), Observe(Fin(1.0))), Fin(1.0), NaN, [NaN, Fin(1.0)], 1)
  {
    assert Created(2, 2).season.rows == [NaN, NaN];
    assert [NaN, NaN][1 := Fin(1.0)] == [NaN, Fin(1.0)];
  }

  lemma Second(p: Params, s: State)
    requires p.m.Multiplicative? && Looks(s, Fin(1.0), NaN, [NaN, Fin(1.0)], 1)
    ensures Looks(Step(p, s, Observe(Fin(-1.0))), Fin(1.0), Fin(1.0), [Fin(-1.0), Fin(1.0)], 0)
  {
    assert BeforeUpdate(p, s, Fin(-1.0)).SeaValue() == Fin(-1.0 / 1.0);
    assert [NaN, Fin(1.0)][0 := Fin(-1.0)] == [Fin(-1.0), Fin(1.0)];
  }

  lemma Third(p: Params, s: State)
    requires p.m.Multiplicative? && Looks(s, Fin(1.0), Fin(1.0), [Fin(-1.0), Fin(1.0)], 0)
    ensures Looks(Step(p, s, Observe(Fin(1.0))), Fin(1.0), Fin(-1.0), [Fin(-1.0), Fin(1.0)], 1)
  {
    hide Blend;
    var b := BeforeUpdate(p, s, Fin(1.0));
    BlendSame(p.alpha, 1.0);
    BlendSame(p.beta, 0.0);
    BlendSame(p.gamma, 1.0);
    assert b.NewIntercept() == Fin(1.0);
    assert b.HwNext().slope == Fin(0.0);
    assert b.SeaValue() == Fin(1.0);
    assert [Fin(-1.0), Fin(1.0)][1 := Fin(1.0)] == [Fin(-1.0), Fin(1.0)];
  }

  lemma Fourth(p: Params, s: State)
    requires p.m.Multiplicative? && Looks(s, Fin(1.0), Fin(-1.0), [Fin(-1.0), Fin(1.0)], 1)
    ensures var t := Step(p, s, Observe(Fin(1.0)));
            t.hw.coef.NaN? && t.sea.coef == Fin(1.0) && t.season.Valid() && t.deviations.Valid()
  {
    LosesIntercept(BeforeUpdate(p, s, Fin(1.0)));
  }

  /** Four values from the creation on, for all weights and a season of two rows: one value below zero leaves a seasonal
      coefficient below zero, and the value after it makes the intercept unknown while the next coefficient is known. */
  lemma LosesInFour(p: Params) returns (last: State)
    requires p.m.Multiplicative?
    ensures IsRun(p, Created(2, 2), Four(), last)
    ensures last.hw.coef.NaN? && last.sea.coef == Fin(1.0)
    ensures forall x :: last.season.Valid() && last.deviations.Valid() && !BeforeUpdate(p, last, x).Sound()
  {
    First(p);
    var s1 := Step(p, Created(2, 2), Observe(Fin(1.0)));
    Second(p, s1);
    var s2 := Step(p, s1, Observe(Fin(-1.0)));
    Third(p, s2);
    var s3 := Step(p, s2, Observe(Fin(1.0)));
    Fourth(p, s3);
    last := Step(p, s3, Observe(Fin(1.0)));
    hide Step;
    var es := Four();
    assert es[1..][1..] == es[2..] && es[2..][1..] == es[3..] && es[3..][1..] == [];
    assert IsRun(p, last, [], last);
    assert IsRun(p, s3, es[3..], last);
    assert IsRun(p, s2, es[2..], last);
    assert IsRun(p, s1, es[1..], last);
  }
}
