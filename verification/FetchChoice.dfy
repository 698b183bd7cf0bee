/** Which archive a fetch reads, in terms of times and of the caller's wishes (rrd_fetch.c). */
module FetchChoice {
  import opened Values
  import opened Arith
  import opened Archives
  import opened Fetch

  /** The archive's rows are this many seconds apart. */
  function RowStep(rrd: Rrd, i: nat): nat
    requires i < |rrd.rras|
  {
    rrd.pdpStep * rrd.rras[i].pdpCnt
  }

  /** Interval number k is in the archive's window: the row that ends at RowStep * k is stored. */
  predicate Holds(rrd: Rrd, i: nat, k: int)
    requires WellFormed(rrd) && i < |rrd.rras|
  {
    Newest(rrd, i) - rrd.rras[i].rowCnt < k <= Newest(rrd, i)
  }

  lemma StepIs(rrd: Rrd, i: nat)
    requires i < |rrd.rras|
    ensures Step(rrd, i) == RowStep(rrd, i)
  {
  }

  /** The newest interval is the last one that has wholly passed. */
  lemma NewestPassed(rrd: Rrd, i: nat)
    requires WellFormed(rrd) && i < |rrd.rras|
    ensures RowStep(rrd, i) * Newest(rrd, i) <= rrd.lastUp < RowStep(rrd, i) * (Newest(rrd, i) + 1)
  {
    StepIs(rrd, i);
    hide Step;
    Align(RowStep(rrd, i), rrd.lastUp);
  }

  /** The coverage begins where the first interval of the window does. */
  lemma CoverageBegins(rrd: Rrd, i: nat)
    requires WellFormed(rrd) && i < |rrd.rras|
    ensures CalStart(rrd, i) == RowStep(rrd, i) * (Newest(rrd, i) - rrd.rras[i].rowCnt)
  {
    StepIs(rrd, i);
    Align(Step(rrd, i), rrd.lastUp);
    var s: int, e: int, rows: int := RowStep(rrd, i), Newest(rrd, i), rrd.rras[i].rowCnt;
    assert s * e - s * rows == s * (e - rows);
    hide Step, RowStep;
  }

  /** An archive of the wanted function counts as full exactly if every interval from the start of the range to the newest
      one is in its window. */
  lemma FullIff(rrd: Rrd, cf: nat, start: nat, i: nat)
    requires WellFormed(rrd) && i < |rrd.rras|
    ensures Full(rrd, cf, start, i) <==>
            rrd.rras[i].cf == cf && forall k: int :: k <= Newest(rrd, i) && start < RowStep(rrd, i) * k ==> Holds(rrd, i, k)
  {
    CoverageBegins(rrd, i);
    StepIs(rrd, i);
    hide CalStart, Newest, Step, RowStep;
    var s, first := RowStep(rrd, i), Newest(rrd, i) - rrd.rras[i].rowCnt;
    forall k: int | start < s * k ensures s * first <= start ==> first < k {
      MulLess(s, k, first);
    }
    assert !(s * first <= start) ==> start < s * first && !Holds(rrd, i, first);
  }

  /** The coverage of an archive that is not full, in seconds: a time of the range lies in its window or behind it exactly if
      it is less than this before the end. */
  lemma CoverageIs(rrd: Rrd, cf: nat, start: nat, end: nat, i: nat, t: nat)
    requires WellFormed(rrd) && i < |rrd.rras| && Part(rrd, cf, start, i)
    ensures RowStep(rrd, i) * (Newest(rrd, i) - rrd.rras[i].rowCnt) < t <==> end - t < Coverage(rrd, start, end, i)
  {
    CoverageBegins(rrd, i);
    hide CalStart, Newest, RowStep;
  }

  /** A step d is nearer to the wish than e, or as near. */
  predicate AsNear(d: nat, e: nat, wish: nat) {
    -(if e < wish then wish - e else e - wish) <= d - wish <= if e < wish then wish - e else e - wish
  }

  lemma DiffIs(rrd: Rrd, i: nat, j: nat, step: nat)
    requires i < |rrd.rras| && j < |rrd.rras|
    ensures StepDiff(rrd, i, step) <= StepDiff(rrd, j, step) <==> AsNear(RowStep(rrd, i), RowStep(rrd, j), step)
  {
    StepIs(rrd, i);
    StepIs(rrd, j);
    hide Step, RowStep;
  }

  /** A fetch for which some archive covers the range reads one that covers it, and no covering archive has a step that is
      nearer to the wish, on either side; so if one has exactly the wish, the step is the wish. */
  lemma FullChoice(rrd: Rrd, cf: nat, start: nat, end: nat, step: nat, ci: nat, f: Fetched, j: nat)
    requires WellFormed(rrd) && start <= end && IsFetched(rrd, cf, start, end, step, ci, f)
    requires j < |rrd.rras| && Full(rrd, cf, start, j)
    ensures Full(rrd, cf, start, ci) && f.step == RowStep(rrd, ci) && AsNear(f.step, RowStep(rrd, j), step)
    ensures RowStep(rrd, j) == step ==> f.step == step
    ensures !(f.step < RowStep(rrd, j) <= step) && !(step <= RowStep(rrd, j) < f.step)
  {
    StepIs(rrd, ci);
    DiffIs(rrd, ci, j, step);
    hide Step, RowStep, StepDiff, CalStart, Table, Intervals;
  }

  /** A fetch for which none does reads an archive whose window reaches back furthest, and among those one whose step is
      nearest to the wish. */
  lemma PartChoice(rrd: Rrd, cf: nat, start: nat, end: nat, step: nat, ci: nat, f: Fetched, j: nat)
    requires WellFormed(rrd) && start <= end && IsFetched(rrd, cf, start, end, step, ci, f)
    requires NoFull(rrd, cf, start, |rrd.rras|) && j < |rrd.rras| && rrd.rras[j].cf == cf
    ensures var begin, begin' := RowStep(rrd, ci) * (Newest(rrd, ci) - rrd.rras[ci].rowCnt),
                                 RowStep(rrd, j) * (Newest(rrd, j) - rrd.rras[j].rowCnt);
            rrd.rras[ci].cf == cf && start < begin <= begin' &&
            (begin == begin' ==> AsNear(f.step, RowStep(rrd, j), step))
  {
    CoverageBegins(rrd, ci);
    CoverageBegins(rrd, j);
    StepIs(rrd, ci);
    DiffIs(rrd, ci, j, step);
    hide Step, RowStep, StepDiff, CalStart, Table, Intervals, Newest;
    assert Part(rrd, cf, start, j) by { assert !Full(rrd, cf, start, j); }
  }
}
