/** The frequency loops of uhd_cal_tx_dc_offset (Dc) and of uhd_cal_rx_iq_balance and
    uhd_cal_tx_iq_balance (Iq). */
module Calibration {
  import opened Arithmetic
  import opened CalibrationSearch
  import opened Wrappers
  import opened CalibrationLaws

  datatype Program = Dc | Iq

  /** `result_t`. */
  datatype Kept = Kept(freq: real, realCorr: real, imagCorr: real, best: real, delta: real)

  /** What tuning to one frequency yields: the actual frequency, the measurement without
      correction, and every capture that will follow. */
  datatype Tuned = Tuned(freq: real, initial: real, oracle: nat -> Capture)

  function GoalOf(p: Program): Goal {
    if p.Dc? then Minimise else Maximise
  }

  /** The DC search starts from the uncorrected value, the IQ searches from zero. */
  function StartOf(p: Program, initial: real): Best {
    Best(if p.Dc? then initial else 0.0, 0.0, 0.0)
  }

  /** Searches one frequency and keeps a result when the best beats the uncorrected value.
      The DC offset is (outer, inner); the IQ balance is (inner, outer). */
  method CalibrateAt(p: Program, t: Tuned, precision: real) returns (kept: Option<Kept>, s: State, aborted: bool)
    requires precision > 0.0
    ensures IsRun(s.applied, GoalOf(p), StartOf(p, t.initial), t.oracle)
    ensures aborted <==> Errors(s.applied) >= MAX_NUM_TX_ERRORS
    ensures Errors(s.applied) <= MAX_NUM_TX_ERRORS && (aborted ==> EndsInError(s.applied))
    ensures exists n: nat :: IsRoundCount(n, precision) && |Accepted(s.applied)| <= GRID_POINTS * n
                             && (!aborted ==> |Accepted(s.applied)| == GRID_POINTS * n)
    ensures !aborted ==> kept == KeptOf(p, t, Accepted(s.applied))
  {
    s, aborted := Search(GoalOf(p), StartOf(p, t.initial).value, precision, t.oracle);
    kept := None;
    if aborted { return; }
    match p
    case Dc =>
      if s.best.value < t.initial {
        kept := Some(Kept(t.freq, s.best.x, s.best.y, s.best.value, t.initial - s.best.value));
      }
    case Iq =>
      if s.best.value > t.initial {
        kept := Some(Kept(t.freq, s.best.y, s.best.x, s.best.value, s.best.value - t.initial));
      }
  }

  function KeptOf(p: Program, t: Tuned, acc: seq<Applied>): Option<Kept> {
    var b := Fold(GoalOf(p), StartOf(p, t.initial), acc);
    if !Better(GoalOf(p), b.value, t.initial) then None
    else if p.Dc? then Some(Kept(t.freq, b.x, b.y, b.value, t.initial - b.value))
    else Some(Kept(t.freq, b.y, b.x, b.value, b.value - t.initial))
  }

  /** A kept DC result comes from a capture, and that capture is the lowest of all. A result
      is kept exactly when some capture beat the uncorrected one. */
  lemma DcKeepsTheLowest(t: Tuned, acc: seq<Applied>)
    ensures
      var k := KeptOf(Dc, t, acc);
      && (k.Some? <==> exists j :: 0 <= j < |acc| && acc[j].capture.value < t.initial)
      && (k.Some? ==>
            && k.value.freq == t.freq
            && k.value.delta > 0.0 && k.value.best + k.value.delta == t.initial
            && (forall j :: 0 <= j < |acc| ==> k.value.best <= acc[j].capture.value)
            && exists j :: 0 <= j < |acc| && acc[j].x == k.value.realCorr && acc[j].y == k.value.imagCorr
                           && acc[j].capture.value == k.value.best)
  {
    FoldIsOptimum(Minimise, StartOf(Dc, t.initial), acc);
  }

  /** A kept IQ result claims at least the highest suppression measured, and it comes from a
      capture exactly when some capture showed positive suppression: the search starts from
      zero, not from the uncorrected value. Otherwise what is kept is no correction at all
      with a claimed suppression of zero. */
  lemma IqKeepsTheHighestAboveZero(t: Tuned, acc: seq<Applied>)
    ensures
      var k := KeptOf(Iq, t, acc);
      var positive := exists j :: 0 <= j < |acc| && acc[j].capture.value > 0.0;
      && (k.Some? <==> t.initial < 0.0 || exists j :: 0 <= j < |acc| && acc[j].capture.value > t.initial)
      && (k.Some? ==> k.value.freq == t.freq)
      && (k.Some? ==> k.value.delta > 0.0 && k.value.best - k.value.delta == t.initial)
      && (k.Some? ==> forall j :: 0 <= j < |acc| ==> k.value.best >= acc[j].capture.value)
      && (k.Some? && positive ==>
            exists j :: 0 <= j < |acc| && acc[j].y == k.value.realCorr && acc[j].x == k.value.imagCorr
                        && acc[j].capture.value == k.value.best)
      && (k.Some? && !positive ==> k.value == Kept(t.freq, 0.0, 0.0, 0.0, -t.initial))
  {
    FoldIsOptimum(Maximise, StartOf(Iq, t.initial), acc);
  }

  /** Some capture showed a higher suppression than the uncorrected one. */
  ghost predicate Improved(t: Tuned, acc: seq<Applied>) {
    exists j :: 0 <= j < |acc| && acc[j].capture.value > t.initial
  }

  /** The captures of a search whose every measurement is `value`, as long as it never
      moves away from no correction. */
  function GridRun(n: nat, value: real): seq<Applied> {
    if n == 0 then [] else
      GridRun(n - 1, value) + [GridTurn(n - 1, value)]
  }

  function GridTurn(n: nat, value: real): Applied {
    var r, j := n / GRID_POINTS, n % GRID_POINTS;
    Applied(Coord(0.0, StepOf(r), j / NUM_SEARCH_STEPS), Coord(0.0, StepOf(r), j % NUM_SEARCH_STEPS),
            Capture(false, value))
  }

  function Always(value: real): nat -> Capture {
    _ => Capture(false, value)
  }

  lemma {:induction false} GridRunPrefix(n: nat, value: real, k: nat)
    requires k <= n
    ensures |GridRun(n, value)| == n && GridRun(n, value)[..k] == GridRun(k, value)
  {
    if k < n {
      GridRunPrefix(n - 1, value, k);
    } else if n > 0 {
      GridRunPrefix(n - 1, value, 0);
    }
  }

  lemma {:induction false} GridRunFlat(n: nat, value: real, b0: Best)
    requires value <= b0.value
    ensures Fold(Maximise, b0, GridRun(n, value)) == b0
  {
    if n > 0 {
      GridRunFlat(n - 1, value, b0);
      GridRunPrefix(n, value, n - 1);
    }
  }

  lemma GridTurnIsPoint(n: nat, value: real, b0: Best)
    requires value <= b0.value && b0.x == 0.0 && b0.y == 0.0
    ensures IsPoint(GridTurn(n, value), Maximise, b0, GridRun(n, value))
  {
    var start := GRID_POINTS * (n / GRID_POINTS);
    GridRunPrefix(n, value, start);
    GridRunFlat(start, value, b0);
  }

  /** Those captures are a run of the search, with every one accepted. */
  lemma {:induction false} GridRunIsRun(n: nat, value: real, b0: Best)
    requires value <= b0.value && b0.x == 0.0 && b0.y == 0.0
    ensures IsRun(GridRun(n, value), Maximise, b0, Always(value))
    ensures Accepted(GridRun(n, value)) == GridRun(n, value)
  {
    if n > 0 {
      GridRunIsRun(n - 1, value, b0);
      GridTurnIsPoint(n - 1, value, b0);
      GridRunPrefix(n - 1, value, 0);
      RunExtends(GridRun(n - 1, value), GridTurn(n - 1, value), Maximise, b0, Always(value));
    }
  }

  /** A run of the IQ search that accepted n captures keeps no result without improvement. */
  ghost predicate Justified(t: Tuned, a: seq<Applied>, o: nat -> Capture, n: nat) {
    IsRun(a, GoalOf(Iq), StartOf(Iq, t.initial), o) && |Accepted(a)| == n && KeptOf(Iq, t, Accepted(a)).Some?
    ==> Improved(t, Accepted(a))
  }

  /** However many captures a search accepts: that a kept IQ result always improves on the
      uncorrected suppression holds, over all runs, exactly when that suppression is not
      negative. */
  lemma IqKeepsWithoutImprovement(t: Tuned, n: nat)
    ensures (forall a: seq<Applied>, o: nat -> Capture :: Justified(t, a, o, n)) <==> t.initial >= 0.0
  {
    if t.initial >= 0.0 {
      forall a: seq<Applied>, o: nat -> Capture
        ensures Justified(t, a, o, n)
      {
        IqKeepsTheHighestAboveZero(t, Accepted(a));
      }
    } else {
      var a := GridRun(n, t.initial);
      GridRunIsRun(n, t.initial, StartOf(Iq, t.initial));
      GridRunPrefix(n, t.initial, n);
      GridRunFlat(n, t.initial, StartOf(Iq, t.initial));
      GridRunValues(n, t.initial);
      assert !Justified(t, a, Always(t.initial), n);
    }
  }

  lemma {:induction false} GridRunValues(n: nat, value: real)
    ensures forall j :: 0 <= j < |GridRun(n, value)| ==> GridRun(n, value)[j].capture.value == value
  {
    if n > 0 { GridRunValues(n - 1, value); }
  }

  /** The failing case: when no capture improves on a negative uncorrected suppression, no
      correction at all is kept, with a claimed suppression of zero. */
  lemma IqKeepsNoCorrection(t: Tuned, acc: seq<Applied>)
    requires t.initial < 0.0 && !Improved(t, acc)
    ensures KeptOf(Iq, t, acc) == Some(Kept(t.freq, 0.0, 0.0, 0.0, -t.initial))
  {
    IqKeepsTheHighestAboveZero(t, acc);
    assert forall j :: 0 <= j < |acc| ==> acc[j].capture.value <= t.initial;
  }

  // ----- The frequency sweep

  function FreqAt(start: real, step: real, k: nat): real {
    if k == 0 then start else FreqAt(start, step, k - 1) + step
  }

  lemma {:induction false} FreqIsLinear(start: real, step: real, k: nat)
    ensures FreqAt(start, step, k) == start + k as real * step
  {
    if k > 0 {
      FreqIsLinear(start, step, k - 1);
      assert k as real * step == (k - 1) as real * step + step;
    }
  }

  datatype FreqRun = FreqRun(applied: seq<Applied>, kept: Option<Kept>)

  ghost predicate IsFreqRun(f: FreqRun, p: Program, t: Tuned, precision: real) {
    && IsRun(f.applied, GoalOf(p), StartOf(p, t.initial), t.oracle)
    && Errors(f.applied) < MAX_NUM_TX_ERRORS
    && (exists n: nat :: IsRoundCount(n, precision) && |Accepted(f.applied)| == GRID_POINTS * n)
    && f.kept == KeptOf(p, t, Accepted(f.applied))
  }

  function Results(fs: seq<FreqRun>): seq<Kept> {
    if fs == [] then [] else
      var last := fs[|fs| - 1];
      Results(fs[..|fs| - 1]) + match last.kept { case None => [] case Some(k) => [k] }
  }

  /** The results keep the order of the frequencies: those of two stretches of a sweep follow
      one another, and one frequency gives the result it kept, or none. */
  lemma {:induction false} ResultsInOrder(a: seq<FreqRun>, b: seq<FreqRun>, f: FreqRun)
    ensures Results(a + b) == Results(a) + Results(b)
    ensures Results([f]) == if f.kept.Some? then [f.kept.value] else []
  {
    assert [f][..0] == [];
    if b == [] {
      assert a + b == a;
    } else {
      var n := |b| - 1;
      ResultsInOrder(a, b[..n], f);
      assert (a + b)[..|a + b| - 1] == a + b[..n];
    }
  }

  /** The runs so far cover the first frequencies of the sweep, each below the stop. */
  ghost predicate Covers(fs: seq<FreqRun>, p: Program, start: real, stop: real, step: real,
                         precision: real, tune: (nat, real) -> Tuned) {
    forall i :: 0 <= i < |fs| ==> CoversOne(fs, i, p, start, stop, step, precision, tune)
  }

  ghost predicate CoversOne(fs: seq<FreqRun>, i: nat, p: Program, start: real, stop: real, step: real,
                            precision: real, tune: (nat, real) -> Tuned)
    requires i < |fs|
  {
    FreqAt(start, step, i) <= stop && IsFreqRun(fs[i], p, tune(i, FreqAt(start, step, i)), precision)
  }

  lemma CoversNext(fs: seq<FreqRun>, f: FreqRun, p: Program, start: real, stop: real, step: real,
                   precision: real, tune: (nat, real) -> Tuned)
    requires Covers(fs, p, start, stop, step, precision, tune)
    requires FreqAt(start, step, |fs|) <= stop && IsFreqRun(f, p, tune(|fs|, FreqAt(start, step, |fs|)), precision)
    ensures Covers(fs + [f], p, start, stop, step, precision, tune)
    ensures Results(fs + [f]) == Results(fs) + if f.kept.Some? then [f.kept.value] else []
  {
    var fs' := fs + [f];
    assert fs'[..|fs|] == fs;
    forall i | 0 <= i < |fs'|
      ensures CoversOne(fs', i, p, start, stop, step, precision, tune)
    {
      if i < |fs| { assert CoversOne(fs, i, p, start, stop, step, precision, tune); }
    }
  }

  /** The captures at a frequency run up to the tenth transmit error, and no further. */
  ghost predicate Exhausts(applied: seq<Applied>, p: Program, t: Tuned) {
    && IsRun(applied, GoalOf(p), StartOf(p, t.initial), t.oracle)
    && Errors(applied) == MAX_NUM_TX_ERRORS && EndsInError(applied)
  }

  /** All frequencies from start to stop. The error count starts afresh at each one; the
      first frequency to exhaust it, with the captures `last`, throws, and nothing is stored. */
  method Sweep(p: Program, start: real, stop: real, step: real, precision: real, tune: (nat, real) -> Tuned)
    returns (results: seq<Kept>, runs: seq<FreqRun>, aborted: bool, ghost last: seq<Applied>)
    requires step > 0.0 && precision > 0.0
    ensures Covers(runs, p, start, stop, step, precision, tune)
    ensures aborted <==> FreqAt(start, step, |runs|) <= stop
    ensures aborted ==> Exhausts(last, p, tune(|runs|, FreqAt(start, step, |runs|)))
    ensures results == if aborted then [] else Results(runs)
  {
    results, runs, last := [], [], [];
    var f := start;
    while f <= stop
      invariant f == FreqAt(start, step, |runs|)
      invariant Covers(runs, p, start, stop, step, precision, tune)
      invariant results == Results(runs)
      decreases (stop - f) / step
    {
      var kept, s;
      kept, s, aborted := CalibrateAt(p, tune(|runs|, f), precision);
      if aborted { return [], runs, true, s.applied; }
      var run := FreqRun(s.applied, kept);
      CoversNext(runs, run, p, start, stop, step, precision, tune);
      runs := runs + [run];
      if kept.Some? {
        results := results + [kept.value];
      }
      StepShrinksQuotient(stop - f, step);
      f := f + step;
    }
    return results, runs, false, [];
  }

  lemma StepShrinksQuotient(d: real, step: real)
    requires step > 0.0 && d >= 0.0
    ensures (d - step) / step == d / step - 1.0 && d / step >= 0.0
  {
    var q, r := d / step, (d - step) / step;
    assert q * step == d && r * step == d - step;
    assert (r - (q - 1.0)) * step == r * step - (q * step - step) == 0.0;
    SignOfFactor(r - (q - 1.0), step);
    SignOfFactor(q, step);
  }
}
