/** The shrinking grid search of the three self-calibration programs, over exact reals.
    Captures come from an arbitrary oracle, so every claim is about all measurements and
    all transmit-error patterns. */
module CalibrationSearch {

  const MAX_NUM_TX_ERRORS := 10
  const NUM_SEARCH_STEPS := 5
  const GRID_POINTS := NUM_SEARCH_STEPS * NUM_SEARCH_STEPS

  /** One capture: whether a transmit error hit it, and otherwise what was measured. */
  datatype Capture = Capture(txError: bool, value: real)

  /** One correction set on the device and the capture that followed. `x` is the axis of
      the outer loop, `y` that of the inner loop. */
  datatype Applied = Applied(x: real, y: real, capture: Capture)

  datatype Best = Best(value: real, x: real, y: real)

  datatype Goal = Minimise | Maximise

  predicate Better(g: Goal, a: real, b: real) {
    if g.Minimise? then a < b else a > b
  }

  // ----- What a run looks like

  /** The captures without a transmit error. */
  function Accepted(a: seq<Applied>): seq<Applied> {
    if a == [] then [] else
      var last := a[|a| - 1];
      Accepted(a[..|a| - 1]) + if last.capture.txError then [] else [last]
  }

  function Pick(g: Goal, b: Best, p: Applied): Best {
    if Better(g, p.capture.value, b.value) then Best(p.capture.value, p.x, p.y) else b
  }

  /** The running best after these accepted captures. */
  function Fold(g: Goal, b: Best, acc: seq<Applied>): Best {
    if acc == [] then b else Pick(g, Fold(g, b, acc[..|acc| - 1]), acc[|acc| - 1])
  }

  /** The step of round r: one third, shrinking by three each round. */
  function StepOf(r: nat): (s: real)
    ensures s > 0.0
  {
    if r == 0 then 1.0 / 3.0 else StepOf(r - 1) / 3.0
  }

  /** The k-th of the five interior grid lines around c: two steps below c, and up. */
  function Coord(c: real, step: real, k: nat): real {
    if k == 0 then c - 2.0 * step else Coord(c, step, k - 1) + step
  }

  /** Where the capture is taken that would become the a-th accepted one: round a/25, outer
      line (a%25)/5, inner line a%5, around the best of the rounds before. */
  ghost predicate IsPoint(p: Applied, g: Goal, b0: Best, acc: seq<Applied>) {
    var r, j := |acc| / GRID_POINTS, |acc| % GRID_POINTS;
    var c := Fold(g, b0, acc[..GRID_POINTS * r]);
    && p.x == Coord(c.x, StepOf(r), j / NUM_SEARCH_STEPS)
    && p.y == Coord(c.y, StepOf(r), j % NUM_SEARCH_STEPS)
  }

  /** Every correction is set at the next grid point still lacking a good capture, and the
      device answers as the oracle says. */
  ghost predicate IsRun(a: seq<Applied>, g: Goal, b0: Best, oracle: nat -> Capture) {
    forall i :: 0 <= i < |a| ==> IsTurn(a, i, g, b0, oracle)
  }

  ghost predicate IsTurn(a: seq<Applied>, i: nat, g: Goal, b0: Best, oracle: nat -> Capture)
    requires i < |a|
  {
    a[i].capture == oracle(i) && IsPoint(a[i], g, b0, Accepted(a[..i]))
  }

  ghost function Errors(a: seq<Applied>): int {
    |a| - |Accepted(a)|
  }

  /** The last capture was hit by a transmit error. */
  ghost predicate EndsInError(a: seq<Applied>) {
    a != [] && a[|a| - 1].capture.txError
  }

  lemma RunExtends(a: seq<Applied>, p: Applied, g: Goal, b0: Best, oracle: nat -> Capture)
    requires IsRun(a, g, b0, oracle)
    requires p.capture == oracle(|a|) && IsPoint(p, g, b0, Accepted(a))
    ensures IsRun(a + [p], g, b0, oracle)
    ensures Accepted(a + [p]) == Accepted(a) + if p.capture.txError then [] else [p]
  {
    var a' := a + [p];
    assert a'[..|a|] == a;
    forall i | 0 <= i < |a'|
      ensures IsTurn(a', i, g, b0, oracle)
    {
      assert a'[..i] == a[..i];
      if i < |a| { assert IsTurn(a, i, g, b0, oracle); }
    }
  }

  lemma {:induction false} CoordNext(c: real, step: real, k: nat)
    ensures Coord(c, step, k + 1) == Coord(c, step, k) + step
  {
  }

  /** The loop guard admits exactly the five interior lines. */
  lemma {:induction false} CoordGuard(c: real, step: real, k: nat)
    requires step > 0.0 && k <= NUM_SEARCH_STEPS
    ensures Coord(c, step, k) <= c + 3.0 * step - step <==> k < NUM_SEARCH_STEPS
  {
    assert Coord(c, step, 1) == c - step;
    assert Coord(c, step, 2) == c;
    assert Coord(c, step, 3) == c + step;
    assert Coord(c, step, 4) == c + 2.0 * step;
    assert Coord(c, step, 5) == c + 3.0 * step;
  }

  // ----- The loops

  datatype State = State(applied: seq<Applied>, best: Best, txErrorCount: nat)

  /** The search has accepted `n` captures, and its counters say so. */
  ghost predicate Tracks(s: State, g: Goal, b0: Best, oracle: nat -> Capture, n: nat) {
    && IsRun(s.applied, g, b0, oracle)
    && |Accepted(s.applied)| == n
    && s.best == Fold(g, b0, Accepted(s.applied))
    && s.txErrorCount == Errors(s.applied)
  }

  lemma {:induction false} FoldSnoc(g: Goal, b: Best, acc: seq<Applied>, p: Applied)
    ensures Fold(g, b, acc + [p]) == Pick(g, Fold(g, b, acc), p)
  {
    assert (acc + [p])[..|acc|] == acc;
  }

  lemma {:induction false} TracksError(s: State, p: Applied, g: Goal, b0: Best, oracle: nat -> Capture, n: nat)
    requires Tracks(s, g, b0, oracle, n)
    requires p.capture == oracle(|s.applied|) && IsPoint(p, g, b0, Accepted(s.applied))
    requires p.capture.txError
    ensures Tracks(State(s.applied + [p], s.best, s.txErrorCount + 1), g, b0, oracle, n)
    ensures Accepted(s.applied + [p]) == Accepted(s.applied)
  {
    RunExtends(s.applied, p, g, b0, oracle);
    assert Accepted(s.applied) + [] == Accepted(s.applied);
  }

  lemma {:induction false} TracksGood(s: State, p: Applied, g: Goal, b0: Best, oracle: nat -> Capture, n: nat)
    requires Tracks(s, g, b0, oracle, n)
    requires p.capture == oracle(|s.applied|) && IsPoint(p, g, b0, Accepted(s.applied))
    requires !p.capture.txError
    ensures Tracks(State(s.applied + [p], Pick(g, s.best, p), s.txErrorCount), g, b0, oracle, n + 1)
    ensures Accepted(s.applied + [p]) == Accepted(s.applied) + [p]
  {
    RunExtends(s.applied, p, g, b0, oracle);
    FoldSnoc(g, b0, Accepted(s.applied), p);
  }

  /** The next capture of the run that has reached inner line ky of outer line kx of round r. */
  ghost predicate AtPoint(s: State, g: Goal, b0: Best, oracle: nat -> Capture, r: nat, kx: nat, ky: nat) {
    && kx <= NUM_SEARCH_STEPS && ky <= NUM_SEARCH_STEPS
    && Tracks(s, g, b0, oracle, GRID_POINTS * r + NUM_SEARCH_STEPS * kx + ky)
  }

  ghost function Center(s: State, g: Goal, b0: Best, r: nat): Best
    requires |Accepted(s.applied)| >= GRID_POINTS * r
  {
    Fold(g, b0, Accepted(s.applied)[..GRID_POINTS * r])
  }

  /** Body of the inner loop: set the correction, capture, and either count an error or
      compare with the best. */
  method TryPoint(g: Goal, x: real, y: real, s0: State, oracle: nat -> Capture,
                  ghost b0: Best, ghost r: nat, ghost kx: nat, ghost ky: nat)
    returns (s: State, txError: bool)
    requires kx < NUM_SEARCH_STEPS && ky < NUM_SEARCH_STEPS && AtPoint(s0, g, b0, oracle, r, kx, ky)
    requires x == Coord(Center(s0, g, b0, r).x, StepOf(r), kx)
    requires y == Coord(Center(s0, g, b0, r).y, StepOf(r), ky)
    ensures AtPoint(s, g, b0, oracle, r, kx, if txError then ky else ky + 1)
    ensures Center(s, g, b0, r) == Center(s0, g, b0, r)
    ensures s.txErrorCount == s0.txErrorCount + if txError then 1 else 0
    ensures txError ==> EndsInError(s.applied)
  {
    var p := Applied(x, y, oracle(|s0.applied|));
    NextPoint(s0, p, g, b0, r, kx, ky);
    if p.capture.txError {
      TracksError(s0, p, g, b0, oracle, GRID_POINTS * r + NUM_SEARCH_STEPS * kx + ky);
      return State(s0.applied + [p], s0.best, s0.txErrorCount + 1), true;
    }
    s := State(s0.applied + [p], Pick(g, s0.best, p), s0.txErrorCount);
    TracksGood(s0, p, g, b0, oracle, GRID_POINTS * r + NUM_SEARCH_STEPS * kx + ky);
    CenterKept(s0, s, g, b0, r, p);
    return s, false;
  }

  lemma CenterKept(s0: State, s: State, g: Goal, b0: Best, r: nat, p: Applied)
    requires |Accepted(s0.applied)| >= GRID_POINTS * r && Accepted(s.applied) == Accepted(s0.applied) + [p]
    ensures Center(s, g, b0, r) == Center(s0, g, b0, r)
  {
    assert Accepted(s.applied)[..GRID_POINTS * r] == Accepted(s0.applied)[..GRID_POINTS * r];
  }

  /** The inner loop: five good captures along one line, or too many errors. */
  method SearchLine(g: Goal, x: real, yStart: real, yStop: real, yStep: real, s0: State,
                    oracle: nat -> Capture, ghost b0: Best, ghost r: nat, ghost kx: nat, ghost c: Best)
    returns (s: State, aborted: bool)
    requires kx < NUM_SEARCH_STEPS && s0.txErrorCount < MAX_NUM_TX_ERRORS
    requires AtPoint(s0, g, b0, oracle, r, kx, 0) && c == Center(s0, g, b0, r)
    requires yStep == StepOf(r) && x == Coord(c.x, yStep, kx)
    requires yStart == c.y - 3.0 * yStep && yStop == c.y + 3.0 * yStep
    ensures aborted <==> s.txErrorCount >= MAX_NUM_TX_ERRORS
    ensures s.txErrorCount <= MAX_NUM_TX_ERRORS && (aborted ==> EndsInError(s.applied))
    ensures Tracks(s, g, b0, oracle, |Accepted(s.applied)|)
    ensures !aborted ==> AtPoint(s, g, b0, oracle, r, kx, NUM_SEARCH_STEPS)
    ensures GRID_POINTS * r <= |Accepted(s.applied)| <= GRID_POINTS * r + GRID_POINTS
    ensures |Accepted(s.applied)| >= GRID_POINTS * r && Center(s, g, b0, r) == c
  {
    s := s0;
    var y := yStart + yStep;
    ghost var ky := 0;
    while y <= yStop - yStep
      invariant 0 <= ky <= NUM_SEARCH_STEPS && y == Coord(c.y, yStep, ky)
      invariant AtPoint(s, g, b0, oracle, r, kx, ky) && Center(s, g, b0, r) == c
      invariant s.txErrorCount < MAX_NUM_TX_ERRORS
      decreases NUM_SEARCH_STEPS - ky, MAX_NUM_TX_ERRORS - s.txErrorCount
    {
      CoordGuard(c.y, yStep, ky);
      var txError;
      s, txError := TryPoint(g, x, y, s, oracle, b0, r, kx, ky);
      if txError {
        y := y - yStep;
        if s.txErrorCount >= MAX_NUM_TX_ERRORS {
          return s, true;
        }
      } else {
        CoordNext(c.y, yStep, ky);
        ky := ky + 1;
      }
      y := y + yStep;
    }
    CoordGuard(c.y, yStep, ky);
    return s, false;
  }

  lemma NextPoint(s: State, p: Applied, g: Goal, b0: Best, r: nat, kx: nat, ky: nat)
    requires kx < NUM_SEARCH_STEPS && ky < NUM_SEARCH_STEPS
    requires |Accepted(s.applied)| == GRID_POINTS * r + NUM_SEARCH_STEPS * kx + ky
    requires p.x == Coord(Center(s, g, b0, r).x, StepOf(r), kx)
    requires p.y == Coord(Center(s, g, b0, r).y, StepOf(r), ky)
    ensures IsPoint(p, g, b0, Accepted(s.applied))
  {
    GridIndex(r, kx, ky);
  }

  /** The place in the count of accepted captures fixes round, outer and inner line. */
  lemma GridIndex(r: nat, kx: nat, ky: nat)
    requires kx < NUM_SEARCH_STEPS && ky < NUM_SEARCH_STEPS
    ensures
      var n := GRID_POINTS * r + NUM_SEARCH_STEPS * kx + ky;
      var m := n % GRID_POINTS;
      n / GRID_POINTS == r && m / NUM_SEARCH_STEPS == kx && m % NUM_SEARCH_STEPS == ky
  {
    var m := NUM_SEARCH_STEPS * kx + ky;
    assert (GRID_POINTS * r + m) / GRID_POINTS == r && (GRID_POINTS * r + m) % GRID_POINTS == m;
  }

  /** The outer loop: one round of 25 good captures, or too many errors. */
  method SearchRound(g: Goal, xStart: real, xStop: real, xStep: real, yStart: real, yStop: real, yStep: real,
                     s0: State, oracle: nat -> Capture, ghost b0: Best, ghost r: nat)
    returns (s: State, aborted: bool)
    requires s0.txErrorCount < MAX_NUM_TX_ERRORS && Tracks(s0, g, b0, oracle, GRID_POINTS * r)
    requires xStep == StepOf(r) && yStep == StepOf(r)
    requires xStart == s0.best.x - 3.0 * xStep && xStop == s0.best.x + 3.0 * xStep
    requires yStart == s0.best.y - 3.0 * yStep && yStop == s0.best.y + 3.0 * yStep
    ensures aborted <==> s.txErrorCount >= MAX_NUM_TX_ERRORS
    ensures s.txErrorCount <= MAX_NUM_TX_ERRORS && (aborted ==> EndsInError(s.applied))
    ensures Tracks(s, g, b0, oracle, |Accepted(s.applied)|)
    ensures !aborted ==> |Accepted(s.applied)| == GRID_POINTS * (r + 1)
    ensures GRID_POINTS * r <= |Accepted(s.applied)| <= GRID_POINTS * (r + 1)
  {
    s := s0;
    ghost var c := s0.best;
    assert Accepted(s0.applied)[..GRID_POINTS * r] == Accepted(s0.applied);
    var x := xStart + xStep;
    ghost var kx := 0;
    while x <= xStop - xStep
      invariant 0 <= kx <= NUM_SEARCH_STEPS && x == Coord(c.x, xStep, kx)
      invariant AtPoint(s, g, b0, oracle, r, kx, 0) && Center(s, g, b0, r) == c
      invariant s.txErrorCount < MAX_NUM_TX_ERRORS
      decreases NUM_SEARCH_STEPS - kx
    {
      CoordGuard(c.x, xStep, kx);
      s, aborted := SearchLine(g, x, yStart, yStop, yStep, s, oracle, b0, r, kx, c);
      if aborted { return s, true; }
      CoordNext(c.x, xStep, kx);
      kx := kx + 1;
      x := x + xStep;
    }
    CoordGuard(c.x, xStep, kx);
    return s, false;
  }

  /** The step falls below any positive precision. */
  lemma {:induction false} StepBound(r: nat)
    ensures StepOf(r) * (r as real + 1.0) <= 1.0
  {
    if r > 0 {
      var s, n := StepOf(r - 1), r as real;
      StepBound(r - 1);
      assert s * ((r - 1) as real + 1.0) == s * n;
      assert n + 1.0 <= 2.0 * n;
      assert s * (n + 1.0) <= s * (2.0 * n) == 2.0 * (s * n);
    }
  }

  lemma StepVanishes(precision: real) returns (n: nat)
    requires precision > 0.0
    ensures StepOf(n) < precision
  {
    var inv := 1.0 / precision;
    n := inv.Floor;
    StepBound(n);
    Reciprocal(StepOf(n), n as real + 1.0, precision);
  }

  lemma Reciprocal(s: real, m: real, p: real)
    requires p > 0.0 && m > 1.0 / p && s * m <= 1.0
    ensures s < p
  {
    assert p * m > p * (1.0 / p) == 1.0;
    assert (p - s) * m == p * m - s * m;
    assert (p - s) * m > 0.0 && m > 0.0;
  }

  lemma {:induction false} StepDecreases(r: nat, q: nat)
    requires r <= q
    ensures StepOf(q) <= StepOf(r)
  {
    if r < q { StepDecreases(r, q - 1); }
  }

  /** `n` rounds are run: the n-th step is the first one below the precision. */
  ghost predicate IsRoundCount(n: nat, precision: real) {
    && StepOf(n) < precision
    && forall r: nat :: r < n ==> StepOf(r) >= precision
  }

  lemma IsRoundCountUnique(n: nat, m: nat, precision: real)
    requires IsRoundCount(n, precision) && IsRoundCount(m, precision)
    ensures n == m
  {
  }

  /** The whole search for one frequency. It aborts at the tenth transmit error, and nothing
      is captured after that. */
  method Search(g: Goal, start: real, precision: real, oracle: nat -> Capture) returns (s: State, aborted: bool)
    requires precision > 0.0
    ensures Tracks(s, g, Best(start, 0.0, 0.0), oracle, |Accepted(s.applied)|)
    ensures aborted <==> s.txErrorCount == 10
    ensures s.txErrorCount <= 10 && (aborted ==> EndsInError(s.applied))
    ensures exists n: nat :: IsRoundCount(n, precision) && |Accepted(s.applied)| <= GRID_POINTS * n
                        && (!aborted ==> |Accepted(s.applied)| == GRID_POINTS * n)
  {
    var b0 := Best(start, 0.0, 0.0);
    s := State([], b0, 0);
    var xStart, xStop := -1.0, 1.0;
    var xStep := (xStop - xStart) / (NUM_SEARCH_STEPS + 1) as real;
    var yStart, yStop := -1.0, 1.0;
    var yStep := (yStop - yStart) / (NUM_SEARCH_STEPS + 1) as real;
    ghost var bound := StepVanishes(precision);
    ghost var r := 0;
    while xStep >= precision || yStep >= precision
      invariant xStep == StepOf(r) && yStep == StepOf(r)
      invariant xStart == s.best.x - 3.0 * xStep && xStop == s.best.x + 3.0 * xStep
      invariant yStart == s.best.y - 3.0 * yStep && yStop == s.best.y + 3.0 * yStep
      invariant Tracks(s, g, b0, oracle, GRID_POINTS * r) && s.txErrorCount < MAX_NUM_TX_ERRORS
      invariant forall q: nat :: q < r ==> StepOf(q) >= precision
      decreases bound - r
    {
      if r >= bound { StepDecreases(bound, r); }
      s, aborted := SearchRound(g, xStart, xStop, xStep, yStart, yStop, yStep, s, oracle, b0, r);
      if aborted {
        RoundCountExists(r, bound, precision);
        return s, true;
      }
      xStart := s.best.x - xStep;
      xStop := s.best.x + xStep;
      xStep := (xStop - xStart) / (NUM_SEARCH_STEPS + 1) as real;
      yStart := s.best.y - yStep;
      yStop := s.best.y + yStep;
      yStep := (yStop - yStart) / (NUM_SEARCH_STEPS + 1) as real;
      r := r + 1;
    }
    assert IsRoundCount(r, precision);
    return s, false;
  }

  lemma {:induction false} RoundCountExists(r: nat, bound: nat, precision: real)
    requires forall q: nat :: q <= r ==> StepOf(q) >= precision
    requires StepOf(bound) < precision
    ensures exists n: nat :: IsRoundCount(n, precision) && r + 1 <= n
    decreases bound - r
  {
    if r >= bound { StepDecreases(bound, r); }
    if StepOf(r + 1) >= precision {
      RoundCountExists(r + 1, bound, precision);
    } else {
      assert IsRoundCount(r + 1, precision);
    }
  }
}
