/** What the calibration search guarantees, and the per-frequency programs built on it. */
module CalibrationLaws {
  import opened CalibrationSearch

  ghost predicate IsOptimum(g: Goal, b: Best, start: real, acc: seq<Applied>) {
    && !Better(g, start, b.value)
    && forall j :: 0 <= j < |acc| ==> !Better(g, acc[j].capture.value, b.value)
  }

  ghost predicate IsAt(b: Best, p: Applied) {
    b == Best(p.capture.value, p.x, p.y)
  }

  /** The running best is the optimum of its starting value and every accepted capture, it
      moves exactly when a capture beats the starting value, and then it is a capture. */
  lemma {:induction false} FoldIsOptimum(g: Goal, b0: Best, acc: seq<Applied>)
    ensures IsOptimum(g, Fold(g, b0, acc), b0.value, acc)
    ensures (exists j :: 0 <= j < |acc| && Better(g, acc[j].capture.value, b0.value)) <==>
            Better(g, Fold(g, b0, acc).value, b0.value)
    ensures Fold(g, b0, acc) == b0 || exists j :: 0 <= j < |acc| && IsAt(Fold(g, b0, acc), acc[j])
    ensures !Better(g, Fold(g, b0, acc).value, b0.value) ==> Fold(g, b0, acc) == b0
  {
    if acc != [] {
      var front, last := acc[..|acc| - 1], acc[|acc| - 1];
      FoldIsOptimum(g, b0, front);
      var f, b := Fold(g, b0, front), Fold(g, b0, acc);
      if b == f && f != b0 {
        var j :| 0 <= j < |front| && IsAt(f, front[j]);
        assert IsAt(b, acc[j]);
      }
      if b != f {
        assert IsAt(b, acc[|acc| - 1]);
      }
    }
  }

  // ----- The grid

  ghost predicate OnGrid(acc: seq<Applied>, g: Goal, b0: Best) {
    forall j :: 0 <= j < |acc| ==> IsGridTurn(acc, j, g, b0)
  }

  ghost predicate IsGridTurn(acc: seq<Applied>, j: nat, g: Goal, b0: Best)
    requires j < |acc|
  {
    IsPoint(acc[j], g, b0, acc[..j])
  }

  lemma RunPrefix(a: seq<Applied>, i: nat, g: Goal, b0: Best, oracle: nat -> Capture)
    requires IsRun(a, g, b0, oracle) && i <= |a|
    ensures IsRun(a[..i], g, b0, oracle)
  {
    forall k | 0 <= k < i
      ensures IsTurn(a[..i], k, g, b0, oracle)
    {
      assert IsTurn(a, k, g, b0, oracle);
      assert a[..i][..k] == a[..k];
    }
  }

  lemma {:induction false} AcceptedOnGrid(a: seq<Applied>, g: Goal, b0: Best, oracle: nat -> Capture)
    requires IsRun(a, g, b0, oracle)
    ensures OnGrid(Accepted(a), g, b0)
  {
    if a != [] {
      var n := |a| - 1;
      RunPrefix(a, n, g, b0, oracle);
      AcceptedOnGrid(a[..n], g, b0, oracle);
      assert IsTurn(a, n, g, b0, oracle);
      var acc0, acc := Accepted(a[..n]), Accepted(a);
      forall j | 0 <= j < |acc|
        ensures IsGridTurn(acc, j, g, b0)
      {
        assert acc[..j] == acc0[..j];
        if j < |acc0| { assert IsGridTurn(acc0, j, g, b0); }
      }
    }
  }

  /** The first step is a third of the way from the centre of the window to its end, and the
      next window reaches exactly the neighbouring lines: its half width is this step. */
  lemma StepsShrinkByThree(r: nat)
    ensures 3.0 * StepOf(0) == 1.0 && 3.0 * StepOf(r + 1) == StepOf(r)
  {
  }

  /** Line k of a grid lies k - 2 steps from its centre. */
  lemma {:induction false} CoordIs(c: real, step: real, k: nat)
    ensures Coord(c, step, k) == c + (k as real - 2.0) * step
  {
    if k > 0 {
      CoordIs(c, step, k - 1);
      assert k as real == (k - 1) as real + 1.0;
      assert ((k - 1) as real - 2.0) * step + step == (k as real - 2.0) * step;
    }
  }

  lemma CoordRange(c: real, step: real, k: nat)
    requires step > 0.0 && k < NUM_SEARCH_STEPS
    ensures c - 2.0 * step <= Coord(c, step, k) <= c + 2.0 * step
  {
    assert Coord(c, step, 1) == c - step;
    assert Coord(c, step, 2) == c;
    assert Coord(c, step, 3) == c + step;
    assert Coord(c, step, 4) == c + 2.0 * step;
  }

  predicate Near(v: real, c: real, d: real) {
    c - d <= v <= c + d
  }

  lemma PointNearCenter(p: Applied, g: Goal, b0: Best, acc: seq<Applied>, r: nat)
    requires IsPoint(p, g, b0, acc) && GRID_POINTS * r <= |acc| < GRID_POINTS * (r + 1)
    ensures
      var c := Fold(g, b0, acc[..GRID_POINTS * r]);
      Near(p.x, c.x, 2.0 * StepOf(r)) && Near(p.y, c.y, 2.0 * StepOf(r))
  {
    var c := Fold(g, b0, acc[..GRID_POINTS * r]);
    var j := |acc| % GRID_POINTS;
    assert |acc| / GRID_POINTS == r;
    CoordRange(c.x, StepOf(r), j / NUM_SEARCH_STEPS);
    CoordRange(c.y, StepOf(r), j % NUM_SEARCH_STEPS);
  }

  lemma {:induction false} FoldMoves(g: Goal, b0: Best, acc: seq<Applied>, m: nat, n: nat)
    requires m <= n <= |acc|
    ensures Fold(g, b0, acc[..n]) == Fold(g, b0, acc[..m])
            || exists j :: m <= j < n && IsAt(Fold(g, b0, acc[..n]), acc[j])
    decreases n
  {
    if m < n {
      FoldMoves(g, b0, acc, m, n - 1);
      assert acc[..n][..n - 1] == acc[..n - 1];
      if Fold(g, b0, acc[..n]) != Fold(g, b0, acc[..n - 1]) {
        assert IsAt(Fold(g, b0, acc[..n]), acc[n - 1]);
      }
    }
  }

  lemma RoundMoves(acc: seq<Applied>, g: Goal, b0: Best, r: nat)
    requires OnGrid(acc, g, b0) && GRID_POINTS * (r + 1) <= |acc|
    ensures
      var c, c' := Fold(g, b0, acc[..GRID_POINTS * r]), Fold(g, b0, acc[..GRID_POINTS * (r + 1)]);
      Near(c'.x, c.x, 2.0 * StepOf(r)) && Near(c'.y, c.y, 2.0 * StepOf(r))
  {
    var m, n := GRID_POINTS * r, GRID_POINTS * (r + 1);
    FoldMoves(g, b0, acc, m, n);
    if Fold(g, b0, acc[..n]) != Fold(g, b0, acc[..m]) {
      var j :| m <= j < n && IsAt(Fold(g, b0, acc[..n]), acc[j]);
      assert IsGridTurn(acc, j, g, b0);
      PointNearCenter(acc[j], g, b0, acc[..j], r);
      assert acc[..j][..m] == acc[..m];
    }
  }

  /** A round moves the centre by at most two of its steps, so the next search window lies
      inside this one. */
  lemma WindowsNest(acc: seq<Applied>, g: Goal, b0: Best, r: nat)
    requires OnGrid(acc, g, b0) && GRID_POINTS * (r + 1) <= |acc|
    ensures
      var c, c' := Fold(g, b0, acc[..GRID_POINTS * r]), Fold(g, b0, acc[..GRID_POINTS * (r + 1)]);
      && Near(c'.x, c.x, 2.0 * StepOf(r)) && Near(c'.y, c.y, 2.0 * StepOf(r))
      && c.x - 3.0 * StepOf(r) <= c'.x - 3.0 * StepOf(r + 1)
      && c'.x + 3.0 * StepOf(r + 1) <= c.x + 3.0 * StepOf(r)
      && c.y - 3.0 * StepOf(r) <= c'.y - 3.0 * StepOf(r + 1)
      && c'.y + 3.0 * StepOf(r + 1) <= c.y + 3.0 * StepOf(r)
  {
    RoundMoves(acc, g, b0, r);
    StepsShrinkByThree(r);
  }

  lemma {:induction false} WindowInside(acc: seq<Applied>, g: Goal, start: real, r: nat)
    requires OnGrid(acc, g, Best(start, 0.0, 0.0)) && GRID_POINTS * r <= |acc|
    ensures
      var c := Fold(g, Best(start, 0.0, 0.0), acc[..GRID_POINTS * r]);
      Near(c.x, 0.0, 1.0 - 3.0 * StepOf(r)) && Near(c.y, 0.0, 1.0 - 3.0 * StepOf(r))
  {
    if r > 0 {
      WindowInside(acc, g, start, r - 1);
      WindowsNest(acc, g, Best(start, 0.0, 0.0), r - 1);
    }
  }

  /** Every correction ever applied, also one spoiled by a transmit error or in a run that
      is aborted, lies strictly inside (-1, 1) on both axes. */
  lemma AppliedInside(a: seq<Applied>, g: Goal, start: real, oracle: nat -> Capture, i: nat)
    requires IsRun(a, g, Best(start, 0.0, 0.0), oracle) && i < |a|
    ensures -1.0 < a[i].x < 1.0 && -1.0 < a[i].y < 1.0
  {
    var b0 := Best(start, 0.0, 0.0);
    var acc := Accepted(a[..i]);
    var r := |acc| / GRID_POINTS;
    assert IsTurn(a, i, g, b0, oracle);
    RunPrefix(a, i, g, b0, oracle);
    AcceptedOnGrid(a[..i], g, b0, oracle);
    PointNearCenter(a[i], g, b0, acc, r);
    WindowInside(acc, g, start, r);
  }

  /** After a transmit error the very same correction is applied again. */
  lemma ErrorRepeatsPoint(a: seq<Applied>, g: Goal, b0: Best, oracle: nat -> Capture, i: nat)
    requires IsRun(a, g, b0, oracle) && i + 1 < |a| && a[i].capture.txError
    ensures (a[i + 1].x, a[i + 1].y) == (a[i].x, a[i].y)
  {
    assert IsTurn(a, i, g, b0, oracle) && IsTurn(a, i + 1, g, b0, oracle);
    assert a[..i + 1][..i] == a[..i];
    assert Accepted(a[..i]) + [] == Accepted(a[..i]);
  }

  /** Within a round the 25 accepted captures are at 25 different corrections. */
  lemma RoundPointsDiffer(acc: seq<Applied>, g: Goal, b0: Best, r: nat, i: nat, j: nat)
    requires OnGrid(acc, g, b0)
    requires GRID_POINTS * r <= i < j < GRID_POINTS * (r + 1) && j < |acc|
    ensures (acc[i].x, acc[i].y) != (acc[j].x, acc[j].y)
  {
    assert IsGridTurn(acc, i, g, b0) && IsGridTurn(acc, j, g, b0);
    LinesDiffer(r, i, j);
    var n := GRID_POINTS * r;
    assert acc[..i][..n] == acc[..n] && acc[..j][..n] == acc[..n];
    var c := Fold(g, b0, acc[..n]);
    var mi, mj := i % GRID_POINTS, j % GRID_POINTS;
    CoordInjective(c.x, StepOf(r), mi / NUM_SEARCH_STEPS, mj / NUM_SEARCH_STEPS);
    CoordInjective(c.y, StepOf(r), mi % NUM_SEARCH_STEPS, mj % NUM_SEARCH_STEPS);
  }

  lemma LinesDiffer(r: nat, i: nat, j: nat)
    requires GRID_POINTS * r <= i < j < GRID_POINTS * (r + 1)
    ensures i / GRID_POINTS == r && j / GRID_POINTS == r
    ensures
      var mi, mj := i % GRID_POINTS, j % GRID_POINTS;
      mi / NUM_SEARCH_STEPS != mj / NUM_SEARCH_STEPS || mi % NUM_SEARCH_STEPS != mj % NUM_SEARCH_STEPS
  {
  }

  lemma {:induction false} CoordGrows(c: real, step: real, k: nat, l: nat)
    requires step > 0.0 && k < l
    ensures Coord(c, step, k) < Coord(c, step, l)
    decreases l
  {
    if k < l - 1 { CoordGrows(c, step, k, l - 1); }
  }

  lemma CoordInjective(c: real, step: real, k: nat, l: nat)
    requires step > 0.0
    ensures Coord(c, step, k) == Coord(c, step, l) ==> k == l
  {
    if k < l { CoordGrows(c, step, k, l); } else if l < k { CoordGrows(c, step, l, k); }
  }

  // ----- The path through the grid

  /** Where the accepted captures of round r are taken, in plain numbers: the inner axis runs
      through its five lines, then the outer axis moves on by one. */
  lemma GridWalk(acc: seq<Applied>, g: Goal, b0: Best, r: nat, kx: nat, ky: nat)
    requires OnGrid(acc, g, b0) && kx < 5 && ky < 5 && 25 * r + 5 * kx + ky < |acc|
    ensures
      var c, p := Fold(g, b0, acc[..25 * r]), acc[25 * r + 5 * kx + ky];
      && p.x == c.x + (kx as real - 2.0) * StepOf(r)
      && p.y == c.y + (ky as real - 2.0) * StepOf(r)
  {
    LinesAt(acc, g, b0, r, kx, ky);
    var c := Fold(g, b0, acc[..25 * r]);
    CoordIs(c.x, StepOf(r), kx);
    CoordIs(c.y, StepOf(r), ky);
  }

  lemma LinesAt(acc: seq<Applied>, g: Goal, b0: Best, r: nat, kx: nat, ky: nat)
    requires OnGrid(acc, g, b0) && kx < 5 && ky < 5 && 25 * r + 5 * kx + ky < |acc|
    ensures
      var c, p := Fold(g, b0, acc[..25 * r]), acc[25 * r + 5 * kx + ky];
      p.x == Coord(c.x, StepOf(r), kx) && p.y == Coord(c.y, StepOf(r), ky)
  {
    var a := 25 * r + 5 * kx + ky;
    GridIndex(r, kx, ky);
    assert IsGridTurn(acc, a, g, b0);
    assert acc[..a][..25 * r] == acc[..25 * r];
  }

  lemma InnerNeighbours(acc: seq<Applied>, g: Goal, b0: Best, r: nat, kx: nat, ky: nat)
    requires OnGrid(acc, g, b0) && kx < 5 && ky < 4 && 25 * r + 5 * kx + ky + 1 < |acc|
    ensures var a := 25 * r + 5 * kx + ky; acc[a + 1].y - acc[a].y == StepOf(r)
  {
    GridWalk(acc, g, b0, r, kx, ky);
    GridWalk(acc, g, b0, r, kx, ky + 1);
    assert (ky + 1) as real == ky as real + 1.0;
  }

  /** Rounds in terms of the captures alone: neighbouring inner captures lie a third apart in
      the first round, and in every later one a third as far as in the round before. */
  lemma CapturesShrinkByThree(acc: seq<Applied>, g: Goal, b0: Best, r: nat, kx: nat, ky: nat)
    requires OnGrid(acc, g, b0) && kx < 5 && ky < 4
    ensures
      var a := 25 * r + 5 * kx + ky;
      && (r == 0 && a + 1 < |acc| ==> 3.0 * (acc[a + 1].y - acc[a].y) == 1.0)
      && (a + 26 < |acc| ==> 3.0 * (acc[a + 26].y - acc[a + 25].y) == acc[a + 1].y - acc[a].y)
  {
    var a := 25 * r + 5 * kx + ky;
    StepsShrinkByThree(r);
    if a + 1 < |acc| { InnerNeighbours(acc, g, b0, r, kx, ky); }
    if a + 26 < |acc| { InnerNeighbours(acc, g, b0, r + 1, kx, ky); }
  }

  /** With the default precision a complete search runs eight rounds, and accepts 200 captures. */
  lemma DefaultRounds(n: nat)
    ensures IsRoundCount(n, 0.0001) <==> n == 8
  {
    StepsShrinkByThree(0);
    StepsShrinkByThree(1);
    StepsShrinkByThree(2);
    StepsShrinkByThree(3);
    StepsShrinkByThree(4);
    StepsShrinkByThree(5);
    StepsShrinkByThree(6);
    StepsShrinkByThree(7);
    assert StepOf(7) >= 0.0001 > StepOf(8);
    forall r: nat | r < 8
      ensures StepOf(r) >= 0.0001
    {
      StepDecreases(r, 7);
    }
    assert IsRoundCount(8, 0.0001);
    if IsRoundCount(n, 0.0001) { IsRoundCountUnique(n, 8, 0.0001); }
  }

  /** A round whose step equals the precision is still run, and is the last one. */
  lemma StepAtPrecisionRuns(r: nat, n: nat)
    ensures IsRoundCount(n, StepOf(r)) <==> n == r + 1
  {
    StepsShrinkByThree(r);
    forall q: nat | q < r + 1
      ensures StepOf(q) >= StepOf(r)
    {
      StepDecreases(q, r);
    }
    assert IsRoundCount(r + 1, StepOf(r));
    if IsRoundCount(n, StepOf(r)) { IsRoundCountUnique(n, r + 1, StepOf(r)); }
  }

  /** Of equally good captures the first one is kept. */
  lemma {:induction false} FoldIsFirst(g: Goal, b0: Best, acc: seq<Applied>)
    ensures Better(g, Fold(g, b0, acc).value, b0.value) ==> exists j :: 0 <= j < |acc| && IsFirstBest(g, b0, acc, j)
  {
    FoldIsOptimum(g, b0, acc);
    if acc != [] && Better(g, Fold(g, b0, acc).value, b0.value) {
      var n := |acc| - 1;
      var f, b := Fold(g, b0, acc[..n]), Fold(g, b0, acc);
      FoldIsFirst(g, b0, acc[..n]);
      FoldIsOptimum(g, b0, acc[..n]);
      if b == f {
        var j :| 0 <= j < n && IsFirstBest(g, b0, acc[..n], j);
        assert IsFirstBest(g, b0, acc, j);
      } else {
        assert IsFirstBest(g, b0, acc, n);
      }
    }
  }

  ghost predicate IsFirstBest(g: Goal, b0: Best, acc: seq<Applied>, j: nat)
    requires j < |acc|
  {
    && IsAt(Fold(g, b0, acc), acc[j])
    && forall i :: 0 <= i < j ==> Better(g, acc[j].capture.value, acc[i].capture.value)
  }
}
