/** `set_optimal_rx_gain`: the two-phase gain sweep, over exact reals and for any measured
    powers. */
module RxGain {
  import opened Arithmetic

  /** One capture: the gain it was taken at, and the measured power. */
  datatype Capture = Capture(gain: real, power: real)

  /** The lattice of gains the sweep walks. */
  function GainAt(start: real, step: real, k: nat): real {
    if k == 0 then start else GainAt(start, step, k - 1) + step
  }

  function Clip(v: real, lo: real, hi: real): real {
    if v < lo then lo else if v > hi then hi else v
  }

  lemma {:induction false} GainMonotone(start: real, step: real, j: nat, k: nat)
    requires step > 0.0 && j <= k
    ensures GainAt(start, step, j) <= GainAt(start, step, k)
    decreases k
  {
    if j < k { GainMonotone(start, step, j, k - 1); }
  }

  lemma {:induction false} GainIsLinear(start: real, step: real, k: nat)
    ensures GainAt(start, step, k) == start + k as real * step
  {
    if k > 0 {
      GainIsLinear(start, step, k - 1);
      assert k as real * step == (k - 1) as real * step + step;
    }
  }

  /** Some lattice gain lies beyond the range, so the sweep runs out of gains. */
  lemma GainExceeds(start: real, stop: real, step: real) returns (n: nat)
    requires step > 0.0 && start <= stop
    ensures GainAt(start, step, n) > stop
  {
    var q := (stop - start) / step;
    assert q * step == stop - start;
    n := q.Floor + 1;
    GainIsLinear(start, step, n);
    var m := n as real;
    assert m > q;
    assert (m - q) * step > 0.0;
  }

  /** The power rose by at least half a gain step. */
  predicate Rises(prev: real, curr: real, step: real) {
    curr - prev >= step - step * 0.5
  }

  /** A rise is one of at least half the gain step. */
  lemma RisesExactly(prev: real, step: real, d: real)
    requires step > 0.0
    ensures Rises(prev, prev + d, step) <==> d / step >= 0.5
  {
    var q := d / step;
    assert q * step == d;
    SignOfFactor(q - 0.5, step);
    assert (q - 0.5) * step == d - 0.5 * step;
  }

  /** Every gain set lies in the device range, and the n-th capture measures power(n). */
  ghost predicate InRange(caps: seq<Capture>, start: real, stop: real, power: nat -> real) {
    forall n :: 0 <= n < |caps| ==> start <= caps[n].gain <= stop && caps[n].power == power(n)
  }

  /** Capture m was taken at lattice gain m + 1, and from the second on its power was negative
      and had not risen. */
  ghost predicate AtFloor(caps: seq<Capture>, start: real, step: real, m: nat)
    requires m < |caps|
  {
    && caps[m].gain == GainAt(start, step, m + 1)
    && (m > 0 ==> caps[m].power < 0.0 && !Rises(caps[m - 1].power, caps[m].power, step))
  }

  /** The first n captures saw only the noise floor. */
  ghost predicate NoiseFloor(caps: seq<Capture>, start: real, step: real, n: nat) {
    1 <= n <= |caps| && forall m :: 0 <= m < n ==> AtFloor(caps, start, step, m)
  }

  /** Capture i - 1, at lattice gain i, ended the first phase: it rose, or was high already. */
  ghost predicate SignalFound(caps: seq<Capture>, start: real, step: real, i: nat) {
    && 2 <= i <= |caps|
    && NoiseFloor(caps, start, step, i - 1)
    && caps[i - 1].gain == GainAt(start, step, i)
    && (caps[i - 1].power >= 0.0 || Rises(caps[i - 2].power, caps[i - 1].power, step))
  }

  /** The power capture n of the second phase is compared with: the first phase's last gain
      is captured again, and compared with the gain below it. */
  function Before(caps: seq<Capture>, i: nat, n: nat): real
    requires 2 <= i <= n <= |caps|
  {
    if n == i then caps[i - 2].power else caps[n - 1].power
  }

  /** Capture m was taken at lattice gain m, with a rise. */
  ghost predicate RisesAt(caps: seq<Capture>, start: real, step: real, i: nat, m: nat)
    requires 2 <= i <= m < |caps|
  {
    caps[m].gain == GainAt(start, step, m) && Rises(Before(caps, i, m), caps[m].power, step)
  }

  /** Captures i, i + 1, ..., before the one numbered n, were taken at lattice gains i,
      i + 1, ..., each with a rise. */
  ghost predicate Rising(caps: seq<Capture>, start: real, step: real, i: nat, n: nat) {
    2 <= i <= n <= |caps| && forall m :: i <= m < n ==> RisesAt(caps, start, step, i, m)
  }

  /** The signal was found at lattice gain i, and the rise held until gain j: either that is
      beyond the range, or the capture there failed to rise. */
  ghost predicate EndsAfter(caps: seq<Capture>, start: real, stop: real, step: real, i: nat, j: nat) {
    && SignalFound(caps, start, step, i) && Rising(caps, start, step, i, j)
    && if |caps| == j then GainAt(start, step, j) > stop
       else |caps| == j + 1 && caps[j].gain == GainAt(start, step, j) && !Rises(Before(caps, i, j), caps[j].power, step)
  }

  /** A complete sweep that ended at lattice gain j: only noise within the range, or a signal
      found and followed to its end. */
  ghost predicate IsSweep(caps: seq<Capture>, start: real, stop: real, step: real, j: nat) {
    || (j >= 2 && |caps| == j - 1 && NoiseFloor(caps, start, step, j - 1) && GainAt(start, step, j) > stop)
    || (exists i: nat :: EndsAfter(caps, start, stop, step, i, j))
  }

  /** The first phase in plain numbers: lattice gains from one step above the bottom, and from
      the second capture on powers below zero that do not rise by half a step. */
  lemma NoiseMeans(caps: seq<Capture>, start: real, step: real, n: nat)
    requires NoiseFloor(caps, start, step, n)
    ensures forall m :: 0 <= m < n ==> caps[m].gain == GainAt(start, step, m + 1)
    ensures forall m :: 1 <= m < n ==> caps[m].power < 0.0 && caps[m].power - caps[m - 1].power < 0.5 * step
  {
    forall m | 0 <= m < n
      ensures caps[m].gain == GainAt(start, step, m + 1)
    {
      assert AtFloor(caps, start, step, m);
    }
    forall m | 1 <= m < n
      ensures caps[m].power < 0.0 && caps[m].power - caps[m - 1].power < 0.5 * step
    {
      assert AtFloor(caps, start, step, m);
    }
  }

  /** The second phase in plain numbers: the lattice gain at which the signal was found is
      captured again, and every further one rises by half a step. */
  lemma RiseMeans(caps: seq<Capture>, start: real, step: real, i: nat, n: nat)
    requires Rising(caps, start, step, i, n)
    ensures forall m :: i <= m < n ==> caps[m].gain == GainAt(start, step, m)
    ensures i < n ==> caps[i].power - caps[i - 2].power >= 0.5 * step
    ensures forall m :: i < m < n ==> caps[m].power - caps[m - 1].power >= 0.5 * step
  {
    forall m | i <= m < n
      ensures caps[m].gain == GainAt(start, step, m)
      ensures caps[m].power - caps[if m == i then i - 2 else m - 1].power >= 0.5 * step
    {
      assert RisesAt(caps, start, step, i, m);
    }
  }

  /** How the phases meet: a complete sweep is all noise up to the end of the range, or the
      capture numbered i - 1 ended the noise and the second phase ran from there. */
  lemma SweepMeans(caps: seq<Capture>, start: real, stop: real, step: real, j: nat) returns (i: nat)
    requires IsSweep(caps, start, stop, step, j)
    ensures
      || (i == |caps| == j - 1 && NoiseFloor(caps, start, step, i) && GainAt(start, step, j) > stop)
      || (&& 2 <= i <= j && NoiseFloor(caps, start, step, i - 1) && Rising(caps, start, step, i, j)
          && caps[i - 1].gain == GainAt(start, step, i)
          && (caps[i - 1].power >= 0.0 || caps[i - 1].power - caps[i - 2].power >= 0.5 * step)
          && if |caps| == j then GainAt(start, step, j) > stop
             else |caps| == j + 1 && caps[j].gain == GainAt(start, step, j)
                  && caps[j].power - caps[if j == i then i - 2 else j - 1].power < 0.5 * step)
  {
    if j >= 2 && |caps| == j - 1 && NoiseFloor(caps, start, step, j - 1) && GainAt(start, step, j) > stop {
      i := |caps|;
    } else {
      i :| EndsAfter(caps, start, stop, step, i, j);
    }
  }

  lemma NoiseLonger(caps: seq<Capture>, c: Capture, start: real, step: real, n: nat)
    requires NoiseFloor(caps, start, step, n)
    ensures NoiseFloor(caps + [c], start, step, n)
    ensures n == |caps| && AtFloor(caps + [c], start, step, n) ==> NoiseFloor(caps + [c], start, step, n + 1)
  {
    forall m | 0 <= m < n
      ensures AtFloor(caps + [c], start, step, m)
    {
      assert AtFloor(caps, start, step, m);
    }
  }

  lemma RisingLonger(caps: seq<Capture>, c: Capture, start: real, step: real, i: nat)
    requires SignalFound(caps, start, step, i) && Rising(caps, start, step, i, |caps|)
    ensures SignalFound(caps + [c], start, step, i) && Rising(caps + [c], start, step, i, |caps|)
    ensures Before(caps + [c], i, |caps|) == Before(caps, i, |caps|)
    ensures RisesAt(caps + [c], start, step, i, |caps|) ==> Rising(caps + [c], start, step, i, |caps| + 1)
  {
    NoiseLonger(caps, c, start, step, i - 1);
    forall m | i <= m < |caps|
      ensures RisesAt(caps + [c], start, step, i, m)
    {
      assert RisesAt(caps, start, step, i, m);
    }
  }

  /** Sets the gain and captures. */
  method CaptureAt(caps0: seq<Capture>, rxGain: real, power: nat -> real) returns (caps: seq<Capture>, curr: real)
    ensures curr == power(|caps0|) && caps == caps0 + [Capture(rxGain, curr)]
  {
    curr := power(|caps0|);
    caps := caps0 + [Capture(rxGain, curr)];
  }

  /** First phase: raise the gain until the signal is above the noise floor. */
  method RiseAboveNoise(start: real, stop: real, step: real, power: nat -> real, caps0: seq<Capture>, prev0: real,
                        ghost bound: nat)
    returns (caps: seq<Capture>, prev: real, rxGain: real, found: bool)
    requires step > 0.0 && GainAt(start, step, 1) <= stop && GainAt(start, step, bound) > stop
    requires InRange(caps0, start, stop, power) && caps0 == [Capture(GainAt(start, step, 1), prev0)]
    ensures InRange(caps, start, stop, power)
    ensures found <==> rxGain <= stop
    ensures found ==> SignalFound(caps, start, step, |caps|) && prev == caps[|caps| - 2].power
                      && rxGain == GainAt(start, step, |caps|)
    ensures !found ==> NoiseFloor(caps, start, step, |caps|) && rxGain == GainAt(start, step, |caps| + 1)
    ensures GainAt(start, step, if found then |caps| - 1 else |caps|) <= stop
  {
    caps, prev, found := caps0, prev0, false;
    rxGain := start + step + step;
    assert rxGain == GainAt(start, step, 2);
    while rxGain <= stop
      invariant InRange(caps, start, stop, power) && NoiseFloor(caps, start, step, |caps|)
      invariant prev == caps[|caps| - 1].power
      invariant rxGain == GainAt(start, step, |caps| + 1) && GainAt(start, step, |caps|) <= stop
      decreases bound - |caps|
    {
      ghost var before := caps;
      GainMonotone(start, step, 0, |caps| + 1);
      if bound <= |caps| + 1 { GainMonotone(start, step, bound, |caps| + 1); }
      var curr;
      caps, curr := CaptureAt(caps, rxGain, power);
      NoiseLonger(before, caps[|caps| - 1], start, step, |before|);
      var delta := curr - prev;
      if curr >= 0.0 { return caps, prev, rxGain, true; }
      if delta >= step - step * 0.5 { return caps, prev, rxGain, true; }
      assert AtFloor(caps, start, step, |before|);
      prev := curr;
      rxGain := rxGain + step;
    }
  }

  /** Second phase: raise the gain until the signal is compressed. */
  method FindCompression(start: real, stop: real, step: real, power: nat -> real, caps0: seq<Capture>, prev0: real,
                         gain0: real, ghost bound: nat)
    returns (caps: seq<Capture>, rxGain: real, ghost j: nat)
    requires step > 0.0 && GainAt(start, step, bound) > stop
    requires InRange(caps0, start, stop, power) && SignalFound(caps0, start, step, |caps0|)
    requires prev0 == caps0[|caps0| - 2].power && gain0 == GainAt(start, step, |caps0|)
    requires GainAt(start, step, |caps0| - 1) <= stop
    ensures InRange(caps, start, stop, power) && j >= 2 && IsSweep(caps, start, stop, step, j)
    ensures rxGain == GainAt(start, step, j) && GainAt(start, step, j - 1) <= stop
  {
    caps, rxGain, j := caps0, gain0, |caps0|;
    ghost var i := |caps0|;
    var prev := prev0;
    while rxGain <= stop
      invariant InRange(caps, start, stop, power) && |caps| == j
      invariant SignalFound(caps, start, step, i) && Rising(caps, start, step, i, j)
      invariant prev == Before(caps, i, j)
      invariant rxGain == GainAt(start, step, j) && GainAt(start, step, j - 1) <= stop
      decreases bound - j
    {
      ghost var before := caps;
      GainMonotone(start, step, 0, j);
      if bound <= j { GainMonotone(start, step, bound, j); }
      var curr;
      caps, curr := CaptureAt(caps, rxGain, power);
      RisingLonger(before, caps[|caps| - 1], start, step, i);
      var delta := curr - prev;
      if delta < step - step * 0.5 {
        assert EndsAfter(caps, start, stop, step, i, j);
        return;
      }
      assert RisesAt(caps, start, step, i, j);
      prev := curr;
      j := j + 1;
      rxGain := rxGain + step;
    }
    assert EndsAfter(caps, start, stop, step, i, j);
  }

  lemma TwoStepsBelow(start: real, stop: real, step: real, k: nat)
    requires step > 0.0 && GainAt(start, step, k + 1) <= stop
    ensures GainAt(start, step, k + 2) - 2.0 * step == GainAt(start, step, k)
    ensures start <= GainAt(start, step, k) <= stop - step
  {
    GainMonotone(start, step, 0, k);
    assert GainAt(start, step, k + 1) == GainAt(start, step, k) + step;
  }

  /** Both phases, from the first capture one step above the bottom of the range. */
  method SweepGains(start: real, stop: real, step: real, power: nat -> real)
    returns (caps: seq<Capture>, rxGain: real, ghost j: nat)
    requires step > 0.0 && GainAt(start, step, 1) <= stop
    ensures InRange(caps, start, stop, power) && j >= 2 && IsSweep(caps, start, stop, step, j)
    ensures rxGain == GainAt(start, step, j) && GainAt(start, step, j - 1) <= stop
  {
    assert GainAt(start, step, 1) == start + step;
    ghost var bound := GainExceeds(start, stop, step);
    var prev, found;
    caps, prev := CaptureAt([], start + step, power);
    caps, prev, rxGain, found := RiseAboveNoise(start, stop, step, power, caps, prev, bound);
    j := |caps| + 1;
    if found {
      caps, rxGain, j := FindCompression(start, stop, step, power, caps, prev, rxGain, bound);
    }
  }

  /** Sweeps and sets the final gain; nothing is set when the range is shorter than a step.
      The final gain is two lattice steps below the end of the sweep, and the clip to the
      device range never changes it. */
  method SetOptimalRxGain(start: real, stop: real, step: real, power: nat -> real)
    returns (caps: seq<Capture>, gain: real, isSet: bool)
    requires step > 0.0 && start <= stop
    ensures isSet <==> stop - start >= step
    ensures !isSet ==> caps == []
    ensures InRange(caps, start, stop, power)
    ensures isSet ==> start <= gain <= stop - step
    ensures isSet ==> exists j: nat :: IsSweep(caps, start, stop, step, j + 2) && gain == GainAt(start, step, j)
  {
    if stop - start < step { return [], start, false; }
    assert GainAt(start, step, 1) == start + step;
    var rxGain;
    ghost var j;
    caps, rxGain, j := SweepGains(start, stop, step, power);
    TwoStepsBelow(start, stop, step, j - 2);
    assert IsSweep(caps, start, stop, step, j - 2 + 2);
    return caps, Clip(rxGain - 2.0 * step, start, stop), true;
  }
}
