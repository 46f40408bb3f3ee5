/** The wrap-around transmit buffer of `tx_thread`. */
module TxBuffer {
  import opened Modular

  /** The samples of an unbounded waveform from position `at` on. */
  function Slice<T>(wave: nat -> T, at: nat, n: nat): seq<T> {
    seq(n, i requires 0 <= i < n => wave(at + i))
  }

  ghost predicate Periodic<T>(wave: nat -> T, period: nat) {
    forall i: nat :: wave(i + period) == wave(i)
  }

  lemma {:induction false} PeriodicTimes<T>(wave: nat -> T, period: nat, r: nat, q: nat)
    requires Periodic(wave, period)
    ensures q * period >= 0 && wave(r + q * period) == wave(r)
  {
    if q > 0 {
      var n := (q - 1) * period;
      PeriodicTimes(wave, period, r, q - 1);
      assert q * period == n + period;
      assert wave(r + n + period) == wave(r + n);
    }
  }

  lemma PeriodicMod<T>(wave: nat -> T, period: nat, i: nat)
    requires period > 0 && Periodic(wave, period)
    ensures wave(i % period) == wave(i)
  {
    PeriodicTimes(wave, period, i % period, i / period);
    assert i == i % period + (i / period) * period;
  }

  /** Position in the buffer after k sends. */
  function IndexAfter(k: nat, frameSize: nat, buffSize: nat): nat
    requires buffSize > 0
  {
    (k * frameSize) % buffSize
  }

  lemma NextIndex(k: nat, frameSize: nat, buffSize: nat)
    requires buffSize > 0
    ensures (IndexAfter(k, frameSize, buffSize) + frameSize) % buffSize == IndexAfter(k + 1, frameSize, buffSize)
  {
    ModOfSum(k * frameSize, frameSize, buffSize);
    assert (k + 1) * frameSize == k * frameSize + frameSize;
  }

  /** A frame read at its wrapped position lies inside the buffer, and is the frame of the
      unbounded waveform if the wrap length is a period. */
  lemma FrameMatches<T>(wave: nat -> T, buff: seq<T>, k: nat, frameSize: nat, buffSize: nat)
    requires buffSize > 0 && buff == Slice(wave, 0, buffSize + frameSize)
    ensures
      var index := IndexAfter(k, frameSize, buffSize);
      && index + frameSize <= |buff| && buff[index..index + frameSize] == Slice(wave, index, frameSize)
      && (Periodic(wave, buffSize) ==> Slice(wave, index, frameSize) == Slice(wave, k * frameSize, frameSize))
  {
    var at := k * frameSize;
    var index := at % buffSize;
    var frame, expected := Slice(wave, index, frameSize), Slice(wave, at, frameSize);
    if Periodic(wave, buffSize) {
      forall i | 0 <= i < frameSize
        ensures frame[i] == expected[i]
      {
        SameSample(wave, buffSize, at, i);
      }
    }
  }

  lemma SameSample<T>(wave: nat -> T, buffSize: nat, at: nat, i: nat)
    requires buffSize > 0 && Periodic(wave, buffSize)
    ensures wave(at % buffSize + i) == wave(at + i)
  {
    PeriodicMod(wave, buffSize, at % buffSize + i);
    PeriodicMod(wave, buffSize, at + i);
    ModOfSum(at, i, buffSize);
  }

  lemma SliceConcat<T>(wave: nat -> T, at: nat, m: nat, n: nat)
    ensures Slice(wave, at, m) + Slice(wave, at + m, n) == Slice(wave, at, m + n)
  {
  }

  /** What `sends` sends put out, frame by frame. */
  function Sent<T>(wave: nat -> T, buffSize: nat, frameSize: nat, sends: nat): seq<T>
    requires buffSize > 0
  {
    if sends == 0 then [] else
      Sent(wave, buffSize, frameSize, sends - 1)
      + Slice(wave, IndexAfter(sends - 1, frameSize, buffSize), frameSize)
  }

  /** When the wrap length is a period, the sends together are the waveform without a seam. */
  lemma {:induction false} SentIsWave<T>(wave: nat -> T, buffSize: nat, frameSize: nat, sends: nat)
    requires buffSize > 0 && Periodic(wave, buffSize)
    ensures Sent(wave, buffSize, frameSize, sends) == Slice(wave, 0, sends * frameSize)
    ensures forall n :: 0 <= n < sends * frameSize ==> Sent(wave, buffSize, frameSize, sends)[n] == wave(n)
  {
    if sends > 0 {
      var k := sends - 1;
      SentIsWave(wave, buffSize, frameSize, k);
      FrameMatches(wave, Slice(wave, 0, buffSize + frameSize), k, frameSize, buffSize);
      SliceConcat(wave, 0, k * frameSize, frameSize);
      assert sends * frameSize == k * frameSize + frameSize;
    }
  }

  lemma {:induction false} SentLength<T>(wave: nat -> T, buffSize: nat, frameSize: nat, sends: nat)
    requires buffSize > 0
    ensures |Sent(wave, buffSize, frameSize, sends)| == sends * frameSize
  {
    if sends > 0 {
      SentLength(wave, buffSize, frameSize, sends - 1);
      assert sends * frameSize == (sends - 1) * frameSize + frameSize;
    }
  }

  /** Sample i of send k, in plain numbers: the wave at the wrapped start of the frame, plus i. */
  lemma {:induction false} SentSample<T>(wave: nat -> T, buffSize: nat, frameSize: nat, sends: nat, k: nat, i: nat)
    requires buffSize > 0 && k < sends && i < frameSize
    ensures k * frameSize + i < |Sent(wave, buffSize, frameSize, sends)|
    ensures Sent(wave, buffSize, frameSize, sends)[k * frameSize + i] == wave((k * frameSize) % buffSize + i)
  {
    SentLength(wave, buffSize, frameSize, sends - 1);
    SentLength(wave, buffSize, frameSize, sends);
    assert sends * frameSize == (sends - 1) * frameSize + frameSize;
    if k < sends - 1 {
      SentSample(wave, buffSize, frameSize, sends - 1, k, i);
    }
  }

  method Prefill<T(0)>(wave: nat -> T, size: nat) returns (buff: array<T>)
    ensures fresh(buff) && buff[..] == Slice(wave, 0, size)
  {
    buff := new T[size];
    for i := 0 to size
      invariant buff[..i] == Slice(wave, 0, i)
    {
      buff[i] := wave(i);
      assert buff[..i + 1] == buff[..i] + [wave(i)];
    }
    assert buff[..] == buff[..size];
  }

  /** `tx_thread`'s loop for as many sends as the transmit flag stays set. Each send consumes
      its whole frame. The buffer holds one frame more than the wrap length, so no send reads
      past it. */
  method Transmit<T(0)>(wave: nat -> T, buffSize: nat, frameSize: nat, sends: nat) returns (sent: seq<T>, index: nat)
    requires buffSize > 0
    ensures sent == Sent(wave, buffSize, frameSize, sends)
    ensures index == IndexAfter(sends, frameSize, buffSize)
  {
    var buff := Prefill(wave, buffSize + frameSize);
    sent, index := [], 0;
    var k := 0;
    while k < sends
      invariant 0 <= k <= sends && index == IndexAfter(k, frameSize, buffSize)
      invariant sent == Sent(wave, buffSize, frameSize, k)
      invariant buff[..] == Slice(wave, 0, buffSize + frameSize)
    {
      FrameMatches(wave, buff[..], k, frameSize, buffSize);
      assert buff[..][index..index + frameSize] == buff[index..index + frameSize];
      NextIndex(k, frameSize, buffSize);
      sent := sent + buff[index..index + frameSize];
      index := index + frameSize;
      index := index % buffSize;
      k := k + 1;
    }
  }
}
