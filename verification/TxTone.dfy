/** The length `tx_thread` gives its buffer, and when the tone it sends has no seam. */
module TxTone {
  import opened Arithmetic
  import opened Modular
  import opened TxBuffer

  function Frac(x: real): real {
    x - x.Floor as real
  }

  lemma FloorUnique(x: real, n: int)
    requires n as real <= x < n as real + 1.0
    ensures x.Floor == n
  {
  }

  lemma FracOfSum(x: real, n: int)
    ensures Frac(x + n as real) == Frac(x)
  {
    var k := x.Floor + n;
    assert k as real == x.Floor as real + n as real;
    FloorUnique(x + n as real, k);
  }

  /** By how much of a full turn the tone advances from one sample to the next. */
  function Turns(rate: real, freq: real): real
    requires rate > 0.0
  {
    freq / rate
  }

  /** The turns made in n samples. */
  function TurnsIn(n: int, turns: real): real {
    n as real * turns
  }

  lemma TurnsSum(n: int, m: int, turns: real)
    ensures TurnsIn(n + m, turns) == TurnsIn(n, turns) + TurnsIn(m, turns)
  {
    assert (n + m) as real == n as real + m as real;
  }

  /** Sample i of the tone is its shape at this phase. */
  function Phase(turns: real, i: int): real {
    Frac(TurnsIn(i, turns))
  }

  function Tone<T>(shape: real -> T, turns: real): nat -> T {
    (i: nat) => shape(Phase(turns, i))
  }

  /** The tone whose shape is the phase itself, so that no seam goes unnoticed. */
  function Sawtooth(turns: real): nat -> real {
    (i: nat) => Phase(turns, i)
  }

  // ----- The buffer length

  /** The part of a second that does not hold a complete wave, in samples. */
  function Lost(rate: real, freq: real): real
    requires freq > 0.0
  {
    Frac(freq) * rate / freq
  }

  lemma LostTurns(rate: real, freq: real)
    requires rate > 0.0 && freq > 0.0
    ensures 0.0 <= Lost(rate, freq) <= rate
    ensures Lost(rate, freq) * Turns(rate, freq) == Frac(freq)
    ensures rate * Turns(rate, freq) == freq
  {
    var l, u, f := Lost(rate, freq), Turns(rate, freq), Frac(freq);
    assert u * rate == freq && l * freq == f * rate;
    assert (l * u - f) * rate == l * (u * rate) - f * rate == 0.0;
    SignOfFactor(l * u - f, rate);
    assert l * freq >= 0.0 && (rate - l) * freq == rate * (freq - f) >= 0.0;
    SignOfFactor(l, freq);
    SignOfFactor(rate - l, freq);
  }

  /** `buff_size`. The casts truncate, which for these operands rounds down. */
  function BuffSize(rate: real, freq: real, frameSize: nat): nat
    requires rate > 0.0 && freq >= 0.0
  {
    if freq == 0.0 then frameSize
    else LostTurns(rate, freq); rate.Floor - Lost(rate, freq).Floor
  }

  /** A second must hold a complete wave and a sample: the length is positive, and may be
      divided by, exactly from one hertz and one sample a second on. */
  lemma BuffSizePositive(rate: real, freq: real, frameSize: nat)
    requires rate > 0.0 && freq > 0.0
    ensures BuffSize(rate, freq, frameSize) > 0 <==> freq >= 1.0 && rate >= 1.0
  {
    var l, f := Lost(rate, freq), Frac(freq);
    LostTurns(rate, freq);
    assert l * freq == f * rate;
    if freq < 1.0 {
      FloorUnique(freq, 0);
      assert (l - rate) * freq == 0.0;
      SignOfFactor(l - rate, freq);
    } else {
      HalfLost(rate, freq, l, f);
      HalfLeft(rate, l);
    }
  }

  lemma HalfLeft(rate: real, lost: real)
    requires 0.0 <= lost && 2.0 * lost <= rate
    ensures rate.Floor - lost.Floor > 0 <==> rate >= 1.0
  {
  }

  lemma HalfLost(rate: real, freq: real, l: real, f: real)
    requires rate > 0.0 && freq > 0.0 && l * freq == f * rate && 2.0 * f <= freq
    ensures 2.0 * l <= rate
  {
    var spare := freq - 2.0 * f;
    assert rate * spare >= 0.0;
    assert rate * spare == rate * freq - 2.0 * (f * rate);
    assert (rate - 2.0 * l) * freq == rate * freq - 2.0 * (l * freq);
    SignOfFactor(rate - 2.0 * l, freq);
  }

  /** At a whole sample rate the length is the least number of samples that holds all complete
      waves of a second. */
  lemma HoldsCompleteWaves(rate: real, freq: real, frameSize: nat)
    requires rate > 0.0 && freq > 0.0 && Frac(rate) == 0.0
    ensures
      var n, waves := BuffSize(rate, freq, frameSize) as real, freq.Floor as real;
      (n - 1.0) * freq < waves * rate <= n * freq
  {
    var y, n := rate - Lost(rate, freq), BuffSize(rate, freq, frameSize) as real;
    assert y <= n < y + 1.0;
    WavesTake(rate, freq, y);
    ProductGrows(y, n, freq);
    ProductGrows(n - 1.0, y, freq);
    Between((n - 1.0) * freq, y * freq, n * freq, freq.Floor as real * rate);
  }

  /** Apart from what is lost, a second holds its complete waves. */
  lemma WavesTake(rate: real, freq: real, y: real)
    requires rate > 0.0 && freq > 0.0 && y == rate - Lost(rate, freq)
    ensures y * freq == freq.Floor as real * rate
  {
    var l := Lost(rate, freq);
    assert l * freq == Frac(freq) * rate;
    assert y * freq == rate * freq - l * freq;
    assert Frac(freq) * rate == freq * rate - freq.Floor as real * rate;
  }

  lemma Between(a: real, b: real, c: real, b': real)
    requires a < b <= c && b == b'
    ensures a < b' <= c
  {
  }

  // ----- When the length is a period

  ghost predicate IsInteger(x: real) {
    Frac(x) == 0.0
  }

  ghost predicate WholeTurns(n: int, turns: real) {
    IsInteger(TurnsIn(n, turns))
  }

  /** The phase repeats after n samples exactly when n samples are whole turns. */
  lemma PhasePeriodic(turns: real, n: nat)
    ensures Periodic(Sawtooth(turns), n) <==> WholeTurns(n, turns)
  {
    var tone := Sawtooth(turns);
    forall i: nat
      ensures tone(i + n) == tone(i) <==> WholeTurns(n, turns)
    {
      ShiftPhase(turns, i, n);
    }
    assert Periodic(tone, n) ==> tone(0 + n) == tone(0);
  }

  lemma ShiftPhase(turns: real, i: int, n: int)
    ensures WholeTurns(n, turns) <==> Phase(turns, i + n) == Phase(turns, i)
  {
    TurnsSum(i, n, turns);
    ShiftFrac(TurnsIn(i, turns), TurnsIn(n, turns));
  }

  lemma ShiftFrac(x: real, y: real)
    ensures IsInteger(y) <==> Frac(x + y) == Frac(x)
  {
    if IsInteger(y) { FracOfSum(x, y.Floor); }
    if Frac(x + y) == Frac(x) {
      FloorUnique(y, (x + y).Floor - x.Floor);
    }
  }

  /** By how much more the second truncation loses than the first, in samples. */
  function Slip(rate: real, freq: real): (d: real)
    requires rate > 0.0 && freq > 0.0
    ensures -1.0 < d < 1.0
  {
    Frac(Lost(rate, freq)) - Frac(rate)
  }

  /** The buffer length is a period of the tone exactly when what its two truncations lose
      differs by whole turns. Up to the sample rate, that is when they lose the same. */
  lemma BufferIsPeriodIff(rate: real, freq: real, frameSize: nat)
    requires rate > 0.0 && freq > 0.0
    ensures WholeTurns(BuffSize(rate, freq, frameSize), Turns(rate, freq))
            <==> IsInteger(Slip(rate, freq) * Turns(rate, freq))
    ensures freq <= rate ==>
              (WholeTurns(BuffSize(rate, freq, frameSize), Turns(rate, freq)) <==> Slip(rate, freq) == 0.0)
  {
    LengthInTurns(rate, freq, frameSize);
    if freq <= rate { TurnsAtMostOne(rate, freq); }
    WholeTurnsIff(TurnsIn(BuffSize(rate, freq, frameSize), Turns(rate, freq)), freq.Floor,
                  Slip(rate, freq), Turns(rate, freq));
  }

  lemma WholeTurnsIff(y: real, whole: int, d: real, u: real)
    requires y == whole as real + d * u && -1.0 < d < 1.0
    ensures IsInteger(y) <==> IsInteger(d * u)
    ensures 0.0 < u <= 1.0 ==> (IsInteger(y) <==> d == 0.0)
  {
    FracOfSum(d * u, whole);
    if 0.0 < u <= 1.0 {
      ProductWithin(d, u);
      SmallInteger(d * u);
      SignOfFactor(d, u);
    }
  }

  lemma TurnsAtMostOne(rate: real, freq: real)
    requires rate > 0.0 && 0.0 < freq <= rate
    ensures 0.0 < Turns(rate, freq) <= 1.0
  {
    var u := Turns(rate, freq);
    assert u * rate == freq && (1.0 - u) * rate == rate - freq;
    SignOfFactor(1.0 - u, rate);
    SignOfFactor(u, rate);
  }

  lemma SmallInteger(y: real)
    requires -1.0 < y < 1.0
    ensures IsInteger(y) <==> y == 0.0
  {
    if y >= 0.0 { FloorUnique(y, 0); } else { FloorUnique(y, -1); }
  }

  lemma ProductWithin(d: real, u: real)
    requires -1.0 < d < 1.0 && 0.0 < u <= 1.0
    ensures -1.0 < d * u < 1.0
  {
    assert (1.0 - d) * u > 0.0 && (1.0 + d) * u > 0.0;
  }

  lemma LengthInTurns(rate: real, freq: real, frameSize: nat)
    requires rate > 0.0 && freq > 0.0
    ensures TurnsIn(BuffSize(rate, freq, frameSize), Turns(rate, freq))
            == freq.Floor as real + Slip(rate, freq) * Turns(rate, freq)
  {
    var l, u, d := Lost(rate, freq), Turns(rate, freq), Slip(rate, freq);
    LostTurns(rate, freq);
    assert BuffSize(rate, freq, frameSize) as real == rate - l + d;
    assert (rate - l + d) * u == rate * u - l * u + d * u;
  }

  lemma NothingLost(y: real, whole: int, d: real, u: real)
    requires y == whole as real + d * u && d == 0.0
    ensures IsInteger(y)
  {
    FloorUnique(y, whole);
  }

  /** A whole number of samples a second and of waves a second always give a period. */
  lemma IntegersArePeriodic(rate: real, freq: real, frameSize: nat)
    requires rate > 0.0 && freq > 0.0 && IsInteger(rate) && IsInteger(freq)
    ensures WholeTurns(BuffSize(rate, freq, frameSize), Turns(rate, freq))
  {
    var l, u := Lost(rate, freq), Turns(rate, freq);
    LostTurns(rate, freq);
    assert l == 0.0 by { assert l * freq == Frac(freq) * rate == 0.0; SignOfFactor(l, freq); }
    FloorUnique(l, 0);
    LengthInTurns(rate, freq, frameSize);
    NothingLost(TurnsIn(BuffSize(rate, freq, frameSize), u), freq.Floor, Slip(rate, freq), u);
  }

  // ----- What is sent

  /** When the wrap length is whole turns, a tone of any shape is sent without a seam. */
  lemma SentIsTone<T>(shape: real -> T, turns: real, n: nat, frameSize: nat, sends: nat)
    requires n > 0
    ensures WholeTurns(n, turns) ==>
              Sent(Tone(shape, turns), n, frameSize, sends) == Slice(Tone(shape, turns), 0, sends * frameSize)
  {
    if WholeTurns(n, turns) {
      forall i: nat
        ensures Phase(turns, i + n) == Phase(turns, i)
      {
        ShiftPhase(turns, i, n);
      }
      SentIsWave(Tone(shape, turns), n, frameSize, sends);
    }
  }

  ghost predicate Seamless(turns: real, buffSize: nat, frameSize: nat)
    requires buffSize > 0
  {
    forall sends: nat :: IsSlice(turns, buffSize, frameSize, sends)
  }

  ghost predicate IsSlice(turns: real, buffSize: nat, frameSize: nat, sends: nat)
    requires buffSize > 0
  {
    Sent(Sawtooth(turns), buffSize, frameSize, sends) == Slice(Sawtooth(turns), 0, sends * frameSize)
  }

  /** For every buffer and frame length, the stream is the tone itself over any number of
      sends exactly when the wrap length is whole turns, or every frame starts at the wrap
      and a frame is whole turns. */
  lemma SeamlessIff(turns: real, buffSize: nat, frameSize: nat)
    requires buffSize > 0
    ensures Seamless(turns, buffSize, frameSize) <==>
            WholeTurns(buffSize, turns) || (frameSize % buffSize == 0 && WholeTurns(frameSize, turns))
  {
    PhasePeriodic(turns, buffSize);
    PhasePeriodic(turns, frameSize);
    if WholeTurns(buffSize, turns) {
      forall sends: nat
        ensures IsSlice(turns, buffSize, frameSize, sends)
      {
        SentIsWave(Sawtooth(turns), buffSize, frameSize, sends);
      }
    } else if frameSize == 0 {
      EmptyFrames(turns, buffSize);
    } else if frameSize % buffSize == 0 && WholeTurns(frameSize, turns) {
      forall sends: nat
        ensures IsSlice(turns, buffSize, frameSize, sends)
      {
        WholeFrames(Sawtooth(turns), buffSize, frameSize, sends);
        SentIsWave(Sawtooth(turns), frameSize, frameSize, sends);
      }
    } else if Seamless(turns, buffSize, frameSize) {
      SeamlessSkips(turns, buffSize, frameSize);
    }
  }

  lemma EmptyFrames(turns: real, buffSize: nat)
    requires buffSize > 0
    ensures Seamless(turns, buffSize, 0) && 0 % buffSize == 0 && WholeTurns(0, turns)
  {
    assert TurnsIn(0, turns) == 0.0;
    FloorUnique(0.0, 0);
    ModUnique(0, buffSize, 0, 0);
    forall sends: nat
      ensures IsSlice(turns, buffSize, 0, sends)
    {
      SentLength(Sawtooth(turns), buffSize, 0, sends);
    }
  }

  /** By how much send k falls behind the waveform in the buffer. */
  function Skipped(k: nat, frameSize: nat, buffSize: nat): int
    requires buffSize > 0
  {
    k * frameSize - IndexAfter(k, frameSize, buffSize)
  }

  /** Without a seam, what every send skips is whole turns: send 1 and the first send to skip
      one wrap more than proportional settle it. */
  lemma SeamlessSkips(turns: real, buffSize: nat, frameSize: nat)
    requires buffSize > 0 && frameSize > 0 && Seamless(turns, buffSize, frameSize)
    ensures WholeTurns(buffSize, turns) || (frameSize % buffSize == 0 && WholeTurns(frameSize, turns))
  {
    NoSeam(turns, buffSize, frameSize, 1);
    assert Skipped(1, frameSize, buffSize) == frameSize - frameSize % buffSize;
    if frameSize % buffSize != 0 {
      var k := FirstWrap(buffSize, frameSize % buffSize);
      var a := frameSize / buffSize;
      NoSeam(turns, buffSize, frameSize, k);
      ExtraWrap(buffSize, frameSize, k);
      TurnsDifference(turns, Skipped(k, frameSize, buffSize), Skipped(1, frameSize, buffSize), k);
    }
  }

  lemma NoSeam(turns: real, buffSize: nat, frameSize: nat, k: nat)
    requires buffSize > 0 && frameSize > 0 && Seamless(turns, buffSize, frameSize)
    ensures WholeTurns(Skipped(k, frameSize, buffSize), turns)
  {
    assert IsSlice(turns, buffSize, frameSize, k + 1);
    FrameStart(Sawtooth(turns), buffSize, frameSize, k);
    ShiftPhase(turns, IndexAfter(k, frameSize, buffSize), Skipped(k, frameSize, buffSize));
  }

  lemma FrameStart<T>(wave: nat -> T, buffSize: nat, frameSize: nat, k: nat)
    requires buffSize > 0 && frameSize > 0
    requires Sent(wave, buffSize, frameSize, k + 1) == Slice(wave, 0, (k + 1) * frameSize)
    ensures wave(IndexAfter(k, frameSize, buffSize)) == wave(k * frameSize)
  {
    SentAt(wave, buffSize, frameSize, k);
    assert (k + 1) * frameSize == k * frameSize + frameSize;
    assert Slice(wave, 0, (k + 1) * frameSize)[k * frameSize] == wave(k * frameSize);
  }

  lemma ExtraWrap(buffSize: nat, frameSize: nat, k: nat)
    requires buffSize > 0
    requires var b := frameSize % buffSize;
             k * b >= buffSize && IndexAfter(k, b, buffSize) == k * b - buffSize
    ensures Skipped(k, frameSize, buffSize) - k * Skipped(1, frameSize, buffSize) == buffSize
  {
    var a, b := frameSize / buffSize, frameSize % buffSize;
    assert frameSize == a * buffSize + b;
    assert k * frameSize == k * (a * buffSize) + k * b == (k * a + 1) * buffSize + (k * b - buffSize);
    ModUnique(k * frameSize, buffSize, k * a + 1, k * b - buffSize);
    assert Skipped(1, frameSize, buffSize) == a * buffSize;
  }

  lemma TurnsDifference(turns: real, n: int, m: int, k: int)
    requires WholeTurns(n, turns) && WholeTurns(m, turns)
    ensures WholeTurns(n - k * m, turns)
  {
    var a, b, c := n as real, m as real, k as real;
    assert (n - k * m) as real == a - c * b;
    assert TurnsIn(n - k * m, turns) == (a - c * b) * turns == a * turns - c * (b * turns);
    IntegerDifference(TurnsIn(n, turns), TurnsIn(m, turns), k, TurnsIn(n - k * m, turns));
  }

  lemma IntegerDifference(y: real, x: real, k: int, z: real)
    requires IsInteger(y) && IsInteger(x) && z == y - k as real * x
    ensures IsInteger(z)
  {
    assert k as real * x == (k * x.Floor) as real;
    FloorUnique(z, y.Floor - k * x.Floor);
  }

  /** Frames that all start at the wrap are those of a buffer of one frame. */
  lemma {:induction false} WholeFrames<T>(wave: nat -> T, buffSize: nat, frameSize: nat, sends: nat)
    requires buffSize > 0 && frameSize > 0 && frameSize % buffSize == 0
    ensures Sent(wave, buffSize, frameSize, sends) == Sent(wave, frameSize, frameSize, sends)
  {
    if sends > 0 {
      var k := sends - 1;
      WholeFrames(wave, buffSize, frameSize, k);
      var a := frameSize / buffSize;
      assert k * frameSize == (k * a) * buffSize;
      ModUnique(k * frameSize, buffSize, k * a, 0);
      ModUnique(k * frameSize, frameSize, k, 0);
    }
  }

  /** The first send behind the wrap. */
  lemma FirstWrap(buffSize: nat, frameSize: nat) returns (k: nat)
    requires 0 < frameSize <= buffSize
    ensures k * frameSize >= buffSize && IndexAfter(k, frameSize, buffSize) == k * frameSize - buffSize
  {
    var n := buffSize + frameSize - 1;
    k := n / frameSize;
    var at := k * frameSize;
    assert n == at + n % frameSize;
    ModUnique(at, buffSize, 1, at - buffSize);
  }

  lemma SentAt<T>(wave: nat -> T, buffSize: nat, frameSize: nat, k: nat)
    requires buffSize > 0 && frameSize > 0
    ensures |Sent(wave, buffSize, frameSize, k + 1)| == k * frameSize + frameSize
    ensures Sent(wave, buffSize, frameSize, k + 1)[k * frameSize] == wave(IndexAfter(k, frameSize, buffSize))
  {
    SentLength(wave, buffSize, frameSize, k);
    assert |Sent(wave, buffSize, frameSize, k)| == k * frameSize;
  }

  // ----- The stream at the computed length

  /** The stream at the length `tx_thread` computes has no seam exactly when what the two
      truncations lose differs by whole turns, or every frame starts at the wrap and a frame
      is whole turns. */
  lemma StreamSeamlessIff(rate: real, freq: real, frameSize: nat)
    requires rate > 0.0 && freq > 0.0 && BuffSize(rate, freq, frameSize) > 0
    ensures Seamless(Turns(rate, freq), BuffSize(rate, freq, frameSize), frameSize) <==>
            Clean(rate, freq, frameSize)
  {
    SeamlessIff(Turns(rate, freq), BuffSize(rate, freq, frameSize), frameSize);
    BufferIsPeriodIff(rate, freq, frameSize);
  }

  ghost predicate Clean(rate: real, freq: real, frameSize: nat)
    requires rate > 0.0 && freq >= 0.0 && BuffSize(rate, freq, frameSize) > 0
  {
    || freq == 0.0
    || IsInteger(Slip(rate, freq) * Turns(rate, freq))
    || (frameSize % BuffSize(rate, freq, frameSize) == 0 && WholeTurns(frameSize, Turns(rate, freq)))
  }

  /** Under the same condition a tone of any shape is sent without a seam. */
  lemma CleanStream<T>(shape: real -> T, rate: real, freq: real, frameSize: nat, sends: nat)
    requires rate > 0.0 && freq >= 0.0 && BuffSize(rate, freq, frameSize) > 0 && Clean(rate, freq, frameSize)
    ensures Sent(Tone(shape, Turns(rate, freq)), BuffSize(rate, freq, frameSize), frameSize, sends)
            == Slice(Tone(shape, Turns(rate, freq)), 0, sends * frameSize)
  {
    var n, turns := BuffSize(rate, freq, frameSize), Turns(rate, freq);
    if freq == 0.0 {
      ConstantTurns(rate, n);
    } else {
      BufferIsPeriodIff(rate, freq, frameSize);
    }
    SentIsTone(shape, turns, n, frameSize, sends);
    if !WholeTurns(n, turns) {
      WholeFramesSent(shape, turns, n, frameSize, sends);
    }
  }

  lemma ConstantTurns(rate: real, n: nat)
    requires rate > 0.0
    ensures WholeTurns(n, Turns(rate, 0.0))
  {
    assert Turns(rate, 0.0) == 0.0;
    assert TurnsIn(n, 0.0) == 0.0;
    FloorUnique(0.0, 0);
  }

  lemma WholeFramesSent<T>(shape: real -> T, turns: real, n: nat, frameSize: nat, sends: nat)
    requires n > 0 && frameSize % n == 0 && WholeTurns(frameSize, turns)
    ensures Sent(Tone(shape, turns), n, frameSize, sends) == Slice(Tone(shape, turns), 0, sends * frameSize)
  {
    if frameSize == 0 {
      SentLength(Tone(shape, turns), n, 0, sends);
    } else {
      WholeFrames(Tone(shape, turns), n, frameSize, sends);
      SentIsTone(shape, turns, frameSize, frameSize, sends);
    }
  }

  /** At 1.5 Hz and a rate of 1000 the length is 667, which is no period of the tone, and
      the stream has a seam for every frame length but the multiples of 1334000. */
  lemma FractionalToneHasSeam(frameSize: nat)
    ensures BuffSize(1000.0, 1.5, frameSize) == 667
    ensures !Periodic(Sawtooth(Turns(1000.0, 1.5)), 667)
    ensures Seamless(Turns(1000.0, 1.5), 667, frameSize) <==> frameSize % 1334000 == 0
  {
    var u, l := Turns(1000.0, 1.5), Lost(1000.0, 1.5);
    FloorUnique(1.5, 1);
    assert l * 1.5 == 500.0;
    FloorUnique(l, 333);
    assert u == 0.0015;
    assert TurnsIn(667, u) == 1.0005;
    FloorUnique(1.0005, 1);
    PhasePeriodic(u, 667);
    SeamlessIff(u, 667, frameSize);
    ThousandthTurns(frameSize);
    CommonMultiple(frameSize);
  }

  lemma ThousandthTurns(n: nat)
    ensures WholeTurns(n, 0.0015) <==> n % 2000 == 0
  {
    var x := TurnsIn(n, 0.0015);
    assert x * 2000.0 == (3 * n) as real;
    if n % 2000 == 0 { FloorUnique(x, 3 * (n / 2000)); }
    if IsInteger(x) { assert 2000 * x.Floor == 3 * n; }
  }

  lemma CommonMultiple(n: nat)
    ensures n % 667 == 0 && n % 2000 == 0 <==> n % 1334000 == 0
  {
    var a, b := n / 667, n / 2000;
    if n % 667 == 0 && n % 2000 == 0 {
      assert a == 2000 * (3 * b - a);
    }
  }

  /** `tx_thread`: computes the length, which must not be zero to wrap at, and sends. */
  method SendTone<T(0)>(shape: real -> T, rate: real, freq: real, frameSize: nat, sends: nat) returns (sent: seq<T>)
    requires rate > 0.0 && freq >= 0.0 && BuffSize(rate, freq, frameSize) > 0
    ensures sent == Sent(Tone(shape, Turns(rate, freq)), BuffSize(rate, freq, frameSize), frameSize, sends)
    ensures Clean(rate, freq, frameSize) ==> sent == Slice(Tone(shape, Turns(rate, freq)), 0, sends * frameSize)
  {
    var buffSize := BuffSize(rate, freq, frameSize);
    var index;
    sent, index := Transmit(Tone(shape, Turns(rate, freq)), buffSize, frameSize, sends);
    if Clean(rate, freq, frameSize) { CleanStream(shape, rate, freq, frameSize, sends); }
  }
}
