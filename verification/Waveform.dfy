/** The wave table and its phase accumulator on 64-bit words. */
module Waveform {
  import opened Modular

  const WAVE_TABLE_LEN := 8192
  const WORD := 0x1_0000_0000_0000_0000

  /** A signed value converted to `size_t`. */
  function ToWord(k: int): nat {
    k % WORD
  }

  /** `wave_table(index)`. */
  function Lookup<T>(table: seq<T>, index: nat): T
    requires |table| == WAVE_TABLE_LEN
  {
    table[index % WAVE_TABLE_LEN]
  }

  /** Sample number n of the waveform with signed step k, by its phase in exact arithmetic. */
  function SampleAt<T>(table: seq<T>, k: int, n: nat): T
    requires |table| == WAVE_TABLE_LEN
  {
    table[((n + 1) * k) % WAVE_TABLE_LEN]
  }

  /** The table length divides the word size, so wrapping the index never shows. */
  lemma WrapInvisible(x: int)
    ensures (x % WORD) % WAVE_TABLE_LEN == x % WAVE_TABLE_LEN
  {
    var w := x % WORD;
    assert x == (x / WORD) * WORD + w;
    assert x == (x / WORD * 0x8_0000_0000_0000) * WAVE_TABLE_LEN + w;
    var q := x / WORD * 0x8_0000_0000_0000 + w / WAVE_TABLE_LEN;
    assert x == q * WAVE_TABLE_LEN + w % WAVE_TABLE_LEN;
    ModUnique(x, WAVE_TABLE_LEN, q, w % WAVE_TABLE_LEN);
  }

  /** One `index += step` on words. */
  lemma Advance(n: nat, k: int)
    ensures (ToWord(n * k) + ToWord(k)) % WORD == ToWord((n + 1) * k)
  {
    ModOfSum(n * k, k, WORD);
    assert n * k + k == (n + 1) * k;
  }

  /** `buff[n] = wave_table(index += step)` over the whole buffer. The buffer continues the
      waveform at sample n0. */
  method Fill<T>(buff: array<T>, table: seq<T>, step: nat, index0: nat, ghost k: int, ghost n0: nat)
    returns (index: nat)
    requires |table| == WAVE_TABLE_LEN && step == ToWord(k) && index0 == ToWord(n0 * k)
    modifies buff
    ensures index == ToWord((n0 + buff.Length) * k)
    ensures forall i :: 0 <= i < buff.Length ==> buff[i] == SampleAt(table, k, n0 + i)
    ensures forall i :: 0 <= i < buff.Length ==> buff[i] == table[((n0 + i + 1) * k) % 8192]
  {
    index := index0;
    for n := 0 to buff.Length
      invariant index == ToWord((n0 + n) * k)
      invariant forall i :: 0 <= i < n ==> buff[i] == SampleAt(table, k, n0 + i)
    {
      Advance(n0 + n, k);
      index := (index + step) % WORD;
      WrapInvisible((n0 + n + 1) * k);
      buff[n] := Lookup(table, index);
    }
  }

  /** The prefill and the send loop, for as many sends as the stop conditions allow. A
      negative step is held as a wrapped word. */
  method Stream<T(0)>(table: seq<T>, k: int, spb: nat, sends: nat) returns (sent: seq<T>)
    requires |table| == WAVE_TABLE_LEN
    ensures |sent| == sends * spb
    ensures forall n :: 0 <= n < |sent| ==> sent[n] == table[((n + 1) * k) % 8192]
  {
    var step := ToWord(k);
    var buff := new T[spb];
    var index := Fill(buff, table, step, 0, k, 0);
    sent := [];
    for j := 0 to sends
      invariant |sent| == j * spb && index == ToWord((|sent| + spb) * k)
      invariant forall n :: 0 <= n < |sent| ==> sent[n] == SampleAt(table, k, n)
      invariant forall i :: 0 <= i < spb ==> buff[i] == SampleAt(table, k, |sent| + i)
    {
      ghost var before := |sent|;
      sent := sent + buff[..];
      index := Fill(buff, table, step, index, k, |sent|);
      assert (j + 1) * spb == j * spb + spb;
    }
  }
}
