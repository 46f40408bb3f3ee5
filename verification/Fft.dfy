/** The recursive transform of ascii_art_dft.hpp against the direct sum. */
module Fft {
  import opened Complex
  import opened Wrappers

  // ----- The power-of-two test

  /** Bitwise and of two naturals. */
  function BitAnd(a: nat, b: nat): nat {
    if a == 0 || b == 0 then 0 else 2 * BitAnd(a / 2, b / 2) + if a % 2 == 1 && b % 2 == 1 then 1 else 0
  }

  predicate IsPow2(n: nat) {
    n == 1 || (n > 0 && n % 2 == 0 && IsPow2(n / 2))
  }

  function Log2(n: nat): nat
    requires IsPow2(n)
  {
    if n == 1 then 0 else 1 + Log2(n / 2)
  }

  function Power2(e: nat): nat {
    if e == 0 then 1 else 2 * Power2(e - 1)
  }

  /** The predicate holds of the powers of two and of nothing else. */
  lemma {:induction false} IsPower(n: nat)
    requires IsPow2(n)
    ensures n == Power2(Log2(n))
  {
    if n > 1 { IsPower(n / 2); }
  }

  lemma {:induction false} PowerIs(e: nat)
    ensures IsPow2(Power2(e)) && Log2(Power2(e)) == e
  {
    if e > 0 { PowerIs(e - 1); }
  }

  /** Bit i of a number. */
  predicate Bit(n: nat, i: nat) {
    if i == 0 then n % 2 == 1 else Bit(n / 2, i - 1)
  }

  lemma {:induction false} BitsOfZero(i: nat)
    ensures !Bit(0, i)
  {
    if i > 0 { BitsOfZero(i - 1); }
  }

  lemma {:induction false} BitAndBits(a: nat, b: nat, i: nat)
    ensures Bit(BitAnd(a, b), i) <==> Bit(a, i) && Bit(b, i)
    decreases i
  {
    BitsOfZero(i);
    if a > 0 && b > 0 && i > 0 { BitAndBits(a / 2, b / 2, i - 1); }
  }

  const WORD := 0x1_0000_0000_0000_0000

  lemma {:induction false} BitAndSelf(n: nat)
    ensures BitAnd(n, n) == n
  {
    if n > 0 { BitAndSelf(n / 2); }
  }

  lemma {:induction false} BitAndPred(n: nat)
    requires n > 0
    ensures BitAnd(n, n - 1) == 0 <==> IsPow2(n)
  {
    if n > 1 {
      if n % 2 == 0 {
        assert (n - 1) / 2 == n / 2 - 1 && (n - 1) % 2 == 1;
        BitAndPred(n / 2);
      } else {
        assert (n - 1) / 2 == n / 2;
        BitAndSelf(n / 2);
      }
    }
  }

  /** `nsamps & (nsamps - 1)` on machine words is zero exactly for zero and the powers of
      two: the test lets the empty input through. */
  lemma PowerTestAdmits(n: nat)
    requires n < WORD
    ensures BitAnd(n, (n + WORD - 1) % WORD) == 0 <==> n == 0 || IsPow2(n)
  {
    if n > 0 {
      assert (n + WORD - 1) % WORD == n - 1;
      BitAndPred(n);
    }
  }

  // ----- The strided recursion

  /** The samples a strided call may read. */
  predicate InBounds(size: nat, nsamps: nat, start: nat, step: nat) {
    nsamps > 0 && start + (nsamps - 1) * step < size
  }

  lemma HalvesInBounds(size: nat, m: nat, start: nat, step: nat)
    requires m > 0 && InBounds(size, 2 * m, start, step)
    ensures InBounds(size, m, start, step * 2)
    ensures InBounds(size, m, start + step, step * 2)
  {
    assert (m - 1) * (step * 2) == (2 * m - 2) * step;
    assert (2 * m - 1) * step == (2 * m - 2) * step + step;
  }

  function CtFftF(samps: seq<Complex>, nsamps: nat, factors: seq<Complex>, start: nat, step: nat): Complex
    requires IsPow2(nsamps) && Log2(nsamps) <= |factors|
    requires InBounds(|samps|, nsamps, start, step)
    decreases nsamps
  {
    if nsamps == 1 then samps[start] else
      HalvesInBounds(|samps|, nsamps / 2, start, step);
      var even := CtFftF(samps, nsamps / 2, factors[1..], start, step * 2);
      var odd := CtFftF(samps, nsamps / 2, factors[1..], start + step, step * 2);
      Add(even, Mul(factors[0], odd))
  }

  function Sample(samps: seq<Complex>, start: nat, step: nat, j: nat): Complex {
    if start + j * step < |samps| then samps[start + j * step] else ZERO
  }

  /** The sum of samps[start + j * step] * w^j over j < n. */
  function DirectSum(samps: seq<Complex>, n: nat, start: nat, step: nat, w: Complex): Complex {
    if n == 0 then ZERO
    else Add(DirectSum(samps, n - 1, start, step, w), Mul(Sample(samps, start, step, n - 1), Pow(w, n - 1)))
  }

  /** Each factor is the square of the one before. */
  ghost predicate Squares(factors: seq<Complex>) {
    forall i :: 0 <= i < |factors| - 1 ==> factors[i + 1] == Mul(factors[i], factors[i])
  }

  /** Terms 2j and 2j+1 of the sum, as terms j of the two half sums. */
  lemma TermPair(samps: seq<Complex>, start: nat, step: nat, w: Complex, j: nat)
    ensures
      var w2 := Pow(Mul(w, w), j);
      && Mul(Sample(samps, start, step, 2 * j), Pow(w, 2 * j)) == Mul(Sample(samps, start, step * 2, j), w2)
      && Mul(Sample(samps, start, step, 2 * j + 1), Pow(w, 2 * j + 1))
         == Mul(w, Mul(Sample(samps, start + step, step * 2, j), w2))
  {
    PowSquare(w, j);
    assert (2 * j) * step == j * (step * 2);
    assert (2 * j + 1) * step == step + j * (step * 2);
    var s, w2 := Sample(samps, start + step, step * 2, j), Pow(Mul(w, w), j);
    MulAssociates(s, w, w2);
    MulCommutes(s, w);
    MulAssociates(w, s, w2);
  }

  lemma Interleave(e: Complex, o: Complex, w: Complex, x: Complex, y: Complex)
    ensures Add(Add(Add(e, Mul(w, o)), x), Mul(w, y)) == Add(Add(e, x), Mul(w, Add(o, y)))
  {
    MulDistributes(w, o, y);
  }

  /** The even terms of a sum of 2m terms, and w times its odd terms. */
  function Halves(samps: seq<Complex>, m: nat, start: nat, step: nat, w: Complex): Complex {
    Add(DirectSum(samps, m, start, step * 2, Mul(w, w)),
        Mul(w, DirectSum(samps, m, start + step, step * 2, Mul(w, w))))
  }

  lemma HalvesNext(samps: seq<Complex>, m: nat, start: nat, step: nat, w: Complex)
    ensures Halves(samps, m + 1, start, step, w) ==
            Add(Add(Halves(samps, m, start, step, w), Mul(Sample(samps, start, step, 2 * m), Pow(w, 2 * m))),
                Mul(Sample(samps, start, step, 2 * m + 1), Pow(w, 2 * m + 1)))
  {
    var ww, s2, odd := Mul(w, w), step * 2, start + step;
    TermPair(samps, start, step, w, m);
    Interleave(DirectSum(samps, m, start, s2, ww), DirectSum(samps, m, odd, s2, ww), w,
               Mul(Sample(samps, start, s2, m), Pow(ww, m)), Mul(Sample(samps, odd, s2, m), Pow(ww, m)));
  }

  /** Splitting a sum of 2m terms into its even and odd terms. */
  lemma {:induction false} EvenOdd(samps: seq<Complex>, m: nat, start: nat, step: nat, w: Complex)
    ensures DirectSum(samps, 2 * m, start, step, w) == Halves(samps, m, start, step, w)
  {
    if m > 0 {
      EvenOdd(samps, m - 1, start, step, w);
      HalvesNext(samps, m - 1, start, step, w);
      SumTwo(samps, 2 * (m - 1), start, step, w);
    }
  }

  lemma SumTwo(samps: seq<Complex>, n: nat, start: nat, step: nat, w: Complex)
    ensures DirectSum(samps, n + 2, start, step, w) ==
            Add(Add(DirectSum(samps, n, start, step, w), Mul(Sample(samps, start, step, n), Pow(w, n))),
                Mul(Sample(samps, start, step, n + 1), Pow(w, n + 1)))
  {
    assert DirectSum(samps, n + 1, start, step, w) ==
           Add(DirectSum(samps, n, start, step, w), Mul(Sample(samps, start, step, n), Pow(w, n)));
  }

  /** The recursion computes the direct sum at its first factor. */
  lemma {:induction false} CtFftFIsDirectSum(samps: seq<Complex>, nsamps: nat, factors: seq<Complex>,
                                             start: nat, step: nat)
    requires IsPow2(nsamps) && Log2(nsamps) <= |factors| && factors != [] && Squares(factors)
    requires InBounds(|samps|, nsamps, start, step)
    ensures CtFftF(samps, nsamps, factors, start, step) == DirectSum(samps, nsamps, start, step, factors[0])
    decreases nsamps
  {
    if nsamps == 1 {
      assert DirectSum(samps, 0, start, step, factors[0]) == ZERO;
      assert Sample(samps, start, step, 0) == samps[start];
    } else {
      var m := nsamps / 2;
      HalvesInBounds(|samps|, m, start, step);
      EvenOdd(samps, m, start, step, factors[0]);
      if |factors| == 1 {
        assert Log2(m) == 0 && m == 1;
        LastStage(samps, start, step, factors[0]);
      } else {
        CtFftFIsDirectSum(samps, m, factors[1..], start, step * 2);
        CtFftFIsDirectSum(samps, m, factors[1..], start + step, step * 2);
      }
    }
  }

  lemma LastStage(samps: seq<Complex>, start: nat, step: nat, w: Complex)
    requires InBounds(|samps|, 1, start, step * 2) && InBounds(|samps|, 1, start + step, step * 2)
    ensures DirectSum(samps, 1, start, step * 2, Mul(w, w)) == samps[start]
    ensures DirectSum(samps, 1, start + step, step * 2, Mul(w, w)) == samps[start + step]
  {
    assert DirectSum(samps, 0, start, step * 2, Mul(w, w)) == ZERO;
    assert DirectSum(samps, 0, start + step, step * 2, Mul(w, w)) == ZERO;
  }

  // ----- One bin, and all bins

  /** root(k, N) stands for exp(-2 pi i k / N); all that is used is that halving N squares it. */
  ghost predicate IsRoot(root: (nat, nat) -> Complex) {
    forall k: nat, N: nat :: N > 0 && N % 2 == 0 ==> root(k, N / 2) == Mul(root(k, N), root(k, N))
  }

  function FactorTable(root: (nat, nat) -> Complex, k: nat, N: nat): seq<Complex> {
    if N == 0 then [] else [root(k, N)] + FactorTable(root, k, N / 2)
  }

  lemma {:induction false} FactorTableSquares(root: (nat, nat) -> Complex, k: nat, N: nat)
    requires IsRoot(root) && IsPow2(N)
    ensures Squares(FactorTable(root, k, N)) && |FactorTable(root, k, N)| == Log2(N) + 1
  {
    if N == 1 {
      assert FactorTable(root, k, 0) == [];
    } else {
      FactorTableSquares(root, k, N / 2);
      assert FactorTable(root, k, N / 2)[0] == root(k, N / 2);
    }
  }

  /** The table for N samples is one the recursion can run on. */
  lemma TableFits(samps: seq<Complex>, root: (nat, nat) -> Complex, k: nat)
    requires IsPow2(|samps|) && IsRoot(root)
    ensures
      var factors := FactorTable(root, k, |samps|);
      && Log2(|samps|) <= |factors| && factors != [] && factors[0] == root(k, |samps|) && Squares(factors)
      && InBounds(|samps|, |samps|, 0, 1)
  {
    FactorTableSquares(root, k, |samps|);
  }

  /** Bin k of the discrete Fourier transform. */
  function Dft(samps: seq<Complex>, root: (nat, nat) -> Complex, k: nat): Complex {
    DirectSum(samps, |samps|, 0, 1, root(k, |samps|))
  }

  /** `ct_fft_k`: build the factor table by halving, then recurse. */
  method CtFftK(samps: seq<Complex>, root: (nat, nat) -> Complex, k: nat) returns (r: Complex)
    requires IsPow2(|samps|) && IsRoot(root)
    ensures r == Dft(samps, root, k)
  {
    var factors := [];
    var N: nat := |samps|;
    while N != 0
      invariant factors + FactorTable(root, k, N) == FactorTable(root, k, |samps|)
    {
      assert factors + FactorTable(root, k, N) == (factors + [root(k, N)]) + FactorTable(root, k, N / 2);
      factors := factors + [root(k, N)];
      N := N / 2;
    }
    assert factors == FactorTable(root, k, |samps|);
    TableFits(samps, root, k);
    r := CtFftF(samps, |samps|, factors, 0, 1);
    CtFftFIsDirectSum(samps, |samps|, factors, 0, 1);
  }

  /** `log_pwr_dft` before taking logarithms: every bin, or an error for a sample count that
      is neither zero nor a power of two. */
  method DftBins(samps: seq<Complex>, root: (nat, nat) -> Complex) returns (r: Option<seq<Complex>>)
    requires |samps| < WORD && IsRoot(root)
    ensures r.Some? <==> |samps| == 0 || IsPow2(|samps|)
    ensures r.Some? ==> |r.value| == |samps|
                        && forall k :: 0 <= k < |samps| ==> r.value[k] == Dft(samps, root, k)
  {
    PowerTestAdmits(|samps|);
    if BitAnd(|samps|, (|samps| + WORD - 1) % WORD) != 0 {
      return None;
    }
    var bins := [];
    for k := 0 to |samps|
      invariant |bins| == k
      invariant forall j :: 0 <= j < k ==> bins[j] == Dft(samps, root, j)
    {
      var bin := CtFftK(samps, root, k);
      bins := bins + [bin];
    }
    return Some(bins);
  }

  // ----- What a bin means

  /** Bin k of a single sample v at position m is v times the m-th power of the root. */
  lemma {:induction false} ImpulseSum(samps: seq<Complex>, n: nat, m: nat, w: Complex)
    requires n <= |samps| && m < |samps| && forall i :: 0 <= i < |samps| && i != m ==> samps[i] == ZERO
    ensures DirectSum(samps, n, 0, 1, w) == if m < n then Mul(samps[m], Pow(w, m)) else ZERO
  {
    if n > 0 {
      ImpulseSum(samps, n - 1, m, w);
      ImpulseTerm(samps, n - 1, m, w);
      SumNext(samps, n, w);
      OneOfTwo(DirectSum(samps, n - 1, 0, 1, w), Mul(Sample(samps, 0, 1, n - 1), Pow(w, n - 1)),
               Mul(samps[m], Pow(w, m)), m < n - 1, n - 1 == m);
    }
  }

  lemma SumNext(samps: seq<Complex>, n: nat, w: Complex)
    requires n > 0
    ensures DirectSum(samps, n, 0, 1, w) ==
            Add(DirectSum(samps, n - 1, 0, 1, w), Mul(Sample(samps, 0, 1, n - 1), Pow(w, n - 1)))
  {
  }

  lemma OneOfTwo(a: Complex, b: Complex, v: Complex, first: bool, second: bool)
    requires !(first && second) && a == (if first then v else ZERO) && b == if second then v else ZERO
    ensures Add(a, b) == if first || second then v else ZERO
  {
  }

  lemma ImpulseTerm(samps: seq<Complex>, j: nat, m: nat, w: Complex)
    requires j < |samps| && forall i :: 0 <= i < |samps| && i != m ==> samps[i] == ZERO
    ensures Mul(Sample(samps, 0, 1, j), Pow(w, j)) == if j == m then Mul(samps[m], Pow(w, m)) else ZERO
  {
    assert Sample(samps, 0, 1, j) == samps[j];
    ZeroLaws(Pow(w, j));
  }

  lemma ZeroLaws(a: Complex)
    ensures Mul(ZERO, a) == ZERO && Add(ZERO, a) == a && Add(a, ZERO) == a
  {
  }

  lemma DftOfImpulse(samps: seq<Complex>, root: (nat, nat) -> Complex, k: nat, m: nat)
    requires m < |samps| && forall i :: 0 <= i < |samps| && i != m ==> samps[i] == ZERO
    ensures Dft(samps, root, k) == Mul(samps[m], Pow(root(k, |samps|), m))
  {
    ImpulseSum(samps, |samps|, m, root(k, |samps|));
  }

  function Sum(a: seq<Complex>, b: seq<Complex>): seq<Complex>
    requires |a| == |b|
  {
    seq(|a|, i requires 0 <= i < |a| => Add(a[i], b[i]))
  }

  lemma {:induction false} SumOfSums(a: seq<Complex>, b: seq<Complex>, n: nat, w: Complex)
    requires |a| == |b| && n <= |a|
    ensures DirectSum(Sum(a, b), n, 0, 1, w) == Add(DirectSum(a, n, 0, 1, w), DirectSum(b, n, 0, 1, w))
  {
    if n > 0 {
      SumOfSums(a, b, n - 1, w);
      var x, y, p := a[n - 1], b[n - 1], Pow(w, n - 1);
      assert Sample(a, 0, 1, n - 1) == x && Sample(b, 0, 1, n - 1) == y;
      assert Sample(Sum(a, b), 0, 1, n - 1) == Add(x, y);
      MulCommutes(Add(x, y), p);
      MulDistributes(p, x, y);
      MulCommutes(p, x);
      MulCommutes(p, y);
      Reorder(DirectSum(a, n - 1, 0, 1, w), DirectSum(b, n - 1, 0, 1, w), Mul(x, p), Mul(y, p));
    }
  }

  lemma Reorder(a: Complex, b: Complex, c: Complex, d: Complex)
    ensures Add(Add(a, b), Add(c, d)) == Add(Add(a, c), Add(b, d))
  {
  }

  /** The transform of a sum of signals is the sum of their transforms. With DftOfImpulse this
      fixes every bin of every signal. */
  lemma DftIsAdditive(a: seq<Complex>, b: seq<Complex>, root: (nat, nat) -> Complex, k: nat)
    requires |a| == |b|
    ensures Dft(Sum(a, b), root, k) == Add(Dft(a, root, k), Dft(b, root, k))
  {
    SumOfSums(a, b, |a|, root(k, |a|));
  }
}
