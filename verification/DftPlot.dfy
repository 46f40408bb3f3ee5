/** Reordering and column binning of `dft_to_plot`, with rounding over exact reals. */
module DftPlot {
  import opened Arithmetic

  // ----- Reordering

  /** `dft.size() - 1 + dft.size() % 2`: the largest odd number not above the size. */
  function NumBins(size: nat): nat
    requires size > 0
  {
    size - 1 + size % 2
  }

  method Reorder(dft: seq<real>) returns (r: array<real>)
    requires dft != []
    ensures fresh(r) && r.Length == NumBins(|dft|)
    ensures forall n :: 0 <= n < r.Length ==> r[n] == dft[SourceBin(NumBins(|dft|), n)]
    ensures forall n :: 0 <= n < r.Length ==> r[n] == dft[Rotated(n, r.Length)]
  {
    var numBins := NumBins(|dft|);
    r := new real[numBins];
    for n := 0 to numBins
      invariant forall i :: 0 <= i < n ==> r[i] == dft[SourceBin(numBins, i)]
    {
      r[n] := dft[(n + numBins / 2) % numBins];
    }
    forall n | 0 <= n < numBins
      ensures r[n] == dft[Rotated(n, numBins)]
    {
      SourceIsRotated(n, numBins);
    }
  }

  /** The upper half of the bins comes first, then the lower half, both in rising order. */
  function Rotated(n: nat, numBins: nat): (k: nat)
    requires n < numBins
    ensures k < numBins
  {
    if n < numBins - numBins / 2 then n + numBins / 2 else n - (numBins - numBins / 2)
  }

  lemma SourceIsRotated(n: nat, numBins: nat)
    requires n < numBins
    ensures SourceBin(numBins, n) == Rotated(n, numBins)
  {
    Wrap(n + numBins / 2, numBins);
  }

  /** The bin that lands at position n. */
  function SourceBin(numBins: nat, n: nat): (k: nat)
    requires numBins > 0
    ensures k < numBins
  {
    (n + numBins / 2) % numBins
  }

  function TargetPosition(numBins: nat, k: nat): (n: nat)
    requires k < numBins
    ensures n < numBins
  {
    (k + numBins - numBins / 2) % numBins
  }

  /** The reordering is a rotation: every kept bin lands at exactly one position. */
  lemma ReorderIsBijection(numBins: nat, n: nat, k: nat)
    requires n < numBins && k < numBins
    ensures SourceBin(numBins, n) == k <==> TargetPosition(numBins, k) == n
  {
    var h := numBins / 2;
    Wrap(n + h, numBins);
    Wrap(k + numBins - h, numBins);
  }

  lemma Wrap(x: nat, m: nat)
    requires 0 < m && x < 2 * m
    ensures x % m == if x < m then x else x - m
  {
    if x >= m { assert x == m + (x - m); }
  }

  /** Neighbouring positions hold neighbouring bins, in rising order, and the last bin is
      followed by the first: the reordering turns the bins and never mirrors them. */
  lemma NeighboursStay(numBins: nat, n: nat)
    requires n + 1 < numBins
    ensures SourceBin(numBins, n + 1) == (SourceBin(numBins, n) + 1) % numBins
    ensures SourceBin(numBins, 0) == numBins / 2
  {
    var h := numBins / 2;
    Wrap(n + h, numBins);
    Wrap(n + 1 + h, numBins);
    Wrap(h, numBins);
    Wrap((n + h) % numBins + 1, numBins);
  }

  /** Bins move as a rotation, neighbours staying neighbours; DC (bin 0) lands one position
      right of the centre, and at the centre exactly when there is a single bin. */
  lemma DcIsRightOfCentre(numBins: nat)
    requires numBins % 2 == 1
    ensures SourceBin(numBins, numBins / 2) == 0 <==> numBins == 1
    ensures numBins > 1 ==> SourceBin(numBins, numBins / 2 + 1) == 0
  {
    Wrap(numBins / 2 + numBins / 2, numBins);
    Wrap(numBins / 2 + 1 + numBins / 2, numBins);
  }

  /** For an even count, as every transform of two or more samples has, the last bin is
      dropped: all others are kept. */
  lemma KeptBins(size: nat, k: nat)
    requires size > 0 && k < size
    ensures k < NumBins(size) <==> !(size % 2 == 0 && k == size - 1)
  {
  }

  // ----- Columns

  /** Truncation towards zero, as a conversion to int does. */
  function Truncate(x: real): int {
    if x >= 0.0 then x.Floor else -((-x).Floor)
  }

  function IRound(val: real): int {
    if val > 0.0 then Truncate(val + 0.5) else Truncate(val - 0.5)
  }

  /** Rounding goes to a nearest integer, and from halfway away from zero. */
  lemma IRoundIsNearest(val: real)
    ensures -0.5 <= IRound(val) as real - val <= 0.5
    ensures val > 0.0 ==> IRound(val) as real - val > -0.5
    ensures val < 0.0 ==> IRound(val) as real - val < 0.5
  {
  }

  /** Left edge of column b before rounding; the right edge of column b is that of b + 1. */
  function Edge(b: int, numBins: int, width: int): real
    requires width >= 2
  {
    (b as real - 0.5) * (numBins - 1) as real / (width - 1) as real
  }

  function Start(b: int, numBins: int, width: int): int
    requires width >= 2
  {
    Max(IRound(Edge(b, numBins, width)), 0)
  }

  function Stop(b: int, numBins: int, width: int): int
    requires width >= 2
  {
    Min(IRound(Edge(b + 1, numBins, width)), numBins)
  }

  function Gap(numBins: int, width: int): real
    requires width >= 2
  {
    (numBins - 1) as real / (width - 1) as real
  }

  lemma EdgeIsMultiple(b: int, numBins: int, width: int)
    requires width >= 2
    ensures Edge(b, numBins, width) == (b as real - 0.5) * Gap(numBins, width)
    ensures (width - 1) as real * Gap(numBins, width) == (numBins - 1) as real
  {
    Divide(b as real - 0.5, (numBins - 1) as real, (width - 1) as real);
  }

  lemma Divide(x: real, y: real, z: real)
    requires z != 0.0
    ensures x * y / z == x * (y / z)
    ensures z * (y / z) == y
  {
    var q := y / z;
    assert z * q == y;
    assert x * y == (x * q) * z;
    assert (x * q) * z / z == x * q;
  }

  lemma GapSize(numBins: int, width: int)
    requires width >= 2 && numBins >= 1
    ensures Gap(numBins, width) >= 0.0
    ensures Gap(numBins, width) >= 1.0 <==> numBins >= width
  {
    var g, w := Gap(numBins, width), (width - 1) as real;
    EdgeIsMultiple(0, numBins, width);
    assert w * g == (numBins - 1) as real;
    QuotientSign(g, w);
  }

  lemma QuotientSign(g: real, w: real)
    requires w > 0.0
    ensures w * g >= 0.0 ==> g >= 0.0
    ensures w * g >= w <==> g >= 1.0
  {
    SignOfFactor(g, w);
    SignOfFactor(g - 1.0, w);
    assert w * (g - 1.0) == w * g - w;
  }

  /** Where the edges of the columns lie. */
  lemma EdgeFacts(b: int, numBins: int, width: int)
    requires width >= 2 && numBins >= 1 && 0 <= b < width
    ensures
      var g, n := Gap(numBins, width), (numBins - 1) as real;
      && g >= 0.0
      && Edge(b + 1, numBins, width) == Edge(b, numBins, width) + g
      && (b == 0 ==> Edge(b, numBins, width) == -0.5 * g)
      && (b > 0 ==> 0.5 * g <= Edge(b, numBins, width) <= n - 0.5 * g)
      && (b == width - 1 ==> Edge(b, numBins, width) == n - 0.5 * g)
  {
    var g, x, w := Gap(numBins, width), b as real, (width - 1) as real;
    GapSize(numBins, width);
    EdgeIsMultiple(b, numBins, width);
    EdgeIsMultiple(b + 1, numBins, width);
    assert (b + 1) as real - 0.5 == x + 1.0 - 0.5;
    EdgeArithmetic(x, w, g, Edge(b, numBins, width), Edge(b + 1, numBins, width), (numBins - 1) as real);
  }

  lemma EdgeArithmetic(x: real, w: real, g: real, left: real, right: real, n: real)
    requires g >= 0.0 && w * g == n
    requires left == (x - 0.5) * g && right == (x + 1.0 - 0.5) * g
    ensures right == left + g
    ensures x == 0.0 ==> left == -0.5 * g
    ensures x == w ==> left == n - 0.5 * g
    ensures x >= 1.0 ==> 0.5 * g <= left
    ensures x <= w ==> left <= n - 0.5 * g
  {
    Distribute(x - 0.5, 1.0, g);
    Distribute(w, -0.5, g);
    if x >= 1.0 { Scale(0.5, x - 0.5, g); }
    if x <= w { Scale(x - 0.5, w - 0.5, g); }
  }

  lemma Distribute(x: real, y: real, g: real)
    ensures (x + y) * g == x * g + y * g
  {
  }

  lemma Scale(x: real, y: real, g: real)
    requires g >= 0.0
    ensures x <= y ==> x * g <= y * g
  {
    if x <= y {
      assert (y - x) * g >= 0.0;
      Distribute(y, -x, g);
    }
  }

  /** Columns start at bin 0, abut, never run backwards, and never index past the bins. */
  lemma ColumnsAbut(b: int, numBins: int, width: int)
    requires width >= 2 && numBins >= 1 && 0 <= b < width
    ensures b == 0 ==> Start(b, numBins, width) == 0
    ensures b + 1 < width ==> Stop(b, numBins, width) == Start(b + 1, numBins, width)
    ensures 0 <= Start(b, numBins, width) <= Stop(b, numBins, width) <= numBins
    ensures Start(b, numBins, width) < numBins
  {
    EdgeFacts(b, numBins, width);
    if b + 1 < width { EdgeFacts(b + 1, numBins, width); }
  }

  /** The last column ends after the last bin when there are at least as many bins as
      columns; otherwise it is empty and starts at the last bin. */
  lemma LastColumn(numBins: int, width: int)
    requires width >= 2 && numBins >= 1
    ensures numBins >= width ==> Stop(width - 1, numBins, width) == numBins
    ensures numBins < width ==>
              Start(width - 1, numBins, width) == Stop(width - 1, numBins, width) == numBins - 1
  {
    EdgeFacts(width - 1, numBins, width);
    GapSize(numBins, width);
  }

  predicate InColumn(n: int, b: int, numBins: int, width: int)
    requires width >= 2
  {
    Start(b, numBins, width) <= n < Stop(b, numBins, width)
  }

  lemma {:induction false} FindColumn(n: int, b: int, numBins: int, width: int) returns (c: int)
    requires width >= 2 && numBins >= 1 && 0 <= b < width && 0 <= n < Stop(b, numBins, width)
    ensures 0 <= c <= b && InColumn(n, c, numBins, width)
    decreases b
  {
    ColumnsAbut(b, numBins, width);
    if n >= Start(b, numBins, width) {
      c := b;
    } else {
      ColumnsAbut(b - 1, numBins, width);
      c := FindColumn(n, b - 1, numBins, width);
    }
  }

  lemma {:induction false} ColumnsOrdered(b: int, c: int, numBins: int, width: int)
    requires width >= 2 && numBins >= 1 && 0 <= b < c < width
    ensures Stop(b, numBins, width) <= Start(c, numBins, width)
    decreases c
  {
    ColumnsAbut(c - 1, numBins, width);
    if b < c - 1 {
      ColumnsOrdered(b, c - 1, numBins, width);
    }
  }

  /** No bin is in two columns. */
  lemma ColumnsDisjoint(n: int, b: int, c: int, numBins: int, width: int)
    requires width >= 2 && numBins >= 1 && 0 <= b < width && 0 <= c < width
    requires InColumn(n, b, numBins, width) && InColumn(n, c, numBins, width)
    ensures b == c
  {
    if b < c { ColumnsOrdered(b, c, numBins, width); }
    if c < b { ColumnsOrdered(c, b, numBins, width); }
  }

  /** With at least as many bins as columns, every bin is in a column. */
  lemma ColumnsCoverWhenEnoughBins(n: int, numBins: int, width: int) returns (b: int)
    requires 2 <= width <= numBins && 0 <= n < numBins
    ensures 0 <= b < width && InColumn(n, b, numBins, width)
  {
    LastColumn(numBins, width);
    b := FindColumn(n, width - 1, numBins, width);
  }

  ghost predicate InSomeColumn(n: int, numBins: int, width: int)
    requires width >= 2
  {
    exists b :: 0 <= b < width && InColumn(n, b, numBins, width)
  }

  /** The columns cover all bins exactly when there are at least as many bins as columns. */
  lemma ColumnsPartitionIff(numBins: int, width: int)
    requires width >= 2 && numBins >= 1
    ensures (forall n :: 0 <= n < numBins ==> InSomeColumn(n, numBins, width)) <==> numBins >= width
  {
    if numBins >= width {
      forall n | 0 <= n < numBins
        ensures InSomeColumn(n, numBins, width)
      {
        var b := ColumnsCoverWhenEnoughBins(n, numBins, width);
      }
    } else {
      LastColumn(numBins, width);
      if InSomeColumn(numBins - 1, numBins, width) {
        var b :| 0 <= b < width && InColumn(numBins - 1, b, numBins, width);
        if b < width - 1 { ColumnsOrdered(b, width - 1, numBins, width); }
      }
      assert !InSomeColumn(numBins - 1, numBins, width);
    }
  }

  // ----- Column values

  /** The bins whose maximum column b shows: its range, and always its first bin. */
  predicate Contributes(n: int, b: int, numBins: int, width: int)
    requires width >= 2
  {
    n == Start(b, numBins, width) || InColumn(n, b, numBins, width)
  }

  /** Columns follow the frequencies: on the common scale of bins and columns, every bin a
      column shows lies within half a bin and half a column of the column's own place. */
  lemma ColumnsInPlace(n: int, b: int, numBins: int, width: int)
    requires width >= 2 && numBins >= 1 && 0 <= b < width && Contributes(n, b, numBins, width)
    ensures -((numBins - 1) + (width - 1)) <= 2 * n * (width - 1) - 2 * b * (numBins - 1)
            <= (numBins - 1) + (width - 1)
  {
    NearEdges(n, b, numBins, width);
    LeftInPlace(n, b, numBins, width);
    RightInPlace(n, b + 1, numBins, width);
    TwiceProducts(n, b, numBins - 1, width - 1);
  }

  lemma LeftInPlace(n: int, b: int, numBins: int, width: int)
    requires width >= 2 && Edge(b, numBins, width) <= n as real + 0.5
    ensures 2 * (b * (numBins - 1)) - (numBins - 1) <= 2 * (n * (width - 1)) + (width - 1)
  {
    EdgeScaled(b, numBins, width);
    EdgeBelow(n, b, numBins - 1, width - 1, Edge(b, numBins, width));
  }

  lemma RightInPlace(n: int, b: int, numBins: int, width: int)
    requires width >= 2 && n as real - 0.5 <= Edge(b, numBins, width)
    ensures 2 * (n * (width - 1)) - (width - 1) <= 2 * (b * (numBins - 1)) - (numBins - 1)
  {
    EdgeScaled(b, numBins, width);
    EdgeAbove(n, b, numBins - 1, width - 1, Edge(b, numBins, width));
  }

  lemma TwiceProducts(n: int, b: int, N: int, W: int)
    ensures 2 * n * W == 2 * (n * W) && 2 * b * N == 2 * (b * N) && 2 * ((b + 1) * N) == 2 * (b * N) + 2 * N
  {
  }

  lemma EdgeBelow(n: int, b: int, N: int, W: int, e: real)
    requires W >= 1 && e * W as real == (b as real - 0.5) * N as real && e <= n as real + 0.5
    ensures 2 * (b * N) - N <= 2 * (n * W) + W
  {
    Scale(e, n as real + 0.5, W as real);
    Distribute(n as real, 0.5, W as real);
    Distribute(b as real, -0.5, N as real);
    assert (n * W) as real == n as real * W as real && (b * N) as real == b as real * N as real;
    assert (2 * (b * N) - N) as real <= (2 * (n * W) + W) as real;
  }

  lemma EdgeAbove(n: int, b: int, N: int, W: int, e: real)
    requires W >= 1 && e * W as real == (b as real - 0.5) * N as real && n as real - 0.5 <= e
    ensures 2 * (n * W) - W <= 2 * (b * N) - N
  {
    Scale(n as real - 0.5, e, W as real);
    Distribute(n as real, -0.5, W as real);
    Distribute(b as real, -0.5, N as real);
    assert (n * W) as real == n as real * W as real && (b * N) as real == b as real * N as real;
    assert (2 * (n * W) - W) as real <= (2 * (b * N) - N) as real;
  }

  lemma NearEdges(n: int, b: int, numBins: int, width: int)
    requires width >= 2 && numBins >= 1 && 0 <= b < width && Contributes(n, b, numBins, width)
    ensures Edge(b, numBins, width) <= n as real + 0.5 && n as real - 0.5 <= Edge(b + 1, numBins, width)
  {
    EdgeFacts(b, numBins, width);
    IRoundIsNearest(Edge(b, numBins, width));
    IRoundIsNearest(Edge(b + 1, numBins, width));
  }

  lemma EdgeScaled(b: int, numBins: int, width: int)
    requires width >= 2
    ensures Edge(b, numBins, width) * (width - 1) as real == (b as real - 0.5) * (numBins - 1) as real
  {
    var x := (b as real - 0.5) * (numBins - 1) as real;
    assert x / (width - 1) as real * (width - 1) as real == x;
  }

  /** Every bin contributes to some column, also when there are fewer bins than columns. */
  lemma EveryBinContributes(n: int, numBins: int, width: int) returns (b: int)
    requires width >= 2 && 0 <= n < numBins
    ensures 0 <= b < width && Contributes(n, b, numBins, width)
  {
    LastColumn(numBins, width);
    if n < Stop(width - 1, numBins, width) {
      b := FindColumn(n, width - 1, numBins, width);
    } else {
      b := width - 1;
    }
  }

  ghost predicate IsColumnMax(dft: seq<real>, b: int, width: int, val: real)
    requires width >= 2
  {
    && (forall n :: 0 <= n < |dft| && Contributes(n, b, |dft|, width) ==> dft[n] <= val)
    && (exists n :: 0 <= n < |dft| && Contributes(n, b, |dft|, width) && dft[n] == val)
  }

  ghost predicate AreColumnMaxima(dft: seq<real>, width: int, vals: seq<real>)
    requires width >= 2
  {
    forall b :: 0 <= b < |vals| ==> IsColumnMax(dft, b, width, vals[b])
  }

  /** No peak is lost: whatever the sizes, every bin is at or below what some column shows. */
  lemma NoPeakLost(dft: seq<real>, width: int, vals: seq<real>, n: int) returns (b: int)
    requires width >= 2 && |vals| == width && AreColumnMaxima(dft, width, vals)
    requires 0 <= n < |dft|
    ensures 0 <= b < width && dft[n] <= vals[b]
  {
    b := EveryBinContributes(n, |dft|, width);
    assert IsColumnMax(dft, b, width, vals[b]);
  }

  /** The inner loop: the maximum of column b. */
  method ColumnMax(dft: seq<real>, b: nat, width: nat) returns (val: real)
    requires dft != [] && b < width && width >= 2
    ensures IsColumnMax(dft, b, width, val)
  {
    ColumnsAbut(b, |dft|, width);
    var nStart, nStop := Start(b, |dft|, width), Stop(b, |dft|, width);
    val := dft[nStart];
    ghost var at := nStart;
    assert Contributes(nStart, b, |dft|, width);
    for n := nStart to nStop
      invariant 0 <= at < |dft| && Contributes(at, b, |dft|, width) && dft[at] == val
      invariant dft[nStart] <= val
      invariant forall m :: nStart <= m < n ==> dft[m] <= val
    {
      if val < dft[n] {
        val, at := dft[n], n;
        assert Contributes(n, b, |dft|, width);
      }
    }
  }

  /** The value each column of the plot shows. */
  method PlotColumns(dft: seq<real>, width: nat) returns (vals: seq<real>)
    requires dft != [] && width >= 2
    ensures |vals| == width && AreColumnMaxima(dft, width, vals)
  {
    vals := [];
    for b := 0 to width
      invariant |vals| == b && AreColumnMaxima(dft, width, vals)
    {
      var val := ColumnMax(dft, b, width);
      vals := vals + [val];
    }
  }
}
