/** Complex numbers as pairs of exact reals, with the ring laws the transform needs. */
module Complex {

  datatype Complex = Complex(re: real, im: real)

  const ZERO := Complex(0.0, 0.0)
  const ONE := Complex(1.0, 0.0)

  function Add(a: Complex, b: Complex): Complex {
    Complex(a.re + b.re, a.im + b.im)
  }

  function Mul(a: Complex, b: Complex): Complex {
    Complex(a.re * b.re - a.im * b.im, a.re * b.im + a.im * b.re)
  }

  function Pow(w: Complex, n: nat): Complex {
    if n == 0 then ONE else Mul(w, Pow(w, n - 1))
  }

  lemma MulCommutes(a: Complex, b: Complex)
    ensures Mul(a, b) == Mul(b, a)
  {
  }

  lemma MulDistributes(a: Complex, b: Complex, c: Complex)
    ensures Mul(a, Add(b, c)) == Add(Mul(a, b), Mul(a, c))
  {
    Split(a.re, b.re, c.re);
    Split(a.im, b.im, c.im);
    Split(a.re, b.im, c.im);
    Split(a.im, b.re, c.re);
  }

  lemma Split(x: real, y: real, z: real)
    ensures x * (y + z) == x * y + x * z
    ensures x * (y - z) == x * y - x * z
  {
  }

  lemma ExpandLeft(x: real, p: real, q: real, r: real, s: real)
    ensures x * (p * q - r * s) == (x * p) * q - (x * r) * s
    ensures x * (p * q + r * s) == (x * p) * q + (x * r) * s
  {
    Split(x, p * q, r * s);
    assert x * (p * q) == (x * p) * q && x * (r * s) == (x * r) * s;
  }

  lemma MulAssociates(a: Complex, b: Complex, c: Complex)
    ensures Mul(a, Mul(b, c)) == Mul(Mul(a, b), c)
  {
    ExpandLeft(a.re, b.re, c.re, b.im, c.im);
    ExpandLeft(a.im, b.re, c.im, b.im, c.re);
    ExpandLeft(a.re, b.re, c.im, b.im, c.re);
    ExpandLeft(a.im, b.re, c.re, b.im, c.im);
    Split(c.re, a.re * b.re, a.im * b.im);
    Split(c.im, a.re * b.im, a.im * b.re);
    Split(c.im, a.re * b.re, a.im * b.im);
    Split(c.re, a.re * b.im, a.im * b.re);
  }

  const I := Complex(0.0, 1.0)

  /** What the pairs mean: the real numbers are embedded, i squares to minus one, and a pair
      is its real part plus i times its imaginary part. */
  lemma PairsAreComplex(x: real, y: real)
    ensures Add(Complex(x, 0.0), Complex(y, 0.0)) == Complex(x + y, 0.0)
    ensures Mul(Complex(x, 0.0), Complex(y, 0.0)) == Complex(x * y, 0.0)
    ensures Mul(I, I) == Complex(-1.0, 0.0)
    ensures Complex(x, y) == Add(Complex(x, 0.0), Mul(I, Complex(y, 0.0)))
  {
  }

  /** Even powers of w are powers of its square. */
  lemma {:induction false} PowSquare(w: Complex, n: nat)
    ensures Pow(w, 2 * n) == Pow(Mul(w, w), n)
  {
    if n > 0 {
      PowSquare(w, n - 1);
      assert Pow(w, 2 * n) == Mul(w, Mul(w, Pow(w, 2 * (n - 1))));
      MulAssociates(w, w, Pow(w, 2 * (n - 1)));
    }
  }
}
