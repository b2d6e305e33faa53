/** Complex numbers over exact reals, and 2x2 matrices of them. */
module Complex {

  datatype C = C(re: real, im: real)
  {
    function Add(z: C): C { C(re + z.re, im + z.im) }
    function Mul(z: C): C { C(re * z.re - im * z.im, re * z.im + im * z.re) }
    function Scale(k: real): C { C(k * re, k * im) }
    /** std::norm: the squared magnitude. */
    function Norm(): real { re * re + im * im }
  }

  const ZERO := C(0.0, 0.0)
  const ONE := C(1.0, 0.0)

  lemma MulAdd(a: C, x: C, y: C)
    ensures a.Mul(x.Add(y)) == a.Mul(x).Add(a.Mul(y))
  {
    RealDistribute(a.re, x.re, y.re);
    RealDistribute(a.im, x.im, y.im);
    RealDistribute(a.re, x.im, y.im);
    RealDistribute(a.im, x.re, y.re);
  }

  lemma RealDistribute(a: real, x: real, y: real)
    ensures a * (x + y) == a * x + a * y
    ensures a * (x - y) == a * x - a * y
  {
  }

  lemma MulLeftCommutes(a: C, b: C, x: C)
    ensures a.Mul(b.Mul(x)) == b.Mul(a.Mul(x))
  {
    RealDistribute(a.re, b.re * x.re, b.im * x.im);
    RealDistribute(a.im, b.re * x.im, b.im * x.re);
    RealDistribute(a.re, b.re * x.im, b.im * x.re);
    RealDistribute(a.im, b.re * x.re, b.im * x.im);
    RealDistribute(b.re, a.re * x.re, a.im * x.im);
    RealDistribute(b.im, a.re * x.im, a.im * x.re);
    RealDistribute(b.re, a.re * x.im, a.im * x.re);
    RealDistribute(b.im, a.re * x.re, a.im * x.im);
    RealLeftCommutes(a.re, b.re, x.re);
    RealLeftCommutes(a.re, b.im, x.im);
    RealLeftCommutes(a.im, b.re, x.im);
    RealLeftCommutes(a.im, b.im, x.re);
    RealLeftCommutes(a.re, b.re, x.im);
    RealLeftCommutes(a.re, b.im, x.re);
    RealLeftCommutes(a.im, b.re, x.re);
    RealLeftCommutes(a.im, b.im, x.im);
  }

  lemma RealLeftCommutes(a: real, b: real, x: real)
    ensures a * (b * x) == b * (a * x)
  {
  }

  lemma NormNonNegative(z: C)
    ensures z.Norm() >= 0.0
  {
    SquareNonNegative(z.re);
    SquareNonNegative(z.im);
  }

  lemma SquareNonNegative(x: real)
    ensures x * x >= 0.0
  {
  }

  lemma NormScale(z: C, k: real)
    ensures z.Scale(k).Norm() == k * k * z.Norm()
  {
    ScaledSquare(z.re, k);
    ScaledSquare(z.im, k);
    RealDistribute(k * k, z.re * z.re, z.im * z.im);
  }

  lemma ScaledSquare(x: real, k: real)
    ensures (k * x) * (k * x) == k * k * (x * x)
  {
  }
}
