/**
 * The part of the `num` crate's `Complex<f64>` that the renderer uses:
 * construction, addition, multiplication and the squared norm.
 *
 * The components are Dafny `real`s, so this is an EXACT-ARITHMETIC
 * IDEALISATION of f64: there is no rounding, no overflow to infinity and
 * no NaN. Nothing proved here claims bit-exact agreement with f64.
 */
module NumComplex {

  /** A point of the complex plane, compared component-wise. */
  datatype Complex = Complex(re: real, im: real)

  const Zero: Complex := Complex(0.0, 0.0)

  /** `a + b`, component-wise. */
  function Add(a: Complex, b: Complex): Complex
  {
    Complex(a.re + b.re, a.im + b.im)
  }

  /** `a * b` as the `num` crate defines it: (ac - bd) + (ad + bc)i. */
  function Mul(a: Complex, b: Complex): Complex
  {
    Complex(a.re * b.re - a.im * b.im, a.re * b.im + a.im * b.re)
  }

  /** `z.norm_sqr()`: the squared modulus, computed without a square root. */
  function NormSqr(z: Complex): (n: real)
    ensures n >= 0.0
  {
    z.re * z.re + z.im * z.im
  }

  /** The squared norm is multiplicative: |a * b|^2 == |a|^2 * |b|^2. */
  lemma MulNormSqr(a: Complex, b: Complex)
    ensures NormSqr(Mul(a, b)) == NormSqr(a) * NormSqr(b)
  {
  }

  /** 0 * 0 == 0. */
  lemma MulZero()
    ensures Mul(Zero, Zero) == Zero
  {
  }

  /** 0 + c == c. */
  lemma AddZero(c: Complex)
    ensures Add(Zero, c) == c
  {
  }
}
