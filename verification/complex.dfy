/** Complex numbers over exact reals: the element type of every field buffer
    (numpy `complex128`, with rounding not modelled). */
module Complex {

  datatype Complex = Complex(re: real, im: real)

  const Zero: Complex := Complex(0.0, 0.0)

  function Conj(z: Complex): Complex {
    Complex(z.re, -z.im)
  }

  function Add(z: Complex, w: Complex): Complex {
    Complex(z.re + w.re, z.im + w.im)
  }

  function Mul(z: Complex, w: Complex): Complex {
    Complex(z.re * w.re - z.im * w.im, z.re * w.im + z.im * w.re)
  }

  /** Multiplication by a real factor. */
  function Scale(c: real, z: Complex): Complex {
    Complex(c * z.re, c * z.im)
  }

  /** numpy's `x.imag = 0`. */
  function RealPart(z: Complex): Complex {
    Complex(z.re, 0.0)
  }

  /** Squared modulus; `abs(z) < eps` is `Norm2(z) < eps * eps` for `eps > 0`. */
  function Norm2(z: Complex): real {
    z.re * z.re + z.im * z.im
  }

  predicate IsReal(z: Complex) {
    z.im == 0.0
  }

  lemma ConjInvolutive(z: Complex)
    ensures Conj(Conj(z)) == z
  {
  }

  /** A number equal to its own conjugate is real. */
  lemma SelfConjugateIsReal(z: Complex)
    requires Conj(z) == z
    ensures IsReal(z) && RealPart(z) == z
  {
  }

  /** Conjugation keeps the modulus, so `abs(z) < eps` is mirror-blind. */
  lemma Norm2Conj(z: Complex)
    ensures Norm2(Conj(z)) == Norm2(z)
  {
    assert (-z.im) * (-z.im) == z.im * z.im;
  }

  lemma ConjOfSum(z: Complex, w: Complex)
    ensures Conj(Add(z, w)) == Add(Conj(z), Conj(w))
  {
  }
}
