/**
  Complex numbers as the rasteriser uses them: a pair of real and imaginary
  parts. The source stores each part as a `double`; here each part is an exact
  `real`, so the model is the arithmetic the source approximates.
 */
module ComplexPlane {

  /** A complex number `re + im·i`. */
  datatype Complex = Complex(re: real, im: real)

  /** The origin, `0 + 0i`: the starting point of every orbit. */
  const Zero: Complex := Complex(0.0, 0.0)

  /** Component-wise sum, as the source adds `c` part by part. */
  function Add(a: Complex, b: Complex): Complex
  {
    Complex(a.re + b.re, a.im + b.im)
  }

  /**
    The general complex product `(a.re + a.im·i)(b.re + b.im·i)`: the
    textbook definition that `Square` is checked against.
   */
  function Mul(a: Complex, b: Complex): Complex
  {
    Complex(a.re * b.re - a.im * b.im, a.re * b.im + a.im * b.re)
  }

  /**
    The square of `z`, written the way the source writes it:
    real part `re² − im²`, imaginary part `2·re·im`.
   */
  function Square(z: Complex): Complex
  {
    Complex(z.re * z.re - z.im * z.im, 2.0 * z.re * z.im)
  }

  /** The squared Euclidean modulus `re² + im²`. */
  function ModulusSq(z: Complex): real
  {
    z.re * z.re + z.im * z.im
  }

  /** Complex conjugate: reflection in the real axis. */
  function Conj(z: Complex): Complex
  {
    Complex(z.re, -z.im)
  }

  /** The source's formula for the square is the general product `z·z`. */
  lemma SquareIsProduct(z: Complex)
    ensures Square(z) == Mul(z, z)
  {
  }

  /** The origin squares to itself. */
  lemma SquareZero()
    ensures Square(Zero) == Zero
  {
  }

  /**
    The source compares the modulus `r = sqrt(re² + im²)` with 2. For the
    non-negative `r` whose square is the squared modulus, `r > 2` holds exactly
    when the squared modulus exceeds 4, so comparing `ModulusSq(z)` with 4
    decides the same escape test without a square root.
   */
  lemma ModulusCompare(r: real, z: Complex)
    requires r >= 0.0 && r * r == ModulusSq(z)
    ensures r > 2.0 <==> ModulusSq(z) > 4.0
  {
    if r > 2.0 {
      assert r * r > 2.0 * r;
    } else {
      assert r * r <= 2.0 * r;
    }
  }

  /** Conjugation is an involution and keeps the modulus. */
  lemma ConjModulus(z: Complex)
    ensures Conj(Conj(z)) == z
    ensures ModulusSq(Conj(z)) == ModulusSq(z)
  {
  }

  /** Squaring commutes with conjugation. */
  lemma SquareConj(z: Complex)
    ensures Square(Conj(z)) == Conj(Square(z))
  {
  }

  /** Addition commutes with conjugation. */
  lemma AddConj(a: Complex, b: Complex)
    ensures Add(Conj(a), Conj(b)) == Conj(Add(a, b))
  {
  }
}
