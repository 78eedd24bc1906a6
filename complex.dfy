/** Exact complex numbers over `real`, standing in for the floating-point
    complex samples and coefficients of the transform. Only ring operations
    are needed: the twiddle factors and magnitudes are left abstract. */
module ComplexNumbers {

  datatype Complex = Complex(re: real, im: real)

  const Zero: Complex := Complex(0.0, 0.0)

  function Add(a: Complex, b: Complex): Complex {
    Complex(a.re + b.re, a.im + b.im)
  }

  function Sub(a: Complex, b: Complex): Complex {
    Complex(a.re - b.re, a.im - b.im)
  }

  function Mul(a: Complex, b: Complex): Complex {
    Complex(a.re * b.re - a.im * b.im, a.re * b.im + a.im * b.re)
  }

  /** A real number seen as a complex one (a float entry of a NumPy array
      that later meets complex arithmetic). */
  function OfReal(r: real): Complex {
    Complex(r, 0.0)
  }

  /** A float array read as complex values. */
  function Lift(t: seq<real>): (z: seq<Complex>)
    ensures |z| == |t|
    ensures forall i :: 0 <= i < |z| ==> z[i].re == t[i] && z[i].im == 0.0
  {
    seq(|t|, i requires 0 <= i < |t| => OfReal(t[i]))
  }

  /** Pointwise sum of two equally long sequences. */
  function AddSeq(x: seq<Complex>, y: seq<Complex>): (z: seq<Complex>)
    requires |x| == |y|
    ensures |z| == |x|
    ensures forall i :: 0 <= i < |z| ==> z[i] == Add(x[i], y[i])
  {
    seq(|x|, i requires 0 <= i < |x| => Add(x[i], y[i]))
  }

  predicate AllZero(x: seq<Complex>) {
    forall i :: 0 <= i < |x| ==> x[i] == Zero
  }

  lemma MulZeroRight(a: Complex)
    ensures Mul(a, Zero) == Zero
  {
  }

  lemma MulDistributesOverAdd(a: Complex, b: Complex, c: Complex)
    ensures Mul(a, Add(b, c)) == Add(Mul(a, b), Mul(a, c))
    ensures Mul(Add(b, c), a) == Add(Mul(b, a), Mul(c, a))
  {
  }
}
