/** The transform engine of freq_calc.py: the recursive radix-2 `fft` with its
    odd-length fallback `discrete_transform`.

    Sample values are exact complex numbers. The exponential is not computed:
    a `Twiddle` `w` is any function, and `w(a, n)` stands for exp(-2*pi*i*a/n).
    `fft` uses `w(k, N)`; the fallback's exp(+2*pi*i*k*j/N), with the opposite
    sign, is `w(-(k*j), N)`. Every lemma below therefore holds whatever the
    twiddle values are: they state the shape of the algorithm and the facts
    that need only the ring laws. */
module FrequencyTransform {
  import opened ComplexNumbers

  type Twiddle = (int, int) -> Complex

  /** `x[0::2]` */
  function Evens(x: seq<Complex>): (e: seq<Complex>)
    ensures |e| == (|x| + 1) / 2
    ensures forall i :: 0 <= i < |e| ==> e[i] == x[2 * i]
  {
    seq((|x| + 1) / 2, i requires 0 <= i < (|x| + 1) / 2 => x[2 * i])
  }

  /** `x[1::2]` */
  function Odds(x: seq<Complex>): (o: seq<Complex>)
    ensures |o| == |x| / 2
    ensures forall i :: 0 <= i < |o| ==> o[i] == x[2 * i + 1]
  {
    seq(|x| / 2, i requires 0 <= i < |x| / 2 => x[2 * i + 1])
  }

  /** The two slices split the input: every sample lands in exactly one of
      them, at half its index. */
  lemma SplitCovers(x: seq<Complex>, j: nat)
    requires j < |x|
    ensures j % 2 == 0 ==> j / 2 < |Evens(x)| && Evens(x)[j / 2] == x[j]
    ensures j % 2 == 1 ==> j / 2 < |Odds(x)| && Odds(x)[j / 2] == x[j]
    ensures |Evens(x)| + |Odds(x)| == |x|
  {
  }

  /** Term j of bin k of the direct transform: data[j] * exp(+2*pi*i*k*j/N). */
  function Term(x: seq<Complex>, k: int, j: nat, w: Twiddle): Complex
    requires j < |x|
  {
    Mul(x[j], w(-(k * j), |x|))
  }

  /** The value that `transform[k] += term` leaves in a float buffer after the
      first n terms: NumPy keeps the real part of each term and drops the
      imaginary part, so the result is the real part of the complex sum. */
  function TruncSum(x: seq<Complex>, k: int, n: nat, w: Twiddle): (s: real)
    requires n <= |x|
    ensures s == ComplexSum(x, k, n, w).re
  {
    if n == 0 then 0.0 else TruncSum(x, k, n - 1, w) + Term(x, k, n - 1, w).re
  }

  /** The complex sum of the first n terms of bin k, kept in full. */
  function ComplexSum(x: seq<Complex>, k: int, n: nat, w: Twiddle): Complex
    requires n <= |x|
  {
    if n == 0 then Zero else Add(ComplexSum(x, k, n - 1, w), Term(x, k, n - 1, w))
  }

  /** What `discrete_transform` returns: one truncated sum per bin. */
  function Direct(x: seq<Complex>, w: Twiddle): (t: seq<real>)
    ensures |t| == |x|
  {
    seq(|x|, k requires 0 <= k < |x| => TruncSum(x, k, |x|, w))
  }

  /** Bin k of the fallback is the real part of the sum of x[j] * exp(+2*pi*i*k*j/N)
      over all j: the imaginary part of the sum is lost. */
  lemma DirectIsRealPartOfSum(x: seq<Complex>, w: Twiddle, k: nat)
    requires k < |x|
    ensures Direct(x, w)[k] == ComplexSum(x, k, |x|, w).re
  {
  }

  /** `discrete_transform`: a zero-initialised float buffer filled by nested
      loops over k and j. */
  method DiscreteTransform(data: seq<Complex>, w: Twiddle) returns (transform: array<real>)
    ensures fresh(transform)
    ensures transform.Length == |data|
    ensures transform[..] == Direct(data, w)
  {
    var n := |data|;
    transform := new real[n](_ => 0.0);
    var k := 0;
    while k < n
      invariant 0 <= k <= n && transform.Length == n
      invariant forall i :: 0 <= i < k ==> transform[i] == TruncSum(data, i, n, w)
      invariant forall i :: k <= i < n ==> transform[i] == 0.0
    {
      var j := 0;
      while j < n
        invariant 0 <= j <= n
        invariant transform[k] == TruncSum(data, k, j, w)
        invariant forall i :: 0 <= i < k ==> transform[i] == TruncSum(data, i, n, w)
        invariant forall i :: k < i < n ==> transform[i] == 0.0
      {
        // the float buffer keeps only the real part of the complex term
        transform[k] := transform[k] + Term(data, k, j, w).re;
        j := j + 1;
      }
      k := k + 1;
    }
  }

  /** `fft`: the input itself when it has at most one sample, the direct
      transform (a float array) when its length is odd, and otherwise the
      butterfly over the transforms of the even- and odd-indexed slices. */
  function FFT(x: seq<Complex>, w: Twiddle): (y: seq<Complex>)
    ensures |y| == |x|
    decreases |x|
  {
    var n := |x|;
    if n <= 1 then x
    else if n % 2 == 1 then Lift(Direct(x, w))
    else
      Butterfly(FFT(Evens(x), w), FFT(Odds(x), w), w, n)
  }

  /** The two list comprehensions of the even case: the first half of the
      output adds the twiddled odd result, the second half subtracts it. */
  function Butterfly(even: seq<Complex>, odd: seq<Complex>, w: Twiddle, n: nat): (y: seq<Complex>)
    requires |even| == |odd| == n / 2 && n % 2 == 0
    ensures |y| == n
    ensures forall k :: 0 <= k < n ==>
              y[k] == if k < n / 2 then Add(even[k], Mul(w(k, n), odd[k]))
                      else Sub(even[k - n / 2], Mul(w(k - n / 2, n), odd[k - n / 2]))
  {
    seq(n / 2, k requires 0 <= k < n / 2 => Add(even[k], Mul(w(k, n), odd[k]))) +
    seq(n / 2, k requires 0 <= k < n / 2 => Sub(even[k], Mul(w(k, n), odd[k])))
  }

  lemma FFTOfShortInput(x: seq<Complex>, w: Twiddle)
    requires |x| <= 1
    ensures FFT(x, w) == x
  {
  }

  /** For an odd length above one no recursion happens: the result is the
      direct transform, so every entry is real. */
  lemma FFTOfOddLength(x: seq<Complex>, w: Twiddle)
    requires |x| > 1 && |x| % 2 == 1
    ensures FFT(x, w) == Lift(Direct(x, w))
    ensures forall k :: 0 <= k < |x| ==> FFT(x, w)[k].im == 0.0
  {
  }

  /** The butterfly: bin k and bin k + N/2 combine the same pair of
      sub-results, with the twiddle added and subtracted. */
  lemma FFTButterfly(x: seq<Complex>, w: Twiddle, k: nat)
    requires |x| >= 2 && |x| % 2 == 0 && k < |x| / 2
    ensures |FFT(Evens(x), w)| == |FFT(Odds(x), w)| == |x| / 2
    ensures FFT(x, w)[k] == Add(FFT(Evens(x), w)[k], Mul(w(k, |x|), FFT(Odds(x), w)[k]))
    ensures FFT(x, w)[k + |x| / 2] == Sub(FFT(Evens(x), w)[k], Mul(w(k, |x|), FFT(Odds(x), w)[k]))
  {
    var n := |x|;
    var e, o := FFT(Evens(x), w), FFT(Odds(x), w);
    FFTOfEvenLength(x, w);
    var j := k + n / 2;
    assert j - n / 2 == k && !(j < n / 2);
    assert Butterfly(e, o, w, n)[j] == Sub(e[k], Mul(w(k, n), o[k]));
  }

  /** The even-length branch of `fft`, unfolded once. */
  lemma FFTOfEvenLength(x: seq<Complex>, w: Twiddle)
    requires |x| >= 2 && |x| % 2 == 0
    ensures FFT(x, w) == Butterfly(FFT(Evens(x), w), FFT(Odds(x), w), w, |x|)
  {
  }

  /** When N is even and N/2 is odd and above one (N = 6, 10, ...), both
      halves go through the fallback, so the butterfly combines truncated,
      purely real sub-results. */
  lemma FFTHalvesAreTruncated(x: seq<Complex>, w: Twiddle)
    requires |x| % 2 == 0 && (|x| / 2) % 2 == 1 && |x| / 2 > 1
    ensures FFT(Evens(x), w) == Lift(Direct(Evens(x), w))
    ensures FFT(Odds(x), w) == Lift(Direct(Odds(x), w))
    ensures forall k :: 0 <= k < |x| / 2 ==>
              FFT(Evens(x), w)[k].im == 0.0 && FFT(Odds(x), w)[k].im == 0.0
  {
    FFTOfOddLength(Evens(x), w);
    FFTOfOddLength(Odds(x), w);
  }

  lemma {:induction false} TruncSumOfZero(x: seq<Complex>, k: int, n: nat, w: Twiddle)
    requires n <= |x| && AllZero(x)
    ensures TruncSum(x, k, n, w) == 0.0
  {
    if n > 0 {
      TruncSumOfZero(x, k, n - 1, w);
    }
  }

  /** An all-zero input gives an all-zero fallback transform. */
  lemma DirectOfZero(x: seq<Complex>, w: Twiddle)
    requires AllZero(x)
    ensures forall k :: 0 <= k < |x| ==> Direct(x, w)[k] == 0.0
  {
    forall k | 0 <= k < |x|
      ensures Direct(x, w)[k] == 0.0
    {
      TruncSumOfZero(x, k, |x|, w);
    }
  }

  /** An all-zero input gives an all-zero spectrum. */
  lemma {:induction false} FFTOfZero(x: seq<Complex>, w: Twiddle)
    requires AllZero(x)
    ensures AllZero(FFT(x, w))
    decreases |x|
  {
    var n := |x|;
    if n <= 1 {
    } else if n % 2 == 1 {
      DirectOfZero(x, w);
    } else {
      var h := n / 2;
      var e, o := FFT(Evens(x), w), FFT(Odds(x), w);
      FFTOfZero(Evens(x), w);
      FFTOfZero(Odds(x), w);
      var y := FFT(x, w);
      assert y == Butterfly(e, o, w, n);
      forall k | 0 <= k < n
        ensures y[k] == Zero
      {
        MulZeroRight(w(if k < h then k else k - h, n));
      }
    }
  }

  lemma {:induction false} TruncSumAdditive(x: seq<Complex>, y: seq<Complex>, k: int, n: nat, w: Twiddle)
    requires |x| == |y| && n <= |x|
    ensures TruncSum(AddSeq(x, y), k, n, w) == TruncSum(x, k, n, w) + TruncSum(y, k, n, w)
  {
    if n > 0 {
      TruncSumAdditive(x, y, k, n - 1, w);
      MulDistributesOverAdd(w(-(k * (n - 1)), |x|), x[n - 1], y[n - 1]);
    }
  }

  /** The fallback is additive: truncation keeps real parts, and the real
      part of a sum is the sum of the real parts. */
  lemma DirectAdditive(x: seq<Complex>, y: seq<Complex>, w: Twiddle)
    requires |x| == |y|
    ensures forall k :: 0 <= k < |x| ==>
              Direct(AddSeq(x, y), w)[k] == Direct(x, w)[k] + Direct(y, w)[k]
  {
    forall k | 0 <= k < |x|
      ensures Direct(AddSeq(x, y), w)[k] == Direct(x, w)[k] + Direct(y, w)[k]
    {
      TruncSumAdditive(x, y, k, |x|, w);
    }
  }

  /** The butterfly distributes over pointwise sums of its two inputs. */
  lemma ButterflyAdditive(ex: seq<Complex>, ey: seq<Complex>, ox: seq<Complex>, oy: seq<Complex>, w: Twiddle, n: nat)
    requires |ex| == |ey| == |ox| == |oy| == n / 2 && n % 2 == 0
    ensures Butterfly(AddSeq(ex, ey), AddSeq(ox, oy), w, n) ==
            AddSeq(Butterfly(ex, ox, w, n), Butterfly(ey, oy, w, n))
  {
    var h := n / 2;
    var lhs := Butterfly(AddSeq(ex, ey), AddSeq(ox, oy), w, n);
    var rhs := AddSeq(Butterfly(ex, ox, w, n), Butterfly(ey, oy, w, n));
    forall k | 0 <= k < n
      ensures lhs[k] == rhs[k]
    {
      var j := if k < h then k else k - h;
      MulDistributesOverAdd(w(j, n), ox[j], oy[j]);
    }
  }

  /** The transform of a pointwise sum is the pointwise sum of the
      transforms, on every path (base case, fallback and butterfly). */
  lemma {:induction false} FFTAdditive(x: seq<Complex>, y: seq<Complex>, w: Twiddle)
    requires |x| == |y|
    ensures FFT(AddSeq(x, y), w) == AddSeq(FFT(x, w), FFT(y, w))
    decreases |x|
  {
    var n := |x|;
    var s := AddSeq(x, y);
    if n <= 1 {
    } else if n % 2 == 1 {
      DirectAdditive(x, y, w);
    } else {
      assert Evens(s) == AddSeq(Evens(x), Evens(y));
      assert Odds(s) == AddSeq(Odds(x), Odds(y));
      FFTAdditive(Evens(x), Evens(y), w);
      FFTAdditive(Odds(x), Odds(y), w);
      ButterflyAdditive(FFT(Evens(x), w), FFT(Evens(y), w), FFT(Odds(x), w), FFT(Odds(y), w), w, n);
    }
  }

  /** The truncation is visible: three purely imaginary samples sum to 3i in
      bin 0 (where the twiddle is exp(0) = 1), yet the fallback reports 0. */
  lemma DirectDropsImaginaryPart(w: Twiddle)
    requires w(0, 3) == Complex(1.0, 0.0)
    ensures ComplexSum([Complex(0.0, 1.0), Complex(0.0, 1.0), Complex(0.0, 1.0)], 0, 3, w) == Complex(0.0, 3.0)
    ensures Direct([Complex(0.0, 1.0), Complex(0.0, 1.0), Complex(0.0, 1.0)], w)[0] == 0.0
  {
    var t := Complex(0.0, 1.0);
    var x := [t, t, t];
    assert Term(x, 0, 0, w) == t && Term(x, 0, 1, w) == t && Term(x, 0, 2, w) == t;
    assert ComplexSum(x, 0, 1, w) == Complex(0.0, 1.0);
    assert ComplexSum(x, 0, 2, w) == Complex(0.0, 2.0);
    assert TruncSum(x, 0, 1, w) == 0.0;
    assert TruncSum(x, 0, 2, w) == 0.0;
    assert Direct(x, w)[0] == TruncSum(x, 0, 3, w);
  }
}
