/** The peak counter of freq_calc.py (`find_peak_frequency`): the number of
    strict interior local maxima of the magnitudes of the first half of the
    spectrum. `np.abs` is left abstract as a magnitude function `mag`. */
module PeakCounter {
  import opened ComplexNumbers
  import opened FrequencyTransform

  /** `argrelextrema(m, np.greater)` with its default order 1 reports index i
      when m[i] is strictly greater than both neighbours. Its default 'clip'
      mode compares an end point with itself, so index 0 and the last index
      never qualify. */
  predicate IsStrictMax(m: seq<real>, i: int) {
    1 <= i < |m| - 1 && m[i] > m[i - 1] && m[i] > m[i + 1]
  }

  predicate StrictlyIncreasing(p: seq<int>) {
    forall a, b :: 0 <= a < b < |p| ==> p[a] < p[b]
  }

  /** The qualifying indices from i on, in increasing order. */
  function MaximaFrom(m: seq<real>, i: nat): (p: seq<nat>)
    ensures forall a :: 0 <= a < |p| ==> i <= p[a] && IsStrictMax(m, p[a])
    ensures forall j :: i <= j && IsStrictMax(m, j) ==> j in p
    ensures (forall j :: i <= j ==> !IsStrictMax(m, j)) ==> p == []
    ensures StrictlyIncreasing(p)
    decreases |m| - i
  {
    if i + 1 >= |m| then []
    else
      var rest := MaximaFrom(m, i + 1);
      if IsStrictMax(m, i) then
        assert forall a :: 0 < a < |[i] + rest| ==> ([i] + rest)[a] == rest[a - 1];
        [i] + rest
      else rest
  }

  /** The index array `argrelextrema(m, np.greater)[0]`: exactly the strict
      interior local maxima, in increasing order. */
  function StrictMaxima(m: seq<real>): (p: seq<nat>)
    ensures forall j :: j in p <==> IsStrictMax(m, j)
    ensures (forall j :: !IsStrictMax(m, j)) ==> p == []
    ensures StrictlyIncreasing(p)
  {
    MaximaFrom(m, 1)
  }

  /** Two reported indices are never neighbours: m[i] > m[i+1] and
      m[i+1] > m[i] cannot both hold. */
  lemma MaximaNotAdjacent(m: seq<real>, a: nat)
    requires a + 1 < |StrictMaxima(m)|
    ensures StrictMaxima(m)[a + 1] >= StrictMaxima(m)[a] + 2
  {
    var p := StrictMaxima(m);
    assert p[a] in p && p[a + 1] in p;
  }

  lemma {:induction false} MaximaSpread(m: seq<real>, a: nat)
    requires a < |StrictMaxima(m)|
    ensures StrictMaxima(m)[a] >= 2 * a + 1
  {
    var p := StrictMaxima(m);
    if a == 0 {
      assert p[0] in p;
    } else {
      MaximaSpread(m, a - 1);
      MaximaNotAdjacent(m, a - 1);
    }
  }

  /** Fewer than three values give no maximum; otherwise at most one index in
      two between 1 and |m| - 2 qualifies, so never more than |m| - 2. */
  lemma StrictMaximaCount(m: seq<real>)
    ensures |m| < 3 ==> StrictMaxima(m) == []
    ensures |m| >= 3 ==> |StrictMaxima(m)| <= (|m| - 1) / 2 <= |m| - 2
  {
    var p := StrictMaxima(m);
    if |p| > 0 {
      var last := p[|p| - 1];
      assert last in p;
      MaximaSpread(m, |p| - 1);
    }
  }

  /** A monotone sequence (either direction) has no strict interior maximum. */
  lemma MonotoneHasNoMaxima(m: seq<real>)
    requires (forall i :: 0 <= i < |m| - 1 ==> m[i] <= m[i + 1]) ||
             (forall i :: 0 <= i < |m| - 1 ==> m[i] >= m[i + 1])
    ensures StrictMaxima(m) == []
  {
    forall j
      ensures !IsStrictMax(m, j)
    {
    }
  }

  /** `np.abs(Y)` with the magnitude left abstract. */
  function Magnitudes(y: seq<Complex>, mag: Complex -> real): (m: seq<real>)
    ensures |m| == |y|
    ensures forall i :: 0 <= i < |y| ==> m[i] == mag(y[i])
  {
    seq(|y|, i requires 0 <= i < |y| => mag(y[i]))
  }

  /** The peaks of `np.abs(Y[:half])`, half = N // 2: only bins below half are
      looked at, and bin i is reported exactly when it lies strictly inside
      that half and its magnitude beats both neighbours. */
  function HalfSpectrumPeaks(y: seq<Complex>, mag: Complex -> real): (p: seq<nat>)
    ensures forall i :: i in p <==>
              1 <= i <= |y| / 2 - 2 && mag(y[i]) > mag(y[i - 1]) && mag(y[i]) > mag(y[i + 1])
    ensures StrictlyIncreasing(p)
  {
    StrictMaxima(Magnitudes(y[..|y| / 2], mag))
  }

  /** `find_peak_frequency`: the number of peaks of the half spectrum of
      `fft(X)`. No peak when the half has fewer than three bins; otherwise at
      most half - 2 of them (indeed at most (half - 1) / 2). */
  function FindPeakFrequency(x: seq<Complex>, w: Twiddle, mag: Complex -> real): (count: nat)
    ensures |x| / 2 < 3 ==> count == 0
    ensures |x| / 2 >= 3 ==> count <= (|x| / 2 - 1) / 2 <= |x| / 2 - 2
  {
    var y := FFT(x, w);
    StrictMaximaCount(Magnitudes(y[..|y| / 2], mag));
    |HalfSpectrumPeaks(y, mag)|
  }

  /** The magnitudes of the first half of a spectrum only rise, or only fall. */
  predicate MonotoneHalf(y: seq<Complex>, mag: Complex -> real) {
    (forall i :: 0 <= i < |y| / 2 - 1 ==> mag(y[i]) <= mag(y[i + 1])) ||
    (forall i :: 0 <= i < |y| / 2 - 1 ==> mag(y[i]) >= mag(y[i + 1]))
  }

  /** A half spectrum with monotone magnitudes has no peak. */
  lemma MonotoneHalfSpectrumHasNoPeaks(y: seq<Complex>, mag: Complex -> real)
    requires MonotoneHalf(y, mag)
    ensures HalfSpectrumPeaks(y, mag) == []
  {
    var m := Magnitudes(y[..|y| / 2], mag);
    assert forall i :: 0 <= i < |m| ==> m[i] == mag(y[i]);
    MonotoneHasNoMaxima(m);
  }

  /** Hence `find_peak_frequency` reports 0 when the magnitudes of the first
      half of `fft(X)` are monotone. */
  lemma MonotoneSpectrumCountsZero(x: seq<Complex>, w: Twiddle, mag: Complex -> real)
    requires MonotoneHalf(FFT(x, w), mag)
    ensures FindPeakFrequency(x, w, mag) == 0
  {
    MonotoneHalfSpectrumHasNoPeaks(FFT(x, w), mag);
  }
}
