# Frequency analysis core, modelled in Dafny

This project models the computational core of a small carbon-dioxide data
analysis repository. It has two parts:

- **The spectral path of `freq_calc.py`.**
  - `fft` is a recursive radix-2 Cooley–Tukey transform. Its input is returned unchanged for length at most one. It falls back to `discrete_transform` for odd lengths. For even lengths it runs a butterfly over the transforms of the even- and odd-indexed slices.
  - `discrete_transform` is a direct O(N²) sum written as nested loops into a zero-initialised float buffer.
  - `find_peak_frequency` counts the strict interior local maxima of the magnitudes of the first half of the spectrum.
- **The decade aggregator of `freq_generator.py`** (`find_peaks_by_decade`), from already-parsed `(year, month, value)` rows on. It covers:
  - date assembly and validation, where pandas carries an out-of-range month field into the year;
  - the months-since-first column;
  - the `floor(year / 10) * 10` decade key;
  - the order-preserving `groupby(..., sort=False)`;
  - a peak finder applied to each group's values.

Files and modules:

- `complex.dfy`, module `ComplexNumbers`: exact complex numbers over `real`
  with the ring operations the transform needs.
- `transform.dfy`, module `FrequencyTransform`: `FFT` (a function, as the
  source is recursion over slices and list comprehensions), `Butterfly`, the
  specification `Direct` of the fallback and the imperative
  `DiscreteTransform` method over an `array<real>` proved equal to it.
- `peaks.dfy`, module `PeakCounter`: `StrictMaxima` (SciPy's
  `argrelextrema(m, np.greater)` with order 1), `HalfSpectrumPeaks` and
  `FindPeakFrequency`.
- `decades.dfy`, module `DecadeAggregator`: decades, months column, first-seen
  group keys, groups, and `FindPeaksByDecade` with a `Result` for its error
  paths.

How the floating-point parts are abstracted:

- **Twiddle factors.** The exponential is never evaluated. A twiddle `w` is a parameter, and `w(a, n)` stands for exp(-2πi·a/n).
  - `fft` uses `w(k, N)`.
  - `discrete_transform` uses exp(+2πi·k·j/N), which has the opposite sign. It is therefore `w(-(k*j), N)`.
  - Every property except the example `DirectDropsImaginaryPart` is proved for all twiddles, so the model claims only what the algorithm's shape and the ring laws give. That example assumes exp(0) = 1, i.e. `w(0, 3) == 1`. It makes no claim of numeric equality with a true DFT.
- **Magnitude.** `np.abs` is a parameter `mag`.
- **Peak finder.** SciPy's `find_peaks` is a parameter `findPeaks`. The model relies only on its promise of strictly increasing in-range positions.

Where the code and its documentation disagree, the model follows the code:

- **Docstring.** The docstring of `discrete_transform` (freq_calc.py:31-46) is a copy of `fft`'s and describes a recursive algorithm. The code at lines 47-53 is a direct double loop.
- **Truncation.** `transform = np.zeros(N)` is a float buffer, and `+=` of a complex term into it keeps only the real part. The model makes this explicit: `TruncSum` adds `.re` of each term. `DirectIsRealPartOfSum` shows that the result is the real part of the complex sum, and `DirectDropsImaginaryPart` exhibits an input whose imaginary part is lost. Because of this, every odd-length sub-result of length three or more that reaches the butterfly is real (`FFTHalvesAreTruncated`, e.g. N = 6). Sub-results of length one are returned unchanged by line 22 and keep their imaginary part, e.g. for N = 2 and at the bottom of every power-of-two recursion.
- **Exponent sign.** The fallback's exponent has the sign opposite to `fft`'s. The model keeps that sign as written.

## Model

| member | source | states |
|---|---|---|
| `FrequencyTransform.Evens` | freq_calc.py:26 | `x[0::2]`: ⌈N/2⌉ entries, entry i is sample 2i |
| `FrequencyTransform.Odds` | freq_calc.py:27 | `x[1::2]`: ⌊N/2⌋ entries, entry i is sample 2i+1 |
| `FrequencyTransform.SplitCovers` | freq_calc.py:26-27 | the two slices together hold every sample exactly once, at half its index, and their lengths add up to N |
| `FrequencyTransform.FFT` | freq_calc.py:21-29 | the output is as long as the input on every path |
| `FrequencyTransform.Butterfly` | freq_calc.py:28-29 | N entries: bin k < N/2 is `even[k] + W(k,N)·odd[k]`, bin k + N/2 is `even[k] − W(k,N)·odd[k]` |
| `FrequencyTransform.FFTOfShortInput` | freq_calc.py:21-22 | input of length 0 or 1 is returned unchanged |
| `FrequencyTransform.FFTOfOddLength` | freq_calc.py:23-25 | odd N > 1: the result is exactly the fallback's float array, so no recursion happens and every bin is real |
| `FrequencyTransform.FFTButterfly` | freq_calc.py:26-29 | even N: with E and O the transforms of the slices, `out[k] = E[k] + W(k,N)·O[k]` and `out[k+N/2] = E[k] − W(k,N)·O[k]` for k < N/2 |
| `FrequencyTransform.FFTHalvesAreTruncated` | freq_calc.py:23-29 | even N whose half is odd and above one: both halves are truncated fallback results with zero imaginary part |
| `FrequencyTransform.Direct` | freq_calc.py:47-53 | one truncated sum per bin, as many bins as samples |
| `FrequencyTransform.DiscreteTransform` | freq_calc.py:47-53 | the nested loops fill a buffer of length N whose contents equal `Direct(data)`; the loop invariants keep finished bins fixed and later bins at zero |
| `FrequencyTransform.TruncSum` | freq_calc.py:50-52 | the value `transform[k] +=` leaves after n terms: proved by induction to be the real part of the complex partial sum |
| `FrequencyTransform.DirectIsRealPartOfSum` | freq_calc.py:48-52 | bin k of the fallback is the real part of Σⱼ data[j]·exp(+2πi·k·j/N) |
| `FrequencyTransform.DirectDropsImaginaryPart` | freq_calc.py:48-52 | three samples equal to i: the complex sum of bin 0 is 3i, the fallback reports 0 |
| `FrequencyTransform.DirectOfZero` | freq_calc.py:48-52 | all-zero input gives an all-zero fallback transform |
| `FrequencyTransform.FFTOfZero` | freq_calc.py:21-29 | all-zero input gives an all-zero spectrum, through every branch |
| `FrequencyTransform.TruncSumAdditive` | freq_calc.py:49-52 | the truncated partial sum of a pointwise sum is the sum of the truncated partial sums |
| `FrequencyTransform.DirectAdditive` | freq_calc.py:47-53 | the fallback transform is additive bin by bin |
| `FrequencyTransform.ButterflyAdditive` | freq_calc.py:28-29 | the butterfly of pointwise sums is the pointwise sum of the butterflies |
| `FrequencyTransform.FFTAdditive` | freq_calc.py:21-29 | `fft(x + y) = fft(x) + fft(y)` pointwise, for any twiddle |
| `PeakCounter.MaximaFrom` | freq_calc.py:79 | from index i on: exactly the strict interior maxima, in strictly increasing order, empty when none |
| `PeakCounter.StrictMaxima` | freq_calc.py:79 | `argrelextrema(m, np.greater)[0]`: j is reported iff 1 ≤ j ≤ \|m\|−2 and m[j] beats both neighbours; strictly increasing |
| `PeakCounter.MaximaNotAdjacent` | freq_calc.py:79 | two consecutive reported indices are at least two apart |
| `PeakCounter.MaximaSpread` | freq_calc.py:79 | the a-th reported index is at least 2a+1 |
| `PeakCounter.StrictMaximaCount` | freq_calc.py:79-81 | fewer than 3 values give no peak; otherwise at most (\|m\|−1)/2 ≤ \|m\|−2 peaks |
| `PeakCounter.MonotoneHasNoMaxima` | freq_calc.py:79 | a nondecreasing or nonincreasing sequence has no peak |
| `PeakCounter.Magnitudes` | freq_calc.py:77 | `np.abs` applied entry by entry, same length |
| `PeakCounter.HalfSpectrumPeaks` | freq_calc.py:73-79 | bin i is a peak iff 1 ≤ i ≤ N//2−2 and its magnitude beats both neighbours; bins at or above N//2 are never looked at |
| `PeakCounter.FindPeakFrequency` | freq_calc.py:71-82 | the count is 0 when N//2 < 3, otherwise at most (N//2−1)/2 ≤ N//2−2 |
| `PeakCounter.MonotoneHalfSpectrumHasNoPeaks` | freq_calc.py:77-79 | monotone magnitudes over the first half give no peak |
| `PeakCounter.MonotoneSpectrumCountsZero` | freq_calc.py:71-82 | `find_peak_frequency` returns 0 when the half-spectrum magnitudes of `fft(X)` are monotone |
| `DecadeAggregator.Decade` | freq_generator.py:31 | the key is a multiple of 10 with key ≤ year < key + 10 |
| `DecadeAggregator.DecadeIsUnique` | freq_generator.py:31 | any multiple of 10 within ten years at or below the year is the key |
| `DecadeAggregator.DecadeMonotone` | freq_generator.py:31 | a later year never has an earlier decade |
| `DecadeAggregator.Assemble` | freq_generator.py:24 | the assembled (year, month) has the same year·100 + month value with a month in 0..99, so fields carry base 100; an ordinary month 1..12 is kept unchanged. `ValidDate` accepts a pair exactly when its assembled month is 1..12 within the nanosecond timestamp range |
| `DecadeAggregator.Dated` | freq_generator.py:24-25 | one dated row per input row, same value, year and month replaced by their assembly |
| `DecadeAggregator.DatedIsInCalendar` | freq_generator.py:24-25 | rows whose dates `pd.to_datetime` accepts become calendar months (1..12) within the timestamp range |
| `DecadeAggregator.OrdinaryMonthsAreKept` | freq_generator.py:24 | when every month field is 1..12, dating changes no row |
| `DecadeAggregator.MonthFieldCarries` | freq_generator.py:24 | month 101 of 1979 is January 1980 and month −88 of 1981 is December 1980, both accepted; months 0 and 13 are rejected |
| `DecadeAggregator.MonthsSinceFirst` | freq_generator.py:28 | over calendar months (the dated rows): one offset per row, and the first row's offset is 0 |
| `DecadeAggregator.MonthsFollowDates` | freq_generator.py:24-28 | for calendar dates, a strictly later month has a strictly larger offset |
| `DecadeAggregator.ConsecutiveMonthsCountRows` | freq_generator.py:28 | for a gap-free monthly series of calendar months the offset of row i is i |
| `DecadeAggregator.MonthsColumn` | freq_generator.py:24-28 | the `months` column, taken over the dated rows of valid input: one entry per row, 0 for the first |
| `DecadeAggregator.MonthsColumnFollowsDates` | freq_generator.py:24-28 | a row whose assembled date is later has a strictly larger months entry |
| `DecadeAggregator.MonthsColumnOfOrdinaryMonths` | freq_generator.py:24-28 | when every month field is 1..12 the column equals the offsets of the parsed dates |
| `DecadeAggregator.CarriedMonthCountsOne` | freq_generator.py:24-28 | rows (1979, 12) and (1979, 101) give the column [0, 1], while their parsed fields differ by 89 months |
| `DecadeAggregator.GroupByDecade` | freq_generator.py:35 | `groupby(decade, sort=False)`: groups have distinct decades and each holds only rows of its own decade |
| `DecadeAggregator.Keys` | freq_generator.py:35 | group keys are distinct and are exactly the decades present in the input |
| `DecadeAggregator.Select` | freq_generator.py:35 | a group holds only rows of its own decade |
| `DecadeAggregator.SelectAbsentDecade` | freq_generator.py:35 | a decade absent from the input selects nothing |
| `DecadeAggregator.RowInItsGroup` | freq_generator.py:35 | row i appears in its decade's group at position `Rank(rows, i)` |
| `DecadeAggregator.GroupKeepsOrder` | freq_generator.py:34-35 | two rows of one decade keep their relative order inside the group |
| `DecadeAggregator.GroupsPartitionRows` | freq_generator.py:31-35 | distinct keys, exactly the input's decades, no empty group, and a row is in a group iff the group's key is its decade |
| `DecadeAggregator.GroupsHoldAllRows` | freq_generator.py:35 | the concatenated groups are a permutation of the input (multiset equality, same length) |
| `DecadeAggregator.GroupCountIsDecadeCount` | freq_generator.py:35 | as many groups as distinct decades |
| `DecadeAggregator.OneDecadeOneGroup` | freq_generator.py:35 | non-empty input within one decade gives exactly one group |
| `DecadeAggregator.KeysInFirstSeenOrder` | freq_generator.py:34-35 | keys come in order of first occurrence: a row of a later key is preceded by a row of every earlier key |
| `DecadeAggregator.FirstSeenNotNumeric` | freq_generator.py:34-35 | years 1995, 1985, 1991 give keys [1990, 1980], not numeric order |
| `DecadeAggregator.SortedInputIsReproduced` | freq_generator.py:35 | for nondecreasing years, concatenating the groups gives back the input |
| `DecadeAggregator.FindPeaksByDecade` | freq_generator.py:24-35 | an invalid date is an error iff some row fails `ValidDate`; an empty frame is an error iff there are no rows; otherwise one entry per group of the dated rows, in group order, with the peak finder's result on that group's values |
| `DecadeAggregator.PeaksStayInsideGroups` | freq_generator.py:35 | with a peak finder that keeps its contract, each decade's indices are strictly increasing positions inside its group, and the decades are those of the dated input, each once |
| `DecadeAggregator.SingleRowGroup` | freq_generator.py:35 | a single row makes exactly one group, holding that row |
| `DecadeAggregator.SingleRowReport` | freq_generator.py:24-35 | one row with a valid date gives one entry: the decade of its assembled year with the peaks of its single value |
| `DecadeAggregator.CarriedRowJoinsNextDecade` | freq_generator.py:24-35 | a row of 1979 with month field 101 is reported under decade 1980 |
| `DecadeAggregator.DecadeBoundary` | freq_generator.py:31 | 1979 goes to 1970, 1980 and 1991 to their own decades |

## Left out

- Reading the data file (`pd.read_csv`, freq_generator.py:21) and all network access: the model starts from parsed `(year, month, value)` rows.
- The diagnostic `print` at freq_calc.py:24: a side effect only.
- The `ComplexWarning` that NumPy emits for each complex `+=` into the float buffer at freq_calc.py:52: a side effect only. The model keeps the value it leaves, the real part.
- Numeric values of `np.exp`, `np.pi` and `np.abs`, and floating-point rounding: the twiddle and the magnitude are parameters and samples are exact reals, so no float-level equality with a true DFT is claimed.
- The internals of SciPy's `argrelextrema` beyond order 1 with `np.greater` and its default `clip` mode, and the internals of `find_peaks`, which is a parameter whose contract is stated as a precondition.
- pandas `Period`/`datetime` machinery (freq_generator.py:24-25): replaced by integer `(year, month)` pairs. `Assemble` models how `pd.to_datetime` builds the date from the integer year·10000 + month·100 + 1. The valid range is stated as that of nanosecond timestamps at day 1 of the month. Non-integer year or month fields, which the parsed rows cannot hold, are not modelled.
- DecadeAggregator.Decade: the key is an integer, whereas `np.floor(year / 10) * 10` gives a float such as `1980.0`. The value is the same.
- FindPeaksByDecade: the result is a sequence of (decade, indices) pairs rather than a pandas Series indexed by decade. The other columns of the frame (`months`, `date` index) are not carried along.
- The Butterworth filtering scripts, plotting and `main.py`: library wrappers, UI and reporting outside the analysed core.
