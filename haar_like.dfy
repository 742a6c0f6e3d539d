/** src/camera/haar_like.rs: one Haar-like feature per vertical strip of a
    frame.  For a strip, every row is summed, the row sums are smoothed with a
    box kernel of `rect_height` taps, adjacent smoothed values are
    differenced, and the feature is the position of the largest rise divided
    by the number of differences.

    Arithmetic is exact (`real`): f64 rounding is not modelled.  The one
    special value the code can produce on finite inputs, 0/0 = NaN when
    there is a single smoothed value, is modelled. */
module HaarLike {
  import opened RustCore
  import opened Cv

  /** An `f64` that is either a (rounding-free) finite value or NaN. */
  datatype F64 = Finite(value: real) | NaN

  const SUBTRACT_OVERFLOW_PANIC: string := "attempt to subtract with overflow"
  const INDEX_PANIC: string := "index out of bounds"
  const CAPACITY_PANIC: string := "capacity overflow"
  const DIVIDE_BY_ZERO_PANIC: string := "attempt to divide by zero"

  function Sum(s: seq<real>): real {
    if s == [] then 0.0 else Sum(s[..|s| - 1]) + s[|s| - 1]
  }

  /** `sum_{i < n} a[j + i] * k[|k| - 1 - i]`: the first `n` terms of the
      kernel-reversed dot product of the window of `a` starting at `j`. */
  function ReversedDot(a: seq<real>, k: seq<real>, j: nat, n: nat): real
    requires n <= |k| && j + n <= |a|
  {
    if n == 0 then 0.0 else ReversedDot(a, k, j, n - 1) + a[j + n - 1] * k[|k| - n]
  }

  /** Output `j` of a valid-mode convolution of `a` with `k`. */
  function Convolution(a: seq<real>, k: seq<real>, j: nat): real
    requires |k| <= |a| && j <= |a| - |k|
  {
    ReversedDot(a, k, j, |k|)
  }

  /** Output `j` of `convolve` as the code computes it: the first output is
      the convolution of the first window; every later one adds
      `a[i] * k[0]` and subtracts `a[i - |k|] * k[|k| - 1]` from the previous. */
  function Sliding(a: seq<real>, k: seq<real>, j: nat): real
    requires |k| <= |a| && j <= |a| - |k| && (j > 0 ==> |k| >= 1)
  {
    if j == 0 then ReversedDot(a, k, 0, |k|)
    else Sliding(a, k, j - 1) + (a[j - 1 + |k|] * k[0] - a[j - 1] * k[|k| - 1])
  }

  /** `convolve`: a running sum, pushed once per window.  A kernel longer
      than the input underflows `array_len - kernel_size`, and an empty
      kernel over a non-empty input indexes `kernel[0]`: both panic. */
  method Convolve(values: seq<real>, kernel: seq<real>) returns (o: Outcome<seq<real>>)
    ensures o.Panics? <==> |kernel| > |values| || (|kernel| == 0 && |values| > 0)
    ensures o.Panics? ==> o.message == if |kernel| > |values| then SUBTRACT_OVERFLOW_PANIC else INDEX_PANIC
    ensures o.Returns? ==> |o.value| == |values| - |kernel| + 1
    ensures o.Returns? ==> o.value[0] == Convolution(values, kernel, 0)
    ensures o.Returns? ==> forall j :: 0 <= j < |o.value| ==> o.value[j] == Sliding(values, kernel, j)
  {
    var kernelSize := |kernel|;
    var arrayLen := |values|;
    if arrayLen < kernelSize {
      return Panics(SUBTRACT_OVERFLOW_PANIC);
    }
    var sum: real := 0.0;
    for i := 0 to kernelSize
      invariant sum == ReversedDot(values, kernel, 0, i)
    {
      sum := sum + values[i] * kernel[kernelSize - 1 - i];
    }
    var result := [sum];
    // the Rust code also sums the kernel into `_`; the value is discarded
    if kernelSize == 0 && kernelSize < arrayLen {
      // the first iteration below reads `kernel[0]`
      return Panics(INDEX_PANIC);
    }
    for i := kernelSize to arrayLen
      invariant |result| == i - kernelSize + 1
      invariant forall j :: 0 <= j < |result| ==> result[j] == Sliding(values, kernel, j)
      invariant sum == result[|result| - 1]
    {
      SlidingNext(values, kernel, i);
      sum := sum + (values[i] * kernel[0] - values[i - kernelSize] * kernel[kernelSize - 1]);
      SlidingAppend(values, kernel, result, sum);
      result := result + [sum];
    }
    return Returns(result);
  }

  /** `convolve` as its name promises: every output is the full kernel-reversed
      dot product of its window, so the result is the convolution for every
      kernel, not only for constant ones. */
  method ConvolveExact(values: seq<real>, kernel: seq<real>) returns (result: seq<real>)
    requires 1 <= |kernel| <= |values|
    ensures |result| == |values| - |kernel| + 1
    ensures forall j :: 0 <= j < |result| ==> result[j] == Convolution(values, kernel, j)
  {
    var kernelSize := |kernel|;
    result := [];
    for j := 0 to |values| - kernelSize + 1
      invariant |result| == j
      invariant forall q :: 0 <= q < j ==> result[q] == Convolution(values, kernel, q)
    {
      var sum: real := 0.0;
      for i := 0 to kernelSize
        invariant sum == ReversedDot(values, kernel, j, i)
      {
        sum := sum + values[j + i] * kernel[kernelSize - 1 - i];
      }
      result := result + [sum];
    }
  }

  /** The update `convolve` makes when element `i` enters the window. */
  lemma SlidingNext(a: seq<real>, k: seq<real>, i: nat)
    requires 1 <= |k| <= i < |a|
    ensures Sliding(a, k, i - |k| + 1) == Sliding(a, k, i - |k|) + (a[i] * k[0] - a[i - |k|] * k[|k| - 1])
  {
  }

  /** Pushing output `|outputs|` keeps the outputs equal to the running update. */
  lemma SlidingAppend(a: seq<real>, k: seq<real>, outputs: seq<real>, next: real)
    requires 1 <= |k| && |outputs| <= |a| - |k|
    requires forall j :: 0 <= j < |outputs| ==> outputs[j] == Sliding(a, k, j)
    requires next == Sliding(a, k, |outputs|)
    ensures forall j :: 0 <= j < |outputs| + 1 ==> (outputs + [next])[j] == Sliding(a, k, j)
  {
  }

  lemma {:induction false} SumSnoc(s: seq<real>, x: real)
    ensures Sum(s + [x]) == Sum(s) + x
  {
    assert (s + [x])[..|s|] == s;
  }

  lemma {:induction false} SumFront(s: seq<real>)
    requires |s| > 0
    ensures Sum(s) == s[0] + Sum(s[1..])
  {
    if |s| > 1 {
      var init := s[..|s| - 1];
      SumFront(init);
      assert init[1..] == s[1..][..|s| - 2];
    }
  }

  /** Moving a window one place right adds the new element and drops the old. */
  lemma SumShift(a: seq<real>, j: nat, n: nat)
    requires 0 < j && j + n <= |a|
    ensures Sum(a[j..j + n]) == Sum(a[j - 1..j - 1 + n]) - a[j - 1] + a[j - 1 + n]
  {
    var w := a[j - 1..j + n];
    SumFront(w);
    assert w[1..] == a[j..j + n];
    assert w[..n] == a[j - 1..j - 1 + n];
    SumSnoc(w[..n], w[n]);
    assert w == w[..n] + [w[n]];
  }

  lemma {:induction false} ConstantReversedDot(a: seq<real>, k: seq<real>, c: real, j: nat, n: nat)
    requires forall i :: 0 <= i < |k| ==> k[i] == c
    requires n <= |k| && j + n <= |a|
    ensures ReversedDot(a, k, j, n) == c * Sum(a[j..j + n])
  {
    if n > 0 {
      ConstantReversedDot(a, k, c, j, n - 1);
      assert a[j..j + n][..n - 1] == a[j..j + n - 1];
    }
  }

  /** For a constant kernel `c` (the box kernel the feature uses) the running
      update is exact: output `j` is `c` times the sum of window `j`, which
      is also the convolution. */
  lemma ConstantKernelSliding(a: seq<real>, k: seq<real>, c: real, j: nat)
    requires forall i :: 0 <= i < |k| ==> k[i] == c
    requires |k| <= |a| && j <= |a| - |k| && (j > 0 ==> |k| >= 1)
    ensures Sliding(a, k, j) == c * Sum(a[j..j + |k|])
    ensures Sliding(a, k, j) == Convolution(a, k, j)
  {
    SlidingWindowSum(a, k, c, j);
    ConstantReversedDot(a, k, c, j, |k|);
  }

  lemma {:induction false} SlidingWindowSum(a: seq<real>, k: seq<real>, c: real, j: nat)
    requires forall i :: 0 <= i < |k| ==> k[i] == c
    requires |k| <= |a| && j <= |a| - |k| && (j > 0 ==> |k| >= 1)
    ensures Sliding(a, k, j) == c * Sum(a[j..j + |k|])
  {
    if j == 0 {
      ConstantReversedDot(a, k, c, 0, |k|);
    } else {
      SlidingWindowSum(a, k, c, j - 1);
      SlidingWindowStep(a, k, c, j);
    }
  }

  /** If output `j - 1` is `c` times its window's sum, so is output `j`. */
  lemma SlidingWindowStep(a: seq<real>, k: seq<real>, c: real, j: nat)
    requires forall i :: 0 <= i < |k| ==> k[i] == c
    requires |k| <= |a| && 0 < j <= |a| - |k| && |k| >= 1
    requires Sliding(a, k, j - 1) == c * Sum(a[j - 1..j - 1 + |k|])
    ensures Sliding(a, k, j) == c * Sum(a[j..j + |k|])
  {
    var n := |k|;
    var prev, next := Sum(a[j - 1..j - 1 + n]), Sum(a[j..j + n]);
    var x, y := a[j - 1 + n], a[j - 1];
    SumShift(a, j, n);
    SlidingStep(a, k, c, j);
    Distribute(Sliding(a, k, j), Sliding(a, k, j - 1), c, prev, next, x, y);
  }

  /** One step of the running update with a constant kernel `c`. */
  lemma SlidingStep(a: seq<real>, k: seq<real>, c: real, j: nat)
    requires forall i :: 0 <= i < |k| ==> k[i] == c
    requires |k| <= |a| && 0 < j <= |a| - |k| && |k| >= 1
    ensures Sliding(a, k, j) == Sliding(a, k, j - 1) + (a[j - 1 + |k|] * c - a[j - 1] * c)
  {
    assert k[0] == c && k[|k| - 1] == c;
  }

  /** The arithmetic of one step: `c * p` updated by `x * c - y * c` is `c`
      times the updated sum. */
  lemma Distribute(s: real, sPrev: real, c: real, p: real, next: real, x: real, y: real)
    requires s == sPrev + (x * c - y * c) && sPrev == c * p && next == p - y + x
    ensures s == c * next
  {
    assert c * next == c * p + (x * c - y * c);
  }

  /** For a kernel that is not constant the running update is not a
      convolution: with `a = [0, 1, 0]` and `k = [1, 2]` the second output is
      1 where the convolution is 2. */
  lemma SlidingIsNotConvolution()
    ensures Sliding([0.0, 1.0, 0.0], [1.0, 2.0], 1) == 1.0
    ensures Convolution([0.0, 1.0, 0.0], [1.0, 2.0], 1) == 2.0
  {
    var a, k := [0.0, 1.0, 0.0], [1.0, 2.0];
    assert ReversedDot(a, k, 0, 2) == 1.0;
    assert ReversedDot(a, k, 1, 2) == 2.0;
  }

  /** The pixel values of row `r` (of a one-channel frame, as `at_2d::<u8>`
      reads them). */
  function PixelRow(f: Frame, r: nat): seq<real>
    requires r < f.rows
  {
    seq(f.cols, c requires 0 <= c < f.cols => f.data[r][c][0] as real)
  }

  /** Every row of byte-valued pixels sums to at most 255 per column. */
  lemma RowSumsBounded(f: Frame)
    ensures forall r :: 0 <= r < f.rows ==> 0.0 <= Sum(PixelRow(f, r)) <= 255.0 * f.cols as real
  {
    forall r | 0 <= r < f.rows
      ensures 0.0 <= Sum(PixelRow(f, r)) <= 255.0 * f.cols as real
    {
      SumBounds(PixelRow(f, r), 255.0);
    }
  }

  /** `array_1d`: one entry per row, the sum of that row's pixels. */
  function RowSums(f: Frame): (r: seq<real>)
    ensures |r| == f.rows
    ensures forall i :: 0 <= i < |r| ==> 0.0 <= r[i] <= 255.0 * f.cols as real
  {
    RowSumsBounded(f);
    seq(f.rows, r requires 0 <= r < f.rows => Sum(PixelRow(f, r)))
  }

  /** `vec![1.0 / rect_height as f64; rect_height as usize]`. */
  function Kernel(rectHeight: nat): (r: seq<real>)
    ensures |r| == rectHeight
    ensures forall i :: 0 <= i < |r| ==> r[i] * rectHeight as real == 1.0
  {
    seq(rectHeight, i requires 0 <= i < rectHeight => 1.0 / rectHeight as real)
  }

  /** A sequence of values in `[0, m]` sums to a value in `[0, |s| * m]`. */
  lemma {:induction false} SumBounds(s: seq<real>, m: real)
    requires forall i :: 0 <= i < |s| ==> 0.0 <= s[i] <= m
    ensures 0.0 <= Sum(s) <= |s| as real * m
  {
    if s != [] {
      SumBounds(s[..|s| - 1], m);
    }
  }

  /** A sequence of `n` copies of `c` sums to `n * c`. */
  lemma {:induction false} SumConstant(s: seq<real>, c: real)
    requires forall i :: 0 <= i < |s| ==> s[i] == c
    ensures Sum(s) == |s| as real * c
  {
    if s != [] {
      SumConstant(s[..|s| - 1], c);
    }
  }

  /** The box kernel averages: its `rect_height` taps sum to 1. */
  lemma KernelSumsToOne(rectHeight: nat)
    requires rectHeight > 0
    ensures |Kernel(rectHeight)| == rectHeight
    ensures Sum(Kernel(rectHeight)) == 1.0
  {
    SumConstant(Kernel(rectHeight), 1.0 / rectHeight as real);
  }

  /** `windows(2).map(|w| w[1] - w[0])`. */
  function Diffs(w: seq<real>): (r: seq<real>)
    ensures |r| == if |w| < 2 then 0 else |w| - 1
    ensures forall i :: 0 <= i < |r| ==> w[i] + r[i] == w[i + 1]
  {
    if |w| < 2 then [] else seq(|w| - 1, i requires 0 <= i < |w| - 1 => w[i + 1] - w[i])
  }

  /** The differences add up to the total rise. */
  lemma {:induction false} DiffsTelescope(w: seq<real>)
    requires |w| >= 1
    ensures |Diffs(w)| == |w| - 1
    ensures Sum(Diffs(w)) == w[|w| - 1] - w[0]
  {
    if |w| >= 2 {
      var init := w[..|w| - 1];
      DiffsTelescope(init);
      assert Diffs(w) == Diffs(init) + [w[|w| - 1] - w[|w| - 2]];
      SumSnoc(Diffs(init), w[|w| - 1] - w[|w| - 2]);
    }
  }

  /** `enumerate().max_by(partial_cmp).map(|(idx, _)| idx).unwrap_or(0)`:
      `max_by` keeps the LAST of several equal maxima. */
  function LastMaxIndex(d: seq<real>): (k: nat)
    ensures |d| == 0 ==> k == 0
    ensures |d| > 0 ==> k < |d|
    ensures |d| > 0 ==> forall j :: 0 <= j < |d| ==> d[j] <= d[k]
    ensures |d| > 0 ==> forall j :: k < j < |d| ==> d[j] < d[k]
  {
    if |d| <= 1 then 0
    else
      var k := LastMaxIndex(d[..|d| - 1]);
      if d[|d| - 1] >= d[k] then |d| - 1 else k
  }


  /** `max_idx as f64 / diff_array.len() as f64`. */
  function Normalise(index: nat, len: nat): F64 {
    if len == 0 then NaN else Finite(index as real / len as real)
  }

  /** The feature of a smoothed profile: where its largest rise is, as a
      fraction of the number of rises. */
  function RisePosition(w: seq<real>): (r: F64)
    ensures r == NaN <==> |w| <= 1
  {
    var d := Diffs(w);
    Normalise(LastMaxIndex(d), |d|)
  }

  /** The position is NaN exactly when there is no rise to pick, and is
      otherwise a ratio in [0, 1). */
  lemma RisePositionRange(w: seq<real>)
    ensures RisePosition(w) == NaN <==> |w| <= 1
    ensures RisePosition(w).Finite? ==> 0.0 <= RisePosition(w).value < 1.0
  {
    var d := Diffs(w);
    if |d| > 0 {
      RatioBelowOne(LastMaxIndex(d), |d|);
    }
  }

  /** An index over a larger count is a ratio in [0, 1). */
  lemma RatioBelowOne(k: nat, n: nat)
    requires k < n
    ensures 0.0 <= k as real / n as real < 1.0
  {
    var q := k as real / n as real;
    assert q * n as real == k as real;
  }

  /** The position names the last of the largest rises: with `d` the
      differences, every rise is at most `d[i]` and every later one smaller. */
  lemma RisePositionIsLastLargestRise(w: seq<real>)
    requires |w| >= 2
    ensures var d := Diffs(w);
            exists i :: 0 <= i < |d| && RisePosition(w) == Finite(i as real / |d| as real) &&
                        (forall j :: 0 <= j < |d| ==> d[j] <= d[i]) &&
                        (forall j :: i < j < |d| ==> d[j] < d[i])
  {
    var d := Diffs(w);
    var i := LastMaxIndex(d);
    assert RisePosition(w) == Finite(i as real / |d| as real);
  }

  /** The row sums smoothed with the box kernel, one value per window of
      `rect_height` rows. */
  function Smoothed(f: Frame, rectHeight: nat): (w: seq<real>)
    requires rectHeight <= f.rows
    ensures |w| == f.rows - rectHeight + 1
  {
    var sums := RowSums(f);
    var kernel := Kernel(rectHeight);
    seq(f.rows - rectHeight + 1, j requires 0 <= j < f.rows - rectHeight + 1 => Convolution(sums, kernel, j))
  }

  /** Smoothing with the box kernel is the moving average of the row sums. */
  lemma SmoothedIsMovingAverage(f: Frame, rectHeight: nat, j: nat)
    requires 1 <= rectHeight <= f.rows && j <= f.rows - rectHeight
    ensures Smoothed(f, rectHeight)[j] == Sum(RowSums(f)[j..j + rectHeight]) / rectHeight as real
  {
    BoxConvolution(RowSums(f), rectHeight, j);
  }

  lemma BoxConvolution(a: seq<real>, rectHeight: nat, j: nat)
    requires 1 <= rectHeight <= |a| && j <= |a| - rectHeight
    ensures Convolution(a, Kernel(rectHeight), j) == Sum(a[j..j + rectHeight]) / rectHeight as real
  {
    var r := rectHeight as real;
    var c := 1.0 / r;
    ConstantReversedDot(a, Kernel(rectHeight), c, j, rectHeight);
    var s := Sum(a[j..j + rectHeight]);
    Reciprocal(r, s);
  }

  lemma Reciprocal(r: real, s: real)
    requires r > 0.0
    ensures 1.0 / r * s == s / r
  {
  }

  /** `calc_haar_like` on one strip.  The frame must have one channel
      (`at_2d::<u8>` is reached only when there is a pixel); a negative
      `rect_height` overflows the kernel's allocation; a strip lower than the
      kernel underflows in `convolve`, and an empty kernel over a non-empty
      strip indexes past it.  None of these is an `Err`. */
  function HaarFeature(f: Frame, rectHeight: int): (r: Outcome<Result<F64, CvError>>)
    ensures r.Returns? ==> r.value.Ok? && 0 <= rectHeight <= f.rows
    ensures r.Returns? && f.rows > 0 && f.cols > 0 ==> f.channels == 1
  {
    if f.channels != 1 && f.rows > 0 && f.cols > 0 then Panics(RESULT_UNWRAP_PANIC)
    else if rectHeight < 0 then Panics(CAPACITY_PANIC)
    else if f.rows < rectHeight then Panics(SUBTRACT_OVERFLOW_PANIC)
    else if rectHeight == 0 && f.rows > 0 then Panics(INDEX_PANIC)
    else Returns(Ok(RisePosition(Smoothed(f, rectHeight))))
  }

  /** `calc_haar_like`: the row sums are pushed in a loop, then smoothed,
      differenced and the largest rise located. */
  method CalcHaarLike(frame: Frame, rectHeight: int) returns (o: Outcome<Result<F64, CvError>>)
    ensures o == HaarFeature(frame, rectHeight)
  {
    var rows := frame.rows;
    var cols := frame.cols;
    var rowSums: seq<real> := [];
    for r := 0 to rows
      invariant |rowSums| == r
      invariant forall q :: 0 <= q < r ==> rowSums[q] == Sum(PixelRow(frame, q))
      invariant r > 0 ==> !(cols > 0 && frame.channels != 1)
    {
      if cols > 0 && frame.channels != 1 {
        // `at_2d::<u8>` refuses a frame with more than one channel
        return Panics(RESULT_UNWRAP_PANIC);
      }
      rowSums := rowSums + [Sum(PixelRow(frame, r))];
    }
    assert rowSums == RowSums(frame);
    if rectHeight < 0 {
      return Panics(CAPACITY_PANIC);
    }
    var kernel := Kernel(rectHeight);
    var convolved := Convolve(rowSums, kernel);
    if convolved.Panics? {
      return Panics(convolved.message);
    }
    var w := convolved.value;
    var c := if rectHeight == 0 then 0.0 else 1.0 / rectHeight as real;
    forall j | 0 <= j < |w| ensures w[j] == Convolution(rowSums, kernel, j) {
      ConstantKernelSliding(rowSums, kernel, c, j);
    }
    assert w == Smoothed(frame, rectHeight);
    var diffArray := Diffs(w);
    var maxIdx := LastMaxIndex(diffArray);
    return Returns(Ok(Normalise(maxIdx, |diffArray|)));
  }

  /** A strip's feature is never an `Err`; it is NaN exactly when the strip
      is `rect_height` rows tall, and otherwise a ratio in [0, 1). */
  lemma HaarFeatureRange(f: Frame, rectHeight: int)
    requires HaarFeature(f, rectHeight).Returns?
    ensures HaarFeature(f, rectHeight).value.Ok?
    ensures HaarFeature(f, rectHeight).value.value == NaN <==> f.rows == rectHeight
    ensures HaarFeature(f, rectHeight).value.value.Finite? ==> 0.0 <= HaarFeature(f, rectHeight).value.value.value < 1.0
  {
    RisePositionRange(Smoothed(f, rectHeight));
  }

  /** Exactly one-channel (or pixel-less) strips at least `rect_height > 0`
      rows tall avoid a panic (and a pixel-less strip with `rect_height` 0). */
  lemma HaarFeaturePanics(f: Frame, rectHeight: int)
    ensures HaarFeature(f, rectHeight).Returns? <==>
            && (f.channels == 1 || f.rows == 0 || f.cols == 0)
            && 0 <= rectHeight <= f.rows
            && (rectHeight == 0 ==> f.rows == 0)
  {
  }

  lemma StripFits(i: nat, divisions: nat, width: nat)
    requires i < divisions
    ensures i * (width / divisions) + width / divisions <= width
  {
    var step := width / divisions;
    assert i * step + step == (i + 1) * step;
    MulLe(i + 1, divisions, step);
    assert divisions * step + width % divisions == width;
  }

  lemma MulLe(a: nat, b: nat, c: nat)
    requires a <= b
    ensures a * c <= b * c
  {
    assert b * c == a * c + (b - a) * c;
  }

  /** `i * width_step`: the first column of strip `i`. */
  function StripStart(width: nat, divisions: nat, i: nat): (x: nat)
    requires i < divisions
    ensures x + width / divisions <= width
  {
    StripFits(i, divisions, width);
    i * (width / divisions)
  }

  /** `gray_frame.roi(Rect::new(i * width_step, 0, width_step, height))`;
      the rectangle always lies inside the frame, so the `unwrap` never
      panics.  A frame narrower than `divisions` (or without rows) gives
      0x0 strips. */
  function Strip(gray: Frame, divisions: nat, i: nat): (s: Frame)
    requires i < divisions
    ensures gray.cols < divisions || gray.rows == 0 ==> s.rows == 0 && s.cols == 0
    ensures gray.cols >= divisions && gray.rows > 0 ==> s.rows == gray.rows && s.cols == gray.cols / divisions
    ensures s.channels == gray.channels
    ensures StripStart(gray.cols, divisions, i) + s.cols <= gray.cols
    ensures forall r, c :: 0 <= r < s.rows && 0 <= c < s.cols ==>
              s.data[r][c] == gray.data[r][StripStart(gray.cols, divisions, i) + c]
  {
    ColumnStrip(gray, StripStart(gray.cols, divisions, i), gray.cols / divisions)
  }

  /** `unwrap_or(0.0)`. */
  function UnwrapOrZero(r: Result<F64, CvError>): F64 {
    match r
    case Ok(v) => v
    case Err(_) => Finite(0.0)
  }

  /** The strips' outcomes, in column order. */
  function StripFeatures(gray: Frame, divisions: nat, rectHeight: int): (r: seq<Outcome<Result<F64, CvError>>>)
    ensures |r| == divisions
    ensures forall i :: 0 <= i < divisions ==> r[i] == HaarFeature(Strip(gray, divisions, i), rectHeight)
  {
    seq(divisions, i requires 0 <= i < divisions => HaarFeature(Strip(gray, divisions, i), rectHeight))
  }

  /** rayon's `collect`: a panic in any strip is a panic of the whole call;
      otherwise the values, in order. */
  function Collect(features: seq<Outcome<Result<F64, CvError>>>): (r: Outcome<seq<F64>>)
    ensures r.Panics? <==> exists i :: 0 <= i < |features| && features[i].Panics?
    ensures r.Panics? ==> exists i :: 0 <= i < |features| && features[i].Panics? && r.message == features[i].message
    ensures r.Returns? ==> |r.value| == |features|
  {
    var k := FirstPanic(features);
    if k < |features| then Panics(features[k].message)
    else Returns(seq(|features|, i requires 0 <= i < |features| => UnwrapOrZero(features[i].value)))
  }

  /** The index of the first strip whose feature panics, or `|features|`. */
  function FirstPanic(features: seq<Outcome<Result<F64, CvError>>>): (k: nat)
    ensures k <= |features|
    ensures forall j :: 0 <= j < k ==> features[j].Returns?
    ensures k < |features| ==> features[k].Panics?
  {
    if features == [] || features[0].Panics? then 0 else 1 + FirstPanic(features[1..])
  }

  /** When no strip panics, strip `i`'s value is its feature, or 0 if it erred. */
  lemma CollectReturns(features: seq<Outcome<Result<F64, CvError>>>, i: nat)
    requires Collect(features).Returns? && i < |features|
    ensures |Collect(features).value| == |features|
    ensures features[i].Returns? && Collect(features).value[i] == UnwrapOrZero(features[i].value)
  {
  }

  /** `calc_haar_like_vec`: the grayscale conversion's error is returned, a
      zero `divisions` divides by zero, a negative one gives no strip, and
      otherwise the strips' features are collected in column order. */
  function CalcHaarLikeVec(cv: Lib, frame: Frame, divisions: int, rectHeight: int): (o: Outcome<Result<seq<F64>, CvError>>)
    ensures ConvertToGray(cv, frame).Err? ==> o == Returns(Err(ConvertToGray(cv, frame).error))
    ensures o.Returns? && o.value.Ok? ==>
              ConvertToGray(cv, frame).Ok? && |o.value.value| == if divisions < 0 then 0 else divisions
  {
    match ConvertToGray(cv, frame)
    case Err(e) => Returns(Err(e))
    case Ok(gray) =>
      if divisions == 0 then Panics(DIVIDE_BY_ZERO_PANIC)
      else if divisions < 0 then Returns(Ok([]))
      else
        match Collect(StripFeatures(gray, divisions, rectHeight))
        case Panics(m) => Panics(m)
        case Returns(v) => Returns(Ok(v))
  }

  /** The errors: only the grayscale conversion's, passed on unchanged. */
  lemma CalcHaarLikeVecErrors(cv: Lib, frame: Frame, divisions: int, rectHeight: int)
    ensures ConvertToGray(cv, frame).Err? ==>
              CalcHaarLikeVec(cv, frame, divisions, rectHeight) == Returns(Err(ConvertToGray(cv, frame).error))
    ensures (CalcHaarLikeVec(cv, frame, divisions, rectHeight).Returns? &&
             CalcHaarLikeVec(cv, frame, divisions, rectHeight).value.Err?) ==> ConvertToGray(cv, frame).Err?
    ensures ConvertToGray(cv, frame).Ok? && divisions == 0 ==> CalcHaarLikeVec(cv, frame, divisions, rectHeight).Panics?
  {
  }

  /** The call returns one feature per strip, and none for a negative
      `divisions`. */
  lemma CalcHaarLikeVecLength(cv: Lib, frame: Frame, divisions: int, rectHeight: int)
    requires ConvertToGray(cv, frame).Ok?
    requires CalcHaarLikeVec(cv, frame, divisions, rectHeight).Returns?
    ensures CalcHaarLikeVec(cv, frame, divisions, rectHeight).value.Ok?
    ensures |CalcHaarLikeVec(cv, frame, divisions, rectHeight).value.value| == if divisions < 0 then 0 else divisions
  {
    if divisions > 0 {
      var features := StripFeatures(ConvertToGray(cv, frame).value, divisions, rectHeight);
      assert |Collect(features).value| == divisions;
    }
  }

  /** The features are in column order: entry `i` is the feature of strip
      `i` of the gray frame (its columns from `i * (width / divisions)`, of
      width `width / divisions`), and lies in [0, 1) or is NaN. */
  lemma CalcHaarLikeVecColumns(cv: Lib, frame: Frame, divisions: int, rectHeight: int, i: nat)
    requires ConvertToGray(cv, frame).Ok? && 0 <= i < divisions
    requires CalcHaarLikeVec(cv, frame, divisions, rectHeight).Returns?
    ensures CalcHaarLikeVec(cv, frame, divisions, rectHeight).value.Ok?
    ensures i < |CalcHaarLikeVec(cv, frame, divisions, rectHeight).value.value|
    ensures HaarFeature(Strip(ConvertToGray(cv, frame).value, divisions, i), rectHeight) ==
            Returns(Ok(CalcHaarLikeVec(cv, frame, divisions, rectHeight).value.value[i]))
    ensures CalcHaarLikeVec(cv, frame, divisions, rectHeight).value.value[i] == NaN ||
            (CalcHaarLikeVec(cv, frame, divisions, rectHeight).value.value[i].Finite? &&
             0.0 <= CalcHaarLikeVec(cv, frame, divisions, rectHeight).value.value[i].value < 1.0)
  {
    var gray := ConvertToGray(cv, frame).value;
    var features := StripFeatures(gray, divisions, rectHeight);
    var collected := Collect(features);
    assert CalcHaarLikeVec(cv, frame, divisions, rectHeight) == Returns(Ok(collected.value));
    CollectReturns(features, i);
    var strip := Strip(gray, divisions, i);
    assert features[i] == HaarFeature(strip, rectHeight);
    HaarFeatureRange(strip, rectHeight);
  }

  /** With a one-channel gray frame at least `divisions` columns wide and
      `0 < rect_height <= rows`, no strip panics, so the call returns. */
  lemma CalcHaarLikeVecReturns(cv: Lib, frame: Frame, divisions: int, rectHeight: int)
    requires ConvertToGray(cv, frame).Ok? && ConvertToGray(cv, frame).value.channels == 1
    requires 0 < rectHeight <= ConvertToGray(cv, frame).value.rows
    requires divisions != 0 && divisions <= ConvertToGray(cv, frame).value.cols
    ensures CalcHaarLikeVec(cv, frame, divisions, rectHeight).Returns?
  {
    var gray := ConvertToGray(cv, frame).value;
    if divisions > 0 {
      var features := StripFeatures(gray, divisions, rectHeight);
      forall j | 0 <= j < divisions ensures features[j].Returns? {
        HaarFeaturePanics(Strip(gray, divisions, j), rectHeight);
      }
    }
  }

  /** A gray frame narrower than `divisions` gives 0x0 strips, which are
      lower than any positive `rect_height`: the call panics in `convolve`. */
  lemma NarrowFramePanics(cv: Lib, frame: Frame, divisions: int, rectHeight: int)
    requires ConvertToGray(cv, frame).Ok?
    requires 0 < divisions && ConvertToGray(cv, frame).value.cols < divisions
    requires rectHeight > 0
    ensures CalcHaarLikeVec(cv, frame, divisions, rectHeight) == Panics(SUBTRACT_OVERFLOW_PANIC)
  {
    var gray := ConvertToGray(cv, frame).value;
    var features := StripFeatures(gray, divisions, rectHeight);
    assert features[0] == HaarFeature(Strip(gray, divisions, 0), rectHeight);
    assert features[0].Panics?;
  }
}
