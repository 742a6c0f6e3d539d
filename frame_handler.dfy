/** src/camera/frame_handler.rs: the registry of fallible frame handlers
    (each returns a `Result`), their composition, and the Haar-like overlay
    that draws one marker per strip of the frame. */
module FrameHandler {
  import opened RustCore
  import opened Cv
  import HaarLike

  /** The handler functions the registry can hand out. */
  datatype Handler =
    | ToColor | ToGray | ToCanny | ToWhiteBalance | ToBilateralFilter | ToSuperpixel
    | ToCountours | ToFsrcnn | ToEspcn | ToBinary | ToHaarLike

  /** The key each handler is registered under. */
  function Name(h: Handler): string {
    match h
    case ToColor => "color"
    case ToGray => "gray"
    case ToCanny => "canny"
    case ToWhiteBalance => "white_balance"
    case ToBilateralFilter => "filter"
    case ToSuperpixel => "superpixel"
    case ToCountours => "countours"
    case ToFsrcnn => "fsrcnn"
    case ToEspcn => "espcn"
    case ToBinary => "binary"
    case ToHaarLike => "haar_like"
  }

  const HANDLER_NAMES: set<string> :=
    {"color", "gray", "canny", "white_balance", "filter", "superpixel",
     "countours", "fsrcnn", "espcn", "binary", "haar_like"}

  /** `create_frame_handler_map`: eleven successive inserts into an empty map. */
  function CreateFrameHandlerMap(): (handlers: map<string, Handler>)
    ensures handlers.Keys == HANDLER_NAMES
    ensures forall mode :: mode in handlers ==> Name(handlers[mode]) == mode
  {
    map[]["color" := ToColor]["gray" := ToGray]["canny" := ToCanny]
      ["white_balance" := ToWhiteBalance]["filter" := ToBilateralFilter]
      ["superpixel" := ToSuperpixel]["countours" := ToCountours]["fsrcnn" := ToFsrcnn]
      ["espcn" := ToEspcn]["binary" := ToBinary]["haar_like" := ToHaarLike]
  }

  /** `search_frame_handler`: a fresh map, then `get(mode).copied()`. */
  function SearchFrameHandler(mode: string): (r: Option<Handler>)
    ensures r.Some? <==> mode in HANDLER_NAMES
    ensures r.Some? ==> Name(r.value) == mode
  {
    var handlers := CreateFrameHandlerMap();
    if mode in handlers then Some(handlers[mode]) else None
  }

  /** Every handler is found under its own name: the keys are distinct. */
  lemma SearchFindsEveryHandler(h: Handler)
    ensures SearchFrameHandler(Name(h)) == Some(h)
  {
  }

  /** The correctly spelled "contours" is not a key, and unknown names are
      answered with `None` rather than a panic. */
  lemma SearchMisses()
    ensures SearchFrameHandler("contours") == None
    ensures SearchFrameHandler("") == None
    ensures SearchFrameHandler("Color") == None
  {
  }

  /** `convert_to_color`: a clone of the input. */
  function ConvertToColor(f: Frame): (r: Result<Frame, CvError>)
    ensures r.Ok? && r.value == f
  {
    Ok(f)
  }

  /** `convert_to_canny`: the grayscale conversion runs first and its error is
      passed on; its output is then overwritten by edge detection, which reads
      the original frame. */
  function ConvertToCanny(cv: Lib, f: Frame): (r: Result<Frame, CvError>)
    ensures ConvertToGray(cv, f).Err? ==> r == ConvertToGray(cv, f)
    ensures r.Ok? ==> ConvertToGray(cv, f).Ok? && r == cv(Canny(100.0, 200.0, 3, false), [f])
  {
    match ConvertToGray(cv, f)
    case Err(e) => Err(e)
    case Ok(_) => cv(Canny(100.0, 200.0, 3, false), [f])
  }

  function ConvertToWhiteBalance(cv: Lib, f: Frame): (r: Result<Frame, CvError>)
    ensures r.Err? <==> cv(GrayworldWhiteBalance, [f]).Err?
    ensures r.Ok? ==> r.value == cv(GrayworldWhiteBalance, [f]).value
  {
    cv(GrayworldWhiteBalance, [f])
  }

  function ConvertToBilateralFilter(cv: Lib, f: Frame): (r: Result<Frame, CvError>)
    ensures r.Err? <==> cv(BilateralFilter(9, 75.0, 75.0), [f]).Err?
    ensures r.Ok? ==> r.value == cv(BilateralFilter(9, 75.0, 75.0), [f]).value
  {
    cv(BilateralFilter(9, 75.0, 75.0), [f])
  }

  function ConvertToSuperpixel(cv: Lib, f: Frame): (r: Result<Frame, CvError>)
    ensures r.Err? <==> cv(Superpixel(Slic, 25, 100.0, 5), [f]).Err?
    ensures r.Ok? ==> r.value == cv(Superpixel(Slic, 25, 100.0, 5), [f]).value
  {
    cv(Superpixel(Slic, 25, 100.0, 5), [f])
  }

  /** `convert_to_countours`: the external contours of the canny edges, drawn
      onto a copy of the frame; an error of either step is passed on. */
  function ConvertToCountours(cv: Lib, f: Frame): (r: Result<Frame, CvError>)
    ensures ConvertToCanny(cv, f).Err? ==> r == ConvertToCanny(cv, f)
    ensures r.Ok? ==> ConvertToCanny(cv, f).Ok? &&
                      r == cv(DrawExternalContours(2), [f, ConvertToCanny(cv, f).value])
  {
    match ConvertToCanny(cv, f)
    case Err(e) => Err(e)
    case Ok(edges) => cv(DrawExternalContours(2), [f, edges])
  }

  function ConvertToFsrcnn(cv: Lib, f: Frame): (r: Result<Frame, CvError>)
    ensures r.Err? <==> cv(SuperResolution("model/fsrcnn.pb", "fsrcnn", 2), [f]).Err?
    ensures r.Ok? ==> r.value == cv(SuperResolution("model/fsrcnn.pb", "fsrcnn", 2), [f]).value
  {
    cv(SuperResolution("model/fsrcnn.pb", "fsrcnn", 2), [f])
  }

  function ConvertToEspcn(cv: Lib, f: Frame): (r: Result<Frame, CvError>)
    ensures r.Err? <==> cv(SuperResolution("model/espcn.pb", "espcn", 2), [f]).Err?
    ensures r.Ok? ==> r.value == cv(SuperResolution("model/espcn.pb", "espcn", 2), [f]).value
  {
    cv(SuperResolution("model/espcn.pb", "espcn", 2), [f])
  }

  /** `convert_to_binary`: a binary threshold of the grayscale frame. */
  function ConvertToBinary(cv: Lib, f: Frame): (r: Result<Frame, CvError>)
    ensures ConvertToGray(cv, f).Err? ==> r == ConvertToGray(cv, f)
    ensures r.Ok? ==> ConvertToGray(cv, f).Ok? &&
                      r == cv(ThresholdBinary(200.0, 255.0), [ConvertToGray(cv, f).value])
  {
    match ConvertToGray(cv, f)
    case Err(e) => Err(e)
    case Ok(gray) => cv(ThresholdBinary(200.0, 255.0), [gray])
  }

  const DIVISIONS: int := 40
  const RECT_HEIGHT: int := 15

  /** `haar_like_vec[i] * height as f64`. */
  function ScaleToRow(v: HaarLike.F64, height: int): HaarLike.F64 {
    match v
    case NaN => HaarLike.NaN
    case Finite(x) => HaarLike.Finite(x * height as real)
  }

  /** Rust's `f64 as i32`: NaN becomes 0, values outside the range saturate,
      and everything else is truncated toward zero. */
  function AsI32(v: HaarLike.F64): (n: int)
    ensures IsI32(n)
    ensures v == HaarLike.NaN ==> n == 0
    ensures v.Finite? && 0.0 <= v.value <= I32_MAX as real ==> n == v.value.Floor
  {
    match v
    case NaN => 0
    case Finite(x) =>
      if x >= I32_MAX as real then I32_MAX
      else if x <= I32_MIN as real then I32_MIN
      else if x >= 0.0 then x.Floor
      else -((-x).Floor)
  }

  /** The marker of strip `i`: one row high, as wide as the strip, at the
      height the feature gives. */
  function HaarRect(v: HaarLike.F64, i: int, widthStep: int, height: int): Rect {
    Rect(widthStep * i, AsI32(ScaleToRow(v, height)), widthStep, 1)
  }

  /** The forty markers, for a frame `width` columns wide and `height` rows tall. */
  function HaarRects(features: seq<HaarLike.F64>, width: int, height: int): (rects: seq<Rect>)
    requires |features| >= DIVISIONS
    ensures |rects| == DIVISIONS
  {
    seq(DIVISIONS, i requires 0 <= i < DIVISIONS => HaarRect(features[i], i, width / DIVISIONS, height))
  }

  /** `let _ = imgproc::rectangle(...)`: a refused rectangle leaves the frame
      as it was. */
  function DrawRect(cv: Lib, f: Frame, rect: Rect): Frame {
    match cv(BlackRectangle(rect, 1), [f])
    case Ok(g) => g
    case Err(_) => f
  }

  /** The rectangles drawn one after the other, in order. */
  function DrawAll(cv: Lib, f: Frame, rects: seq<Rect>): Frame {
    if rects == [] then f else DrawRect(cv, DrawAll(cv, f, rects[..|rects| - 1]), rects[|rects| - 1])
  }

  /** Drawing one more rectangle of the list. */
  lemma DrawAllStep(cv: Lib, f: Frame, rects: seq<Rect>, i: nat)
    requires i < |rects|
    ensures DrawAll(cv, f, rects[..i + 1]) == DrawRect(cv, DrawAll(cv, f, rects[..i]), rects[i])
  {
    assert rects[..i + 1][..i] == rects[..i];
  }

  /** What `convert_to_haar_like` computes: the features of the forty strips
      (a panic or the grayscale error of `calc_haar_like_vec` is passed on),
      then one marker per strip drawn on a copy of the frame. */
  function HaarLikeTransform(cv: Lib, f: Frame): (r: Outcome<Result<Frame, CvError>>)
    ensures r.Panics? <==> HaarLike.CalcHaarLikeVec(cv, f, DIVISIONS, RECT_HEIGHT).Panics?
    ensures r.Panics? ==> r.message == HaarLike.CalcHaarLikeVec(cv, f, DIVISIONS, RECT_HEIGHT).message
    ensures r.Returns? && r.value.Err? ==>
              HaarLike.CalcHaarLikeVec(cv, f, DIVISIONS, RECT_HEIGHT) == Returns(Err(r.value.error))
    ensures (HaarLike.CalcHaarLikeVec(cv, f, DIVISIONS, RECT_HEIGHT).Returns? &&
             HaarLike.CalcHaarLikeVec(cv, f, DIVISIONS, RECT_HEIGHT).value.Ok?) ==> r.Returns? && r.value.Ok?
  {
    match HaarLike.CalcHaarLikeVec(cv, f, DIVISIONS, RECT_HEIGHT)
    case Panics(m) => Panics(m)
    case Returns(Err(e)) => Returns(Err(e))
    case Returns(Ok(features)) =>
      HaarLike.CalcHaarLikeVecLength(cv, f, DIVISIONS, RECT_HEIGHT);
      Returns(Ok(DrawAll(cv, f, HaarRects(features, f.cols, f.rows))))
  }

  /** `convert_to_haar_like`: the loop over the forty strips, drawing into
      the cloned frame. */
  method ConvertToHaarLike(cv: Lib, frame: Frame) returns (o: Outcome<Result<Frame, CvError>>)
    ensures o == HaarLikeTransform(cv, frame)
  {
    var haarLikeFrame := frame;
    var vec := HaarLike.CalcHaarLikeVec(cv, frame, DIVISIONS, RECT_HEIGHT);
    if vec.Panics? {
      return Panics(vec.message);
    }
    if vec.value.Err? {
      return Returns(Err(vec.value.error));
    }
    var haarLikeVec := vec.value.value;
    HaarLike.CalcHaarLikeVecLength(cv, frame, DIVISIONS, RECT_HEIGHT);
    var width := frame.cols;
    var height := frame.rows;
    var widthStep := width / DIVISIONS;
    ghost var rects := HaarRects(haarLikeVec, width, height);
    for i := 0 to DIVISIONS
      invariant haarLikeFrame == DrawAll(cv, frame, rects[..i])
    {
      var x := widthStep * i;
      var y := AsI32(ScaleToRow(haarLikeVec[i], height));
      var rect := Rect(x, y, widthStep, 1);
      assert rect == rects[i];
      DrawAllStep(cv, frame, rects, i);
      haarLikeFrame := DrawRect(cv, haarLikeFrame, rect);
    }
    assert rects[..DIVISIONS] == rects;
    return Returns(Ok(haarLikeFrame));
  }

  /** Every handler, as the registry dispatches it; only the Haar-like
      overlay can panic. */
  function Apply(h: Handler, cv: Lib, f: Frame): (r: Outcome<Result<Frame, CvError>>)
    ensures r.Panics? ==> h == ToHaarLike
    ensures r.Returns? && r.value.Err? ==> h != ToColor
  {
    match h
    case ToColor => Returns(ConvertToColor(f))
    case ToGray => Returns(ConvertToGray(cv, f))
    case ToCanny => Returns(ConvertToCanny(cv, f))
    case ToWhiteBalance => Returns(ConvertToWhiteBalance(cv, f))
    case ToBilateralFilter => Returns(ConvertToBilateralFilter(cv, f))
    case ToSuperpixel => Returns(ConvertToSuperpixel(cv, f))
    case ToCountours => Returns(ConvertToCountours(cv, f))
    case ToFsrcnn => Returns(ConvertToFsrcnn(cv, f))
    case ToEspcn => Returns(ConvertToEspcn(cv, f))
    case ToBinary => Returns(ConvertToBinary(cv, f))
    case ToHaarLike => HaarLikeTransform(cv, f)
  }

  /** `color` is the identity and never fails, whatever the library does. */
  lemma ColorIsIdentity(cv: Lib, f: Frame)
    ensures Apply(ToColor, cv, f) == Returns(Ok(f))
  {
  }

  /** The handlers other than the Haar-like overlay report every failure as
      an `Err` and never panic. */
  lemma OnlyHaarLikePanics(h: Handler, cv: Lib, f: Frame)
    requires h != ToHaarLike
    ensures Apply(h, cv, f).Returns?
  {
  }

  /** A library that refuses every call makes every handler but `color`
      fail with that error: each `?` passes it on. */
  lemma FailingLibrary(h: Handler, cv: Lib, f: Frame, e: CvError)
    requires forall call, inputs :: cv(call, inputs) == Err(e)
    ensures h == ToColor ==> Apply(h, cv, f) == Returns(Ok(f))
    ensures h != ToColor ==> Apply(h, cv, f) == Returns(Err(e))
  {
    assert ConvertToGray(cv, f) == Err(e);
  }

  /** `canny` and `binary` run the grayscale conversion first: its error is
      theirs.  `countours` runs `canny` first: its error is `countours`'. */
  lemma InnerErrorsPropagate(cv: Lib, f: Frame)
    ensures ConvertToGray(cv, f).Err? ==> ConvertToCanny(cv, f) == ConvertToGray(cv, f)
    ensures ConvertToGray(cv, f).Err? ==> ConvertToBinary(cv, f) == ConvertToGray(cv, f)
    ensures ConvertToCanny(cv, f).Err? ==> ConvertToCountours(cv, f) == ConvertToCanny(cv, f)
    ensures ConvertToGray(cv, f).Err? ==> HaarLikeTransform(cv, f) == Returns(ConvertToGray(cv, f))
  {
  }

  /** Once the grayscale conversion succeeds, its output does not reach the
      edge detector: two libraries that agree on edge detection of the frame
      give the same `canny` result, whatever grayscale frames they return. */
  lemma CannyDiscardsGray(cv1: Lib, cv2: Lib, f: Frame)
    requires ConvertToGray(cv1, f).Ok? && ConvertToGray(cv2, f).Ok?
    requires cv1(Canny(100.0, 200.0, 3, false), [f]) == cv2(Canny(100.0, 200.0, 3, false), [f])
    ensures ConvertToCanny(cv1, f) == ConvertToCanny(cv2, f)
  {
  }

  /** `binary` thresholds exactly the grayscale frame: two libraries that
      agree on the grayscale frame and its threshold agree on `binary`. */
  lemma BinaryThresholdsGray(cv1: Lib, cv2: Lib, f: Frame)
    requires ConvertToGray(cv1, f) == ConvertToGray(cv2, f)
    requires ConvertToGray(cv1, f).Ok?
    requires cv1(ThresholdBinary(200.0, 255.0), [ConvertToGray(cv1, f).value]) ==
             cv2(ThresholdBinary(200.0, 255.0), [ConvertToGray(cv1, f).value])
    ensures ConvertToBinary(cv1, f) == ConvertToBinary(cv2, f)
  {
  }

  /** The markers' geometry: forty rectangles one row high and `width / 40`
      wide; marker `i` starts at column `(width / 40) * i` and ends inside the
      frame, and a feature in [0, 1) (or NaN) puts it on a row of the frame
      (row 0 for NaN or a frame without rows). */
  lemma {:induction false} HaarRectsGeometry(features: seq<HaarLike.F64>, width: nat, height: nat, i: nat)
    requires |features| >= DIVISIONS && i < DIVISIONS
    requires height <= I32_MAX
    requires features[i] == HaarLike.NaN || (features[i].Finite? && 0.0 <= features[i].value < 1.0)
    ensures HaarRects(features, width, height)[i].height == 1
    ensures HaarRects(features, width, height)[i].width == width / DIVISIONS
    ensures HaarRects(features, width, height)[i].x == (width / DIVISIONS) * i
    ensures HaarRects(features, width, height)[i].x + HaarRects(features, width, height)[i].width <= width
    ensures 0 <= HaarRects(features, width, height)[i].y
    ensures HaarRects(features, width, height)[i].y < height || HaarRects(features, width, height)[i].y == 0
  {
    MarkerColumns(width, i);
    MarkerRow(features[i], height);
  }

  lemma MarkerColumns(width: nat, i: nat)
    requires i < DIVISIONS
    ensures (width / DIVISIONS) * i + width / DIVISIONS <= width
  {
    var step := width / DIVISIONS;
    assert step * i + step == (i + 1) * step;
    assert (i + 1) * step <= DIVISIONS * step;
  }

  lemma MarkerRow(v: HaarLike.F64, height: nat)
    requires height <= I32_MAX
    requires v == HaarLike.NaN || (v.Finite? && 0.0 <= v.value < 1.0)
    ensures 0 <= AsI32(ScaleToRow(v, height))
    ensures AsI32(ScaleToRow(v, height)) < height || AsI32(ScaleToRow(v, height)) == 0
  {
    ScaleBounds(v, height);
    RowBounds(ScaleToRow(v, height), height);
  }

  lemma ScaleBounds(v: HaarLike.F64, height: nat)
    requires v == HaarLike.NaN || (v.Finite? && 0.0 <= v.value < 1.0)
    ensures var w := ScaleToRow(v, height);
            w == HaarLike.NaN || (w.Finite? && 0.0 <= w.value && (w.value < height as real || w.value == 0.0))
  {
    if v.Finite? {
      var x, h := v.value, height as real;
      assert ScaleToRow(v, height).value == x * h;
      if height == 0 {
        assert x * h == 0.0;
      } else {
        assert h - x * h == (1.0 - x) * h;
        assert (1.0 - x) * h > 0.0;
        assert x * h >= 0.0;
      }
    }
  }

  lemma RowBounds(w: HaarLike.F64, height: nat)
    requires height <= I32_MAX
    requires w == HaarLike.NaN || (w.Finite? && 0.0 <= w.value && (w.value < height as real || w.value == 0.0))
    ensures 0 <= AsI32(w) && (AsI32(w) < height || AsI32(w) == 0)
  {
    if w.Finite? {
      var x := w.value;
      assert x < I32_MAX as real;
      assert AsI32(w) == x.Floor;
      assert x.Floor as real <= x;
      if x == 0.0 {
        assert x.Floor == 0;
      }
    }
  }

  /** A refused rectangle changes nothing: when the library refuses every
      rectangle, the markers leave the frame as it was. */
  lemma {:induction false} RefusedRectanglesLeaveFrame(cv: Lib, f: Frame, rects: seq<Rect>)
    requires forall r: Rect, g: Frame :: cv(BlackRectangle(r, 1), [g]).Err?
    ensures DrawAll(cv, f, rects) == f
  {
    if rects != [] {
      RefusedRectanglesLeaveFrame(cv, f, rects[..|rects| - 1]);
    }
  }

  /** Rectangle failures never fail the overlay: when it returns an `Err`,
      that is the grayscale conversion's error. */
  lemma HaarLikeErrorsAreGrayErrors(cv: Lib, f: Frame)
    requires HaarLikeTransform(cv, f).Returns? && HaarLikeTransform(cv, f).value.Err?
    ensures ConvertToGray(cv, f) == HaarLikeTransform(cv, f).value
  {
    HaarLike.CalcHaarLikeVecErrors(cv, f, DIVISIONS, RECT_HEIGHT);
  }
}
