/** src/camera/convert_frame.rs: the registry of infallible frame converters
    the `Camera` uses.  Each converter returns a frame; a library error is an
    `unwrap` panic instead of a returned `Err`. */
module ConvertFrame {
  import opened RustCore
  import opened Cv
  import FrameHandler

  /** The converter functions the camera-mode registry can hand out. */
  datatype Mode = ToColor | ToGray | ToCanny | ToWhiteBalance | ToBilateralFilter | ToSuperpixel

  function Name(m: Mode): string {
    match m
    case ToColor => "color"
    case ToGray => "gray"
    case ToCanny => "canny"
    case ToWhiteBalance => "white_balance"
    case ToBilateralFilter => "filter"
    case ToSuperpixel => "superpixel"
  }

  const MODE_NAMES: set<string> := {"color", "gray", "canny", "white_balance", "filter", "superpixel"}

  /** `create_camera_mode_map`: six successive inserts into an empty map. */
  function CreateCameraModeMap(): (modes: map<string, Mode>)
    ensures modes.Keys == MODE_NAMES
    ensures forall mode :: mode in modes ==> Name(modes[mode]) == mode
  {
    map[]["color" := ToColor]["gray" := ToGray]["canny" := ToCanny]
      ["white_balance" := ToWhiteBalance]["filter" := ToBilateralFilter]["superpixel" := ToSuperpixel]
  }

  /** `search_convert_frame`: a fresh map, then `get(mode).copied()`. */
  function SearchConvertFrame(mode: string): (r: Option<Mode>)
    ensures r.Some? <==> mode in MODE_NAMES
    ensures r.Some? ==> Name(r.value) == mode
  {
    var modes := CreateCameraModeMap();
    if mode in modes then Some(modes[mode]) else None
  }

  /** Every converter is found under its own name. */
  lemma SearchFindsEveryMode(m: Mode)
    ensures SearchConvertFrame(Name(m)) == Some(m)
  {
  }

  /** Every camera mode is also a frame-handler name, but five frame-handler
      names, among them the initial mode of `main`, are not camera modes. */
  lemma ModesAreFewerThanHandlers(mode: string)
    ensures SearchConvertFrame(mode).Some? ==> FrameHandler.SearchFrameHandler(mode).Some?
    ensures SearchConvertFrame("countours") == None && SearchConvertFrame("binary") == None
    ensures SearchConvertFrame("haar_like") == None
    ensures SearchConvertFrame("fsrcnn") == None && SearchConvertFrame("espcn") == None
  {
  }

  /** `.unwrap()` on a library result. */
  function Unwrap(res: Result<Frame, CvError>): (r: Outcome<Frame>)
    ensures r.Returns? <==> res.Ok?
    ensures r.Returns? ==> r.value == res.value
    ensures r.Panics? ==> r.message == RESULT_UNWRAP_PANIC
  {
    match res
    case Ok(f) => Returns(f)
    case Err(_) => Panics(RESULT_UNWRAP_PANIC)
  }

  /** `convert_to_canny`: the grayscale conversion is unwrapped first, then
      edge detection of the original frame. */
  function ConvertToCanny(cv: Lib, f: Frame): (r: Outcome<Frame>)
    ensures ConvertToGray(cv, f).Err? ==> r == Panics(RESULT_UNWRAP_PANIC)
    ensures r.Returns? ==> ConvertToGray(cv, f).Ok? && cv(Canny(100.0, 200.0, 3, false), [f]) == Ok(r.value)
  {
    match Unwrap(ConvertToGray(cv, f))
    case Panics(m) => Panics(m)
    case Returns(_) => Unwrap(cv(Canny(100.0, 200.0, 3, false), [f]))
  }

  /** Every converter, as the registry dispatches it. */
  function Apply(m: Mode, cv: Lib, f: Frame): (r: Outcome<Frame>)
    ensures m == ToColor ==> r == Returns(f)
    ensures r.Panics? ==> r.message == RESULT_UNWRAP_PANIC
  {
    match m
    case ToColor => Returns(f)
    case ToGray => Unwrap(ConvertToGray(cv, f))
    case ToCanny => ConvertToCanny(cv, f)
    case ToWhiteBalance => Unwrap(cv(GrayworldWhiteBalance, [f]))
    case ToBilateralFilter => Unwrap(cv(BilateralFilter(9, 75.0, 75.0), [f]))
    case ToSuperpixel => Unwrap(cv(Superpixel(Slico, 25, 200.0, 5), [f]))
  }

  /** `color` is the identity and never panics. */
  lemma ColorIsIdentity(cv: Lib, f: Frame)
    ensures Apply(ToColor, cv, f) == Returns(f)
  {
  }

  /** The frame handler registered under the same name. */
  function Counterpart(m: Mode): (h: FrameHandler.Handler)
    ensures FrameHandler.Name(h) == Name(m)
  {
    match m
    case ToColor => FrameHandler.ToColor
    case ToGray => FrameHandler.ToGray
    case ToCanny => FrameHandler.ToCanny
    case ToWhiteBalance => FrameHandler.ToWhiteBalance
    case ToBilateralFilter => FrameHandler.ToBilateralFilter
    case ToSuperpixel => FrameHandler.ToSuperpixel
  }

  /** A converter is its fallible frame-handler namesake with every `Err`
      turned into a panic, except `superpixel`, which runs SLICO with ruler
      200 where the frame handler runs SLIC with ruler 100. */
  lemma ConvertersUnwrapHandlers(m: Mode, cv: Lib, f: Frame)
    requires m != ToSuperpixel
    ensures FrameHandler.Apply(Counterpart(m), cv, f).Returns?
    ensures Apply(m, cv, f) == Unwrap(FrameHandler.Apply(Counterpart(m), cv, f).value)
  {
  }

  /** A library error panics the converter; a converter never reports one. */
  lemma LibraryErrorsPanic(m: Mode, cv: Lib, f: Frame)
    requires m != ToColor
    requires forall call, inputs :: cv(call, inputs).Err?
    ensures Apply(m, cv, f) == Panics(RESULT_UNWRAP_PANIC)
  {
    assert ConvertToGray(cv, f).Err?;
  }

  /** `canny` runs the grayscale conversion before edge detection: when the
      conversion fails, the converter panics even if edge detection would
      succeed. */
  lemma CannyNeedsGray(cv: Lib, f: Frame)
    requires ConvertToGray(cv, f).Err?
    requires cv(Canny(100.0, 200.0, 3, false), [f]).Ok?
    ensures Apply(ToCanny, cv, f).Panics?
  {
  }
}
