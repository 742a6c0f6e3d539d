/** The parts of OpenCV the pipeline touches, kept opaque.  A `Mat` is a
    grid of 8-bit pixels; every library routine that computes pixels is one
    `CvCall` value, and the library itself is a parameter `cv: Lib`, an
    arbitrary total function from a call and its input frames to a frame or
    an OpenCV error.  Nothing about what these routines compute is assumed. */
module Cv {
  import opened RustCore

  /** An `opencv::Error`; its contents do not matter to the pipeline. */
  datatype CvError = CvError(code: int)

  /** `core::Mat`: `data[r][c][k]` is channel `k` of the pixel in row `r`,
      column `c`. */
  datatype Mat = Mat(rows: nat, cols: nat, channels: nat, data: seq<seq<seq<int>>>)

  predicate WellShaped(m: Mat) {
    && m.channels >= 1
    && |m.data| == m.rows
    && (forall r :: 0 <= r < m.rows ==> |m.data[r]| == m.cols)
    && (forall r, c :: 0 <= r < m.rows && 0 <= c < m.cols ==> |m.data[r][c]| == m.channels)
    && (forall r, c, k :: 0 <= r < m.rows && 0 <= c < m.cols && 0 <= k < m.channels ==> 0 <= m.data[r][c][k] < 256)
  }

  type Frame = m: Mat | WellShaped(m) witness Mat(0, 0, 1, [])

  /** `Mat::default()`: no rows, no columns, one channel. */
  const DefaultMat: Frame := Mat(0, 0, 1, [])

  /** `Mat::empty()`: the frame holds no pixel. */
  predicate Empty(f: Frame) {
    f.rows == 0 || f.cols == 0
  }

  /** `core::Rect`. */
  datatype Rect = Rect(x: int, y: int, width: int, height: int)

  datatype SlicAlgorithm = Slic | Slico

  /** One call into the image-processing library, with the constants the
      source passes to it. */
  datatype CvCall =
    | CvtColorBgr2Gray
      /** `imgproc::canny(src, dst, threshold1, threshold2, aperture, l2)` */
    | Canny(threshold1: real, threshold2: real, apertureSize: int, l2Gradient: bool)
      /** `xphoto::create_grayworld_wb()` then `balance_white` */
    | GrayworldWhiteBalance
      /** `imgproc::bilateral_filter(src, dst, d, sigma_color, sigma_space, BORDER_DEFAULT)` */
    | BilateralFilter(diameter: int, sigmaColor: real, sigmaSpace: real)
      /** `create_superpixel_slic(src, algorithm, region_size, ruler)`, `iterate`,
          `get_labels` and `get_label_contour_mask` */
    | Superpixel(algorithm: SlicAlgorithm, regionSize: int, ruler: real, iterations: int)
      /** `find_contours` on the second input and `draw_contours` onto a copy of the first */
    | DrawExternalContours(thickness: int)
      /** `dnn_superres`: `read_model`, `set_model` and `upsample` */
    | SuperResolution(modelPath: string, modelName: string, scale: int)
      /** `imgproc::threshold(src, dst, thresh, maxval, THRESH_BINARY)` */
    | ThresholdBinary(threshold: real, maxValue: real)
      /** `imgproc::rectangle(img, rect, colour, thickness, LINE_8, 0)` drawn in black */
    | BlackRectangle(rect: Rect, thickness: int)

  /** The image-processing library: any total function of a call and its inputs. */
  type Lib = (CvCall, seq<Frame>) -> Result<Frame, CvError>

  /** `frame_handler::convert_to_gray`: one `cvt_color(COLOR_BGR2GRAY)`, whose
      error is passed on.  It is declared here because both frame_handler.rs and
      haar_like.rs use it, and the latter is used by the former. */
  function ConvertToGray(cv: Lib, f: Frame): (r: Result<Frame, CvError>)
    ensures r.Err? <==> cv(CvtColorBgr2Gray, [f]).Err?
    ensures r.Ok? ==> r.value == cv(CvtColorBgr2Gray, [f]).value
  {
    cv(CvtColorBgr2Gray, [f])
  }

  /** `Mat::roi(Rect::new(x, 0, width, rows))` followed by `try_clone`: the
      columns `x .. x + width` of every row.  OpenCV's region-of-interest
      constructor turns a region with no rows or no columns into a 0x0 `Mat`. */
  function ColumnStrip(f: Frame, x: nat, width: nat): (s: Frame)
    requires x + width <= f.cols
    ensures width == 0 || f.rows == 0 ==> s.rows == 0 && s.cols == 0
    ensures width > 0 && f.rows > 0 ==> s.rows == f.rows && s.cols == width
    ensures s.channels == f.channels
    ensures forall r, c :: 0 <= r < s.rows && 0 <= c < s.cols ==> s.data[r][c] == f.data[r][x + c]
  {
    if width == 0 || f.rows == 0 then Mat(0, 0, f.channels, [])
    else Mat(f.rows, width, f.channels, seq(f.rows, r requires 0 <= r < f.rows => f.data[r][x..x + width]))
  }
}
