# Camera pipeline: a Dafny model

This project models the configuration and bookkeeping logic of a camera
pipeline written in Rust, with a browser front end in JavaScript. The model
covers these parts:

- **Graph editor.** The user draws edges between transform vertices and the
  sink vertex `camera`. An edge is admitted only when its source is not the
  camera, its source has no outgoing edge and its target has no incoming
  edge. The editor sends the edge list to the server after every change.
- **Chain compiler.** The server walks the edge list backwards from `camera`
  and turns it into an ordered list of transform names.
- **Transform registries.** Two registries map mode names to frame
  converters:
  - `frame_handler.rs` holds eleven fallible handlers.
  - `convert_frame.rs` holds six converters that panic on a library error.
- **Haar-like overlay.** The frame is cut into forty vertical strips. For
  each strip, the row sums are smoothed with a box kernel, adjacent values
  are differenced, and the position of the largest rise becomes one marker.
- **Camera.** It is created with one converter and overwrites its frame on
  every capture.
- **Key decoder and main loop.** The key decoder and the event loop of the
  viewer program.
- **Device number.** Two readers of the `DEV_NUMBER` environment variable.
  One panics on a bad value; the other falls back to the default.

The image-processing library is kept opaque. A frame is a grid of 8-bit
pixels (`Cv.Frame`). Every library routine the pipeline calls is a value of
`Cv.CvCall`, which carries the constants the source passes to it. The library
itself is a parameter `cv: Cv.Lib`: an arbitrary total function from a call
and its input frames to a frame or an error. Every property below therefore
holds for every possible library behaviour.

A Rust panic is modelled as `RustCore.Outcome.Panics`, and an `f64` as exact
`real`. NaN is kept because `0/0` does occur
(`HaarLike.F64`). Device answers (opening the capture, `is_opened`, `read`),
key codes and the environment variable are parameters.

The chain compiler's loop has no guard against cycles. Its method is proved
for the inputs on which it terminates (`Connections.Stops`). The lemmas then
characterise those inputs:

- A walk that revisits a node never stops.
- A walk that stops does so within `|edges| + 1` steps.
- Every edge set built from admitted additions and Ctrl+X removals stops:
  `GraphEditor.EditorPayloadCompiles` links the editor's admission rule to
  the compiler's termination. Other mxGraph gestures bypass that rule (see
  "Left out").

Three places where the sources disagree with each other are modelled file by
file, as written:

- `main.rs` calls `camera.switch_frame_handler`, which `camera.rs` does not
  define. The loop is therefore modelled as the sequence of modes the frames
  are captured in.
- `main.rs` matches the integer that `wait_key` returns against `KeyNum`
  variants. This is modelled as decoding through `KeyNum::try_from`, with
  every undecodable code falling to the `_` arm.
- `main.rs` starts with the mode `"countours"`. That name exists only in the
  `frame_handler.rs` registry, while `Camera::new` looks it up in
  `convert_frame.rs`. So, as written, the program panics at start-up on any
  device that opens (`MainLoop.Startup`).

The comment above `find_preceding` gives the roles of source and target the
other way round from the code. The model follows the code: its result is the
source of the first edge whose target matches.

## Model

| member | source | states |
|---|---|---|
| `Connections.FindPreceding` | src/streaming/connections.rs:38-45 | the loop with early return yields exactly `Preceding`: the source of the first edge, in vector order, whose target is the successor, or `None` |
| `Connections.PrecedingIsFirstMatch` | src/streaming/connections.rs:38-45 | `None` iff no edge targets the successor; otherwise some edge `j` targets it, its source is the result, and no edge before `j` targets it |
| `Connections.ConvertConnectionsToProcessChain` | src/streaming/connections.rs:16-32 | on termination the chain is the backward walk from `camera`, read upstream first. It is empty iff no edge enters `camera`. Its last name is the source of the first edge into `camera`. Each name is the source of the first edge into the next name. The first name has no incoming edge. Every name is the source of some edge |
| `Connections.DocumentedExample` | src/streaming/connections.rs:12-15 | edges `(3,camera),(2,3),(1,2)` compile to `["1","2","3"]` |
| `Connections.Reverse` | src/streaming/connections.rs:30 | `Vec::reverse`: same length, and element `i` is element `n-1-i` of the input |
| `Connections.RevisitNeverStops` | src/streaming/connections.rs:21-29 | if the backward walk reaches the same node at two different steps, it never reaches `None`, so the loop does not terminate |
| `Connections.SinkSelfLoopNeverStops` | src/streaming/connections.rs:21-29 | the single edge `(camera, camera)` makes the loop run forever |
| `Connections.WalkStaysStopped` | src/streaming/connections.rs:27 | once the walk has stopped it stays stopped (`break` leaves the loop) |
| `Connections.WalkShift` | src/streaming/connections.rs:22-24 | the walk is deterministic: two steps at the same node stay equal for every later step |
| `Connections.DistinctWalkBound` | src/streaming/connections.rs:21-29 | when the visited nodes are pairwise distinct, there are at most as many of them as edges |
| `Connections.SourcesBound` | src/streaming/connections.rs:21-29 | there are at most as many distinct edge sources as edges |
| `Connections.StopsWithinEdges` | src/streaming/connections.rs:21-29 | a loop that terminates does so within `|edges|+1` steps, so the chain has at most `|edges|` names |
| `GraphEditor.Outgoing` | src/streaming/static/websocket.js:72 | the outgoing-edge count of a vertex is 0 iff no edge cell has it as source |
| `GraphEditor.Incoming` | src/streaming/static/websocket.js:73 | the incoming-edge count of a vertex is 0 iff no edge cell has it as target |
| `GraphEditor.IsValidSource` | src/streaming/static/websocket.js:67 | the camera is never a valid source; every other vertex is (its consequence for admission is `AddEdgeAcceptsExactly`) |
| `GraphEditor.AddEdgeAccepts` | src/streaming/static/websocket.js:71-78 | the override's refusals in order: a camera source, then an existing outgoing edge of the source or incoming edge of the target (stated edge by edge in `AddEdgeAcceptsExactly`) |
| `GraphEditor.Payload` | src/streaming/static/websocket.js:31-40 | one `{source, target}` entry per edge cell, in cell order, with both ends of that cell |
| `GraphEditor.AddEdgeAcceptsExactly` | src/streaming/static/websocket.js:67-78 | an edge is admitted iff its source is not `camera`, no existing edge leaves its source and no existing edge enters its target |
| `GraphEditor.AcceptedEdgeKeepsInvariant` | src/streaming/static/websocket.js:70-78 | adding an admitted edge keeps "at most one edge in and one out per vertex, none out of `camera`" |
| `GraphEditor.WithoutEdge` | src/streaming/static/websocket.js:97 | `removeCells([edge])` keeps exactly the other cells, and keeps ids increasing |
| `GraphEditor.WithoutEdgeCounts` | src/streaming/static/websocket.js:97 | removing an edge never increases a vertex's incoming or outgoing count |
| `GraphEditor.RemovalKeepsInvariant` | src/streaming/static/websocket.js:95-98 | removing an edge keeps the one-in-one-out invariant |
| `GraphEditor.RemoveSelectionContents` | src/streaming/static/websocket.js:92-98 | after Ctrl+X an edge remains iff it was there and was not selected; selected vertices are not removed |
| `GraphEditor.RemoveSelection` | src/streaming/static/websocket.js:95-98 | the Ctrl+X loop removes selected edges one at a time and never adds a cell (exactly which cells remain is `RemoveSelectionContents`) |
| `GraphEditor.InvariantMakesLinear` | src/streaming/static/websocket.js:70-78 | under the invariant, no two edges of the payload share a source or a target, and none leaves `camera` |
| `GraphEditor.LinearWalkDistinct` | src/streaming/static/websocket.js:70-78 | on such an edge list the backward walk from `camera` visits pairwise distinct nodes |
| `GraphEditor.LinearStops` | src/streaming/static/websocket.js:70-78 | on such an edge list the compiler's loop terminates within `|edges|+1` steps |
| `GraphEditor.EditorPayloadCompiles` | src/streaming/static/websocket.js:31-40 | every payload of an edge list built by admitted additions and Ctrl+X removals compiles: the chain compiler terminates on it within `|edges|+1` steps |
| `GraphEditor.LabelsAndHandlers` | src/streaming/static/websocket.js:3-15 | of the vertex labels, exactly `canny`, `binary`, `white_balance`, `superpixel` and `haar_like` are frame-handler names; `face`, `removed_*`, `text` and `camera` are not |
| `GraphEditor.Editor.constructor` | src/streaming/static/websocket.js:43-66 | the editor starts with no edge and nothing sent, in a valid state |
| `GraphEditor.Editor.SendNodeConnections` | src/streaming/static/websocket.js:31-40 | one payload is sent, with one `{source, target}` per edge cell, in cell order |
| `GraphEditor.Editor.AddEdge` | src/streaming/static/websocket.js:67-88 | an admitted edge is appended with a fresh id and one payload is sent; a refused edge changes nothing and sends nothing; the invariant is kept |
| `GraphEditor.Editor.CutSelection` | src/streaming/static/websocket.js:90-105 | exactly the selected edges are removed, then one payload is sent; the invariant is kept |
| `FrameHandler.SearchFrameHandler` | src/camera/frame_handler.rs:8-27 | `Some` exactly for the eleven registered names, and the handler found is registered under the name asked for |
| `FrameHandler.CreateFrameHandlerMap` | src/camera/frame_handler.rs:13-27 | the map's keys are exactly the eleven names, and each maps to the handler registered under it |
| `FrameHandler.SearchFindsEveryHandler` | src/camera/frame_handler.rs:13-27 | every handler is found under its own name, so the keys are distinct |
| `FrameHandler.SearchMisses` | src/camera/frame_handler.rs:8-27 | `"contours"` (spelled correctly), `""` and `"Color"` give `None` |
| `Cv.ConvertToGray` | src/camera/frame_handler.rs:30-34 | fails exactly when the library's `cvt_color(COLOR_BGR2GRAY)` fails, and otherwise returns that call's output (its callers pass the error on: `InnerErrorsPropagate`, `HaarLikeErrorsAreGrayErrors`) |
| `FrameHandler.ConvertToColor` | src/camera/frame_handler.rs:61-63 | never errs, and returns the input frame unchanged |
| `FrameHandler.ConvertToWhiteBalance` | src/camera/frame_handler.rs:66-71 | fails exactly when the gray-world white balance fails, and otherwise returns its output (`FailingLibrary`) |
| `FrameHandler.ConvertToBilateralFilter` | src/camera/frame_handler.rs:74-85 | fails exactly when the bilateral filter (diameter 9, both sigmas 75) fails, and otherwise returns its output |
| `FrameHandler.ConvertToSuperpixel` | src/camera/frame_handler.rs:88-95 | fails exactly when SLIC (region size 25, ruler 100, 5 iterations, contour mask) fails, and otherwise returns its output |
| `FrameHandler.ConvertToFsrcnn` | src/camera/frame_handler.rs:125-133 | fails exactly when FSRCNN super-resolution from `model/fsrcnn.pb` at scale 2 fails, and otherwise returns its output |
| `FrameHandler.ConvertToEspcn` | src/camera/frame_handler.rs:136-144 | fails exactly when ESPCN super-resolution from `model/espcn.pb` at scale 2 fails, and otherwise returns its output |
| `FrameHandler.ColorIsIdentity` | src/camera/frame_handler.rs:61-63 | `color` returns its input unchanged, whatever the library does |
| `FrameHandler.OnlyHaarLikePanics` | src/camera/frame_handler.rs:29-160 | every handler except the Haar-like overlay reports failures as `Err` and never panics |
| `FrameHandler.FailingLibrary` | src/camera/frame_handler.rs:29-180 | when the library refuses every call with `e`, every handler except `color` returns `Err(e)` |
| `FrameHandler.InnerErrorsPropagate` | src/camera/frame_handler.rs:37-168 | a gray error is the result of `canny`, `binary` and the overlay; a `canny` error is the result of `countours` |
| `FrameHandler.CannyDiscardsGray` | src/camera/frame_handler.rs:47-57 | once gray succeeds, its output does not affect `canny`: edge detection reads the original frame |
| `FrameHandler.BinaryThresholdsGray` | src/camera/frame_handler.rs:147-160 | `binary` depends only on the gray frame and the library's threshold of it |
| `FrameHandler.ConvertToCanny` | src/camera/frame_handler.rs:37-58 | a gray error is returned unchanged; a success is edge detection of the original frame, after gray succeeded |
| `FrameHandler.ConvertToCountours` | src/camera/frame_handler.rs:98-122 | a `canny` error is returned unchanged; a success draws the external contours of the `canny` edges onto the frame |
| `FrameHandler.ConvertToBinary` | src/camera/frame_handler.rs:147-160 | a gray error is returned unchanged; a success is the binary threshold (200, 255) of the gray frame |
| `FrameHandler.Apply` | src/camera/frame_handler.rs:29-180 | dispatch of every handler: only the Haar-like overlay can panic, and `color` never returns an `Err` |
| `FrameHandler.AsI32` | src/camera/frame_handler.rs:175 | `f64 as i32` gives an `i32`, maps NaN to 0, and is the floor for values in `[0, i32::MAX]` |
| `FrameHandler.HaarRects` | src/camera/frame_handler.rs:164-176 | exactly forty marker rectangles |
| `FrameHandler.ConvertToHaarLike` | src/camera/frame_handler.rs:162-180 | the drawing loop computes `HaarLikeTransform`: panics and gray errors of the feature computation are passed on; otherwise the forty markers are drawn in order on a copy of the frame |
| `FrameHandler.HaarLikeTransform` | src/camera/frame_handler.rs:162-180 | panics exactly when `calc_haar_like_vec` panics, with its message; errs only with its grayscale error; succeeds whenever the features are computed (the loop is proved to compute it in `ConvertToHaarLike`) |
| `FrameHandler.HaarRectsGeometry` | src/camera/frame_handler.rs:171-176 | marker `i` has height 1, width `w/40` and x `(w/40)*i`, so `x + width <= w`; a feature in `[0,1)` or NaN puts its row in `[0, height)` (row 0 for NaN) |
| `FrameHandler.RefusedRectanglesLeaveFrame` | src/camera/frame_handler.rs:177 | when every rectangle call fails, the overlay leaves the frame as it was |
| `FrameHandler.HaarLikeErrorsAreGrayErrors` | src/camera/frame_handler.rs:168-179 | the only `Err` the overlay returns is the gray conversion's; rectangle errors never fail it |
| `ConvertFrame.SearchConvertFrame` | src/camera/convert_frame.rs:6-20 | `Some` exactly for the six registered names, each found under the name asked for |
| `ConvertFrame.CreateCameraModeMap` | src/camera/convert_frame.rs:11-20 | the map's keys are exactly the six names, and each maps to the converter registered under it |
| `ConvertFrame.SearchFindsEveryMode` | src/camera/convert_frame.rs:11-20 | every converter is found under its own name |
| `ConvertFrame.ModesAreFewerThanHandlers` | src/camera/convert_frame.rs:11-20 | every camera mode is a frame-handler name; `countours`, `binary`, `haar_like`, `fsrcnn` and `espcn` are not camera modes |
| `ConvertFrame.ColorIsIdentity` | src/camera/convert_frame.rs:55-57 | `color` returns its input and never panics |
| `ConvertFrame.Unwrap` | src/camera/convert_frame.rs:25 | returns exactly when the result is `Ok`, with its frame; otherwise panics with the `Result::unwrap` message |
| `ConvertFrame.Counterpart` | src/camera/convert_frame.rs:11-20 | each camera mode has a frame handler registered under the same name |
| `ConvertFrame.ConvertersUnwrapHandlers` | src/camera/convert_frame.rs:23-82 | except `superpixel`, each converter is its frame-handler namesake with `Err` turned into an `unwrap` panic |
| `ConvertFrame.LibraryErrorsPanic` | src/camera/convert_frame.rs:23-95 | a library error panics every converter but `color`; no converter returns an error |
| `ConvertFrame.CannyNeedsGray` | src/camera/convert_frame.rs:40 | gray runs before edge detection: a failing gray panics `canny` even when edge detection would succeed |
| `ConvertFrame.ConvertToCanny` | src/camera/convert_frame.rs:30-52 | a failing gray conversion panics in `unwrap`; a returned frame is edge detection of the original frame, after gray succeeded |
| `ConvertFrame.Apply` | src/camera/convert_frame.rs:22-95 | dispatch of every converter: `color` returns its input, and every panic is the `unwrap` of a library error |
| `Camera.Camera.constructor` | src/camera/camera.rs:17-21 | a new camera has the default, empty frame, the given capture and the given converter |
| `Camera.Camera.New` | src/camera/camera.rs:12-22 | `new` panics iff creating the capture fails, or `is_opened` errs, or the mode is unknown to `convert_frame`, with the first failing step's message (`Option::unwrap`'s for an unknown mode). `is_opened` answering `Ok(false)` is accepted. On success the frame is empty and the converter is the one registered for the mode |
| `Camera.Camera.CaptureFrame` | src/camera/camera.rs:24-30 | only `frame` changes. A read error panics and leaves the frame. An empty read panics with the raw frame stored. Otherwise the frame becomes exactly one application of the camera's converter to the raw frame; a converter panic leaves the raw frame |
| `HaarLike.Convolve` | src/camera/haar_like.rs:62-80 | panics iff the kernel is longer than the input or empty over a non-empty input. Otherwise the length is `n-k+1`, output 0 is `sum a[i]*k[k-1-i]`, and output `j` is the running update `Sliding` |
| `HaarLike.ConvolveExact` | src/camera/haar_like.rs:62-80 | the corrected `convolve`: for `1 <= k <= n`, `n-k+1` outputs, output `j` being the convolution of window `j` for every kernel |
| `HaarLike.ConstantKernelSliding` | src/camera/haar_like.rs:46-77 | for a constant kernel `c`, output `j` of the running update is `c` times the sum of window `j`, which equals the convolution |
| `HaarLike.SlidingIsNotConvolution` | src/camera/haar_like.rs:74-77 | for `a=[0,1,0]`, `k=[1,2]` the running update gives 1 where the convolution gives 2 |
| `HaarLike.SumShift` | src/camera/haar_like.rs:74-77 | sliding a window one place adds the entering element and drops the leaving one |
| `HaarLike.DiffsTelescope` | src/camera/haar_like.rs:50 | there are `n-1` differences, and they add up to last minus first |
| `HaarLike.Diffs` | src/camera/haar_like.rs:50 | one difference per adjacent pair, and each element plus its difference is the next element (their total is `DiffsTelescope`) |
| `HaarLike.LastMaxIndex` | src/camera/haar_like.rs:52-57 | 0 for an empty array; otherwise an index attaining the maximum, with every later entry strictly smaller (the last maximum) |
| `HaarLike.RisePositionRange` | src/camera/haar_like.rs:50-59 | the ratio is NaN iff there is at most one smoothed value, and otherwise lies in `[0,1)` |
| `HaarLike.RisePositionIsLastLargestRise` | src/camera/haar_like.rs:50-59 | the ratio is `i/len` for the last index `i` of a largest difference |
| `HaarLike.RisePosition` | src/camera/haar_like.rs:50-59 | NaN exactly when there are fewer than two smoothed values (range in `RisePositionRange`, choice of index in `RisePositionIsLastLargestRise`) |
| `HaarLike.RowSums` | src/camera/haar_like.rs:36-44 | one entry per row, each between 0 and 255 times the number of columns (the loop of `CalcHaarLike` is proved to build it) |
| `HaarLike.RowSumsBounded` | src/camera/haar_like.rs:36-44 | the sum of a row of byte pixels lies in `[0, 255 * cols]` |
| `HaarLike.Kernel` | src/camera/haar_like.rs:46 | `rect_height` taps, each `1/rect_height` |
| `HaarLike.KernelSumsToOne` | src/camera/haar_like.rs:46 | for `rect_height > 0` the kernel has `rect_height` taps summing to 1, so smoothing averages |
| `HaarLike.Smoothed` | src/camera/haar_like.rs:46-47 | one smoothed value per window: `rows - rect_height + 1` of them |
| `HaarLike.SmoothedIsMovingAverage` | src/camera/haar_like.rs:36-47 | smoothed value `j` is the average of the row sums of rows `j .. j+rect_height` |
| `HaarLike.CalcHaarLike` | src/camera/haar_like.rs:31-60 | the row-sum loop, then smoothing, differencing and argmax, computes `HaarFeature`: `at_2d` panics on a multi-channel frame with pixels, and a negative, too tall or (over rows) empty kernel panics |
| `HaarLike.HaarFeature` | src/camera/haar_like.rs:31-60 | a returned feature is never `Err`; it returns only for `0 <= rect_height <= rows` and, when the strip has pixels, one channel |
| `HaarLike.HaarFeatureRange` | src/camera/haar_like.rs:31-60 | a strip's feature is never `Err`; it is NaN iff the strip is exactly `rect_height` rows tall, and otherwise in `[0,1)` |
| `HaarLike.HaarFeaturePanics` | src/camera/haar_like.rs:39-77 | a strip avoids a panic iff it is one-channel (or pixel-less) and `0 <= rect_height <= rows`, with `rect_height = 0` only for zero rows |
| `HaarLike.Strip` | src/camera/haar_like.rs:21-23 | strip `i` is `w/divisions` columns wide with every row when `w >= divisions` and the frame has rows, and is 0x0 otherwise; it lies inside the frame, and pixel `(r,c)` is the frame's pixel `(r, i*(w/divisions)+c)` |
| `HaarLike.Collect` | src/camera/haar_like.rs:18-26 | panics iff some strip panics, with the message of a panicking strip; otherwise one value per strip, in order |
| `HaarLike.CollectReturns` | src/camera/haar_like.rs:18-26 | without a panic, value `i` is strip `i`'s feature, or 0.0 where it erred (`unwrap_or(0.0)`) |
| `HaarLike.CalcHaarLikeVec` | src/camera/haar_like.rs:7-29 | a gray error is returned unchanged; a returned vector follows a successful gray conversion and has `divisions` entries (none for a negative count) |
| `HaarLike.CalcHaarLikeVecErrors` | src/camera/haar_like.rs:12-15 | the only `Err` is the gray conversion's, passed on; `divisions = 0` divides by zero |
| `HaarLike.CalcHaarLikeVecLength` | src/camera/haar_like.rs:18-28 | a returned vector has exactly `divisions` entries (none for a negative count) |
| `HaarLike.CalcHaarLikeVecColumns` | src/camera/haar_like.rs:18-26 | entry `i` is the feature of strip `i` of the gray frame, in column order, and is NaN or in `[0,1)` |
| `HaarLike.CalcHaarLikeVecReturns` | src/camera/haar_like.rs:18-26 | with a one-channel gray frame at least `divisions` columns wide and `0 < rect_height <= rows`, no strip panics and the call returns |
| `HaarLike.NarrowFramePanics` | src/camera/haar_like.rs:15-24 | a gray frame narrower than `divisions` gives 0x0 strips, so with `rect_height > 0` the call panics in `convolve` with the subtract-overflow message |
| `Keyboard.TryFrom` | src/keyboard/keyboard.rs:9-22 | `Ok` exactly for 27, 49, 50, 51, 52, and the decoded key's discriminant is the code |
| `Keyboard.RoundTrip` | src/keyboard/keyboard.rs:1-7 | decoding a key's discriminant gives the key back |
| `Keyboard.DecodingIsInjective` | src/keyboard/keyboard.rs:13-18 | distinct accepted codes decode to distinct keys |
| `MainLoop.Dispatch` | src/main.rs:13-25 | a key leaves the loop iff `wait_key` errs or the key is ESC (27); a switch always selects a camera mode |
| `MainLoop.KeyTable` | src/main.rs:15-20 | 27 exits; 49-52 select `color`, `gray`, `canny`, `white_balance`; any other code keeps the mode |
| `MainLoop.ModeAfter` | src/main.rs:13-25 | with no switching key the mode is unchanged, and a changed mode is one some key selected (the key codes are `KeyTable`) |
| `MainLoop.RoundsBeforeExit` | src/main.rs:12-30 | the rounds before the first exit key: none of them exits, and the next key (if any) does |
| `MainLoop.Run` | src/main.rs:12-30 | one capture per round up to the first exiting key. The capture of round `i` uses the mode after keys `0..i`, so each key is handled before its capture. The loop reports an exit iff some key exits |
| `MainLoop.ModesAreSelectable` | src/main.rs:10-19 | the mode is always the initial one or one of the four key-selected modes |
| `MainLoop.InitialModeIsNotACameraMode` | src/main.rs:10 | `"countours"` is not registered in `convert_frame` |
| `MainLoop.Startup` | src/main.rs:9-10 | `Camera::new(14, "countours")` always panics, and with a working device it panics in `Option::unwrap` on the unknown mode |
| `Utils.IsGrayscale` | src/camera/utils.rs:6-8 | never `Err`; true iff the frame has one channel |
| `Utils.GetDevNumber` | src/camera/utils.rs:10-25 | a returned device number is an `i32`; a panic carries "Error: DEV_NUMBER is invalid" |
| `Utils.GetDevNumberCases` | src/camera/utils.rs:10-25 | unset gives 0; a set value panics iff `parse::<i32>` refuses it, and otherwise gives the parsed value |
| `Utils.GetDevNumberOfDecimal` | src/camera/utils.rs:12-15 | every `i32` written in decimal is read back as itself; every out-of-range integer panics |
| `Utils.GetDevNumberRejects` | src/camera/utils.rs:15 | the empty string, a lone `-`, and leading or trailing white space panic |
| `ProjectHandlers.GetDevNumberFromEnv` | project/src/streaming/handlers.rs:47-56 | total: always returns an `i32` |
| `ProjectHandlers.AgreesWithGetDevNumber` | project/src/streaming/handlers.rs:47-56 | equal to `utils::get_dev_number` wherever that returns, and 0 wherever it panics |
| `ProjectHandlers.GetDevNumberFromEnvValues` | project/src/streaming/handlers.rs:48-54 | unset gives 0; an `i32` in decimal gives itself; an out-of-range number or the empty string gives 0 |
| `RustCore.ParseI32` | src/camera/utils.rs:12 | `str::parse::<i32>` accepts only an optional sign followed by digits, and its value is an `i32` that is negative only after `-` |
| `RustCore.ParseI32RoundTrip` | src/camera/utils.rs:12 | parsing the decimal form of an `i32` gives it back |
| `RustCore.ParseI32Overflow` | src/camera/utils.rs:12 | the decimal form of an integer outside the `i32` range is refused |
| `RustCore.ParseI32Rejects` | src/camera/utils.rs:12 | `""`, `"+"`, `"-"`, `" 14"`, `"14 "` and `"+-1"` are refused |
| `RustCore.ParseI32Accepts` | src/camera/utils.rs:12 | a leading `+` and leading zeros are accepted (`"+014"`, `"-0"`) |
| `Cv.ColumnStrip` | src/camera/haar_like.rs:22-23 | an ROI of columns `x..x+width` keeps every row and pixel `(r,c)` is the frame's pixel `(r, x+c)`; a region without columns or rows is a 0x0 frame, as OpenCV's ROI constructor makes it |

## Left out

- The pixel computations of the image library are not modelled: colour conversion, Canny, white balance, bilateral filter, SLIC, contours, super-resolution, threshold and rectangle drawing. They are the opaque parameter `cv`, so every result holds for any library behaviour.
- `utils::remove_color_channel`, `utils::detect_object` and `text.rs` are not part of this model. They are further library wrappers outside the pipeline's configuration logic.
- f64 rounding is not modelled; arithmetic is exact `real`. The `partial_cmp(...).unwrap_or(Equal)` fallback at `haar_like.rs:55` therefore never applies, because exact values are totally ordered.
- Rayon's parallel map in `calc_haar_like_vec` is modelled as a sequential map. `collect` keeps the order, so this is faithful. When several strips panic, the model reports the message of the first panicking strip in column order; which one rayon surfaces depends on scheduling and is not modelled.
- The async websocket tasks (`handle_websocket.rs`), the axum route handlers, the static-content maps and `generate_response.rs` are left out: they are concurrency and network I/O. The server only prints the compiled chain and never installs it, so no hand-off of the chain to the camera is modelled.
- JSON (serde) decoding is left out. The edge list arrives already parsed. A payload with a `null` end fails to parse, and dangling edges are disallowed in the editor anyway.
- mxGraph's default gestures that bypass the overridden `addEdge` are not modelled: dragging an existing edge's end onto another vertex, cloning with Ctrl+drag, and editing a label in place. They can produce edge sets that break the one-in-one-out invariant, even cycles on which the compiler never stops. The termination results cover only additions through `addEdge` and Ctrl+X removals.
- The mxGraph/DOM rendering, vertex layout, mxGraph's own checks before `addEdge` other than `isValidSource`, and the WebSocket callbacks of `websocket.js` are left out. Cell ids are modelled as increasing naturals.
- `highgui::imshow`, its `?` (an error there ends `main`), the timing output and `wait_key` itself are I/O. Keys are an input sequence, and `MainLoop.Run` ends when the sequence runs out, whereas the real loop waits for more keys.
- MainLoop.Run: it does not call `capture_frame`, because `switch_frame_handler` is not defined. The run records the mode each capture would use, not the frames, and does not model capture panics.
- Panic messages are kept only in their fixed part. `expect` and `Result::unwrap` messages also carry the error's `Debug` text (`RustCore.RESULT_UNWRAP_PANIC`). The index panic also names the length and the index. "attempt to subtract with overflow" is the debug-build message; a release build wraps instead and fails later with another message.
- The `println!` warning printed when `DEV_NUMBER` is unset is output only. A variable holding non-Unicode data is treated like an unset one, as `std::env::var` reports both as `Err`.
- Connections.ConvertConnectionsToProcessChain: it is proved only for inputs on which the loop terminates (`requires Stops`), because the Rust loop has no cycle guard. The lemmas `RevisitNeverStops` and `SinkSelfLoopNeverStops` show that the other inputs loop forever.
- The borrowed edge list is a Dafny value, so "the input is not modified" holds by construction and has no lemma of its own.
- Frames can be larger than `i32` allows; `HaarRectsGeometry` assumes the row count fits in an `i32`, as OpenCV's does.

## Findings

| source | as written | input that shows it | evidently intended | confidence | as-written member | corrected member |
|---|---|---|---|---|---|---|
| src/camera/haar_like.rs:74-77 | `convolve` updates its running sum by adding `array[i]*kernel[0]` and subtracting `array[i-k]*kernel[k-1]`. The middle taps would also need to shift, so this is a convolution only for constant kernels | `array=[0,1,0]`, `kernel=[1,2]`: output 1 is 1, while the convolution gives 2 | output `j` = `sum array[j+i]*kernel[k-1-i]` for every kernel (the only caller passes a constant kernel, so the feature itself is unaffected) | not executed; high for `convolve` as a general function | `HaarLike.SlidingIsNotConvolution` (over `HaarLike.Sliding`, as computed by `HaarLike.Convolve`) | `HaarLike.ConvolveExact`, equal to the running update on the constant kernel the feature uses (`HaarLike.ConstantKernelSliding`), so `HaarLike.Smoothed` and `HaarLike.HaarFeature` are unaffected |
