/** src/camera/camera.rs: a capture device paired with the converter chosen
    when the camera is created.  The device is not modelled: what it answers
    (to being opened, to `is_opened`, to `read`) is passed in. */
module Camera {
  import opened RustCore
  import opened Cv
  import ConvertFrame

  /** `videoio::VideoCapture` opened on a device index. */
  datatype VideoCapture = VideoCapture(index: int)

  const NEW_CAPTURE_PANIC: string := "Error: new VideoCapture"
  const INIT_PANIC: string := "Error: Camera Init"
  const READ_PANIC: string := "Error: read"

  class Camera {
    /** The latest converted frame; `Mat::default()` until the first capture. */
    var frame: Frame
    const capture: VideoCapture
    const funcConvertFrame: ConvertFrame.Mode

    constructor (capture: VideoCapture, funcConvertFrame: ConvertFrame.Mode)
      ensures this.frame == DefaultMat
      ensures this.capture == capture && this.funcConvertFrame == funcConvertFrame
    {
      this.capture := capture;
      this.frame := DefaultMat;
      this.funcConvertFrame := funcConvertFrame;
    }

    /** `Camera::new`.  `created` is what `VideoCapture::new` answers and
        `isOpened` what `is_opened` answers.  Each `expect` panics on an
        `Err` only: a device that reports `Ok(false)` is accepted.  An unknown
        mode panics in `unwrap`, after the device checks. */
    static method New(cameraIndex: int, frameMode: string, created: Result<(), CvError>, isOpened: Result<bool, CvError>)
      returns (o: Outcome<Camera>)
      ensures o.Panics? <==> created.Err? || isOpened.Err? || ConvertFrame.SearchConvertFrame(frameMode).None?
      ensures created.Err? ==> o == Panics(NEW_CAPTURE_PANIC)
      ensures created.Ok? && isOpened.Err? ==> o == Panics(INIT_PANIC)
      ensures created.Ok? && isOpened.Ok? && ConvertFrame.SearchConvertFrame(frameMode).None? ==>
                o == Panics(OPTION_UNWRAP_PANIC)
      ensures o.Returns? ==> && fresh(o.value)
                             && o.value.frame == DefaultMat
                             && o.value.capture == VideoCapture(cameraIndex)
                             && o.value.funcConvertFrame == ConvertFrame.SearchConvertFrame(frameMode).value
    {
      if created.Err? {
        return Panics(NEW_CAPTURE_PANIC);
      }
      var capture := VideoCapture(cameraIndex);
      if isOpened.Err? {
        return Panics(INIT_PANIC);
      }
      var mode := ConvertFrame.SearchConvertFrame(frameMode);
      if mode.None? {
        return Panics(OPTION_UNWRAP_PANIC);
      }
      var camera := new Camera(capture, mode.value);
      return Returns(camera);
    }

    /** `capture_frame`.  `read` is what `capture.read` answers: the frame it
        stored into `self.frame`, or an error.  An error or an empty frame
        panics; otherwise the camera's one converter is applied once, and a
        panic inside it leaves the raw frame in place. */
    method CaptureFrame(read: Result<Frame, CvError>, cv: Lib) returns (o: Outcome<()>)
      modifies this`frame
      ensures read.Err? ==> o == Panics(READ_PANIC) && frame == old(frame)
      ensures read.Ok? && Empty(read.value) ==> o == Panics(READ_PANIC) && frame == read.value
      ensures read.Ok? && !Empty(read.value) && ConvertFrame.Apply(funcConvertFrame, cv, read.value).Returns? ==>
                o == Returns(()) && frame == ConvertFrame.Apply(funcConvertFrame, cv, read.value).value
      ensures read.Ok? && !Empty(read.value) && ConvertFrame.Apply(funcConvertFrame, cv, read.value).Panics? ==>
                o == Panics(ConvertFrame.Apply(funcConvertFrame, cv, read.value).message) && frame == read.value
    {
      if read.Err? {
        return Panics(READ_PANIC);
      }
      frame := read.value;
      if Empty(frame) {
        return Panics(READ_PANIC);
      }
      var converted := ConvertFrame.Apply(funcConvertFrame, cv, frame);
      if converted.Panics? {
        return Panics(converted.message);
      }
      frame := converted.value;
      return Returns(());
    }
  }
}
