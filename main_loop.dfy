/** src/main.rs: the viewer's event loop.  Each round reads a key, reacts
    to it (leave, switch the mode, or nothing) and then captures one frame.
    The key codes are an input sequence; the model records the mode each
    capture is made in. */
module MainLoop {
  import opened RustCore
  import opened Cv
  import Keyboard
  import ConvertFrame
  import Camera

  const CAMERA_NUMBER: int := 14
  const INITIAL_MODE: string := "countours"

  /** What one key does to the loop. */
  datatype Action = Exit | Switch(mode: string) | Keep

  /** The `match` on `wait_key(1)`: an error or ESC leaves the loop, keys 1 to
      4 switch the mode, any other code (including -1, no key) does nothing. */
  function Dispatch(key: Result<int, CvError>): (a: Action)
    ensures a.Exit? <==> key.Err? || key.value == 27
    ensures a.Switch? ==> a.mode in ConvertFrame.MODE_NAMES
  {
    match key
    case Err(_) => Exit
    case Ok(code) =>
      match Keyboard.TryFrom(code)
      case Ok(Esc) => Exit
      case Ok(Num1) => Switch("color")
      case Ok(Num2) => Switch("gray")
      case Ok(Num3) => Switch("canny")
      case Ok(Num4) => Switch("white_balance")
      case Err(_) => Keep
  }

  /** The mode after reacting to `keys`, in order, from `mode`. */
  function ModeAfter(mode: string, keys: seq<Result<int, CvError>>): (r: string)
    ensures (forall i :: 0 <= i < |keys| ==> !Dispatch(keys[i]).Switch?) ==> r == mode
    ensures r != mode ==> exists i :: 0 <= i < |keys| && Dispatch(keys[i]) == Switch(r)
  {
    if keys == [] then mode
    else
      match Dispatch(keys[|keys| - 1])
      case Switch(m) => m
      case _ => ModeAfter(mode, keys[..|keys| - 1])
  }

  /** The number of rounds before the first key that leaves the loop (all of
      them if none does). */
  function RoundsBeforeExit(keys: seq<Result<int, CvError>>): (n: nat)
    ensures n <= |keys|
    ensures forall i :: 0 <= i < n ==> !Dispatch(keys[i]).Exit?
    ensures n < |keys| ==> Dispatch(keys[n]).Exit?
  {
    if keys == [] || Dispatch(keys[0]).Exit? then 0 else 1 + RoundsBeforeExit(keys[1..])
  }

  /** The loop of `main`, from the initial mode: `captures[i]` is the mode of
      the frame captured in round `i`; the round's key is handled before the
      capture.  The loop ends at the first key that leaves it, or when the
      keys run out. */
  method Run(keys: seq<Result<int, CvError>>) returns (captures: seq<string>, exited: bool)
    ensures |captures| == RoundsBeforeExit(keys)
    ensures forall i :: 0 <= i < |captures| ==> captures[i] == ModeAfter(INITIAL_MODE, keys[..i + 1])
    ensures exited <==> exists i :: 0 <= i < |keys| && Dispatch(keys[i]).Exit?
  {
    var mode := INITIAL_MODE;
    captures := [];
    exited := false;
    var i := 0;
    while i < |keys|
      invariant 0 <= i <= |keys|
      invariant |captures| == i
      invariant forall j :: 0 <= j < i ==> !Dispatch(keys[j]).Exit?
      invariant forall j :: 0 <= j < i ==> captures[j] == ModeAfter(INITIAL_MODE, keys[..j + 1])
      invariant mode == ModeAfter(INITIAL_MODE, keys[..i])
    {
      var action := Dispatch(keys[i]);
      if action.Exit? {
        exited := true;
        RoundsAtExit(keys, i);
        return;
      }
      assert keys[..i + 1][..i] == keys[..i];
      if action.Switch? {
        mode := action.mode;
      }
      captures := captures + [mode];
      i := i + 1;
    }
    RoundsAtExit(keys, i);
  }

  lemma {:induction false} RoundsAtExit(keys: seq<Result<int, CvError>>, i: nat)
    requires i <= |keys|
    requires forall j :: 0 <= j < i ==> !Dispatch(keys[j]).Exit?
    requires i < |keys| ==> Dispatch(keys[i]).Exit?
    ensures RoundsBeforeExit(keys) == i
  {
    if i > 0 {
      RoundsAtExit(keys[1..], i - 1);
    }
  }

  /** Every round's mode is the initial one or one of the four keys' modes;
      the key-selected modes are all camera modes. */
  lemma {:induction false} ModesAreSelectable(keys: seq<Result<int, CvError>>)
    ensures ModeAfter(INITIAL_MODE, keys) == INITIAL_MODE ||
            ModeAfter(INITIAL_MODE, keys) in {"color", "gray", "canny", "white_balance"}
  {
    if keys != [] {
      ModesAreSelectable(keys[..|keys| - 1]);
    }
  }

  /** The key codes: 27 leaves, 49 to 52 select color, gray, canny and
      white balance, and a key that selects nothing keeps the mode. */
  lemma KeyTable(mode: string, keys: seq<Result<int, CvError>>, code: int)
    ensures Dispatch(Ok(27)) == Exit
    ensures Dispatch(Ok(49)) == Switch("color") && Dispatch(Ok(50)) == Switch("gray")
    ensures Dispatch(Ok(51)) == Switch("canny") && Dispatch(Ok(52)) == Switch("white_balance")
    ensures code !in {27, 49, 50, 51, 52} ==> ModeAfter(mode, keys + [Ok(code)]) == ModeAfter(mode, keys)
  {
    assert (keys + [Ok(code)])[..|keys|] == keys;
  }

  /** The initial mode is a frame-handler name but not a camera mode, so
      `Camera::new(14, "countours")` panics in `unwrap` on any device that
      opens. */
  lemma InitialModeIsNotACameraMode()
    ensures ConvertFrame.SearchConvertFrame(INITIAL_MODE) == None
  {
  }

  /** The program's start-up, `Camera::new(CAMERA_NUMBER, "countours")`:
      it never returns a camera. */
  method Startup(created: Result<(), CvError>, isOpened: Result<bool, CvError>) returns (o: Outcome<Camera.Camera>)
    ensures o.Panics?
    ensures created.Ok? && isOpened.Ok? ==> o == Panics(OPTION_UNWRAP_PANIC)
  {
    InitialModeIsNotACameraMode();
    o := Camera.Camera.New(CAMERA_NUMBER, INITIAL_MODE, created, isOpened);
  }
}
