/** Values shared by the JoyCursor control loop: screen geometry, joystick
    samples and the input events the loop injects into the system. */
module Types {

  datatype Option<+T> = None | Some(value: T)

  /** A 32-bit unsigned Win32 DWORD. */
  type Dword = x: int | 0 <= x < 0x1_0000_0000

  /** An opaque window handle (HWND); only compared for identity. */
  type Handle = int

  /** A screen position in pixels (POINT). */
  datatype Point = Point(x: int, y: int)

  /** A window rectangle (RECT) with its four edges. */
  datatype Rect = Rect(left: int, top: int, right: int, bottom: int)

  /** Both extents of the rectangle are positive, so scaling by them is defined. */
  predicate HasArea(r: Rect)
  {
    r.right > r.left && r.bottom > r.top
  }

  /** One successful joystick poll (JOYINFOEX): the two axis readings and the
      button bitmask. */
  datatype Sample = Sample(xPos: Dword, yPos: Dword, buttons: bv32)

  /** Bit masks of the first two joystick buttons (JOY_BUTTON1, JOY_BUTTON2). */
  const JOY_BUTTON1: bv32 := 0x0001
  const JOY_BUTTON2: bv32 := 0x0002

  datatype Button = Left | Right

  /** An input event injected with mouse_event: an absolute move to a point of
      the 0..65535 coordinate space, or a press or release of a mouse button. */
  datatype Event = Move(absX: int, absY: int) | Down(button: Button) | Up(button: Button)
}
