# JoyCursor control loop in Dafny

JoyCursor lets a game controller drive the Windows mouse pointer. Two timers
run its core. The joystick tick polls the joystick. It turns the stick's
deflection into cursor motion through a quantized step table. It turns
buttons 1 and 2 into left and right clicks, emitted only on transitions. The
game-check tick looks at the foreground window. When that window covers the
primary desktop exactly (a fullscreen game), it parks the cursor in the
bottom-right corner and stops the joystick timer. For the desktop and every
ordinary window it sets the timer again.

The model has five modules:

- `Types` (types.dfy): points, rectangles, joystick samples and the injected
  input events (`Move`, `Down`, `Up`).
- `Motion` (motion.dfy): the pure motion engine. `AxisStep` is one threshold
  comparison. `Sweep` and `Thresholds` give the values the three counting
  loops visit. `NetStep` is the per-tick displacement of one axis. `Scale`
  and `MoveTo` give the absolute move that `moveCursor` injects. `MoveTrail`
  lists the moves one tick injects.
- `Buttons` (buttons.dfy): `Edge` is the latch transition. `State` replays an
  event log for one button. `Run` folds `Edge` over many ticks.
- `Foreground` (foreground.dfy): `Classify` is the first-match decision
  Desktop / Ordinary / FullscreenGame.
- `Control` (controller.dfy): class `Controller`. It holds the two latches
  (`aButton`, `bButton`), the joystick-timer flag (`controlArmed`) and the
  log of every injected event (`events`). Its methods follow the source's
  statements. `ControlTick` and `GameCheckTick` are the two timer callbacks.

The class invariant `Valid()` says the log never presses a pressed button or
releases a released one, and each latch equals the state the log leaves its
button in.

The Win32 queries are parameters of the callbacks:

- `joyGetPosEx` is an `Option<Sample>`; `None` is a failed poll.
- `GetCursorPos` is the `cursor` point.
- `GetWindowRect` of the desktop is the `desktop` rectangle.
- `GetForegroundWindow` is the `wnd` handle.
- `RealGetWindowClassA` is the class-name string; a failed call is the empty string.
- `GetWindowRect` of the foreground window is an `Option<Rect>`; `None` is a failed query.

`mouse_event` appends to `events`. `SetTimer` and `KillTimer` for the
joystick timer set and clear `controlArmed`.

Two facts about the code that the model makes explicit:

- A deflection of 25000 exceeds 10 thresholds, 10000–18000 and 20000–24000
  (`Motion.NetStepAt25000`).
- `moveCursorByXYMove` injects one absolute move on every call whose
  comparisons fire (src/main.cpp:185-187), so a tick injects up to 19 moves.
  The last one goes to the net displaced position (`Motion.TickEndsAtNetStep`).

## Model

| member | source | states |
|---|---|---|
| `Motion.AsInt32` | src/main.cpp:234 | the DWORD axis reading passed as an `int` keeps its value below 2^31 and always lands in the 32-bit range |
| `Motion.AxisStep` | src/main.cpp:168-183 | for a threshold t ≥ 0 an axis moves +1 exactly when diff > t, −1 exactly when diff < −t, and 0 exactly when −t ≤ diff ≤ t; never both |
| `Motion.MovesIffChanged` | src/main.cpp:162-188 | for t ≥ 0 a call injects a move exactly when some coordinate changed, i.e. when the larger deflection magnitude exceeds t |
| `Motion.Sweep` | src/main.cpp:233-240 | the values of a counting loop `for (i = lo; i < hi; i += step)` all lie in [lo, hi), and there are some exactly when lo < hi |
| `Motion.ThresholdTable` | src/main.cpp:233-240 | the three loops visit exactly 10000,12000,…,18000, 20000,…,29000, 30000,30500,31000,31500, in that order |
| `Motion.ThresholdsAscending` | src/main.cpp:233-240 | the 19 thresholds are strictly ascending, from 10000 to 31500 |
| `Motion.TrailStep` | src/main.cpp:162-188 | one more call moves each axis by its step and appends that call's move, if any, to the tick's moves |
| `Motion.TravelIsSignedCount` | src/main.cpp:164-183 | over non-negative thresholds an axis travels sign(diff) × the number of thresholds \|diff\| strictly exceeds |
| `Motion.NetStepIsSignedCount` | src/main.cpp:233-240 | a tick's displacement on an axis is sign(diff) × \|{t in table : \|diff\| > t}\| |
| `Motion.NetStepBounds` | src/main.cpp:233-240 | the displacement lies in [−19, 19] and has the sign of the deflection |
| `Motion.NetStepDeadZone` | src/main.cpp:233-234 | no motion when \|diff\| ≤ 10000 |
| `Motion.NetStepSaturates` | src/main.cpp:239-240 | 19 pixels towards the deflection when \|diff\| > 31500 |
| `Motion.NetStepOdd` | src/main.cpp:168-175 | opposite deflections of equal size move opposite ways by the same amount |
| `Motion.NetStepMonotoneInMagnitude` | src/main.cpp:233-240 | speed never decreases as \|diff\| grows |
| `Motion.NetStepMonotone` | src/main.cpp:233-240 | the displacement is non-decreasing in the signed deflection |
| `Motion.NetStepAtCentre` | src/main.cpp:164-165 | raw 32767 (centred stick) gives 0 |
| `Motion.NetStepAtExtremes` | src/main.cpp:164-165 | raw 65535 gives +19 and raw 0 gives −19 |
| `Motion.NetStepAt25000` | src/main.cpp:233-240 | raw 57767 (diff 25000) gives +10 |
| `Motion.Deflection` | src/main.cpp:164-165 | defines an axis's signed deflection, the reading minus the centre 32767 |
| `Motion.Moves` | src/main.cpp:167-185 | defines the `cursorMoved` flag of one call: some comparison against ±t fired |
| `Motion.Thresholds` | src/main.cpp:233-240 | defines the thresholds of one tick as the three loops' sweeps in order; all lie in [10000, 32000) and the first is 10000 |
| `Motion.AxisTravel` | src/main.cpp:164-183 | defines an axis's travel over a sequence of thresholds as the sum of its steps; it is at most one pixel per threshold either way |
| `Motion.Displace` | src/main.cpp:229-240 | defines the position after a sequence of calls: each axis displaced by its own travel, x depending only on dx and y only on dy |
| `Motion.NetStep` | src/main.cpp:229-240 | defines an axis's displacement over one whole tick as its travel over the table |
| `Motion.TruncDiv` | src/main.cpp:157-158 | defines C++ integer division by a positive divisor, rounding toward zero |
| `Motion.Scale` | src/main.cpp:155-158 | defines `v * 65535 / extent` with that division |
| `Motion.MoveTo` | src/main.cpp:151-160 | defines the absolute move `moveCursor` injects: x scaled by the desktop's width, y by its height |
| `Motion.ScaleMonotone` | src/main.cpp:157-158 | `x*65535/width` with C++ truncating division is monotone in x |
| `Motion.ScaleRange` | src/main.cpp:155-158 | for width > 0 and 0 ≤ x ≤ width the scaled value lies in [0, 65535]; 0 maps to 0 and width maps to 65535 |
| `Motion.ScaleOdd` | src/main.cpp:157-158 | truncation makes the scaling odd for positions left of or above the origin |
| `Motion.MoveTrail` | src/main.cpp:185-187 | a tick's injected events are all absolute moves, at most one per threshold |
| `Motion.MoveTrailCount` | src/main.cpp:185-187 | a tick injects one move per threshold exceeded by the larger of \|dx\| and \|dy\| |
| `Motion.MoveTrailEndsAtTarget` | src/main.cpp:185-187 | the last move injected goes to the final displaced position |
| `Motion.TickInjectsNothingIffCentred` | src/main.cpp:185-187 | a tick injects no move exactly when both \|dx\| ≤ 10000 and \|dy\| ≤ 10000 |
| `Motion.TickEndsAtNetStep` | src/main.cpp:229-240 | the last move of a tick goes to (cursor.x + NetStep(dx), cursor.y + NetStep(dy)) |
| `Buttons.Edge` | src/main.cpp:246-257 | a press exactly when the bit is set and the latch clear, a release exactly when the bit is clear and the latch set, nothing when bit and latch agree |
| `Buttons.State` | src/main.cpp:243-270 | defines the replay of a log for one button from released: its state afterwards, or None when the log presses it twice or releases it twice |
| `Buttons.Final` | src/main.cpp:243-270 | defines the latch after a run of ticks: the last bit, or the initial latch for an empty run |
| `Buttons.Run` | src/main.cpp:243-270 | defines the events of a run of ticks as the edges in order; at most one per tick, all presses or releases of that button |
| `Buttons.StateIgnoresOthers` | src/main.cpp:259-270 | events other than presses and releases of a button (moves, the other button) leave its replayed state unchanged |
| `Buttons.EdgeKeepsAlternation` | src/main.cpp:246-257 | a tick's edge keeps presses and releases alternating, and the button's state becomes the sampled bit |
| `Buttons.RunKeepsAlternation` | src/main.cpp:243-270 | over any run of ticks the log keeps alternating and ends in the state of the last bit |
| `Buttons.HoldEmitsOnePress` | src/main.cpp:246-251 | holding a released button for n ≥ 1 ticks emits exactly one press |
| `Buttons.SteadyEmitsNothing` | src/main.cpp:246-257 | while the bit stays equal to the latch nothing is emitted |
| `Buttons.PressHoldRelease` | src/main.cpp:246-257 | held for n ≥ 1 ticks then released gives exactly one press followed by one release |
| `Foreground.FetchedClass` | src/main.cpp:197-199 | the class name read with the length 15 passed to RealGetWindowClassA is a prefix of the real name, at most 14 characters long |
| `Foreground.FetchedClassIsWorkerW` | src/main.cpp:197-200 | truncating the class name never changes whether it equals "WorkerW" |
| `Foreground.Classify` | src/main.cpp:195-211 | defines the first-match decision: a cached desktop handle, then class "WorkerW", then four-edge equality with the desktop; a desktop handle is always Desktop, and FullscreenGame needs a successful rectangle query equal to the desktop's |
| `Foreground.DesktopIff` | src/main.cpp:195-201 | the verdict is Desktop exactly when the handle is a cached desktop handle or the class is "WorkerW" |
| `Foreground.FullscreenIff` | src/main.cpp:203-211 | the verdict is FullscreenGame exactly when the window is not the desktop, its rectangle query succeeds and all four edges equal the desktop's |
| `Foreground.OneEdgeOffIsOrdinary` | src/main.cpp:208-211 | a non-desktop window whose rectangle differs from the desktop's is Ordinary |
| `Control.ParkAtCorner` | src/main.cpp:212 | parking at (right, bottom) of a desktop with origin (0, 0) injects the absolute move (65535, 65535) |
| `Control.Controller.Valid` | src/main.cpp:243-270 | defines the class invariant: replaying the log gives each button the state its latch holds, so no press or release is ever doubled |
| `Control.Controller.constructor` | src/main.cpp:243-244 | at startup both latches are clear, the log is empty, the joystick timer is set and the desktop handles are captured |
| `Control.Controller.EnableControl` | src/main.cpp:106-109 | the joystick timer is set afterwards, also when it was set already |
| `Control.Controller.DisableControl` | src/main.cpp:111-114 | the joystick timer is cleared |
| `Control.Controller.MoveCursor` | src/main.cpp:151-160 | appends exactly one absolute move, to the scaled position, and keeps the invariant |
| `Control.Controller.MoveCursorByXYMove` | src/main.cpp:162-188 | the new position is the old one plus each axis's step, and one move to it is appended exactly when a comparison fired |
| `Control.Controller.SweepLoop` | src/main.cpp:233-240 | a counting loop leaves the position displaced by, and the log extended with the moves of, every threshold it visits |
| `Control.Controller.ControlTick` | src/main.cpp:222-271 | a failed poll changes nothing; otherwise the log gains the tick's moves then the left and right edges, and each latch equals its bit |
| `Control.Controller.UpdateLatches` | src/main.cpp:243-270 | each latch takes its own bit, left and right independently, appending exactly that button's edge |
| `Control.Controller.GameCheckTick` | src/main.cpp:191-219 | for a fullscreen game the log gains the park move and the timer is cleared; otherwise nothing is injected and the timer is set |

## Left out

- `WinMain` is not modelled: window-class registration, the tray icon and the message loop (src/main.cpp:43-91) are OS plumbing.
- `wndProc` and `showAbout` are not modelled: the popup menu and the about box (src/main.cpp:126-129, 275-314) are user interface.
- `loadResources` and `getDesktopWindows` are not modelled (src/main.cpp:22-34). The two desktop handles are constructor parameters.
- The Win32 and winmm calls are parameters of the callbacks, as listed above. Their failure modes are only those stated there.
- `GetWindowRect` on the desktop window is taken to succeed, as the source assumes. Its return value is not checked there.
- `enableGameCheck` and `disableGameCheck` are not modelled (src/main.cpp:116-124). The game-check timer is set for the whole message loop.
- Timer periods are not modelled (src/main.cpp:94-98). Neither is the restart of the joystick timer's period that `SetTimer` causes when the timer is already set.
- Control.Controller.ControlTick requires `controlArmed`: the model assumes no joystick `WM_TIMER` is dispatched after `KillTimer`. The source has no guard of its own (src/main.cpp:222-227, 294-297), so a stale tick would run in full.
- The coordinates passed with the button `mouse_event` calls (src/main.cpp:131-149) are dropped. The log records only which button was pressed or released.
- `moveCursor` re-reads the desktop rectangle on every call. The model uses one desktop rectangle per tick.
- Motion.ScaleRange: the source computes `x * 65535` in a 32-bit `int`. That overflows for |x| > 32768 pixels. The model computes it in unbounded integers, and no single primary display is that wide.
- Control.Controller.MoveCursor: requires a desktop of positive width and height. The source divides by zero otherwise. Control.Controller.ControlTick and Control.Controller.GameCheckTick require it on every path, although the source divides only when it injects a move; a tick that injects nothing (a centred stick, a Desktop or Ordinary verdict) is not modelled for a desktop without area.
- Foreground.FetchedClass: takes `RealGetWindowClassA` to copy at most 14 characters when passed the length 15. It ignores class names with an embedded NUL, where `strcmp` would stop early.
- Multi-monitor setups are not normalized, as in the source. A window that fills a secondary display is compared with the primary desktop only and is classified Ordinary.
