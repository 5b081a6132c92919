/** The controller: the state that survives between timer ticks (the two
    button latches and whether the joystick timer is set), the log of input
    events injected into the system, and the two timer callbacks. */
module Control {
  import opened Types
  import opened Motion
  import opened Buttons
  import opened Foreground

  /** Parking the cursor at the bottom-right corner of a desktop whose origin
      is (0, 0) injects the absolute move to (65535, 65535). */
  lemma ParkAtCorner(desktop: Rect)
    requires HasArea(desktop) && desktop.left == 0 && desktop.top == 0
    ensures MoveTo(Point(desktop.right, desktop.bottom), desktop) == Move(ABS_MAX, ABS_MAX)
  {
    ScaleRange(desktop.right, desktop.right);
    ScaleRange(desktop.bottom, desktop.bottom);
  }

  class Controller {
    /** The shell desktop window and the "Program Manager" window, captured once at startup. */
    const desktopWindow1: Handle
    const desktopWindow2: Handle

    /** Latches of the left (button 1) and right (button 2) mouse buttons. */
    var aButton: bool
    var bButton: bool

    /** Whether the joystick timer is set, so that joystick ticks are delivered. */
    var controlArmed: bool

    /** Every input event injected so far, in order. */
    var events: seq<Event>

    /** Each latch is the state of its mouse button that the injected events
        leave behind, and those events never press a pressed button nor
        release a released one. */
    ghost predicate Valid()
      reads this
    {
      State(events, Left) == Some(aButton) && State(events, Right) == Some(bButton)
    }

    /** Startup: the desktop handles are captured, both latches are clear and
        the joystick timer is set. */
    constructor (desktop1: Handle, desktop2: Handle)
      ensures Valid()
      ensures desktopWindow1 == desktop1 && desktopWindow2 == desktop2
      ensures !aButton && !bButton && controlArmed && events == []
    {
      desktopWindow1, desktopWindow2 := desktop1, desktop2;
      aButton, bButton := false, false;
      controlArmed := true;
      events := [];
    }

    /** Sets the joystick timer (again, when it is already set). */
    method EnableControl()
      modifies this`controlArmed
      ensures controlArmed
    {
      controlArmed := true;
    }

    /** Kills the joystick timer. */
    method DisableControl()
      modifies this`controlArmed
      ensures !controlArmed
    {
      controlArmed := false;
    }

    /** Injects one absolute move to pixel position `p`, scaled by the desktop's size. */
    method MoveCursor(p: Point, desktop: Rect)
      requires Valid() && HasArea(desktop)
      modifies this`events
      ensures Valid()
      ensures events == old(events) + [MoveTo(p, desktop)]
    {
      StateIgnoresOthers(events, [MoveTo(p, desktop)], Left);
      StateIgnoresOthers(events, [MoveTo(p, desktop)], Right);
      events := events + [MoveTo(p, desktop)];
    }

    /** One step of the motion engine at threshold `thold`: each axis moves one
        pixel towards its deflection when that lies beyond the threshold, and
        one move is injected when any comparison fired. */
    method MoveCursorByXYMove(pos: Point, xPos: int, yPos: int, thold: int, desktop: Rect)
      returns (moved: Point)
      requires Valid() && HasArea(desktop)
      modifies this`events
      ensures Valid()
      ensures moved == Point(pos.x + AxisStep(Deflection(xPos), thold), pos.y + AxisStep(Deflection(yPos), thold))
      ensures events == old(events)
              + (if Moves(Deflection(xPos), Deflection(yPos), thold) then [MoveTo(moved, desktop)] else [])
    {
      var xDiff := Deflection(xPos);
      var yDiff := Deflection(yPos);
      var cursorMoved := false;
      moved := pos;
      if xDiff > thold {
        moved := moved.(x := moved.x + 1);
        cursorMoved := true;
      }
      if xDiff < -thold {
        moved := moved.(x := moved.x - 1);
        cursorMoved := true;
      }
      if yDiff > thold {
        moved := moved.(y := moved.y + 1);
        cursorMoved := true;
      }
      if yDiff < -thold {
        moved := moved.(y := moved.y - 1);
        cursorMoved := true;
      }
      if cursorMoved {
        MoveCursor(moved, desktop);
      }
    }

    /** One of the counting loops of the joystick tick: `for (i = lo; i < hi;
        i += step)` applies the step at threshold `i`. The ghost parameters
        carry what the earlier loops of the same tick did: they started at
        `cursor`, swept `visited` and found the log `log0`. */
    method SweepLoop(cursor: Point, pos: Point, xPos: int, yPos: int, lo: int, hi: int, step: int,
                     desktop: Rect, ghost visited: seq<int>, ghost log0: seq<Event>)
      returns (next: Point)
      requires Valid() && HasArea(desktop) && step > 0
      requires pos == Displace(cursor, Deflection(xPos), Deflection(yPos), visited)
      requires events == log0 + MoveTrail(cursor, Deflection(xPos), Deflection(yPos), visited, desktop)
      modifies this`events
      ensures Valid()
      ensures next == Displace(cursor, Deflection(xPos), Deflection(yPos), visited + Sweep(lo, hi, step))
      ensures events == log0 + MoveTrail(cursor, Deflection(xPos), Deflection(yPos), visited + Sweep(lo, hi, step), desktop)
    {
      ghost var dx, dy := Deflection(xPos), Deflection(yPos);
      ghost var done := visited;
      next := pos;
      var i := lo;
      while i < hi
        invariant Valid()
        invariant done + Sweep(i, hi, step) == visited + Sweep(lo, hi, step)
        invariant next == Displace(cursor, dx, dy, done)
        invariant events == log0 + MoveTrail(cursor, dx, dy, done, desktop)
        decreases hi - i
      {
        next := MoveCursorByXYMove(next, xPos, yPos, i, desktop);
        TrailStep(cursor, dx, dy, done, i, desktop);
        done := done + [i];
        i := i + step;
      }
      assert Sweep(i, hi, step) == [];
      assert done == visited + Sweep(lo, hi, step);
    }

    /** The joystick tick. When the poll fails nothing happens. Otherwise,
        starting from the live cursor position, the three loops apply one
        step per threshold of the table, then each button's latch is brought
        up to date with its bit, emitting a press or release on a change. */
    method ControlTick(sample: Option<Sample>, cursor: Point, desktop: Rect)
      requires Valid() && controlArmed && HasArea(desktop)
      modifies this`events, this`aButton, this`bButton
      ensures Valid()
      ensures sample.None? ==> events == old(events) && aButton == old(aButton) && bButton == old(bButton)
      ensures sample.Some? ==>
        var s := sample.value;
        var left, right := s.buttons & JOY_BUTTON1 != 0, s.buttons & JOY_BUTTON2 != 0;
        && events == old(events)
             + MoveTrail(cursor, Deflection(AsInt32(s.xPos)), Deflection(AsInt32(s.yPos)), Thresholds(), desktop)
             + Edge(left, old(aButton), Left) + Edge(right, old(bButton), Right)
        && aButton == left && bButton == right
    {
      if sample.None? {
        return;
      }
      var s := sample.value;
      var xPos, yPos := AsInt32(s.xPos), AsInt32(s.yPos);
      ghost var log0 := events;
      var pos := cursor;
      assert events == log0 + MoveTrail(cursor, Deflection(xPos), Deflection(yPos), [], desktop);
      pos := SweepLoop(cursor, pos, xPos, yPos, 10000, 20000, 2000, desktop, [], log0);
      assert [] + Sweep(10000, 20000, 2000) == Sweep(10000, 20000, 2000);
      pos := SweepLoop(cursor, pos, xPos, yPos, 20000, 30000, 1000, desktop, Sweep(10000, 20000, 2000), log0);
      pos := SweepLoop(cursor, pos, xPos, yPos, 30000, 32000, 500, desktop,
                       Sweep(10000, 20000, 2000) + Sweep(20000, 30000, 1000), log0);
      UpdateLatches(s.buttons);
    }

    /** The button edge tracker: each latch takes the value of its button bit,
        and a press or release is injected exactly when the latch changes. */
    method UpdateLatches(buttons: bv32)
      requires Valid()
      modifies this`events, this`aButton, this`bButton
      ensures Valid()
      ensures aButton == (buttons & JOY_BUTTON1 != 0) && bButton == (buttons & JOY_BUTTON2 != 0)
      ensures events == old(events) + Edge(buttons & JOY_BUTTON1 != 0, old(aButton), Left)
                                    + Edge(buttons & JOY_BUTTON2 != 0, old(bButton), Right)
    {
      ghost var log0 := events;
      if buttons & JOY_BUTTON1 != 0 {
        if !aButton {
          aButton := true;
          events := events + [Down(Left)];
        }
      } else {
        if aButton {
          aButton := false;
          events := events + [Up(Left)];
        }
      }
      ghost var leftEdge := events[|log0|..];
      assert events == log0 + leftEdge;
      StateIgnoresOthers(log0, leftEdge, Right);

      ghost var afterLeft := events;
      if buttons & JOY_BUTTON2 != 0 {
        if !bButton {
          bButton := true;
          events := events + [Down(Right)];
        }
      } else {
        if bButton {
          bButton := false;
          events := events + [Up(Right)];
        }
      }
      ghost var rightEdge := events[|afterLeft|..];
      assert events == afterLeft + rightEdge;
      StateIgnoresOthers(afterLeft, rightEdge, Left);
    }

    /** The game-check tick. A fullscreen game in the foreground gets the
        cursor parked at the desktop's bottom-right corner and the joystick
        timer killed; the desktop or any ordinary window gets the timer set. */
    method GameCheckTick(wnd: Handle, className: string, wndRect: Option<Rect>, desktop: Rect)
      requires Valid() && HasArea(desktop)
      modifies this`events, this`controlArmed
      ensures Valid() && aButton == old(aButton) && bButton == old(bButton)
      ensures Classify(wnd, desktopWindow1, desktopWindow2, className, wndRect, desktop) == FullscreenGame ==>
                events == old(events) + [MoveTo(Point(desktop.right, desktop.bottom), desktop)] && !controlArmed
      ensures Classify(wnd, desktopWindow1, desktopWindow2, className, wndRect, desktop) != FullscreenGame ==>
                events == old(events) && controlArmed
    {
      var isDesktop := wnd == desktopWindow1 || wnd == desktopWindow2;
      if !isDesktop {
        var buf := FetchedClass(className);
        isDesktop := buf == WORKER_W;
      }

      if !isDesktop {
        if wndRect.Some? {
          var rect := wndRect.value;
          if rect.left == desktop.left && rect.right == desktop.right
             && rect.top == desktop.top && rect.bottom == desktop.bottom {
            MoveCursor(Point(desktop.right, desktop.bottom), desktop);
            DisableControl();
            return;
          }
        }
      }
      EnableControl();
    }
  }
}
