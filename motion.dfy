/** The joystick-to-cursor motion engine: per-threshold steps, the threshold
    table swept by the joystick tick, the net displacement it produces, and the
    rescaling of pixel positions into the absolute coordinate space. */
module Motion {
  import opened Types

  /** The axis reading of a centred stick. */
  const CENTER := 32767

  /** Largest coordinate of the absolute pointer space. */
  const ABS_MAX := 65535

  /** The DWORD axis reading converted to the `int` parameter of
      moveCursorByXYMove (two's complement reinterpretation). */
  function AsInt32(d: Dword): (r: int)
    ensures -0x8000_0000 <= r < 0x8000_0000
    ensures d < 0x8000_0000 ==> r == d
  {
    if d < 0x8000_0000 then d else d - 0x1_0000_0000
  }

  /** Signed distance of an axis reading from the centre. */
  function Deflection(raw: int): int
  {
    raw - CENTER
  }

  function Abs(x: int): nat { if x < 0 then -x else x }

  function Sign(x: int): int { if x > 0 then 1 else if x < 0 then -1 else 0 }

  function Max(a: int, b: int): int { if a < b then b else a }

  // ---------------------------------------------------------------------------
  // One call of moveCursorByXYMove

  /** Pixels one axis moves at threshold `t`: one towards the deflection when it
      lies strictly beyond `t` on either side. */
  function AxisStep(diff: int, t: int): (r: int)
    ensures t >= 0 ==> (r == 1 <==> diff > t)
    ensures t >= 0 ==> (r == -1 <==> diff < -t)
    ensures t >= 0 ==> (r == 0 <==> -t <= diff <= t)
  {
    (if diff > t then 1 else 0) - (if diff < -t then 1 else 0)
  }

  /** The `cursorMoved` flag of one call: some comparison fired. */
  predicate Moves(dx: int, dy: int, t: int)
  {
    dx > t || dx < -t || dy > t || dy < -t
  }

  /** With a non-negative threshold, a call injects a move exactly when one of
      the two coordinates changes. */
  lemma MovesIffChanged(dx: int, dy: int, t: int)
    requires t >= 0
    ensures Moves(dx, dy, t) <==> AxisStep(dx, t) != 0 || AxisStep(dy, t) != 0
    ensures Moves(dx, dy, t) <==> Max(Abs(dx), Abs(dy)) > t
  {
  }

  // ---------------------------------------------------------------------------
  // The threshold table

  /** The values taken by `i` in `for (i = lo; i < hi; i += step)`. */
  function Sweep(lo: int, hi: int, step: int): (r: seq<int>)
    requires step > 0
    ensures forall v :: v in r ==> lo <= v < hi
    ensures lo < hi <==> |r| > 0
    decreases hi - lo
  {
    if lo < hi then [lo] + Sweep(lo + step, hi, step) else []
  }

  /** The thresholds visited, in order, by the three loops of one joystick tick. */
  function Thresholds(): (r: seq<int>)
    ensures r != [] && r[0] == 10000
    ensures forall t :: t in r ==> 10000 <= t < 32000
  {
    Sweep(10000, 20000, 2000) + Sweep(20000, 30000, 1000) + Sweep(30000, 32000, 500)
  }

  /** The three loops visit exactly these 19 thresholds. */
  lemma ThresholdTable()
    ensures Thresholds() ==
      [10000, 12000, 14000, 16000, 18000,
       20000, 21000, 22000, 23000, 24000, 25000, 26000, 27000, 28000, 29000,
       30000, 30500, 31000, 31500]
  {
  }

  /** The table is strictly ascending, has 19 entries, starts at 10000 and ends at 31500. */
  lemma ThresholdsAscending()
    ensures |Thresholds()| == 19
    ensures forall i, j :: 0 <= i < j < |Thresholds()| ==> Thresholds()[i] < Thresholds()[j]
    ensures Thresholds()[0] == 10000 && Thresholds()[18] == 31500
    ensures forall t :: t in Thresholds() ==> 10000 <= t <= 31500
  {
    ThresholdTable();
  }

  // ---------------------------------------------------------------------------
  // Net displacement of one tick

  /** Pixels one axis moves over the thresholds `ts`, applied in order. */
  function AxisTravel(diff: int, ts: seq<int>): (r: int)
    ensures -|ts| <= r <= |ts|
  {
    if ts == [] then 0 else AxisTravel(diff, ts[..|ts| - 1]) + AxisStep(diff, ts[|ts| - 1])
  }

  /** How many thresholds of `ts` the magnitude `m` strictly exceeds. */
  function Exceeded(m: int, ts: seq<int>): (r: nat)
    ensures r <= |ts|
  {
    if ts == [] then 0 else Exceeded(m, ts[..|ts| - 1]) + (if m > ts[|ts| - 1] then 1 else 0)
  }

  /** A point displaced, on each axis independently, by the thresholds `ts`. */
  function Displace(p: Point, dx: int, dy: int, ts: seq<int>): Point
  {
    Point(p.x + AxisTravel(dx, ts), p.y + AxisTravel(dy, ts))
  }

  /** Net pixels one axis moves in one tick for deflection `diff`. */
  function NetStep(diff: int): int
  {
    AxisTravel(diff, Thresholds())
  }

  lemma {:induction false} ExceededAppend(m: int, a: seq<int>, b: seq<int>)
    ensures Exceeded(m, a + b) == Exceeded(m, a) + Exceeded(m, b)
    decreases |b|
  {
    if b == [] {
      assert a + b == a;
    } else {
      assert (a + b)[..|a + b| - 1] == a + b[..|b| - 1];
      ExceededAppend(m, a, b[..|b| - 1]);
    }
  }

  /** A magnitude above every threshold exceeds them all. */
  lemma {:induction false} ExceededAll(m: int, ts: seq<int>)
    requires forall t :: t in ts ==> m > t
    ensures Exceeded(m, ts) == |ts|
    decreases |ts|
  {
    if ts != [] {
      var init := ts[..|ts| - 1];
      forall u | u in init ensures m > u { assert u in ts; }
      assert ts[|ts| - 1] in ts;
      ExceededAll(m, init);
    }
  }

  /** A magnitude at or below every threshold exceeds none. */
  lemma {:induction false} ExceededNone(m: int, ts: seq<int>)
    requires forall t :: t in ts ==> m <= t
    ensures Exceeded(m, ts) == 0
    decreases |ts|
  {
    if ts != [] {
      var init := ts[..|ts| - 1];
      forall u | u in init ensures m <= u { assert u in ts; }
      assert ts[|ts| - 1] in ts;
      ExceededNone(m, init);
    }
  }

  /** A larger magnitude exceeds at least as many thresholds. */
  lemma {:induction false} ExceededMonotone(m1: int, m2: int, ts: seq<int>)
    requires m1 <= m2
    ensures Exceeded(m1, ts) <= Exceeded(m2, ts)
    decreases |ts|
  {
    if ts != [] {
      ExceededMonotone(m1, m2, ts[..|ts| - 1]);
    }
  }

  /** Over non-negative thresholds, the travel is the count of thresholds the
      magnitude exceeds, signed like the deflection. */
  lemma {:induction false} TravelIsSignedCount(diff: int, ts: seq<int>)
    requires forall t :: t in ts ==> t >= 0
    ensures AxisTravel(diff, ts) == Sign(diff) * Exceeded(Abs(diff), ts)
    decreases |ts|
  {
    if ts != [] {
      var init, t := ts[..|ts| - 1], ts[|ts| - 1];
      assert forall u :: u in init ==> u in ts;
      TravelIsSignedCount(diff, init);
      assert t in ts;
    }
  }

  /** Net displacement is sign(diff) times the number of table thresholds |diff| exceeds. */
  lemma NetStepIsSignedCount(diff: int)
    ensures NetStep(diff) == Sign(diff) * Exceeded(Abs(diff), Thresholds())
  {
    ThresholdsAscending();
    TravelIsSignedCount(diff, Thresholds());
  }

  /** Net displacement lies in [-19, 19] and points the way the stick is deflected. */
  lemma NetStepBounds(diff: int)
    ensures -19 <= NetStep(diff) <= 19
    ensures diff >= 0 ==> NetStep(diff) >= 0
    ensures diff <= 0 ==> NetStep(diff) <= 0
  {
    NetStepIsSignedCount(diff);
    ThresholdsAscending();
  }

  /** No motion inside the dead zone |diff| <= 10000. */
  lemma NetStepDeadZone(diff: int)
    requires -10000 <= diff <= 10000
    ensures NetStep(diff) == 0
  {
    NetStepIsSignedCount(diff);
    ThresholdsAscending();
    ExceededNone(Abs(diff), Thresholds());
  }

  /** Full speed, 19 pixels, beyond the last threshold |diff| > 31500. */
  lemma NetStepSaturates(diff: int)
    requires diff > 31500 || diff < -31500
    ensures NetStep(diff) == 19 * Sign(diff)
  {
    NetStepIsSignedCount(diff);
    ThresholdsAscending();
    ExceededAll(Abs(diff), Thresholds());
  }

  /** Deflections of equal magnitude and opposite sign move opposite ways equally. */
  lemma NetStepOdd(diff: int)
    ensures NetStep(-diff) == -NetStep(diff)
  {
    NetStepIsSignedCount(diff);
    NetStepIsSignedCount(-diff);
  }

  /** Speed never decreases as the magnitude of the deflection grows. */
  lemma NetStepMonotoneInMagnitude(d1: int, d2: int)
    requires Abs(d1) <= Abs(d2)
    ensures Abs(NetStep(d1)) <= Abs(NetStep(d2))
  {
    NetStepIsSignedCount(d1);
    NetStepIsSignedCount(d2);
    ExceededMonotone(Abs(d1), Abs(d2), Thresholds());
  }

  /** Displacement is a non-decreasing function of the signed deflection. */
  lemma NetStepMonotone(d1: int, d2: int)
    requires d1 <= d2
    ensures NetStep(d1) <= NetStep(d2)
  {
    NetStepBounds(d1);
    NetStepBounds(d2);
    if d1 >= 0 {
      NetStepMonotoneInMagnitude(d1, d2);
    } else if d2 <= 0 {
      NetStepMonotoneInMagnitude(d2, d1);
    }
  }

  /** A centred stick does not move the cursor. */
  lemma NetStepAtCentre()
    ensures NetStep(Deflection(32767)) == 0
  {
    NetStepDeadZone(0);
  }

  /** Both extremes of the axis reach full speed. */
  lemma NetStepAtExtremes()
    ensures NetStep(Deflection(65535)) == 19
    ensures NetStep(Deflection(0)) == -19
  {
    NetStepSaturates(32768);
    NetStepSaturates(-32767);
  }

  /** A deflection of 25000 exceeds the ten thresholds 10000..18000 and 20000..24000. */
  lemma NetStepAt25000()
    ensures NetStep(Deflection(57767)) == 10
  {
    NetStepIsSignedCount(25000);
    ExceededAt25000();
  }

  lemma ExceededAt25000()
    ensures Exceeded(25000, Thresholds()) == 10
  {
    var below := [10000, 12000, 14000, 16000, 18000, 20000, 21000, 22000, 23000, 24000];
    var above := [25000, 26000, 27000, 28000, 29000, 30000, 30500, 31000, 31500];
    assert Thresholds() == below + above by {
      ThresholdTable();
    }
    ExceededAppend(25000, below, above);
    ExceededAll(25000, below);
    ExceededNone(25000, above);
  }

  // ---------------------------------------------------------------------------
  // moveCursor: pixel position to absolute coordinates

  /** C++ integer division, truncating toward zero, for a positive divisor. */
  function TruncDiv(a: int, b: int): int
    requires b > 0
  {
    if a >= 0 then a / b else -((-a) / b)
  }

  lemma DivMonotone(a1: int, a2: int, b: int)
    requires 0 <= a1 <= a2 && b > 0
    ensures a1 / b <= a2 / b
  {
    var q1, q2 := a1 / b, a2 / b;
    assert a1 == q1 * b + a1 % b;
    assert a2 == q2 * b + a2 % b;
    if q2 < q1 {
      MulMonotone(q2 + 1, q1, b);
    }
  }

  lemma MulMonotone(x: int, y: int, b: int)
    requires x <= y && b > 0
    ensures x * b <= y * b
  {
  }

  lemma TruncDivMonotone(a1: int, a2: int, b: int)
    requires a1 <= a2 && b > 0
    ensures TruncDiv(a1, b) <= TruncDiv(a2, b)
  {
    if a1 >= 0 {
      DivMonotone(a1, a2, b);
    } else if a2 < 0 {
      DivMonotone(-a2, -a1, b);
    } else {
      DivMonotone(0, -a1, b);
      DivMonotone(0, a2, b);
    }
  }

  /** `v * 65535 / extent`, the scaling moveCursor applies to each coordinate. */
  function Scale(v: int, extent: int): int
    requires extent > 0
  {
    TruncDiv(v * ABS_MAX, extent)
  }

  /** The scaling is monotone in the pixel coordinate. */
  lemma ScaleMonotone(v1: int, v2: int, extent: int)
    requires extent > 0 && v1 <= v2
    ensures Scale(v1, extent) <= Scale(v2, extent)
  {
    TruncDivMonotone(v1 * ABS_MAX, v2 * ABS_MAX, extent);
  }

  /** 0 maps to 0, the full extent maps to 65535, and every pixel between maps
      into [0, 65535]. */
  lemma ScaleRange(v: int, extent: int)
    requires extent > 0 && 0 <= v <= extent
    ensures Scale(0, extent) == 0
    ensures Scale(extent, extent) == ABS_MAX
    ensures 0 <= Scale(v, extent) <= ABS_MAX
  {
    MulDivCancel(ABS_MAX, extent);
    ScaleMonotone(0, v, extent);
    ScaleMonotone(v, extent, extent);
  }

  lemma MulDivCancel(k: nat, b: int)
    requires b > 0
    ensures (k * b) / b == k
  {
    var q, r := (k * b) / b, (k * b) % b;
    assert k * b == q * b + r;
    assert (k - q) * b == r;
    if k - q >= 1 {
      MulMonotone(1, k - q, b);
    } else if k - q <= -1 {
      MulMonotone(k - q, -1, b);
    }
  }

  /** Truncation makes the scaling odd: a position left of the origin maps to
      the negation of its mirror image (a floor division would not). */
  lemma ScaleOdd(v: int, extent: int)
    requires extent > 0
    ensures Scale(-v, extent) == -Scale(v, extent)
  {
  }

  /** The absolute move moveCursor injects for pixel position `p`, scaled by
      the desktop's width and height. */
  function MoveTo(p: Point, desktop: Rect): Event
    requires HasArea(desktop)
  {
    Move(Scale(p.x, desktop.right - desktop.left), Scale(p.y, desktop.bottom - desktop.top))
  }

  // ---------------------------------------------------------------------------
  // The moves injected during one tick

  /** The absolute moves injected while sweeping the thresholds `ts` from `p`:
      one per call whose comparisons fired, to the position after that call. */
  function MoveTrail(p: Point, dx: int, dy: int, ts: seq<int>, desktop: Rect): (r: seq<Event>)
    requires HasArea(desktop)
    ensures forall e :: e in r ==> e.Move?
    ensures |r| <= |ts|
  {
    if ts == [] then []
    else
      MoveTrail(p, dx, dy, ts[..|ts| - 1], desktop)
      + (if Moves(dx, dy, ts[|ts| - 1]) then [MoveTo(Displace(p, dx, dy, ts), desktop)] else [])
  }

  /** Sweeping one more threshold `t` moves each axis by its step at `t` and
      extends the trail by the move of that call, if any. */
  lemma TrailStep(p: Point, dx: int, dy: int, ts: seq<int>, t: int, desktop: Rect)
    requires HasArea(desktop)
    ensures Displace(p, dx, dy, ts + [t])
            == Point(Displace(p, dx, dy, ts).x + AxisStep(dx, t), Displace(p, dx, dy, ts).y + AxisStep(dy, t))
    ensures MoveTrail(p, dx, dy, ts + [t], desktop)
            == MoveTrail(p, dx, dy, ts, desktop)
               + (if Moves(dx, dy, t) then [MoveTo(Displace(p, dx, dy, ts + [t]), desktop)] else [])
  {
  }

  /** Over non-negative thresholds, one move is injected for each threshold the
      larger of the two deflection magnitudes exceeds. */
  lemma {:induction false} MoveTrailCount(p: Point, dx: int, dy: int, ts: seq<int>, desktop: Rect)
    requires HasArea(desktop)
    requires forall t :: t in ts ==> t >= 0
    ensures |MoveTrail(p, dx, dy, ts, desktop)| == Exceeded(Max(Abs(dx), Abs(dy)), ts)
    decreases |ts|
  {
    if ts != [] {
      var init, t := ts[..|ts| - 1], ts[|ts| - 1];
      assert forall u :: u in init ==> u in ts;
      MoveTrailCount(p, dx, dy, init, desktop);
      assert t in ts;
      MovesIffChanged(dx, dy, t);
    }
  }

  /** Over non-negative thresholds, the last move injected goes to the final
      displaced position. */
  lemma {:induction false} MoveTrailEndsAtTarget(p: Point, dx: int, dy: int, ts: seq<int>, desktop: Rect)
    requires HasArea(desktop)
    requires forall t :: t in ts ==> t >= 0
    requires MoveTrail(p, dx, dy, ts, desktop) != []
    ensures MoveTrail(p, dx, dy, ts, desktop)[|MoveTrail(p, dx, dy, ts, desktop)| - 1]
            == MoveTo(Displace(p, dx, dy, ts), desktop)
    decreases |ts|
  {
    var init, t := ts[..|ts| - 1], ts[|ts| - 1];
    if !Moves(dx, dy, t) {
      assert forall u :: u in init ==> u in ts;
      assert t in ts;
      MovesIffChanged(dx, dy, t);
      MoveTrailEndsAtTarget(p, dx, dy, init, desktop);
    }
  }

  /** A magnitude above some threshold exceeds at least one. */
  lemma {:induction false} ExceededSome(m: int, ts: seq<int>, k: nat)
    requires k < |ts| && m > ts[k]
    ensures Exceeded(m, ts) >= 1
    decreases |ts|
  {
    if k < |ts| - 1 {
      ExceededSome(m, ts[..|ts| - 1], k);
    }
  }

  /** A tick injects no move at all exactly when both deflections lie in the
      dead zone |diff| <= 10000. */
  lemma TickInjectsNothingIffCentred(p: Point, dx: int, dy: int, desktop: Rect)
    requires HasArea(desktop)
    ensures MoveTrail(p, dx, dy, Thresholds(), desktop) == []
            <==> -10000 <= dx <= 10000 && -10000 <= dy <= 10000
  {
    ThresholdsAscending();
    var ts := Thresholds();
    var m := Max(Abs(dx), Abs(dy));
    MoveTrailCount(p, dx, dy, ts, desktop);
    if m <= 10000 {
      ExceededNone(m, ts);
    } else {
      ExceededSome(m, ts, 0);
    }
  }

  /** The last move a tick injects goes to the cursor position displaced by the
      net step of each axis. */
  lemma TickEndsAtNetStep(p: Point, dx: int, dy: int, desktop: Rect)
    requires HasArea(desktop)
    ensures var trail := MoveTrail(p, dx, dy, Thresholds(), desktop);
            trail != [] ==> trail[|trail| - 1] == MoveTo(Point(p.x + NetStep(dx), p.y + NetStep(dy)), desktop)
  {
    var ts := Thresholds();
    assert forall t :: t in ts ==> t >= 0 by {
      ThresholdsAscending();
    }
    if MoveTrail(p, dx, dy, ts, desktop) != [] {
      MoveTrailEndsAtTarget(p, dx, dy, ts, desktop);
    }
  }
}
