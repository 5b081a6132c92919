/** The button edge tracker: a latch per button turns the sampled button bits
    into press and release events, emitted only on transitions. */
module Buttons {
  import opened Types

  /** The events one joystick tick emits for button `b`, given the sampled bit
      and the latch left by the previous tick. */
  function Edge(pressed: bool, latch: bool, b: Button): (r: seq<Event>)
    ensures r == [] <==> pressed == latch
    ensures r == [Down(b)] <==> pressed && !latch
    ensures r == [Up(b)] <==> !pressed && latch
  {
    if pressed && !latch then [Down(b)]
    else if !pressed && latch then [Up(b)]
    else []
  }

  /** Replays an event log for button `b`, starting released: the button's state
      after the log when its presses and releases alternate, beginning with a
      press; None when the log presses a pressed button or releases a released one. */
  function State(log: seq<Event>, b: Button): Option<bool>
  {
    if log == [] then Some(false)
    else
      match State(log[..|log| - 1], b)
      case None => None
      case Some(down) =>
        var e := log[|log| - 1];
        if e == Down(b) then (if down then None else Some(true))
        else if e == Up(b) then (if down then Some(false) else None)
        else Some(down)
  }

  /** Events that are not presses or releases of `b` leave its state alone. */
  lemma {:induction false} StateIgnoresOthers(log: seq<Event>, more: seq<Event>, b: Button)
    requires forall e :: e in more ==> e != Down(b) && e != Up(b)
    ensures State(log + more, b) == State(log, b)
    decreases |more|
  {
    if more == [] {
      assert log + more == log;
    } else {
      var init := more[..|more| - 1];
      assert (log + more)[..|log + more| - 1] == log + init;
      forall e | e in init ensures e != Down(b) && e != Up(b) { assert e in more; }
      assert more[|more| - 1] in more;
      StateIgnoresOthers(log, init, b);
    }
  }

  /** An edge emitted against a latch that agrees with the log keeps the log
      alternating, and the replayed state becomes the sampled bit. */
  lemma EdgeKeepsAlternation(log: seq<Event>, pressed: bool, latch: bool, b: Button)
    requires State(log, b) == Some(latch)
    ensures State(log + Edge(pressed, latch, b), b) == Some(pressed)
  {
    var e := Edge(pressed, latch, b);
    if e == [] {
      assert log + e == log;
    } else {
      assert (log + e)[..|log + e| - 1] == log;
    }
  }

  /** The latch after a run of ticks: the last sampled bit, or the initial
      latch when there were none. */
  function Final(latch: bool, bits: seq<bool>): bool
  {
    if bits == [] then latch else bits[|bits| - 1]
  }

  /** The events emitted by a run of ticks sampling the bits `bits` in order,
      starting from latch `latch`. */
  function Run(latch: bool, bits: seq<bool>, b: Button): (r: seq<Event>)
    ensures |r| <= |bits|
    ensures forall e :: e in r ==> e == Down(b) || e == Up(b)
  {
    if bits == [] then []
    else
      var init := bits[..|bits| - 1];
      Run(latch, init, b) + Edge(bits[|bits| - 1], Final(latch, init), b)
  }

  /** Every run keeps the log alternating: after it the replayed state is the final latch. */
  lemma {:induction false} RunKeepsAlternation(log: seq<Event>, latch: bool, bits: seq<bool>, b: Button)
    requires State(log, b) == Some(latch)
    ensures State(log + Run(latch, bits, b), b) == Some(Final(latch, bits))
    decreases |bits|
  {
    if bits != [] {
      var init := bits[..|bits| - 1];
      RunKeepsAlternation(log, latch, init, b);
      EdgeKeepsAlternation(log + Run(latch, init, b), bits[|bits| - 1], Final(latch, init), b);
      assert log + Run(latch, bits, b)
          == (log + Run(latch, init, b)) + Edge(bits[|bits| - 1], Final(latch, init), b);
    } else {
      assert log + Run(latch, bits, b) == log;
    }
  }

  /** Holding a released button for n >= 1 ticks emits exactly one press. */
  lemma {:induction false} HoldEmitsOnePress(n: nat, b: Button)
    requires n >= 1
    ensures Run(false, seq(n, _ => true), b) == [Down(b)]
  {
    if n > 1 {
      HoldEmitsOnePress(n - 1, b);
      assert seq(n, _ => true)[..n - 1] == seq(n - 1, _ => true);
    } else {
      assert seq(n, _ => true)[..0] == [];
    }
  }

  /** While the bit stays equal to the latch, nothing is emitted. */
  lemma {:induction false} SteadyEmitsNothing(latch: bool, n: nat, b: Button)
    ensures Run(latch, seq(n, _ => latch), b) == []
  {
    if n > 0 {
      SteadyEmitsNothing(latch, n - 1, b);
      assert seq(n, _ => latch)[..n - 1] == seq(n - 1, _ => latch);
    }
  }

  /** A release after holding emits exactly one release: press, hold, release
      gives one press and then one release, in that order. */
  lemma PressHoldRelease(n: nat, b: Button)
    requires n >= 1
    ensures Run(false, seq(n, _ => true) + [false], b) == [Down(b), Up(b)]
  {
    var bits := seq(n, _ => true) + [false];
    assert bits[..|bits| - 1] == seq(n, _ => true);
    HoldEmitsOnePress(n, b);
  }
}
