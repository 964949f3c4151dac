/** Wheel scrolling: deltas accumulate per axis and every threshold crossed is one click, a
    press and release of X11 button 4 or 5 (vertical) or 6 or 7 (horizontal). */
module Wheel {

  const WHEEL_THRESHOLD := 15.0

  datatype InputEvent =
    | MotionNotify(x: int, y: int, state: int)
    | ButtonPress(button: int, x: int, y: int, state: int)
    | ButtonRelease(button: int, x: int, y: int, state: int)

  datatype Accumulator = Accumulator(accX: real, accY: real)

  const Rest := Accumulator(0.0, 0.0)

  /** One browser wheel event, in canvas coordinates, with the X11 button mask. */
  datatype WheelEvent = WheelEvent(deltaX: real, deltaY: real, x: int, y: int, buttons: int)

  function Abs(r: real): real {
    if r < 0.0 then -r else r
  }

  /** Thresholds crossed by an accumulated delta, rounded toward zero and signed. */
  function Clicks(acc: real, t: real): int
    requires t > 0.0
  {
    if acc < 0.0 then -((-acc) / t).Floor else (acc / t).Floor
  }

  function Residual(acc: real, t: real): real
    requires t > 0.0
  {
    acc - t * Clicks(acc, t) as real
  }

  function AbsInt(n: int): nat {
    if n < 0 then -n else n
  }

  /** n clicks of one button. */
  function Pulses(n: nat, button: int, e: WheelEvent): seq<InputEvent> {
    if n == 0 then []
    else
      [ButtonPress(button, e.x, e.y, e.buttons), ButtonRelease(button, e.x, e.y, e.buttons)] +
      Pulses(n - 1, button, e)
  }

  function AxisPulses(acc: real, t: real, positive: int, negative: int, e: WheelEvent): seq<InputEvent>
    requires t > 0.0
  {
    Pulses(AbsInt(Clicks(acc, t)), if acc > 0.0 then positive else negative, e)
  }

  function Events(s: Accumulator, e: WheelEvent, t: real): seq<InputEvent>
    requires t > 0.0
  {
    var accY, accX := s.accY + e.deltaY, s.accX + e.deltaX;
    (if Abs(accY) >= t || Abs(accX) >= t then [MotionNotify(e.x, e.y, e.buttons)] else []) +
    AxisPulses(accY, t, 5, 4, e) +
    AxisPulses(accX, t, 7, 6, e)
  }

  function Next(s: Accumulator, e: WheelEvent, t: real): Accumulator
    requires t > 0.0
  {
    Accumulator(Residual(s.accX + e.deltaX, t), Residual(s.accY + e.deltaY, t))
  }

  // ---------- one axis ----------

  lemma DivUnique(a: real, t: real, q: real)
    requires t > 0.0 && q * t == a
    ensures a / t == q
  {
    var r := a / t;
    assert r * t == a;
    assert (r - q) * t == 0.0;
  }

  lemma DivStep(a: real, t: real)
    requires t > 0.0
    ensures (a - t) / t == a / t - 1.0
    ensures a >= t <==> a / t >= 1.0
    ensures a >= 0.0 <==> a / t >= 0.0
  {
    var q := a / t;
    assert q * t == a;
    DivUnique(a - t, t, q - 1.0);
  }

  lemma FloorTimes(a: real, t: real)
    requires t > 0.0 && a >= 0.0
    ensures 0.0 <= a - t * (a / t).Floor as real < t
  {
    var q := a / t;
    assert q * t == a;
    var f := q.Floor as real;
    assert f <= q < f + 1.0;
    MulMono(f, q, t);
    MulMonoStrict(q, f + 1.0, t);
  }

  lemma MulMono(a: real, b: real, t: real)
    requires a <= b && t > 0.0
    ensures t * a <= t * b
  {
  }

  lemma MulMonoStrict(a: real, b: real, t: real)
    requires a < b && t > 0.0
    ensures t * a < t * b
  {
  }

  /** What is left is below one threshold and has not changed direction. */
  lemma ResidualSmall(acc: real, t: real)
    requires t > 0.0
    ensures Abs(Residual(acc, t)) < t
    ensures acc >= 0.0 ==> Residual(acc, t) >= 0.0 && Clicks(acc, t) >= 0
    ensures acc <= 0.0 ==> Residual(acc, t) <= 0.0 && Clicks(acc, t) <= 0
  {
    if acc < 0.0 {
      FloorTimes(-acc, t);
      DivStep(-acc, t);
    } else {
      FloorTimes(acc, t);
      DivStep(acc, t);
    }
  }

  /** One turn of the loop takes one click off. */
  lemma ClickStep(acc: real, t: real)
    requires t > 0.0 && Abs(acc) >= t
    ensures acc > 0.0 ==> Clicks(acc, t) == Clicks(acc - t, t) + 1 && acc - t >= 0.0
    ensures acc <= 0.0 ==> Clicks(acc, t) == Clicks(acc + t, t) - 1 && acc + t <= 0.0
    ensures Residual(acc, t) == Residual(if acc > 0.0 then acc - t else acc + t, t)
  {
    if acc > 0.0 {
      DivStep(acc, t);
      FloorMinusOne(acc / t);
    } else {
      DivStep(-acc, t);
      FloorMinusOne((-acc) / t);
      assert -acc - t == -(acc + t);
      assert acc + t == 0.0 ==> (acc + t) / t == 0.0;
    }
  }

  lemma FloorMinusOne(q: real)
    ensures (q - 1.0).Floor == q.Floor - 1
  {
  }

  lemma NoClick(acc: real, t: real)
    requires t > 0.0 && Abs(acc) < t
    ensures Clicks(acc, t) == 0
  {
    DivStep(acc, t);
    DivStep(-acc, t);
  }

  // ---------- the accumulator ----------

  class WheelInput {
    var accX: real
    var accY: real

    ghost function View(): Accumulator
      reads this
    {
      Accumulator(accX, accY)
    }

    constructor ()
      ensures View() == Rest
    {
      accX, accY := 0.0, 0.0;
    }

    /** Feeds one wheel event. The loops terminate because the threshold is positive. */
    method OnWheel(e: WheelEvent, threshold: real := WHEEL_THRESHOLD) returns (events: seq<InputEvent>)
      requires threshold > 0.0
      modifies this
      ensures View() == Next(old(View()), e, threshold)
      ensures events == Events(old(View()), e, threshold)
    {
      accY := accY + e.deltaY;
      accX := accX + e.deltaX;
      events := [];
      if Abs(accY) >= threshold || Abs(accX) >= threshold {
        events := [MotionNotify(e.x, e.y, e.buttons)];
      }
      var pulsesY, restY := DrainAxis(accY, threshold, 5, 4, e);
      events, accY := events + pulsesY, restY;
      var pulsesX, restX := DrainAxis(accX, threshold, 7, 6, e);
      events, accX := events + pulsesX, restX;
    }
  }

  /** The threshold loop of one axis. */
  method DrainAxis(start: real, threshold: real, positive: int, negative: int, e: WheelEvent)
    returns (events: seq<InputEvent>, acc: real)
    requires threshold > 0.0
    ensures events == AxisPulses(start, threshold, positive, negative, e)
    ensures acc == Residual(start, threshold)
  {
    events, acc := [], start;
    ghost var done := 0;
    ghost var side := if start > 0.0 then positive else negative;
    while Abs(acc) >= threshold
      invariant events == Pulses(done, side, e)
      invariant if start > 0.0 then acc >= 0.0 else acc <= 0.0
      invariant done + AbsInt(Clicks(acc, threshold)) == AbsInt(Clicks(start, threshold))
      invariant Residual(acc, threshold) == Residual(start, threshold)
      decreases AbsInt(Clicks(acc, threshold))
    {
      ClickStep(acc, threshold);
      ResidualSmall(acc, threshold);
      var button := if acc > 0.0 then positive else negative;
      events := events + [ButtonPress(button, e.x, e.y, e.buttons)];
      events := events + [ButtonRelease(button, e.x, e.y, e.buttons)];
      PulsesSnoc(done, side, e);
      acc := if acc > 0.0 then acc - threshold else acc + threshold;
      done := done + 1;
      ResidualSmall(acc, threshold);
    }
    NoClick(acc, threshold);
  }

  lemma {:induction false} PulsesSnoc(n: nat, button: int, e: WheelEvent)
    ensures Pulses(n + 1, button, e) ==
            Pulses(n, button, e) +
            [ButtonPress(button, e.x, e.y, e.buttons)] + [ButtonRelease(button, e.x, e.y, e.buttons)]
  {
    if n > 0 {
      PulsesSnoc(n - 1, button, e);
    }
  }

  // ---------- what one event emits ----------

  /** How often a delta crosses the threshold, whatever its direction. */
  function Crossings(acc: real, t: real): int
    requires t > 0.0
  {
    ((if acc < 0.0 then -acc else acc) / t).Floor
  }

  /** The i-th event of a series of clicks: a press, a release, a press, and so on. */
  function Alternating(i: nat, button: int, e: WheelEvent): InputEvent {
    if i % 2 == 0 then ButtonPress(button, e.x, e.y, e.buttons) else ButtonRelease(button, e.x, e.y, e.buttons)
  }

  /** n clicks of one button. */
  ghost predicate IsClicks(series: seq<InputEvent>, n: int, button: int, e: WheelEvent) {
    |series| == 2 * n && forall i :: 0 <= i < |series| ==> series[i] == Alternating(i, button, e)
  }

  lemma {:induction false} PulsesAlternate(n: nat, button: int, e: WheelEvent)
    ensures IsClicks(Pulses(n, button, e), n, button, e)
  {
    if n > 0 {
      PulsesAlternate(n - 1, button, e);
      forall i | 2 <= i < 2 * n
        ensures Pulses(n, button, e)[i] == Alternating(i, button, e)
      {
        assert Pulses(n, button, e)[i] == Pulses(n - 1, button, e)[i - 2];
        assert (i - 2) % 2 == i % 2;
      }
    }
  }

  lemma AxisAlternates(acc: real, t: real, positive: int, negative: int, e: WheelEvent)
    requires t > 0.0
    ensures Crossings(acc, t) >= 0 && (Crossings(acc, t) > 0 <==> Abs(acc) >= t)
    ensures IsClicks(AxisPulses(acc, t, positive, negative, e), Crossings(acc, t),
                     if acc > 0.0 then positive else negative, e)
  {
    DivStep(acc, t);
    DivStep(-acc, t);
    PulsesAlternate(AbsInt(Clicks(acc, t)), if acc > 0.0 then positive else negative, e);
  }

  /** One wheel event emits nothing below the threshold on both axes. Otherwise it emits the pointer's
      position, then one press and release per vertical crossing, of button 5 down or 4 up, then one
      per horizontal crossing, of button 7 right or 6 left, all at the event's place and with its
      button state. */
  lemma EventsExact(s: Accumulator, e: WheelEvent, t: real)
    requires t > 0.0
    ensures var down, right := s.accY + e.deltaY, s.accX + e.deltaX;
            var v, h, events := Crossings(down, t), Crossings(right, t), Events(s, e, t);
            && v >= 0 && h >= 0
            && (v == 0 && h == 0 ==> events == [])
            && (v > 0 || h > 0 ==>
                  && |events| == 1 + 2 * v + 2 * h
                  && events[0] == MotionNotify(e.x, e.y, e.buttons)
                  && IsClicks(events[1..1 + 2 * v], v, if down > 0.0 then 5 else 4, e)
                  && IsClicks(events[1 + 2 * v..], h, if right > 0.0 then 7 else 6, e))
  {
    var down, right, events := s.accY + e.deltaY, s.accX + e.deltaX, Events(s, e, t);
    AxisAlternates(down, t, 5, 4, e);
    AxisAlternates(right, t, 7, 6, e);
    var v := Crossings(down, t);
    if v > 0 || Crossings(right, t) > 0 {
      assert events[1..1 + 2 * v] == AxisPulses(down, t, 5, 4, e);
      assert events[1 + 2 * v..] == AxisPulses(right, t, 7, 6, e);
    }
  }

  /** The default threshold: a scroll of less than 15 from rest emits nothing, one of 15 does. */
  lemma DefaultThreshold(e: WheelEvent)
    ensures Events(Rest, e, WHEEL_THRESHOLD) == [] <==> -15.0 < e.deltaX < 15.0 && -15.0 < e.deltaY < 15.0
  {
    EventsExact(Rest, e, WHEEL_THRESHOLD);
    AxisAlternates(e.deltaX, WHEEL_THRESHOLD, 7, 6, e);
    AxisAlternates(e.deltaY, WHEEL_THRESHOLD, 5, 4, e);
  }

  // ---------- whole runs ----------

  function RunState(s: Accumulator, run: seq<WheelEvent>, t: real): Accumulator
    requires t > 0.0
    decreases |run|
  {
    if run == [] then s else RunState(Next(s, run[0], t), run[1..], t)
  }

  function RunEvents(s: Accumulator, run: seq<WheelEvent>, t: real): seq<InputEvent>
    requires t > 0.0
    decreases |run|
  {
    if run == [] then [] else Events(s, run[0], t) + RunEvents(Next(s, run[0], t), run[1..], t)
  }

  function Presses(events: seq<InputEvent>, button: int): nat {
    if events == [] then 0
    else (if events[0].ButtonPress? && events[0].button == button then 1 else 0) + Presses(events[1..], button)
  }

  /** Clicks down minus clicks up. */
  function NetY(events: seq<InputEvent>): int {
    Presses(events, 5) - Presses(events, 4)
  }

  /** Clicks right minus clicks left. */
  function NetX(events: seq<InputEvent>): int {
    Presses(events, 7) - Presses(events, 6)
  }

  /** The deltas of a run on one axis. */
  function DeltasX(run: seq<WheelEvent>): seq<real> {
    if run == [] then [] else [run[0].deltaX] + DeltasX(run[1..])
  }

  function DeltasY(run: seq<WheelEvent>): seq<real> {
    if run == [] then [] else [run[0].deltaY] + DeltasY(run[1..])
  }

  function Total(deltas: seq<real>): real {
    if deltas == [] then 0.0 else deltas[0] + Total(deltas[1..])
  }

  /** The accumulator of one axis, and its net clicks, after some deltas. */
  function AxisState(acc: real, deltas: seq<real>, t: real): real
    requires t > 0.0
    decreases |deltas|
  {
    if deltas == [] then acc else AxisState(Residual(acc + deltas[0], t), deltas[1..], t)
  }

  function AxisNet(acc: real, deltas: seq<real>, t: real): int
    requires t > 0.0
    decreases |deltas|
  {
    if deltas == [] then 0
    else Clicks(acc + deltas[0], t) + AxisNet(Residual(acc + deltas[0], t), deltas[1..], t)
  }

  lemma {:induction false} PressesConcat(a: seq<InputEvent>, b: seq<InputEvent>, button: int)
    ensures Presses(a + b, button) == Presses(a, button) + Presses(b, button)
  {
    if a == [] {
      assert a + b == b;
    } else {
      PressesConcat(a[1..], b, button);
      assert (a + b)[1..] == a[1..] + b;
    }
  }

  lemma {:induction false} PressesPulses(n: nat, button: int, e: WheelEvent, counted: int)
    ensures Presses(Pulses(n, button, e), counted) == if button == counted then n else 0
  {
    if n > 0 {
      var one := [ButtonPress(button, e.x, e.y, e.buttons), ButtonRelease(button, e.x, e.y, e.buttons)];
      PressesConcat(one, Pulses(n - 1, button, e), counted);
      assert one[1..][1..] == [];
      PressesPulses(n - 1, button, e, counted);
    }
  }

  lemma AxisPresses(acc: real, t: real, positive: int, negative: int, e: WheelEvent, counted: int)
    requires t > 0.0 && positive != negative
    ensures Presses(AxisPulses(acc, t, positive, negative, e), counted) ==
            if counted == positive && acc > 0.0 then Clicks(acc, t)
            else if counted == negative && acc <= 0.0 then -Clicks(acc, t)
            else 0
  {
    ResidualSmall(acc, t);
    PressesPulses(AbsInt(Clicks(acc, t)), if acc > 0.0 then positive else negative, e, counted);
  }

  /** The presses one wheel event emits, button by button. */
  lemma EventPresses(s: Accumulator, e: WheelEvent, t: real, counted: int)
    requires t > 0.0
    ensures Presses(Events(s, e, t), counted) ==
            Presses(AxisPulses(s.accY + e.deltaY, t, 5, 4, e), counted) +
            Presses(AxisPulses(s.accX + e.deltaX, t, 7, 6, e), counted)
  {
    var accY, accX := s.accY + e.deltaY, s.accX + e.deltaX;
    var motion := if Abs(accY) >= t || Abs(accX) >= t then [MotionNotify(e.x, e.y, e.buttons)] else [];
    var py, px := AxisPulses(accY, t, 5, 4, e), AxisPulses(accX, t, 7, 6, e);
    PressesConcat(motion + py, px, counted);
    PressesConcat(motion, py, counted);
  }

  lemma EventNet(s: Accumulator, e: WheelEvent, t: real)
    requires t > 0.0
    ensures NetY(Events(s, e, t)) == Clicks(s.accY + e.deltaY, t)
    ensures NetX(Events(s, e, t)) == Clicks(s.accX + e.deltaX, t)
  {
    var accY, accX := s.accY + e.deltaY, s.accX + e.deltaX;
    EventPresses(s, e, t, 4);
    EventPresses(s, e, t, 5);
    EventPresses(s, e, t, 6);
    EventPresses(s, e, t, 7);
    AxisPresses(accY, t, 5, 4, e, 4);
    AxisPresses(accY, t, 5, 4, e, 5);
    AxisPresses(accY, t, 5, 4, e, 6);
    AxisPresses(accY, t, 5, 4, e, 7);
    AxisPresses(accX, t, 7, 6, e, 4);
    AxisPresses(accX, t, 7, 6, e, 5);
    AxisPresses(accX, t, 7, 6, e, 6);
    AxisPresses(accX, t, 7, 6, e, 7);
  }

  lemma RunNet(s: Accumulator, run: seq<WheelEvent>, t: real)
    requires t > 0.0 && run != []
    ensures var rest := RunEvents(Next(s, run[0], t), run[1..], t);
            && NetY(RunEvents(s, run, t)) == Clicks(s.accY + run[0].deltaY, t) + NetY(rest)
            && NetX(RunEvents(s, run, t)) == Clicks(s.accX + run[0].deltaX, t) + NetX(rest)
  {
    var first, rest := Events(s, run[0], t), RunEvents(Next(s, run[0], t), run[1..], t);
    EventNet(s, run[0], t);
    PressesConcat(first, rest, 4);
    PressesConcat(first, rest, 5);
    PressesConcat(first, rest, 6);
    PressesConcat(first, rest, 7);
  }

  /** Threshold times clicks plus remainder equals what came in. */
  predicate Balanced(t: real, clicks: int, left: real, came: real) {
    t * clicks as real + left == came
  }

  /** Balances add up along a run. */
  lemma BalancedStep(t: real, first: int, later: int, acc: real, left: real, total: real)
    requires Balanced(t, later, left, acc - t * first as real + total)
    ensures Balanced(t, first + later, left, acc + total)
  {
    assert (first + later) as real == first as real + later as real;
    assert t * (first as real + later as real) == t * first as real + t * later as real;
  }

  lemma {:induction false} AxisConservation(acc: real, deltas: seq<real>, t: real)
    requires t > 0.0
    ensures Balanced(t, AxisNet(acc, deltas, t), AxisState(acc, deltas, t), acc + Total(deltas))
    decreases |deltas|
  {
    if deltas != [] {
      var came := acc + deltas[0];
      var left := Residual(came, t);
      AxisConservation(left, deltas[1..], t);
      BalancedStep(t, Clicks(came, t), AxisNet(left, deltas[1..], t),
                   came, AxisState(left, deltas[1..], t), Total(deltas[1..]));
    }
  }

  /** A run is its two axes side by side. */
  lemma {:induction false} RunIsAxes(s: Accumulator, run: seq<WheelEvent>, t: real)
    requires t > 0.0
    ensures RunState(s, run, t) == Accumulator(AxisState(s.accX, DeltasX(run), t), AxisState(s.accY, DeltasY(run), t))
    ensures NetX(RunEvents(s, run, t)) == AxisNet(s.accX, DeltasX(run), t)
    ensures NetY(RunEvents(s, run, t)) == AxisNet(s.accY, DeltasY(run), t)
    decreases |run|
  {
    if run != [] {
      RunNet(s, run, t);
      RunIsAxes(Next(s, run[0], t), run[1..], t);
    }
  }

  /** Conservation over every run: on each axis, threshold times the net clicks emitted, plus
      what is left in the accumulator, is everything that was scrolled. */
  lemma Conservation(s: Accumulator, run: seq<WheelEvent>, t: real)
    requires t > 0.0
    ensures Balanced(t, NetY(RunEvents(s, run, t)), RunState(s, run, t).accY, s.accY + Total(DeltasY(run)))
    ensures Balanced(t, NetX(RunEvents(s, run, t)), RunState(s, run, t).accX, s.accX + Total(DeltasX(run)))
  {
    RunIsAxes(s, run, t);
    AxisConservation(s.accY, DeltasY(run), t);
    AxisConservation(s.accX, DeltasX(run), t);
  }

  /** All on one side of zero. */
  ghost predicate OneSided(acc: real, deltas: seq<real>, positive: bool) {
    if positive then acc >= 0.0 && forall i :: 0 <= i < |deltas| ==> deltas[i] >= 0.0
    else acc <= 0.0 && forall i :: 0 <= i < |deltas| ==> deltas[i] <= 0.0
  }

  lemma {:induction false} StaysOnSide(acc: real, deltas: seq<real>, t: real, positive: bool)
    requires t > 0.0 && Abs(acc) < t && OneSided(acc, deltas, positive)
    ensures Abs(AxisState(acc, deltas, t)) < t && OneSided(AxisState(acc, deltas, t), [], positive)
    decreases |deltas|
  {
    if deltas != [] {
      ResidualSmall(acc + deltas[0], t);
      StaysOnSide(Residual(acc + deltas[0], t), deltas[1..], t, positive);
    }
  }

  /** A balance with a remainder on the right side and below the threshold is the only one. */
  lemma BalancedUnique(t: real, n: int, left: real, came: real, positive: bool)
    requires t > 0.0 && Abs(left) < t && OneSided(left, [], positive) && OneSided(came, [], positive)
    requires Balanced(t, n, left, came)
    ensures n == Clicks(came, t)
  {
    if positive {
      FloorOf(n, left, t, came);
    } else {
      assert Balanced(t, -n, -left, -came);
      FloorOf(-n, -left, t, -came);
      assert came == 0.0 ==> came / t == 0.0 && (-came) / t == 0.0;
    }
  }

  lemma FloorOf(n: int, left: real, t: real, total: real)
    requires t > 0.0 && 0.0 <= left < t && Balanced(t, n, left, total)
    ensures (total / t).Floor == n
  {
    var part := left / t;
    assert part * t == left;
    assert 0.0 <= part < 1.0 by {
      DivStep(left, t);
    }
    DivUnique(total, t, n as real + part);
  }

  lemma {:induction false} TotalSide(deltas: seq<real>, positive: bool)
    requires OneSided(0.0, deltas, positive)
    ensures OneSided(Total(deltas), [], positive)
  {
    if deltas != [] {
      TotalSide(deltas[1..], positive);
    }
  }

  lemma OneDirection(deltas: seq<real>, t: real, positive: bool)
    requires t > 0.0 && OneSided(0.0, deltas, positive)
    ensures AxisNet(0.0, deltas, t) == Clicks(Total(deltas), t)
  {
    AxisConservation(0.0, deltas, t);
    StaysOnSide(0.0, deltas, t, positive);
    TotalSide(deltas, positive);
    BalancedUnique(t, AxisNet(0.0, deltas, t), AxisState(0.0, deltas, t), Total(deltas), positive);
  }

  function Deltas(run: seq<WheelEvent>, vertical: bool): seq<real> {
    if vertical then DeltasY(run) else DeltasX(run)
  }

  function Acc(s: Accumulator, vertical: bool): real {
    if vertical then s.accY else s.accX
  }

  /** The button of one direction of one axis. */
  function Toward(vertical: bool, positive: bool): int {
    if vertical then (if positive then 5 else 4) else (if positive then 7 else 6)
  }

  lemma EventOneSided(s: Accumulator, e: WheelEvent, t: real, vertical: bool, positive: bool)
    requires t > 0.0
    requires var came := Acc(s, vertical) + if vertical then e.deltaY else e.deltaX;
             if positive then came >= 0.0 else came <= 0.0
    ensures Presses(Events(s, e, t), Toward(vertical, !positive)) == 0
  {
    var counted := Toward(vertical, !positive);
    EventPresses(s, e, t, counted);
    AxisPresses(s.accY + e.deltaY, t, 5, 4, e, counted);
    AxisPresses(s.accX + e.deltaX, t, 7, 6, e, counted);
    NoClick(0.0, t);
  }

  /** A scroll in one direction never presses the button of the other direction. */
  lemma {:induction false} NoCounterClick(s: Accumulator, run: seq<WheelEvent>, t: real, vertical: bool, positive: bool)
    requires t > 0.0 && Abs(Acc(s, vertical)) < t && OneSided(Acc(s, vertical), Deltas(run, vertical), positive)
    ensures Presses(RunEvents(s, run, t), Toward(vertical, !positive)) == 0
    decreases |run|
  {
    if run != [] {
      var e, next := run[0], Next(s, run[0], t);
      var delta := if vertical then e.deltaY else e.deltaX;
      assert Deltas(run, vertical)[0] == delta && Deltas(run, vertical)[1..] == Deltas(run[1..], vertical);
      EventOneSided(s, e, t, vertical, positive);
      ResidualSmall(Acc(s, vertical) + delta, t);
      NoCounterClick(next, run[1..], t, vertical, positive);
      PressesConcat(Events(s, e, t), RunEvents(next, run[1..], t), Toward(vertical, !positive));
    }
  }

  lemma ClicksMagnitude(came: real, t: real, positive: bool)
    requires t > 0.0 && OneSided(came, [], positive)
    ensures Clicks(came, t) == if positive then (Abs(came) / t).Floor else -(Abs(came) / t).Floor
  {
    assert came == 0.0 ==> came / t == 0.0;
  }

  lemma OneDirectionRun(run: seq<WheelEvent>, t: real, vertical: bool, positive: bool)
    requires t > 0.0 && OneSided(0.0, Deltas(run, vertical), positive)
    ensures (if vertical then NetY(RunEvents(Rest, run, t)) else NetX(RunEvents(Rest, run, t))) ==
            Clicks(Total(Deltas(run, vertical)), t)
  {
    RunIsAxes(Rest, run, t);
    OneDirection(Deltas(run, vertical), t, positive);
  }

  /** A scroll from rest in one direction of an axis gives floor(|total| / threshold) clicks of
      that direction's button and none of the other, however the browser splits it. */
  lemma SplittingDoesNotMatter(run: seq<WheelEvent>, t: real, vertical: bool, positive: bool)
    requires t > 0.0 && OneSided(0.0, Deltas(run, vertical), positive)
    ensures var events, total := RunEvents(Rest, run, t), Total(Deltas(run, vertical));
            && Presses(events, Toward(vertical, positive)) == (Abs(total) / t).Floor
            && Presses(events, Toward(vertical, !positive)) == 0
  {
    OneDirectionRun(run, t, vertical, positive);
    NoCounterClick(Rest, run, t, vertical, positive);
    TotalSide(Deltas(run, vertical), positive);
    ClicksMagnitude(Total(Deltas(run, vertical)), t, positive);
  }

  /** From rest the residual is always below one threshold. */
  lemma {:induction false} ResidualsStaySmall(s: Accumulator, run: seq<WheelEvent>, t: real)
    requires t > 0.0 && Abs(s.accX) < t && Abs(s.accY) < t
    ensures Abs(RunState(s, run, t).accX) < t && Abs(RunState(s, run, t).accY) < t
    decreases |run|
  {
    if run != [] {
      ResidualSmall(s.accX + run[0].deltaX, t);
      ResidualSmall(s.accY + run[0].deltaY, t);
      ResidualsStaySmall(Next(s, run[0], t), run[1..], t);
    }
  }

  /** Every press is followed at once by the matching release, and there is no other release. */
  predicate Paired(events: seq<InputEvent>) {
    if events == [] then true
    else match events[0]
      case MotionNotify(_, _, _) => Paired(events[1..])
      case ButtonPress(b, x, y, state) =>
        |events| > 1 && events[1] == ButtonRelease(b, x, y, state) && Paired(events[2..])
      case ButtonRelease(_, _, _, _) => false
  }

  lemma {:induction false} PairedConcat(a: seq<InputEvent>, b: seq<InputEvent>)
    requires Paired(a) && Paired(b)
    ensures Paired(a + b)
    decreases |a|
  {
    if a == [] {
      assert a + b == b;
    } else if a[0].ButtonPress? {
      PairedConcat(a[2..], b);
      assert (a + b)[2..] == a[2..] + b;
    } else {
      PairedConcat(a[1..], b);
      assert (a + b)[1..] == a[1..] + b;
    }
  }

  lemma {:induction false} PulsesPaired(n: nat, button: int, e: WheelEvent)
    ensures Paired(Pulses(n, button, e))
  {
    if n > 0 {
      PulsesPaired(n - 1, button, e);
      assert Pulses(n, button, e)[2..] == Pulses(n - 1, button, e);
    }
  }

  lemma EventsPaired(s: Accumulator, e: WheelEvent, t: real)
    requires t > 0.0
    ensures Paired(Events(s, e, t))
  {
    var accY, accX := s.accY + e.deltaY, s.accX + e.deltaX;
    var motion := if Abs(accY) >= t || Abs(accX) >= t then [MotionNotify(e.x, e.y, e.buttons)] else [];
    PulsesPaired(AbsInt(Clicks(accY, t)), if accY > 0.0 then 5 else 4, e);
    PulsesPaired(AbsInt(Clicks(accX, t)), if accX > 0.0 then 7 else 6, e);
    assert Paired(motion) by {
      assert motion != [] ==> motion[1..] == [];
    }
    PairedConcat(motion, AxisPulses(accY, t, 5, 4, e));
    PairedConcat(motion + AxisPulses(accY, t, 5, 4, e), AxisPulses(accX, t, 7, 6, e));
  }

  lemma {:induction false} RunPaired(s: Accumulator, run: seq<WheelEvent>, t: real)
    requires t > 0.0
    ensures Paired(RunEvents(s, run, t))
    decreases |run|
  {
    if run != [] {
      EventsPaired(s, run[0], t);
      RunPaired(Next(s, run[0], t), run[1..], t);
      PairedConcat(Events(s, run[0], t), RunEvents(Next(s, run[0], t), run[1..], t));
    }
  }
}
