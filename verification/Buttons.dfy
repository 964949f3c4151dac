/** Mouse events translated to X11: the `state` field of each emitted event against the buttons
    an X client derives from the events it received before. A bit field is modelled as the set
    of the positions of its bits, so `|` is union and `& ~` is difference. */
module Buttons {

  type Mask = set<nat>

  /** DOM event: button number, `buttons` field, modifier keys. */
  datatype Mouse = Mouse(button: int, buttons: Mask, shift: bool, ctrl: bool, alt: bool, meta: bool)

  datatype Dom = Down(e: Mouse) | Up(e: Mouse) | Move(e: Mouse)

  datatype X11 =
    | ButtonPress(button: int, state: Mask)
    | ButtonRelease(button: int, state: Mask)
    | MotionNotify(state: Mask)

  /** 0x700: the X11 state bits of buttons 1 to 3. */
  const BUTTONS: Mask := {8, 9, 10}

  function X11Button(button: int): int {
    match button
    case 0 => 1
    case 1 => 2
    case 2 => 3
    case _ => button + 1
  }

  /** The DOM puts left on 1, right on 2 and middle on 4; X11 puts left on 0x100, middle on
      0x200 and right on 0x400. */
  function MouseButtonMask(buttons: Mask): Mask {
    (if 0 in buttons then {8} else {}) +
    (if 2 in buttons then {9} else {}) +
    (if 1 in buttons then {10} else {})
  }

  /** Shift 0x01, Control 0x04, Mod1 0x08, Mod4 0x40. */
  function ModifierMask(e: Mouse): Mask {
    (if e.shift then {0} else {}) +
    (if e.ctrl then {2} else {}) +
    (if e.alt then {3} else {}) +
    (if e.meta then {6} else {})
  }

  /** The DOM bits 1, 4 and 2 of buttons 0, 1 and 2; no bit for any other. */
  function ButtonBitFor(button: int): Mask {
    match button
    case 0 => {0}
    case 1 => {2}
    case 2 => {1}
    case _ => {}
  }

  function ToInput(d: Dom): X11 {
    match d
    case Down(e) =>
      ButtonPress(X11Button(e.button), MouseButtonMask(e.buttons - ButtonBitFor(e.button)) + ModifierMask(e))
    case Up(e) =>
      ButtonRelease(X11Button(e.button), MouseButtonMask(e.buttons + ButtonBitFor(e.button)) + ModifierMask(e))
    case Move(e) => MotionNotify(MouseButtonMask(e.buttons))
  }

  // ---------- what the browser does ----------

  /** The buttons held, by DOM number. */
  type Held = set<int>

  /** The `buttons` field shows exactly these of the three main buttons. */
  predicate Shows(buttons: Mask, held: Held) {
    (0 in buttons <==> 0 in held) && (2 in buttons <==> 1 in held) && (1 in buttons <==> 2 in held)
  }

  function NextHeld(held: Held, d: Dom): Held {
    match d
    case Down(e) => held + {e.button}
    case Up(e) => held - {e.button}
    case Move(_) => held
  }

  /** A press of any button that is up, reported after the press; a release of one that is
      down, reported either before or after the release; or a move. */
  predicate Possible(held: Held, d: Dom) {
    match d
    case Down(e) => e.button !in held && Shows(e.buttons, held + {e.button})
    case Up(e) => e.button in held && (Shows(e.buttons, held - {e.button}) || Shows(e.buttons, held))
    case Move(e) => Shows(e.buttons, held)
  }

  predicate PossibleRun(held: Held, run: seq<Dom>)
    decreases |run|
  {
    run == [] || (Possible(held, run[0]) && PossibleRun(NextHeld(held, run[0]), run[1..]))
  }

  // ---------- what an X client derives ----------

  /** The state bit of X11 buttons 1 to 3: 0x100, 0x200, 0x400. */
  function XBit(button: int): Mask {
    if 1 <= button <= 3 then {button + 7} else {}
  }

  function Replay(down: Mask, x: X11): Mask {
    match x
    case ButtonPress(b, _) => down + XBit(b)
    case ButtonRelease(b, _) => down - XBit(b)
    case MotionNotify(_) => down
  }

  /** Every event's button bits are what the earlier events left pressed. */
  predicate Consistent(down: Mask, events: seq<X11>)
    decreases |events|
  {
    events == [] || (events[0].state * BUTTONS == down && Consistent(Replay(down, events[0]), events[1..]))
  }

  function Emitted(run: seq<Dom>): (events: seq<X11>)
    ensures |events| == |run|
  {
    if run == [] then [] else [ToInput(run[0])] + Emitted(run[1..])
  }

  /** The X11 button bits of the held buttons. */
  function XHeld(held: Held): Mask {
    (if 0 in held then {8} else {}) + (if 1 in held then {9} else {}) + (if 2 in held then {10} else {})
  }

  /** Modifiers and buttons occupy disjoint bits. */
  lemma NoInterference(buttons: Mask, e: Mouse)
    ensures (MouseButtonMask(buttons) + ModifierMask(e)) * BUTTONS == MouseButtonMask(buttons)
    ensures (MouseButtonMask(buttons) + ModifierMask(e)) - BUTTONS == ModifierMask(e)
  {
  }

  lemma ShownMask(buttons: Mask, held: Held)
    requires Shows(buttons, held)
    ensures MouseButtonMask(buttons) == XHeld(held)
  {
  }

  /** The bits of a state: Shift, Control, Mod1 for Alt and Mod4 for Meta at 0, 2, 3 and 6, the three
      main buttons at 8, 9 and 10, and no others. */
  ghost predicate Bits(state: Mask, e: Mouse, modifiers: bool, left: bool, middle: bool, right: bool) {
    forall b :: b in state <==>
      || (modifiers && ((b == 0 && e.shift) || (b == 2 && e.ctrl) || (b == 3 && e.alt) || (b == 6 && e.meta)))
      || (b == 8 && left) || (b == 9 && middle) || (b == 10 && right)
  }

  lemma MaskBits(buttons: Mask, e: Mouse)
    ensures Bits(MouseButtonMask(buttons) + ModifierMask(e), e, true, 0 in buttons, 2 in buttons, 1 in buttons)
    ensures Bits(MouseButtonMask(buttons), e, false, 0 in buttons, 2 in buttons, 1 in buttons)
  {
  }

  /** A press becomes a press of the X11 button one above the DOM's, for every button, with the
      modifiers and the main buttons in `buttons` but for the one just pressed. */
  lemma PressExact(e: Mouse)
    ensures var x := ToInput(Down(e));
            && x.ButtonPress? && x.button == e.button + 1
            && Bits(x.state, e, true,
                    0 in e.buttons && e.button != 0, 2 in e.buttons && e.button != 1, 1 in e.buttons && e.button != 2)
  {
    MaskBits(e.buttons - ButtonBitFor(e.button), e);
  }

  /** A release becomes a release of it, with the modifiers and the main buttons in `buttons` and the
      one just released. */
  lemma ReleaseExact(e: Mouse)
    ensures var x := ToInput(Up(e));
            && x.ButtonRelease? && x.button == e.button + 1
            && Bits(x.state, e, true,
                    0 in e.buttons || e.button == 0, 2 in e.buttons || e.button == 1, 1 in e.buttons || e.button == 2)
  {
    MaskBits(e.buttons + ButtonBitFor(e.button), e);
  }

  /** A move carries the main buttons in `buttons` and no modifiers. */
  lemma MoveExact(e: Mouse)
    ensures var x := ToInput(Move(e));
            x.MotionNotify? && Bits(x.state, e, false, 0 in e.buttons, 2 in e.buttons, 1 in e.buttons)
  {
    MaskBits(e.buttons, e);
  }

  /** Each event carries the buttons held before it. */
  lemma StateBeforeEvent(held: Held, d: Dom)
    requires Possible(held, d)
    ensures ToInput(d).state * BUTTONS == XHeld(held)
  {
    var e, bit := d.e, ButtonBitFor(d.e.button);
    match d
    case Down(_) =>
      NoInterference(e.buttons - bit, e);
      ShownMask(e.buttons - bit, held);
    case Up(_) =>
      NoInterference(e.buttons + bit, e);
      ShownMask(e.buttons + bit, held);
    case Move(_) =>
      NoInterference(e.buttons, e);
      ShownMask(e.buttons, held);
  }

  /** Replaying an event gives the buttons held after it. */
  lemma ReplayStep(held: Held, d: Dom)
    requires Possible(held, d)
    ensures Replay(XHeld(held), ToInput(d)) == XHeld(NextHeld(held, d))
  {
  }

  /** For every possible sequence of presses, releases and moves, the button bits of each
      emitted event are the buttons held just before it, as the earlier emitted events alone
      tell an X client; modifiers never interfere. */
  lemma {:induction false} ReplayAgrees(held: Held, run: seq<Dom>)
    requires PossibleRun(held, run)
    ensures Consistent(XHeld(held), Emitted(run))
    decreases |run|
  {
    if run != [] {
      StateBeforeEvent(held, run[0]);
      ReplayStep(held, run[0]);
      ReplayAgrees(NextHeld(held, run[0]), run[1..]);
      assert Emitted(run)[1..] == Emitted(run[1..]);
    }
  }

  /** The same from the start, with no button held. */
  lemma ReplayFromRest(run: seq<Dom>)
    requires PossibleRun({}, run)
    ensures Consistent({}, Emitted(run))
  {
    ReplayAgrees({}, run);
  }
}
