/**
 The input-synthesising core of `SceneRunner` as a state machine. Each
 `Simulate*` call is a pure step from a runner state to the next state plus
 the events it delivered. Delivery to the scene (`HandleInputEvent`) is the
 emitted sequence; the engine calls inside it are not modelled.
 */
module SceneRunner {
  import opened Wrappers
  import opened ButtonMask
  import opened InputEvents

  /** The runner fields that input synthesis reads and writes. */
  datatype Runner = Runner(
    last: Option<Event>,        // LastInputEvent
    keysOnPress: set<int>,      // KeyOnPress
    buttonsOnPress: set<int>,   // MouseButtonOnPress
    disposed: bool,
    timeFactor: real)

  /** The runner after a call, and the events the call delivered, in order. */
  datatype Step = Step(runner: Runner, emitted: seq<Event>)

  /** The call delivered exactly one event, and it is now the last event. */
  predicate DeliversOne(s: Step) {
    |s.emitted| == 1 && s.runner.last == Some(s.emitted[0])
  }

  /** The last delivered event is remembered as the last event. */
  predicate RemembersLast(r: Runner, s: Step) {
    s.runner.last == if |s.emitted| == 0 then r.last else Some(s.emitted[|s.emitted| - 1])
  }

  /** A call followed by another, started from a runner with the same last
      event, remembers the second's last event, or the first's when the
      second delivers nothing. */
  lemma RemembersLastJoin(r: Runner, s1: Step, r2: Runner, s2: Step)
    requires RemembersLast(r, s1) && r2.last == s1.runner.last && RemembersLast(r2, s2)
    ensures RemembersLast(r, Step(s2.runner, s1.emitted + s2.emitted))
  {
    var e := s1.emitted + s2.emitted;
    if |s2.emitted| > 0 {
      assert e[|e| - 1] == s2.emitted[|s2.emitted| - 1];
    } else {
      assert e == s1.emitted;
    }
  }

  /** Neither the disposed flag nor the time factor changed. */
  predicate SameLifecycle(r: Runner, r': Runner) {
    r'.disposed == r.disposed && r'.timeFactor == r.timeFactor
  }

  /** The modifiers of the previous event, or none before the first event. */
  function LastModifiers(last: Option<Event>): Modifiers {
    if last.Some? then last.value.mods else NoModifiers
  }

  /** The mask a new mouse event inherits: the previous event's mask when
      that was a mouse event, and no bits otherwise. */
  function CarriedMask(last: Option<Event>): Mask {
    if last.Some? && last.value.IsMouse() then last.value.buttonMask else {}
  }

  /** `ApplyInputModifiers`: each flag is ORed with the previous event's. */
  function ApplyInputModifiers(own: Modifiers, last: Option<Event>): (m: Modifiers)
    ensures own.Within(m) && LastModifiers(last).Within(m)
    ensures m.Within(own.Or(LastModifiers(last)))
  {
    if last.Some? then own.Or(last.value.mods) else own
  }

  /** `ApplyInputMouseMask` for a button event: the carried mask, then the
      button's own bit ORed in on press and XORed on release. */
  function ButtonEventMask(last: Option<Event>, index: int, pressed: bool): (m: Mask)
    ensures HasButton(m, index) <==> pressed || !HasButton(CarriedMask(last), index)
    ensures m - ToMouseButtonMask(index) == CarriedMask(last) - ToMouseButtonMask(index)
  {
    var bit := ToMouseButtonMask(index);
    if pressed then Or(CarriedMask(last), bit) else Xor(CarriedMask(last), bit)
  }

  /** `ApplyInputMousePosition`: a button event takes the previous event's
      position when that was a mouse event, and stays at the origin otherwise. */
  function ButtonEventPosition(last: Option<Event>): Vec {
    if last.Some? && last.value.IsMouse() then last.value.position else Zero
  }

  /** `GetMousePosition`: the previous mouse event's position, or the
      viewport's mouse position (an engine query, passed in). */
  function GetMousePosition(r: Runner, viewportMousePos: Vec): Vec {
    if r.last.Some? && r.last.value.IsMouse() then r.last.value.position else viewportMousePos
  }

  /** `HandleInputEvent`: deliver the event and remember it as the last one. */
  function HandleInputEvent(r: Runner, e: Event): (s: Step)
    ensures DeliversOne(s) && s.emitted[0] == e
    ensures s.runner.keysOnPress == r.keysOnPress && s.runner.buttonsOnPress == r.buttonsOnPress
    ensures SameLifecycle(r, s.runner)
  {
    Step(r.(last := Some(e)), [e])
  }

  /** The constructor's state: nothing held, no event yet, time factor 1. */
  function Create(): (r: Runner)
    ensures r.last.None? && r.keysOnPress == {} && r.buttonsOnPress == {}
    ensures !r.disposed && r.timeFactor == 1.0
  {
    SetTimeFactor(Runner(None, {}, {}, false, 0.0), 1.0)
  }

  /** The key event of `SimulateKeyPress` / `SimulateKeyRelease`. */
  function KeyEventOf(last: Option<Event>, code: int, pressed: bool, shiftPressed: bool, controlPressed: bool): Event {
    var own := Modifiers(code == KeyAlt, shiftPressed || code == KeyShift, controlPressed || code == KeyControl, false);
    KeyEvent(pressed, code, ApplyInputModifiers(own, last))
  }

  function SimulateKeyPress(r: Runner, code: int, shiftPressed: bool, controlPressed: bool): (s: Step)
    ensures DeliversOne(s) && SameLifecycle(r, s.runner)
    ensures s.runner.keysOnPress == r.keysOnPress + {code}
    ensures s.runner.buttonsOnPress == r.buttonsOnPress
    ensures s.emitted[0].KeyEvent? && s.emitted[0].pressed && s.emitted[0].scancode == code
    ensures s.emitted[0].mods.alt <==> code == KeyAlt || LastModifiers(r.last).alt
    ensures s.emitted[0].mods.shift <==> shiftPressed || code == KeyShift || LastModifiers(r.last).shift
    ensures s.emitted[0].mods.control <==> controlPressed || code == KeyControl || LastModifiers(r.last).control
    ensures s.emitted[0].mods.meta <==> LastModifiers(r.last).meta
  {
    HandleInputEvent(r.(keysOnPress := r.keysOnPress + {code}),
                     KeyEventOf(r.last, code, true, shiftPressed, controlPressed))
  }

  function SimulateKeyRelease(r: Runner, code: int, shiftPressed: bool, controlPressed: bool): (s: Step)
    ensures DeliversOne(s) && SameLifecycle(r, s.runner)
    ensures s.runner.keysOnPress == r.keysOnPress - {code}
    ensures s.runner.buttonsOnPress == r.buttonsOnPress
    ensures s.emitted[0].KeyEvent? && !s.emitted[0].pressed && s.emitted[0].scancode == code
    ensures s.emitted[0].mods.alt <==> code == KeyAlt || LastModifiers(r.last).alt
    ensures s.emitted[0].mods.shift <==> shiftPressed || code == KeyShift || LastModifiers(r.last).shift
    ensures s.emitted[0].mods.control <==> controlPressed || code == KeyControl || LastModifiers(r.last).control
    ensures s.emitted[0].mods.meta <==> LastModifiers(r.last).meta
  {
    HandleInputEvent(r.(keysOnPress := r.keysOnPress - {code}),
                     KeyEventOf(r.last, code, false, shiftPressed, controlPressed))
  }

  /** A press immediately followed by a release of the same key. */
  function SimulateKeyPressed(r: Runner, code: int, shift: bool, control: bool): (s: Step)
    ensures |s.emitted| == 2 && s.runner.last == Some(s.emitted[1]) && SameLifecycle(r, s.runner)
    ensures s.runner.keysOnPress == r.keysOnPress - {code}
    ensures s.runner.buttonsOnPress == r.buttonsOnPress
    ensures s.emitted[0].KeyEvent? && s.emitted[0].pressed && s.emitted[0].scancode == code
    ensures s.emitted[1].KeyEvent? && !s.emitted[1].pressed && s.emitted[1].scancode == code
    ensures s.emitted[1].mods == s.emitted[0].mods
    ensures s.emitted[0] == SimulateKeyPress(r, code, shift, control).emitted[0]
  {
    var s1 := SimulateKeyPress(r, code, shift, control);
    var s2 := SimulateKeyRelease(s1.runner, code, shift, control);
    Step(s2.runner, s1.emitted + s2.emitted)
  }

  /** The button event of `SimulateMouseButtonPress` / `...Release`. */
  function ButtonEventOf(last: Option<Event>, index: int, pressed: bool, doubleClick: bool): Event {
    MouseButtonEvent(pressed, index, doubleClick, ButtonEventPosition(last), Zero,
                     ButtonEventMask(last, index, pressed), ApplyInputModifiers(NoModifiers, last))
  }

  function SimulateMouseButtonPress(r: Runner, index: int, doubleClick: bool): (s: Step)
    ensures DeliversOne(s) && SameLifecycle(r, s.runner)
    ensures s.runner.buttonsOnPress == r.buttonsOnPress + {index}
    ensures s.runner.keysOnPress == r.keysOnPress
    ensures s.emitted[0].MouseButtonEvent? && s.emitted[0].pressed
    ensures s.emitted[0].buttonIndex == index && s.emitted[0].doubleClick == doubleClick
    ensures HasButton(s.emitted[0].buttonMask, index)
    ensures s.emitted[0].buttonMask - ToMouseButtonMask(index) == CarriedMask(r.last) - ToMouseButtonMask(index)
    ensures s.emitted[0].position == ButtonEventPosition(r.last) && s.emitted[0].globalPosition == Zero
    ensures s.emitted[0].mods == LastModifiers(r.last)
  {
    HandleInputEvent(r.(buttonsOnPress := r.buttonsOnPress + {index}),
                     ButtonEventOf(r.last, index, true, doubleClick))
  }

  function SimulateMouseButtonRelease(r: Runner, index: int): (s: Step)
    ensures DeliversOne(s) && SameLifecycle(r, s.runner)
    ensures s.runner.buttonsOnPress == r.buttonsOnPress - {index}
    ensures s.runner.keysOnPress == r.keysOnPress
    ensures s.emitted[0].MouseButtonEvent? && !s.emitted[0].pressed
    ensures s.emitted[0].buttonIndex == index && !s.emitted[0].doubleClick
    ensures HasButton(s.emitted[0].buttonMask, index) <==> !HasButton(CarriedMask(r.last), index)
    ensures s.emitted[0].buttonMask - ToMouseButtonMask(index) == CarriedMask(r.last) - ToMouseButtonMask(index)
    ensures s.emitted[0].position == ButtonEventPosition(r.last) && s.emitted[0].globalPosition == Zero
    ensures s.emitted[0].mods == LastModifiers(r.last)
  {
    HandleInputEvent(r.(buttonsOnPress := r.buttonsOnPress - {index}),
                     ButtonEventOf(r.last, index, false, false))
  }

  /** A press immediately followed by a release of the same button: the
      double-click flag is on the press only, and the release leaves the
      carried mask without the button's bit. */
  function SimulateMouseButtonPressed(r: Runner, index: int, doubleClick: bool): (s: Step)
    ensures |s.emitted| == 2 && s.runner.last == Some(s.emitted[1]) && SameLifecycle(r, s.runner)
    ensures s.runner.buttonsOnPress == r.buttonsOnPress - {index}
    ensures s.runner.keysOnPress == r.keysOnPress
    ensures s.emitted[0].MouseButtonEvent? && s.emitted[0].pressed
    ensures s.emitted[0].buttonIndex == index && s.emitted[0].doubleClick == doubleClick
    ensures s.emitted[1].MouseButtonEvent? && !s.emitted[1].pressed
    ensures s.emitted[1].buttonIndex == index && !s.emitted[1].doubleClick
    ensures s.emitted[1].buttonMask == CarriedMask(r.last) - ToMouseButtonMask(index)
    ensures s.emitted[1].position == s.emitted[0].position
    ensures s.emitted[1].mods == s.emitted[0].mods
    ensures s.emitted[0] == SimulateMouseButtonPress(r, index, doubleClick).emitted[0]
  {
    var s1 := SimulateMouseButtonPress(r, index, doubleClick);
    var s2 := SimulateMouseButtonRelease(s1.runner, index);
    Step(s2.runner, s1.emitted + s2.emitted)
  }

  /** `SetMousePos`: a motion event at the position, with the engine's
      global mouse position (passed in), no mask and no relative motion. */
  function SetMousePos(r: Runner, position: Vec, globalMousePos: Vec): (s: Step)
    ensures DeliversOne(s) && SameLifecycle(r, s.runner)
    ensures s.runner.keysOnPress == r.keysOnPress && s.runner.buttonsOnPress == r.buttonsOnPress
    ensures s.emitted[0].MouseMotionEvent? && s.emitted[0].position == position
    ensures s.emitted[0].globalPosition == globalMousePos && s.emitted[0].relative == Zero
    ensures s.emitted[0].buttonMask == {}
    ensures s.emitted[0].mods == LastModifiers(r.last)
  {
    HandleInputEvent(r, MouseMotionEvent(position, globalMousePos, Zero, {},
                                         ApplyInputModifiers(NoModifiers, r.last)))
  }

  /** `SimulateMouseMove`: a motion event whose relative motion leads from
      the current mouse position to the new one, carrying the mask. */
  function SimulateMouseMove(r: Runner, position: Vec, viewportMousePos: Vec): (s: Step)
    ensures DeliversOne(s) && SameLifecycle(r, s.runner)
    ensures s.runner.keysOnPress == r.keysOnPress && s.runner.buttonsOnPress == r.buttonsOnPress
    ensures s.emitted[0].MouseMotionEvent? && s.emitted[0].position == position
    ensures GetMousePosition(r, viewportMousePos).Plus(s.emitted[0].relative) == position
    ensures s.emitted[0].buttonMask == CarriedMask(r.last) && s.emitted[0].globalPosition == Zero
    ensures s.emitted[0].mods == LastModifiers(r.last)
  {
    var relative := position.Minus(GetMousePosition(r, viewportMousePos));
    HandleInputEvent(r, MouseMotionEvent(position, Zero, relative, CarriedMask(r.last),
                                         ApplyInputModifiers(NoModifiers, r.last)))
  }

  /** Where `GetMousePosition` puts the mouse: at the position of the last
      `SetMousePos` or `SimulateMouseMove`, whatever the viewport reports;
      after a key event it forgets that position and falls back to the
      viewport's. */
  lemma MousePositionAfterCalls(r: Runner, position: Vec, globalMousePos: Vec, viewportMousePos: Vec,
                                code: int, pressed: bool, shiftPressed: bool, controlPressed: bool)
    ensures GetMousePosition(SetMousePos(r, position, globalMousePos).runner, viewportMousePos) == position
    ensures GetMousePosition(SimulateMouseMove(r, position, viewportMousePos).runner, viewportMousePos) == position
    ensures var s := if pressed then SimulateKeyPress(r, code, shiftPressed, controlPressed)
                     else SimulateKeyRelease(r, code, shiftPressed, controlPressed);
            GetMousePosition(s.runner, viewportMousePos) == viewportMousePos
  {
  }

  /** A button event lands where the mouse is and leaves it there, once a
      mouse event has been delivered; before that (or after a key event) it
      lands at the origin, and the mouse is then at the origin. */
  lemma ButtonEventsKeepMousePosition(r: Runner, index: int, pressed: bool, doubleClick: bool, viewportMousePos: Vec)
    ensures var s := if pressed then SimulateMouseButtonPress(r, index, doubleClick)
                     else SimulateMouseButtonRelease(r, index);
            && (r.last.Some? && r.last.value.IsMouse() ==>
                  s.emitted[0].position == GetMousePosition(r, viewportMousePos)
                  && GetMousePosition(s.runner, viewportMousePos) == GetMousePosition(r, viewportMousePos))
            && (!(r.last.Some? && r.last.value.IsMouse()) ==>
                  s.emitted[0].position == Zero && GetMousePosition(s.runner, viewportMousePos) == Zero)
  {
  }

  /** `SetTimeFactor`: the factor is capped at 9 and has no lower bound. */
  function SetTimeFactor(r: Runner, factor: real): (r': Runner)
    ensures r'.timeFactor <= 9.0
    ensures factor <= 9.0 ==> r'.timeFactor == factor
    ensures factor > 9.0 ==> r'.timeFactor == 9.0
    ensures r' == r.(timeFactor := r'.timeFactor)
  {
    r.(timeFactor := if factor < 9.0 then factor else 9.0)
  }
}
