/**
 The three kinds of input event the runner synthesises, with the fields it
 sets or reads. Positions are integer pairs (Godot uses float `Vector2`,
 which the runner only copies and subtracts).
 */
module InputEvents {
  import opened ButtonMask

  datatype Vec = Vec(x: int, y: int) {
    function Plus(o: Vec): Vec {
      Vec(x + o.x, y + o.y)
    }

    function Minus(o: Vec): Vec {
      Vec(x - o.x, y - o.y)
    }
  }

  const Zero := Vec(0, 0)

  /** The flags of Godot's `InputEventWithModifiers`. */
  datatype Modifiers = Modifiers(alt: bool, shift: bool, control: bool, meta: bool) {

    /** Flag-wise OR, as `ApplyInputModifiers` combines two events. */
    function Or(o: Modifiers): Modifiers {
      Modifiers(alt || o.alt, shift || o.shift, control || o.control, meta || o.meta)
    }

    /** Every flag set here is also set in o. */
    predicate Within(o: Modifiers) {
      (alt ==> o.alt) && (shift ==> o.shift) && (control ==> o.control) && (meta ==> o.meta)
    }
  }

  const NoModifiers := Modifiers(false, false, false, false)

  // Godot 3 `KeyList` codes of the modifier keys (SPKEY = 1 << 24) and of
  // the printable keys the runner's tests press (their ASCII codes).
  const KeyShift: int := 0x100_0015
  const KeyControl: int := 0x100_0016
  const KeyAlt: int := 0x100_0018
  const Key0: int := 48
  const KeyA: int := 65
  const KeyX: int := 88

  /** `InputEventKey`, `InputEventMouseButton` and `InputEventMouseMotion`;
      all three carry modifiers, the two mouse events a position and mask. */
  datatype Event =
    | KeyEvent(pressed: bool, scancode: int, mods: Modifiers)
    | MouseButtonEvent(pressed: bool, buttonIndex: int, doubleClick: bool,
                       position: Vec, globalPosition: Vec, buttonMask: Mask, mods: Modifiers)
    | MouseMotionEvent(position: Vec, globalPosition: Vec, relative: Vec,
                       buttonMask: Mask, mods: Modifiers)
  {
    /** Godot's `InputEventMouse`. */
    predicate IsMouse() {
      MouseButtonEvent? || MouseMotionEvent?
    }
  }
}
