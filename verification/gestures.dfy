/**
 Sequences of runner calls, as a test chains them
 (`SimulateKeyPress(Shift).SimulateKeyPress(A)`), and what holds along the
 whole event log: modifiers only accumulate, the tracked sets follow the
 last press or release of each id, and the relative motions of a chain of
 moves add up to the distance travelled.
 */
module Gestures {
  import opened Wrappers
  import opened ButtonMask
  import opened InputEvents
  import opened SceneRunner

  /** One call on the runner's input API; engine queries ride along. */
  datatype Command =
    | KeyPress(code: int, shift: bool, control: bool)
    | KeyRelease(code: int, shift: bool, control: bool)
    | KeyPressed(code: int, shift: bool, control: bool)
    | ButtonPress(index: int, doubleClick: bool)
    | ButtonRelease(index: int)
    | ButtonPressed(index: int, doubleClick: bool)
    | MousePos(position: Vec, globalMousePos: Vec)
    | MouseMove(position: Vec, viewportMousePos: Vec)
    | TimeFactor(factor: real)

  function Apply(r: Runner, c: Command): Step {
    match c
    case KeyPress(code, shift, control) => SimulateKeyPress(r, code, shift, control)
    case KeyRelease(code, shift, control) => SimulateKeyRelease(r, code, shift, control)
    case KeyPressed(code, shift, control) => SimulateKeyPressed(r, code, shift, control)
    case ButtonPress(index, doubleClick) => SimulateMouseButtonPress(r, index, doubleClick)
    case ButtonRelease(index) => SimulateMouseButtonRelease(r, index)
    case ButtonPressed(index, doubleClick) => SimulateMouseButtonPressed(r, index, doubleClick)
    case MousePos(position, globalMousePos) => SetMousePos(r, position, globalMousePos)
    case MouseMove(position, viewportMousePos) => SimulateMouseMove(r, position, viewportMousePos)
    case TimeFactor(factor) => Step(SetTimeFactor(r, factor), [])
  }

  /** The calls in order; the log is every delivered event, in order. */
  function Run(r: Runner, cmds: seq<Command>): Step
    decreases |cmds|
  {
    if |cmds| == 0 then Step(r, [])
    else
      var s1 := Apply(r, cmds[0]);
      var s2 := Run(s1.runner, cmds[1..]);
      Step(s2.runner, s1.emitted + s2.emitted)
  }

  /** Every event of the log carries at least the `start` flags, and a
      flag, once set in the log, stays set in every later event. */
  predicate Accumulates(start: Modifiers, events: seq<Event>) {
    && (forall i | 0 <= i < |events| :: start.Within(events[i].mods))
    && (forall i, j | 0 <= i < j < |events| :: events[i].mods.Within(events[j].mods))
  }

  /** A single delivered event carrying at least the previous flags. */
  lemma OneAccumulates(r: Runner, s: Step)
    requires DeliversOne(s) && LastModifiers(r.last).Within(s.emitted[0].mods)
    ensures RemembersLast(r, s) && Accumulates(LastModifiers(r.last), s.emitted)
  {
  }

  /** Two delivered events with equal flags, at least the previous ones. */
  lemma TwoAccumulates(r: Runner, s: Step)
    requires |s.emitted| == 2 && s.runner.last == Some(s.emitted[1])
    requires LastModifiers(r.last).Within(s.emitted[0].mods) && s.emitted[1].mods == s.emitted[0].mods
    ensures RemembersLast(r, s) && Accumulates(LastModifiers(r.last), s.emitted)
  {
  }

  lemma KeyAccumulates(r: Runner, c: Command)
    requires c.KeyPress? || c.KeyRelease? || c.KeyPressed?
    ensures var s := Apply(r, c);
            RemembersLast(r, s) && Accumulates(LastModifiers(r.last), s.emitted)
  {
    match c
    case KeyPress(code, shift, control) =>
      var s := SimulateKeyPress(r, code, shift, control);
      assert Apply(r, c) == s;
      OneAccumulates(r, s);
    case KeyRelease(code, shift, control) =>
      var s := SimulateKeyRelease(r, code, shift, control);
      assert Apply(r, c) == s;
      OneAccumulates(r, s);
    case KeyPressed(code, shift, control) =>
      var s := SimulateKeyPressed(r, code, shift, control);
      assert Apply(r, c) == s;
      TwoAccumulates(r, s);
    case _ =>
  }

  lemma ButtonAccumulates(r: Runner, c: Command)
    requires c.ButtonPress? || c.ButtonRelease? || c.ButtonPressed?
    ensures var s := Apply(r, c);
            RemembersLast(r, s) && Accumulates(LastModifiers(r.last), s.emitted)
  {
    match c
    case ButtonPress(index, doubleClick) =>
      var s := SimulateMouseButtonPress(r, index, doubleClick);
      assert Apply(r, c) == s;
      OneAccumulates(r, s);
    case ButtonRelease(index) =>
      var s := SimulateMouseButtonRelease(r, index);
      assert Apply(r, c) == s;
      OneAccumulates(r, s);
    case ButtonPressed(index, doubleClick) =>
      var s := SimulateMouseButtonPressed(r, index, doubleClick);
      assert Apply(r, c) == s;
      TwoAccumulates(r, s);
    case _ =>
  }

  lemma MotionAccumulates(r: Runner, c: Command)
    requires c.MousePos? || c.MouseMove? || c.TimeFactor?
    ensures var s := Apply(r, c);
            RemembersLast(r, s) && Accumulates(LastModifiers(r.last), s.emitted)
  {
    match c
    case MousePos(position, globalMousePos) =>
      var s := SetMousePos(r, position, globalMousePos);
      assert Apply(r, c) == s;
      OneAccumulates(r, s);
    case MouseMove(position, viewportMousePos) =>
      var s := SimulateMouseMove(r, position, viewportMousePos);
      assert Apply(r, c) == s;
      OneAccumulates(r, s);
    case TimeFactor(f) =>
      assert Apply(r, c) == Step(SetTimeFactor(r, f), []);
    case _ =>
  }

  /** Each call delivers events that keep the previous flags, all with the
      same or more flags than the one before, and remembers the last. */
  lemma ApplyAccumulates(r: Runner, c: Command)
    ensures var s := Apply(r, c);
            RemembersLast(r, s) && Accumulates(LastModifiers(r.last), s.emitted)
  {
    if c.KeyPress? || c.KeyRelease? || c.KeyPressed? {
      KeyAccumulates(r, c);
    } else if c.ButtonPress? || c.ButtonRelease? || c.ButtonPressed? {
      ButtonAccumulates(r, c);
    } else {
      MotionAccumulates(r, c);
    }
  }

  /** Two logs that each accumulate, joined where every flag of the first
      is within the start of the second, accumulate together. */
  lemma AccumulatesJoin(m0: Modifiers, a: seq<Event>, m1: Modifiers, b: seq<Event>)
    requires Accumulates(m0, a) && Accumulates(m1, b) && m0.Within(m1)
    requires forall i | 0 <= i < |a| :: a[i].mods.Within(m1)
    ensures Accumulates(m0, a + b)
  {
    var e := a + b;
    forall i | 0 <= i < |e|
      ensures m0.Within(e[i].mods)
    {
      if i >= |a| {
        assert e[i] == b[i - |a|];
      }
    }
    forall i, j | 0 <= i < j < |e|
      ensures e[i].mods.Within(e[j].mods)
    {
      if j < |a| {
        assert e[i] == a[i] && e[j] == a[j];
      } else if i >= |a| {
        assert e[i] == b[i - |a|] && e[j] == b[j - |a|];
      } else {
        assert e[i] == a[i] && e[j] == b[j - |a|];
      }
    }
  }

  /** In an accumulating log every event's flags are within the last's. */
  lemma WithinLast(m0: Modifiers, a: seq<Event>)
    requires Accumulates(m0, a) && |a| > 0
    ensures forall i | 0 <= i < |a| :: a[i].mods.Within(a[|a| - 1].mods)
  {
  }

  /** The flags remembered after a step: those of its last event. */
  lemma StepWithinLast(r: Runner, s: Step)
    requires RemembersLast(r, s) && Accumulates(LastModifiers(r.last), s.emitted)
    ensures LastModifiers(r.last).Within(LastModifiers(s.runner.last))
    ensures forall i | 0 <= i < |s.emitted| :: s.emitted[i].mods.Within(LastModifiers(s.runner.last))
  {
    if |s.emitted| > 0 {
      WithinLast(LastModifiers(r.last), s.emitted);
    }
  }

  /** Modifier flags are never cleared along a chain of calls: every
      delivered event keeps the flags of every event before it. */
  lemma {:induction false} RunAccumulates(r: Runner, cmds: seq<Command>)
    ensures var s := Run(r, cmds);
            && RemembersLast(r, s)
            && Accumulates(LastModifiers(r.last), s.emitted)
            && LastModifiers(r.last).Within(LastModifiers(s.runner.last))
    decreases |cmds|
  {
    if |cmds| > 0 {
      var s1 := Apply(r, cmds[0]);
      ApplyAccumulates(r, cmds[0]);
      StepWithinLast(r, s1);
      var s2 := Run(s1.runner, cmds[1..]);
      RunAccumulates(s1.runner, cmds[1..]);
      AccumulatesJoin(LastModifiers(r.last), s1.emitted, LastModifiers(s1.runner.last), s2.emitted);
      RemembersLastJoin(r, s1, s1.runner, s2);
    }
  }

  // ---------------------------------------------------------------------
  // Tracked sets

  /** Whether the command presses (`Some(true)`) or releases (`Some(false)`)
      key `code` last, its composite press counting as a release. */
  function KeyVerdict(c: Command, code: int): Option<bool> {
    match c
    case KeyPress(k, _, _) => if k == code then Some(true) else None
    case KeyRelease(k, _, _) => if k == code then Some(false) else None
    case KeyPressed(k, _, _) => if k == code then Some(false) else None
    case _ => None
  }

  function ButtonVerdict(c: Command, index: int): Option<bool> {
    match c
    case ButtonPress(b, _) => if b == index then Some(true) else None
    case ButtonRelease(b) => if b == index then Some(false) else None
    case ButtonPressed(b, _) => if b == index then Some(false) else None
    case _ => None
  }

  /** The verdict of the last command of `cmds` that mentions the id, if any. */
  function LastVerdict(cmds: seq<Command>, verdict: Command -> Option<bool>): Option<bool>
    decreases |cmds|
  {
    if |cmds| == 0 then None
    else
      var later := LastVerdict(cmds[1..], verdict);
      if later.Some? then later else verdict(cmds[0])
  }

  /** Whether an id is held after the calls: as the last call that mentions
      it left it, or as before when no call mentions it. */
  predicate HeldAfter(before: set<int>, cmds: seq<Command>, verdict: Command -> Option<bool>, id: int) {
    var v := LastVerdict(cmds, verdict);
    if v.Some? then v.value else id in before
  }

  /** Each call changes the tracked sets at most in the id it names. */
  lemma ApplyTracks(r: Runner, c: Command, id: int)
    ensures var s := Apply(r, c);
            var kv := KeyVerdict(c, id);
            var bv := ButtonVerdict(c, id);
            && (id in s.runner.keysOnPress <==> if kv.Some? then kv.value else id in r.keysOnPress)
            && (id in s.runner.buttonsOnPress <==> if bv.Some? then bv.value else id in r.buttonsOnPress)
  {
  }

  /** The tracked key and button sets after a chain of calls agree with the
      reference: an id is held exactly when the last call naming it was a
      plain press, or, when no call names it, when it was held before. */
  lemma {:induction false} RunTracks(r: Runner, cmds: seq<Command>, id: int)
    ensures var s := Run(r, cmds);
            && (id in s.runner.keysOnPress <==> HeldAfter(r.keysOnPress, cmds, (x: Command) => KeyVerdict(x, id), id))
            && (id in s.runner.buttonsOnPress <==> HeldAfter(r.buttonsOnPress, cmds, (x: Command) => ButtonVerdict(x, id), id))
    decreases |cmds|
  {
    if |cmds| > 0 {
      var s1 := Apply(r, cmds[0]);
      ApplyTracks(r, cmds[0], id);
      RunTracks(s1.runner, cmds[1..], id);
    }
  }

  /** Runs never change the disposed flag, and the time factor only
      through `SetTimeFactor`. */
  lemma {:induction false} RunKeepsDisposed(r: Runner, cmds: seq<Command>)
    requires forall k | 0 <= k < |cmds| :: !cmds[k].TimeFactor?
    ensures SameLifecycle(r, Run(r, cmds).runner)
    decreases |cmds|
  {
    if |cmds| > 0 {
      var s1 := Apply(r, cmds[0]);
      assert SameLifecycle(r, s1.runner);
      RunKeepsDisposed(s1.runner, cmds[1..]);
    }
  }

  // ---------------------------------------------------------------------
  // Chains of moves

  /** One `SimulateMouseMove` per point of the path. */
  function Moves(path: seq<Vec>, viewportMousePos: Vec): (cmds: seq<Command>)
    ensures |cmds| == |path|
    ensures forall k | 0 <= k < |path| :: cmds[k] == MouseMove(path[k], viewportMousePos)
  {
    seq(|path|, k requires 0 <= k < |path| => MouseMove(path[k], viewportMousePos))
  }

  /** The sum of the relative motions in a log (other events count zero). */
  function TotalRelative(events: seq<Event>): Vec
    decreases |events|
  {
    if |events| == 0 then Zero
    else
      var e := events[0];
      (if e.MouseMotionEvent? then e.relative else Zero).Plus(TotalRelative(events[1..]))
  }

  /** `SimulateMouseMove` to each point of the path in turn. */
  function MoveAlong(r: Runner, path: seq<Vec>, viewportMousePos: Vec): Step
    decreases |path|
  {
    if |path| == 0 then Step(r, [])
    else
      var s1 := SimulateMouseMove(r, path[0], viewportMousePos);
      var s2 := MoveAlong(s1.runner, path[1..], viewportMousePos);
      Step(s2.runner, s1.emitted + s2.emitted)
  }

  /** Running the move commands is moving along the path. */
  lemma {:induction false} RunMoves(r: Runner, path: seq<Vec>, viewportMousePos: Vec)
    ensures Run(r, Moves(path, viewportMousePos)) == MoveAlong(r, path, viewportMousePos)
    decreases |path|
  {
    if |path| > 0 {
      var cmds := Moves(path, viewportMousePos);
      assert cmds[1..] == Moves(path[1..], viewportMousePos);
      var s1 := SimulateMouseMove(r, path[0], viewportMousePos);
      assert Apply(r, cmds[0]) == s1;
      RunMoves(s1.runner, path[1..], viewportMousePos);
    }
  }

  /** The events of a move chain: one motion event per point, at that
      point, with the mask carried into the chain. */
  lemma {:induction false} MoveAlongEvents(r: Runner, path: seq<Vec>, viewportMousePos: Vec)
    ensures var s := MoveAlong(r, path, viewportMousePos);
            && |s.emitted| == |path|
            && (forall k | 0 <= k < |path| ::
                  s.emitted[k].MouseMotionEvent? && s.emitted[k].position == path[k]
                  && s.emitted[k].buttonMask == CarriedMask(r.last))
            && (|path| > 0 ==> GetMousePosition(s.runner, viewportMousePos) == path[|path| - 1])
    decreases |path|
  {
    if |path| > 0 {
      var s1 := SimulateMouseMove(r, path[0], viewportMousePos);
      var s2 := MoveAlong(s1.runner, path[1..], viewportMousePos);
      MoveAlongEvents(s1.runner, path[1..], viewportMousePos);
      var s := MoveAlong(r, path, viewportMousePos);
      assert s.emitted == [s1.emitted[0]] + s2.emitted;
      forall k | 0 <= k < |path|
        ensures s.emitted[k].MouseMotionEvent? && s.emitted[k].position == path[k]
                && s.emitted[k].buttonMask == CarriedMask(r.last)
      {
        if k > 0 {
          assert s.emitted[k] == s2.emitted[k - 1] && path[k] == path[1..][k - 1];
        }
      }
    }
  }

  /** The relative motions of a move chain telescope. */
  lemma {:induction false} MoveAlongRelative(r: Runner, path: seq<Vec>, viewportMousePos: Vec)
    requires |path| > 0
    ensures var s := MoveAlong(r, path, viewportMousePos);
            GetMousePosition(r, viewportMousePos).Plus(TotalRelative(s.emitted)) == path[|path| - 1]
    decreases |path|
  {
    var s1 := SimulateMouseMove(r, path[0], viewportMousePos);
    var s2 := MoveAlong(s1.runner, path[1..], viewportMousePos);
    var s := MoveAlong(r, path, viewportMousePos);
    assert s.emitted == [s1.emitted[0]] + s2.emitted;
    assert s.emitted[1..] == s2.emitted;
    if |path| > 1 {
      MoveAlongRelative(s1.runner, path[1..], viewportMousePos);
    } else {
      assert s2.emitted == [];
    }
  }

  /** Moving along a path delivers one motion event per point, each at its
      point and each with the mask carried into the chain, and the relative
      motions add up to the way from the starting mouse position to the
      end of the path. */
  lemma MovesTelescope(r: Runner, path: seq<Vec>, viewportMousePos: Vec)
    requires |path| > 0
    ensures var s := Run(r, Moves(path, viewportMousePos));
            && |s.emitted| == |path|
            && (forall k | 0 <= k < |path| ::
                  s.emitted[k].MouseMotionEvent? && s.emitted[k].position == path[k]
                  && s.emitted[k].buttonMask == CarriedMask(r.last))
            && GetMousePosition(r, viewportMousePos).Plus(TotalRelative(s.emitted)) == path[|path| - 1]
            && GetMousePosition(s.runner, viewportMousePos) == path[|path| - 1]
  {
    RunMoves(r, path, viewportMousePos);
    MoveAlongEvents(r, path, viewportMousePos);
    MoveAlongRelative(r, path, viewportMousePos);
  }

  // ---------------------------------------------------------------------
  // The integration test's scenarios, replayed on the model

  /** Shift pressed, then A: the A event carries shift. */
  lemma ShiftThenA()
    ensures var s1 := SimulateKeyPress(Create(), KeyShift, false, false);
            var s2 := SimulateKeyPress(s1.runner, KeyA, false, false);
            && s1.emitted[0].mods == Modifiers(false, true, false, false)
            && s2.emitted[0].scancode == KeyA && s2.emitted[0].mods == Modifiers(false, true, false, false)
            && s2.runner.keysOnPress == {KeyShift, KeyA}
  {
  }

  /** Releasing Shift does not clear the flag: a later A event still
      carries shift, and so does a later mouse event. */
  lemma ShiftReleasedStaysSet()
    ensures var s1 := SimulateKeyPress(Create(), KeyShift, false, false);
            var s2 := SimulateKeyRelease(s1.runner, KeyShift, false, false);
            var s3 := SimulateKeyPress(s2.runner, KeyA, false, false);
            var s4 := SimulateMouseButtonPress(s3.runner, Left, false);
            && s3.emitted[0].scancode == KeyA && s3.emitted[0].mods.shift
            && s4.emitted[0].MouseButtonEvent? && s4.emitted[0].mods.shift
            && s4.runner.keysOnPress == {KeyA}
  {
  }

  /** Left then Right held, then Right and Left clicked: masks L, L|R,
      L|R, L, L, none; the clicks leave nothing held. */
  lemma LeftRightPressRelease()
    ensures var l := ToMouseButtonMask(Left);
            var rt := ToMouseButtonMask(Right);
            var s1 := SimulateMouseButtonPress(Create(), Left, false);
            var s2 := SimulateMouseButtonPress(s1.runner, Right, false);
            var s3 := SimulateMouseButtonPressed(s2.runner, Right, false);
            var s4 := SimulateMouseButtonPressed(s3.runner, Left, false);
            && s1.emitted[0].buttonMask == l
            && s2.emitted[0].buttonMask == l + rt
            && s3.emitted[0].buttonMask == l + rt
            && s3.emitted[1].buttonMask == l && s3.emitted[1].buttonIndex == Right
            && s4.emitted[0].buttonMask == l
            && s4.emitted[1].buttonMask == {} && s4.emitted[1].buttonIndex == Left
            && s4.runner.buttonsOnPress == {}
  {
  }

  /** A modifier key, `SetMousePos`, then a button press and release: the
      press carries the modifier, sits at the set position and has the
      button's own bit; the release clears it. */
  lemma ModifierThenSetMousePos(modifier: int, button: int, globalMousePos: Vec)
    requires modifier in {KeyShift, KeyControl, KeyAlt}
    requires button in {Left, Middle, Right}
    ensures var s1 := SimulateKeyPress(Create(), modifier, false, false);
            var s2 := SetMousePos(s1.runner, Zero, globalMousePos);
            var s3 := SimulateMouseButtonPress(s2.runner, button, false);
            var s4 := SimulateMouseButtonRelease(s3.runner, button);
            && s3.emitted[0].position == Zero
            && s3.emitted[0].buttonMask == ToMouseButtonMask(button)
            && (s3.emitted[0].mods.shift <==> modifier == KeyShift)
            && (s3.emitted[0].mods.control <==> modifier == KeyControl)
            && (s3.emitted[0].mods.alt <==> modifier == KeyAlt)
            && s4.emitted[0].buttonMask == {}
            && s4.runner.buttonsOnPress == {} && s4.runner.keysOnPress == {modifier}
  {
  }

  /** `SetTimeFactor` has no lower bound: zero and negative factors are
      stored as given. */
  lemma TimeFactorNoLowerBound(f: real)
    requires f <= 0.0
    ensures Run(Create(), [TimeFactor(f)]).runner.timeFactor == f
  {
    assert [TimeFactor(f)][1..] == [];
  }
}
