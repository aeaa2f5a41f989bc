/**
 The mask a button event reports when a key event or `SetMousePos` came
 between two button calls. `ApplyInputMouseMask` inherits the mask only
 from a previous mouse event, and `SetMousePos` delivers an empty mask, so
 after either the inherited mask is empty: a release then XORs the
 released button's bit into nothing and reports that button as held, and
 a press reports only its own button. The corrected event reports the
 buttons actually held after the call.
 */
module IntendedMask {
  import opened Wrappers
  import opened ButtonMask
  import opened InputEvents
  import opened Sequences
  import opened SceneRunner
  import opened Teardown

  // ---------------------------------------------------------------------
  // The code as written

  /** Left pressed, then key A, then Left released: the release reports
      Left as held (mask value 1) although no button is held any more. */
  lemma ReleaseAfterKeyReportsReleased()
    ensures var s1 := SimulateMouseButtonPress(Create(), Left, false);
            var s2 := SimulateKeyPress(s1.runner, KeyA, false, false);
            var s3 := SimulateMouseButtonRelease(s2.runner, Left);
            && s3.runner.buttonsOnPress == {}
            && s3.emitted[0].buttonMask == ToMouseButtonMask(Left)
            && HasButton(s3.emitted[0].buttonMask, Left)
            && Value(s3.emitted[0].buttonMask) == MaskLeft
  {
    GodotButtonMasks();
  }

  /** Left pressed, `SetMousePos`, then Left released: the same. */
  lemma ReleaseAfterSetMousePosReportsReleased(position: Vec, globalMousePos: Vec)
    ensures var s1 := SimulateMouseButtonPress(Create(), Left, false);
            var s2 := SetMousePos(s1.runner, position, globalMousePos);
            var s3 := SimulateMouseButtonRelease(s2.runner, Left);
            && s3.runner.buttonsOnPress == {}
            && HasButton(s3.emitted[0].buttonMask, Left)
  {
  }

  /** Left pressed, key A, then Right pressed: both are held but the
      press reports only Right. */
  lemma PressAfterKeyDropsHeld()
    ensures var s1 := SimulateMouseButtonPress(Create(), Left, false);
            var s2 := SimulateKeyPress(s1.runner, KeyA, false, false);
            var s3 := SimulateMouseButtonPress(s2.runner, Right, false);
            && s3.runner.buttonsOnPress == {Left, Right}
            && s3.emitted[0].buttonMask == ToMouseButtonMask(Right)
            && !HasButton(s3.emitted[0].buttonMask, Left)
  {
  }

  /** A device that reports every button and key as pressed. */
  function AllDown(id: int): bool {
    true
  }

  /** The reset test's runner before its keys: `SetMousePos`, then Left,
      Right and Middle pressed. */
  function ButtonsHeldRunner(globalMousePos: Vec): Runner {
    var s1 := SetMousePos(Create(), Vec(400, 400), globalMousePos);
    var s2 := SimulateMouseButtonPress(s1.runner, Left, false);
    var s3 := SimulateMouseButtonPress(s2.runner, Right, false);
    SimulateMouseButtonPress(s3.runner, Middle, false).runner
  }

  /** The runner of the reset test: then keys 0 and X pressed, nothing
      released. */
  function ResetTestRunner(globalMousePos: Vec): Runner {
    var s5 := SimulateKeyPress(ButtonsHeldRunner(globalMousePos), Key0, false, false);
    SimulateKeyPress(s5.runner, KeyX, false, false).runner
  }

  lemma ButtonsHeldRunnerState(globalMousePos: Vec)
    ensures var r := ButtonsHeldRunner(globalMousePos);
            r.buttonsOnPress == {Left, Right, Middle} && r.keysOnPress == {} && !r.disposed
  {
  }

  /** The reset test's runner tracks the three buttons and two keys. */
  lemma ResetTestRunnerSets(globalMousePos: Vec)
    ensures var r := ResetTestRunner(globalMousePos);
            r.buttonsOnPress == {Left, Right, Middle} && r.keysOnPress == {Key0, KeyX}
  {
    ButtonsHeldRunnerState(globalMousePos);
  }

  /** In the reset test's runner a key event came last. */
  lemma ResetTestRunnerLast(globalMousePos: Vec)
    ensures var r := ResetTestRunner(globalMousePos);
            r.last.Some? && r.last.value.KeyEvent? && !r.disposed
  {
    ButtonsHeldRunnerState(globalMousePos);
  }

  lemma ResetTestOrders()
    ensures Enumerates([Left, Right, Middle], {Left, Right, Middle})
    ensures Enumerates([Key0, KeyX], {Key0, KeyX})
  {
    var bo := [Left, Right, Middle];
    var ko := [Key0, KeyX];
    assert bo[1..] == [Right, Middle] && bo[1..][1..] == [Middle] && bo[1..][1..][1..] == [];
    assert Elems(bo[1..][1..]) == {Middle};
    assert Elems(bo[1..]) == {Right, Middle};
    assert ko[1..] == [KeyX] && ko[1..][1..] == [];
    assert Elems(ko[1..]) == {KeyX};
  }

  /** After a key event, releasing Left, Right and Middle in that order
      sets their bits one by one. */
  lemma ReleasesAfterKeySetBits(r: Runner)
    requires r.last.Some? && r.last.value.KeyEvent?
    ensures var sb := ReleaseButtons(r, [Left, Right, Middle], AllDown);
            && |sb.emitted| == 3
            && IsButtonRelease(sb.emitted[0]) && sb.emitted[0].buttonIndex == Left
            && sb.emitted[0].buttonMask == ToMouseButtonMask(Left)
            && IsButtonRelease(sb.emitted[2]) && sb.emitted[2].buttonIndex == Middle
            && sb.emitted[2].buttonMask
               == ToMouseButtonMask(Left) + ToMouseButtonMask(Right) + ToMouseButtonMask(Middle)
  {
    var bo := [Left, Right, Middle];
    var e1 := SimulateMouseButtonRelease(r, Left);
    var e2 := SimulateMouseButtonRelease(e1.runner, Right);
    var e3 := SimulateMouseButtonRelease(e2.runner, Middle);
    assert bo[1..] == [Right, Middle] && bo[1..][1..] == [Middle] && bo[1..][1..][1..] == [];
    assert ReleaseButtons(e3.runner, [], AllDown) == Step(e3.runner, []);
    assert ReleaseButtons(e2.runner, bo[1..][1..], AllDown) == Step(e3.runner, e3.emitted);
    assert ReleaseButtons(e1.runner, bo[1..], AllDown) == Step(e3.runner, e2.emitted + e3.emitted);
    assert ReleaseButtons(r, bo, AllDown) == Step(e3.runner, e1.emitted + (e2.emitted + e3.emitted));
  }

  /** Disposing a runner that tracks Left, Right and Middle and keys 0 and
      X, with a key event last and the buttons enumerated in that order:
      the replayed releases start from an empty mask and set bits instead
      of clearing them. */
  lemma DisposeAfterKeyEventSetsBits(r: Runner)
    requires r.buttonsOnPress == {Left, Right, Middle} && r.keysOnPress == {Key0, KeyX}
    requires r.last.Some? && r.last.value.KeyEvent? && !r.disposed
    requires Enumerates([Left, Right, Middle], r.buttonsOnPress) && Enumerates([Key0, KeyX], r.keysOnPress)
    ensures var s := Dispose(r, [Left, Right, Middle], [Key0, KeyX], AllDown, AllDown);
            && |s.emitted| == 5 && s.runner.buttonsOnPress == {} && s.runner.keysOnPress == {}
            && IsButtonRelease(s.emitted[0]) && s.emitted[0].buttonIndex == Left
            && s.emitted[0].buttonMask == ToMouseButtonMask(Left)
            && IsButtonRelease(s.emitted[2]) && s.emitted[2].buttonIndex == Middle
            && s.emitted[2].buttonMask
               == ToMouseButtonMask(Left) + ToMouseButtonMask(Right) + ToMouseButtonMask(Middle)
  {
    var bo := [Left, Right, Middle];
    var ko := [Key0, KeyX];
    ReleasesAfterKeySetBits(r);
    var sb := ReleaseButtons(r, bo, AllDown);
    var sk := ReleaseKeys(sb.runner.(buttonsOnPress := {}), ko, AllDown);
    ReleaseKeysState(sb.runner.(buttonsOnPress := {}), ko, AllDown);
    FilterAll(ko, AllDown);
    DisposeEmits(r, bo, ko, AllDown, AllDown);
    var s := Dispose(r, bo, ko, AllDown, AllDown);
    assert s.emitted == sb.emitted + sk.emitted;
    assert s.emitted[0] == sb.emitted[0] && s.emitted[2] == sb.emitted[2];
  }

  /** The reset test's scenario: its `Dispose` replays a Left release that
      reports Left held and a last button release that reports all three
      buttons, although it leaves none tracked. */
  lemma DisposeAfterKeysSetsBits(globalMousePos: Vec)
    ensures var r := ResetTestRunner(globalMousePos);
            && Enumerates([Left, Right, Middle], r.buttonsOnPress) && Enumerates([Key0, KeyX], r.keysOnPress)
            && var s := Dispose(r, [Left, Right, Middle], [Key0, KeyX], AllDown, AllDown);
               && |s.emitted| == 5 && s.runner.buttonsOnPress == {} && s.runner.keysOnPress == {}
               && IsButtonRelease(s.emitted[0]) && s.emitted[0].buttonMask == ToMouseButtonMask(Left)
               && IsButtonRelease(s.emitted[2]) && s.emitted[2].buttonMask
                  == ToMouseButtonMask(Left) + ToMouseButtonMask(Right) + ToMouseButtonMask(Middle)
  {
    var r := ResetTestRunner(globalMousePos);
    ResetTestRunnerSets(globalMousePos);
    ResetTestRunnerLast(globalMousePos);
    ResetTestOrders();
    DisposeAfterKeyEventSetsBits(r);
  }

  // ---------------------------------------------------------------------
  // The evidently intended mask

  /** Every tracked button is in range, so bits and buttons correspond. */
  predicate AllInRange(held: set<int>) {
    forall b | b in held :: InRange(b)
  }

  /** The mask reports, among the buttons in range, exactly the held ones. */
  ghost predicate ReportsHeld(m: Mask, held: set<int>) {
    forall j | InRange(j) :: HasButton(m, j) <==> j in held
  }

  lemma HeldMaskReportsHeld(held: set<int>)
    requires AllInRange(held)
    ensures ReportsHeld(HeldMask(held), held)
  {
    forall j | InRange(j)
      ensures HasButton(HeldMask(held), j) <==> j in held
    {
      HeldMaskHasButton(held, j);
    }
  }

  /** `ButtonEventOf` with the mask of the buttons held after the call. */
  function IntendedButtonEventOf(last: Option<Event>, index: int, pressed: bool, doubleClick: bool,
                                 held: set<int>): Event {
    MouseButtonEvent(pressed, index, doubleClick, ButtonEventPosition(last), Zero,
                     HeldMask(held), ApplyInputModifiers(NoModifiers, last))
  }

  /** `SimulateMouseButtonPress` with the corrected mask. */
  function IntendedMouseButtonPress(r: Runner, index: int, doubleClick: bool): (s: Step)
    ensures DeliversOne(s) && SameLifecycle(r, s.runner)
    ensures s.runner.buttonsOnPress == r.buttonsOnPress + {index}
    ensures s.runner.keysOnPress == r.keysOnPress
    ensures s.emitted[0].MouseButtonEvent? && s.emitted[0].pressed
    ensures s.emitted[0].buttonIndex == index && s.emitted[0].doubleClick == doubleClick
    ensures AllInRange(s.runner.buttonsOnPress) ==> ReportsHeld(s.emitted[0].buttonMask, s.runner.buttonsOnPress)
  {
    var held := r.buttonsOnPress + {index};
    assert AllInRange(held) ==> ReportsHeld(HeldMask(held), held) by {
      if AllInRange(held) { HeldMaskReportsHeld(held); }
    }
    HandleInputEvent(r.(buttonsOnPress := held),
                     IntendedButtonEventOf(r.last, index, true, doubleClick, held))
  }

  /** `SimulateMouseButtonRelease` with the corrected mask. */
  function IntendedMouseButtonRelease(r: Runner, index: int): (s: Step)
    ensures DeliversOne(s) && SameLifecycle(r, s.runner)
    ensures s.runner.buttonsOnPress == r.buttonsOnPress - {index}
    ensures s.runner.keysOnPress == r.keysOnPress
    ensures s.emitted[0].MouseButtonEvent? && !s.emitted[0].pressed
    ensures s.emitted[0].buttonIndex == index && !s.emitted[0].doubleClick
    ensures AllInRange(r.buttonsOnPress) && InRange(index) ==> !HasButton(s.emitted[0].buttonMask, index)
    ensures AllInRange(s.runner.buttonsOnPress) ==> ReportsHeld(s.emitted[0].buttonMask, s.runner.buttonsOnPress)
  {
    var held := r.buttonsOnPress - {index};
    assert AllInRange(held) ==> ReportsHeld(HeldMask(held), held) by {
      if AllInRange(held) { HeldMaskReportsHeld(held); }
    }
    HandleInputEvent(r.(buttonsOnPress := held),
                     IntendedButtonEventOf(r.last, index, false, false, held))
  }

  /** The button loop of the reset with the corrected release. */
  function IntendedReleaseButtons(r: Runner, order: seq<int>, buttonDown: int -> bool): Step
    decreases |order|
  {
    if |order| == 0 then Step(r, [])
    else
      var s1 := if buttonDown(order[0]) then IntendedMouseButtonRelease(r, order[0]) else Step(r, []);
      var s2 := IntendedReleaseButtons(s1.runner, order[1..], buttonDown);
      Step(s2.runner, s1.emitted + s2.emitted)
  }

  /** The corrected loop untracks the same buttons as the code's, one
      release each. */
  lemma {:induction false} IntendedReleaseButtonsState(r: Runner, order: seq<int>, buttonDown: int -> bool)
    ensures var s := IntendedReleaseButtons(r, order, buttonDown);
            && s.runner.buttonsOnPress == r.buttonsOnPress - Elems(Filter(order, buttonDown))
            && |s.emitted| == |Filter(order, buttonDown)|
    decreases |order|
  {
    if |order| > 0 {
      var s1 := if buttonDown(order[0]) then IntendedMouseButtonRelease(r, order[0]) else Step(r, []);
      IntendedReleaseButtonsState(s1.runner, order[1..], buttonDown);
      FilterCons(order, buttonDown);
    }
  }

  /** The corrected loop's last release carries the mask of the buttons
      left held; a loop that releases nothing changes nothing. */
  lemma {:induction false} IntendedReleaseButtonsLast(r: Runner, order: seq<int>, buttonDown: int -> bool)
    ensures var s := IntendedReleaseButtons(r, order, buttonDown);
            && (|s.emitted| == 0 ==> s.runner == r)
            && (|s.emitted| > 0 ==>
                  IsButtonRelease(s.emitted[|s.emitted| - 1])
                  && s.emitted[|s.emitted| - 1].buttonMask == HeldMask(s.runner.buttonsOnPress))
    decreases |order|
  {
    if |order| > 0 {
      var b := order[0];
      var s1 := if buttonDown(b) then IntendedMouseButtonRelease(r, b) else Step(r, []);
      var s2 := IntendedReleaseButtons(s1.runner, order[1..], buttonDown);
      IntendedReleaseButtonsLast(s1.runner, order[1..], buttonDown);
      var e := s1.emitted + s2.emitted;
      if |s2.emitted| > 0 {
        assert e[|e| - 1] == s2.emitted[|s2.emitted| - 1];
      } else if buttonDown(b) {
        assert e == s1.emitted;
      }
    }
  }

  /** With the correction, releasing every tracked button that the device
      reports as pressed ends on a release with an empty mask, whatever
      event came before. */
  lemma IntendedReleaseAllClears(r: Runner, order: seq<int>, buttonDown: int -> bool)
    requires Enumerates(order, r.buttonsOnPress) && |order| > 0
    requires forall b | b in r.buttonsOnPress :: buttonDown(b)
    ensures var s := IntendedReleaseButtons(r, order, buttonDown);
            && |s.emitted| == |order| && s.runner.buttonsOnPress == {}
            && IsButtonRelease(s.emitted[|order| - 1]) && s.emitted[|order| - 1].buttonMask == {}
  {
    ListsOnly(order, r.buttonsOnPress, buttonDown);
    FilterAll(order, buttonDown);
    IntendedReleaseButtonsState(r, order, buttonDown);
    IntendedReleaseButtonsLast(r, order, buttonDown);
  }

  /** The corrected release on the scenario above reports nothing held. */
  lemma IntendedReleaseAfterKey()
    ensures var s1 := IntendedMouseButtonPress(Create(), Left, false);
            var s2 := SimulateKeyPress(s1.runner, KeyA, false, false);
            var s3 := IntendedMouseButtonRelease(s2.runner, Left);
            s3.emitted[0].buttonMask == {}
  {
  }

  /** The code as written agrees with the correction whenever the previous
      event was a mouse event whose mask was the held mask, the buttons are
      in range, and a release names a held button. */
  lemma AsWrittenAgreesWhenCarried(r: Runner, index: int, pressed: bool)
    requires r.last.Some? && r.last.value.IsMouse()
    requires r.last.value.buttonMask == HeldMask(r.buttonsOnPress)
    requires AllInRange(r.buttonsOnPress) && InRange(index)
    requires pressed || index in r.buttonsOnPress
    ensures ButtonEventMask(r.last, index, pressed)
            == HeldMask(if pressed then r.buttonsOnPress + {index} else r.buttonsOnPress - {index})
  {
    if pressed {
      HeldMaskInsert(r.buttonsOnPress, index);
    } else {
      HeldMaskRemove(r.buttonsOnPress, index);
      HeldMaskHasButton(r.buttonsOnPress, index);
    }
  }
}
