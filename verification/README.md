# Scene runner input synthesis, modelled in Dafny

This project models the input-event synthesiser of gdUnit3's `SceneRunner`
(`GdUnit3.Core.SceneRunner`). It fabricates Godot key, mouse-button and
mouse-motion events for a scene under test. Each new event is merged with the
last delivered one (`LastInputEvent`): modifier flags are always ORed in. A
button event or a `SimulateMouseMove` motion event inherits the previous event's
button mask when that was a mouse event, and a button event also takes its
position; `SetMousePos` inherits no mask. The runner
tracks the keys and buttons it pressed. `Dispose` runs once and replays a
release for every tracked button and key the device still reports as pressed.
The model also covers the matching rule of `GdUnitAwaiter.AwaitSignal`.

The runner is a state machine. Its state is an immutable `Runner` record:

- the last event,
- the tracked key set and the tracked button set,
- the disposed flag,
- the time factor.

Every `Simulate*` call is a pure step function. It returns the next state and
the events it delivered, in order.

Modules:

- `ButtonMask`: `toMouseButtonMask` and the C# `|` and `^` on masks. A 32-bit
  `int` mask is the set of its one-bits, and `Value` gives back the signed
  integer.
- `InputEvents`: the event datatype, the modifier flags and Godot's key codes.
- `SceneRunner`: the merge rules and every single-event call.
- `Teardown`: `ResetInputToDefault` and `Dispose`.
- `Gestures`: chains of calls, as tests write them.
- `SignalAwaiter`: the matching rule of `AwaitSignal`.
- `IntendedMask`: the mask defect listed under Findings, and its correction.
- `Sequences` and `Wrappers`: generic helpers.

Engine queries become parameters:

- `GetGlobalMousePosition()` for `SetMousePos`.
- The viewport's mouse position for the `GetMousePosition` fallback.
- `Input.IsMouseButtonPressed` and `Input.IsKeyPressed` for the reset, as
  oracle functions.
- The unspecified iteration order of the two `HashSet`s, as order sequences.
  Each must list its set once per member (`Enumerates`).

The model follows the code in these places:

- `SetTimeFactor` stores `Math.Min(9.0, f)`. There is no lower clamp, so zero
  and negative factors are kept (`Gestures.TimeFactorNoLowerBound`).
- A button event copies only `Position` from the previous mouse event. Its
  `GlobalPosition` stays at the origin.
- Modifier flags are never cleared, not even by releasing the modifier key
  (`Gestures.ShiftReleasedStaysSet`).
- Out-of-range button indices are not rejected. C# masks the shift count to
  five bits, so `toMouseButtonMask` is total (`ButtonMask.ShiftCount`).

## Model

| member | source | states |
|---|---|---|
| ButtonMask.ToMouseButtonMask | src/core/SceneRunner.cs:187-191 | a button's mask has exactly one bit set |
| ButtonMask.MasksDisjoint | src/core/SceneRunner.cs:187-191 | for indices 1..32, two buttons' masks share no bit iff the buttons differ, and a button's mask reports that button and no other |
| ButtonMask.ToMouseButtonMaskValue | src/core/SceneRunner.cs:189 | as an `int`, the mask of button i is 2^(i-1) for i in 1..31, and `int.MinValue` for 32 |
| ButtonMask.GodotButtonMasks | test/core/SceneRunnerInputEventIntegrationTest.cs:58-71 | Left, Middle, Right, X1 and X2 map to Godot's `Mask*` values; WheelUp, WheelDown, WheelLeft and WheelRight map to 8, 16, 32 and 64 |
| ButtonMask.XorAllDistinct | src/core/SceneRunner.cs:183 | toggling the bits of distinct in-range buttons, in any order, gives the mask of exactly that set of buttons |
| SceneRunner.ApplyInputModifiers | src/core/SceneRunner.cs:156-165 | the merged flags contain the event's own flags and the previous event's flags, and nothing else |
| SceneRunner.ButtonEventMask | src/core/SceneRunner.cs:171-185 | a button event reports its own button iff it is a press or the carried mask did not report it, and every other bit is the carried mask's (the previous mouse event's, else none) |
| SceneRunner.ButtonEventsKeepMousePosition | src/core/SceneRunner.cs:198-202 | once a mouse event was delivered, a button event lands at the mouse position and leaves it there; otherwise it lands at the origin and the mouse position becomes the origin |
| SceneRunner.MousePositionAfterCalls | src/core/SceneRunner.cs:311-316 | after `SetMousePos` or `SimulateMouseMove` to p the mouse position is p whatever the viewport reports; after a key event it is the viewport's |
| SceneRunner.HandleInputEvent | src/core/SceneRunner.cs:209-228 | delivers exactly the given event and remembers it as the last one; nothing else changes |
| SceneRunner.Create | src/core/SceneRunner.cs:119-130 | a new runner has no last event, tracks nothing, is not disposed and has time factor 1 |
| SceneRunner.SimulateKeyPress | src/core/SceneRunner.cs:230-243 | one pressed key event is delivered and remembered; only the key is added to the key set; alt, shift, control and meta are each set iff the key, the argument or the previous event sets them |
| SceneRunner.SimulateKeyRelease | src/core/SceneRunner.cs:252-265 | one released key event with the same flag rules; only the key leaves the key set |
| SceneRunner.SimulateKeyPressed | src/core/SceneRunner.cs:245-250 | exactly two events, a press then a release of the key, with equal flags; afterwards the key is not tracked |
| SceneRunner.SimulateMouseButtonPress | src/core/SceneRunner.cs:274-287 | one pressed button event; the button is added to the button set; the mask has the button's bit and otherwise equals the mask carried from a previous mouse event (none after a key event); the position is the previous mouse event's position and the modifiers are the previous event's |
| SceneRunner.SimulateMouseButtonRelease | src/core/SceneRunner.cs:289-300 | one released button event without double-click; the button leaves the button set; the button's bit is set iff it was clear in the carried mask (XOR), and the other bits are the carried ones |
| SceneRunner.SimulateMouseButtonPressed | src/core/SceneRunner.cs:267-272 | a press then a release of the button; double-click only on the press; the release's mask is the carried mask without the button's bit; same position and modifiers on both; afterwards the button is not tracked |
| SceneRunner.SetMousePos | src/core/SceneRunner.cs:302-309 | one motion event at the position, with the engine's global mouse position, no relative motion and an empty mask; the tracked sets are unchanged |
| SceneRunner.SimulateMouseMove | src/core/SceneRunner.cs:321-329 | one motion event at the position whose relative motion leads from the current mouse position to it; it carries the previous mouse event's mask |
| SceneRunner.SetTimeFactor | src/core/SceneRunner.cs:352-360 | the stored factor is at most 9, equals the argument when that is at most 9, is 9 otherwise, and nothing else changes |
| Teardown.ReleaseButtonsSpec | src/core/SceneRunner.cs:135-140 | the button loop (`Teardown.ReleaseButtons`): it untracks and releases, in list order, exactly the listed buttons the device reports as pressed, leaves keys and lifecycle alone and remembers its last release |
| Teardown.ReleaseKeysSpec | src/core/SceneRunner.cs:142-147 | the key loop (`Teardown.ReleaseKeys`): the same for the listed keys |
| Teardown.ReleaseButtonsState | src/core/SceneRunner.cs:135-139 | the button loop untracks exactly the listed buttons the device reports as pressed, and delivers one event for each |
| Teardown.ReleaseButtonsEvents | src/core/SceneRunner.cs:135-139 | the button loop's k-th event is a release of the k-th listed button the device reports as pressed |
| Teardown.ReleaseKeysState | src/core/SceneRunner.cs:142-146 | the key loop untracks exactly the listed keys the device reports as pressed, and delivers one event for each |
| Teardown.ReleaseButtonsModifiers | src/core/SceneRunner.cs:135-139 | releasing buttons never changes the last event's modifier flags |
| Teardown.ReleaseKeysModifiers | src/core/SceneRunner.cs:142-146 | releasing keys adds the flags of exactly the modifier keys released to the last event's |
| Teardown.ReleaseKeysEvents | src/core/SceneRunner.cs:142-146 | the key loop's k-th event is a release of the k-th listed key the device reports as pressed |
| Teardown.ReleaseButtonsOnce | src/core/SceneRunner.cs:135-139 | whatever the enumeration order, the button loop releases each tracked pressed button exactly once and nothing else |
| Teardown.ReleaseKeysOnce | src/core/SceneRunner.cs:142-146 | whatever the enumeration order, the key loop releases each tracked pressed key exactly once and nothing else |
| Teardown.ResetInputToDefault | src/core/SceneRunner.cs:132-149 | one release per tracked button the device reports as pressed, then one per such key; both tracked sets end empty; the time factor is kept and the last release is remembered |
| Teardown.Dispose | src/core/SceneRunner.cs:463-485 | afterwards the runner is disposed; a disposed runner is returned unchanged with no events; otherwise the releases are replayed as in the reset |
| Teardown.DisposeTwice | src/core/SceneRunner.cs:466-469 | a second `Dispose` changes nothing and delivers nothing, whatever the device then reports |
| Teardown.DisposeOrderIndependent | src/core/SceneRunner.cs:135-147 | the state after disposal, apart from which event came last, and the number of events do not depend on the HashSet enumeration order; neither do the last event's flags, nor, with a mouse event last, no key released and the buttons in range, its mask |
| Teardown.ReleaseButtonsMask | src/core/SceneRunner.cs:171-185 | after a mouse event, the button loop toggles the carried mask by the bits of the buttons it releases |
| Teardown.DisposeClearsMask | src/core/SceneRunner.cs:132-139 | when the last event is a mouse event whose mask is exactly the held buttons' (and they are in range), and the device reports them all pressed, the last replayed button release carries an empty mask; with a key event last this fails (`IntendedMask.DisposeAfterKeysSetsBits`) |
| Teardown.DisposeModifiers | src/core/SceneRunner.cs:142-146 | the last event after disposal carries the previous flags together with those of the modifier keys it releases, whatever the order |
| Teardown.DisposeLastMask | src/core/SceneRunner.cs:171-185 | with a mouse event last, no key to release and the buttons in range, the last mask after disposal is the previous one with the released buttons' bits toggled |
| Gestures.RunAccumulates | src/core/SceneRunner.cs:156-165 | along any chain of calls, every event keeps the flags of every earlier event and of the event before the chain |
| Gestures.ApplyTracks | src/core/SceneRunner.cs:241 | each call changes the tracked sets only in the id it names: a plain press adds it, and a release or composite press removes it |
| Gestures.RunTracks | test/core/SceneRunnerInputEventIntegrationTest.cs:165-186 | after a chain of calls, an id is tracked iff the last call naming it was a plain press, or, if no call names it, iff it was tracked before |
| Gestures.RunKeepsDisposed | src/core/SceneRunner.cs:230-329 | input calls never change the disposed flag or the time factor |
| Gestures.RunMoves | src/core/SceneRunner.cs:321-329 | running one move command per point is moving along the path |
| Gestures.MoveAlongEvents | src/core/SceneRunner.cs:321-329 | one motion event per point, at that point, with the mask carried into the chain; the mouse position ends at the last point |
| Gestures.MoveAlongRelative | src/core/SceneRunner.cs:325 | the relative motions of a chain of moves add up to the way from the starting mouse position to the last point |
| Gestures.MovesTelescope | src/core/SceneRunner.cs:321-329 | the two previous properties for a chain of `SimulateMouseMove` commands |
| Gestures.ShiftThenA | test/core/SceneRunnerInputEventIntegrationTest.cs:137-162 | Shift then A: the A event carries shift and both keys are tracked |
| Gestures.ShiftReleasedStaysSet | src/core/SceneRunner.cs:156-165 | after Shift is released, a later A event and a later button event still carry shift |
| Gestures.LeftRightPressRelease | test/core/SceneRunnerInputEventIntegrationTest.cs:432-493 | press Left, press Right, click Right, click Left give the masks L, L\|R, L\|R, L, L, 0, and nothing stays tracked |
| Gestures.ModifierThenSetMousePos | test/core/SceneRunnerInputEventIntegrationTest.cs:229-276 | a modifier key, `SetMousePos(0,0)`, then a button press: the press is at the origin, carries exactly that modifier and only the button's bit; the release has an empty mask |
| Gestures.TimeFactorNoLowerBound | src/core/SceneRunner.cs:354 | a zero or negative time factor is stored unchanged |
| SignalAwaiter.AwaitedFirstMatch | src/core/SceneRunner.cs:87-95 | the await completes on the first matching emission and skips all before it; it stays pending iff nothing matches; a null expected list faults on the first emission |
| SignalAwaiter.EmptyExpectedTakesFirst | src/core/SceneRunner.cs:92 | an empty expected list completes on the very first emission |
| SignalAwaiter.AwaitSignal | src/core/SceneRunner.cs:87-95 | the loop's outcome is the reference outcome, and a completion is on a matching emission |
| IntendedMask.ReleaseAfterKeyReportsReleased | src/core/SceneRunner.cs:174-183 | press Left, key A, release Left: nothing is tracked, but the release's mask is Left's bit (value 1) |
| IntendedMask.ReleaseAfterSetMousePosReportsReleased | src/core/SceneRunner.cs:302-309 | press Left, `SetMousePos`, release Left: the release reports Left as held |
| IntendedMask.PressAfterKeyDropsHeld | src/core/SceneRunner.cs:174-181 | press Left, key A, press Right: both are tracked, but the mask reports only Right |
| IntendedMask.IntendedMouseButtonPress | src/core/SceneRunner.cs:274-287 | the corrected press: when the tracked buttons are in range, its mask reports exactly the buttons held after the call |
| IntendedMask.IntendedMouseButtonRelease | src/core/SceneRunner.cs:289-300 | the corrected release: when the tracked buttons and the released one are in range, its mask does not report the released button and reports exactly the buttons still held |
| IntendedMask.DisposeAfterKeyEventSetsBits | src/core/SceneRunner.cs:132-139 | disposing a runner holding Left, Right, Middle and keys 0 and X, with a key event last: the Left release reports Left held and the Middle release reports all three buttons |
| IntendedMask.DisposeAfterKeysSetsBits | test/core/SceneRunnerInputEventIntegrationTest.cs:76-95 | the reset test's own scenario (`SetMousePos`, three buttons, two keys, `Dispose`) ends in those releases, with nothing tracked |
| IntendedMask.ReleasesAfterKeySetBits | src/core/SceneRunner.cs:174-183 | after a key event, releasing Left, Right, Middle in turn reports Left held first and all three held last |
| IntendedMask.ResetTestRunnerSets | test/core/SceneRunnerInputEventIntegrationTest.cs:76-83 | the reset test's calls leave the three buttons and the two keys tracked |
| IntendedMask.ResetTestRunnerLast | test/core/SceneRunnerInputEventIntegrationTest.cs:76-83 | and leave a key event as the last one, with the runner not yet disposed |
| IntendedMask.IntendedReleaseButtonsState | src/core/SceneRunner.cs:135-140 | the reset's button loop with the corrected release untracks the same buttons as the code's |
| IntendedMask.IntendedReleaseButtonsLast | src/core/SceneRunner.cs:135-140 | its last release carries the mask of the buttons left held |
| IntendedMask.IntendedReleaseAllClears | src/core/SceneRunner.cs:132-139 | with the correction, releasing every tracked button ends on an empty mask, whatever event came before |
| IntendedMask.IntendedReleaseAfterKey | src/core/SceneRunner.cs:289-300 | on the scenario above, the corrected release reports an empty mask |
| IntendedMask.AsWrittenAgreesWhenCarried | src/core/SceneRunner.cs:171-185 | when the previous event was a mouse event whose mask was the held mask, the code's mask equals the corrected one for a press and for the release of a held button |

## Left out

- `GdUnitAwaiter.WithTimeout`, `AwaitIdleFrame`, `AwaitMillis` and `SimulateFrames`: task races, wall-clock delays and engine signals.
- `SimulateMouseMoveRelative`: float interpolation with `IsEqualApprox`; its loop does not end when `speed.x` is 0.
- `ActivateTimeFactor` and `DeactivateTimeFactor`: they write engine globals. The model keeps only the stored factor.
- Engine delivery inside `HandleInputEvent`: `WarpMousePosition`, `ParseInputEvent`, the `_gui_input` and `_unhandled_input` calls and `SetInputAsHandled`. Delivery is the emitted event log; only the last event is remembered.
- `Print`, `PrintCurrentFocus`, `SceneName`, `MoveWindowToForeground` and the window toggles and scene removal in `Dispose`: I/O and foreign calls.
- `GodotMethodAwaiter`, `Invoke`, `GetProperty` and `FindNode`: thin wrappers over Godot reflection.
- `Input.FlushBufferedEvents` in the reset: it is an engine call.
- The scene loading in the constructor: it is an engine call. `SceneRunner.Create` keeps the input state only.
- src/core/GdUnitTestSuiteBuilder.cs, TestRunner.cs, src/ISignalAssert.cs and src/core/attributes/TestStageAttribute.cs are not part of this model.
- `Scancode` and `PhysicalScancode`: the model keeps one `scancode`, because both are set to the same value.
- The `(uint)` cast of the key code: key codes are kept as unbounded integers, because Godot's codes are all non-negative.
- SceneRunner.SetTimeFactor: `Math.Min` on a NaN argument is not modelled, because factors are reals.
- Positions are integer pairs instead of float `Vector2`, because the runner only copies and subtracts them.
- IntendedMask.IntendedMouseButtonRelease: states the release only for in-range buttons, because an out-of-range index shares a bit with an in-range button (33 with Left), so no mask can tell them apart.
- SignalAwaiter.AwaitSignal: the emissions are a finite sequence, so an await that never completes shows up as `Pending`.

## Findings

| source | as written | input that shows it | evidently intended | confidence | as-written member | corrected member |
|---|---|---|---|---|---|---|
| src/core/SceneRunner.cs:174-183 | a button event inherits the mask only when the previous event was a mouse event, and a release XORs its bit in | press Left, press key A, release Left: the release's mask is 1 (Left held) although no button is held; the same after `SetMousePos`; and in `Dispose` after keys were pressed, as in the reset test, the replayed releases set the buttons' bits one by one instead of clearing them | a button event reports the buttons held after the call | not executed | IntendedMask.ReleaseAfterKeyReportsReleased | IntendedMask.IntendedMouseButtonRelease |

The rest of the model keeps the code's behaviour, so that every other row
describes the runner as it is. `IntendedMask.AsWrittenAgreesWhenCarried`
bounds the difference: the two masks agree whenever the previous event was a
mouse event that carried the held mask. Press Left, key A, press Right
(`IntendedMask.PressAfterKeyDropsHeld`) shows the same defect on a press, and
`IntendedMask.DisposeAfterKeysSetsBits` shows it in `Dispose`, where
`IntendedMask.IntendedReleaseAllClears` proves the corrected loop ends on an
empty mask.
