/**
 `ResetInputToDefault` and `Dispose`: disposal runs once and replays a
 release for every tracked button and then every tracked key that the
 device still reports as pressed, and finally clears both tracked sets.

 The device query (`Input.IsMouseButtonPressed` / `Input.IsKeyPressed`) is
 an oracle parameter, and the unspecified HashSet iteration order is an
 order parameter that enumerates the tracked set.
 */
module Teardown {
  import opened Wrappers
  import opened Sequences
  import opened ButtonMask
  import opened InputEvents
  import opened SceneRunner

  predicate IsButtonRelease(e: Event) {
    e.MouseButtonEvent? && !e.pressed
  }

  predicate IsKeyRelease(e: Event) {
    e.KeyEvent? && !e.pressed
  }

  /** The tracked ids the device reports as pressed. */
  function PressedAmong(held: set<int>, down: int -> bool): set<int> {
    set x | x in held && down(x)
  }

  /** The button loop of `ResetInputToDefault`, in the given order. */
  function ReleaseButtons(r: Runner, order: seq<int>, buttonDown: int -> bool): Step
    decreases |order|
  {
    if |order| == 0 then Step(r, [])
    else
      var s1 := if buttonDown(order[0]) then SimulateMouseButtonRelease(r, order[0]) else Step(r, []);
      var s2 := ReleaseButtons(s1.runner, order[1..], buttonDown);
      Step(s2.runner, s1.emitted + s2.emitted)
  }

  /** The button loop untracks exactly the listed buttons the device
      reports as pressed, and delivers one event for each. */
  lemma {:induction false} ReleaseButtonsState(r: Runner, order: seq<int>, buttonDown: int -> bool)
    ensures var s := ReleaseButtons(r, order, buttonDown);
      && s.runner.keysOnPress == r.keysOnPress && SameLifecycle(r, s.runner)
      && s.runner.buttonsOnPress == r.buttonsOnPress - Elems(Filter(order, buttonDown))
      && |s.emitted| == |Filter(order, buttonDown)|
    decreases |order|
  {
    if |order| > 0 {
      var s1 := if buttonDown(order[0]) then SimulateMouseButtonRelease(r, order[0]) else Step(r, []);
      ReleaseButtonsState(s1.runner, order[1..], buttonDown);
      FilterCons(order, buttonDown);
    }
  }

  /** The button loop's events release the pressed listed buttons in list
      order. */
  lemma {:induction false} ReleaseButtonsEvents(r: Runner, order: seq<int>, buttonDown: int -> bool)
    ensures var s := ReleaseButtons(r, order, buttonDown);
      |s.emitted| == |Filter(order, buttonDown)| &&
      forall k | 0 <= k < |s.emitted| ::
        IsButtonRelease(s.emitted[k]) && s.emitted[k].buttonIndex == Filter(order, buttonDown)[k]
    decreases |order|
  {
    if |order| > 0 {
      var b := order[0];
      var f := Filter(order, buttonDown);
      var f' := Filter(order[1..], buttonDown);
      FilterStep(order, buttonDown);
      var s := ReleaseButtons(r, order, buttonDown);
      if buttonDown(b) {
        var s1 := SimulateMouseButtonRelease(r, b);
        var s2 := ReleaseButtons(s1.runner, order[1..], buttonDown);
        ReleaseButtonsEvents(s1.runner, order[1..], buttonDown);
        assert s.emitted == [s1.emitted[0]] + s2.emitted;
        assert f == [b] + f';
        forall k | 0 <= k < |s.emitted|
          ensures IsButtonRelease(s.emitted[k]) && s.emitted[k].buttonIndex == f[k]
        {
          if k > 0 {
            assert s.emitted[k] == s2.emitted[k - 1] && f[k] == f'[k - 1];
          }
        }
      } else {
        ReleaseButtonsEvents(r, order[1..], buttonDown);
        assert s == ReleaseButtons(r, order[1..], buttonDown);
      }
    }
  }

  /** The last event of the button loop is remembered as the last event. */
  lemma {:induction false} ReleaseButtonsLast(r: Runner, order: seq<int>, buttonDown: int -> bool)
    ensures RemembersLast(r, ReleaseButtons(r, order, buttonDown))
    decreases |order|
  {
    if |order| > 0 {
      var b := order[0];
      var s1 := if buttonDown(b) then SimulateMouseButtonRelease(r, b) else Step(r, []);
      var s2 := ReleaseButtons(s1.runner, order[1..], buttonDown);
      ReleaseButtonsLast(s1.runner, order[1..], buttonDown);
      RemembersLastJoin(r, s1, s1.runner, s2);
    }
  }

  /** The button loop, all in one: it untracks and releases, in list order,
      exactly the listed buttons the device reports as pressed. */
  lemma ReleaseButtonsSpec(r: Runner, order: seq<int>, buttonDown: int -> bool)
    ensures var s := ReleaseButtons(r, order, buttonDown);
      && s.runner.keysOnPress == r.keysOnPress && SameLifecycle(r, s.runner)
      && s.runner.buttonsOnPress == r.buttonsOnPress - Elems(Filter(order, buttonDown))
      && |s.emitted| == |Filter(order, buttonDown)|
      && (forall k | 0 <= k < |s.emitted| ::
            IsButtonRelease(s.emitted[k]) && s.emitted[k].buttonIndex == Filter(order, buttonDown)[k])
      && RemembersLast(r, s)
  {
    ReleaseButtonsState(r, order, buttonDown);
    ReleaseButtonsEvents(r, order, buttonDown);
    ReleaseButtonsLast(r, order, buttonDown);
  }

  /** The key loop of `ResetInputToDefault`, in the given order. */
  function ReleaseKeys(r: Runner, order: seq<int>, keyDown: int -> bool): Step
    decreases |order|
  {
    if |order| == 0 then Step(r, [])
    else
      var s1 := if keyDown(order[0]) then SimulateKeyRelease(r, order[0], false, false) else Step(r, []);
      var s2 := ReleaseKeys(s1.runner, order[1..], keyDown);
      Step(s2.runner, s1.emitted + s2.emitted)
  }

  /** The key loop untracks exactly the listed keys the device reports as
      pressed, and delivers one event for each. */
  lemma {:induction false} ReleaseKeysState(r: Runner, order: seq<int>, keyDown: int -> bool)
    ensures var s := ReleaseKeys(r, order, keyDown);
      && s.runner.buttonsOnPress == r.buttonsOnPress && SameLifecycle(r, s.runner)
      && s.runner.keysOnPress == r.keysOnPress - Elems(Filter(order, keyDown))
      && |s.emitted| == |Filter(order, keyDown)|
    decreases |order|
  {
    if |order| > 0 {
      var s1 := if keyDown(order[0]) then SimulateKeyRelease(r, order[0], false, false) else Step(r, []);
      ReleaseKeysState(s1.runner, order[1..], keyDown);
      FilterCons(order, keyDown);
    }
  }

  /** The key loop's events release the pressed listed keys in list order. */
  lemma {:induction false} ReleaseKeysEvents(r: Runner, order: seq<int>, keyDown: int -> bool)
    ensures var s := ReleaseKeys(r, order, keyDown);
      |s.emitted| == |Filter(order, keyDown)| &&
      forall k | 0 <= k < |s.emitted| ::
        IsKeyRelease(s.emitted[k]) && s.emitted[k].scancode == Filter(order, keyDown)[k]
    decreases |order|
  {
    if |order| > 0 {
      var b := order[0];
      var f := Filter(order, keyDown);
      var f' := Filter(order[1..], keyDown);
      FilterStep(order, keyDown);
      var s := ReleaseKeys(r, order, keyDown);
      if keyDown(b) {
        var s1 := SimulateKeyRelease(r, b, false, false);
        var s2 := ReleaseKeys(s1.runner, order[1..], keyDown);
        ReleaseKeysEvents(s1.runner, order[1..], keyDown);
        assert s.emitted == [s1.emitted[0]] + s2.emitted;
        assert f == [b] + f';
        forall k | 0 <= k < |s.emitted|
          ensures IsKeyRelease(s.emitted[k]) && s.emitted[k].scancode == f[k]
        {
          if k > 0 {
            assert s.emitted[k] == s2.emitted[k - 1] && f[k] == f'[k - 1];
          }
        }
      } else {
        ReleaseKeysEvents(r, order[1..], keyDown);
        assert s == ReleaseKeys(r, order[1..], keyDown);
      }
    }
  }

  /** The last event of the key loop is remembered as the last event. */
  lemma {:induction false} ReleaseKeysLast(r: Runner, order: seq<int>, keyDown: int -> bool)
    ensures RemembersLast(r, ReleaseKeys(r, order, keyDown))
    decreases |order|
  {
    if |order| > 0 {
      var c := order[0];
      var s1 := if keyDown(c) then SimulateKeyRelease(r, c, false, false) else Step(r, []);
      var s2 := ReleaseKeys(s1.runner, order[1..], keyDown);
      ReleaseKeysLast(s1.runner, order[1..], keyDown);
      RemembersLastJoin(r, s1, s1.runner, s2);
    }
  }

  /** The key loop, all in one: it untracks and releases, in list order,
      exactly the listed keys the device reports as pressed. */
  lemma ReleaseKeysSpec(r: Runner, order: seq<int>, keyDown: int -> bool)
    ensures var s := ReleaseKeys(r, order, keyDown);
      && s.runner.buttonsOnPress == r.buttonsOnPress && SameLifecycle(r, s.runner)
      && s.runner.keysOnPress == r.keysOnPress - Elems(Filter(order, keyDown))
      && |s.emitted| == |Filter(order, keyDown)|
      && (forall k | 0 <= k < |s.emitted| ::
            IsKeyRelease(s.emitted[k]) && s.emitted[k].scancode == Filter(order, keyDown)[k])
      && RemembersLast(r, s)
  {
    ReleaseKeysState(r, order, keyDown);
    ReleaseKeysEvents(r, order, keyDown);
    ReleaseKeysLast(r, order, keyDown);
  }

  /** One button release per id of `ids`, each id exactly once. */
  predicate ReleasesButtonsOnce(events: seq<Event>, ids: set<int>) {
    && |events| == |ids|
    && (forall k | 0 <= k < |events| :: IsButtonRelease(events[k]) && events[k].buttonIndex in ids)
    && (forall k, l | 0 <= k < l < |events| :: events[k].buttonIndex != events[l].buttonIndex)
  }

  /** One key release per id of `ids`, each id exactly once. */
  predicate ReleasesKeysOnce(events: seq<Event>, ids: set<int>) {
    && |events| == |ids|
    && (forall k | 0 <= k < |events| :: IsKeyRelease(events[k]) && events[k].scancode in ids)
    && (forall k, l | 0 <= k < l < |events| :: events[k].scancode != events[l].scancode)
  }

  /** The releases replayed for `r`: one per pressed tracked button, then
      one per pressed tracked key, and afterwards nothing is tracked. */
  predicate ReplaysReleases(r: Runner, s: Step, buttonDown: int -> bool, keyDown: int -> bool) {
    var pb := PressedAmong(r.buttonsOnPress, buttonDown);
    var pk := PressedAmong(r.keysOnPress, keyDown);
    && s.runner.buttonsOnPress == {} && s.runner.keysOnPress == {}
    && s.runner.timeFactor == r.timeFactor
    && |pb| <= |s.emitted|
    && ReleasesButtonsOnce(s.emitted[..|pb|], pb)
    && ReleasesKeysOnce(s.emitted[|pb|..], pk)
    && RemembersLast(r, s)
  }

  /** Filtering an enumeration of a set by the oracle enumerates the
      pressed members. */
  lemma FilterEnumerates(order: seq<int>, held: set<int>, down: int -> bool)
    requires Enumerates(order, held)
    ensures Enumerates(Filter(order, down), PressedAmong(held, down))
    ensures |Filter(order, down)| == |PressedAmong(held, down)|
  {
    FilterDistinct(order, down);
    DistinctCard(Filter(order, down));
  }

  lemma ReleaseButtonsOnce(r: Runner, order: seq<int>, held: set<int>, buttonDown: int -> bool)
    requires Enumerates(order, held)
    ensures ReleasesButtonsOnce(ReleaseButtons(r, order, buttonDown).emitted, PressedAmong(held, buttonDown))
  {
    ReleaseButtonsSpec(r, order, buttonDown);
    FilterEnumerates(order, held, buttonDown);
  }

  lemma ReleaseKeysOnce(r: Runner, order: seq<int>, held: set<int>, keyDown: int -> bool)
    requires Enumerates(order, held)
    ensures ReleasesKeysOnce(ReleaseKeys(r, order, keyDown).emitted, PressedAmong(held, keyDown))
  {
    ReleaseKeysSpec(r, order, keyDown);
    FilterEnumerates(order, held, keyDown);
  }

  /** The button loop, then the key loop on the runner with its button
      set cleared, replay the releases. */
  lemma ResetReplays(r: Runner, buttonOrder: seq<int>, keyOrder: seq<int>,
                     buttonDown: int -> bool, keyDown: int -> bool)
    requires Enumerates(buttonOrder, r.buttonsOnPress) && Enumerates(keyOrder, r.keysOnPress)
    ensures var sb := ReleaseButtons(r, buttonOrder, buttonDown);
            var sk := ReleaseKeys(sb.runner.(buttonsOnPress := {}), keyOrder, keyDown);
            ReplaysReleases(r, Step(sk.runner.(keysOnPress := {}), sb.emitted + sk.emitted), buttonDown, keyDown)
  {
    var sb := ReleaseButtons(r, buttonOrder, buttonDown);
    var rb := sb.runner.(buttonsOnPress := {});
    var sk := ReleaseKeys(rb, keyOrder, keyDown);
    var pb := PressedAmong(r.buttonsOnPress, buttonDown);
    var pk := PressedAmong(r.keysOnPress, keyDown);
    ReleaseButtonsState(r, buttonOrder, buttonDown);
    ReleaseButtonsLast(r, buttonOrder, buttonDown);
    ReleaseKeysState(rb, keyOrder, keyDown);
    ReleaseKeysLast(rb, keyOrder, keyDown);
    ReleaseButtonsOnce(r, buttonOrder, r.buttonsOnPress, buttonDown);
    ReleaseKeysOnce(rb, keyOrder, r.keysOnPress, keyDown);
    var e := sb.emitted + sk.emitted;
    assert |sb.emitted| == |pb|;
    assert e[..|pb|] == sb.emitted;
    assert e[|pb|..] == sk.emitted;
    var s := Step(sk.runner.(keysOnPress := {}), e);
    assert s.runner.buttonsOnPress == {} && s.runner.keysOnPress == {};
    assert s.runner.timeFactor == r.timeFactor;
    assert |pb| <= |s.emitted|;
    assert ReleasesButtonsOnce(s.emitted[..|pb|], pb);
    assert ReleasesKeysOnce(s.emitted[|pb|..], pk);
    RemembersLastJoin(r, sb, rb, sk);
  }

  function ResetInputToDefault(r: Runner, buttonOrder: seq<int>, keyOrder: seq<int>,
                               buttonDown: int -> bool, keyDown: int -> bool): (s: Step)
    requires Enumerates(buttonOrder, r.buttonsOnPress) && Enumerates(keyOrder, r.keysOnPress)
    ensures ReplaysReleases(r, s, buttonDown, keyDown)
    ensures s.runner.disposed == r.disposed
  {
    var sb := ReleaseButtons(r, buttonOrder, buttonDown);
    var sk := ReleaseKeys(sb.runner.(buttonsOnPress := {}), keyOrder, keyDown);
    ResetReplays(r, buttonOrder, keyOrder, buttonDown, keyDown);
    ReleaseButtonsState(r, buttonOrder, buttonDown);
    ReleaseKeysState(sb.runner.(buttonsOnPress := {}), keyOrder, keyDown);
    Step(sk.runner.(keysOnPress := {}), sb.emitted + sk.emitted)
  }

  /** `Dispose`: a no-op once disposed; otherwise it replays the releases
      and sets the disposed flag. */
  function Dispose(r: Runner, buttonOrder: seq<int>, keyOrder: seq<int>,
                   buttonDown: int -> bool, keyDown: int -> bool): (s: Step)
    requires Enumerates(buttonOrder, r.buttonsOnPress) && Enumerates(keyOrder, r.keysOnPress)
    ensures s.runner.disposed
    ensures r.disposed ==> s == Step(r, [])
    ensures !r.disposed ==> ReplaysReleases(r, s, buttonDown, keyDown)
  {
    if r.disposed then Step(r, [])
    else
      var s := ResetInputToDefault(r, buttonOrder, keyOrder, buttonDown, keyDown);
      ReplaysIgnoresDisposed(r, s, buttonDown, keyDown);
      Step(s.runner.(disposed := true), s.emitted)
  }

  /** Setting the disposed flag does not affect the replayed releases. */
  lemma ReplaysIgnoresDisposed(r: Runner, s: Step, buttonDown: int -> bool, keyDown: int -> bool)
    requires ReplaysReleases(r, s, buttonDown, keyDown)
    ensures ReplaysReleases(r, Step(s.runner.(disposed := true), s.emitted), buttonDown, keyDown)
  {
    var s' := Step(s.runner.(disposed := true), s.emitted);
    assert RemembersLast(r, s');
  }

  /** A second `Dispose` changes nothing and delivers nothing, whatever
      the device reports. */
  lemma DisposeTwice(r: Runner, buttonOrder: seq<int>, keyOrder: seq<int>,
                     buttonDown: int -> bool, keyDown: int -> bool,
                     buttonOrder': seq<int>, keyOrder': seq<int>,
                     buttonDown': int -> bool, keyDown': int -> bool)
    requires Enumerates(buttonOrder, r.buttonsOnPress) && Enumerates(keyOrder, r.keysOnPress)
    requires var s := Dispose(r, buttonOrder, keyOrder, buttonDown, keyDown);
             Enumerates(buttonOrder', s.runner.buttonsOnPress) && Enumerates(keyOrder', s.runner.keysOnPress)
    ensures var s := Dispose(r, buttonOrder, keyOrder, buttonDown, keyDown);
            Dispose(s.runner, buttonOrder', keyOrder', buttonDown', keyDown') == Step(s.runner, [])
  {
  }

  /** The flags a set of released keys sets by itself: alt, shift and
      control for the modifier keys among them. */
  function KeyFlags(keys: set<int>): Modifiers {
    Modifiers(KeyAlt in keys, KeyShift in keys, KeyControl in keys, false)
  }

  /** Button releases add no modifier flags. */
  lemma {:induction false} ReleaseButtonsModifiers(r: Runner, order: seq<int>, buttonDown: int -> bool)
    ensures LastModifiers(ReleaseButtons(r, order, buttonDown).runner.last) == LastModifiers(r.last)
    decreases |order|
  {
    if |order| > 0 {
      var s1 := if buttonDown(order[0]) then SimulateMouseButtonRelease(r, order[0]) else Step(r, []);
      ReleaseButtonsModifiers(s1.runner, order[1..], buttonDown);
    }
  }

  /** Key releases add the flags of the modifier keys they release, and
      nothing else. */
  lemma {:induction false} ReleaseKeysModifiers(r: Runner, order: seq<int>, keyDown: int -> bool)
    ensures LastModifiers(ReleaseKeys(r, order, keyDown).runner.last)
            == LastModifiers(r.last).Or(KeyFlags(Elems(Filter(order, keyDown))))
    decreases |order|
  {
    if |order| > 0 {
      var k := order[0];
      var s1 := if keyDown(k) then SimulateKeyRelease(r, k, false, false) else Step(r, []);
      ReleaseKeysModifiers(s1.runner, order[1..], keyDown);
      FilterCons(order, keyDown);
    }
  }

  /** The last event after disposal carries the flags of the last event
      before it together with those of the modifier keys it releases. */
  lemma DisposeModifiers(r: Runner, buttonOrder: seq<int>, keyOrder: seq<int>,
                         buttonDown: int -> bool, keyDown: int -> bool)
    requires Enumerates(buttonOrder, r.buttonsOnPress) && Enumerates(keyOrder, r.keysOnPress)
    requires !r.disposed
    ensures LastModifiers(Dispose(r, buttonOrder, keyOrder, buttonDown, keyDown).runner.last)
            == LastModifiers(r.last).Or(KeyFlags(PressedAmong(r.keysOnPress, keyDown)))
  {
    var sb := ReleaseButtons(r, buttonOrder, buttonDown);
    ReleaseButtonsModifiers(r, buttonOrder, buttonDown);
    ReleaseKeysModifiers(sb.runner.(buttonsOnPress := {}), keyOrder, keyDown);
    FilterEnumerates(keyOrder, r.keysOnPress, keyDown);
  }

  /** With a mouse event last, no key to release and every tracked button
      in range, the last event after disposal is a mouse event whose mask is
      the previous one with the bits of the released buttons toggled. */
  lemma DisposeLastMask(r: Runner, buttonOrder: seq<int>, keyOrder: seq<int>,
                        buttonDown: int -> bool, keyDown: int -> bool)
    requires Enumerates(buttonOrder, r.buttonsOnPress) && Enumerates(keyOrder, r.keysOnPress)
    requires !r.disposed && PressedAmong(r.keysOnPress, keyDown) == {}
    requires forall b | b in r.buttonsOnPress :: InRange(b)
    requires r.last.Some? && r.last.value.IsMouse()
    ensures var s := Dispose(r, buttonOrder, keyOrder, buttonDown, keyDown);
            && s.runner.last.Some? && s.runner.last.value.IsMouse()
            && s.runner.last.value.buttonMask
               == Xor(r.last.value.buttonMask, HeldMask(PressedAmong(r.buttonsOnPress, buttonDown)))
  {
    var f := Filter(buttonOrder, buttonDown);
    var sb := ReleaseButtons(r, buttonOrder, buttonDown);
    var rb := sb.runner.(buttonsOnPress := {});
    ReleaseButtonsMask(r, buttonOrder, buttonDown);
    FilterEnumerates(buttonOrder, r.buttonsOnPress, buttonDown);
    ListsInRange(f, PressedAmong(r.buttonsOnPress, buttonDown));
    XorAllDistinct(f);
    FilterEnumerates(keyOrder, r.keysOnPress, keyDown);
    ReleaseKeysState(rb, keyOrder, keyDown);
    var sk := ReleaseKeys(rb, keyOrder, keyDown);
    ReleaseKeysLast(rb, keyOrder, keyDown);
    assert sk.runner.last == rb.last;
  }

  /** The state after disposal does not depend on the enumeration order;
      of the last event, neither do its modifier flags nor, when no key is
      released and the buttons are in range, its mask. */
  lemma DisposeOrderIndependent(r: Runner, buttonDown: int -> bool, keyDown: int -> bool,
                                b1: seq<int>, k1: seq<int>, b2: seq<int>, k2: seq<int>)
    requires Enumerates(b1, r.buttonsOnPress) && Enumerates(k1, r.keysOnPress)
    requires Enumerates(b2, r.buttonsOnPress) && Enumerates(k2, r.keysOnPress)
    ensures var s1 := Dispose(r, b1, k1, buttonDown, keyDown);
            var s2 := Dispose(r, b2, k2, buttonDown, keyDown);
            && s1.runner.(last := None) == s2.runner.(last := None) && |s1.emitted| == |s2.emitted|
            && LastModifiers(s1.runner.last) == LastModifiers(s2.runner.last)
            && ((forall b | b in r.buttonsOnPress :: InRange(b)) && PressedAmong(r.keysOnPress, keyDown) == {}
                && r.last.Some? && r.last.value.IsMouse() ==>
                  CarriedMask(s1.runner.last) == CarriedMask(s2.runner.last))
  {
    if !r.disposed {
      DisposeModifiers(r, b1, k1, buttonDown, keyDown);
      DisposeModifiers(r, b2, k2, buttonDown, keyDown);
      if (forall b | b in r.buttonsOnPress :: InRange(b)) && PressedAmong(r.keysOnPress, keyDown) == {}
         && r.last.Some? && r.last.value.IsMouse() {
        DisposeLastMask(r, b1, k1, buttonDown, keyDown);
        DisposeLastMask(r, b2, k2, buttonDown, keyDown);
      }
    }
  }

  /** With a mouse event last, the button loop toggles the carried mask by
      the bits of the buttons it releases, and a mouse event stays last. */
  lemma {:induction false} ReleaseButtonsMask(r: Runner, order: seq<int>, buttonDown: int -> bool)
    requires r.last.Some? && r.last.value.IsMouse()
    ensures var s := ReleaseButtons(r, order, buttonDown);
            && s.runner.last.Some? && s.runner.last.value.IsMouse()
            && s.runner.last.value.buttonMask == Xor(r.last.value.buttonMask, XorAll(Filter(order, buttonDown)))
    decreases |order|
  {
    var m := r.last.value.buttonMask;
    if |order| == 0 {
      XorSelf(m);
    } else {
      var b := order[0];
      var bit := ToMouseButtonMask(b);
      var s1 := if buttonDown(b) then SimulateMouseButtonRelease(r, b) else Step(r, []);
      ReleaseButtonsMask(s1.runner, order[1..], buttonDown);
      FilterCons(order, buttonDown);
      var rest := XorAll(Filter(order[1..], buttonDown));
      if buttonDown(b) {
        assert s1.runner.last.value.buttonMask == Xor(m, bit);
        assert XorAll(Filter(order, buttonDown)) == Xor(bit, rest);
        XorAssociative(m, bit, rest);
      }
    }
  }

  /** When every listed button is in range and pressed, and the carried
      mask is the mask of exactly those buttons, the button loop's last
      release carries an empty mask. */
  lemma ReleaseAllButtonsClears(r: Runner, order: seq<int>, buttonDown: int -> bool)
    requires Distinct(order) && |order| > 0
    requires forall k | 0 <= k < |order| :: InRange(order[k])
    requires forall k | 0 <= k < |order| :: buttonDown(order[k])
    requires r.last.Some? && r.last.value.IsMouse() && r.last.value.buttonMask == HeldMask(Elems(order))
    ensures var sb := ReleaseButtons(r, order, buttonDown);
            && |sb.emitted| == |order|
            && IsButtonRelease(sb.emitted[|order| - 1])
            && sb.emitted[|order| - 1].buttonMask == {}
  {
    ReleaseAllButtonsLast(r, order, buttonDown);
    ReleaseAllButtonsMask(r, order, buttonDown);
  }

  /** Releasing every listed button delivers one release each, and the
      last of them is remembered. */
  lemma ReleaseAllButtonsLast(r: Runner, order: seq<int>, buttonDown: int -> bool)
    requires |order| > 0
    requires forall k | 0 <= k < |order| :: buttonDown(order[k])
    ensures var sb := ReleaseButtons(r, order, buttonDown);
            && |sb.emitted| == |order|
            && IsButtonRelease(sb.emitted[|order| - 1])
            && sb.runner.last == Some(sb.emitted[|order| - 1])
  {
    FilterAll(order, buttonDown);
    ReleaseButtonsEvents(r, order, buttonDown);
    ReleaseButtonsLast(r, order, buttonDown);
  }

  /** Releasing every listed button of the carried held mask toggles each
      of its bits off. */
  lemma ReleaseAllButtonsMask(r: Runner, order: seq<int>, buttonDown: int -> bool)
    requires Distinct(order)
    requires forall k | 0 <= k < |order| :: InRange(order[k])
    requires forall k | 0 <= k < |order| :: buttonDown(order[k])
    requires r.last.Some? && r.last.value.IsMouse() && r.last.value.buttonMask == HeldMask(Elems(order))
    ensures var sb := ReleaseButtons(r, order, buttonDown);
            sb.runner.last.Some? && sb.runner.last.value.IsMouse() && sb.runner.last.value.buttonMask == {}
  {
    FilterAll(order, buttonDown);
    ReleaseButtonsMask(r, order, buttonDown);
    XorAllDistinct(order);
    XorSelf(HeldMask(Elems(order)));
  }

  /** Outside the disposed state, disposal delivers the button loop's
      events followed by the key loop's. */
  lemma DisposeEmits(r: Runner, buttonOrder: seq<int>, keyOrder: seq<int>,
                     buttonDown: int -> bool, keyDown: int -> bool)
    requires Enumerates(buttonOrder, r.buttonsOnPress) && Enumerates(keyOrder, r.keysOnPress)
    requires !r.disposed
    ensures var sb := ReleaseButtons(r, buttonOrder, buttonDown);
            Dispose(r, buttonOrder, keyOrder, buttonDown, keyDown).emitted
              == sb.emitted + ReleaseKeys(sb.runner.(buttonsOnPress := {}), keyOrder, keyDown).emitted
  {
  }

  /** What holds for every member of a set holds for every entry of a
      sequence listing it. */
  lemma ListsOnly(order: seq<int>, held: set<int>, p: int -> bool)
    requires Elems(order) == held
    requires forall b | b in held :: p(b)
    ensures forall k | 0 <= k < |order| :: p(order[k])
  {
    forall k | 0 <= k < |order|
      ensures p(order[k])
    {
      var b := order[k];
      assert b in held;
      assert p(b);
    }
  }

  lemma ListsInRange(order: seq<int>, held: set<int>)
    requires Elems(order) == held
    requires forall b | b in held :: InRange(b)
    ensures forall k | 0 <= k < |order| :: InRange(order[k])
  {
    forall k | 0 <= k < |order|
      ensures InRange(order[k])
    {
      assert order[k] in held;
    }
  }

  /** When the last event was a mouse event whose mask matched the held
      buttons, and the device reports every tracked button as pressed, the
      last replayed button release carries an empty mask. */
  lemma DisposeClearsMask(r: Runner, buttonOrder: seq<int>, keyOrder: seq<int>,
                          buttonDown: int -> bool, keyDown: int -> bool)
    requires Enumerates(buttonOrder, r.buttonsOnPress) && Enumerates(keyOrder, r.keysOnPress)
    requires !r.disposed && r.buttonsOnPress != {}
    requires forall b | b in r.buttonsOnPress :: InRange(b)
    requires forall b | b in r.buttonsOnPress :: buttonDown(b)
    requires r.last.Some? && r.last.value.IsMouse() && r.last.value.buttonMask == HeldMask(r.buttonsOnPress)
    ensures var s := Dispose(r, buttonOrder, keyOrder, buttonDown, keyDown);
            && |r.buttonsOnPress| <= |s.emitted|
            && IsButtonRelease(s.emitted[|r.buttonsOnPress| - 1])
            && s.emitted[|r.buttonsOnPress| - 1].buttonMask == {}
  {
    ListsOnly(buttonOrder, r.buttonsOnPress, buttonDown);
    ListsInRange(buttonOrder, r.buttonsOnPress);
    DistinctCard(buttonOrder);
    ReleaseAllButtonsClears(r, buttonOrder, buttonDown);
    DisposeEmits(r, buttonOrder, keyOrder, buttonDown, keyDown);
    var sb := ReleaseButtons(r, buttonOrder, buttonDown);
    var s := Dispose(r, buttonOrder, keyOrder, buttonDown, keyDown);
    assert s.emitted[|r.buttonsOnPress| - 1] == sb.emitted[|buttonOrder| - 1];
  }
}
