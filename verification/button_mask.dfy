/**
 Mouse-button masks as the runner computes them: `toMouseButtonMask`, the
 C# `|=` and `^=` the runner applies to `InputEventMouse.ButtonMask`, and the
 held-button masks used to state what an event's mask means.

 A mask is a 32-bit C# `int`; it is represented by the set of its one-bits
 (positions 0..31), so `|` is union and `^` is symmetric difference, and
 `Value` gives back the signed integer.
 */
module ButtonMask {
  import opened Sequences

  /** A bit position of a 32-bit integer. */
  type BitPos = k: nat | k < 32

  /** The one-bits of a 32-bit `int` mask. */
  type Mask = set<BitPos>

  // Godot 3 `ButtonList` indices (engine constants).
  const Left: int := 1
  const Right: int := 2
  const Middle: int := 3
  const WheelUp: int := 4
  const WheelDown: int := 5
  const WheelLeft: int := 6
  const WheelRight: int := 7
  const Xbutton1: int := 8
  const Xbutton2: int := 9

  // Godot 3 `ButtonList.Mask*` values (engine constants).
  const MaskLeft: int := 1
  const MaskRight: int := 2
  const MaskMiddle: int := 4
  const MaskXbutton1: int := 128
  const MaskXbutton2: int := 256

  /** C# `a | b` on masks. */
  function Or(a: Mask, b: Mask): Mask {
    a + b
  }

  /** C# `a ^ b` on masks. */
  function Xor(a: Mask, b: Mask): Mask {
    (a - b) + (b - a)
  }

  lemma XorAssociative(a: Mask, b: Mask, c: Mask)
    ensures Xor(Xor(a, b), c) == Xor(a, Xor(b, c))
  {
  }

  /** Toggling the same bits twice undoes the toggle. */
  lemma XorSelf(a: Mask)
    ensures Xor(a, a) == {} && Xor(a, {}) == a && Xor({}, a) == a
  {
  }

  function Pow2(k: nat): nat {
    if k == 0 then 1 else 2 * Pow2(k - 1)
  }

  /** Sum of the weights of the one-bits below position n. */
  function UnsignedBelow(m: Mask, n: nat): nat
    requires n <= 32
  {
    if n == 0 then 0
    else UnsignedBelow(m, n - 1) + (if n - 1 in m then Pow2(n - 1) else 0)
  }

  /** The signed 32-bit integer whose one-bits are m (bit 31 weighs -2^31). */
  function Value(m: Mask): int {
    UnsignedBelow(m, 31) - (if 31 in m then Pow2(31) else 0)
  }

  /** An index whose mask bit is not shared with any other index. */
  predicate InRange(index: int) {
    1 <= index <= 32
  }

  /** C# takes the count of an `int` shift modulo 32, so `1 << (index - 1)`
      shifts by `(index - 1) & 31`, which is Dafny's Euclidean `% 32`. */
  function ShiftCount(index: int): (n: BitPos)
    ensures InRange(index) ==> n == index - 1
  {
    (index - 1) % 32
  }

  /** `toMouseButtonMask`: the single one-bit standing for a button. */
  function ToMouseButtonMask(index: int): (m: Mask)
    ensures |m| == 1
  {
    {ShiftCount(index)}
  }

  /** Whether a mask reports the button as held. */
  predicate HasButton(m: Mask, index: int) {
    ShiftCount(index) in m
  }

  /** Distinct buttons in range get disjoint bits, and a button's mask
      reports exactly that button. */
  lemma MasksDisjoint(i: int, j: int)
    requires InRange(i) && InRange(j)
    ensures ToMouseButtonMask(i) !! ToMouseButtonMask(j) <==> i != j
    ensures HasButton(ToMouseButtonMask(i), j) <==> i == j
  {
  }

  lemma {:induction false} UnsignedBelowSingleton(k: BitPos, n: nat)
    requires n <= 32
    ensures UnsignedBelow({k}, n) == if k < n then Pow2(k) else 0
  {
    if n > 0 {
      UnsignedBelowSingleton(k, n - 1);
    }
  }

  /** As an integer, the mask of button `index` is `2^(index-1)` for the
      indices 1..31, and `int.MinValue` for 32. */
  lemma ToMouseButtonMaskValue(index: int)
    requires InRange(index)
    ensures index < 32 ==> Value(ToMouseButtonMask(index)) == Pow2(index - 1)
    ensures index == 32 ==> Value(ToMouseButtonMask(index)) == -(Pow2(31) as int)
  {
    UnsignedBelowSingleton(ShiftCount(index), 31);
  }

  /** The values the runner's own tests pin down for Godot's buttons. */
  lemma GodotButtonMasks()
    ensures Value(ToMouseButtonMask(Left)) == MaskLeft
    ensures Value(ToMouseButtonMask(Middle)) == MaskMiddle
    ensures Value(ToMouseButtonMask(Right)) == MaskRight
    ensures Value(ToMouseButtonMask(WheelUp)) == 8
    ensures Value(ToMouseButtonMask(WheelDown)) == 16
    ensures Value(ToMouseButtonMask(WheelLeft)) == 32
    ensures Value(ToMouseButtonMask(WheelRight)) == 64
    ensures Value(ToMouseButtonMask(Xbutton1)) == MaskXbutton1
    ensures Value(ToMouseButtonMask(Xbutton2)) == MaskXbutton2
  {
    ToMouseButtonMaskValue(Left);
    ToMouseButtonMaskValue(Middle);
    ToMouseButtonMaskValue(Right);
    ToMouseButtonMaskValue(WheelUp);
    ToMouseButtonMaskValue(WheelDown);
    ToMouseButtonMaskValue(WheelLeft);
    ToMouseButtonMaskValue(WheelRight);
    ToMouseButtonMaskValue(Xbutton1);
    ToMouseButtonMaskValue(Xbutton2);
  }

  /** The OR of the masks of the held buttons: every held button is
      reported, and every one-bit comes from some held button. */
  function HeldMask(held: set<int>): (m: Mask)
    ensures forall b | b in held :: HasButton(m, b)
    ensures forall k | k in m :: exists b | b in held :: ShiftCount(b) == k
  {
    set b | b in held :: ShiftCount(b)
  }

  /** When the held buttons are all in range, the held mask reports a
      button in range iff that button is held. */
  lemma HeldMaskHasButton(held: set<int>, i: int)
    requires forall b | b in held :: InRange(b)
    requires InRange(i)
    ensures HasButton(HeldMask(held), i) <==> i in held
  {
    if HasButton(HeldMask(held), i) {
      var b :| b in held && ShiftCount(b) == ShiftCount(i);
      assert b == i;
    }
  }

  /** Pressing one more button ORs its bit into the held mask. */
  lemma HeldMaskInsert(held: set<int>, b: int)
    ensures HeldMask(held + {b}) == HeldMask(held) + {ShiftCount(b)}
  {
    forall k | k in HeldMask(held + {b})
      ensures k in HeldMask(held) + {ShiftCount(b)}
    {
      var c :| c in held + {b} && ShiftCount(c) == k;
      if c != b {
        assert ShiftCount(c) in HeldMask(held);
      }
    }
  }

  /** Releasing a held button in range clears exactly its bit from the
      held mask, when every held button is in range. */
  lemma HeldMaskRemove(held: set<int>, b: int)
    requires forall c | c in held :: InRange(c)
    requires InRange(b)
    ensures HeldMask(held - {b}) == HeldMask(held) - {ShiftCount(b)}
  {
    forall k | k in HeldMask(held) - {ShiftCount(b)}
      ensures k in HeldMask(held - {b})
    {
      var c :| c in held && ShiftCount(c) == k;
      assert c != b;
      assert ShiftCount(c) in HeldMask(held - {b});
    }
  }

  /** XOR of the masks of a sequence of buttons. */
  function XorAll(buttons: seq<int>): Mask {
    if |buttons| == 0 then {}
    else Xor(ToMouseButtonMask(buttons[0]), XorAll(buttons[1..]))
  }

  /** Toggling a bit that is clear sets it. */
  lemma XorFresh(m: Mask, k: BitPos)
    requires k !in m
    ensures Xor({k}, m) == m + {k}
  {
  }

  /** Toggling the bits of distinct in-range buttons, in any order, gives
      the held mask of the set of those buttons. */
  lemma {:induction false} XorAllDistinct(buttons: seq<int>)
    requires forall k | 0 <= k < |buttons| :: InRange(buttons[k])
    requires Distinct(buttons)
    ensures XorAll(buttons) == HeldMask(Elems(buttons))
  {
    if |buttons| > 0 {
      var b := buttons[0];
      var rest := buttons[1..];
      DistinctTail(buttons);
      XorAllDistinct(rest);
      var s := Elems(rest);
      HeldMaskHasButton(s, b);
      XorFresh(HeldMask(s), ShiftCount(b));
      HeldMaskInsert(s, b);
      assert Elems(buttons) == s + {b};
    }
  }
}
