/**
 The matching rule of `GdUnitAwaiter.AwaitSignal`: it waits for emissions
 of a signal and completes on the first whose argument list equals the
 expected one, or on the very first emission when the expected list is
 empty. The awaited emissions are a finite sequence of argument lists;
 running out of them means the await is still pending.
 */
module SignalAwaiter {
  import opened Wrappers

  /** How the await ends on a finite run of emissions. */
  datatype Await =
    | Matched(index: nat)   // completed on emission `index`
    | Faulted(index: nat)   // `SequenceEqual` threw on emission `index`
    | Pending               // no emission completed it

  /** The completion test for one emission against a non-null expected list. */
  predicate Matches<A(==)>(args: seq<A>, expected: seq<A>) {
    |expected| == 0 || args == expected
  }

  function Later(o: Await): Await {
    match o
    case Matched(k) => Matched(k + 1)
    case Faulted(k) => Faulted(k + 1)
    case Pending => Pending
  }

  /** Reference definition, one emission at a time. A null expected list
      (`None`) fails the length test (`null?.Length == 0` is false) and then
      makes `SequenceEqual` throw on the first emission. */
  function Awaited<A(==)>(emissions: seq<seq<A>>, expected: Option<seq<A>>): Await
    decreases |emissions|
  {
    if |emissions| == 0 then Pending
    else if expected.None? then Faulted(0)
    else if Matches(emissions[0], expected.value) then Matched(0)
    else Later(Awaited(emissions[1..], expected))
  }

  /** The await completes on the first matching emission, skipping every
      emission before it; it stays pending exactly when nothing matches;
      with a null expected list it faults on the first emission. */
  lemma {:induction false} AwaitedFirstMatch<A>(emissions: seq<seq<A>>, expected: Option<seq<A>>)
    ensures var o := Awaited(emissions, expected);
            && (o.Matched? ==>
                  && expected.Some? && o.index < |emissions|
                  && Matches(emissions[o.index], expected.value)
                  && forall k | 0 <= k < o.index :: !Matches(emissions[k], expected.value))
            && (o.Pending? <==>
                  |emissions| == 0 || (expected.Some? && forall k | 0 <= k < |emissions| :: !Matches(emissions[k], expected.value)))
            && (o.Faulted? <==> expected.None? && |emissions| > 0)
            && (o.Faulted? ==> o.index == 0)
    decreases |emissions|
  {
    if |emissions| > 0 && expected.Some? && !Matches(emissions[0], expected.value) {
      var rest := emissions[1..];
      AwaitedFirstMatch(rest, expected);
      var o' := Awaited(rest, expected);
      if o'.Matched? {
        forall k | 0 <= k < o'.index + 1
          ensures !Matches(emissions[k], expected.value)
        {
          if k > 0 {
            assert emissions[k] == rest[k - 1];
          }
        }
      }
      if o'.Pending? && |rest| > 0 {
        forall k | 0 <= k < |emissions|
          ensures !Matches(emissions[k], expected.value)
        {
          if k > 0 {
            assert emissions[k] == rest[k - 1];
          }
        }
      }
      if !o'.Pending? {
        assert |rest| > 0;
        assert o'.Matched?;
        assert Matches(rest[o'.index], expected.value);
      }
    }
  }

  /** An empty expected list completes on the very first emission. */
  lemma EmptyExpectedTakesFirst<A>(emissions: seq<seq<A>>)
    requires |emissions| > 0
    ensures Awaited(emissions, Some([])) == Matched(0)
  {
  }

  /** `AwaitSignal`'s loop over the emissions. */
  method AwaitSignal<A(==)>(emissions: seq<seq<A>>, expected: Option<seq<A>>) returns (o: Await)
    ensures o == Awaited(emissions, expected)
    ensures o.Matched? ==> o.index < |emissions| && Matches(emissions[o.index], expected.value)
  {
    var i := 0;
    while i < |emissions|
      invariant 0 <= i <= |emissions|
      invariant i > 0 ==> expected.Some?
      invariant Awaited(emissions, expected) == Shifted(Awaited(emissions[i..], expected), i)
    {
      if expected.None? {
        return Faulted(i);
      }
      if |expected.value| == 0 || emissions[i] == expected.value {
        return Matched(i);
      }
      assert emissions[i..][1..] == emissions[i + 1..];
      LaterShifted(Awaited(emissions[i + 1..], expected), i);
      i := i + 1;
    }
    return Pending;
  }

  /** The outcome with its index moved `n` emissions later. */
  function Shifted(o: Await, n: nat): Await {
    match o
    case Matched(k) => Matched(k + n)
    case Faulted(k) => Faulted(k + n)
    case Pending => Pending
  }

  lemma LaterShifted(o: Await, n: nat)
    ensures Shifted(Later(o), n) == Shifted(o, n + 1)
  {
  }
}
