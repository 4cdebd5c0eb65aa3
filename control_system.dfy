/*
 * The event handlers of the DM-MD example control program, over the state
 * they update in place: the panel's boolean feedback joins, the video route
 * of each switcher output, and the switcher's VideoEnter flag. Each event is
 * one sequential step.
 */
module Controller {
  import opened JoinMap
  import opened Switching

  /** A signal change reported by the panel, by signal type. */
  datatype Sig =
    | BoolSig(number: nat, boolValue: bool)
    | UShortSig(number: nat, ushortValue: nat)
    | StringSig(number: nat, stringValue: string)
    | NASig(number: nat)

  /** A boolean signal going high: a button press. */
  predicate IsPress(sig: Sig)
  {
    sig.BoolSig? && sig.boolValue
  }

  class ControlSystem {
    /** The panel's boolean feedback joins: element j is join j (element 0 is
        no join, since joins are numbered from 1). */
    const booleanInput: array<bool>
    /** The video route of each switcher output: element n-1 is the input
        number routed to output n, 0 when none is. Its length is the
        switcher's number of outputs, which is also the join stride. */
    const videoOut: array<nat>
    const numInputs: nat
    /** The switcher's VideoEnter flag, raised by every press. */
    var videoEnter: bool

    ghost predicate Valid()
    {
      1 <= videoOut.Length <= MAX_COUNT && numInputs <= MAX_COUNT
    }

    constructor (joins: nat, outputs: nat, inputs: nat)
      requires 1 <= outputs <= MAX_COUNT && inputs <= MAX_COUNT
      ensures Valid()
      ensures fresh(booleanInput) && fresh(videoOut)
      ensures booleanInput.Length == joins + 1 && videoOut.Length == outputs && numInputs == inputs
      ensures forall j :: 0 <= j < booleanInput.Length ==> !booleanInput[j]
      ensures forall o :: 0 <= o < videoOut.Length ==> videoOut[o] == 0
      ensures !videoEnter
    {
      booleanInput := new bool[joins + 1](_ => false);
      videoOut := new nat[outputs](_ => 0);
      numInputs := inputs;
      videoEnter := false;
    }

    /** The switcher reports that output `n` is now fed by input `fb` (0 when
        its video feedback names no input): clear the output's joins one by
        one, then light the join of the reported input. */
    method OnOutputChange(n: nat, fb: nat) returns (outcome: Outcome)
      requires Valid()
      requires 1 <= n <= videoOut.Length && fb <= numInputs
      modifies booleanInput
      ensures booleanInput[..] == Feedback(old(booleanInput[..]), n, videoOut.Length, fb)
      ensures outcome == FeedbackOutcome(booleanInput.Length, n, videoOut.Length, fb)
    {
      var x := videoOut.Length;
      var base := (n - 1) * x;
      ghost var panel := booleanInput[..];
      assert FeedbackJoin(1, n, x) == base + 1 && FeedbackJoin(x, n, x) == base + x;
      assert FeedbackJoin(fb, n, x) == fb + base;
      ghost var cleared := ClearJoins(panel, base, x);
      assert Feedback(panel, n, x, fb) ==
        if base + x < |panel| && fb >= 1 && fb + base < |panel| then cleared[fb + base := true] else cleared;
      for i := 1 to x + 1
        invariant i > 1 ==> base + i - 1 < booleanInput.Length
        invariant booleanInput[..] == ClearJoins(panel, base, i - 1)
      {
        var join := i + base;
        if join >= booleanInput.Length {
          assert booleanInput[..] == Feedback(panel, n, x, fb);
          return Threw(NoSuchJoin);
        }
        booleanInput[join] := false;
      }
      if fb == 0 {
        assert booleanInput[..] == Feedback(panel, n, x, fb);
        return Threw(NoSource);
      }
      var lit := fb + base;
      if lit >= booleanInput.Length {
        assert booleanInput[..] == Feedback(panel, n, x, fb);
        return Threw(NoSuchJoin);
      }
      booleanInput[lit] := true;
      assert booleanInput[..] == Feedback(panel, n, x, fb);
      outcome := Completed;
    }

    /** A press on join `i`: raise VideoEnter, decode the join into an output
        and an input, and route that input to that output. */
    method Press(i: nat) returns (outcome: Outcome)
      requires Valid() && i < UINT32_LIMIT
      modifies this, videoOut
      ensures videoEnter
      ensures videoOut[..] == PressRoutes(old(videoOut[..]), i, numInputs)
      ensures outcome == PressOutcome(videoOut.Length, i, numInputs)
    {
      videoEnter := true;
      var x := videoOut.Length;
      var n := i / x + 1;
      if n > x {
        return Threw(NoSuchOutput);
      }
      var k := i - (n - 1) * x;
      if k < 1 || k > numInputs {
        return Threw(NoSuchInput);
      }
      videoOut[n - 1] := k;
      outcome := Completed;
    }

    /** Dispatch on the panel's signal type: only a press routes; a release,
        an analog change and any other signal type change nothing. */
    method OnSigChange(sig: Sig) returns (outcome: Outcome)
      requires Valid()
      requires sig.BoolSig? ==> sig.number < UINT32_LIMIT
      modifies this, videoOut
      ensures booleanInput[..] == old(booleanInput[..])
      ensures IsPress(sig) ==>
        videoEnter &&
        videoOut[..] == PressRoutes(old(videoOut[..]), sig.number, numInputs) &&
        outcome == PressOutcome(videoOut.Length, sig.number, numInputs)
      ensures !IsPress(sig) ==>
        videoEnter == old(videoEnter) && videoOut[..] == old(videoOut[..]) && outcome == Completed
    {
      match sig
      case BoolSig(number, value) =>
        if value {
          outcome := Press(number);
        } else {
          outcome := Completed;
        }
      case UShortSig(_, _) =>
        outcome := Completed;
      case StringSig(_, _) =>
        outcome := Completed;
      case NASig(_) =>
        outcome := Completed;
    }
  }
}
