/*
 * What the two routing handlers of the DM-MD example do to the program's
 * state, as functions on values: the panel's boolean feedback joins as a
 * sequence indexed by join number, and the switcher's routes as a sequence
 * whose element n-1 is the input number routed to output n (0 for none).
 * The handler methods in Controller are proved equal to these functions;
 * the lemmas here state what the functions promise.
 */
module Switching {
  import opened JoinMap

  /** An exception that escapes a handler: the event changes what was already
      written before it and nothing after. */
  datatype Fault =
    | NoSuchJoin    // the panel has no boolean join with that number
    | NoSuchOutput  // the switcher has no output with that number
    | NoSuchInput   // the switcher has no input with that number (0 included)
    | NoSource      // the output's video feedback names no input

  datatype Outcome = Completed | Threw(fault: Fault)

  /** `panel` after the clearing loop ran its first `k` steps over the joins
      following `base`: step `s` clears join `base + s`. A join the panel
      lacks stops the loop, and every later join is beyond the panel too. */
  function ClearJoins(panel: seq<bool>, base: nat, k: nat): (r: seq<bool>)
    ensures |r| == |panel|
    ensures forall j :: 0 <= j < |r| ==> r[j] == if base < j <= base + k then false else panel[j]
  {
    if k == 0 then panel
    else
      var before := ClearJoins(panel, base, k - 1);
      if base + k < |before| then before[base + k := false] else before
  }

  /** The joins of output `n` that are lit in `panel`. */
  function LitJoins(panel: seq<bool>, n: nat, x: nat): set<nat>
    requires n >= 1
  {
    set j: nat | FeedbackJoin(1, n, x) <= j <= FeedbackJoin(x, n, x) && j < |panel| && panel[j]
  }

  /** The panel after output `n` reported input `fb` (0 when it reports none):
      the loop clears the `x` joins of the output in order, stopping at the
      first join the panel lacks; only a loop that ran to its end is followed
      by lighting the reported input's join, when there is one and it exists. */
  function Feedback(panel: seq<bool>, n: nat, x: nat, fb: nat): (r: seq<bool>)
    requires n >= 1
    ensures |r| == |panel|
    ensures forall j :: 0 <= j < |r| && r[j] != panel[j] ==>
      FeedbackJoin(0, n, x) < j <= FeedbackJoin(x, n, x) || j == FeedbackJoin(fb, n, x)
  {
    var cleared := ClearJoins(panel, FeedbackJoin(0, n, x), x);
    var lit := FeedbackJoin(fb, n, x);
    if FeedbackJoin(x, n, x) < |panel| && fb >= 1 && lit < |panel| then cleared[lit := true] else cleared
  }

  /** How the output-change handler ends on a panel with joins 0..len-1.
      A missing video source is noticed only after the clearing loop ran to
      its end. */
  function FeedbackOutcome(len: nat, n: nat, x: nat, fb: nat): (r: Outcome)
    requires n >= 1
    ensures r == Completed <==>
      FeedbackJoin(x, n, x) < len && fb >= 1 && FeedbackJoin(fb, n, x) < len
    ensures r == Threw(NoSource) <==> FeedbackJoin(x, n, x) < len && fb == 0
    ensures r != Threw(NoSuchOutput) && r != Threw(NoSuchInput)
  {
    if FeedbackJoin(x, n, x) >= len then Threw(NoSuchJoin)
    else if fb == 0 then Threw(NoSource)
    else if FeedbackJoin(fb, n, x) >= len then Threw(NoSuchJoin)
    else Completed
  }

  /** The routes after a press on join `i`, with the as-written decoding and
      `|routes|` outputs as the stride. The route is written only when both the
      decoded output and the decoded input exist on the switcher. */
  function PressRoutes(routes: seq<nat>, i: nat, numInputs: nat): (r: seq<nat>)
    requires |routes| >= 1
    ensures |r| == |routes|
    ensures forall o :: 0 <= o < |r| && r[o] != routes[o] ==>
      o == i / |routes| && r[o] == i % |routes| && r[o] >= 1
  {
    PressInputIsRemainder(i, |routes|);
    var n := PressOutput(i, |routes|);
    var k := PressInput(i, |routes|);
    if n <= |routes| && 1 <= k <= numInputs then routes[n - 1 := k] else routes
  }

  /** How the press handler ends. The output is looked up before the input,
      as C# evaluates the target of an assignment before its value. */
  function PressOutcome(numOutputs: nat, i: nat, numInputs: nat): (r: Outcome)
    requires numOutputs >= 1
    ensures r == Threw(NoSuchOutput) <==> i / numOutputs >= numOutputs
    ensures r == Threw(NoSuchInput) <==>
      i / numOutputs < numOutputs && !(1 <= i % numOutputs <= numInputs)
    ensures r != Threw(NoSuchJoin) && r != Threw(NoSource)
  {
    PressInputIsRemainder(i, numOutputs);
    if PressOutput(i, numOutputs) > numOutputs then Threw(NoSuchOutput)
    else if !(1 <= PressInput(i, numOutputs) <= numInputs) then Threw(NoSuchInput)
    else Completed
  }

  // ---------------------------------------------------------------------------
  // Feedback

  /** When the panel holds all of output `n`'s joins, the handler leaves
      exactly the reported input's join lit among them. */
  lemma FeedbackRange(panel: seq<bool>, n: nat, x: nat, fb: nat)
    requires n >= 1 && x >= 1
    requires FeedbackJoin(x, n, x) < |panel|
    ensures |Feedback(panel, n, x, fb)| == |panel|
    ensures forall j :: FeedbackJoin(1, n, x) <= j <= FeedbackJoin(x, n, x) ==>
      Feedback(panel, n, x, fb)[j] == (fb >= 1 && j == FeedbackJoin(fb, n, x))
  {
  }

  /** Mutual exclusivity: among output `n`'s joins exactly one is lit when the
      reported input is within the stride, and none otherwise. */
  lemma FeedbackExclusive(panel: seq<bool>, n: nat, x: nat, fb: nat)
    requires n >= 1 && x >= 1
    requires FeedbackJoin(x, n, x) < |panel|
    ensures LitJoins(Feedback(panel, n, x, fb), n, x) ==
      if 1 <= fb <= x then {FeedbackJoin(fb, n, x)} else {}
  {
    var after := Feedback(panel, n, x, fb);
    FeedbackRange(panel, n, x, fb);
    if 1 <= fb <= x {
      assert after[FeedbackJoin(fb, n, x)];
      assert FeedbackJoin(fb, n, x) in LitJoins(after, n, x);
    }
  }

  /** Frame: no join outside output `n`'s range changes, except the one
      written for the reported input. */
  lemma FeedbackFrame(panel: seq<bool>, n: nat, x: nat, fb: nat)
    requires n >= 1
    ensures |Feedback(panel, n, x, fb)| == |panel|
    ensures forall j :: 0 <= j < |panel| && !(FeedbackJoin(1, n, x) <= j <= FeedbackJoin(x, n, x))
                        && j != FeedbackJoin(fb, n, x) ==>
      Feedback(panel, n, x, fb)[j] == panel[j]
  {
  }

  /** Last writer wins: a second report for the same output erases every
      trace of a first one whose input lay within the stride. */
  lemma FeedbackLastWriterWins(panel: seq<bool>, n: nat, x: nat, a: nat, b: nat)
    requires n >= 1 && x >= 1 && a <= x
    ensures Feedback(Feedback(panel, n, x, a), n, x, b) == Feedback(panel, n, x, b)
  {
  }

  /** Whatever the first report was, after a second one for the same output
      the lit joins of that output are those of the second report alone. */
  lemma FeedbackLastWriterWinsLit(panel: seq<bool>, n: nat, x: nat, a: nat, b: nat)
    requires n >= 1 && x >= 1
    requires FeedbackJoin(x, n, x) < |panel|
    ensures LitJoins(Feedback(Feedback(panel, n, x, a), n, x, b), n, x) ==
      if 1 <= b <= x then {FeedbackJoin(b, n, x)} else {}
  {
    FeedbackFrame(panel, n, x, a);
    FeedbackExclusive(Feedback(panel, n, x, a), n, x, b);
  }

  /** The handler completes exactly when the output's joins and the reported
      input's join all exist on the panel; then that join is lit. */
  lemma FeedbackCompletes(panel: seq<bool>, n: nat, x: nat, fb: nat)
    requires n >= 1
    ensures FeedbackOutcome(|panel|, n, x, fb) == Completed <==>
      FeedbackJoin(x, n, x) < |panel| && fb >= 1 && FeedbackJoin(fb, n, x) < |panel|
    ensures FeedbackOutcome(|panel|, n, x, fb) == Completed ==>
      Feedback(panel, n, x, fb)[FeedbackJoin(fb, n, x)]
  {
  }

  /** On a 4-output switcher, output 2 reporting input 3 leaves join 7 the only
      lit join of the range 5..8. */
  lemma FeedbackExample(panel: seq<bool>)
    requires |panel| > 8
    ensures LitJoins(Feedback(panel, 2, 4, 3), 2, 4) == {7}
  {
    FeedbackExclusive(panel, 2, 4, 3);
  }

  // ---------------------------------------------------------------------------
  // Press

  /** A press routes at most one output, the decoded one, to the decoded
      input; when the handler throws, no route changes. */
  lemma PressTouchesOneOutput(routes: seq<nat>, i: nat, numInputs: nat)
    requires |routes| >= 1
    ensures |PressRoutes(routes, i, numInputs)| == |routes|
    ensures forall o :: 0 <= o < |routes| && o != PressOutput(i, |routes|) - 1 ==>
      PressRoutes(routes, i, numInputs)[o] == routes[o]
    ensures PressOutcome(|routes|, i, numInputs) == Completed ==>
      PressRoutes(routes, i, numInputs)[PressOutput(i, |routes|) - 1] == PressInput(i, |routes|)
    ensures PressOutcome(|routes|, i, numInputs) != Completed ==>
      PressRoutes(routes, i, numInputs) == routes
  {
  }

  /** A press routes something exactly when the join is not a multiple of the
      stride, its block is one of the outputs, and its offset is an input. */
  lemma PressCompletesIff(numOutputs: nat, i: nat, numInputs: nat)
    requires numOutputs >= 1
    ensures PressOutcome(numOutputs, i, numInputs) == Completed <==>
      i % numOutputs != 0 && i / numOutputs < numOutputs && i % numOutputs <= numInputs
  {
    PressInputIsRemainder(i, numOutputs);
  }

  /** The button the panel lights for input `x` on output `q` does nothing when
      pressed: it decodes to input 0, which the switcher does not have
      (assuming the switcher's input lookup throws for input 0). */
  lemma StrideMultiplePressIgnored(routes: seq<nat>, q: nat, numInputs: nat)
    requires |routes| >= 1 && q >= 1
    ensures PressOutcome(|routes|, q * |routes|, numInputs).Threw?
    ensures PressRoutes(routes, q * |routes|, numInputs) == routes
  {
    StrideMultipleMisdecoded(q, |routes|);
  }

  /** End to end: when a press on join `i` completes and the switcher then
      reports the route it was given, the panel lights join `i` and only it
      among the output's joins. */
  lemma PressThenFeedback(routes: seq<nat>, panel: seq<bool>, i: nat, numInputs: nat)
    requires |routes| >= 1
    requires PressOutcome(|routes|, i, numInputs) == Completed
    requires FeedbackJoin(|routes|, PressOutput(i, |routes|), |routes|) < |panel|
    ensures var n := PressOutput(i, |routes|);
      LitJoins(Feedback(panel, n, |routes|, PressRoutes(routes, i, numInputs)[n - 1]), n, |routes|) == {i}
  {
    var x, n := |routes|, PressOutput(i, |routes|);
    PressTouchesOneOutput(routes, i, numInputs);
    PressRoundTrip(i, x);
    FeedbackExclusive(panel, n, x, PressInput(i, x));
  }
}
