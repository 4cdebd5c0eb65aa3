/*
 * Join arithmetic of the DM-MD example control program.
 *
 * A touch panel exposes one boolean join per crosspoint of the switcher.
 * The joins are laid out output by output: output `n` owns the `x` joins
 * (n-1)*x + 1 .. (n-1)*x + x, where `x` is the switcher's NumberOfOutputs
 * (the stride). The press handler decodes a join number into an
 * (input, output) pair, and the output-change handler encodes a pair back
 * into the join it lights. The two directions disagree on joins that are
 * multiples of the stride; the lemmas below state exactly where.
 */
module JoinMap {

  /** One more than the largest value of a .NET `uint`. */
  const UINT32_LIMIT: nat := 0x1_0000_0000

  /** Largest input or output count for which every join the handlers compute
      stays below UINT32_LIMIT (see FeedbackJoinFitsUInt32). */
  const MAX_COUNT: nat := 0xFFFF

  /** Output chosen by a press on join `i`, computed as `i / x + 1`.
      It is the output whose zero-based stride block [(n-1)*x, n*x) holds `i`. */
  function PressOutput(i: nat, x: nat): (n: nat)
    requires x >= 1
    ensures n >= 1
    ensures (n - 1) * x <= i < n * x
  {
    i / x + 1
  }

  /** Input chosen by a press on join `i`, computed as `i - (n-1)*x` with
      `n` the decoded output. It is always smaller than the stride. */
  function PressInput(i: nat, x: nat): (k: nat)
    requires x >= 1
    ensures k < x
  {
    i - (PressOutput(i, x) - 1) * x
  }

  /** Join that stands for input `input` on output `n`: the clearing loop
      walks `input` over 1..x, and the final write lights the reported input. */
  function FeedbackJoin(input: nat, n: nat, x: nat): (j: nat)
    requires n >= 1
    ensures 1 <= input <= x ==> (n - 1) * x < j <= n * x
  {
    input + (n - 1) * x
  }

  /** The decoding the feedback layout calls for: output `(i-1)/x + 1` and the
      offset of `i` inside that output's block of joins. */
  function IntendedOutput(i: nat, x: nat): (n: nat)
    requires i >= 1 && x >= 1
    ensures n >= 1
    ensures (n - 1) * x < i <= n * x
  {
    (i - 1) / x + 1
  }

  function IntendedInput(i: nat, x: nat): (k: nat)
    requires i >= 1 && x >= 1
    ensures 1 <= k <= x
  {
    i - (IntendedOutput(i, x) - 1) * x
  }

  /** Quotient and remainder are determined by the bounds on the remainder. */
  lemma DivModUnique(a: nat, q: nat, r: nat, x: nat)
    requires x >= 1 && r < x && a == q * x + r
    ensures a / x == q && a % x == r
  {
    var q', r' := a / x, a % x;
    assert a == q' * x + r';
    if q' < q {
      MulMonotone(q' + 1, q, x);
    } else if q < q' {
      MulMonotone(q + 1, q', x);
    }
  }

  lemma MulMonotone(a: nat, b: nat, x: nat)
    requires a <= b
    ensures a * x <= b * x
  {
  }

  /** The decoded input is the remainder of the join by the stride: below the
      stride, and zero exactly when the stride divides the join. */
  lemma PressInputIsRemainder(i: nat, x: nat)
    requires x >= 1
    ensures PressInput(i, x) == i % x
    ensures PressInput(i, x) == 0 <==> i % x == 0
  {
    DivModUnique(i, PressOutput(i, x) - 1, PressInput(i, x), x);
  }

  /** Encoding the pair a press decodes gives back the pressed join, for
      every join, including the multiples of the stride. */
  lemma PressRoundTrip(i: nat, x: nat)
    requires x >= 1
    ensures FeedbackJoin(PressInput(i, x), PressOutput(i, x), x) == i
  {
  }

  /** A press decodes to a 1-based crosspoint (input at least 1) exactly when
      the join is not a multiple of the stride; then it agrees with the
      intended decoding. */
  lemma PressAgreesWithIntended(i: nat, x: nat)
    requires i >= 1 && x >= 1
    ensures PressInput(i, x) >= 1 <==> i % x != 0
    ensures i % x != 0 ==>
      PressOutput(i, x) == IntendedOutput(i, x) && PressInput(i, x) == IntendedInput(i, x)
  {
    PressInputIsRemainder(i, x);
    if i % x != 0 {
      DivModUnique(i - 1, PressOutput(i, x) - 1, PressInput(i, x) - 1, x);
    }
  }

  /** The off-by-one: the join lit for input `x` on output `q` is `q*x`, and
      a press on that join decodes to input 0 on output `q+1`. */
  lemma StrideMultipleMisdecoded(q: nat, x: nat)
    requires q >= 1 && x >= 1
    ensures FeedbackJoin(x, q, x) == q * x
    ensures PressOutput(q * x, x) == q + 1
    ensures PressInput(q * x, x) == 0
  {
    DivModUnique(q * x, q, 0, x);
  }

  /** A crosspoint survives encode-then-press-decode exactly when its input
      is not the last one of the block. */
  lemma CrosspointRoundTripAsWritten(input: nat, n: nat, x: nat)
    requires 1 <= input <= x && n >= 1
    ensures PressOutput(FeedbackJoin(input, n, x), x) == n &&
            PressInput(FeedbackJoin(input, n, x), x) == input
        <==> input < x
  {
    var j := FeedbackJoin(input, n, x);
    if input < x {
      DivModUnique(j, n - 1, input, x);
    } else {
      StrideMultipleMisdecoded(n, x);
    }
  }

  /** The intended decoding and FeedbackJoin are inverse bijections between
      joins >= 1 and crosspoints with 1 <= input <= x and output >= 1. */
  lemma IntendedRoundTrip(i: nat, x: nat)
    requires i >= 1 && x >= 1
    ensures FeedbackJoin(IntendedInput(i, x), IntendedOutput(i, x), x) == i
  {
  }

  lemma IntendedInverse(input: nat, n: nat, x: nat)
    requires 1 <= input <= x && n >= 1
    ensures FeedbackJoin(input, n, x) >= 1
    ensures IntendedOutput(FeedbackJoin(input, n, x), x) == n
    ensures IntendedInput(FeedbackJoin(input, n, x), x) == input
  {
    DivModUnique(FeedbackJoin(input, n, x) - 1, n - 1, input - 1, x);
  }

  /** With at most MAX_COUNT inputs and outputs, every join the output-change
      handler computes fits a `uint`, so unbounded arithmetic agrees with the
      program's 32-bit arithmetic there. */
  lemma FeedbackJoinFitsUInt32(input: nat, n: nat, x: nat)
    requires 1 <= n <= x <= MAX_COUNT && input <= MAX_COUNT
    ensures FeedbackJoin(input, n, x) < UINT32_LIMIT
  {
    MulMonotone(n - 1, MAX_COUNT, x);
    assert x * MAX_COUNT <= MAX_COUNT * MAX_COUNT by {
      MulMonotone(x, MAX_COUNT, MAX_COUNT);
    }
  }
}
