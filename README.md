# DM-MD example: crosspoint joins and panel feedback

This project models the routing core of the DM-MD example control program.
The program connects a touch panel (an XPanel) to a DM-MD matrix video switcher.
The panel has one boolean join per crosspoint. The joins are laid out output by output, with a stride of `x`, the switcher's number of outputs. Output `n` owns joins `(n-1)*x + 1 .. (n-1)*x + x`.

- A button press (a boolean signal going high) on join `i` raises the switcher's VideoEnter flag. It decodes the join into output `i / x + 1` and input `i - (n-1)*x`, and routes that input to that output.
- When the switcher reports that output `n` changed, the program clears the output's `x` feedback joins one by one. It then lights join `fb + (n-1)*x`, where `fb` is the input the switcher now reports on `n`.
- Releases, analog signals and string signals do nothing.

The model has three modules:

- `JoinMap` (`join_map.dfy`) holds the join arithmetic as functions. It has the decoding as written (`PressOutput`, `PressInput`), the encoding the feedback uses (`FeedbackJoin`), and the decoding that is the encoding's inverse (`IntendedOutput`, `IntendedInput`). Lemmas relate them.
- `Switching` (`switching.dfy`) says what each handler does to the state, as functions on values. `Feedback` and `FeedbackOutcome` cover the panel joins. `PressRoutes` and `PressOutcome` cover the output routes. Lemmas state the feedback range, mutual exclusivity, the frame, last-writer-wins, the effect of a press, and the end-to-end press-then-feedback property.
- `Controller` (`control_system.dfy`) holds a class `ControlSystem`. Its state is the panel's boolean joins (`array<bool>`, element `j` is join `j`), the route of each output (`array<nat>`, element `n-1` is the input on output `n`, 0 for none) and the VideoEnter flag. Its handler methods update that state in place. Each method is proved equal to the matching `Switching` function. The output-change handler keeps the source's clearing loop.

An exception that escapes a handler is modelled as `Threw(fault)`. Writes made before the throw stay, and nothing after it happens. The faults are:

- a panel join that does not exist. The clearing loop can throw part-way, leaving earlier joins cleared.
- a switcher output that does not exist.
- a switcher input that does not exist, input 0 included.
- an output whose video feedback names no input (`fb == 0`). In the source this dereferences null after the clearing loop.

Two things a reader might expect are not in the code, so the model does not have them:

- The press decoding `i / x + 1` is not the inverse of the feedback encoding `input + (n-1)*x` (see Findings).
- The program keeps no routing table of its own, checks no online state before routing, and records no video-detected state. The output-change handler writes only panel joins. The online handlers and the input-change handler only print.

## Model

| member | source | states |
|---|---|---|
| JoinMap.PressOutput | DM-MD-Example/ControlSystem.cs:110-112 | the decoded output is at least 1 and is the output whose zero-based stride block `[(n-1)*x, n*x)` holds the pressed join |
| JoinMap.PressInput | DM-MD-Example/ControlSystem.cs:114 | the decoded input is always below the stride |
| JoinMap.IntendedOutput | DM-MD-Example/ControlSystem.cs:83-87 | the output whose feedback joins `(n-1)*x+1 .. n*x` contain join `i` |
| JoinMap.IntendedInput | DM-MD-Example/ControlSystem.cs:83-87 | the offset of join `i` in its output's feedback range, between 1 and `x` |
| JoinMap.PressInputIsRemainder | DM-MD-Example/ControlSystem.cs:110-114 | the decoded input equals `i % x`, and it is 0 exactly when `x` divides `i` |
| JoinMap.PressRoundTrip | DM-MD-Example/ControlSystem.cs:110-114 | encoding the decoded pair as `input + (n-1)*x` (line 87) gives back the pressed join, for every join |
| JoinMap.PressAgreesWithIntended | DM-MD-Example/ControlSystem.cs:110-114 | a press decodes to an input of at least 1 exactly when `i % x != 0`, and then it agrees with the feedback layout's inverse |
| JoinMap.StrideMultipleMisdecoded | DM-MD-Example/ControlSystem.cs:110-114 | the join lit for input `x` on output `q` is `q*x`, and a press on it decodes to input 0 on output `q+1` |
| JoinMap.CrosspointRoundTripAsWritten | DM-MD-Example/ControlSystem.cs:110-114 | a crosspoint `(input, n)` with `1 <= input <= x` survives encode-then-decode exactly when `input < x` |
| JoinMap.IntendedRoundTrip | DM-MD-Example/ControlSystem.cs:83-87 | decoding any join `i >= 1` by its feedback range and encoding it again gives `i` |
| JoinMap.IntendedInverse | DM-MD-Example/ControlSystem.cs:83-87 | encoding any crosspoint with `1 <= input <= x` and decoding by feedback range gives the same crosspoint back |
| JoinMap.FeedbackJoinFitsUInt32 | DM-MD-Example/ControlSystem.cs:80-87 | with at most 65535 inputs and outputs, every join the output-change handler computes is below 2^32, so the `uint` arithmetic does not wrap |
| Switching.ClearJoins | DM-MD-Example/ControlSystem.cs:83-86 | after `k` steps of the clearing loop, joins `base+1 .. base+k` that exist are false and every other join keeps its value |
| Switching.FeedbackRange | DM-MD-Example/ControlSystem.cs:83-87 | when the panel has all of output `n`'s joins, after the handler each join in `(n-1)*x+1 .. n*x` is true exactly when it is `fb + (n-1)*x` with `fb >= 1` |
| Switching.FeedbackExclusive | DM-MD-Example/ControlSystem.cs:83-87 | the lit joins of output `n` are exactly `{fb + (n-1)*x}` when `1 <= fb <= x`, and none otherwise |
| Switching.FeedbackFrame | DM-MD-Example/ControlSystem.cs:83-87 | no join outside output `n`'s range changes, apart from `fb + (n-1)*x` |
| Switching.FeedbackLastWriterWins | DM-MD-Example/ControlSystem.cs:83-87 | two reports for the same output, the first with an input within the stride, leave the panel as the second report alone would |
| Switching.FeedbackLastWriterWinsLit | DM-MD-Example/ControlSystem.cs:83-87 | after two reports for the same output, whatever the first was, only the second input's join is lit in that output's range |
| Switching.FeedbackCompletes | DM-MD-Example/ControlSystem.cs:83-87 | the handler completes exactly when the output's joins and the reported input's join all exist and an input is reported, and then that join is true |
| Switching.FeedbackExample | DM-MD-Example/ControlSystem.cs:83-87 | with 4 outputs, output 2 reporting input 3 leaves join 7 the only lit join of 5..8 |
| JoinMap.FeedbackJoin | DM-MD-Example/ControlSystem.cs:85-87 | the join `input + (n-1)*x` that stands for input `input` on output `n`; for `1 <= input <= x` it lies in output `n`'s block `(n-1)*x+1 .. n*x` |
| Switching.Feedback | DM-MD-Example/ControlSystem.cs:83-87 | the panel after the clearing loop and the final write; same length, and a join that differs from before is one of output `n`'s joins or the reported input's join |
| Switching.FeedbackOutcome | DM-MD-Example/ControlSystem.cs:83-87 | the handler completes exactly when the output's joins and the reported input's join exist and an input is reported; it throws `NoSource` exactly when the loop ran to its end and no input is reported (the null feedback at line 87); it never throws an output or input fault |
| Switching.PressRoutes | DM-MD-Example/ControlSystem.cs:114 | the routes after a press; same length, and the only route that can differ is that of output `i/x + 1` (element `i/x`), which then holds input `i % x`, at least 1 |
| Switching.PressOutcome | DM-MD-Example/ControlSystem.cs:114 | the press throws `NoSuchOutput` exactly when `i/x >= x`, and `NoSuchInput` exactly when the output exists but `i % x` is not between 1 and the input count: the output is looked up before the input, in C#'s left-to-right order |
| Switching.PressTouchesOneOutput | DM-MD-Example/ControlSystem.cs:107-114 | a press changes no route but that of output `i/x + 1`. On completion that route becomes input `i - (n-1)*x`. When the handler throws, no route changes |
| Switching.PressCompletesIff | DM-MD-Example/ControlSystem.cs:110-114 | a press routes exactly when `i % x != 0`, `i / x < x` and `i % x <= NumberOfInputs` |
| Switching.StrideMultiplePressIgnored | DM-MD-Example/ControlSystem.cs:110-114 | a press on join `q*x` throws and leaves every route unchanged (assuming `Inputs[0]` throws; see Left out) |
| Switching.PressThenFeedback | DM-MD-Example/ControlSystem.cs:78-114 | after a completed press on join `i`, if the switcher reports the new route, join `i` is the only lit join of that output |
| Controller.ControlSystem.OnOutputChange | DM-MD-Example/ControlSystem.cs:78-89 | the clear-then-set loop leaves the panel equal to `Feedback` of the old panel and ends as `FeedbackOutcome` says |
| Controller.ControlSystem.Press | DM-MD-Example/ControlSystem.cs:107-115 | a press raises VideoEnter and leaves the routes equal to `PressRoutes` of the old routes, ending as `PressOutcome` says |
| Controller.ControlSystem.OnSigChange | DM-MD-Example/ControlSystem.cs:99-185 | only a boolean signal going high routes, as `Press`. A release, an analog, string or NA signal leaves the routes, VideoEnter and the panel unchanged. No signal changes the panel |

## Findings

| source | as written | input that shows it | evidently intended | confidence | as-written member | corrected member |
|---|---|---|---|---|---|---|
| DM-MD-Example/ControlSystem.cs:112 | output `i / x + 1`, input `i - (n-1)*x` | 8x8 switcher, join 8: the feedback lights it for input 8 on output 1. A press on it decodes to input 0 on output 2 and routes nothing (assuming `Inputs[0]` throws; see Left out). Every join `q*x` behaves this way | output `(i-1)/x + 1`, the inverse of the feedback layout at line 87 | high, not executed | JoinMap.StrideMultipleMisdecoded | JoinMap.IntendedInverse |

The handler methods keep the decoding as written, because that is what the program does. `Switching.StrideMultiplePressIgnored` states the effect at the handler level. `JoinMap.IntendedRoundTrip` and `JoinMap.IntendedInverse` prove that the corrected decoding is an exact inverse of the feedback encoding.

## Left out

- Device construction, registration and event subscription (lines 29-56), and the thread-pool setting (line 34): framework plumbing. The constructor only sets up an initial state, with all joins false and no routes.
- The online/offline handlers (lines 58-76) and the input-change handler (lines 91-97): they only print.
- Console and error-log output: I/O.
- `InitializeSystem` and the Ethernet, program and system event handlers (lines 200-291): their bodies are empty.
- The commented-out switch blocks and the dimmer line: dead code.
- VideoEnter (line 109): the switcher's handling of this flag is not visible. It is modelled only as a boolean that every press sets.
- Concurrency of callbacks: each event is one sequential step.
- Controller.ControlSystem.Press: assumes the switcher's `Inputs` collection throws for input 0 or for an input above its count. The collection's code is not part of this model.
- Controller.ControlSystem.OnOutputChange: takes the reported input `fb` as a parameter, standing for `Outputs[n].VideoOutFeedback.Number`. It trusts the switcher to report `1 <= n <= NumberOfOutputs` and `fb <= NumberOfInputs`.
- 32-bit arithmetic: the model uses unbounded integers with at most 65535 inputs and outputs, and press joins below 2^32.
  - `JoinMap.FeedbackJoinFitsUInt32` shows that the output-change handler cannot wrap.
  - In a press, `(n-1)*x` never exceeds `i`.
  - `i / x + 1` wraps only for `x = 1` and `i = 2^32 - 1`. It then becomes output 0, which throws, as the model's output `2^32` does.
