# ViterbiCodec in Dafny

A model of `ViterbiCodec`: a rate-1/n binary convolutional encoder with a
hard-decision Viterbi decoder. It also models the text/bit helpers the tests
use. A codec is built from a constraint length K (at least 2) and n generator
polynomials. The polynomials are read lsb-current: bit 0 taps the current
input.

- **Encoder.** Starts in register state 0. For each message bit it emits the
  n parity bits stored in the output table, then shifts the bit into the
  register. It never flushes the register.
- **Decoder.** Cuts the received bits into groups of n. The last group is
  zero-padded. For each group it updates one path metric per register state
  and records each state's best predecessor in a trellis column. It then
  starts from the first state of minimum metric and walks the columns back.

Modules, one concern each:

- `BitMath` (`bitmath.dfy`): shifts as `/ Pow2(k)`, masks as `% Pow2(k)`, and
  the division facts the rest uses.
- `Hamming` (`hamming.dfy`): `HammingDistance` and its specification
  `Distance`.
- `Reversal` (`reversal.dfy`): `ReverseBits` and its specification
  `BitReversal`. It is proved to be an involution on `numBits`-bit inputs.
- `Viterbi` (`viterbi.dfy`):
  - The codec is a datatype value. `_constraint` and `_poly` are const.
    The output table is written only while the codec is constructed
    (`NewCodec` runs `InitializeOutputs`) and never changed after, and every
    other method is const.
  - `NewCodec` is the constructor. It runs the imperative `InitializeOutputs`
    loops.
  - The functions `NextState`, `Output`, `BranchMetric` and `PathMetric` are
    modelled as functions.
  - The loops `Encode`, `UpdatePathMetrics` and `Decode` are modelled as
    methods. Each is proved equal to a specification function: `Encoding`,
    `Step`, and `Forward` plus `Traceback`.
- `ViterbiProperties` (`properties.dfy`): properties that relate several
  operations.
  - `PathCost(c, bits, u)` is the sum of the branch metrics along the
    encoder path of message `u`.
  - The forward pass keeps two invariants:
    - `Sound`: every finite metric is the cost of the path its traceback
      recovers.
    - `Complete`: no message reaches a state more cheaply than that state's
      metric.
  - From these follow optimality of the decoded message, the round trip in
    re-encoding form, and that the chosen final metric is 0 on error-free
    input.
  - `PathCostIsDistance` shows that a path cost is the Hamming distance
    between the message's encoding and the received bits, zero-filled to the
    same length. So optimality is maximum likelihood for hard decisions.
  - When some polynomial taps the current input (its bit 0 is set), the
    encoding is injective on messages of one length, and decoding an
    error-free encoding gives back the message exactly.
- `BitStrings` (`bitstrings.dfy`): `string_to_bits`, `bits_to_string` and
  the `_b` literal, with both round trips.

Representation choices:

- Bits are `seq<bool>`.
- A path metric is `Metric = Unreachable | Reached(distance: nat)`. It
  replaces the `INT_MAX` sentinel.
- Integers are unbounded `nat`.
- The header (`include/viterbi.h`) declares lower-case and underscore names
  (`encode`, `_init_outputs`, `_poly`). The implementation
  (`lib/viterbi.cpp`) defines `Encode`, `InitializeOutputs` and
  `polynomials_`. The model follows the implementation and treats the two
  sets of names as the same operations.

## Model

| member | source | states |
|---|---|---|
| Hamming.Distance | lib/viterbi.cpp:18-25 | For equal-length inputs, the distance is at most the length, and it is 0 exactly when the two inputs are equal |
| Hamming.HammingDistance | lib/viterbi.cpp:18-25 | The counting loop returns `Distance(x, y)`, so it lies in [0, \|x\|] and is 0 iff x == y; the inputs must have equal length |
| Hamming.DistanceAppend | lib/viterbi.cpp:18-25 | The distance of two concatenations of equal-length parts is the sum of the parts' distances |
| Reversal.ReverseBits | lib/viterbi.cpp:29-37 | Requires `input < 2^numBits`; the shift loop returns `BitReversal(numBits, input)`, which is below `2^numBits` |
| Reversal.ReversalBound | lib/viterbi.cpp:29-37 | A reversal of `numBits` bits fits in `numBits` bits |
| Reversal.ReversalOfTop | lib/viterbi.cpp:29-37 | Bit `numBits-1` of the input becomes bit 0 of the reversal; the lower bits are reversed above it |
| Reversal.ReversalInvolution | lib/viterbi.cpp:29-37 | Reversing twice with the same width returns any input below `2^numBits` |
| Reversal.LsbBecomesTop | include/viterbi.h:17-34 | Lsb-current convention: the polynomial's bit 0, which taps the current input, becomes bit K-1 of the reversed polynomial, the bit where the table index holds the input |
| Viterbi.OutputTable | lib/viterbi.cpp:75-91 | The table has 2^K entries of n bits each |
| Viterbi.InitializeOutputs | lib/viterbi.cpp:75-91 | The nested loops fill exactly `OutputTable`: entry i, bit j is the parity of `i & ReverseBits(K, poly_j)` over K bits |
| Viterbi.Convolve | lib/viterbi.cpp:81-87 | The shift-and-XOR loop computes the XOR over k < K of (bit k of the index AND bit k of the reversed polynomial) |
| Viterbi.NewCodec | lib/viterbi.cpp:39-47 | Requires K >= 2, a non-empty polynomial list and each polynomial in (0, 2^K); the codec is valid, and its constraint and polynomials are the arguments |
| Viterbi.Codec.NumParityBits | lib/viterbi.cpp:49-51 | One parity bit per polynomial, so at least one for a valid configuration |
| Viterbi.Codec.NextState | lib/viterbi.cpp:53-55 | The next state is below 2^(K-1); its top bit is the input; its low K-2 bits are `state >> 1` |
| Viterbi.Codec.Index | lib/viterbi.cpp:57-59 | The lookup index is below 2^K; the register is in its low K-1 bits and the input in bit K-1 |
| Viterbi.IndexExample | include/viterbi.h:69-75 | With K = 3, register 0b10 and input 1 give index 0b110 = 6 |
| Viterbi.Codec.Output | lib/viterbi.cpp:57-59 | The emitted group has n bits; bit j is the tap parity of polynomial j over the lookup index |
| Viterbi.Codec.StateAfter | lib/viterbi.cpp:63-70 | Feeding any message from state 0 keeps the register below 2^(K-1) |
| Viterbi.Codec.Encoding | lib/viterbi.cpp:61-73 | The encoding of m has n·\|m\| bits |
| Viterbi.Codec.Encode | lib/viterbi.cpp:61-73 | The encoder loop returns `Encoding(bits)`, which has n bits per input bit |
| ViterbiProperties.EncodingPrefix | lib/viterbi.cpp:61-73 | `Encode(a ++ b)` starts with `Encode(a)` |
| ViterbiProperties.EncodingBlock | lib/viterbi.cpp:66-69 | Group t of an encoding is the output of transition t, from the register after the first t bits |
| ViterbiProperties.EncodingSnoc | lib/viterbi.cpp:66-69 | Encoding one more bit appends that transition's table entry |
| Viterbi.Codec.LowSource | lib/viterbi.cpp:108-110 | Both candidate predecessors `s` and `s\|1` are states and satisfy `source >> 1 == target & (2^(K-2)-1)`, the condition at line 97 |
| Viterbi.Codec.PredecessorsOf | lib/viterbi.cpp:104-110 | `NextState(p, b) == s` iff p is one of the two candidates of s and b is the top bit of s |
| Viterbi.Codec.BranchMetric | lib/viterbi.cpp:93-102 | Requires a group of n bits and a connected pair of states; the metric is at most n and is 0 iff the group equals the transition's output |
| Viterbi.Codec.PathMetric | lib/viterbi.cpp:104-126 | The chosen predecessor is one of the two candidates |
| Viterbi.Codec.PathMetricChoice | lib/viterbi.cpp:104-126 | The chosen predecessor leads to the state; the metric is its candidate and no larger than either candidate; a tie goes to the even predecessor; the result is unreachable iff both predecessors are |
| Viterbi.Extend | lib/viterbi.cpp:112-119 | The sentinel guard: an unreachable metric stays unreachable and a reached one gains the branch metric; extending never lowers a metric |
| Viterbi.Codec.Candidate | lib/viterbi.cpp:112-119 | A candidate is reachable iff its predecessor is; then it is the predecessor's metric plus the distance between the group and the transition's output |
| Viterbi.Codec.Step | lib/viterbi.cpp:131-137 | One update yields 2^(K-1) metrics and a column of 2^(K-1) states |
| Viterbi.Codec.StepColumnConsistent | lib/viterbi.cpp:128-141 | Every appended entry `p` at index `s` satisfies `NextState(p, s >> (K-2)) == s` |
| Viterbi.Codec.UpdatePathMetrics | lib/viterbi.cpp:128-141 | The new metrics are `Step(...).0`; the trellis grows by exactly the column `Step(...).1` |
| Viterbi.Codec.InitialMetrics | lib/viterbi.cpp:146-148 | The initial metrics are 0 for state 0 and unreachable elsewhere |
| Viterbi.Codec.Group | lib/viterbi.cpp:150-156 | Every group has n bits |
| Viterbi.Codec.PaddedGroup | lib/viterbi.cpp:149-156 | Group t read up to the end of the input and then zero-filled is `Group(bits, t)` |
| Viterbi.Codec.RangeGroup | lib/viterbi.cpp:150 | The group as literally read, a range [t·n, t·n+n) inside the input, has n bits and equals `Group`, so the padding branch never fires |
| Viterbi.Codec.RangeGroupOverruns | lib/viterbi.cpp:149-156 | When \|bits\| is not a multiple of n, the loop still runs group ceil(\|bits\|/n)-1, whose range ends past the input |
| Viterbi.Codec.Forward | lib/viterbi.cpp:143-158 | After t groups there are 2^(K-1) metrics and a well-formed trellis of t columns |
| Viterbi.Codec.ForwardPass | lib/viterbi.cpp:145-158 | The group loop produces `Forward(bits, ceil(\|bits\|/n))` |
| Viterbi.Codec.Traceback | include/viterbi.h:42-49 | Following the recorded predecessors back through k columns yields k bits |
| Viterbi.FirstMinIndex | lib/viterbi.cpp:162-163 | The index holds a minimum metric, and no earlier index is as small |
| Viterbi.Codec.TracebackPass | lib/viterbi.cpp:160-169 | The backward walk with a final reversal returns `Traceback` from the first minimum state |
| Viterbi.Codec.Decoding | lib/viterbi.cpp:143-170 | The decoded message has ceil(\|bits\|/n) bits |
| Viterbi.Codec.Decode | lib/viterbi.cpp:143-170 | The decoder returns `Decoding(bits)`, one bit per group |
| ViterbiProperties.DecodeEmpty | lib/viterbi.cpp:149 | Decoding no bits gives no bits |
| ViterbiProperties.PathCostSnoc | lib/viterbi.cpp:112-119 | One more message bit adds one transition and one branch metric to the path cost |
| ViterbiProperties.Received | lib/viterbi.cpp:149-156 | The received bits cut or zero-filled to a given length, as the decoder reads them |
| ViterbiProperties.ReceivedSnoc | lib/viterbi.cpp:149-156 | The received prefix one group longer is the shorter prefix followed by that group |
| ViterbiProperties.PathCostIsDistance | lib/viterbi.cpp:93-102 | The cost of a message is the Hamming distance between its encoding and the received bits read (zero-filled) to the same length, so `DecodingIsOptimal` is maximum likelihood for hard decisions |
| ViterbiProperties.TracebackExtend | include/viterbi.h:42-49 | Appending a column leaves the traceback through earlier columns unchanged |
| ViterbiProperties.TracebackSnoc | include/viterbi.h:42-49 | The traceback through one more column takes that column's predecessor, then the earlier columns |
| ViterbiProperties.StepSoundAt | lib/viterbi.cpp:128-141 | A state's new metric is the cost of the path its traceback recovers, which ends in that state |
| ViterbiProperties.StepSound | lib/viterbi.cpp:128-141 | `UpdatePathMetrics` preserves `Sound` |
| ViterbiProperties.StepBelowCandidate | lib/viterbi.cpp:121-125 | A state's new metric is at most any predecessor's metric plus that branch's distance |
| ViterbiProperties.StepCompleteAt | lib/viterbi.cpp:128-141 | No message one group longer reaches a state more cheaply than its new metric |
| ViterbiProperties.StepComplete | lib/viterbi.cpp:128-141 | `UpdatePathMetrics` preserves `Complete` |
| ViterbiProperties.ForwardSound | lib/viterbi.cpp:143-158 | After any number of groups, every finite metric is realised by its traceback |
| ViterbiProperties.ForwardComplete | lib/viterbi.cpp:143-158 | After t groups, every message of length t reaches a reachable state whose metric is at most its cost |
| ViterbiProperties.ForwardConsistent | include/viterbi.h:42-49 | Every trellis column records, for each state, a predecessor that leads to it |
| ViterbiProperties.BestMetricBelow | lib/viterbi.cpp:162-163 | The first minimum metric is reachable and at most the cost of any message of matching length |
| ViterbiProperties.DecodingIsOptimal | lib/viterbi.cpp:143-170 | No message with one bit per group costs less than the decoded one (maximum likelihood) |
| ViterbiProperties.MessageCostsNothing | tests/viterbi_test.cpp:74-83 | Every prefix of m costs 0 against the encoding of m |
| ViterbiProperties.FreeStep | lib/viterbi.cpp:112-119 | A free path stays free when the next received group equals the next transition's output |
| ViterbiProperties.MessageStepFree | tests/viterbi_test.cpp:74-83 | If the first t bits of m cost 0 against its encoding, so do the first t+1 |
| ViterbiProperties.FreePathSnoc | lib/viterbi.cpp:112-119 | A free path has a free prefix, and its last group equals its last output |
| ViterbiProperties.FreePathReencodes | tests/viterbi_test.cpp:74-83 | A message of cost 0 re-encodes to the received bits |
| ViterbiProperties.RoundTripReencodes | tests/viterbi_test.cpp:74-83 | `Decode(Encode(m))` has \|m\| bits, and `Encode(Decode(Encode(m))) == Encode(m)` |
| ViterbiProperties.FreePathGivesZeroMetric | lib/viterbi.cpp:162-163 | If some message costs 0, the traceback starts from a state of metric 0 |
| ViterbiProperties.ErrorFreeMetricIsZero | tests/viterbi_test.cpp:74-83 | On an error-free encoding, the forward pass that `Decoding` runs (ceil(n·\|m\|/n) = \|m\| groups) ends with the chosen final metric 0 |
| ViterbiProperties.TapParityLow | lib/viterbi.cpp:81-87 | The tap parity over `width` bits depends only on the index's bits below `width` |
| ViterbiProperties.OutputDistinguishes | lib/viterbi.cpp:57-59 | If polynomial j is odd, bit j of the output differs between input 0 and input 1 from every state |
| ViterbiProperties.OutputDeterminesInput | lib/viterbi.cpp:57-59 | With an odd polynomial, equal outputs from one state mean equal inputs |
| ViterbiProperties.EncodingLastSplit | lib/viterbi.cpp:61-73 | Equal encodings of equal-length messages have equal prefix encodings and equal last outputs |
| ViterbiProperties.EncodingInjective | lib/viterbi.cpp:61-73 | With an odd polynomial, two messages of one length with the same encoding are equal |
| ViterbiProperties.ExactRoundTrip | tests/viterbi_test.cpp:74-83 | With an odd polynomial, as in every code at tests/viterbi_test.cpp:85-116, `Decode(Encode(m)) == m` for every message |
| ViterbiProperties.BlindOutputs | lib/viterbi.cpp:75-91 | With K = 3 and polynomial 6 the input is untapped: state 0 emits 0 for either input |
| ViterbiProperties.BlindEncoding | lib/viterbi.cpp:61-73 | With K = 3 and polynomial 6, message [1] encodes to [0] |
| ViterbiProperties.ForwardOne | lib/viterbi.cpp:143-158 | The forward pass over one group is a single update from the initial metrics |
| ViterbiProperties.ZeroGroupDecoding | lib/viterbi.cpp:143-170 | For any valid code, one received group equal to what state 0 emits for input 0 decodes to [0] |
| ViterbiProperties.BlindDecoding | lib/viterbi.cpp:143-170 | With K = 3 and polynomial 6, [0] decodes to [0] |
| ViterbiProperties.ExactRoundTripCanFail | tests/viterbi_test.cpp:74-83 | With a valid configuration (K = 3, polynomial 6), `Decode(Encode([1])) == [0]`: exact recovery depends on the code |
| BitStrings.ToBits | tests/viterbi-utils.h:11-20 | The bits of a text: one per character, set iff the character is '1' |
| BitStrings.ToText | tests/viterbi-utils.h:22-29 | The text has one character per bit, each '0' or '1' |
| BitStrings.StringToBits | tests/viterbi-utils.h:11-20 | Requires a binary text; bit i is set iff character i is '1', and converting back gives the text |
| BitStrings.BitsToString | tests/viterbi-utils.h:22-29 | The appending loop returns `ToText(bits)`, a binary text that converts back to the bits |
| BitStrings.BitsLiteral | tests/viterbi-utils.h:31-34 | `"..."_b` is `string_to_bits` of the same characters: same length, and bit i is set iff character i is '1' |
| BitStrings.TextRoundTrip | tests/viterbi-utils.h:11-29 | `bits_to_string(string_to_bits(s)) == s` for binary s |
| BitStrings.BitsRoundTrip | tests/viterbi-utils.h:11-29 | `string_to_bits(bits_to_string(b)) == b` |

## Findings

| source | as written | input that shows it | evidently intended | confidence | as-written member | corrected member |
|---|---|---|---|---|---|---|
| lib/viterbi.cpp:150-156 | The group is built from the range [i, i+n) even when i+n passes the end of the input. Such a range always has n elements, so the zero-padding branch at 153-156 can never run | n = 2 and a received vector of 3 bits: the second group is [2, 4) over a 3-bit vector | Read up to the end of the input, then fill with zeros to n bits | not executed | Viterbi.Codec.RangeGroupOverruns | Viterbi.Codec.PaddedGroup |

`Viterbi.Codec.RangeGroup` is the group as written. Its precondition, that the
range lies inside the input, is exactly what `RangeGroupOverruns` shows the
last iteration violating. `ForwardPass` reads the corrected, padded group.

## Left out

- tests/viterbi_main.cpp: command-line parsing and stdin/stdout I/O.
- tests/viterbi_test.cpp as code: gtest, random messages, the 5%
  floating-point error rate and the fixed test vectors. Its round-trip check
  is stated as lemmas instead.
- `operator<<` for the codec (tests/viterbi-utils.h:36-46): stream
  formatting.
- `int` width:
  - `1 << constraint`, metric sums and `ReverseBits` are modelled on
    unbounded `nat`.
  - The `INT_MAX` sentinel is the `Unreachable` metric.
  - Overflow for very large K is not modelled.
- The packed `std::vector<bool>` representation: bits are `seq<bool>`.
- Viterbi.Codec.UpdatePathMetrics: the source overwrites `*path_metrics` and
  pushes onto `*trellis` through its pointer arguments. The model takes both by value and
  returns the new ones, so aliasing between the two is not modelled. The
  fresh vectors are local arrays, as in the source.
- Viterbi.NewCodec: the constructor's `assert`s are preconditions. K >= 2 is
  added because every shift by K-2 needs it. A violated `assert` in a
  release build is not modelled.
- BitStrings.StringToBits: the `assert` on each character is a
  precondition.
- ViterbiProperties.RoundTripReencodes: holds for every valid
  configuration, so it states only `Encode(Decode(Encode(m))) == Encode(m)`
  and the length, weaker than the tests' `Decode(Encode(m)) == m`. Exact
  recovery does not hold for every valid configuration:
  `ExactRoundTripCanFail` gives one (K = 3, polynomial 6) where it fails.
  `ExactRoundTrip` proves it whenever some polynomial is odd, which every
  code in tests/viterbi_test.cpp:85-116 satisfies.
- Error tolerance up to the free distance of a code is not modelled.
