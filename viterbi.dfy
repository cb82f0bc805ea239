/** The `ViterbiCodec` of include/viterbi.h and lib/viterbi.cpp: a rate-1/n
    binary convolutional encoder and a hard-decision Viterbi decoder.

    States are the K-1 register bits that precede the newest input, so
    there are 2^(K-1) of them. `x >> k` is written `x / Pow2(k)`, a low mask
    `x & (2^k - 1)` is `x % Pow2(k)`, and a bitwise or of two values whose
    bits do not overlap is written `+`. */
module Viterbi {
  import opened BitMath
  import opened Hamming
  import opened Reversal

  /** A path metric: the accumulated Hamming distance of the best path into
      a state, or `Unreachable` for a state that no path reaches yet (the
      source stores `std::numeric_limits<int>::max()` there). */
  datatype Metric = Unreachable | Reached(distance: nat)

  /** `trellis[i][s]` is the state at step `i` that the best path into state
      `s` at step `i + 1` comes from. */
  type Trellis = seq<seq<nat>>

  /** Adds a branch metric to a path metric; an unreachable state stays
      unreachable. */
  function Extend(pm: Metric, branch: nat): (r: Metric)
    ensures r.Reached? <==> pm.Reached?
    ensures r.Reached? ==> r.distance == pm.distance + branch
    ensures LessEq(pm, r)
  {
    match pm
    case Unreachable => Unreachable
    case Reached(d) => Reached(d + branch)
  }

  /** `a <= b` where `Unreachable` is larger than every distance (and equal to itself). */
  predicate LessEq(a: Metric, b: Metric)
  {
    b.Unreachable? || (a.Reached? && a.distance <= b.distance)
  }

  /** `width` zero bits. */
  function Zeros(width: nat): (z: seq<bool>)
    ensures |z| == width && forall k :: 0 <= k < width ==> !z[k]
  {
    seq(width, _ => false)
  }

  /** `s` in the opposite order. */
  function Reverse<T>(s: seq<T>): (r: seq<T>)
    ensures |r| == |s|
  {
    if s == [] then [] else [s[|s| - 1]] + Reverse(s[..|s| - 1])
  }

  lemma ReverseSnoc<T>(s: seq<T>, x: T)
    ensures Reverse(s + [x]) == [x] + Reverse(s)
  {
    assert (s + [x])[..|s|] == s;
  }

  /** Parity of the taps: the XOR, over bit positions k < width, of
      (bit k of `index`) AND (bit k of `taps`). */
  function TapParity(index: nat, taps: nat, width: nat): bool
  {
    if width == 0 then false
    else TapParity(index, taps, width - 1) != (Bit(index, width - 1) && Bit(taps, width - 1))
  }

  /** The parity bits emitted for table index `index`: bit j convolves the
      index with the bit-reversed polynomial j. */
  function OutputEntry(constraint: nat, polynomials: seq<nat>, index: nat): seq<bool>
  {
    seq(|polynomials|, j requires 0 <= j < |polynomials| =>
      TapParity(index, BitReversal(constraint, polynomials[j]), constraint))
  }

  /** The output table: one entry of n parity bits per index in [0, 2^K). */
  function OutputTable(constraint: nat, polynomials: seq<nat>): (table: seq<seq<bool>>)
    ensures |table| == Pow2(constraint)
    ensures forall i :: 0 <= i < |table| ==> |table[i]| == |polynomials|
  {
    seq(Pow2(constraint), i requires 0 <= i < Pow2(constraint) => OutputEntry(constraint, polynomials, i))
  }

  /** What the constructor asserts of its arguments (plus K >= 2, which every
      shift by K - 2 needs). */
  predicate ValidConfig(constraint: nat, polynomials: seq<nat>)
  {
    constraint >= 2 && |polynomials| > 0 &&
    forall j :: 0 <= j < |polynomials| ==> 0 < polynomials[j] < Pow2(constraint)
  }

  /** Fills the output table with the nested loops of the source: for every
      index and polynomial, shift the index and the reversed polynomial down
      together and XOR the products of their low bits. */
  method InitializeOutputs(constraint: nat, polynomials: seq<nat>) returns (outputs: seq<seq<bool>>)
    requires ValidConfig(constraint, polynomials)
    ensures outputs == OutputTable(constraint, polynomials)
  {
    var table := new seq<bool>[Pow2(constraint)](_ => []);
    for i := 0 to table.Length
      invariant forall i' :: 0 <= i' < i ==> table[i'] == OutputEntry(constraint, polynomials, i')
      invariant forall i' :: i <= i' < table.Length ==> table[i'] == []
    {
      for j := 0 to |polynomials|
        invariant table[i] == OutputEntry(constraint, polynomials, i)[..j]
        invariant forall i' :: 0 <= i' < i ==> table[i'] == OutputEntry(constraint, polynomials, i')
        invariant forall i' :: i < i' < table.Length ==> table[i'] == []
      {
        var polynomial := ReverseBits(constraint, polynomials[j]);
        var output := Convolve(i, polynomial, constraint);
        assert OutputEntry(constraint, polynomials, i)[..j + 1]
            == OutputEntry(constraint, polynomials, i)[..j] + [output];
        table[i] := table[i] + [output];
      }
    }
    outputs := table[..];
  }

  /** The innermost loop of the table construction: shift `input` and
      `polynomial` down together, XOR-ing the AND of their low bits. */
  method Convolve(index: nat, taps: nat, width: nat) returns (output: bool)
    ensures output == TapParity(index, taps, width)
  {
    var input, polynomial := index, taps;
    output := false;
    for k := 0 to width
      invariant input == index / Pow2(k) && polynomial == taps / Pow2(k)
      invariant output == TapParity(index, taps, k)
    {
      output := output != (input % 2 == 1 && polynomial % 2 == 1);
      ShiftHalf(index, k);
      ShiftHalf(taps, k);
      polynomial := polynomial / 2;
      input := input / 2;
    }
  }

  /** A codec: the constraint length K, the generator polynomials (lsb-current:
      bit 0 of a polynomial taps the current input) and the output table
      derived from them. All three are fixed once constructed. */
  datatype Codec = Codec(constraint: nat, polynomials: seq<nat>, outputs: seq<seq<bool>>)
  {
    predicate Valid()
    {
      ValidConfig(constraint, polynomials) && outputs == OutputTable(constraint, polynomials)
    }

    /** n, the number of parity bits emitted per input bit. */
    function NumParityBits(): (n: nat)
      ensures ValidConfig(constraint, polynomials) ==> n >= 1
    {
      |polynomials|
    }

    /** 2^(K-1), the number of register states. */
    function NumStates(): nat
      requires Valid()
    {
      Pow2(constraint - 1)
    }

    /** The newest register bit of a state, `state >> (K - 2)` read as a bit. */
    function Top(state: nat): bool
      requires Valid()
    {
      state / Pow2(constraint - 2) != 0
    }

    /** Shift the register right by one and put `input` in the top position. */
    function NextState(state: nat, input: bool): (next: nat)
      requires Valid() && state < NumStates()
      ensures next < NumStates()
      ensures Top(next) == input
      ensures next % Pow2(constraint - 2) == state / 2
    {
      var half := Pow2(constraint - 2);
      assert NumStates() == 2 * half;
      var next := state / 2 + (if input then half else 0);
      DivModUnique(next, half, if input then 1 else 0, state / 2);
      next
    }

    /** The output-table index of a transition: the input bit above the
        register contents. */
    function Index(state: nat, input: bool): (index: nat)
      requires Valid() && state < NumStates()
      ensures index < Pow2(constraint)
      ensures index % NumStates() == state
      ensures Bit(index, constraint - 1) == input
    {
      var index := state + (if input then NumStates() else 0);
      DivModUnique(index, NumStates(), if input then 1 else 0, state);
      index
    }

    /** The n parity bits emitted when `input` arrives in register `state`:
        bit j is the parity of the taps of polynomial j over the register and
        the input. */
    function Output(state: nat, input: bool): (out: seq<bool>)
      requires Valid() && state < NumStates()
      ensures |out| == NumParityBits()
      ensures forall j :: 0 <= j < |out| ==>
        out[j] == TapParity(Index(state, input), BitReversal(constraint, polynomials[j]), constraint)
    {
      outputs[Index(state, input)]
    }

    /** The register after feeding `bits` to the encoder from state 0. */
    function StateAfter(bits: seq<bool>): (state: nat)
      requires Valid()
      ensures state < NumStates()
      decreases |bits|
    {
      if bits == [] then 0
      else NextState(StateAfter(bits[..|bits| - 1]), bits[|bits| - 1])
    }

    /** The encoding of `bits`: one table entry per input bit, starting from
        state 0, without flushing the register at the end. */
    function Encoding(bits: seq<bool>): (encoded: seq<bool>)
      requires Valid()
      ensures |encoded| == NumParityBits() * |bits|
      decreases |bits|
    {
      if bits == [] then []
      else
        var prefix := bits[..|bits| - 1];
        MulSucc(NumParityBits(), |prefix|);
        Encoding(prefix) + Output(StateAfter(prefix), bits[|bits| - 1])
    }

    /** The encoder loop: emit the output for each bit, then advance the register. */
    method Encode(bits: seq<bool>) returns (encoded: seq<bool>)
      requires Valid()
      ensures encoded == Encoding(bits)
      ensures |encoded| == NumParityBits() * |bits|
    {
      encoded := [];
      var state := 0;
      for i := 0 to |bits|
        invariant state == StateAfter(bits[..i])
        invariant encoded == Encoding(bits[..i])
      {
        assert bits[..i + 1][..i] == bits[..i];
        var output := Output(state, bits[i]);
        encoded := encoded + output;
        state := NextState(state, bits[i]);
      }
      assert bits[..|bits|] == bits;
    }

    /** The lower of the two states that can precede `target`:
        `(target & (2^(K-2) - 1)) << 1`; the other one is this plus one. */
    function LowSource(target: nat): (source: nat)
      requires Valid() && target < NumStates()
      ensures source + 1 < NumStates()
      ensures source / 2 == (source + 1) / 2 == target % Pow2(constraint - 2)
    {
      (target % Pow2(constraint - 2)) * 2
    }

    /** Distance between the received group and what the transition
        `source -> target` would have emitted. */
    function BranchMetric(bits: seq<bool>, source: nat, target: nat): (d: nat)
      requires Valid() && |bits| == NumParityBits()
      requires source < NumStates() && target < NumStates()
      requires target % Pow2(constraint - 2) == source / 2
      ensures d <= NumParityBits()
      ensures d == 0 <==> bits == Output(source, Top(target))
    {
      Distance(bits, Output(source, Top(target)))
    }

    /** The metric a path into `target` through `source` would have. */
    function Candidate(bits: seq<bool>, prev: seq<Metric>, source: nat, target: nat): (r: Metric)
      requires Valid() && |bits| == NumParityBits() && |prev| == NumStates()
      requires source < NumStates() && target < NumStates()
      requires target % Pow2(constraint - 2) == source / 2
      ensures r.Reached? <==> prev[source].Reached?
      ensures r.Reached? ==> r.distance == prev[source].distance + Distance(bits, Output(source, Top(target)))
    {
      Extend(prev[source], BranchMetric(bits, source, target))
    }

    /** The best metric into `state` after one more group, and the
        predecessor it comes from (see `PathMetricChoice`). */
    function PathMetric(bits: seq<bool>, prev: seq<Metric>, state: nat): (r: (Metric, nat))
      requires Valid() && |bits| == NumParityBits() && |prev| == NumStates() && state < NumStates()
      ensures r.1 == LowSource(state) || r.1 == LowSource(state) + 1
    {
      var source1 := LowSource(state);
      var source2 := source1 + 1;
      var pm1 := Candidate(bits, prev, source1, state);
      var pm2 := Candidate(bits, prev, source2, state);
      if LessEq(pm1, pm2) then (pm1, source1) else (pm2, source2)
    }

    /** The chosen predecessor leads to `state`; the chosen metric is its
        candidate and no larger than either candidate; a tie goes to the
        even predecessor; and the result is unreachable only when both
        predecessors are. */
    lemma PathMetricChoice(bits: seq<bool>, prev: seq<Metric>, state: nat)
      requires Valid() && |bits| == NumParityBits() && |prev| == NumStates() && state < NumStates()
      ensures var r := PathMetric(bits, prev, state);
        && NextState(r.1, Top(state)) == state
        && r.0 == Candidate(bits, prev, r.1, state)
        && LessEq(r.0, Candidate(bits, prev, LowSource(state), state))
        && LessEq(r.0, Candidate(bits, prev, LowSource(state) + 1, state))
        && (r.1 == LowSource(state) + 1 ==>
              !LessEq(Candidate(bits, prev, LowSource(state), state), r.0))
        && (r.0.Unreachable? <==> prev[LowSource(state)].Unreachable? && prev[LowSource(state) + 1].Unreachable?)
    {
      var r := PathMetric(bits, prev, state);
      PredecessorsOf(r.1, Top(state), state);
    }

    /** A state is entered from exactly the two states whose right shift
        agrees with its low K-2 bits, and only with its top bit as input. */
    lemma PredecessorsOf(source: nat, input: bool, target: nat)
      requires Valid() && source < NumStates() && target < NumStates()
      ensures NextState(source, input) == target <==>
        (source == LowSource(target) || source == LowSource(target) + 1) && input == Top(target)
    {
      var half := Pow2(constraint - 2);
      assert NumStates() == 2 * half;
      TopAndLow(NextState(source, input), target, half);
      HalfOf(source, target % half);
    }

    /** One trellis column is well formed: one state per state. */
    predicate ValidColumn(column: seq<nat>)
      requires Valid()
    {
      |column| == NumStates() && forall s :: 0 <= s < |column| ==> column[s] < NumStates()
    }

    predicate ValidTrellis(trellis: Trellis)
      requires Valid()
    {
      forall i :: 0 <= i < |trellis| ==> ValidColumn(trellis[i])
    }

    /** A column is consistent: every entry is a state that leads to its
        index, with the index's top bit as input. */
    predicate ConsistentColumn(column: seq<nat>)
      requires Valid() && ValidColumn(column)
    {
      forall s :: 0 <= s < |column| ==> NextState(column[s], Top(s)) == s
    }

    predicate ConsistentTrellis(trellis: Trellis)
      requires Valid() && ValidTrellis(trellis)
    {
      forall i :: 0 <= i < |trellis| ==> ConsistentColumn(trellis[i])
    }

    /** The new metrics and trellis column after one group of received bits. */
    function Step(bits: seq<bool>, prev: seq<Metric>): (r: (seq<Metric>, seq<nat>))
      requires Valid() && |bits| == NumParityBits() && |prev| == NumStates()
      ensures |r.0| == NumStates() && ValidColumn(r.1)
    {
      (seq(NumStates(), s requires 0 <= s < NumStates() => PathMetric(bits, prev, s).0),
       seq(NumStates(), s requires 0 <= s < NumStates() => PathMetric(bits, prev, s).1))
    }

    /** Entry `s` of a step is the choice `PathMetric` makes for `s`. */
    lemma StepAt(bits: seq<bool>, prev: seq<Metric>, s: nat)
      requires Valid() && |bits| == NumParityBits() && |prev| == NumStates() && s < NumStates()
      ensures Step(bits, prev).0[s] == PathMetric(bits, prev, s).0
      ensures Step(bits, prev).1[s] == PathMetric(bits, prev, s).1
    {
    }

    /** Every column the forward pass appends is consistent. */
    lemma StepColumnConsistent(bits: seq<bool>, prev: seq<Metric>)
      requires Valid() && |bits| == NumParityBits() && |prev| == NumStates()
      ensures ConsistentColumn(Step(bits, prev).1)
    {
      var column := Step(bits, prev).1;
      forall s | 0 <= s < NumStates()
        ensures NextState(column[s], Top(s)) == s
      {
        PathMetricChoice(bits, prev, s);
      }
    }

    /** Computes the metric and predecessor of every state into two fresh
        vectors, replaces the metrics and appends the column to the trellis. */
    method UpdatePathMetrics(bits: seq<bool>, pathMetrics: seq<Metric>, trellis: Trellis)
      returns (newPathMetrics: seq<Metric>, newTrellis: Trellis)
      requires Valid() && |bits| == NumParityBits() && |pathMetrics| == NumStates()
      ensures newPathMetrics == Step(bits, pathMetrics).0
      ensures newTrellis == trellis + [Step(bits, pathMetrics).1]
    {
      ghost var step := Step(bits, pathMetrics);
      var metrics := new Metric[|pathMetrics|](_ => Unreachable);
      var column := new nat[NumStates()](_ => 0);
      for i := 0 to |pathMetrics|
        invariant metrics[..i] == step.0[..i]
        invariant column[..i] == step.1[..i]
      {
        var p := PathMetric(bits, pathMetrics, i);
        assert step.0[i] == p.0 && step.1[i] == p.1;
        metrics[i] := p.0;
        column[i] := p.1;
        assert metrics[..i + 1] == metrics[..i] + [p.0];
        assert column[..i + 1] == column[..i] + [p.1];
      }
      assert metrics[..] == metrics[..|pathMetrics|] && step.0 == step.0[..|pathMetrics|];
      assert column[..] == column[..|pathMetrics|] && step.1 == step.1[..|pathMetrics|];
      newPathMetrics := metrics[..];
      newTrellis := trellis + [column[..]];
    }

    /** Before any group: only state 0 is reachable, at distance 0. */
    function InitialMetrics(): (m: seq<Metric>)
      requires Valid()
      ensures |m| == NumStates() && m[0] == Reached(0)
      ensures forall s :: 0 < s < NumStates() ==> m[s].Unreachable?
    {
      seq(NumStates(), s => if s == 0 then Reached(0) else Unreachable)
    }

    /** Received group `t`: bits [t*n, t*n + n) of the input, with positions
        past the end read as zero. */
    function Group(bits: seq<bool>, t: nat): (g: seq<bool>)
      ensures |g| == NumParityBits()
    {
      var n := NumParityBits();
      seq(n, k requires 0 <= k < n => if t * n + k < |bits| then bits[t * n + k] else false)
    }

    /** Reading group `t` as the source does, up to the end of the input and
        then zero-filled, gives `Group(bits, t)`. */
    lemma PaddedGroup(bits: seq<bool>, t: nat)
      requires t * NumParityBits() < |bits|
      ensures var n, i := NumParityBits(), t * NumParityBits();
        var stop := if i + n <= |bits| then i + n else |bits|;
        bits[i..stop] + Zeros(n - (stop - i)) == Group(bits, t)
    {
    }

    /** Group `t` read as the loop of `Decode` literally reads it: the
        iterator range [t*n, t*n + n) of the input, which is a valid range
        only when it ends inside the input. Where it is valid it has n bits,
        so the padding test after it never fires, and it agrees with
        `Group`. */
    function RangeGroup(bits: seq<bool>, t: nat): (g: seq<bool>)
      requires t * NumParityBits() + NumParityBits() <= |bits|
      ensures |g| == NumParityBits()
      ensures g == Group(bits, t)
    {
      bits[t * NumParityBits()..t * NumParityBits() + NumParityBits()]
    }

    /** When the input length is not a multiple of n, the loop still runs
        group ceil(|bits| / n) - 1 (it starts inside the input), but that
        group's range ends past the input, so `RangeGroup` cannot be taken
        there. */
    lemma RangeGroupOverruns(bits: seq<bool>)
      requires Valid() && |bits| % NumParityBits() != 0
      ensures CeilDiv(|bits|, NumParityBits()) >= 1
      ensures var n, t := NumParityBits(), CeilDiv(|bits|, NumParityBits()) - 1;
        t * n < |bits| < t * n + n
    {
      var n := NumParityBits();
      var q, r := |bits| / n, |bits| % n;
      assert |bits| == q * n + r;
      assert |bits| + n - 1 == (q + 1) * n + (r - 1);
      DivModUnique(|bits| + n - 1, n, q + 1, r - 1);
    }

    /** Metrics and trellis after the first `t` groups of `bits`. */
    function Forward(bits: seq<bool>, t: nat): (r: (seq<Metric>, Trellis))
      requires Valid()
      ensures |r.0| == NumStates() && |r.1| == t && ValidTrellis(r.1)
    {
      if t == 0 then (InitialMetrics(), [])
      else
        var (metrics, trellis) := Forward(bits, t - 1);
        var (metrics', column) := Step(Group(bits, t - 1), metrics);
        (metrics', trellis + [column])
    }

    /** The bits along the path that the first `k` trellis columns record
        into `state`, oldest first: each column contributes the top bit of
        the state it leads to. */
    function Traceback(trellis: Trellis, k: nat, state: nat): (decoded: seq<bool>)
      requires Valid() && ValidTrellis(trellis) && k <= |trellis| && state < NumStates()
      ensures |decoded| == k
    {
      if k == 0 then []
      else
        assert ValidColumn(trellis[k - 1]);
        Traceback(trellis, k - 1, trellis[k - 1][state]) + [Top(state)]
    }

    /** The decoder's result: run the forward pass over ceil(|bits| / n)
        groups, then trace back from the first state of minimum metric. */
    function Decoding(bits: seq<bool>): (decoded: seq<bool>)
      requires Valid()
      ensures |decoded| == CeilDiv(|bits|, NumParityBits())
    {
      var forward := Forward(bits, CeilDiv(|bits|, NumParityBits()));
      Traceback(forward.1, |forward.1|, FirstMinIndex(forward.0))
    }

    /** The decoder of the source: the forward pass, then the traceback. */
    method Decode(bits: seq<bool>) returns (decoded: seq<bool>)
      requires Valid()
      ensures decoded == Decoding(bits)
      ensures |decoded| == CeilDiv(|bits|, NumParityBits())
    {
      var pathMetrics, trellis := ForwardPass(bits);
      decoded := TracebackPass(pathMetrics, trellis);
    }

    /** First half of `Decode`: starting from metrics [0, Unreachable, ...], update
        the metrics group by group, the last group clamped to the input and
        zero-padded. */
    method ForwardPass(bits: seq<bool>) returns (pathMetrics: seq<Metric>, trellis: Trellis)
      requires Valid()
      ensures (pathMetrics, trellis) == Forward(bits, CeilDiv(|bits|, NumParityBits()))
    {
      var n := NumParityBits();
      trellis := [];
      pathMetrics := InitialMetrics();
      var i := 0;
      ghost var t := 0;
      while i < |bits|
        invariant i == t * n && t <= CeilDiv(|bits|, n)
        invariant (pathMetrics, trellis) == Forward(bits, t)
        decreases |bits| - i
      {
        CeilDivBound(|bits|, n, t);
        var stop := if i + n <= |bits| then i + n else |bits|;
        var currentBits := bits[i..stop] + Zeros(n - (stop - i));
        PaddedGroup(bits, t);
        pathMetrics, trellis := UpdatePathMetrics(currentBits, pathMetrics, trellis);
        MulSucc(n, t);
        i, t := i + n, t + 1;
      }
      CeilDivBound(|bits|, n, t);
    }

    /** Second half of `Decode`: start from the first state of minimum
        metric, collect the top bit of the current state while walking the
        columns from last to first, then reverse the collected bits. */
    method TracebackPass(pathMetrics: seq<Metric>, trellis: Trellis) returns (decoded: seq<bool>)
      requires Valid() && |pathMetrics| == NumStates() && ValidTrellis(trellis)
      ensures decoded == Traceback(trellis, |trellis|, FirstMinIndex(pathMetrics))
    {
      var state: nat := FirstMinIndex(pathMetrics);
      ghost var best := state;
      var collected := [];
      var k: nat := |trellis|;
      while k > 0
        invariant 0 <= k <= |trellis| && state < NumStates()
        invariant Traceback(trellis, |trellis|, best) == Traceback(trellis, k, state) + Reverse(collected)
      {
        assert ValidColumn(trellis[k - 1]);
        var previous := trellis[k - 1][state];
        ghost var prefix := Traceback(trellis, k - 1, previous);
        assert Traceback(trellis, k, state) == prefix + [Top(state)];
        ReverseSnoc(collected, Top(state));
        assert (prefix + [Top(state)]) + Reverse(collected) == prefix + Reverse(collected + [Top(state)]);
        collected := collected + [Top(state)];
        state := previous;
        k := k - 1;
      }
      decoded := Reverse(collected);
    }
  }

  /** `std::min_element`: the first index whose metric is not larger than
      any other. */
  function FirstMinIndex(metrics: seq<Metric>): (i: nat)
    requires |metrics| > 0
    ensures i < |metrics|
    ensures forall j :: 0 <= j < |metrics| ==> LessEq(metrics[i], metrics[j])
    ensures forall j :: 0 <= j < i ==> !LessEq(metrics[j], metrics[i])
    decreases |metrics|
  {
    if |metrics| == 1 then 0
    else
      var last := |metrics| - 1;
      var best := FirstMinIndex(metrics[..last]);
      assert forall j :: 0 <= j < last ==> metrics[..last][j] == metrics[j];
      if !LessEq(metrics[best], metrics[last]) then last else best
  }

  /** The header's example of the table index: with K = 3, register 0b10
      and input 1 give index 0b110. */
  lemma IndexExample(c: Codec)
    requires c.Valid() && c.constraint == 3
    ensures c.Index(2, true) == 6
  {
    assert c.NumStates() == 4;
  }

  /** Builds a codec; the table is filled once here and never changed. */
  method NewCodec(constraint: nat, polynomials: seq<nat>) returns (codec: Codec)
    requires ValidConfig(constraint, polynomials)
    ensures codec.Valid()
    ensures codec.constraint == constraint && codec.polynomials == polynomials
  {
    var outputs := InitializeOutputs(constraint, polynomials);
    codec := Codec(constraint, polynomials, outputs);
  }
}
