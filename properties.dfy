/** Properties of the codec that relate several operations: the encoder's
    prefix structure, the forward-pass invariant of the Viterbi recursion,
    optimality of the traceback and the re-encoding round trip. */
module ViterbiProperties {
  import opened BitMath
  import opened Hamming
  import opened Reversal
  import opened Viterbi

  /** Encoding a longer message extends the encoding of its prefix. */
  lemma {:induction false} EncodingPrefix(c: Codec, a: seq<bool>, b: seq<bool>)
    requires c.Valid()
    ensures |c.Encoding(a)| <= |c.Encoding(a + b)|
    ensures c.Encoding(a + b)[..|c.Encoding(a)|] == c.Encoding(a)
    decreases |b|
  {
    if b == [] {
      assert a + b == a;
    } else {
      var b' := b[..|b| - 1];
      assert (a + b)[..|a + b| - 1] == a + b';
      EncodingPrefix(c, a, b');
    }
  }

  /** Group t of the encoding of `m` is the output of the t-th transition. */
  lemma EncodingBlock(c: Codec, m: seq<bool>, t: nat)
    requires c.Valid() && t < |m|
    ensures var n := c.NumParityBits();
      t * n + n <= |c.Encoding(m)| &&
      c.Encoding(m)[t * n..t * n + n] == c.Output(c.StateAfter(m[..t]), m[t])
  {
    var n := c.NumParityBits();
    var head, tail := m[..t + 1], m[t + 1..];
    var front, out := c.Encoding(head), c.Output(c.StateAfter(m[..t]), m[t]);
    assert front == c.Encoding(m[..t]) + out by {
      assert head == m[..t] + [m[t]];
      EncodingSnoc(c, m[..t], m[t]);
    }
    assert |front| == t * n + n by {
      MulSucc(n, t);
    }
    assert c.Encoding(m)[..|front|] == front by {
      assert head + tail == m;
      EncodingPrefix(c, head, tail);
    }
    SliceOfPrefix(c.Encoding(m), c.Encoding(m[..t]), out);
  }

  /** If `whole` starts with `x + y`, the slice of `whole` after `x` and as
      long as `y` is `y`. */
  lemma SliceOfPrefix<T>(whole: seq<T>, x: seq<T>, y: seq<T>)
    requires |x + y| <= |whole| && whole[..|x + y|] == x + y
    ensures whole[|x|..|x| + |y|] == y
  {
    assert whole[|x|..|x| + |y|] == whole[..|x + y|][|x|..];
  }

  /** The cost of feeding message `u` to the encoder against the received
      `bits`: the sum of the branch metrics along its path. */
  function PathCost(c: Codec, bits: seq<bool>, u: seq<bool>): nat
    requires c.Valid()
    decreases |u|
  {
    if u == [] then 0
    else
      var p := u[..|u| - 1];
      PathCost(c, bits, p) + Distance(c.Group(bits, |p|), c.Output(c.StateAfter(p), u[|u| - 1]))
  }

  /** One more message bit: one more transition and one more branch metric. */
  lemma PathCostSnoc(c: Codec, bits: seq<bool>, u: seq<bool>, b: bool)
    requires c.Valid()
    ensures c.StateAfter(u + [b]) == c.NextState(c.StateAfter(u), b)
    ensures PathCost(c, bits, u + [b])
         == PathCost(c, bits, u) + Distance(c.Group(bits, |u|), c.Output(c.StateAfter(u), b))
  {
    assert (u + [b])[..|u|] == u;
  }

  /** The first `len` received bits, zero-filled past the end of the input. */
  function Received(bits: seq<bool>, len: nat): (r: seq<bool>)
    ensures |r| == len
  {
    seq(len, i requires 0 <= i < len => if i < |bits| then bits[i] else false)
  }

  /** The received prefix one group longer is the prefix and then that group. */
  lemma ReceivedSnoc(c: Codec, bits: seq<bool>, t: nat)
    ensures var n := c.NumParityBits();
      Received(bits, n * (t + 1)) == Received(bits, n * t) + c.Group(bits, t)
  {
    var n := c.NumParityBits();
    MulSucc(n, t);
    assert n * t == t * n;
  }

  /** The cost of a message is the Hamming distance between the received
      bits, zero-filled to one group per message bit, and its encoding: the
      decoder's metric is the likelihood measure of a hard-decision channel. */
  lemma {:induction false} PathCostIsDistance(c: Codec, bits: seq<bool>, u: seq<bool>)
    requires c.Valid()
    ensures PathCost(c, bits, u) == Distance(Received(bits, c.NumParityBits() * |u|), c.Encoding(u))
    decreases |u|
  {
    var n := c.NumParityBits();
    if u == [] {
      assert Received(bits, n * 0) == [];
    } else {
      var p, b := u[..|u| - 1], u[|u| - 1];
      assert u == p + [b];
      PathCostSnoc(c, bits, p, b);
      EncodingSnoc(c, p, b);
      ReceivedSnoc(c, bits, |p|);
      PathCostIsDistance(c, bits, p);
      DistanceAppend(Received(bits, n * |p|), c.Encoding(p), c.Group(bits, |p|), c.Output(c.StateAfter(p), b));
    }
  }

  /** Every reachable state's metric is achieved by the path the trellis
      records into it. */
  ghost predicate Sound(c: Codec, bits: seq<bool>, metrics: seq<Metric>, trellis: Trellis)
    requires c.Valid() && |metrics| == c.NumStates() && c.ValidTrellis(trellis)
  {
    forall s :: 0 <= s < |metrics| && metrics[s].Reached? ==>
      var u := c.Traceback(trellis, |trellis|, s);
      c.StateAfter(u) == s && PathCost(c, bits, u) == metrics[s].distance
  }

  /** No message of the same length reaches a state more cheaply than that
      state's metric. */
  ghost predicate Complete(c: Codec, bits: seq<bool>, metrics: seq<Metric>, trellis: Trellis)
    requires c.Valid() && |metrics| == c.NumStates()
  {
    forall u: seq<bool> :: |u| == |trellis| ==>
      metrics[c.StateAfter(u)].Reached? && metrics[c.StateAfter(u)].distance <= PathCost(c, bits, u)
  }

  /** Appending a column leaves the traceback through earlier columns alone. */
  lemma {:induction false} TracebackExtend(c: Codec, trellis: Trellis, column: seq<nat>, k: nat, state: nat)
    requires c.Valid() && c.ValidTrellis(trellis) && c.ValidColumn(column)
    requires k <= |trellis| && state < c.NumStates()
    ensures c.ValidTrellis(trellis + [column])
    ensures c.Traceback(trellis + [column], k, state) == c.Traceback(trellis, k, state)
  {
    assert c.ValidTrellis(trellis + [column]) by {
      forall i | 0 <= i < |trellis| + 1
        ensures c.ValidColumn((trellis + [column])[i])
      {
        if i < |trellis| { assert (trellis + [column])[i] == trellis[i]; }
      }
    }
    if k > 0 {
      assert (trellis + [column])[k - 1] == trellis[k - 1];
      assert c.ValidColumn(trellis[k - 1]);
      TracebackExtend(c, trellis, column, k - 1, trellis[k - 1][state]);
    }
  }

  /** The traceback through one more column: first the column's entry for
      `state`, then the earlier columns. */
  lemma TracebackSnoc(c: Codec, trellis: Trellis, column: seq<nat>, state: nat)
    requires c.Valid() && c.ValidTrellis(trellis) && c.ValidColumn(column) && state < c.NumStates()
    ensures c.ValidTrellis(trellis + [column])
    ensures c.Traceback(trellis + [column], |trellis| + 1, state)
         == c.Traceback(trellis, |trellis|, column[state]) + [c.Top(state)]
  {
    TracebackExtend(c, trellis, column, |trellis|, column[state]);
    assert (trellis + [column])[|trellis|] == column;
  }

  /** `Sound` at one reachable state. */
  lemma SoundAt(c: Codec, bits: seq<bool>, metrics: seq<Metric>, trellis: Trellis, p: nat)
    requires c.Valid() && |metrics| == c.NumStates() && c.ValidTrellis(trellis)
    requires Sound(c, bits, metrics, trellis) && p < c.NumStates() && metrics[p].Reached?
    ensures var u := c.Traceback(trellis, |trellis|, p);
      c.StateAfter(u) == p && PathCost(c, bits, u) == metrics[p].distance
  {
  }

  /** One state of `StepSound`: the state's new metric is the cost of the
      recorded path into it. */
  lemma StepSoundAt(c: Codec, bits: seq<bool>, metrics: seq<Metric>, trellis: Trellis, s: nat)
    requires c.Valid() && |metrics| == c.NumStates() && c.ValidTrellis(trellis) && s < c.NumStates()
    requires Sound(c, bits, metrics, trellis)
    ensures var step := c.Step(c.Group(bits, |trellis|), metrics);
      c.ValidTrellis(trellis + [step.1]) &&
      (step.0[s].Reached? ==>
        var u := c.Traceback(trellis + [step.1], |trellis| + 1, s);
        c.StateAfter(u) == s && PathCost(c, bits, u) == step.0[s].distance)
  {
    var group := c.Group(bits, |trellis|);
    var step := c.Step(group, metrics);
    var r := c.PathMetric(group, metrics, s);
    var p := r.1;
    c.StepAt(group, metrics, s);
    TracebackSnoc(c, trellis, step.1, s);
    if r.0.Reached? {
      var u := c.Traceback(trellis, |trellis|, p);
      assert c.NextState(p, c.Top(s)) == s && metrics[p].Reached?
        && r.0.distance == metrics[p].distance + Distance(group, c.Output(p, c.Top(s))) by {
        c.PathMetricChoice(group, metrics, s);
      }
      assert c.StateAfter(u) == p && PathCost(c, bits, u) == metrics[p].distance by {
        SoundAt(c, bits, metrics, trellis, p);
      }
      PathCostSnoc(c, bits, u, c.Top(s));
    }
  }

  lemma StepSound(c: Codec, bits: seq<bool>, metrics: seq<Metric>, trellis: Trellis)
    requires c.Valid() && |metrics| == c.NumStates() && c.ValidTrellis(trellis)
    requires Sound(c, bits, metrics, trellis)
    ensures var step := c.Step(c.Group(bits, |trellis|), metrics);
      c.ValidTrellis(trellis + [step.1]) && Sound(c, bits, step.0, trellis + [step.1])
  {
    var step := c.Step(c.Group(bits, |trellis|), metrics);
    TracebackExtend(c, trellis, step.1, 0, 0);
    forall s | 0 <= s < c.NumStates()
      ensures step.0[s].Reached? ==>
        var u := c.Traceback(trellis + [step.1], |trellis| + 1, s);
        c.StateAfter(u) == s && PathCost(c, bits, u) == step.0[s].distance
    {
      StepSoundAt(c, bits, metrics, trellis, s);
    }
  }

  /** The new metric of `s` is at most what any predecessor `p` of `s`
      offers: its own metric plus the branch distance. */
  lemma StepBelowCandidate(c: Codec, group: seq<bool>, metrics: seq<Metric>, p: nat, b: bool)
    requires c.Valid() && |group| == c.NumParityBits() && |metrics| == c.NumStates()
    requires p < c.NumStates() && metrics[p].Reached?
    ensures var s := c.NextState(p, b);
      var next := c.Step(group, metrics).0[s];
      next.Reached? && next.distance <= metrics[p].distance + Distance(group, c.Output(p, b))
  {
    var s := c.NextState(p, b);
    c.PredecessorsOf(p, b, s);
    c.StepAt(group, metrics, s);
    assert LessEq(c.Step(group, metrics).0[s], c.Candidate(group, metrics, p, s)) by {
      c.PathMetricChoice(group, metrics, s);
    }
  }

  /** One message of `StepComplete`: the message's last transition is one
      of the two candidates of the state it reaches. */
  lemma StepCompleteAt(c: Codec, bits: seq<bool>, metrics: seq<Metric>, trellis: Trellis, u': seq<bool>)
    requires c.Valid() && |metrics| == c.NumStates() && |u'| == |trellis| + 1
    requires var u := u'[..|trellis|];
      metrics[c.StateAfter(u)].Reached? && metrics[c.StateAfter(u)].distance <= PathCost(c, bits, u)
    ensures var step := c.Step(c.Group(bits, |trellis|), metrics);
      step.0[c.StateAfter(u')].Reached? && step.0[c.StateAfter(u')].distance <= PathCost(c, bits, u')
  {
    var u, b := u'[..|trellis|], u'[|trellis|];
    assert u' == u + [b];
    PathCostSnoc(c, bits, u, b);
    StepBelowCandidate(c, c.Group(bits, |trellis|), metrics, c.StateAfter(u), b);
  }

  lemma StepComplete(c: Codec, bits: seq<bool>, metrics: seq<Metric>, trellis: Trellis)
    requires c.Valid() && |metrics| == c.NumStates()
    requires Complete(c, bits, metrics, trellis)
    ensures var step := c.Step(c.Group(bits, |trellis|), metrics);
      Complete(c, bits, step.0, trellis + [step.1])
  {
    var step := c.Step(c.Group(bits, |trellis|), metrics);
    forall u': seq<bool> | |u'| == |trellis| + 1
      ensures step.0[c.StateAfter(u')].Reached? && step.0[c.StateAfter(u')].distance <= PathCost(c, bits, u')
    {
      var u := u'[..|trellis|];
      assert metrics[c.StateAfter(u)].Reached?;
      StepCompleteAt(c, bits, metrics, trellis, u');
    }
  }

  /** The forward pass over `t` groups is the pass over `t - 1` groups
      followed by one update with group `t - 1`. */
  lemma ForwardSnoc(c: Codec, bits: seq<bool>, t: nat)
    requires c.Valid() && t > 0
    ensures var previous := c.Forward(bits, t - 1);
      var step := c.Step(c.Group(bits, |previous.1|), previous.0);
      c.Forward(bits, t) == (step.0, previous.1 + [step.1])
  {
  }

  /** First half of the forward-pass invariant: after `t` groups every
      metric is realised by the recorded path into its state. */
  lemma {:induction false} ForwardSound(c: Codec, bits: seq<bool>, t: nat)
    requires c.Valid()
    ensures var forward := c.Forward(bits, t);
      Sound(c, bits, forward.0, forward.1)
  {
    if t > 0 {
      var previous := c.Forward(bits, t - 1);
      var step := c.Step(c.Group(bits, |previous.1|), previous.0);
      assert c.Forward(bits, t) == (step.0, previous.1 + [step.1]) by {
        ForwardSnoc(c, bits, t);
      }
      assert Sound(c, bits, step.0, previous.1 + [step.1]) by {
        ForwardSound(c, bits, t - 1);
        StepSound(c, bits, previous.0, previous.1);
      }
    }
  }

  /** Second half of the forward-pass invariant: after `t` groups no
      message of length `t` reaches a state more cheaply than that state's
      metric; in particular every such state is reachable. */
  lemma {:induction false} ForwardComplete(c: Codec, bits: seq<bool>, t: nat)
    requires c.Valid()
    ensures var forward := c.Forward(bits, t);
      Complete(c, bits, forward.0, forward.1)
  {
    if t == 0 {
      var forward := c.Forward(bits, 0);
      forall u: seq<bool> | |u| == 0
        ensures forward.0[c.StateAfter(u)] == Reached(0)
      {
        assert u == [];
      }
    } else {
      ForwardComplete(c, bits, t - 1);
      var previous := c.Forward(bits, t - 1);
      StepComplete(c, bits, previous.0, previous.1);
    }
  }

  /** The metric of the state message `u` reaches bounds the best metric. */
  lemma BestMetricBelow(c: Codec, bits: seq<bool>, u: seq<bool>)
    requires c.Valid()
    ensures var forward := c.Forward(bits, |u|);
      var best := forward.0[FirstMinIndex(forward.0)];
      best.Reached? && best.distance <= PathCost(c, bits, u)
  {
    var forward := c.Forward(bits, |u|);
    ForwardComplete(c, bits, |u|);
    var reached := c.StateAfter(u);
    assert forward.0[reached].Reached? && forward.0[reached].distance <= PathCost(c, bits, u);
    assert LessEq(forward.0[FirstMinIndex(forward.0)], forward.0[reached]);
  }

  /** Every column the forward pass records is consistent: its entries are
      states that lead to their index. */
  lemma {:induction false} ForwardConsistent(c: Codec, bits: seq<bool>, t: nat)
    requires c.Valid()
    ensures c.ConsistentTrellis(c.Forward(bits, t).1)
  {
    if t > 0 {
      ForwardConsistent(c, bits, t - 1);
      var previous := c.Forward(bits, t - 1);
      ForwardSnoc(c, bits, t);
      c.StepColumnConsistent(c.Group(bits, t - 1), previous.0);
    }
  }

  /** The decoded message is a cheapest message of its length: no message
      with as many bits as there are groups has a smaller path cost. */
  lemma DecodingIsOptimal(c: Codec, bits: seq<bool>, u: seq<bool>)
    requires c.Valid() && |u| == CeilDiv(|bits|, c.NumParityBits())
    ensures PathCost(c, bits, c.Decoding(bits)) <= PathCost(c, bits, u)
  {
    var forward := c.Forward(bits, |u|);
    var best := FirstMinIndex(forward.0);
    BestMetricBelow(c, bits, u);
    ForwardSound(c, bits, |u|);
    assert PathCost(c, bits, c.Traceback(forward.1, |forward.1|, best)) == forward.0[best].distance;
  }

  /** A free path stays free through a transition whose output is the next
      n received bits. */
  lemma FreeStep(c: Codec, bits: seq<bool>, u: seq<bool>, b: bool, t: nat)
    requires c.Valid() && |u| == t && PathCost(c, bits, u) == 0
    requires var n := c.NumParityBits();
      t * n + n <= |bits| && bits[t * n..t * n + n] == c.Output(c.StateAfter(u), b)
    ensures PathCost(c, bits, u + [b]) == 0
  {
    var g := c.RangeGroup(bits, t);
    PathCostSnoc(c, bits, u, b);
  }

  /** One more bit of the message itself keeps its path free against its
      own encoding. */
  lemma MessageStepFree(c: Codec, m: seq<bool>, t: nat)
    requires c.Valid() && t < |m| && PathCost(c, c.Encoding(m), m[..t]) == 0
    ensures PathCost(c, c.Encoding(m), m[..t + 1]) == 0
  {
    PrefixSnoc(m, t);
    EncodingBlock(c, m, t);
    FreeStep(c, c.Encoding(m), m[..t], m[t], t);
  }

  /** The prefix one element longer is the prefix and then that element. */
  lemma PrefixSnoc<T>(m: seq<T>, t: nat)
    requires t < |m|
    ensures m[..t + 1] == m[..t] + [m[t]]
  {
  }

  /** The path of the message itself costs nothing against its own encoding. */
  lemma {:induction false} MessageCostsNothing(c: Codec, m: seq<bool>, t: nat)
    requires c.Valid() && t <= |m|
    ensures PathCost(c, c.Encoding(m), m[..t]) == 0
  {
    if t > 0 {
      MessageCostsNothing(c, m, t - 1);
      MessageStepFree(c, m, t - 1);
    }
  }

  /** Two concatenations with equal-length heads agree part by part. */
  lemma SplitAppend<T>(x: seq<T>, y: seq<T>, x': seq<T>, y': seq<T>)
    requires |x| == |x'| && x + y == x' + y'
    ensures x == x' && y == y'
  {
    assert x == (x + y)[..|x|] && x' == (x' + y')[..|x|];
    assert y == (x + y)[|x|..] && y' == (x' + y')[|x|..];
  }

  /** Encoding one more bit appends that transition's output. */
  lemma EncodingSnoc(c: Codec, u: seq<bool>, b: bool)
    requires c.Valid()
    ensures c.Encoding(u + [b]) == c.Encoding(u) + c.Output(c.StateAfter(u), b)
  {
    assert (u + [b])[..|u|] == u;
  }

  /** A free path has a free prefix and its last group is exactly the
      output of its last transition. */
  lemma FreePathSnoc(c: Codec, bits: seq<bool>, u: seq<bool>, b: bool)
    requires c.Valid() && PathCost(c, bits, u + [b]) == 0
    ensures PathCost(c, bits, u) == 0
    ensures c.Group(bits, |u|) == c.Output(c.StateAfter(u), b)
  {
    PathCostSnoc(c, bits, u, b);
  }

  /** A message whose path costs nothing re-encodes to the received bits. */
  lemma {:induction false} FreePathReencodes(c: Codec, bits: seq<bool>, u: seq<bool>)
    requires c.Valid() && c.NumParityBits() * |u| <= |bits|
    requires PathCost(c, bits, u) == 0
    ensures c.Encoding(u) == bits[..c.NumParityBits() * |u|]
  {
    if u != [] {
      var p, b := u[..|u| - 1], u[|u| - 1];
      assert u == p + [b];
      FreePathSnoc(c, bits, p, b);
      EncodingSnoc(c, p, b);
      FreePathReencodes(c, bits, p);
      SliceJoin(c, bits, |p|);
    }
  }

  /** The first t+1 groups of the input are the first t followed by group t. */
  lemma SliceJoin(c: Codec, bits: seq<bool>, t: nat)
    requires c.NumParityBits() * (t + 1) <= |bits|
    ensures bits[..c.NumParityBits() * (t + 1)]
         == bits[..c.NumParityBits() * t] + c.Group(bits, t)
  {
    var n := c.NumParityBits();
    MulSucc(n, t);
    assert n * t == t * n;
    assert c.Group(bits, t) == c.RangeGroup(bits, t);
    assert bits[..t * n + n] == bits[..t * n] + bits[t * n..t * n + n];
  }

  /** Decoding an error-free encoding gives one bit per message bit, and
      the decoded message encodes to exactly the received bits. */
  lemma RoundTripReencodes(c: Codec, m: seq<bool>)
    requires c.Valid()
    ensures |c.Decoding(c.Encoding(m))| == |m|
    ensures c.Encoding(c.Decoding(c.Encoding(m))) == c.Encoding(m)
  {
    var n := c.NumParityBits();
    var bits := c.Encoding(m);
    CeilDivExact(|m|, n);
    MessageCostsNothing(c, m, |m|);
    assert m[..|m|] == m;
    DecodingIsOptimal(c, bits, m);
    FreePathReencodes(c, bits, c.Decoding(bits));
    assert bits[..n * |m|] == bits;
  }

  /** When some message costs nothing against the received bits, the
      traceback starts from a state of metric 0. */
  lemma FreePathGivesZeroMetric(c: Codec, bits: seq<bool>, u: seq<bool>)
    requires c.Valid() && PathCost(c, bits, u) == 0
    ensures var forward := c.Forward(bits, |u|);
      forward.0[FirstMinIndex(forward.0)] == Reached(0)
  {
    BestMetricBelow(c, bits, u);
  }

  /** On an error-free encoding the traceback of `Decoding` starts from a
      state of metric 0: the forward pass runs one group per message bit. */
  lemma ErrorFreeMetricIsZero(c: Codec, m: seq<bool>)
    requires c.Valid()
    ensures var bits := c.Encoding(m);
      var forward := c.Forward(bits, CeilDiv(|bits|, c.NumParityBits()));
      forward.0[FirstMinIndex(forward.0)] == Reached(0)
  {
    CeilDivExact(|m|, c.NumParityBits());
    MessageCostsNothing(c, m, |m|);
    assert m[..|m|] == m;
    FreePathGivesZeroMetric(c, c.Encoding(m), m);
  }

  /** Bits of a table index below `width` are all `TapParity` reads. */
  lemma {:induction false} TapParityLow(x: nat, y: nat, taps: nat, width: nat)
    requires x % Pow2(width) == y % Pow2(width)
    ensures TapParity(x, taps, width) == TapParity(y, taps, width)
  {
    if width > 0 {
      LowBitsOfMod(x, width - 1);
      LowBitsOfMod(y, width - 1);
      TapParityLow(x, y, taps, width - 1);
    }
  }

  /** A polynomial with its lowest bit set taps the current input: its
      parity bit differs between the two inputs from any state. */
  lemma OutputDistinguishes(c: Codec, s: nat, j: nat)
    requires c.Valid() && s < c.NumStates() && j < c.NumParityBits()
    requires c.polynomials[j] % 2 == 1
    ensures c.Output(s, true)[j] != c.Output(s, false)[j]
  {
    var k := c.constraint;
    var taps := BitReversal(k, c.polynomials[j]);
    LsbBecomesTop(k, c.polynomials[j]);
    assert Bit(taps, k - 1);
    var one, zero := c.Index(s, true), c.Index(s, false);
    assert Pow2(k - 1) == c.NumStates();
    TapParityLow(one, zero, taps, k - 1);
    assert TapParity(one, taps, k) != TapParity(zero, taps, k);
  }

  /** Equal encodings of two non-empty messages of one length agree on
      their shorter prefixes and on their last outputs. */
  lemma EncodingLastSplit(c: Codec, a: seq<bool>, b: seq<bool>)
    requires c.Valid() && |a| == |b| > 0 && c.Encoding(a) == c.Encoding(b)
    ensures c.Encoding(a[..|a| - 1]) == c.Encoding(b[..|b| - 1])
    ensures c.Output(c.StateAfter(a[..|a| - 1]), a[|a| - 1]) == c.Output(c.StateAfter(b[..|b| - 1]), b[|b| - 1])
  {
    var a', b' := a[..|a| - 1], b[..|b| - 1];
    SplitAppend(c.Encoding(a'), c.Output(c.StateAfter(a'), a[|a| - 1]), c.Encoding(b'), c.Output(c.StateAfter(b'), b[|b| - 1]));
  }

  /** Two non-empty sequences with equal prefixes and equal last elements are equal. */
  lemma SnocEqual<T>(a: seq<T>, b: seq<T>)
    requires |a| == |b| > 0 && a[..|a| - 1] == b[..|b| - 1] && a[|a| - 1] == b[|b| - 1]
    ensures a == b
  {
    assert a == a[..|a| - 1] + [a[|a| - 1]];
    assert b == b[..|b| - 1] + [b[|b| - 1]];
  }

  /** With a polynomial that taps the current input, the output of a state
      determines the input. */
  lemma OutputDeterminesInput(c: Codec, s: nat, x: bool, y: bool, j: nat)
    requires c.Valid() && s < c.NumStates() && j < c.NumParityBits() && c.polynomials[j] % 2 == 1
    requires c.Output(s, x) == c.Output(s, y)
    ensures x == y
  {
    OutputDistinguishes(c, s, j);
  }

  /** With a polynomial that taps the current input, messages of one length
      have distinct encodings. */
  lemma {:induction false} EncodingInjective(c: Codec, a: seq<bool>, b: seq<bool>, j: nat)
    requires c.Valid() && j < c.NumParityBits() && c.polynomials[j] % 2 == 1
    requires |a| == |b| && c.Encoding(a) == c.Encoding(b)
    ensures a == b
  {
    if a != [] {
      var a', b' := a[..|a| - 1], b[..|b| - 1];
      EncodingLastSplit(c, a, b);
      EncodingInjective(c, a', b', j);
      OutputDeterminesInput(c, c.StateAfter(a'), a[|a| - 1], b[|b| - 1], j);
      SnocEqual(a, b);
    }
  }

  /** Exact recovery: when some polynomial taps the current input, as in
      every code of the test suite, decoding an error-free encoding gives
      back the message. */
  lemma ExactRoundTrip(c: Codec, m: seq<bool>, j: nat)
    requires c.Valid() && j < c.NumParityBits() && c.polynomials[j] % 2 == 1
    ensures c.Decoding(c.Encoding(m)) == m
  {
    RoundTripReencodes(c, m);
    EncodingInjective(c, c.Decoding(c.Encoding(m)), m, j);
  }

  /** Boundary case: nothing to decode gives nothing back. */
  lemma DecodeEmpty(c: Codec)
    requires c.Valid()
    ensures c.Decoding([]) == []
  {
    var n := c.NumParityBits();
    assert CeilDiv(0, n) == 0 by {
      DivModUnique(n - 1, n, 0, n - 1);
    }
    assert |c.Decoding([])| == 0;
  }

  /** K = 3 with the single polynomial 6: its lowest bit is clear, so the
      current input is never tapped. */
  function BlindCodec(): Codec
  {
    Codec(3, [6], OutputTable(3, [6]))
  }

  /** With the current input untapped, the first output from state 0 is 0
      whichever bit arrives. */
  lemma BlindOutputs()
    ensures BlindCodec().Valid()
    ensures BlindCodec().Output(0, true) == [false] && BlindCodec().Output(0, false) == [false]
  {
    var c := BlindCodec();
    assert Pow2(3) == 8;
    assert BitReversal(3, 6) == 3;
    assert c.Index(0, true) == 4;
    assert !TapParity(4, 3, 3) && !TapParity(0, 3, 3);
  }

  /** The message [1] encodes to [0]. */
  lemma BlindEncoding()
    ensures BlindCodec().Valid() && BlindCodec().Encoding([true]) == [false]
  {
    BlindOutputs();
    assert [true][..0] == [];
  }

  /** The forward pass over one group is one step from the initial metrics. */
  lemma ForwardOne(c: Codec, bits: seq<bool>)
    requires c.Valid()
    ensures var step := c.Step(c.Group(bits, 0), c.InitialMetrics());
      c.Forward(bits, 1) == (step.0, [step.1])
  {
    assert c.Forward(bits, 0) == (c.InitialMetrics(), []);
    var step := c.Step(c.Group(bits, 0), c.InitialMetrics());
    assert [] + [step.1] == [step.1];
  }

  /** A single received group equal to what state 0 emits for a 0 input
      decodes to [0]: state 0 is then reached at metric 0, which no metric
      beats, so it is the first state of minimum metric, and the one column
      recorded into it gives its top bit, 0. */
  lemma ZeroGroupDecoding(c: Codec, bits: seq<bool>)
    requires c.Valid() && bits == c.Output(0, false)
    ensures c.Decoding(bits) == [false]
  {
    var n := c.NumParityBits();
    assert CeilDiv(|bits|, n) == 1 by {
      DivModUnique(n + n - 1, n, 1, n - 1);
    }
    var group, initial := c.Group(bits, 0), c.InitialMetrics();
    assert group == bits;
    var step := c.Step(group, initial);
    var forward := c.Forward(bits, 1);
    assert forward.0 == step.0 && forward.1 == [step.1] by {
      ForwardOne(c, bits);
    }
    assert c.Top(0) == false;
    assert step.0[0] == Reached(0) by {
      c.StepAt(group, initial, 0);
      assert c.Candidate(group, initial, c.LowSource(0), 0) == Reached(0);
    }
    assert FirstMinIndex(forward.0) == 0;
    assert c.Decoding(bits) == c.Traceback(forward.1, 1, 0);
  }

  /** The received [0] decodes to [0]. */
  lemma BlindDecoding()
    ensures BlindCodec().Valid() && BlindCodec().Decoding([false]) == [false]
  {
    BlindOutputs();
    ZeroGroupDecoding(BlindCodec(), [false]);
  }

  /** Exact recovery is not a property of every valid configuration: under
      `BlindCodec` the message [1] comes back as [0]. */
  lemma ExactRoundTripCanFail()
    ensures var c := BlindCodec();
      c.Valid() && c.Decoding(c.Encoding([true])) == [false]
  {
    BlindEncoding();
    BlindDecoding();
  }
}
