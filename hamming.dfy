/** Hamming distance between two received/expected bit groups
    (the anonymous-namespace helper of lib/viterbi.cpp). */
module Hamming {

  /** Number of positions at which `x` and `y` differ. */
  function Distance(x: seq<bool>, y: seq<bool>): (d: nat)
    requires |x| == |y|
    ensures d <= |x|
    ensures d == 0 <==> x == y
    decreases |x|
  {
    if |x| == 0 then 0
    else
      var k := |x| - 1;
      var rest := Distance(x[..k], y[..k]);
      assert x == x[..k] + [x[k]] && y == y[..k] + [y[k]];
      rest + (if x[k] != y[k] then 1 else 0)
  }

  /** The distance between concatenations of equal-length parts is the
      sum of the parts' distances. */
  lemma {:induction false} DistanceAppend(x: seq<bool>, y: seq<bool>, x': seq<bool>, y': seq<bool>)
    requires |x| == |y| && |x'| == |y'|
    ensures Distance(x + x', y + y') == Distance(x, y) + Distance(x', y')
    decreases |x'|
  {
    if x' == [] {
      assert x + x' == x && y + y' == y;
    } else {
      var k := |x'| - 1;
      assert (x + x')[..|x| + k] == x + x'[..k];
      assert (y + y')[..|y| + k] == y + y'[..k];
      DistanceAppend(x, y, x'[..k], y'[..k]);
    }
  }

  /** The accumulator loop of the source, counting mismatches from the front. */
  method HammingDistance(x: seq<bool>, y: seq<bool>) returns (distance: nat)
    requires |x| == |y|
    ensures distance == Distance(x, y)
    ensures distance <= |x| && (distance == 0 <==> x == y)
  {
    distance := 0;
    var i := 0;
    while i < |x|
      invariant 0 <= i <= |x|
      invariant distance == Distance(x[..i], y[..i])
    {
      assert x[..i + 1][..i] == x[..i] && y[..i + 1][..i] == y[..i];
      distance := distance + (if x[i] != y[i] then 1 else 0);
      i := i + 1;
    }
    assert x[..i] == x && y[..i] == y;
  }
}
