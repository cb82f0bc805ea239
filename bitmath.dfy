/** Arithmetic on non-negative integers used as bit strings.
    A right shift `x >> k` is `x / Pow2(k)`, a low mask `x & (2^k - 1)` is
    `x % Pow2(k)`, and bit `k` of `x` is `Bit(x, k)`. */
module BitMath {

  /** 2^k, the value of `1 << k`. */
  function Pow2(k: nat): (r: nat)
    ensures r >= 1
  {
    if k == 0 then 1 else 2 * Pow2(k - 1)
  }

  /** Bit `k` of `x`: `(x >> k) & 1`. */
  function Bit(x: nat, k: nat): bool
  {
    (x / Pow2(k)) % 2 == 1
  }

  /** Integer division is determined by any quotient/remainder pair. */
  lemma DivModUnique(x: int, p: int, q: int, r: int)
    requires p > 0 && 0 <= r < p && x == q * p + r
    ensures x / p == q && x % p == r
  {
    var q', r' := x / p, x % p;
    assert x == q' * p + r';
    if q' > q {
      MulAtLeast(q' - q, p);
    } else if q' < q {
      MulAtLeast(q - q', p);
    }
  }

  lemma MulAtLeast(a: int, p: int)
    requires a >= 1 && p > 0
    ensures a * p >= p
  {
    assert a * p == (a - 1) * p + p;
    assert (a - 1) * p >= 0;
  }

  /** Multiplication by a positive factor is monotone. */
  lemma MulMono(a: int, b: int, p: int)
    requires a <= b && p >= 0
    ensures a * p <= b * p
  {
    assert b * p - a * p == (b - a) * p;
  }

  /** Splitting off the lowest bit of `x` relative to 2^(k+1): the
      remainder keeps the lowest bit, and the rest shifts down by one. */
  lemma SplitLowBit(x: nat, k: nat)
    ensures (x % Pow2(k + 1)) % 2 == x % 2
    ensures (x % Pow2(k + 1)) / 2 == (x / 2) % Pow2(k)
    ensures (x / 2) / Pow2(k) == x / Pow2(k + 1)
  {
    var p := Pow2(k);
    var q, r := x / Pow2(k + 1), x % Pow2(k + 1);
    assert Pow2(k + 1) == 2 * p;
    assert x == q * (2 * p) + r;
    assert x == 2 * (q * p) + r;
    DivModUnique(x, 2, q * p + r / 2, r % 2);
    DivModUnique(x / 2, p, q, r / 2);
  }

  /** The low `k + 1` bits of `x` fix its low `k` bits and its bit `k`. */
  lemma LowBitsOfMod(x: nat, k: nat)
    ensures (x % Pow2(k + 1)) % Pow2(k) == x % Pow2(k)
    ensures Bit(x, k) == ((x % Pow2(k + 1)) / Pow2(k) == 1)
  {
    var p, wide := Pow2(k), Pow2(k + 1);
    assert wide == 2 * p;
    var q, r := x / wide, x % wide;
    var top, low := r / p, r % p;
    assert top < 2 by {
      if top >= 2 { MulMono(2, top, p); }
    }
    assert x == q * wide + r;
    assert q * wide == (2 * q) * p;
    assert (2 * q + top) * p == (2 * q) * p + top * p;
    DivModUnique(x, p, 2 * q + top, low);
    DivModUnique(x / p, 2, q, top);
  }

  /** `x >> k >> 1 == x >> (k + 1)`. */
  lemma ShiftHalf(x: nat, k: nat)
    ensures (x / Pow2(k)) / 2 == x / Pow2(k + 1)
  {
    var p := Pow2(k);
    var q, r := x / p, x % p;
    var q2, r2 := q / 2, q % 2;
    assert x == q * p + r;
    assert q == 2 * q2 + r2;
    assert x == q2 * (2 * p) + (r2 * p + r) by {
      assert q * p == (2 * q2 + r2) * p == q2 * (2 * p) + r2 * p;
    }
    assert r2 * p + r < 2 * p by {
      assert r2 * p <= p by { if r2 == 1 { } else { assert r2 == 0; } }
    }
    DivModUnique(x, 2 * p, q2, r2 * p + r);
  }

  /** Number of groups of `n` items needed to hold `len` items, ceil(len / n). */
  function CeilDiv(len: nat, n: nat): nat
    requires n > 0
  {
    (len + n - 1) / n
  }

  /** Group `t` starts inside the input exactly when `t` is below the group count. */
  lemma CeilDivBound(len: nat, n: nat, t: nat)
    requires n > 0
    ensures t * n < len <==> t < CeilDiv(len, n)
  {
    var c := CeilDiv(len, n);
    var r := (len + n - 1) % n;
    assert len + n - 1 == c * n + r;
    if t < c {
      MulMono(t, c - 1, n);
      assert (c - 1) * n == c * n - n;
    } else {
      MulMono(c, t, n);
    }
  }

  /** An exact multiple needs exactly its quotient many groups. */
  lemma CeilDivExact(m: nat, n: nat)
    requires n > 0
    ensures CeilDiv(n * m, n) == m
  {
    DivModUnique(n * m + n - 1, n, m, n - 1);
  }

  /** One more block of width n. */
  lemma MulSucc(n: nat, t: nat)
    ensures n * (t + 1) == (t + 1) * n == t * n + n
  {
  }

  /** Below 2h, a number is determined by its top bit (`x / h != 0`) and
      its remainder modulo h. */
  lemma TopAndLow(x: nat, y: nat, h: nat)
    requires h > 0 && x < 2 * h && y < 2 * h
    ensures x == y <==> (x / h != 0) == (y / h != 0) && x % h == y % h
  {
    if (x / h != 0) == (y / h != 0) && x % h == y % h {
      DivModUnique(x, h, if x < h then 0 else 1, if x < h then x else x - h);
      DivModUnique(y, h, if y < h then 0 else 1, if y < h then y else y - h);
    }
  }

  /** The two numbers whose half is m. */
  lemma HalfOf(x: nat, m: nat)
    ensures x / 2 == m <==> x == 2 * m || x == 2 * m + 1
  {
    if x == 2 * m || x == 2 * m + 1 {
      DivModUnique(x, 2, m, x - 2 * m);
    }
  }
}
