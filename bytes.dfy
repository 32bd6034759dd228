/** Bytes as Go's `byte` (an unsigned 8-bit integer), and byte strings read
    as big-endian unsigned numbers. */
module Bytes {

  newtype byte = x: int | 0 <= x < 256

  /** `n` zero bytes. */
  function Zeros(n: nat): (r: seq<byte>)
    ensures |r| == n
    ensures forall i :: 0 <= i < n ==> r[i] == 0
  {
    seq(n, _ => 0)
  }

  predicate AllZero(s: seq<byte>)
  {
    forall i :: 0 <= i < |s| ==> s[i] == 0
  }

  /** `s` with its leading zero bytes removed: the suffix of `s` that starts
      at its first nonzero byte, or the empty sequence if there is none. */
  function StripLeadingZeros(s: seq<byte>): (r: seq<byte>)
    ensures |r| <= |s| && r == s[|s| - |r|..]
    ensures AllZero(s[..|s| - |r|])
    ensures r != [] ==> r[0] != 0
  {
    if s != [] && s[0] == 0 then StripLeadingZeros(s[1..]) else s
  }

  /** The three properties of StripLeadingZeros determine its result. */
  lemma {:induction false} StripLeadingZerosUnique(s: seq<byte>, k: nat)
    requires k <= |s|
    requires AllZero(s[..k])
    requires k == |s| || s[k] != 0
    ensures StripLeadingZeros(s) == s[k..]
  {
    if k > 0 {
      assert s[0] == s[..k][0];
      assert s[1..][..k - 1] == s[..k][1..];
      StripLeadingZerosUnique(s[1..], k - 1);
      assert s[1..][k - 1..] == s[k..];
    }
  }

  /** A sequence whose first `k` bytes are zero is `k` zeros followed by the
      rest. */
  lemma {:induction false} ZeroPrefixSplit(s: seq<byte>, k: nat)
    requires k <= |s| && AllZero(s[..k])
    ensures s == Zeros(k) + s[k..]
  {
    assert s[..k] == Zeros(k);
    assert s == s[..k] + s[k..];
  }

  function Pow256(n: nat): (p: nat)
    ensures p >= 1
  {
    if n == 0 then 1 else 256 * Pow256(n - 1)
  }

  lemma {:induction false} Pow256Monotone(m: nat, n: nat)
    requires m <= n
    ensures Pow256(m) <= Pow256(n)
  {
    if m < n {
      Pow256Monotone(m, n - 1);
    }
  }

  /** The unsigned number whose big-endian base-256 digits are `s`. */
  function Value(s: seq<byte>): nat
  {
    if s == [] then 0 else Value(s[..|s| - 1]) * 256 + s[|s| - 1] as int
  }

  /** A number written with `|s|` bytes is below 256^|s|. */
  lemma {:induction false} ValueBound(s: seq<byte>)
    ensures Value(s) < Pow256(|s|)
  {
    if s != [] {
      ValueBound(s[..|s| - 1]);
    }
  }

  /** Writing `y` after `x` shifts `x` up by `|y|` bytes. */
  lemma {:induction false} ValueConcat(x: seq<byte>, y: seq<byte>)
    ensures Value(x + y) == Value(x) * Pow256(|y|) + Value(y)
  {
    if y == [] {
      assert x + y == x;
    } else {
      var y' := y[..|y| - 1];
      assert (x + y)[..|x + y| - 1] == x + y';
      ValueConcat(x, y');
      ShiftOneDigit(Value(x), Pow256(|y'|), Value(y'), 256, y[|y| - 1] as int);
    }
  }

  /** Leading zero bytes do not change the value. */
  lemma {:induction false} ValueOfZerosPrefix(n: nat, s: seq<byte>)
    ensures Value(Zeros(n) + s) == Value(s)
  {
    ValueConcat(Zeros(n), s);
    ZerosValue(n);
  }

  lemma {:induction false} ZerosValue(n: nat)
    ensures Value(Zeros(n)) == 0
  {
    if n > 0 {
      assert Zeros(n)[..n - 1] == Zeros(n - 1);
      ZerosValue(n - 1);
    }
  }

  /** The algebra behind appending one more digit in base `base`. */
  lemma ShiftOneDigit(x: int, p: int, y: int, base: int, d: int)
    ensures (x * p + y) * base + d == x * (base * p) + (y * base + d)
  {
  }

  /** Euclidean division by `p` recovers the low part of `q * p + r`. */
  lemma {:induction false} ModOfShifted(q: nat, p: nat, r: nat)
    requires r < p
    ensures (q * p + r) % p == r
  {
    var n := q * p + r;
    var d, m := n / p, n % p;
    assert n == d * p + m;
    if d < q {
      assert (d + 1) * p == d * p + p;
      MulMonotone(d + 1, q, p);
    } else if d > q {
      assert (q + 1) * p == q * p + p;
      MulMonotone(q + 1, d, p);
    }
  }

  lemma {:induction false} MulMonotone(a: nat, b: nat, p: nat)
    requires a <= b
    ensures a * p <= b * p
  {
    if a < b {
      MulMonotone(a, b - 1, p);
      assert b * p == (b - 1) * p + p;
    }
  }
}
