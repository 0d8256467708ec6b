/** Integer semantics of the ESP32 target: 32-bit `int` and `unsigned long`,
    C's truncating division, and sums of integer sequences. */
module Arith {

  /** `unsigned long` is 32 bits wide on the target: values live in [0, ULONG_MOD). */
  const ULONG_MOD: int := 0x1_0000_0000
  const INT_MAX: int := 0x7FFF_FFFF
  const INT_MIN: int := -0x8000_0000

  predicate IsULong(x: int) { 0 <= x < ULONG_MOD }
  predicate IsInt32(x: int) { INT_MIN <= x <= INT_MAX }

  function Abs(x: int): int { if x < 0 then -x else x }

  /** The quotient of a non-negative dividend by a positive divisor,
      characterised by the remainder it leaves. */
  function Quotient(x: int, y: int): (q: int)
    requires 0 <= x && 0 < y
    ensures 0 <= q && q * y <= x < (q + 1) * y
  {
    x / y
  }

  /** `a - b` on `unsigned long`: the time that elapses from `b` to `a`
      on a 32-bit millisecond clock that wraps around. */
  function ULongSub(a: int, b: int): (r: int)
    requires IsULong(a) && IsULong(b)
    ensures IsULong(r)
    ensures (b + r) % ULONG_MOD == a
  {
    if a >= b then a - b else a - b + ULONG_MOD
  }

  /** The implicit conversion of an `unsigned long` to `int`, which the
      target's compiler performs modulo 2^32. */
  function ToInt32(x: int): (r: int)
    requires IsULong(x)
    ensures IsInt32(r)
    ensures (r - x) % ULONG_MOD == 0
    ensures (r == 0) == (x == 0)
    ensures (r > 0) == (0 < x <= INT_MAX)
  {
    if x <= INT_MAX then x else x - ULONG_MOD
  }

  /** C's `/` on `int`: the exact quotient truncated toward zero. */
  function CDiv(a: int, b: int): (r: int)
    requires b != 0
    ensures Abs(r) == Quotient(Abs(a), Abs(b))
    ensures r != 0 ==> ((r > 0) <==> ((a > 0) == (b > 0)))
  {
    var q := Quotient(Abs(a), Abs(b));
    if a == 0 then 0
    else if (a > 0) == (b > 0) then q
    else -q
  }

  /** On a non-negative dividend and a positive divisor C's division agrees
      with the mathematical quotient, and it is bounded as the quotient is. */
  lemma TruncatedQuotient(a: int, b: int, lo: int, hi: int)
    requires 0 <= a && 0 < b
    requires 0 <= lo && lo * b <= a <= hi * b
    ensures CDiv(a, b) == Quotient(a, b)
    ensures lo <= CDiv(a, b) <= hi
  {
    var q := Quotient(a, b);
    if q < lo {
      MulMonotone(q + 1, lo, b);
    }
    if q > hi {
      MulMonotone(hi + 1, q, b);
    }
  }

  lemma MulMonotone(x: int, y: int, k: int)
    requires x <= y && 0 <= k
    ensures x * k <= y * k
  {
    assert y * k - x * k == (y - x) * k;
  }

  /** Sum of a sequence, accumulated front to back as a counting loop does. */
  function Sum(s: seq<int>): int
  {
    if s == [] then 0 else Sum(s[..|s| - 1]) + s[|s| - 1]
  }

  lemma {:induction false} SumConcat(a: seq<int>, b: seq<int>)
    ensures Sum(a + b) == Sum(a) + Sum(b)
  {
    if b == [] {
      assert a + b == a;
    } else {
      assert (a + b)[..|a + b| - 1] == a + b[..|b| - 1];
      SumConcat(a, b[..|b| - 1]);
    }
  }

  /** A sum of `n` terms, each in [lo, hi], lies in [lo * n, hi * n]. */
  lemma {:induction false} SumBounds(s: seq<int>, lo: int, hi: int)
    requires forall i :: 0 <= i < |s| ==> lo <= s[i] <= hi
    ensures lo * |s| <= Sum(s) <= hi * |s|
  {
    if s != [] {
      SumBounds(s[..|s| - 1], lo, hi);
      assert lo * |s| == lo * (|s| - 1) + lo;
      assert hi * |s| == hi * (|s| - 1) + hi;
    }
  }
}
