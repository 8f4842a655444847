/** Facts about Euclidean division used by the block and page arithmetic.
    All operands here are non-negative, so Dafny's `/` and `%` agree with
    the kernel's unsigned `/` and `%`. */
module Arith {

  /** Quotient and remainder are determined by `x == q * b + r`. */
  lemma DivModUnique(x: int, b: int, q: int, r: int)
    requires b > 0 && 0 <= r < b && x == q * b + r
    ensures x / b == q && x % b == r
  {
    var q', r' := x / b, x % b;
    assert x == q' * b + r';
    assert (q - q') * b == r' - r;
    if q > q' {
      MulAtLeast(q - q', b);
    } else if q < q' {
      MulAtLeast(q' - q, b);
    }
  }

  lemma MulAtLeast(k: int, b: int)
    requires k >= 1 && b > 0
    ensures k * b >= b
  {
  }

  /** Offset `k` inside block `q` of size `b` lies in block `q`, at `k`. */
  lemma BlockOffset(q: nat, k: nat, b: nat)
    requires 0 <= k < b
    ensures (q * b + k) / b == q && (q * b + k) % b == k
  {
    DivModUnique(q * b + k, b, q, k);
  }

  /** `x` is `b * (x / b) + x % b`, and rounding down stays below `x`. */
  lemma RoundDown(x: nat, b: nat)
    requires b > 0
    ensures x == (x / b) * b + x % b
    ensures (x / b) * b <= x < (x / b) * b + b
  {
  }

  /** An offset below `m` blocks lies in one of the first `m` blocks. */
  lemma DivBelow(x: nat, m: nat, b: nat)
    requires b > 0 && x < m * b
    ensures x / b < m
  {
    RoundDown(x, b);
    MulMono(m, x / b, b);
  }

  /** Multiplying by a positive number keeps order. */
  lemma MulMono(a: int, c: int, b: int)
    requires b > 0
    ensures a <= c ==> a * b <= c * b
  {
    if a <= c {
      assert c * b - a * b == (c - a) * b;
    }
  }

  /** Of two multiples of `d`, the smaller is at least `d` below the other. */
  lemma MultipleGap(x: nat, y: nat, d: nat)
    requires d > 0 && x % d == 0 && y % d == 0 && x < y
    ensures x + d <= y
  {
    RoundDown(x, d);
    RoundDown(y, d);
    MulMono(y / d, x / d, d);
    MulMono(x / d + 1, y / d, d);
    assert (x / d + 1) * d == (x / d) * d + d;
  }

  /** The block after block `q` starts `b` later, and, when `i` is below a
      multiple `m` of `b`, at or before `m`. */
  lemma NextMultiple(q: nat, b: nat, i: nat, m: nat)
    requires b > 0 && i == q * b
    ensures (q + 1) * b == i + b
    ensures i < m && m % b == 0 ==> i + b <= m
  {
    if i < m && m % b == 0 {
      BlockOffset(q, 0, b);
      MultipleGap(i, m, b);
    }
  }

  /** Multiples of `d` are closed under adding `d` and under multiples of `d`. */
  lemma MultipleAdd(x: nat, y: nat, d: nat)
    requires d > 0 && x % d == 0 && y % d == 0
    ensures (x + y) % d == 0
  {
    RoundDown(x, d);
    RoundDown(y, d);
    DivModUnique(x + y, d, x / d + y / d, 0);
  }

  /** The difference of two multiples of `d` is a multiple of `d`. */
  lemma MultipleSub(x: nat, y: nat, d: nat)
    requires d > 0 && x % d == 0 && y % d == 0 && x <= y
    ensures (y - x) % d == 0
  {
    RoundDown(x, d);
    RoundDown(y, d);
    DivModUnique(y - x, d, y / d - x / d, 0);
  }

  /** The only multiple of `d` below `d` is 0. */
  lemma MultipleBelow(x: nat, d: nat)
    requires d > 0 && x % d == 0 && x < d
    ensures x == 0
  {
    DivModUnique(x, d, 0, x);
  }

  /** One step down from a multiple of `d` is a multiple of `d`. */
  lemma MultipleStepDown(x: nat, d: nat)
    requires d > 0 && x % d == 0 && d <= x
    ensures (x - d) % d == 0
  {
    RoundDown(x, d);
    DivModUnique(x - d, d, x / d - 1, 0);
  }

  /** `x` is a whole number of steps of `d`, counted step by step; this
      keeps proofs that walk over entries free of `%`. */
  predicate Steps(x: nat, d: nat)
    decreases x
  {
    x == 0 || (d > 0 && x >= d && Steps(x - d, d))
  }

  /** A multiple of `d` is a whole number of steps of `d`. */
  lemma {:induction false} StepsOfMultiple(x: nat, d: nat)
    requires d > 0 && x % d == 0
    ensures Steps(x, d)
    decreases x
  {
    if x > 0 {
      if x < d {
        MultipleBelow(x, d);
      }
      MultipleStepDown(x, d);
      StepsOfMultiple(x - d, d);
    }
  }

  /** Division by a positive number is monotone. */
  lemma DivMono(a: nat, b: nat, d: nat)
    requires d > 0 && a <= b
    ensures a / d <= b / d
  {
    RoundDown(a, d);
    RoundDown(b, d);
    MulMono(b / d + 1, a / d, d);
    assert (b / d + 1) * d == (b / d) * d + d;
  }
}
