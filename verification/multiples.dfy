/** Integer widths of the target and the "multiple of" arithmetic every
    alignment statement in the crate rests on. Block sizes are multiples of
    4 KiB but not necessarily powers of two, so everything here is phrased
    with `%` and never with bit masks. */
module Multiples {
  import opened Wrappers

  /** Largest value of a Rust `u32` (the crate's raw flash `Location`). */
  const U32_MAX: nat := 0xFFFF_FFFF

  /** Largest value of a Rust `usize`; the crate is built for 64-bit hosts. */
  const USIZE_MAX: nat := 0xFFFF_FFFF_FFFF_FFFF

  predicate IsMultiple(n: nat, b: nat)
    requires b > 0
  {
    n % b == 0
  }

  /** `m` is the smallest multiple of `b` that is at least `n`. */
  ghost predicate LeastMultipleAtLeast(m: nat, n: nat, b: nat)
    requires b > 0
  {
    && IsMultiple(m, b)
    && n <= m
    && forall k: nat :: n <= k < m ==> !IsMultiple(k, b)
  }

  /** `m` is the largest multiple of `b` that is at most `n`. */
  ghost predicate GreatestMultipleAtMost(m: nat, n: nat, b: nat)
    requires b > 0
  {
    && IsMultiple(m, b)
    && m <= n
    && forall k: nat :: m < k <= n ==> !IsMultiple(k, b)
  }

  lemma MulAtLeast(b: int, d: int)
    requires b > 0 && d >= 1
    ensures b * d >= b
  {
  }

  lemma MulNonNegative(b: int, d: int)
    requires b > 0 && d >= 0
    ensures b * d >= 0
  {
  }

  /** Euclidean division is determined by quotient and remainder. */
  lemma DivModUnique(x: nat, b: nat, q: int, r: int)
    requires b > 0 && x == b * q + r && 0 <= r < b
    ensures x / b == q && x % b == r
  {
    var d := x / b - q;
    assert b * d == r - x % b by {
      assert x == b * (x / b) + x % b;
      assert b * (x / b) - b * q == b * d;
    }
    if d >= 1 {
      MulAtLeast(b, d);
    } else if d <= -1 {
      MulAtLeast(b, -d);
    }
  }

  lemma MultipleOfProduct(b: nat, q: nat)
    requires b > 0
    ensures IsMultiple(b * q, b)
  {
    DivModUnique(b * q, b, q, 0);
  }

  /** A multiple of `b` is `b` times its quotient. */
  lemma MultipleIsProduct(x: nat, b: nat)
    requires b > 0 && IsMultiple(x, b)
    ensures x == b * (x / b)
  {
  }

  /** Two distinct multiples of `b` are at least `b` apart. */
  lemma MultiplesGap(x: nat, y: nat, b: nat)
    requires b > 0 && IsMultiple(x, b) && IsMultiple(y, b) && x < y
    ensures y - x >= b
  {
    MultipleIsProduct(x, b);
    MultipleIsProduct(y, b);
    var d := y / b - x / b;
    assert y - x == b * d;
    if d <= 0 {
      MulNonNegative(b, -d);
    } else {
      MulAtLeast(b, d);
    }
  }

  lemma MultipleSum(x: nat, y: nat, b: nat)
    requires b > 0 && IsMultiple(x, b) && IsMultiple(y, b)
    ensures IsMultiple(x + y, b)
  {
    MultipleIsProduct(x, b);
    MultipleIsProduct(y, b);
    assert x + y == b * (x / b + y / b);
    MultipleOfProduct(b, x / b + y / b);
  }

  lemma MultipleDiff(x: nat, y: nat, b: nat)
    requires b > 0 && IsMultiple(x, b) && IsMultiple(y, b) && y <= x
    ensures IsMultiple(x - y, b)
  {
    if y < x {
      MultipleIsProduct(x, b);
      MultipleIsProduct(y, b);
      var d := x / b - y / b;
      assert x - y == b * d;
      if d < 0 {
        MulNonNegative(b, -d);
        assert false;
      }
      MultipleOfProduct(b, d);
    }
  }

  /** A multiple of `b` that is at least `n` but less than `b` above it is
      the least such multiple. */
  lemma CloseMultipleIsLeast(m: nat, n: nat, b: nat)
    requires b > 0 && IsMultiple(m, b) && n <= m && m - n < b
    ensures LeastMultipleAtLeast(m, n, b)
  {
    forall k: nat | n <= k < m
      ensures !IsMultiple(k, b)
    {
      if IsMultiple(k, b) {
        MultiplesGap(k, m, b);
      }
    }
  }

  /** A multiple of `b` that is at most `n` and less than `b` below it is the
      greatest such multiple. */
  lemma CloseMultipleIsGreatest(m: nat, n: nat, b: nat)
    requires b > 0 && IsMultiple(m, b) && m <= n && n - m < b
    ensures GreatestMultipleAtMost(m, n, b)
  {
    forall k: nat | m < k <= n
      ensures !IsMultiple(k, b)
    {
      if IsMultiple(k, b) {
        MultiplesGap(m, k, b);
      }
    }
  }

  /** Rounding down: `n` minus its remainder, a multiple of `b` less than
      one block below `n`. */
  function RoundDown(n: nat, b: nat): (m: nat)
    requires b > 0
    ensures IsMultiple(m, b) && m <= n && n - m < b
  {
    var m := n - n % b;
    assert m == b * (n / b) by {
      assert n == b * (n / b) + n % b;
    }
    MultipleOfProduct(b, n / b);
    m
  }

  /** Rounding down gives the greatest multiple of `b` at or below `n`. */
  lemma RoundDownIsGreatest(n: nat, b: nat)
    requires b > 0
    ensures GreatestMultipleAtMost(RoundDown(n, b), n, b)
  {
    CloseMultipleIsGreatest(RoundDown(n, b), n, b);
  }

  /** Rounding up: `n` itself when aligned, else `n` plus the distance to
      the next boundary; a multiple of `b` less than one block above `n`. */
  function RoundUp(n: nat, b: nat): (m: nat)
    requires b > 0
    ensures IsMultiple(m, b) && n <= m && m - n < b
  {
    if n % b == 0 then
      n
    else
      var m := n + (b - n % b);
      assert m == b * (n / b + 1) by {
        assert n == b * (n / b) + n % b;
      }
      MultipleOfProduct(b, n / b + 1);
      m
  }

  /** Rounding up gives the least multiple of `b` at or above `n`. */
  lemma RoundUpIsLeast(n: nat, b: nat)
    requires b > 0
    ensures LeastMultipleAtLeast(RoundUp(n, b), n, b)
  {
    CloseMultipleIsLeast(RoundUp(n, b), n, b);
  }

  /** Addition that reports overflow past `max` instead of wrapping, as
      Rust's `checked_add` does for an unsigned type whose largest value is
      `max`. */
  function CheckedAdd(x: nat, y: nat, max: nat): (r: Option<nat>)
    ensures r.Some? <==> x + y <= max
    ensures r.Some? ==> r.value == x + y
  {
    if x + y <= max then Some(x + y) else None
  }

  /** Rust's `checked_next_multiple_of` for an unsigned type whose largest
      value is `max`. A result is a multiple of `b` at most one block above
      `n`; `None` only happens for an unaligned `n` within one block of
      `max`. */
  function CheckedNextMultipleOf(n: nat, b: nat, max: nat): (r: Option<nat>)
    requires b > 0 && n <= max
    ensures r.Some? ==> r.value <= max && IsMultiple(r.value, b) && n <= r.value && r.value - n < b
    ensures r.None? ==> !IsMultiple(n, b) && max < n + b
  {
    if n % b == 0 then
      Some(n)
    else
      var r := CheckedAdd(n, b - n % b, max);
      assert r.Some? ==> r.value == RoundUp(n, b);
      r
  }

  /** A result of `checked_next_multiple_of` is the least multiple at or
      above `n`. */
  lemma CheckedNextMultipleOfIsLeast(n: nat, b: nat, max: nat)
    requires b > 0 && n <= max && CheckedNextMultipleOf(n, b, max).Some?
    ensures LeastMultipleAtLeast(CheckedNextMultipleOf(n, b, max).value, n, b)
  {
    CloseMultipleIsLeast(CheckedNextMultipleOf(n, b, max).value, n, b);
  }

  /** `checked_next_multiple_of` fails exactly when no multiple of `b` lies
      in `[n, max]`. */
  lemma CheckedNextMultipleOfNoneIff(n: nat, b: nat, max: nat)
    requires b > 0 && n <= max
    ensures CheckedNextMultipleOf(n, b, max).None? <==>
      forall k: nat :: n <= k <= max ==> !IsMultiple(k, b)
  {
    var r := CheckedNextMultipleOf(n, b, max);
    if r.Some? {
      SomeMultipleInBounds(r.value, n, b, max);
    } else {
      assert max < RoundUp(n, b);
      RoundUpIsLeast(n, b);
      NoMultipleInBounds(RoundUp(n, b), n, b, max);
    }
  }

  lemma SomeMultipleInBounds(m: nat, n: nat, b: nat, max: nat)
    requires b > 0 && IsMultiple(m, b) && n <= m <= max
    ensures !forall k: nat :: n <= k <= max ==> !IsMultiple(k, b)
  {
  }

  lemma NoMultipleInBounds(m: nat, n: nat, b: nat, max: nat)
    requires b > 0 && LeastMultipleAtLeast(m, n, b) && max < m
    ensures forall k: nat :: n <= k <= max ==> !IsMultiple(k, b)
  {
  }
}
