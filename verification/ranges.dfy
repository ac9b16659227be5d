/** `Location<BSIZE>` and `Range<BSIZE>` of the allocator layer: `usize`
    addresses that are multiples of a `block::Size`, and half-open
    intervals of them. Their definitions are not part of this model; what
    is here is the contract the allocator and its tests rely on, with
    `split_round_up` as the one primitive that partitions address space. */
module Ranges {
  import opened Wrappers
  import opened Multiples
  import opened Block

  /** A `Location<BSIZE>`: fits a `usize` and lies on a block boundary. */
  predicate IsLocation(s: Size, n: nat) {
    n <= USIZE_MAX && IsMultiple(n, ToUsize(s))
  }

  /** `Location::add_round_up`: round `amount` up to whole blocks, then add
      it to `loc`, failing on overflow in either step. A result is a
      location at least `amount` bytes past `loc` and less than one block
      further; `None` is only possible within one block of `usize::MAX`. */
  function AddRoundUp(s: Size, loc: nat, amount: nat): (r: Option<nat>)
    requires IsLocation(s, loc) && amount <= USIZE_MAX
    ensures r.Some? ==> IsLocation(s, r.value)
    ensures r.Some? ==> loc + amount <= r.value && r.value - (loc + amount) < ToUsize(s)
    ensures r.None? ==> USIZE_MAX < loc + amount + ToUsize(s)
  {
    match AlignUp(s, amount)
    case None => None
    case Some(m) =>
      MultipleSum(loc, m, ToUsize(s));
      CheckedAdd(loc, m, USIZE_MAX)
  }

  /** A result of `add_round_up` is the first block boundary at least
      `amount` bytes past `loc`. */
  lemma AddRoundUpIsLeast(s: Size, loc: nat, amount: nat)
    requires IsLocation(s, loc) && amount <= USIZE_MAX
    requires AddRoundUp(s, loc, amount).Some?
    ensures LeastMultipleAtLeast(AddRoundUp(s, loc, amount).value, loc + amount, ToUsize(s))
  {
    CloseMultipleIsLeast(AddRoundUp(s, loc, amount).value, loc + amount, ToUsize(s));
  }

  /** `add_round_up` fails exactly when no block boundary lies in
      `[loc + amount, usize::MAX]`. */
  lemma AddRoundUpNoneIff(s: Size, loc: nat, amount: nat)
    requires IsLocation(s, loc) && amount <= USIZE_MAX
    ensures AddRoundUp(s, loc, amount).None? <==>
      forall k: nat :: loc + amount <= k <= USIZE_MAX ==> !IsMultiple(k, ToUsize(s))
  {
    var b := ToUsize(s);
    var r := AddRoundUp(s, loc, amount);
    if r.Some? {
      SomeMultipleInBounds(r.value, loc + amount, b, USIZE_MAX);
    } else {
      AlignUpNoneIff(s, amount);
      match AlignUp(s, amount)
      case None =>
        NoBoundaryAfterShift(s, loc, amount, USIZE_MAX);
      case Some(m) =>
        AlignUpIsLeast(s, amount);
        ShiftedLeastMultiple(s, loc, amount, m);
        NoMultipleInBounds(loc + m, loc + amount, b, USIZE_MAX);
    }
  }

  /** Shifting by an aligned `loc` preserves being the least multiple. */
  lemma ShiftedLeastMultiple(s: Size, loc: nat, amount: nat, m: nat)
    requires IsMultiple(loc, ToUsize(s)) && LeastMultipleAtLeast(m, amount, ToUsize(s))
    ensures LeastMultipleAtLeast(loc + m, loc + amount, ToUsize(s))
  {
    var b := ToUsize(s);
    MultipleSum(loc, m, b);
    forall k: nat | loc + amount <= k < loc + m
      ensures !IsMultiple(k, b)
    {
      if IsMultiple(k, b) {
        MultipleDiff(k, loc, b);
      }
    }
  }

  /** If no multiple lies in `[amount, max]`, none lies in
      `[loc + amount, max]` for an aligned `loc`. */
  lemma NoBoundaryAfterShift(s: Size, loc: nat, amount: nat, max: nat)
    requires IsMultiple(loc, ToUsize(s))
    requires forall k: nat :: amount <= k <= max ==> !IsMultiple(k, ToUsize(s))
    ensures forall k: nat :: loc + amount <= k <= max ==> !IsMultiple(k, ToUsize(s))
  {
    var b := ToUsize(s);
    forall k: nat | loc + amount <= k <= max
      ensures !IsMultiple(k, b)
    {
      if IsMultiple(k, b) {
        MultipleDiff(k, loc, b);
      }
    }
  }

  /** `Range<BSIZE>`: the half-open span `[start, end)`. */
  datatype Range = Range(start: nat, end: nat)

  /** What every `Range<BSIZE>` guarantees: both ends are locations and
      `start <= end` (`Range::new` asserts the latter). */
  predicate Valid(s: Size, r: Range) {
    IsLocation(s, r.start) && IsLocation(s, r.end) && r.start <= r.end
  }

  /** `Range::size`: `end - start`, saturating at 0. */
  function RangeSize(r: Range): (n: nat)
    ensures r.start <= r.end ==> r.start + n == r.end
    ensures r.end < r.start ==> n == 0
  {
    if r.start <= r.end then r.end - r.start else 0
  }

  /** Address `x` lies in `[r.start, r.end)`. */
  predicate Contains(r: Range, x: nat) {
    r.start <= x < r.end
  }

  /** `inner` is a sub-span of `outer`. */
  predicate Within(inner: Range, outer: Range) {
    outer.start <= inner.start && inner.end <= outer.end
  }

  /** A request for `n` bytes fits in `r` when `n` rounded up to whole
      blocks exists and is at most the raw remaining size. */
  predicate Fits(s: Size, r: Range, n: nat)
    requires n <= USIZE_MAX
  {
    AlignUp(s, n).Some? && AlignUp(s, n).value <= RangeSize(r)
  }

  /** The outcome of `split_round_up`: the carved prefix, if any, and what
      remains of the range. */
  datatype Split = Split(taken: Option<Range>, rest: Range)

  /** `Range::split_round_up`: carve the prefix `[start, b)` with
      `b = start.add_round_up(n)` off the range, leaving `[b, end)`. When
      `b` does not exist or lies past `end`, nothing is carved and the range
      is unchanged. */
  function SplitRoundUp(s: Size, r: Range, n: nat): (res: Split)
    requires Valid(s, r) && n <= USIZE_MAX
    ensures Valid(s, res.rest)
    ensures res.taken.Some? <==> Fits(s, r, n)
    ensures res.taken.None? ==> res.rest == r
    ensures res.taken.Some? ==> var t := res.taken.value;
      && Valid(s, t)
      && t.start == r.start && t.end == res.rest.start && res.rest.end == r.end
      && RangeSize(t) == AlignUp(s, n).value && n <= RangeSize(t)
  {
    match AddRoundUp(s, r.start, n)
    case Some(boundary) =>
      if boundary <= r.end then
        AddRoundUpIsShiftedAlignUp(s, r.start, n);
        Split(Some(Range(r.start, boundary)), Range(boundary, r.end))
      else
        AddRoundUpIsShiftedAlignUp(s, r.start, n);
        Split(None, r)
    case None =>
      AlignUpFitsImpliesAddRoundUp(s, r, n);
      Split(None, r)
  }

  /** When `add_round_up` succeeds it adds exactly `align_up(amount)`. */
  lemma AddRoundUpIsShiftedAlignUp(s: Size, loc: nat, amount: nat)
    requires IsLocation(s, loc) && amount <= USIZE_MAX
    requires AddRoundUp(s, loc, amount).Some?
    ensures AlignUp(s, amount).Some?
    ensures AddRoundUp(s, loc, amount).value == loc + AlignUp(s, amount).value
  {
  }

  /** A request that fits in a valid range never overflows `add_round_up`. */
  lemma AlignUpFitsImpliesAddRoundUp(s: Size, r: Range, n: nat)
    requires Valid(s, r) && n <= USIZE_MAX
    ensures Fits(s, r, n) ==> AddRoundUp(s, r.start, n).Some?
  {
  }

  /** Splitting tiles the range: every address of the original lies in
      exactly one of the carved prefix and the remainder, and they hold no
      other address. */
  lemma SplitTiles(s: Size, r: Range, n: nat, x: nat)
    requires Valid(s, r) && n <= USIZE_MAX
    requires SplitRoundUp(s, r, n).taken.Some?
    ensures var sp := SplitRoundUp(s, r, n);
      Contains(r, x) <==> (Contains(sp.taken.value, x) || Contains(sp.rest, x))
    ensures var sp := SplitRoundUp(s, r, n);
      !(Contains(sp.taken.value, x) && Contains(sp.rest, x))
    ensures var sp := SplitRoundUp(s, r, n);
      RangeSize(sp.taken.value) + RangeSize(sp.rest) == RangeSize(r)
  {
  }
}
