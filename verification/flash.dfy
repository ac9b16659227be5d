/** The crate root of the flash layer: the error kinds, raw `u32` flash
    locations, `ErasableLocation<B>` (a location that is a multiple of the
    erase-block size `B`) and the pure default method of `FlashWrite` that
    widens a byte interval to whole erase blocks.

    The const generic `B` becomes an explicit parameter `b` of every
    operation; Rust's `%` by zero panics, so every operation requires
    `b > 0`. */
module Flash {
  import opened Wrappers
  import opened Multiples

  /** The crate's closed error taxonomy. `Size` is the kind the allocator
      reports when a carve-out does not fit. */
  datatype Error = Io | Alignment | Size

  /** A raw flash location (`Location = u32`). */
  predicate IsLocation(n: nat) {
    n <= U32_MAX
  }

  /** `ErasableLocation<B>`: a newtype around a raw location. */
  datatype ErasableLocation = ErasableLocation(raw: nat)

  /** What every `ErasableLocation<B>` value guarantees: it fits a `u32`
      and sits on an erase-block boundary. */
  predicate IsErasable(b: nat, loc: ErasableLocation)
    requires b > 0
  {
    IsLocation(loc.raw) && IsMultiple(loc.raw, b)
  }

  /** `From<ErasableLocation<B>> for Location`: unwrap the raw value. */
  function Into(loc: ErasableLocation): (n: nat)
    ensures ErasableLocation(n) == loc
  {
    loc.raw
  }

  /** `TryFrom<Location> for ErasableLocation<B>`: the validating
      constructor; it succeeds exactly on multiples of `b`. */
  function TryFrom(b: nat, value: nat): (r: Result<ErasableLocation, Error>)
    requires 0 < b <= USIZE_MAX && IsLocation(value)
    ensures r.Success? <==> IsMultiple(value, b)
    ensures r.Success? ==> IsErasable(b, r.value) && Into(r.value) == value
    ensures r.Failure? ==> r.error == Alignment
  {
    if value % b == 0 then Success(ErasableLocation(value)) else Failure(Alignment)
  }

  /** Converting an erasable location to a raw one and back is the
      identity. */
  lemma TryFromInto(b: nat, loc: ErasableLocation)
    requires 0 < b <= USIZE_MAX && IsErasable(b, loc)
    ensures TryFrom(b, Into(loc)) == Success(loc)
  {
  }

  /** `ErasableLocation::extent`: the distance from `beginning` to `end`,
      saturating at 0 when `end` lies before `beginning`. */
  function Extent(beginning: ErasableLocation, end: ErasableLocation): (r: nat)
    ensures beginning.raw <= end.raw ==> beginning.raw + r == end.raw
    ensures end.raw < beginning.raw ==> r == 0
  {
    if end.raw >= beginning.raw then end.raw - beginning.raw else 0
  }

  /** The extent between two erasable locations is a whole number of
      blocks. */
  lemma ExtentIsAligned(b: nat, beginning: ErasableLocation, end: ErasableLocation)
    requires b > 0 && IsErasable(b, beginning) && IsErasable(b, end)
    ensures IsMultiple(Extent(beginning, end), b)
    ensures Extent(beginning, end) <= U32_MAX
  {
    if beginning.raw <= end.raw {
      MultipleDiff(end.raw, beginning.raw, b);
    }
  }

  /** `ErasableLocation::advance`: move forward by `amount` bytes. An
      amount that is not a whole number of blocks is an `Alignment` error;
      so is a sum that overflows `usize` or does not fit back into the `u32`
      location (the source maps both conversions to `Alignment` rather than
      panicking). */
  function Advance(b: nat, loc: ErasableLocation, amount: nat): (r: Result<ErasableLocation, Error>)
    requires 0 < b <= USIZE_MAX && IsErasable(b, loc) && amount <= USIZE_MAX
    ensures r.Success? <==> IsMultiple(amount, b) && loc.raw + amount <= U32_MAX
    ensures r.Success? ==> Into(r.value) == Into(loc) + amount && IsErasable(b, r.value)
    ensures r.Failure? ==> r.error == Alignment
  {
    if amount % b == 0 then
      match CheckedAdd(loc.raw, amount, USIZE_MAX)
      case None => Failure(Alignment)
      case Some(pos) =>
        if IsLocation(pos) then
          MultipleSum(loc.raw, amount, b);
          Success(ErasableLocation(pos))
        else
          Failure(Alignment)
    else
      Failure(Alignment)
  }

  /** Advancing by the extent to a later location lands on that location. */
  lemma AdvanceByExtent(b: nat, beginning: ErasableLocation, end: ErasableLocation)
    requires 0 < b <= USIZE_MAX && IsErasable(b, beginning) && IsErasable(b, end)
    requires beginning.raw <= end.raw
    ensures Advance(b, beginning, Extent(beginning, end)) == Success(end)
  {
    ExtentIsAligned(b, beginning, end);
  }

  /** The extent from a location to its successful advance is the amount
      advanced by. */
  lemma ExtentOfAdvance(b: nat, loc: ErasableLocation, amount: nat)
    requires 0 < b <= USIZE_MAX && IsErasable(b, loc) && amount <= USIZE_MAX
    requires Advance(b, loc, amount).Success?
    ensures Extent(loc, Advance(b, loc, amount).value) == amount
  {
  }

  /** `FlashWrite::grow_to_erasable_block`: widen `[beginning, end)` outward
      to erase-block boundaries. The new beginning is the largest boundary
      at or below `beginning`, the new end the smallest boundary at or above
      `end`. The source unwraps both the conversion of `B` to `u32` and the
      overflow check of the new end, so both are preconditions here. */
  function GrowToErasableBlock(b: nat, beginning: nat, end: nat): (r: (nat, nat))
    requires 0 < b <= U32_MAX
    requires IsLocation(beginning) && IsLocation(end)
    requires IsLocation(RoundUp(end, b))
    ensures GreatestMultipleAtMost(r.0, beginning, b)
    ensures LeastMultipleAtLeast(r.1, end, b)
    ensures beginning - r.0 < b && r.1 - end < b
    ensures IsLocation(r.0) && IsLocation(r.1)
  {
    var beginningMisalignment := beginning % b;
    var endMisalignment := if end % b == 0 then 0 else b - end % b;
    var newBeginning := if beginning >= beginningMisalignment then beginning - beginningMisalignment else 0;
    var newEnd := end + endMisalignment;
    assert newBeginning == RoundDown(beginning, b);
    assert newEnd == RoundUp(end, b);
    RoundDownIsGreatest(beginning, b);
    RoundUpIsLeast(end, b);
    (newBeginning, newEnd)
  }

  /** Growing an interval whose ends are already on block boundaries leaves
      it unchanged, so growing is idempotent. */
  lemma GrowIdempotent(b: nat, beginning: nat, end: nat)
    requires 0 < b <= U32_MAX
    requires IsLocation(beginning) && IsLocation(end)
    requires IsLocation(RoundUp(end, b))
    ensures var r := GrowToErasableBlock(b, beginning, end);
      IsLocation(RoundUp(r.1, b)) && GrowToErasableBlock(b, r.0, r.1) == r
  {
  }
}
