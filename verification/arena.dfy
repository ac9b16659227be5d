/** `ArenaAllocator<BSIZE>`: the whole medium split once, at construction,
    into a low free pool below the reserved EFH (embedded firmware header)
    range, the hidden EFH range itself, and a high free pool above it.
    Allocation is first fit over exactly the two pools, low before high,
    and never frees anything. */
module Arena {
  import opened Wrappers
  import opened Multiples
  import opened Block
  import opened Ranges
  import Flash

  /** `_efh_range` is never handed out; `low` and `high` are `arenas[0]`
      and `arenas[1]`. */
  datatype ArenaAllocator = ArenaAllocator(efhRange: Range, low: Range, high: Range)

  /** The allocator's invariant: three valid ranges, the low pool ending
      where the reserved range begins and the high pool starting at or
      after its end. */
  predicate Valid(s: Size, a: ArenaAllocator) {
    && Ranges.Valid(s, a.efhRange)
    && Ranges.Valid(s, a.low)
    && Ranges.Valid(s, a.high)
    && a.low.end == a.efhRange.start
    && a.efhRange.end <= a.high.start
  }

  /** `ArenaAllocator::try_new`. The arena must start at 0 (a fatal
      assertion in the source, so a precondition here). The low pool is
      split off first and must end exactly at `efhStart`; then the reserved
      range of `align_up(efhSize)` bytes; the rest is the high pool. Either
      split failing is a `Size` error. */
  function TryNew(s: Size, efhStart: nat, efhSize: nat, arena: Range): (r: Result<ArenaAllocator, Flash.Error>)
    requires Ranges.Valid(s, arena) && arena.start == 0
    requires IsLocation(s, efhStart) && efhSize <= USIZE_MAX
    ensures r.Success? <==>
      && efhStart <= arena.end
      && AlignUp(s, efhSize).Some?
      && efhStart + AlignUp(s, efhSize).value <= arena.end
    ensures r.Failure? ==> r.error == Flash.Error.Size
    ensures r.Success? ==>
      var efhEnd := efhStart + AlignUp(s, efhSize).value;
      && Valid(s, r.value)
      && r.value.low == Range(0, efhStart)
      && r.value.efhRange == Range(efhStart, efhEnd)
      && r.value.high == Range(efhEnd, arena.end)
  {
    var first := SplitRoundUp(s, arena, efhStart);
    AlignUpOfAligned(s, efhStart);
    if first.taken.None? then
      Failure(Flash.Error.Size)
    else
      var a := first.taken.value;
      // The source asserts this; the low pool always ends at the EFH.
      assert a.end == efhStart;
      var second := SplitRoundUp(s, first.rest, efhSize);
      if second.taken.None? then
        Failure(Flash.Error.Size)
      else
        Success(ArenaAllocator(second.taken.value, a, second.rest))
  }

  /** After a successful `try_new`, the low pool, the reserved range and
      the high pool are contiguous, pairwise disjoint, and together exactly
      the original arena. */
  lemma TryNewTilesArena(s: Size, efhStart: nat, efhSize: nat, arena: Range, x: nat)
    requires Ranges.Valid(s, arena) && arena.start == 0
    requires IsLocation(s, efhStart) && efhSize <= USIZE_MAX
    requires TryNew(s, efhStart, efhSize, arena).Success?
    ensures var a := TryNew(s, efhStart, efhSize, arena).value;
      && a.low.start == arena.start && a.low.end == a.efhRange.start
      && a.efhRange.end == a.high.start && a.high.end == arena.end
      && (Contains(arena, x) <==> Contains(a.low, x) || Contains(a.efhRange, x) || Contains(a.high, x))
      && Disjoint(a.low, a.efhRange) && Disjoint(a.efhRange, a.high) && Disjoint(a.low, a.high)
  {
  }

  /** `intersect` of the allocator tests: the overlap of two ranges, when
      it is not empty. */
  function Intersect(a: Range, b: Range): (r: Option<(nat, nat)>)
    ensures r.Some? ==> r.value.0 < r.value.1
    ensures r.Some? ==> forall x: nat :: (r.value.0 <= x < r.value.1) <==> (Contains(a, x) && Contains(b, x))
    ensures r.None? <==> forall x: nat :: !(Contains(a, x) && Contains(b, x))
  {
    var newBeginning := if a.start >= b.start then a.start else b.start;
    var newEnd := if a.end <= b.end then a.end else b.end;
    if newBeginning < newEnd then
      assert Contains(a, newBeginning) && Contains(b, newBeginning);
      Some((newBeginning, newEnd))
    else
      None
  }

  /** Two ranges share no address: the later start is at or past the
      earlier end. */
  predicate Disjoint(a: Range, b: Range) {
    (if a.start >= b.start then a.start else b.start) >= (if a.end <= b.end then a.end else b.end)
  }

  /** The tests' `intersect(..).is_none()` is exactly disjointness. */
  lemma DisjointIffNoIntersection(a: Range, b: Range)
    ensures Disjoint(a, b) <==> Intersect(a, b).None?
  {
  }

  /** The result of `alloc_round_up`: the carved range, if any, and the
      allocator after the call. */
  datatype Allocation = Allocation(taken: Option<Range>, next: ArenaAllocator)

  /** `Allocator::alloc_round_up`: split the request off the low pool, and
      only if that fails off the high pool. */
  function AllocRoundUp(s: Size, a: ArenaAllocator, size: nat): (r: Allocation)
    requires Valid(s, a) && size <= USIZE_MAX
    ensures Valid(s, r.next) && r.next.efhRange == a.efhRange
    ensures Within(r.next.low, a.low) && Within(r.next.high, a.high)
    ensures r.taken.Some? <==> Fits(s, a.low, size) || Fits(s, a.high, size)
    ensures Fits(s, a.low, size) ==>
      && r.taken.Some? && r.taken.value.start == a.low.start
      && r.next.low == Range(r.taken.value.end, a.low.end) && r.next.high == a.high
    ensures !Fits(s, a.low, size) ==> r.next.low == a.low
    ensures !Fits(s, a.low, size) && Fits(s, a.high, size) ==>
      && r.taken.value.start == a.high.start
      && r.next.high == Range(r.taken.value.end, a.high.end)
    ensures r.taken.None? ==> r.next == a
    ensures r.taken.Some? ==> var t := r.taken.value;
      && Ranges.Valid(s, t)
      && size <= RangeSize(t) && RangeSize(t) == AlignUp(s, size).value
      && (Within(t, a.low) || Within(t, a.high))
      && Disjoint(t, a.efhRange) && Disjoint(t, r.next.low) && Disjoint(t, r.next.high)
  {
    var lowSplit := SplitRoundUp(s, a.low, size);
    if lowSplit.taken.Some? then
      Allocation(lowSplit.taken, a.(low := lowSplit.rest))
    else
      var highSplit := SplitRoundUp(s, a.high, size);
      Allocation(highSplit.taken, a.(high := highSplit.rest))
  }

  /** `Allocator::max_contiguous_capacity`: the size of the larger pool
      (`max_by_key` keeps the later pool on a tie; both sizes are equal
      then). */
  function MaxContiguousCapacity(a: ArenaAllocator): (r: nat)
    ensures RangeSize(a.low) <= r && RangeSize(a.high) <= r
    ensures r == RangeSize(a.low) || r == RangeSize(a.high)
  {
    if RangeSize(a.high) >= RangeSize(a.low) then RangeSize(a.high) else RangeSize(a.low)
  }

  /** A request succeeds exactly when its rounded-up size is at most the
      maximum contiguous capacity; in particular a request larger than the
      capacity is unsatisfiable. */
  lemma AllocSucceedsIffWithinCapacity(s: Size, a: ArenaAllocator, size: nat)
    requires Valid(s, a) && size <= USIZE_MAX
    ensures AllocRoundUp(s, a, size).taken.Some? <==>
      AlignUp(s, size).Some? && AlignUp(s, size).value <= MaxContiguousCapacity(a)
    ensures size > MaxContiguousCapacity(a) ==> AllocRoundUp(s, a, size).taken.None?
  {
  }

  /** Serve a sequence of requests in order, threading the allocator. */
  function AllocMany(s: Size, a: ArenaAllocator, sizes: seq<nat>): (r: (seq<Option<Range>>, ArenaAllocator))
    requires Valid(s, a)
    requires forall i :: 0 <= i < |sizes| ==> sizes[i] <= USIZE_MAX
    ensures |r.0| == |sizes|
    decreases |sizes|
  {
    if |sizes| == 0 then
      ([], a)
    else
      var step := AllocRoundUp(s, a, sizes[0]);
      var rest := AllocMany(s, step.next, sizes[1..]);
      ([step.taken] + rest.0, rest.1)
  }

  /** Overlap with a pool is inherited by its sub-spans. */
  lemma DisjointWithin(t: Range, inner: Range, outer: Range)
    requires Disjoint(t, outer) && Within(inner, outer)
    ensures Disjoint(t, inner)
  {
  }

  /** What holds of a range `t` handed out by an allocator that started
      as `a` and is now `now`: it is a valid range inside one of the
      original pools, and it misses the reserved range and both current
      pools. */
  predicate HandedOut(s: Size, a: ArenaAllocator, now: ArenaAllocator, t: Range) {
    && Ranges.Valid(s, t)
    && (Within(t, a.low) || Within(t, a.high))
    && Disjoint(t, a.efhRange)
    && Disjoint(t, now.low) && Disjoint(t, now.high)
  }

  predicate PairwiseDisjoint(rs: seq<Option<Range>>) {
    forall i, j :: 0 <= i < j < |rs| && rs[i].Some? && rs[j].Some? ==>
      Disjoint(rs[i].value, rs[j].value)
  }

  /** `now` arose from `a` by shrinking the pools only. */
  predicate Shrunk(s: Size, a: ArenaAllocator, now: ArenaAllocator) {
    && Valid(s, now) && now.efhRange == a.efhRange
    && Within(now.low, a.low) && Within(now.high, a.high)
  }

  /** Handing out survives further shrinking of the pools. */
  lemma HandedOutStable(s: Size, a: ArenaAllocator, mid: ArenaAllocator, now: ArenaAllocator, t: Range)
    requires Shrunk(s, mid, now) && HandedOut(s, a, mid, t)
    ensures HandedOut(s, a, now, t)
  {
    DisjointWithin(t, now.low, mid.low);
    DisjointWithin(t, now.high, mid.high);
  }

  /** A range handed out from `mid` onwards also counts as handed out from
      the earlier `a`. */
  lemma HandedOutFromEarlier(s: Size, a: ArenaAllocator, mid: ArenaAllocator, now: ArenaAllocator, t: Range)
    requires Shrunk(s, a, mid) && HandedOut(s, mid, now, t)
    ensures HandedOut(s, a, now, t)
  {
  }

  /** Serving requests only ever shrinks the two pools. */
  lemma {:induction false} AllocManyShrinks(s: Size, a: ArenaAllocator, sizes: seq<nat>)
    requires Valid(s, a)
    requires forall i :: 0 <= i < |sizes| ==> sizes[i] <= USIZE_MAX
    ensures Shrunk(s, a, AllocMany(s, a, sizes).1)
    decreases |sizes|
  {
    if |sizes| > 0 {
      var step := AllocRoundUp(s, a, sizes[0]);
      AllocManyShrinks(s, step.next, sizes[1..]);
    }
  }

  /** Every range handed out over a sequence of requests lies in one of the
      original pools, misses the reserved range and the final pools, and is
      at least as large as its request. */
  lemma {:induction false} AllocManyHandedOut(s: Size, a: ArenaAllocator, sizes: seq<nat>, i: nat)
    requires Valid(s, a)
    requires forall k :: 0 <= k < |sizes| ==> sizes[k] <= USIZE_MAX
    requires i < |sizes| && AllocMany(s, a, sizes).0[i].Some?
    ensures var r := AllocMany(s, a, sizes);
      HandedOut(s, a, r.1, r.0[i].value) && sizes[i] <= RangeSize(r.0[i].value)
    decreases |sizes|
  {
    var step := AllocRoundUp(s, a, sizes[0]);
    var rest := AllocMany(s, step.next, sizes[1..]);
    var r := AllocMany(s, a, sizes);
    assert r.0 == [step.taken] + rest.0 && r.1 == rest.1;
    assert Shrunk(s, a, step.next);
    if i == 0 {
      var t := step.taken.value;
      assert HandedOut(s, a, step.next, t);
      AllocManyShrinks(s, step.next, sizes[1..]);
      HandedOutStable(s, a, step.next, r.1, t);
    } else {
      assert r.0[i] == rest.0[i - 1];
      assert sizes[i] == sizes[1..][i - 1];
      AllocManyHandedOut(s, step.next, sizes[1..], i - 1);
      HandedOutFromEarlier(s, a, step.next, r.1, r.0[i].value);
    }
  }

  /** No two ranges handed out over a sequence of requests overlap. */
  lemma {:induction false} AllocManyDisjoint(s: Size, a: ArenaAllocator, sizes: seq<nat>)
    requires Valid(s, a)
    requires forall i :: 0 <= i < |sizes| ==> sizes[i] <= USIZE_MAX
    ensures PairwiseDisjoint(AllocMany(s, a, sizes).0)
    decreases |sizes|
  {
    if |sizes| > 0 {
      var step := AllocRoundUp(s, a, sizes[0]);
      var rest := AllocMany(s, step.next, sizes[1..]);
      var r := AllocMany(s, a, sizes);
      assert r.0 == [step.taken] + rest.0;
      AllocManyDisjoint(s, step.next, sizes[1..]);
      if step.taken.Some? {
        var t := step.taken.value;
        forall j | 0 < j < |r.0| && r.0[j].Some?
          ensures Disjoint(t, r.0[j].value)
        {
          assert r.0[j] == rest.0[j - 1];
          AllocManyHandedOut(s, step.next, sizes[1..], j - 1);
          var u := r.0[j].value;
          if Within(u, step.next.low) {
            DisjointWithin(t, u, step.next.low);
          } else {
            DisjointWithin(t, u, step.next.high);
          }
        }
      }
      PairwiseFromHead(r.0, rest.0);
    }
  }

  /** Address `x` lies in one of the ranges handed out. */
  ghost predicate InSomeRange(rs: seq<Option<Range>>, x: nat) {
    exists i :: 0 <= i < |rs| && rs[i].Some? && Contains(rs[i].value, x)
  }

  /** No address is lost or invented: over any sequence of requests, an
      address lies in one of the original pools exactly when it lies in
      one of the current pools or in a range handed out. With
      `AllocManyHandedOut` and `AllocManyDisjoint`, it lies in exactly one
      of them. */
  lemma {:induction false} AllocManyConserves(s: Size, a: ArenaAllocator, sizes: seq<nat>, x: nat)
    requires Valid(s, a)
    requires forall i :: 0 <= i < |sizes| ==> sizes[i] <= USIZE_MAX
    ensures var r := AllocMany(s, a, sizes);
      (Contains(a.low, x) || Contains(a.high, x)) <==>
      (Contains(r.1.low, x) || Contains(r.1.high, x) || InSomeRange(r.0, x))
    decreases |sizes|
  {
    if |sizes| > 0 {
      var step := AllocRoundUp(s, a, sizes[0]);
      var rest := AllocMany(s, step.next, sizes[1..]);
      var r := AllocMany(s, a, sizes);
      assert r.0 == [step.taken] + rest.0 && r.1 == rest.1;
      AllocManyConserves(s, step.next, sizes[1..], x);
      AllocRoundUpConserves(s, a, sizes[0], x);
      InSomeRangeCons(step.taken, rest.0, x);
    }
  }

  /** One request moves addresses from a pool into the returned range and
      loses none. */
  lemma AllocRoundUpConserves(s: Size, a: ArenaAllocator, size: nat, x: nat)
    requires Valid(s, a) && size <= USIZE_MAX
    ensures var r := AllocRoundUp(s, a, size);
      (Contains(a.low, x) || Contains(a.high, x)) <==>
      (Contains(r.next.low, x) || Contains(r.next.high, x)
        || (r.taken.Some? && Contains(r.taken.value, x)))
  {
  }

  lemma InSomeRangeCons(h: Option<Range>, tail: seq<Option<Range>>, x: nat)
    ensures InSomeRange([h] + tail, x) <==> (h.Some? && Contains(h.value, x)) || InSomeRange(tail, x)
  {
    var rs := [h] + tail;
    if InSomeRange(tail, x) {
      var i :| 0 <= i < |tail| && tail[i].Some? && Contains(tail[i].value, x);
      assert rs[i + 1] == tail[i];
    }
    if h.Some? && Contains(h.value, x) {
      assert rs[0] == h;
    }
    if InSomeRange(rs, x) {
      var i :| 0 <= i < |rs| && rs[i].Some? && Contains(rs[i].value, x);
      if i > 0 {
        assert tail[i - 1] == rs[i];
      }
    }
  }

  /** Pairwise disjointness of `[h] + tail` from that of `tail` and `h`
      missing every element of `tail`. */
  lemma PairwiseFromHead(rs: seq<Option<Range>>, tail: seq<Option<Range>>)
    requires |rs| > 0 && rs[1..] == tail && PairwiseDisjoint(tail)
    requires rs[0].Some? ==> forall j :: 0 < j < |rs| && rs[j].Some? ==> Disjoint(rs[0].value, rs[j].value)
    ensures PairwiseDisjoint(rs)
  {
    forall i, j | 0 <= i < j < |rs| && rs[i].Some? && rs[j].Some?
      ensures Disjoint(rs[i].value, rs[j].value)
    {
      if i > 0 {
        assert rs[i] == tail[i - 1] && rs[j] == tail[j - 1];
      }
    }
  }
}
