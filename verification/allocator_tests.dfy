/** The allocator unit tests as lemmas: 4 KiB blocks, a medium of
    `[0, 0x4_0000)` and an EFH of `0x200` bytes at `0x2_0000`. */
module AllocatorTests {
  import opened Wrappers
  import opened Block
  import opened Ranges
  import opened Arena

  /** The `allocator()` fixture's arguments; the medium's end is
      `start.add_round_up(0x4_0000)`. */
  const Medium: Range := Range(0, AddRoundUp(B4K, 0, 0x4_0000).value)
  const EfhStart: nat := 0x2_0000
  const EfhSize: nat := 0x200

  /** The `efh_range()` fixture: from `0x2_0000` to
      `0x2_0000.add_round_up(0x200)`. */
  const EfhRange: Range := Range(EfhStart, AddRoundUp(B4K, EfhStart, EfhSize).value)

  /** Both fixtures' `add_round_up` calls succeed, and the reserved range is
      one 4 KiB block. */
  lemma FixtureBounds()
    ensures AddRoundUp(B4K, 0, 0x4_0000) == Some(0x4_0000)
    ensures AddRoundUp(B4K, EfhStart, EfhSize) == Some(0x2_1000)
    ensures Medium == Range(0, 0x4_0000) && EfhRange == Range(0x2_0000, 0x2_1000)
  {
    assert AlignUp(B4K, 0x4_0000) == Some(0x4_0000);
    assert AlignUp(B4K, EfhSize) == Some(0x1000);
  }

  /** `allocator()`: construction succeeds and carves the medium into the
      low pool, the reserved range and the high pool. */
  function Fixture(): (a: ArenaAllocator)
    ensures Arena.Valid(B4K, a)
    ensures a.efhRange == EfhRange
    ensures a.low == Range(0, EfhStart) && a.high == Range(0x2_1000, 0x4_0000)
  {
    FixtureBounds();
    var r := TryNew(B4K, EfhStart, EfhSize, Medium);
    assert AlignUp(B4K, EfhSize) == Some(0x1000);
    r.value
  }

  /** `test_allocator_1`: two small requests are served from the low pool,
      below the reserved range and without overlap. */
  lemma TestAllocator1()
    ensures EfhRange == Range(0x2_0000, 0x2_1000)
    ensures var first := AllocRoundUp(B4K, Fixture(), 42);
      var second := AllocRoundUp(B4K, first.next, 100);
      && first.taken == Some(Range(0, 0x1000))
      && second.taken == Some(Range(0x1000, 0x2000))
      && Disjoint(first.taken.value, second.taken.value)
      && Disjoint(first.taken.value, EfhRange)
      && Disjoint(second.taken.value, EfhRange)
      && second.taken.value.end < 0x2_0000
  {
    FixtureBounds();
    assert AlignUp(B4K, 42) == Some(0x1000);
    assert AlignUp(B4K, 100) == Some(0x1000);
  }

  /** `test_allocator_2`: a request for the whole low pool empties it, so
      the next request comes from the high pool, above the reserved
      range. */
  lemma TestAllocator2()
    ensures EfhRange == Range(0x2_0000, 0x2_1000)
    ensures var first := AllocRoundUp(B4K, Fixture(), 0x2_0000);
      var second := AllocRoundUp(B4K, first.next, 100);
      && first.taken == Some(Range(0, 0x2_0000))
      && second.taken == Some(Range(0x2_1000, 0x2_2000))
      && Disjoint(first.taken.value, second.taken.value)
      && Disjoint(first.taken.value, EfhRange)
      && Disjoint(second.taken.value, EfhRange)
      && second.taken.value.end < 0x4_0000
  {
    FixtureBounds();
    assert AlignUp(B4K, 0x2_0000) == Some(0x2_0000);
    assert AlignUp(B4K, 100) == Some(0x1000);
  }

  /** `test_allocator_3`: a request just under the low pool's size rounds up
      to all of it, and the next request starts above `0x2_0000`. */
  lemma TestAllocator3()
    ensures EfhRange == Range(0x2_0000, 0x2_1000)
    ensures var first := AllocRoundUp(B4K, Fixture(), 0x1_fff8);
      var second := AllocRoundUp(B4K, first.next, 100);
      && first.taken == Some(Range(0, 0x2_0000))
      && second.taken == Some(Range(0x2_1000, 0x2_2000))
      && Disjoint(first.taken.value, second.taken.value)
      && Disjoint(first.taken.value, EfhRange)
      && Disjoint(second.taken.value, EfhRange)
      && second.taken.value.end < 0x4_0000
      && second.taken.value.start > 0x2_0000
  {
    FixtureBounds();
    assert AlignUp(B4K, 0x1_fff8) == Some(0x2_0000);
    assert AlignUp(B4K, 100) == Some(0x1000);
  }
}
