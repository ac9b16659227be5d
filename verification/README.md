# amd-flash address arithmetic and arena allocator, in Dafny

This project models the part of the `amd-flash` crate that decides where firmware
image data may go on a block-erasable flash medium:

- **Block sizes** (`block::Size`): the sixteen erase-block sizes, 4 KiB to 64 KiB in
  4 KiB steps. It also models `align_up`, `is_aligned` and the block-size code table
  of the platform's flash descriptor. Alignment means "multiple of the size", and
  40 KiB or 60 KiB are legal sizes. The model therefore works with `%` and never
  with bit masks.
- **Erasable locations** (`ErasableLocation<B>`): a `u32` flash location that is a
  multiple of the erase-block size `B`. The model covers the validating
  constructor, the saturating `extent`, the checked `advance`, and the pure default
  method `FlashWrite::grow_to_erasable_block`, which widens an interval to block
  boundaries.
- **Aligned ranges** (`Location<BSIZE>`, `Range<BSIZE>`): block-aligned `usize`
  addresses and half-open intervals of them. `split_round_up` is the one primitive
  that partitions address space.
- **The arena allocator** (`ArenaAllocator<BSIZE>`): it splits the whole medium into a
  low free pool, a hidden reserved EFH (embedded firmware header) range, and a high
  free pool. It then serves requests first-fit, trying the low pool before the high
  pool.

Modules follow the crate:

| module | file | source |
|---|---|---|
| `Wrappers` | wrappers.dfy | `Option` and `Result` |
| `Multiples` | multiples.dfy | integer widths and multiple-of arithmetic, including `checked_next_multiple_of` |
| `Block` | block.dfy | `src/block.rs` |
| `Flash` | flash.dfy | `src/lib.rs` |
| `Ranges` | ranges.dfy | `crate::Location` and `crate::Range`, as used by `src/allocators.rs` |
| `Arena` | arena.dfy | `src/allocators.rs` |
| `AllocatorTests` | allocator_tests.dfy | the unit tests of `src/allocators.rs` |

Modelling decisions:

- Integers are unbounded `nat`s. The `u32` and `usize` bounds are explicit
  (`U32_MAX`, and `USIZE_MAX` for a 64-bit host). Every `checked_add`, `try_into`
  and `saturating_sub` of the source becomes an explicit branch.
- Rust's const generic block size becomes an explicit parameter of each operation.
  It is a `Size` for the allocator layer and a positive `nat` `b` for
  `ErasableLocation<B>`. The "always aligned" guarantee of the wrapper types becomes
  a predicate (`Flash.IsErasable`, `Ranges.IsLocation`, `Ranges.Valid`,
  `Arena.Valid`) that operations require and preserve.
- The source's fatal assertions become preconditions:
  - `arena.start == 0` in `try_new`;
  - `start <= end` in `Range::new`;
  - the `unwrap`s in `grow_to_erasable_block`.
- The `a.end == efh_start` assertion in `try_new` is a proof obligation inside
  `Arena.TryNew`. It is proved, so it can never fire.
- A mutating call (`split_round_up`, `alloc_round_up`) returns its result together
  with the updated value (`Ranges.Split`, `Arena.Allocation`). `Arena.AllocMany`
  threads the allocator through a sequence of requests.
- `Location<BSIZE>` and `Range<BSIZE>` of the allocator layer are not part of this
  model: the `src/lib.rs` modelled here is an older variant that does not define
  them. `Ranges` states the contract the allocator and its tests depend on, and it
  is an **assumed contract**:
  - `add_round_up(n)` rounds `n` up with `align_up` and adds it with an overflow
    check;
  - `split_round_up(n)` on `[s, e)` carves `[s, b)` with `b = s.add_round_up(n)`
    when `b` exists and `b <= e`, leaving `[b, e)`. Otherwise it returns `None` and
    leaves the range unchanged;
  - `size` is the saturating `end - start`.
- `advance` maps both of its overflows to `Alignment`: the `usize` addition and the
  conversion back to `u32` (src/lib.rs:33-34). `Flash.Error` keeps `Io` and
  `Alignment` from src/lib.rs:8-11 and adds `Size`, which the allocator returns
  (src/allocators.rs:23, src/allocators.rs:25). No modelled operation produces `Io`.

## Model

| member | source | states |
|---|---|---|
| Block.ToUsize | src/block.rs:7-24 | every block size is a positive multiple of 4 KiB and at most 64 KiB |
| Multiples.CheckedNextMultipleOf | src/block.rs:34-36 | a result is a multiple of `b` within the bound, at least `n` and less than one block above it; `None` only for an unaligned `n` within one block of the bound |
| Multiples.CheckedNextMultipleOfNoneIff | src/block.rs:34-36 | `checked_next_multiple_of` fails exactly when no multiple of `b` lies between `n` and the bound |
| Block.AlignUp | src/block.rs:32-36 | a result of `align_up(n)` is aligned, fits a `usize`, and is at least `n` and less than one block above it; `None` only for an unaligned `n` within one block of `usize::MAX` |
| Block.AlignUpIsLeast | src/block.rs:32-36 | a result of `align_up(n)` is the smallest multiple of the size that is at least `n` |
| Block.AlignUpNoneIff | src/block.rs:32-36 | `align_up(n)` is `None` exactly when no multiple of the size lies in `[n, usize::MAX]` |
| Block.IsAligned | src/block.rs:27-30 | `is_aligned(n)`, defined through `align_up`, holds iff `n` is a multiple of the size |
| Block.AlignUpOfAligned | src/block.rs:27-36 | an aligned value never takes the overflow branch: `align_up` returns it unchanged |
| Block.AlignUpIdempotent | src/block.rs:34-35 | aligning an aligned result again changes nothing |
| Block.AlignUpExamples | src/block.rs:74-87 | the unit-test values for 4 KiB: 0, 1 and 4096 align to 0, 4096 and 4096; 0, 4096 and 8192 are aligned and 1 is not |
| Block.TryFromBlockSize | src/block.rs:40-60 | code 0 gives `B64K`, that is 64 KiB; codes 1 to 15 give the code times 4 KiB; exactly the codes from 16 up give `None` |
| Block.BlockSizeCodesDistinct | src/block.rs:41-58 | distinct valid codes give distinct sizes |
| Block.EverySizeHasCode | src/block.rs:41-58 | every size has a valid code, so the table is a bijection |
| Flash.TryFrom | src/lib.rs:41-51 | construction succeeds iff the value is a multiple of `B`; a success is erasable and converts back to the same value; a failure is `Alignment` |
| Flash.Into | src/lib.rs:53-57 | `From<ErasableLocation<B>> for Location` loses nothing: wrapping the raw value again gives back the same location |
| Flash.TryFromInto | src/lib.rs:41-57 | converting an erasable location to a raw one and back returns the same location |
| Flash.Extent | src/lib.rs:25-30 | `extent` is `end - beginning` when `beginning <= end` and 0 otherwise |
| Flash.ExtentIsAligned | src/lib.rs:24-30 | the extent between two erasable locations is a whole number of blocks and fits a `u32` |
| Flash.Advance | src/lib.rs:31-38 | `advance` succeeds iff the amount is a multiple of `B` and the sum fits a `u32`; the result is the sum and is still erasable; every failure, overflow included, is `Alignment` |
| Flash.AdvanceByExtent | src/lib.rs:25-38 | advancing by the extent to a later location lands exactly on it |
| Flash.ExtentOfAdvance | src/lib.rs:25-38 | the extent from a location to its successful advance is the amount advanced by |
| Flash.GrowToErasableBlock | src/lib.rs:67-78 | the new beginning is the largest multiple of `B` at or below `beginning`; the new end is the smallest multiple at or above `end`; both are within one block of the input, so the grown interval contains the original |
| Flash.GrowIdempotent | src/lib.rs:67-78 | growing an already grown interval returns it unchanged |
| Ranges.AddRoundUp | src/allocators.rs:68 | assumed contract: a result is a location at least `amount` past `loc` and less than one block further; `None` only within one block of `usize::MAX` |
| Ranges.AddRoundUpIsLeast | src/allocators.rs:68 | assumed contract: a result is the first block boundary at least `amount` past `loc` |
| Ranges.AddRoundUpNoneIff | src/allocators.rs:68 | assumed contract: `add_round_up` fails exactly when no block boundary lies in `[loc + amount, usize::MAX]` |
| Ranges.RangeSize | src/allocators.rs:41 | assumed contract: `size` is `end - start` for a well-ordered range and 0 otherwise |
| Ranges.SplitRoundUp | src/allocators.rs:23-25 | assumed contract: a prefix is carved iff `align_up(n)` exists and is at most the range's size; the prefix starts at `start`, has `align_up(n) >= n` bytes and ends where the remainder begins; on failure the range is unchanged |
| Ranges.SplitTiles | src/allocators.rs:23-25 | the carved prefix and the remainder are disjoint, together hold exactly the original addresses, and their sizes add up to the original size |
| Arena.TryNew | src/allocators.rs:15-27 | succeeds iff `efh_start <= end` and `efh_start + align_up(efh_size)` exists within the arena; otherwise the error is `Size`; the low pool is `[0, efh_start)`, the reserved range is `[efh_start, efh_start + align_up(efh_size))`, the high pool is the rest; the `a.end == efh_start` assertion always holds |
| Arena.TryNewTilesArena | src/allocators.rs:22-26 | the low pool, reserved range and high pool are contiguous and pairwise disjoint, and together they are exactly the arena |
| Arena.Intersect | src/allocators.rs:52-64 | the test helper returns the non-empty set of shared addresses, or `None` exactly when no address is shared |
| Arena.DisjointIffNoIntersection | src/allocators.rs:52-64 | `intersect(a, b).is_none()` is exactly "no shared address" |
| Arena.AllocRoundUp | src/allocators.rs:32-38 | the low pool serves the request whenever it fits and then becomes `[taken.end, low.end)` while the high pool stays as it was; otherwise the low pool is unchanged and the high pool is tried, becoming `[taken.end, high.end)` when it serves; `None` comes back iff neither pool fits, and the allocator is then unchanged; a result is aligned, has at least the requested size, lies in one pool, and misses the reserved range and both remaining pools; the allocator invariant is kept |
| Arena.AllocRoundUpConserves | src/allocators.rs:34-38 | one request loses no address: an address of the old pools lies in a new pool or in the returned range, and conversely |
| Arena.MaxContiguousCapacity | src/allocators.rs:40-42 | the capacity is the size of one of the pools and at least the size of each |
| Arena.AllocSucceedsIffWithinCapacity | src/allocators.rs:34-42 | a request succeeds iff its rounded-up size is at most the capacity; a request larger than the capacity gets `None` |
| Arena.AllocManyShrinks | src/allocators.rs:34-38 | over any sequence of requests the reserved range stays put and each pool only shrinks, keeping the invariant |
| Arena.AllocManyHandedOut | src/allocators.rs:34-38 | every range returned over a sequence of requests is aligned, at least its request, inside an original pool, and disjoint from the reserved range and the final pools |
| Arena.AllocManyDisjoint | src/allocators.rs:34-38 | no two ranges returned over a sequence of requests overlap |
| Arena.AllocManyConserves | src/allocators.rs:34-38 | over any sequence of requests, an address lies in one of the original pools iff it lies in one of the current pools or in a returned range |
| AllocatorTests.FixtureBounds | src/allocators.rs:66-81 | the fixtures' `add_round_up(0x4_0000)` from 0 and `add_round_up(0x200)` from `0x2_0000` give `0x4_0000` and `0x2_1000`: the medium is `[0, 0x4_0000)` and the reserved range is one 4 KiB block |
| AllocatorTests.Fixture | src/allocators.rs:66-81 | the test allocator has low pool `[0, 0x2_0000)`, reserved range `[0x2_0000, 0x2_1000)` and high pool `[0x2_1000, 0x4_0000)` |
| AllocatorTests.TestAllocator1 | src/allocators.rs:83-93 | requests 42 and 100 get `[0, 0x1000)` and `[0x1000, 0x2000)`; they are disjoint, miss the reserved range and end below `0x2_0000` |
| AllocatorTests.TestAllocator2 | src/allocators.rs:95-105 | request `0x2_0000` empties the low pool, and 100 then gets `[0x2_1000, 0x2_2000)` from the high pool, ending below `0x4_0000` |
| AllocatorTests.TestAllocator3 | src/allocators.rs:107-118 | request `0x1_fff8` rounds up to the whole low pool, and 100 then gets a range starting above `0x2_0000` and ending below `0x4_0000` |

## Left out

- `FlashRead::read_exact`, `FlashRead::read_erasable_block`, `FlashWrite::erase_block` and `FlashWrite::erase_and_write_block` (src/lib.rs:59-66) are left out. They are abstract I/O against a storage backend that is not part of this model.
- The `FlashImage` test fixture and its write/read round-trip test (src/lib.rs:81-151) are left out. They are byte-buffer plumbing behind those I/O methods.
- The block-by-block `write` loop of the newer crate is not part of this model.
- `Location::try_new`, `Location::add`, `Range::new` and the `Allocator` trait declaration of the newer crate root are not part of this model. `Ranges` keeps only the contract the allocator relies on: aligned locations, valid ranges, `add_round_up`, `split_round_up` and `size`.
- The const-generic and `ConstParamTy` machinery (src/block.rs:1, src/block.rs:5) is replaced by an explicit block-size parameter. Mixing block sizes is therefore not excluded by a type. Instead, each operation is stated for a single given size.
- The `Debug` derives are left out: they format values and state nothing about them.
- The fatal assertions (`arena.start == 0`, `start <= end`) and the panicking `unwrap`s of `grow_to_erasable_block` are preconditions. The model does not represent the panic as a value.
- `usize` is taken to be 64 bits wide. On a 32-bit target, `USIZE_MAX` would be `U32_MAX` and nothing else would change.
