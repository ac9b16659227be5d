/** The erase-block sizes of a flash medium (`block::Size`) and the
    alignment arithmetic on them. Alignment means "multiple of the size":
    40 KiB and 60 KiB are legal sizes, so nothing here relies on powers of
    two. */
module Block {
  import opened Wrappers
  import opened Multiples

  const KIB: nat := 1024

  /** The closed set of erase-block sizes, 4 KiB to 64 KiB in 4 KiB steps. */
  datatype Size =
    | B4K | B8K | B12K | B16K | B20K | B24K | B28K | B32K
    | B36K | B40K | B44K | B48K | B52K | B56K | B60K | B64K

  /** `From<Size> for usize`: the size in bytes (the enum's discriminant).
      Every size is a positive multiple of 4 KiB, at most 64 KiB. */
  function ToUsize(s: Size): (n: nat)
    ensures IsMultiple(n, 4 * KIB)
    ensures 4 * KIB <= n <= 64 * KIB
  {
    match s
    case B4K => 4 * KIB
    case B8K => 8 * KIB
    case B12K => 12 * KIB
    case B16K => 16 * KIB
    case B20K => 20 * KIB
    case B24K => 24 * KIB
    case B28K => 28 * KIB
    case B32K => 32 * KIB
    case B36K => 36 * KIB
    case B40K => 40 * KIB
    case B44K => 44 * KIB
    case B48K => 48 * KIB
    case B52K => 52 * KIB
    case B56K => 56 * KIB
    case B60K => 60 * KIB
    case B64K => 64 * KIB
  }

  /** `Size::align_up`: `n.checked_next_multiple_of(size)`. A result is a
      multiple of the size, at least `n` and less than one block above it;
      `None` is only possible for an unaligned `n` within one block of
      `usize::MAX`. */
  function AlignUp(s: Size, n: nat): (r: Option<nat>)
    requires n <= USIZE_MAX
    ensures r.Some? ==> r.value <= USIZE_MAX && IsMultiple(r.value, ToUsize(s))
    ensures r.Some? ==> n <= r.value && r.value - n < ToUsize(s)
    ensures r.None? ==> !IsMultiple(n, ToUsize(s)) && USIZE_MAX < n + ToUsize(s)
  {
    CheckedNextMultipleOf(n, ToUsize(s), USIZE_MAX)
  }

  /** `align_up(n)` is the smallest multiple of the size that is at least
      `n`. */
  lemma AlignUpIsLeast(s: Size, n: nat)
    requires n <= USIZE_MAX && AlignUp(s, n).Some?
    ensures LeastMultipleAtLeast(AlignUp(s, n).value, n, ToUsize(s))
  {
    CheckedNextMultipleOfIsLeast(n, ToUsize(s), USIZE_MAX);
  }

  /** `align_up(n)` overflows exactly when no multiple of the size lies in
      `[n, usize::MAX]`. */
  lemma AlignUpNoneIff(s: Size, n: nat)
    requires n <= USIZE_MAX
    ensures AlignUp(s, n).None? <==> forall k: nat :: n <= k <= USIZE_MAX ==> !IsMultiple(k, ToUsize(s))
  {
    CheckedNextMultipleOfNoneIff(n, ToUsize(s), USIZE_MAX);
  }

  /** `Size::is_aligned`: true when `align_up` leaves `n` where it is. */
  function IsAligned(s: Size, n: nat): (r: bool)
    requires n <= USIZE_MAX
    ensures r <==> IsMultiple(n, ToUsize(s))
  {
    match AlignUp(s, n)
    case Some(nn) => nn == n
    case None => false
  }

  /** An aligned value never takes the overflow branch of `align_up`: it
      comes back unchanged. */
  lemma AlignUpOfAligned(s: Size, n: nat)
    requires n <= USIZE_MAX && IsMultiple(n, ToUsize(s))
    ensures AlignUp(s, n) == Some(n)
  {
    AlignUpIsLeast(s, n);
  }

  /** Aligning twice is aligning once. */
  lemma AlignUpIdempotent(s: Size, n: nat)
    requires n <= USIZE_MAX && AlignUp(s, n).Some?
    ensures AlignUp(s, AlignUp(s, n).value) == AlignUp(s, n)
  {
    AlignUpOfAligned(s, AlignUp(s, n).value);
  }

  /** The unit-test expectations for 4 KiB blocks. */
  lemma AlignUpExamples()
    ensures AlignUp(B4K, 0) == Some(0)
    ensures AlignUp(B4K, 1) == Some(4096)
    ensures AlignUp(B4K, 4096) == Some(4096)
    ensures IsAligned(B4K, 0) && IsAligned(B4K, 4096) && IsAligned(B4K, 8192)
    ensures !IsAligned(B4K, 1)
  {
  }

  /** `Size::try_from_block_size`: the block-size code of the platform's
      flash descriptor. Code 0 stands for 64 KiB, codes 1 to 15 for that
      many times 4 KiB, and every other code is invalid. */
  function TryFromBlockSize(code: nat): (r: Option<Size>)
    requires code <= U32_MAX
    ensures code == 0 ==> r == Some(B64K) && ToUsize(r.value) == 64 * KIB
    ensures 1 <= code <= 15 ==> r.Some? && ToUsize(r.value) == code * 4 * KIB
    ensures r.None? <==> code >= 16
  {
    match code
    case 0 => Some(B64K)
    case 1 => Some(B4K)
    case 2 => Some(B8K)
    case 3 => Some(B12K)
    case 4 => Some(B16K)
    case 5 => Some(B20K)
    case 6 => Some(B24K)
    case 7 => Some(B28K)
    case 8 => Some(B32K)
    case 9 => Some(B36K)
    case 10 => Some(B40K)
    case 11 => Some(B44K)
    case 12 => Some(B48K)
    case 13 => Some(B52K)
    case 14 => Some(B56K)
    case 15 => Some(B60K)
    case _ => None
  }

  /** The 16 valid codes name 16 different sizes ... */
  lemma BlockSizeCodesDistinct(c1: nat, c2: nat)
    requires c1 < 16 && c2 < 16 && c1 != c2
    ensures TryFromBlockSize(c1) != TryFromBlockSize(c2)
  {
  }

  /** ... and every size has a code, so the table is a bijection between
      the codes 0 to 15 and the sizes. */
  lemma EverySizeHasCode(s: Size)
    ensures exists c: nat :: c < 16 && TryFromBlockSize(c) == Some(s)
  {
    var c: nat := if s == B64K then 0 else ToUsize(s) / (4 * KIB);
    assert TryFromBlockSize(c) == Some(s);
  }
}
