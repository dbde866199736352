/** src/allocators/allocator_internal.h: rounding to the alignment, guards, and the results allocators report. */
module AllocatorInternals {
  import opened Arithmetic
  import opened MachineIntegers

  datatype Outcome = Success | OutOfMemory | MismatchedAllocator | CorruptedPointer | DoubleDeallocation

  const GUARD_PATTERN: u8 := 0xCC

  /** The smallest multiple of `align` that is not below `size`. */
  function RoundUp(size: nat, align: nat): (r: int)
    requires align > 0
    ensures size <= r < size + align
  {
    DivideAndMultiply(size + (align - 1), align);
    (size + (align - 1)) / align * align
  }

  lemma RoundUpIsLeastMultiple(size: nat, align: nat, m: nat)
    requires align > 0
    ensures Divides(align, RoundUp(size, align))
    ensures size <= m && Divides(align, m) ==> RoundUp(size, align) <= m
  {
    var q := (size + (align - 1)) / align;
    MultipleHasNoRemainder(q, align);
    if size <= m && Divides(align, m) && m < q * align {
      assert m == m / align * align;
      ProductOrder(m / align, q, align);
    }
  }

  /** Adding a multiple of the alignment before or after rounding is the same. */
  lemma RoundUpShifts(size: nat, m: nat, align: nat)
    requires align > 0 && Divides(align, m)
    ensures RoundUp(size + m, align) == RoundUp(size, align) + m
  {
    RoundUpIsLeastMultiple(size, align, 0);
    MultiplesAdd(RoundUp(size, align), m, align);
    RoundUpIsLeastMultiple(size + m, align, RoundUp(size, align) + m);
    MultiplesAdd(RoundUp(size + m, align), m, align);
    RoundUpIsLeastMultiple(size, align, RoundUp(size + m, align) - m);
  }

  /** allocator_round_up as it is computed, with a sum that may wrap around. */
  function WrappedRoundUp(size: u64, align: nat): u64
    requires align > 0
  {
    DivideAndMultiply(Wrap64(size + (align - 1)), align);
    Wrap64(size + (align - 1)) / align * align
  }

  /** The rounding is exact unless its result does not fit, and then it comes out as zero. */
  lemma WrappedRoundUpIsExact(size: u64, align: nat)
    requires Divides(align, U64_LIMIT)
    ensures WrappedRoundUp(size, align) == if RoundUp(size, align) < U64_LIMIT then RoundUp(size, align) else 0
  {
    var x := size + (align - 1);
    var k := U64_LIMIT / align;
    assert k * align == U64_LIMIT;
    MulMonotone(1, k, align, align);
    DivideAndMultiply(x, align);
    if x >= U64_LIMIT {
      assert Wrap64(x) == x - U64_LIMIT < align;
      DivisionIsUnique(x - U64_LIMIT, 0, x - U64_LIMIT, align);
      if x / align * align < k * align {
        ProductOrder(x / align, k, align);
      }
    }
  }

  /** What a client holds once it has given back entry `h`. */
  function Without<T>(s: seq<T>, h: nat): seq<T>
    requires h < |s|
  {
    s[..h] + s[h + 1..]
  }
}
