/** src/allocators/block_allocator.c: blocks of one size, with a bit for each of them. */
module BlockAllocator {
  import opened Arithmetic
  import opened MachineIntegers
  import opened AllocatorInternals
  import opened BlockBits

  const GUARD: bv8 := GUARD_PATTERN as bv8

  /** What address_to_offset returns for an address that is not its own. */
  const NIL: int := -1

  /** How the memory of an allocator is divided: states first, then `count` blocks of `size` bytes each. */
  datatype Shape = Shape(align: nat, guard: nat, size: u32, count: u32) {
    ghost predicate Valid() {
      Divides(align, U64_LIMIT) && Divides(align, guard) && Divides(align, size) && 2 * guard + align <= size
    }

    function Start(): nat
      requires align > 0
    {
      CounterBytes(align, count)
    }

    /** block_offset */
    function Offset(i: nat): (o: nat)
      requires align > 0
      ensures o >= Start()
    {
      MulMonotone(0, i, 0, size);
      Start() + i * size
    }

    /** Offset of the memory that the user of block `i` gets. */
    function UserOffset(i: nat): nat
      requires align > 0
    {
      Offset(i) + guard
    }

    /** The offset belongs to a guard of block `i`. */
    ghost predicate InGuards(i: nat, o: nat)
      requires align > 0
    {
      Offset(i) <= o < Offset(i) + guard || Offset(i) + size - guard <= o < Offset(i) + size
    }
  }

  /** Where the bytes of a block lie. */
  lemma OffsetIs(s: Shape, i: nat)
    requires s.align > 0
    ensures s.Offset(i) == s.Start() + i * s.size
  {
  }

  ghost predicate GuardsIntact(mem: seq<bv8>, s: Shape, i: nat)
    requires s.align > 0
  {
    forall o | 0 <= o < |mem| && s.InGuards(i, o) :: mem[o] == GUARD
  }

  /** Guards are intact if the first and the last bytes of the block are 0xCC. */
  lemma GuardBytes(mem: seq<bv8>, s: Shape, i: nat)
    requires s.align > 0 && s.Start() + i * s.size + s.size <= |mem| && 2 * s.guard <= s.size
    ensures var start := s.Start() + i * s.size;
      GuardsIntact(mem, s, i) <==>
        && (forall o: nat | start <= o < start + s.guard :: mem[o] == 0xCC)
        && (forall o: nat | start + s.size - s.guard <= o < start + s.size :: mem[o] == 0xCC)
  {
    hide Shape.Offset;
    OffsetIs(s, i);
    var start := s.Start() + i * s.size;
    if GuardsIntact(mem, s, i) {
      assert forall o: nat | start <= o < start + s.guard || start + s.size - s.guard <= o < start + s.size ::
        s.InGuards(i, o);
    }
  }

  /** Blocks do not overlap, and each starts aligned behind the states and ends before the end of them all. */
  lemma BlocksAreApart(s: Shape, i: nat, j: nat)
    requires s.Valid() && i < s.count
    ensures i < j ==> s.Offset(i) + s.size <= s.Offset(j)
    ensures s.Offset(i) + s.size <= s.Offset(s.count)
    ensures Divides(s.align, s.Offset(i)) && Divides(s.align, s.UserOffset(i))
  {
    ProductFalls(i, s.count, s.size);
    if i < j {
      ProductFalls(i, j, s.size);
    }
    CountersSuffice(s.align, s.count);
    DivisorOfProduct(s.align, s.size, i);
    MultiplesAdd(s.Start(), i * s.size, s.align);
    MultiplesAdd(s.Offset(i), s.guard, s.align);
  }

  lemma DivisorOfProduct(d: nat, x: nat, i: nat)
    requires Divides(d, x)
    ensures Divides(d, i * x)
  {
    var k := x / d;
    assert i * x == (i * k) * d by {
      assert x == k * d;
      MulAssociative(i, k, d);
    }
    MultipleHasNoRemainder(i * k, d);
  }

  /** The index of a block can be computed from the offset of its memory, and only from such offsets. */
  lemma IndexFromOffset(s: Shape, o: nat)
    requires s.Valid() && s.Start() + s.guard <= o < s.Offset(s.count)
    ensures var x := o - s.Start() - s.guard;
      && (forall i: nat | o == s.UserOffset(i) :: x % s.size == 0 && x / s.size == i)
      && (x % s.size == 0 ==> x / s.size < s.count && o == s.UserOffset(x / s.size))
      && 0 <= x / s.size < s.count
  {
    var x := o - s.Start() - s.guard;
    forall i: nat | o == s.UserOffset(i) ensures x % s.size == 0 && x / s.size == i {
      MultipleHasNoRemainder(i, s.size);
    }
    DivideAndMultiply(x, s.size);
    ProductOrder(x / s.size, s.count, s.size);
  }

  /** memset with the guard pattern. */
  method FillGuard(memory: array<bv8>, start: nat, length: nat)
    requires start + length <= memory.Length
    modifies memory
    ensures forall o | 0 <= o < memory.Length ::
        memory[o] == if start <= o < start + length then GUARD else old(memory[o])
  {
    for k := 0 to length
      invariant forall o | 0 <= o < memory.Length ::
          memory[o] == if start <= o < start + k then GUARD else old(memory[o])
    {
      memory[start + k] := GUARD;
    }
  }

  /** A byte of states with one of them changed. */
  function ChangedState(b: bv8, j: nat, inUse: bool): (r: bv8)
    requires j < 8
    ensures OneBitIs(b, r, j, inUse)
  {
    SettingSets(b, j);
    if inUse then b | Mask(j) else b & !Mask(j)
  }

  class Allocator {
    const shape: Shape
    // the address at which the memory starts
    const base: nat
    const memory: array<bv8>
    ghost var used: set<nat>

    ghost predicate Valid()
      reads this, memory
    {
      && shape.Valid() && shape.Offset(shape.count) <= memory.Length && shape.count >= 1
      && Records(memory[..], shape.Start(), shape.count, used)
    }

    /** No user has written outside of its own memory. */
    ghost predicate Guarded()
      requires shape.align > 0
      reads this, memory
    {
      forall i | i in used :: GuardsIntact(memory[..], shape, i)
    }

    function AddressOf(i: nat): nat
      requires shape.align > 0
    {
      base + shape.UserOffset(i)
    }

    /** The part of cutl_allocator_block_create that fills in the allocator and clears its states. */
    constructor (shape: Shape, base: nat, memory: array<bv8>, bytes: nat)
      requires shape.Valid() && shape.Offset(shape.count) <= memory.Length && shape.count >= 1
      requires shape.Start() <= bytes <= memory.Length
      modifies memory
      ensures this.shape == shape && this.base == base && this.memory == memory
      ensures Valid() && used == {} && Guarded()
      ensures forall o | bytes <= o < memory.Length :: memory[o] == old(memory[o])
    {
      this.shape, this.base, this.memory, used := shape, base, memory, {};
      new;
      hide Records, Shape.Offset, CounterBytes;
      for k := 0 to bytes
        invariant used == {}
        invariant forall o | 0 <= o < memory.Length :: memory[o] == if o < k then 0 else old(memory[o])
      {
        memory[k] := 0;
      }
      CountersSuffice(shape.align, shape.count);
      ClearedStates(memory[..], shape.Start(), shape.count);
    }

    /** block_get_state */
    method GetState(i: u32) returns (inUse: bool)
      requires Valid() && i < shape.count
      ensures inUse <==> i in used
    {
      RecordsSay(memory[..], shape.Start(), shape.count, used, i);
      inUse := memory[i / 8] & Mask(i % 8) != 0;
    }

    /** block_set_state, under the assertions it makes. */
    method SetState(i: u32, inUse: bool)
      requires Valid() && i < shape.count && (i in used <==> !inUse)
      modifies this, memory
      ensures Valid() && used == if inUse then old(used) + {i} else old(used) - {i}
      ensures forall o | shape.Start() <= o < memory.Length :: memory[o] == old(memory[o])
      ensures forall k | k in used && old(GuardsIntact(memory[..], shape, k)) :: GuardsIntact(memory[..], shape, k)
    {
      hide Records, IsSet, Mask, Shape.Offset, CounterBytes, OneBitIs;
      ghost var mem := memory[..];
      RecordsSay(mem, shape.Start(), shape.count, used, i);
      var state := ChangedState(memory[i / 8], i % 8, inUse);
      StateIsRecorded(mem, shape.Start(), shape.count, used, i, state, inUse);
      memory[i / 8] := state;
      assert memory[..] == mem[i / 8 := state];
      used := if inUse then used + {i} else used - {i};
      forall k | k in used && GuardsIntact(mem, shape, k) ensures GuardsIntact(memory[..], shape, k) {
        assert forall o | shape.Start() <= o < memory.Length :: memory[..][o] == mem[o];
      }
    }

    /** allocator_set_guards of a block. */
    method SetGuards(i: nat)
      requires Valid() && i < shape.count
      modifies memory
      ensures Valid() && GuardsIntact(memory[..], shape, i)
      ensures forall o | 0 <= o < memory.Length && !shape.InGuards(i, o) :: memory[o] == old(memory[o])
    {
      hide Records, Shape.Offset, CounterBytes;
      BlocksAreApart(shape, i, i);
      ghost var mem := memory[..];
      var block := shape.Offset(i);
      FillGuard(memory, block, shape.guard);
      FillGuard(memory, block + shape.size - shape.guard, shape.guard);
      OtherMemory(mem, memory[..], shape.Start(), shape.count, used);
    }

    /** allocator_check_guards of a block. */
    method CheckGuards(i: nat) returns (intact: bool)
      requires Valid() && i < shape.count
      ensures intact <==> GuardsIntact(memory[..], shape, i)
    {
      hide Records, Shape.Offset, CounterBytes;
      BlocksAreApart(shape, i, i);
      var block, last := shape.Offset(i), shape.Offset(i) + shape.size - 1;
      for k := 0 to shape.guard
        invariant forall o | block <= o < block + k :: memory[o] == GUARD
        invariant forall o | last - k < o <= last :: memory[o] == GUARD
      {
        if memory[block + k] == GUARD && memory[last - k] == GUARD {
          continue;
        }
        assert shape.InGuards(i, block + k) && shape.InGuards(i, last - k);
        return false;
      }
      return true;
    }

    lemma StatesAreThere()
      requires Valid()
      ensures shape.align > 0 && shape.Start() <= memory.Length && shape.count <= 8 * shape.Start()
    {
    }

    /** Every block is in use, or there are so many that the number of bytes to look at wraps around to zero. */
    ghost predicate Exhausted()
      reads this
    {
      (forall i | 0 <= i < shape.count :: i in used) || shape.count + 7 >= U32_LIMIT
    }

    /**
     * The search of cutl_allocator_block_allocate for the lowest clear bit. It looks at no byte at all if the number
     * of bytes wraps around to zero.
     */
    method FindFree() returns (found: bool, i: nat)
      requires Valid()
      ensures found <==> !Exhausted()
      ensures !found <==> (forall j | 0 <= j < shape.count :: j in used) || shape.count + 7 >= 0x1_0000_0000
      ensures found ==> i < shape.count && i !in used && forall j | 0 <= j < i :: j in used
    {
      hide IsSet, Mask, CounterBytes, Shape.Offset, Records, Shape.Valid;
      StatesAreThere();
      ghost var start := shape.Start();
      var units := Wrap32(shape.count + 7) / 8;
      var unit := 0;
      while unit < units
        invariant unit <= units
        invariant forall j | 0 <= j < 8 * unit :: j in used
      {
        LowestInByte(memory[..], start, shape.count, used, unit);
        if memory[unit] != 255 {
          i := unit * 8 + LowestClear(memory[unit]);
          found := i < shape.count;
          return;
        }
        unit := unit + 1;
      }
      found, i := false, 0;
    }

    /**
     * cutl_allocator_block_allocate: the lowest free block, with its guards set. It fails exactly if the allocator is
     * exhausted.
     */
    method Allocate() returns (res: Outcome, address: nat, ghost i: nat)
      requires Valid()
      modifies this, memory
      ensures Valid() && (old(Guarded()) ==> Guarded())
      ensures res == if old(Exhausted()) then OutOfMemory else Success
      ensures res == OutOfMemory <==>
          (forall j | 0 <= j < shape.count :: j in old(used)) || shape.count + 7 >= 0x1_0000_0000
      ensures res != Success ==> used == old(used) && memory[..] == old(memory[..])
      ensures res == Success ==>
        && i < shape.count && i !in old(used) && (forall j | 0 <= j < i :: j in old(used))
        && used == old(used) + {i} && address == AddressOf(i)
        && address == base + (shape.Start() + i * shape.size) + shape.guard
        && GuardsIntact(memory[..], shape, i)
        && forall o | shape.Start() <= o < memory.Length && !shape.InGuards(i, o) :: memory[o] == old(memory[o])
    {
      hide Records, CounterBytes, Shape.Offset;
      address, i := 0, 0;
      var found, k := FindFree();
      if !found {
        return OutOfMemory, 0, 0;
      }
      i := k;
      SetState(k, true);
      ghost var mem := memory[..];
      SetGuards(k);
      GuardsStayApart(mem, memory[..], k);
      address := base + (shape.Offset(k) + shape.guard);
      OffsetIs(shape, k);
      res := Success;
    }

    /** What changes in the guards of one block does not touch those of another. */
    lemma GuardsStayApart(mem: seq<bv8>, mem': seq<bv8>, i: nat)
      requires Valid() && i < shape.count && |mem'| == |mem|
      requires forall o | 0 <= o < |mem| && !shape.InGuards(i, o) :: mem'[o] == mem[o]
      ensures forall k | k in used && k != i && GuardsIntact(mem, shape, k) :: GuardsIntact(mem', shape, k)
    {
      hide Records, CounterBytes, Shape.Offset;
      forall k | k in used && k != i && GuardsIntact(mem, shape, k) ensures GuardsIntact(mem', shape, k) {
        UsedIsBelow(k);
        BlocksAreApart(shape, i, k);
        BlocksAreApart(shape, k, i);
      }
    }

    lemma UsedIsBelow(k: nat)
      requires Valid() && k in used
      ensures k < shape.count
    {
    }

    /** The address lies where the memory of some user could be. */
    predicate Owns(address: nat)
      requires shape.align > 0
    {
      base + shape.Start() + shape.guard <= address < base + shape.Offset(shape.count)
    }

    /** address_to_offset: the distance from the first block, or NIL outside of all blocks. */
    function AddressToOffset(address: nat): int
      requires shape.align > 0
    {
      if address < base + shape.Start() || address >= base + shape.Offset(shape.count) then NIL
      else address - (base + shape.Start())
    }

    /**
     * cutl_allocator_block_deallocate, under its assertion that the block is in use. An address that is that of a
     * block with intact guards frees this block and no other; any other address is reported and changes nothing.
     */
    method Deallocate(address: nat) returns (res: Outcome, ghost i: nat)
      requires Valid() && forall k | 0 <= k < shape.count && address == AddressOf(k) :: k in used
      modifies this, memory
      ensures Valid() && (old(Guarded()) ==> Guarded())
      ensures res == Success || res == MismatchedAllocator || res == CorruptedPointer
      ensures res == MismatchedAllocator <==> !Owns(address)
      ensures res == MismatchedAllocator <==>
          !(base + shape.Start() + shape.guard <= address < base + (shape.Start() + shape.count * shape.size))
      ensures forall k | 0 <= k < shape.count && address == AddressOf(k) && old(GuardsIntact(memory[..], shape, k)) ::
          res == Success && i == k
      ensures res == Success ==>
        && i < shape.count && address == AddressOf(i) && old(GuardsIntact(memory[..], shape, i))
        && i in old(used) && used == old(used) - {i}
        && forall o | shape.Start() <= o < memory.Length :: memory[o] == old(memory[o])
      ensures res != Success ==> used == old(used) && memory[..] == old(memory[..])
    {
      hide Records, CounterBytes, GuardsIntact;
      i := 0;
      OwnAddresses();
      OffsetIs(shape, shape.count);
      var offset := AddressToOffset(address);
      if offset == NIL || offset < shape.guard {
        return MismatchedAllocator, 0;
      }
      IndexFromOffset(shape, address - base);
      hide Shape.Offset;
      offset := offset - shape.guard;
      if offset % shape.size != 0 {
        return CorruptedPointer, 0;
      }
      var k := offset / shape.size;
      var intact := CheckGuards(k);
      if !intact {
        return CorruptedPointer, 0;
      }
      SetState(k, false);
      i := k;
      res := Success;
    }

    /** The addresses of all blocks are among those the allocator owns. */
    lemma OwnAddresses()
      requires Valid()
      ensures forall k | 0 <= k < shape.count :: Owns(AddressOf(k))
    {
      forall k | 0 <= k < shape.count ensures Owns(AddressOf(k)) {
        BlocksAreApart(shape, k, k);
        if k > 0 {
          BlocksAreApart(shape, 0, k);
        }
      }
    }

    /**
     * cutl_allocator_block_reallocate: a block stays where it is if the size fits into it. The test of the size takes
     * those for small that wrap around when they are rounded up.
     */
    method Reallocate(address: nat, size: u64) returns (res: Outcome, moved: nat, ghost i: nat)
      requires Valid()
      ensures res == MismatchedAllocator <==> !Owns(address)
      ensures res == MismatchedAllocator <==>
          !(base + shape.Start() + shape.guard <= address < base + (shape.Start() + shape.count * shape.size))
      ensures Owns(address) ==> i == (address - base - shape.Start() - shape.guard) / shape.size < shape.count
      ensures Owns(address) ==> (res == CorruptedPointer <==> !GuardsIntact(memory[..], shape, i))
      ensures Owns(address) && GuardsIntact(memory[..], shape, i) ==>
        res == if size + 2 * shape.guard <= shape.size || RoundUp(size, shape.align) + 2 * shape.guard >= U64_LIMIT
               then Success else OutOfMemory
      ensures res == Success ==> moved == address
    {
      hide Records, CounterBytes, GuardsIntact;
      i, moved := 0, 0;
      OffsetIs(shape, shape.count);
      var offset := AddressToOffset(address);
      if offset == NIL || offset < shape.guard {
        return MismatchedAllocator, 0, 0;
      }
      IndexFromOffset(shape, address - base);
      hide Shape.Offset;
      var k := (offset - shape.guard) / shape.size;
      i := k;
      var intact := CheckGuards(k);
      if !intact {
        return CorruptedPointer, 0, i;
      }
      SizeTestIsExact(shape, size);
      if WrappedBlockSize(shape, size) > shape.size {
        return OutOfMemory, 0, i;
      }
      res, moved := Success, address;
    }

    /** A user writes into its own memory. */
    method ClientWrite(i: nat, o: nat, byte: bv8)
      requires Valid() && i in used && o < shape.size - 2 * shape.guard
      modifies memory
      ensures Valid() && (old(Guarded()) ==> Guarded())
      ensures shape.UserOffset(i) + o < memory.Length
      ensures memory[..] == old(memory[..])[shape.UserOffset(i) + o := byte]
    {
      hide Records, CounterBytes, Shape.Offset;
      UsedIsBelow(i);
      BlocksAreApart(shape, i, i);
      ghost var mem, at := memory[..], shape.UserOffset(i) + o;
      memory[shape.UserOffset(i) + o] := byte;
      OtherMemory(mem, memory[..], shape.Start(), shape.count, used);
      forall k | k in used && GuardsIntact(mem, shape, k) ensures GuardsIntact(memory[..], shape, k) {
        UsedIsBelow(k);
        BlocksAreApart(shape, i, k);
        BlocksAreApart(shape, k, i);
      }
    }
  }

  /** allocator_block_size, with sums that may wrap around. */
  function WrappedBlockSize(s: Shape, size: u64): u64
    requires s.align > 0
  {
    Wrap64(WrappedRoundUp(size, s.align) + 2 * s.guard)
  }

  lemma SizeTestIsExact(s: Shape, size: u64)
    requires s.Valid()
    ensures WrappedBlockSize(s, size) <= s.size <==>
        size + 2 * s.guard <= s.size || RoundUp(size, s.align) + 2 * s.guard >= U64_LIMIT
  {
    hide RoundUp, WrappedRoundUp, Wrap64;
    WrappedRoundUpIsExact(size, s.align);
    WrapOnce(WrappedRoundUp(size, s.align) + 2 * s.guard);
    MultiplesAdd(s.guard, s.guard, s.align);
    MultiplesAdd(s.size, 2 * s.guard, s.align);
    RoundUpIsLeastMultiple(size, s.align, if size + 2 * s.guard <= s.size then s.size - 2 * s.guard else size);
  }

  // ----- creation

  datatype CreateOutcome = Created | InsufficientAlignment | InsufficientBuffer

  /** The states taken off are no more than all but one of the estimated blocks. */
  lemma CreationFits(align: nat, useful: nat, size: nat)
    requires align > 0 && size >= align && useful >= 2 * size
    ensures CounterBytes(align, useful / size) + size <= useful
    ensures var count := (useful - CounterBytes(align, useful / size)) / size;
      && 1 <= count <= useful / size
      && CounterBytes(align, count) <= CounterBytes(align, useful / size)
      && CounterBytes(align, count) + count * size <= useful
  {
    hide CounterBytes;
    var n := useful / size;
    var c := CounterBytes(align, n);
    EstimateIsExact(useful, size);
    StatesAreSmall(align, n, size);
    EstimateLeavesRoom(useful, size, n, c);
    CountersGrow(align, (useful - c) / size, n);
  }

  lemma EstimateIsExact(useful: nat, size: nat)
    requires size >= 1 && useful >= 2 * size
    ensures var n := useful / size; n >= 2 && n * size <= useful < n * size + size
  {
    var n := useful / size;
    DivideAndMultiply(useful, size);
    if n < 2 {
      MulMonotone(n, 1, size, size);
    }
  }

  /** What is taken off is at most all but one of the estimated blocks. */
  lemma EstimateLeavesRoom(useful: nat, size: nat, n: nat, c: nat)
    requires size >= 1 && n * size <= useful < n * size + size && c <= (n - 1) * size
    ensures c + size <= useful
    ensures var count := (useful - c) / size; 1 <= count <= n && c + count * size <= useful
  {
    assert (n - 1) * size == n * size - size;
    var count := (useful - c) / size;
    DivideAndMultiply(useful - c, size);
    if count > n {
      ProductFalls(n, count, size);
    }
  }

  lemma StatesAreSmall(align: nat, n: nat, size: nat)
    requires align > 0 && size >= align && n >= 2
    ensures CounterBytes(align, n) <= (n - 1) * size
  {
    CountersSuffice(align, n);
    var k := (n + (8 * align - 1)) / (8 * align);
    assert 8 * ((k - 1) * align) == 8 * (k * align) - 8 * align;
    if k > 1 {
      MulMonotone(k - 1, k - 1, 1, align);
    }
    MulMonotone(k, n - 1, align, size);
  }

  /**
   * The number of blocks that cutl_allocator_block_create settles for, and the bytes it clears. The first estimate
   * leaves no room for the states; taking off the states it would need leaves room for at least one block, and for
   * the states of all blocks that fit then.
   */
  method ChooseCount(align: nat, useful: nat, size: nat) returns (bytes: nat, count: nat)
    requires align > 0 && size >= align && useful >= 2 * size
    ensures 1 <= count == (useful - CounterBytes(align, useful / size)) / size
    ensures CounterBytes(align, count) <= bytes <= useful && CounterBytes(align, count) + count * size <= useful
  {
    CreationFits(align, useful, size);
    bytes := CounterBytes(align, useful / size);
    count := (useful - bytes) / size;
  }

  /** If a buffer is large enough, the number of blocks that is stored fits its type. */
  ghost predicate CountFits(align: nat, useful: nat, size: nat)
    requires align > 0
  {
    1 <= size < U32_LIMIT && useful >= 2 * size ==> (useful - CounterBytes(align, useful / size)) / size < U32_LIMIT
  }

  /** allocator_is_aligned */
  predicate IsAligned(address: nat, align: nat)
    requires align > 0
    ensures IsAligned(address, align) <==> Divides(align, address)
  {
    address % align == 0
  }

  /** cutl_allocator_block_create in a buffer at `address` that starts with `header` bytes for the allocator itself. */
  method Create(align: nat, guard: nat, header: nat, address: nat, memory: array<bv8>, blockSize: u32)
    returns (res: CreateOutcome, a: Allocator?)
    requires Divides(align, U64_LIMIT) && Divides(align, guard) && Divides(align, header)
    requires 2 * guard + align + U32_LIMIT <= U64_LIMIT && memory.Length < U64_LIMIT && blockSize >= 1
    requires Divides(align, address) ==> CountFits(align, memory.Length, RoundUp(blockSize, align) + 2 * guard)
    modifies memory
    ensures res == InsufficientAlignment <==> !Divides(align, address)
    ensures res == InsufficientBuffer <==>
        var size := RoundUp(blockSize, align) + 2 * guard;
        Divides(align, address) && (size >= U32_LIMIT || memory.Length < 2 * size)
    ensures res != Created ==> memory[..] == old(memory[..])
    ensures res == Created ==>
      && a != null && fresh(a) && a.memory == memory && a.base == address + header && Divides(align, a.base)
      && a.shape.align == align && a.shape.guard == guard
      && a.shape.size == RoundUp(blockSize, align) + 2 * guard && a.shape.count >= 1
      && a.shape.count ==
        (memory.Length - CounterBytes(align, memory.Length / a.shape.size)) / a.shape.size
      && a.Valid() && a.used == {} && a.Guarded()
  {
    hide RoundUp, CounterBytes, Records, Shape.Offset, IsAligned, Divides, Shape.Valid, Allocator.Valid;
    DivisorIsPositive(align, guard);
    a := null;
    if !IsAligned(address, align) {
      return InsufficientAlignment, null;
    }
    var total := TotalBlockSize(align, guard, blockSize);
    if total >= U32_LIMIT {
      return InsufficientBuffer, null;
    }
    var useful := memory.Length;
    if useful < 2 * total {
      return InsufficientBuffer, null;
    }
    var bytes, count := ChooseCount(align, useful, total);
    ShapeFits(Shape(align, guard, total, count), useful);
    MultiplesAdd(address, header, align);
    a := new Allocator(Shape(align, guard, total, count), address + header, memory, bytes);
    res := Created;
  }

  /** allocator_block_size of the requested size. */
  method TotalBlockSize(align: nat, guard: nat, blockSize: u32) returns (total: u64)
    requires Divides(align, U64_LIMIT) && Divides(align, guard) && blockSize >= 1
    requires 2 * guard + align + U32_LIMIT <= U64_LIMIT
    ensures total == RoundUp(blockSize, align) + 2 * guard >= 2 * guard + align && Divides(align, total)
  {
    hide RoundUp, WrappedRoundUp, Wrap64;
    WrappedRoundUpIsExact(blockSize, align);
    RoundUpIsLeastMultiple(blockSize, align, 0);
    LeastMultipleIsPositive(blockSize, align);
    WrapOnce(RoundUp(blockSize, align) + 2 * guard);
    MultiplesAdd(guard, guard, align);
    MultiplesAdd(RoundUp(blockSize, align), 2 * guard, align);
    total := Wrap64(WrappedRoundUp(blockSize, align) + 2 * guard);
  }

  lemma ShapeFits(s: Shape, useful: nat)
    requires Divides(s.align, U64_LIMIT) && Divides(s.align, s.guard) && Divides(s.align, s.size)
    requires 2 * s.guard + s.align <= s.size
    requires CounterBytes(s.align, s.count) + s.count * s.size <= useful
    ensures s.Valid() && s.align > 0 && s.Offset(s.count) <= useful
    ensures s.Start() == CounterBytes(s.align, s.count)
  {
  }

  lemma DivisorIsPositive(d: nat, x: nat)
    requires Divides(d, x)
    ensures d > 0
  {
  }

  lemma LeastMultipleIsPositive(size: nat, align: nat)
    requires align > 0 && size >= 1
    ensures RoundUp(size, align) >= align
  {
    RoundUpIsLeastMultiple(size, align, 0);
    var q := (size + (align - 1)) / align;
    if q * align < align {
      ProductOrder(q, 1, align);
    }
  }

  // ----- where sums wrap around

  /** The bytes of a buffer in which the code settles for 2^32 - 1 blocks of 16 bytes, with states in units of 16. */
  const LARGE_BUFFER: nat := 69260574976

  lemma LargeBufferCounts()
    ensures CountFits(16, LARGE_BUFFER, 16) && LARGE_BUFFER < U64_LIMIT
    ensures (LARGE_BUFFER - CounterBytes(16, LARGE_BUFFER / 16)) / 16 == U32_LIMIT - 1
  {
    assert LARGE_BUFFER / 16 == 4328785936;
    assert CounterBytes(16, 4328785936) == 541098256;
  }

  lemma SixteenBytes()
    ensures Divides(16, U64_LIMIT) && Divides(16, 0) && RoundUp(16, 16) == 16
  {
    RoundUpIsLeastMultiple(16, 16, 16);
  }

  /**
   * An allocator whose first block is asked for in vain: it is created in a large enough buffer, with more than
   * 2^32 - 8 blocks, none of them in use, and finds no free one.
   */
  method ExhaustedFromTheStart() returns (created: CreateOutcome, res: Outcome)
    ensures created == Created && res == OutOfMemory
  {
    hide RoundUp, CounterBytes, Divides, CountFits, Allocator.Valid, Allocator.Guarded;
    LargeBufferCounts();
    SixteenBytes();
    var memory := new bv8[LARGE_BUFFER];
    var a;
    created, a := Create(16, 0, 0, 0, memory, 16);
    assert a.Exhausted() && a.used == {};
    ghost var address, i;
    res, address, i := a.Allocate();
  }

  /** A size that `reallocate` takes for small in every allocator with an alignment. */
  lemma HugeSizeLooksSmall(s: Shape)
    requires s.Valid() && s.align >= 2
    ensures WrappedBlockSize(s, U64_LIMIT - 1) <= s.size < U64_LIMIT - 1
  {
    hide RoundUp, WrappedBlockSize;
    SizeTestIsExact(s, U64_LIMIT - 1);
    RoundUpIsLeastMultiple(U64_LIMIT - 1, s.align, 0);
    NotAMultiple(s.align);
  }

  lemma NotAMultiple(align: nat)
    requires align >= 2 && Divides(align, U64_LIMIT)
    ensures !Divides(align, U64_LIMIT - 1)
  {
    if Divides(align, U64_LIMIT - 1) {
      MultiplesAdd(U64_LIMIT, U64_LIMIT - 1, align);
    }
  }
}
