/** src/allocators/stack_allocator.c */
module StackAllocator {
  import opened Arithmetic
  import opened MachineIntegers
  import opened AllocatorInternals
  import opened StackBlocks

  /** allocator_block_size(size + 2 * STACK_BLOCK_INFO_SIZE) as it is computed, with sums that may wrap around. */
  function WrappedTotal(l: Layout, size: u64): u64
    requires l.Valid()
  {
    Wrap64(WrappedRoundUp(Wrap64(size + 2 * l.info), l.align) + 2 * l.guard)
  }

  datatype PopVerdict = Corrupted | StillUsed | GoOn

  /** What the two info records of the block below say about popping on. */
  function VerdictOn(endInfo: Cell, startInfo: Cell): PopVerdict
    requires endInfo.Info? && startInfo.Info?
  {
    if endInfo.size != startInfo.size || endInfo.state != startInfo.state then Corrupted
    else if endInfo.state == Used then StillUsed
    else if endInfo.state != Free then Corrupted
    else GoOn
  }

  /** allocator_block_size(size) + 2 * STACK_BLOCK_INFO_SIZE, the same way. */
  function WrappedAdjusted(l: Layout, size: u64): u64
    requires l.Valid()
  {
    Wrap64(Wrap64(WrappedRoundUp(size, l.align) + 2 * l.guard) + 2 * l.info)
  }

  // ----- what the code decides, and when that is right

  /** The out-of-memory test of `allocate`, with sums that may wrap around. */
  predicate Accepts(l: Layout, capacity: nat, top: nat, size: u64)
    requires l.Valid()
  {
    Wrap64(top + WrappedTotal(l, size)) <= capacity
  }

  datatype Plan = Keep | Grow | Move | Refuse

  /** What `reallocate` does with block `b`, going by its own tests. */
  function PlanFor(l: Layout, capacity: nat, top: nat, b: Block, size: u64): Plan
    requires l.Valid()
  {
    if WrappedAdjusted(l, size) <= b.size then Keep
    else if top == End(b) then Grow
    else if Accepts(l, capacity, top, size) then Move
    else Refuse
  }

  /** The block that results holds the request and lies inside the stack; and nothing is refused that would fit. */
  ghost predicate Delivers(l: Layout, capacity: nat, top: nat, b: Block, size: u64, plan: Plan)
    requires l.Valid()
  {
    match plan
    case Keep => size + l.Overhead() <= b.size
    case Grow => b.start + l.TotalFor(size) <= capacity
    case Move => top + l.TotalFor(size) <= capacity
    case Refuse => top + l.TotalFor(size) > capacity
  }

  /** The size test is right for sums in range, and for those out of range that do not wrap around into the stack. */
  predicate SumIsHarmless(capacity: nat, sum: nat) {
    sum < U64_LIMIT || Wrap64(sum) > capacity
  }

  class Stack {
    const layout: Layout
    const data: array<Cell>
    var top: nat
    // the blocks from the bottom to the top
    ghost var blocks: seq<Block>

    ghost predicate Valid()
      reads this, data
    {
      Sound(layout, data[..], blocks) && top == EndOf(blocks)
    }

    /** Valid but for guards a client may have overwritten. */
    ghost predicate Consistent()
      reads this, data
    {
      Laid(layout, data[..], blocks) && top == EndOf(blocks)
    }

    lemma ValidIsConsistent()
      requires Valid()
      ensures Consistent() && layout.Valid()
    {
    }

    /** cutl_allocator_stack_create, behind its alignment check and the header it places in the buffer. */
    constructor (layout: Layout, size: u64)
      requires layout.Valid()
      ensures this.layout == layout && data.Length == size && fresh(data)
      ensures Valid() && blocks == []
    {
      this.layout := layout;
      data := new Cell[size];
      top := 0;
      blocks := [];
    }

    /** allocator_set_guards for the block at `start`. */
    method SetGuards(start: nat, size: nat)
      requires layout.Valid() && size >= layout.Overhead() && start + size <= data.Length
      modifies data
      ensures Guarded(layout, data[..], Block(start, size, true))
      ensures SameOutside(old(data[..]), data[..], start + layout.info, start + size - layout.info)
      ensures SameUserMemory(layout, old(data[..]), data[..], Block(start, size, true))
    {
      var front, rear := start + layout.info, start + size - layout.UserOffset();
      ghost var before := data[..];
      for k := front to front + layout.guard
        invariant forall o | front <= o < k :: data[o] == Raw(GUARD_PATTERN)
        invariant forall o | 0 <= o < data.Length && !(front <= o < k) :: data[o] == before[o]
      {
        data[k] := Raw(GUARD_PATTERN);
      }
      for k := rear to rear + layout.guard
        invariant forall o | front <= o < front + layout.guard :: data[o] == Raw(GUARD_PATTERN)
        invariant forall o | rear <= o < k :: data[o] == Raw(GUARD_PATTERN)
        invariant forall o | 0 <= o < data.Length && !(front <= o < front + layout.guard) && !(rear <= o < k) ::
            data[o] == before[o]
      {
        data[k] := Raw(GUARD_PATTERN);
      }
    }

    /** allocator_check_guards for the block at `start`, checking both ends at once from the outside in. */
    method CheckGuards(start: nat, size: nat) returns (intact: bool)
      requires layout.Valid() && size >= layout.Overhead() && start + size <= data.Length
      ensures intact <==> Guarded(layout, data[..], Block(start, size, true))
    {
      var first, last := start + layout.info, start + size - layout.info - 1;
      for k := 0 to layout.guard
        invariant forall o | first <= o < first + k :: data[o] == Raw(GUARD_PATTERN)
        invariant forall o | last - k < o <= last :: data[o] == Raw(GUARD_PATTERN)
      {
        if data[first + k] != Raw(GUARD_PATTERN) || data[last - k] != Raw(GUARD_PATTERN) {
          return false;
        }
      }
      return true;
    }

    /** Sets up guards and both info records of a block in use. */
    method PlaceBlock(b: Block)
      requires layout.Valid() && b.used && b.size >= layout.Overhead() && End(b) <= data.Length && b.size < U64_LIMIT
      modifies data
      ensures Tagged(layout, data[..], b) && Guarded(layout, data[..], b)
      ensures SameOutside(old(data[..]), data[..], b.start, End(b))
      ensures SameUserMemory(layout, old(data[..]), data[..], b)
    {
      SetGuards(b.start, b.size);
      ghost var mem := data[..];
      GuardsIgnoreState(layout, mem, Block(b.start, b.size, true), b);
      data[End(b) - layout.info] := Info(b.size, Used);
      data[b.start] := Info(b.size, Used);
      TaggedBlock(layout, mem, b);
    }

    /**
     * cutl_allocator_stack_allocate; `memory` is an offset into the data of the stack. What the code accepts has to
     * fit, which `AllocateTestIsRight` characterizes.
     */
    method Allocate(size: u64) returns (res: Outcome, memory: nat)
      requires Consistent()
      requires Accepts(layout, data.Length, top, size) ==> top + layout.TotalFor(size) <= data.Length
      modifies this, data
      ensures Consistent() && (old(Valid()) ==> Valid())
      ensures res == if old(top) + layout.TotalFor(size) > data.Length then OutOfMemory else Success
      ensures res != Success ==> blocks == old(blocks) && data[..] == old(data[..])
      ensures res == Success ==>
          && blocks == old(blocks) + [Block(old(top), layout.TotalFor(size), true)]
          && memory == UserStart(layout, blocks[|blocks| - 1]) == old(top) + layout.info + layout.guard
          && SameOutside(old(data[..]), data[..], old(top), top)
          && top == old(top) + layout.TotalFor(size) <= data.Length
          && size <= top - layout.info - layout.guard - memory < size + layout.align
      // both guards stand around the memory
      ensures res == Success ==>
          && (forall o: nat | memory - layout.guard <= o < memory :: data[o] == Raw(0xCC))
          && (forall o: nat | top - layout.info - layout.guard <= o < top - layout.info :: data[o] == Raw(0xCC))
      ensures OthersKept(layout, old(blocks), old(data[..]), data[..], |old(blocks)|)
    {
      hide Recorded, Tiled, Divides, Tagged, Guarded, BlockKept, WrappedTotal, RoundUp, Wrap64;
      LaidIsInside(layout, data[..], blocks);
      TotalIsComputedModulo(layout, size);
      TotalIsAligned(layout, size);
      SumIsNotLess(top, layout.TotalFor(size));
      var total := WrappedTotal(layout, size);
      ghost var mem := data[..];
      if Wrap64(top + total) > data.Length {
        SameMemory(layout, mem, blocks);
        return OutOfMemory, 0;
      }
      WrapOnce(layout.TotalFor(size));
      var b := Block(top, total, true);
      memory := UserStart(layout, b);
      top := top + total;
      PlaceBlock(b);
      LaidAppend(layout, blocks, mem, data[..], b);
      LaidIsInside(layout, data[..], blocks + [b]);
      blocks := blocks + [b];
      GuardBytes(layout, data[..], b);
      assert forall o: nat | o < data.Length :: data[..][o] == data[o];
      res := Success;
    }

    /** stack_memory_info_blocks: whether the block at `start` may be given back or grown. */
    method CheckBlock(start: nat, ghost i: nat) returns (res: Outcome)
      requires Consistent() && i < |blocks| && start == blocks[i].start
      ensures res ==
        if !Guarded(layout, data[..], blocks[i]) then CorruptedPointer
        else if blocks[i].used then Success else DoubleDeallocation
    {
      assert Tagged(layout, data[..], blocks[i]);
      var startInfo := data[start];
      var intact := CheckGuards(start, startInfo.size);
      GuardsIgnoreState(layout, data[..], Block(start, startInfo.size, true), blocks[i]);
      if !intact {
        return CorruptedPointer;
      }
      if startInfo.state != Used {
        return if startInfo.state == Free then DoubleDeallocation else CorruptedPointer;
      }
      var endInfo := data[start + startInfo.size - layout.info];
      var endFree := endInfo.state == Free;
      if endInfo.state != Used || endInfo.size != startInfo.size {
        return if endFree then DoubleDeallocation else CorruptedPointer;
      }
      return Success;
    }

    /** The popping loop of `deallocate`, started below a free block on top; the top falls every time round. */
    method PopFreeBlocks(topStart: nat, ghost marked: seq<Block>) returns (res: Outcome)
      requires Recorded(layout, data[..], marked) && marked != []
      requires !marked[|marked| - 1].used && topStart == marked[|marked| - 1].start && top == EndOf(marked)
      modifies this`top
      ensures res == Success && top == EndOf(PopFree(marked))
    {
      hide Recorded, Tiled, Tagged, Kept;
      ghost var k, mem := |marked|, data[..];
      var start := topStart;
      RecordsOf(layout, mem, marked, k - 1);
      var endInfo := data[top - layout.info];
      while true
        invariant data[..] == mem
        invariant 1 <= k <= |marked| && Kept(marked, |marked|) == Kept(marked, k)
        invariant start == marked[k - 1].start && top == End(marked[k - 1])
        invariant endInfo.Info? && endInfo.size == marked[k - 1].size > 0
        invariant endInfo.state == Free && !marked[k - 1].used
        decreases top
      {
        PopOne(layout, mem, marked, k);
        top := top - endInfo.size;
        if top == 0 {
          return Success;
        }
        RecordsOf(layout, mem, marked, k - 2);
        endInfo := data[start - layout.info];
        start := start - endInfo.size;
        var startInfo := data[start];
        var verdict := VerdictOn(endInfo, startInfo);
        if verdict != GoOn {
          return if verdict == StillUsed then Success else CorruptedPointer;
        }
        k := k - 1;
      }
    }

    /**
     * cutl_allocator_stack_deallocate of an offset that is out of range or was handed out for block `i`. It
     * reports a damaged guard or a block that is already free, and changes nothing then.
     */
    method Deallocate(memory: int, ghost i: nat) returns (res: Outcome)
      requires Consistent()
      requires 0 <= memory < data.Length ==> i < |blocks| && memory == UserStart(layout, blocks[i])
      modifies this, data
      ensures Consistent() && (old(Valid()) ==> Valid())
      ensures res ==
        if !(0 <= memory < data.Length) then MismatchedAllocator
        else if !old(Guarded(layout, data[..], blocks[i])) then CorruptedPointer
        else if !old(blocks[i].used) then DoubleDeallocation
        else Success
      ensures res != Success ==> blocks == old(blocks) && data[..] == old(data[..])
      ensures res == Success ==>
          && blocks == Freed(old(blocks), i)
          && MarkedFree(layout, old(data[..]), data[..], old(blocks)[i])
    {
      if memory < 0 || memory >= data.Length {
        return MismatchedAllocator;
      }
      var start: nat := memory - layout.UserOffset();
      res := CheckBlock(start, i);
      if res != Success {
        return;
      }
      ghost var mem := data[..];
      res := Release(start, i);
      if old(Valid()) {
        FreedIsSound(layout, old(blocks), mem, data[..], i);
      }
    }

    /** The part of `deallocate` behind its checks. */
    method Release(start: nat, ghost i: nat) returns (res: Outcome)
      requires Consistent() && i < |blocks| && start == blocks[i].start
      modifies this, data
      ensures res == Success && Consistent()
      ensures blocks == Freed(old(blocks), i)
      ensures MarkedFree(layout, old(data[..]), data[..], old(blocks)[i])
    {
      hide Recorded, Tiled, Tagged, PopFree, TopUsed, MarkedFree;
      ghost var mem, b := data[..], blocks[i];
      ghost var marked := blocks[i := b.(used := false)];
      ReleaseFacts(layout, blocks, mem, i);
      MarkFree(start, b);
      FreedIsLaid(layout, blocks, mem, data[..], i);
      MarkKeepsRecords(layout, blocks, mem, data[..], i);
      res := Success;
      RecordsOf(layout, data[..], marked, i);
      if start + data[start].size == top {
        res := PopFreeBlocks(start, marked);
      }
      blocks := PopFree(marked);
    }

    /** Writes the free state into both info records of a block. */
    method MarkFree(start: nat, ghost b: Block)
      requires layout.Valid() && start == b.start && Tagged(layout, data[..], b)
      modifies data
      ensures MarkedFree(layout, old(data[..]), data[..], b)
    {
      var size := data[start].size;
      data[start] := Info(size, Free);
      data[start + size - layout.info] := Info(size, Free);
    }

    /** A client writes a byte at offset `at` of the memory of block `i`. */
    method ClientWrite(memory: nat, at: nat, byte: u8, ghost i: nat)
      requires Consistent() && i < |blocks| && memory == UserStart(layout, blocks[i]) && at < Usable(layout, blocks[i])
      modifies data
      ensures Consistent() && (old(Valid()) ==> Valid())
      ensures data[..] == old(data[..])[memory + at := Raw(byte)]
      ensures OthersKept(layout, blocks, old(data[..]), data[..], i)
    {
      ghost var mem := data[..];
      hide Recorded, Tiled, Divides, Tagged, Guarded, BlockKept, SameOutside;
      RecordsOf(layout, mem, blocks, i);
      UserCellIsInside(layout, mem, blocks[i], at, Raw(byte));
      data[memory + at] := Raw(byte);
      LaidAfterUserWrites(layout, blocks, mem, data[..], i);
    }

    /** Freeing every live block of a stack, in whatever order, leaves nothing. */
    lemma FreeingEverything(order: seq<nat>)
      requires Consistent() && Live(blocks) <= set x | x in order
      ensures FreedAll(blocks, order) == []
    {
      hide Recorded, FreedAll;
      BlocksAreTiled(layout, data[..], blocks);
      TilingHasDistinctStarts(layout, blocks);
      FreeingAllEmptiesTheStack(blocks, order);
    }

    /** cutl_allocator_stack_reset */
    method Reset()
      requires Consistent()
      modifies this
      ensures Valid() && blocks == [] && top == 0
    {
      top := 0;
      blocks := [];
    }

    /** cutl_allocator_stack_get_top */
    method GetTop() returns (result: nat)
      ensures result == top
    {
      result := top;
    }

    /**
     * cutl_allocator_stack_restore_top to a top at which the lowest `k` blocks ended. A top that is not below the
     * present one changes nothing.
     */
    method RestoreTop(saved: nat, ghost k: nat)
      requires Valid() && k <= |blocks| && saved == EndOf(blocks[..k]) && TopUsed(blocks[..k])
      modifies this
      ensures Valid() && blocks == old(blocks)[..k] && top == saved
    {
      hide Recorded, Tiled, Divides, Tagged, Guarded;
      PrefixEnds(layout, data[..], blocks, k);
      SoundPrefix(layout, blocks, data[..], k);
      if top > saved {
        top := saved;
      }
      blocks := blocks[..k];
    }

    /** What `reallocate` decides for block `i`. */
    ghost function PlanOf(size: u64, i: nat): Plan
      requires layout.Valid() && i < |blocks|
      reads this
    {
      PlanFor(layout, data.Length, top, blocks[i], size)
    }

    /** A block that grows or moves by the tests of the code stays inside the stack. */
    ghost predicate PlanIsSafe(size: u64, i: nat)
      requires layout.Valid() && i < |blocks|
      reads this
    {
      && (PlanOf(size, i) == Grow ==> blocks[i].start + layout.TotalFor(size) <= data.Length)
      && (PlanOf(size, i) == Move ==> top + layout.TotalFor(size) <= data.Length)
    }

    /** Growing the topmost block where it is. */
    method GrowTop(start: nat, adjusted: u64)
      requires Consistent() && blocks != [] && blocks[|blocks| - 1].used && start == blocks[|blocks| - 1].start
      requires adjusted >= blocks[|blocks| - 1].size && Divides(layout.align, adjusted)
      requires start + adjusted <= data.Length
      modifies this, data
      ensures Consistent() && (old(Valid()) ==> Valid())
      ensures var t := |old(blocks)| - 1;
        && blocks == old(blocks)[t := old(blocks)[t].(size := adjusted)]
        && SameUserMemory(layout, old(data[..]), data[..], old(blocks)[t])
        && forall j | 0 <= j < t :: BlockKept(layout, old(data[..]), data[..], old(blocks)[j])
    {
      hide Recorded, Tiled, Divides, Tagged, Guarded, SameOutside, SameUserMemory, BlockKept;
      ghost var t, mem := |blocks| - 1, data[..];
      ghost var b := blocks[t].(size := adjusted);
      RecordsOf(layout, mem, blocks, t);
      top := top + (adjusted - data[start].size);
      data[start] := Info(adjusted, Used);
      data[start + adjusted - layout.info] := Info(adjusted, Used);
      SetGuards(start, adjusted);
      GrownBlock(layout, mem, data[..], blocks[t], adjusted);
      LaidGrow(layout, blocks, mem, data[..], adjusted);
      blocks := blocks[t := b];
    }

    /** memcpy between two regions that do not overlap. */
    method CopyCells(from: nat, to: nat, n: nat)
      requires from + n <= data.Length && to + n <= data.Length && (from + n <= to || to + n <= from)
      modifies data
      ensures SameOutside(old(data[..]), data[..], to, to + n)
      ensures Copied(old(data[..]), from, data[..], to, n)
    {
      ghost var before := data[..];
      for k := 0 to n
        invariant forall o | 0 <= o < data.Length && !(to <= o < to + k) :: data[o] == before[o]
        invariant forall o | to <= o < to + k :: data[o] == before[o - to + from]
      {
        data[to + k] := data[from + k];
      }
    }

    /** The last part of `reallocate`: a new block, a copy, and the old block given back. */
    method MoveUp(memory: nat, size: u64, ghost i: nat) returns (res: Outcome, moved: nat)
      requires Consistent() && i < |blocks| && memory == UserStart(layout, blocks[i]) && blocks[i].used
      requires Guarded(layout, data[..], blocks[i])
      requires Accepts(layout, data.Length, top, size) ==> top + layout.TotalFor(size) <= data.Length
      modifies this, data
      ensures Consistent() && (old(Valid()) ==> Valid())
      ensures res == if old(top) + layout.TotalFor(size) > data.Length then OutOfMemory else Success
      ensures res != Success ==> blocks == old(blocks) && data[..] == old(data[..])
      ensures res == Success ==>
        && blocks == old(blocks[i := blocks[i].(used := false)] + [Block(top, layout.TotalFor(size), true)])
        && moved == old(top) + layout.UserOffset()
        && ContentsMoved(layout, old(data[..]), old(blocks)[i], data[..], moved, size)
      ensures OthersKept(layout, old(blocks), old(data[..]), data[..], i)
    {
      hide Recorded, Tiled, Guarded, Divides, RoundUp, PopFree, Accepts, SameUserMemory;
      ghost var bs, mem0 := blocks, data[..];
      RecordsOf(layout, mem0, bs, i);
      res, moved := Allocate(size);
      if res != Success {
        return;
      }
      ghost var mem1 := data[..];
      LaidIsInside(layout, mem1, blocks);
      RecordsOf(layout, mem1, blocks, i);
      var capacity := data[memory - layout.UserOffset()].size - layout.Overhead();
      var n := Min(capacity, size);
      CopyCells(memory, moved, n);
      ghost var mem2 := data[..];
      CopyKeepsLaid(layout, blocks, mem1, mem2, |bs|, n);
      res := Deallocate(memory, i);
      MovedBlock(layout, bs, mem0, mem1, mem2, data[..], i, Block(old(top), layout.TotalFor(size), true), size);
    }

    /**
     * cutl_allocator_stack_reallocate of an offset that is out of range or was handed out for block `i`, which by the
     * tests of the code is kept, grown or moved inside of the stack, or refused.
     */
    method Reallocate(memory: int, size: u64, ghost i: nat) returns (res: Outcome, moved: nat)
      requires Consistent()
      requires 0 <= memory < data.Length ==>
        && i < |blocks| && memory == UserStart(layout, blocks[i])
        && (blocks[i].used && Guarded(layout, data[..], blocks[i]) ==> PlanIsSafe(size, i))
      modifies this, data
      ensures Consistent() && (old(Valid()) ==> Valid())
      ensures res ==
        if !(0 <= memory < data.Length) then MismatchedAllocator
        else if !old(Guarded(layout, data[..], blocks[i])) then CorruptedPointer
        else if !old(blocks[i].used) then DoubleDeallocation
        else if old(PlanOf(size, i)) == Refuse then OutOfMemory
        else Success
      ensures res != Success ==> blocks == old(blocks) && data[..] == old(data[..])
      ensures res == Success && old(PlanOf(size, i)) == Keep ==> blocks == old(blocks)
      ensures res == Success && old(PlanOf(size, i)) == Grow ==>
          blocks == old(blocks[i := blocks[i].(size := layout.TotalFor(size))])
      ensures res == Success && old(PlanOf(size, i)) == Move ==>
          blocks == old(blocks[i := blocks[i].(used := false)] + [Block(top, layout.TotalFor(size), true)])
      ensures res == Success ==>
          moved == if old(PlanOf(size, i)) == Move then old(top) + layout.info + layout.guard else memory
      // the contents move along, and no other block's contents change
      ensures res == Success ==> ContentsMoved(layout, old(data[..]), old(blocks)[i], data[..], moved, size)
      ensures res == Success ==>
          var room := old(blocks[i].size) - 2 * layout.info - 2 * layout.guard;
          var n := if room < size then room else size;
          && 0 <= n && memory + n <= data.Length && moved + n <= data.Length
          && data[..][moved..moved + n] == old(data[..])[memory..memory + n]
      ensures OthersKept(layout, old(blocks), old(data[..]), data[..], i)
    {
      hide Recorded, Tiled, Tagged, Guarded, TopUsed, Divides, RoundUp, WrappedAdjusted, Accepts;
      hide ContentsMoved, BlockKept, SameUserMemory, PopFree, PlanFor, Wrap64;
      moved := 0;
      SameMemory(layout, data[..], blocks);
      if memory < 0 || memory >= data.Length {
        res := MismatchedAllocator;
        return;
      }
      var start: nat := memory - layout.UserOffset();
      res := CheckBlock(start, i);
      if res == Success {
        res, moved := Resize(memory, start, size, i);
        if res == Success {
          MovedBytes(layout, old(data[..]), old(blocks)[i], data[..], moved, size);
        }
      }
    }

    /** The part of `reallocate` behind its checks. */
    method Resize(memory: nat, start: nat, size: u64, ghost i: nat) returns (res: Outcome, moved: nat)
      requires Consistent() && i < |blocks| && memory == UserStart(layout, blocks[i]) && start == blocks[i].start
      requires blocks[i].used && Guarded(layout, data[..], blocks[i]) && PlanIsSafe(size, i)
      modifies this, data
      ensures Consistent() && (old(Valid()) ==> Valid())
      ensures res == if old(PlanOf(size, i)) == Refuse then OutOfMemory else Success
      ensures res != Success ==> blocks == old(blocks) && data[..] == old(data[..])
      ensures old(PlanOf(size, i)) == Keep ==> blocks == old(blocks)
      ensures old(PlanOf(size, i)) == Grow ==> blocks == old(blocks[i := blocks[i].(size := layout.TotalFor(size))])
      ensures old(PlanOf(size, i)) == Move ==>
          blocks == old(blocks[i := blocks[i].(used := false)] + [Block(top, layout.TotalFor(size), true)])
      ensures res == Success ==>
        && moved == (if old(PlanOf(size, i)) == Move then old(top) + layout.UserOffset() else memory)
        && ContentsMoved(layout, old(data[..]), old(blocks)[i], data[..], moved, size)
      ensures OthersKept(layout, old(blocks), old(data[..]), data[..], i)
    {
      hide Recorded, Tiled, Tagged, Guarded, TopUsed, Divides, RoundUp, WrappedAdjusted, Accepts;
      hide ContentsMoved, BlockKept, SameUserMemory, PopFree, PlanFor, Wrap64;
      res := Success;
      SameMemory(layout, data[..], blocks);
      LaidIsInside(layout, data[..], blocks);
      ReleaseFacts(layout, blocks, data[..], i);
      RecordsOf(layout, data[..], blocks, i);
      AdjustedSizeIsExact(layout, size);
      TotalIsAligned(layout, size);
      PlanArithmetic(layout, data.Length, top, blocks[i], size);
      var adjusted := WrappedAdjusted(layout, size);
      var oldSize := data[start].size;
      if adjusted <= oldSize {
        moved := memory;
        KeptContents(layout, data[..], blocks, i);
        StayedContents(layout, data[..], blocks[i], data[..], size);
      } else if top == start + oldSize {
        GrowTop(start, adjusted);
        moved := memory;
        StayedContents(layout, old(data[..]), old(blocks)[i], data[..], size);
      } else {
        res, moved := MoveUp(memory, size, i);
      }
    }
  }

  /** Guards stand if every byte between either info record and the user's memory is 0xCC. */
  lemma GuardBytes(l: Layout, mem: seq<Cell>, b: Block)
    requires l.Overhead() <= b.size && End(b) <= |mem|
    ensures b.start + 2 * l.info + 2 * l.guard <= End(b)
    ensures Guarded(l, mem, b) <==>
      && (forall o: nat | b.start + l.info <= o < b.start + l.info + l.guard :: mem[o] == Raw(0xCC))
      && (forall o: nat | End(b) - l.info - l.guard <= o < End(b) - l.info :: mem[o] == Raw(0xCC))
  {
  }

  /** Where a block stands decides whether marking it free leaves a free block on top. */
  lemma ReleaseFacts(l: Layout, bs: seq<Block>, mem: seq<Cell>, i: nat)
    requires Laid(l, mem, bs) && i < |bs|
    ensures l.Valid() && Tagged(l, mem, bs[i]) && mem[bs[i].start].size == bs[i].size
    ensures End(bs[i]) == EndOf(bs) <==> i == |bs| - 1
    ensures EndOf(bs[i := bs[i].(used := false)]) == EndOf(bs)
    ensures i < |bs| - 1 ==> Freed(bs, i) == bs[i := bs[i].(used := false)]
  {
    TilingReachesEnd(l, bs, i);
    TilingMark(l, bs, i, false);
  }

  /** Below a free block on top there is either nothing or a block whose state says whether popping goes on. */
  lemma PopOne(l: Layout, mem: seq<Cell>, marked: seq<Block>, k: nat)
    requires Recorded(l, mem, marked) && 1 <= k <= |marked| && !marked[k - 1].used
    ensures Kept(marked, k) == Kept(marked, k - 1)
    ensures k == 1 <==> marked[k - 1].start == 0
    ensures k == 1 ==> Kept(marked, 0) == 0
    ensures k > 1 ==> marked[k - 1].start == End(marked[k - 2])
    ensures k > 1 && marked[k - 2].used ==> Kept(marked, k - 1) == k - 1
  {
  }

  /** What the info records of a block read. */
  lemma RecordsOf(l: Layout, mem: seq<Cell>, bs: seq<Block>, i: nat)
    requires Recorded(l, mem, bs) && i < |bs|
    ensures l.Valid() && Tagged(l, mem, bs[i]) && l.Overhead() <= bs[i].size <= End(bs[i]) <= EndOf(bs) <= |mem|
    ensures mem[bs[i].start] == mem[End(bs[i]) - l.info] == Info(bs[i].size, StateOf(bs[i]))
  {
    assert Tagged(l, mem, bs[i]);
    TilingReachesEnd(l, bs, i);
  }

  /** The size of the block is computed exactly as long as it does not exceed the range of its type. */
  lemma TotalIsComputedExactly(l: Layout, size: u64)
    requires l.Valid()
    ensures WrappedTotal(l, size) == l.TotalFor(size) <==> l.TotalFor(size) < U64_LIMIT
  {
    hide RoundUp, WrappedRoundUp;
    if l.TotalFor(size) < U64_LIMIT {
      WrappedRoundUpIsExact(size + 2 * l.info, l.align);
    }
  }

  /** Whatever wraps around on the way, the size of a block is computed modulo the range of its type. */
  lemma TotalIsComputedModulo(l: Layout, size: u64)
    requires l.Valid()
    ensures WrappedTotal(l, size) == Wrap64(l.TotalFor(size))
  {
    hide RoundUp, WrappedRoundUp, Wrap64;
    var x := size + 2 * l.info;
    RoundUpModulo(x, l.align);
    SumModulo(RoundUp(x, l.align), 2 * l.guard);
  }

  /** Rounding up what has wrapped around is rounding up, and wrapping around after that. */
  lemma RoundUpModulo(x: nat, align: nat)
    requires Divides(align, U64_LIMIT)
    ensures WrappedRoundUp(Wrap64(x), align) == Wrap64(RoundUp(x, align))
  {
    hide RoundUp, WrappedRoundUp, Divides, Wrap64;
    var w, k := Wrap64(x), x / U64_LIMIT;
    WrapSplits(x);
    MultipleOfMultiple(k, U64_LIMIT, align);
    RoundUpShifts(w, k * U64_LIMIT, align);
    WrappedRoundUpIsExact(w, align);
    RoundUpIsLeastMultiple(w, align, U64_LIMIT);
    WrapOnce(RoundUp(w, align));
    WrapShifts(RoundUp(w, align), k);
  }

  lemma WrapSplits(x: nat)
    ensures x == Wrap64(x) + x / U64_LIMIT * U64_LIMIT
  {
  }

  lemma WrapShifts(x: nat, k: nat)
    ensures Wrap64(x + k * U64_LIMIT) == Wrap64(x)
  {
  }

  lemma SumModulo(x: nat, y: nat)
    ensures Wrap64(Wrap64(x) + y) == Wrap64(x + y)
    ensures Wrap64(y + Wrap64(x)) == Wrap64(y + x)
  {
  }

  lemma MultipleOfMultiple(k: nat, m: nat, d: nat)
    requires Divides(d, m)
    ensures Divides(d, k * m)
  {
    var q := m / d;
    assert k * m == (k * q) * d by {
      assert m == q * d;
      MulAssociative(k, q, d);
    }
    MultipleHasNoRemainder(k * q, d);
  }

  /** What the test of `allocate` compares. */
  lemma SumIsNotLess(top: nat, total: nat)
    ensures Wrap64(top + Wrap64(total)) == Wrap64(top + total) <= top + total
    ensures top + total < U64_LIMIT ==> Wrap64(top + total) == top + total
  {
  }

  /**
   * `allocate` accepts what fits, and nothing else, exactly if the true sum is in range or wraps around to something
   * that does not fit either.
   */
  lemma AllocateTestIsRight(l: Layout, capacity: u64, top: nat, size: u64)
    requires l.Valid() && top <= capacity
    ensures var sum := top + l.TotalFor(size);
      (Accepts(l, capacity, top, size) <==> sum <= capacity) <==> SumIsHarmless(capacity, sum)
  {
    hide WrappedTotal, RoundUp, Wrap64;
    TotalIsComputedModulo(l, size);
    SumIsNotLess(top, l.TotalFor(size));
  }

  /** A request close to the range of its type wraps around to a block that holds nothing but its guards. */
  lemma HugeRequestLooksSmall(l: Layout)
    requires l.Valid() && 2 * l.info <= U64_LIMIT && 2 * l.guard < U64_LIMIT
    ensures WrappedTotal(l, U64_LIMIT - 2 * l.info) == 2 * l.guard
  {
    hide RoundUp, WrappedRoundUp;
    RoundUpIsLeastMultiple(0, l.align, 0);
    WrappedRoundUpIsExact(0, l.align);
    WrapOnce(2 * l.guard);
  }

  /** `allocate` accepts it wherever the guards fit. */
  lemma HugeRequestIsAccepted(l: Layout, capacity: u64, top: nat)
    requires l.Valid() && 2 * l.info <= U64_LIMIT && top + 2 * l.guard <= capacity
    ensures Accepts(l, capacity, top, U64_LIMIT - 2 * l.info)
    ensures top + l.TotalFor(U64_LIMIT - 2 * l.info) > capacity
  {
    hide RoundUp, WrappedTotal;
    HugeRequestLooksSmall(l);
    WrapOnce(top + 2 * l.guard);
  }

  /** Both ways of sizing a block agree, up to where they wrap around. */
  lemma AdjustedSizeIsExact(l: Layout, size: u64)
    requires l.Valid()
    ensures WrappedAdjusted(l, size) == Wrap64(l.TotalFor(size)) == WrappedTotal(l, size)
    ensures l.TotalFor(size) <= U64_LIMIT + l.Overhead()
    ensures l.TotalFor(size) < U64_LIMIT ==> WrappedAdjusted(l, size) == l.TotalFor(size)
  {
    hide WrappedRoundUp, RoundUp, Divides, Wrap64;
    TotalIsComputedModulo(l, size);
    MultiplesAdd(l.info, l.info, l.align);
    RoundUpShifts(size, 2 * l.info, l.align);
    RoundUpModulo(size, l.align);
    RoundUpIsLeastMultiple(size, l.align, U64_LIMIT);
    WrapOnce(size);
    SumModulo(RoundUp(size, l.align), 2 * l.guard);
    SumModulo(RoundUp(size, l.align) + 2 * l.guard, 2 * l.info);
    WrapOnce(l.TotalFor(size));
  }

  /** `reallocate` keeps every block that is large enough, and every block if the total size does not fit its type. */
  lemma PlanArithmetic(l: Layout, capacity: u64, top: nat, b: Block, size: u64)
    requires l.Valid() && l.Overhead() <= b.size && End(b) <= top <= capacity
    ensures var total := l.TotalFor(size); var plan := PlanFor(l, capacity, top, b, size);
      && (plan == Keep <==> WrappedAdjusted(l, size) <= b.size)
      && (plan == Grow <==> WrappedAdjusted(l, size) > b.size && top == End(b))
      && (plan == Move <==>
            WrappedAdjusted(l, size) > b.size && top != End(b) && Accepts(l, capacity, top, size))
      && (plan == Keep <==> total <= b.size || total >= U64_LIMIT)
      && (plan != Keep ==> WrappedAdjusted(l, size) == total)
      && (plan == Refuse ==> top + total > capacity)
  {
    hide RoundUp, WrappedTotal, WrappedAdjusted, Wrap64;
    AdjustedSizeIsExact(l, size);
    WrapOnce(l.TotalFor(size));
    SumIsNotLess(top, l.TotalFor(size));
  }

  /**
   * `reallocate` delivers what it promises exactly if the block is large enough; or the total size fits its type and,
   * for the topmost block, so does the grown block fit the stack, or for any other one the sum of top and total size
   * does no harm.
   */
  lemma ReallocateIsRight(l: Layout, capacity: u64, top: nat, b: Block, size: u64)
    requires l.Valid() && l.Overhead() <= b.size && Divides(l.align, b.size) && End(b) <= top <= capacity
    ensures var total := l.TotalFor(size);
      Delivers(l, capacity, top, b, size, PlanFor(l, capacity, top, b, size)) <==>
        || total <= b.size
        || (total < U64_LIMIT &&
            if top == End(b) then b.start + total <= capacity else SumIsHarmless(capacity, top + total))
  {
    hide RoundUp, WrappedTotal, WrappedAdjusted, Wrap64, Accepts;
    PlanArithmetic(l, capacity, top, b, size);
    AllocateTestIsRight(l, capacity, top, size);
    KeepTestIsRight(l, b, size);
  }

  /** A block holds a request exactly if it is as large as the block that the request asks for. */
  lemma KeepTestIsRight(l: Layout, b: Block, size: u64)
    requires l.Valid() && l.Overhead() <= b.size && Divides(l.align, b.size)
    ensures size + l.Overhead() <= b.size <==> l.TotalFor(size) <= b.size
  {
    hide RoundUp, Divides;
    MultiplesAdd(l.info, l.info, l.align);
    MultiplesAdd(l.guard, l.guard, l.align);
    MultiplesAdd(b.size, 2 * l.guard, l.align);
    RoundUpIsLeastMultiple(size + 2 * l.info, l.align,
                           if size + l.Overhead() <= b.size then b.size - 2 * l.guard else size + 2 * l.info);
  }

  /** Any live block is handed back as large enough for 2^64 - 1 bytes. */
  lemma HugeResizeIsKept(l: Layout, capacity: u64, top: nat, b: Block)
    requires l.Valid() && l.Overhead() <= b.size && End(b) <= top <= capacity
    ensures PlanFor(l, capacity, top, b, U64_LIMIT - 1) == Keep
    ensures !Delivers(l, capacity, top, b, U64_LIMIT - 1, Keep)
  {
    hide RoundUp, WrappedTotal, WrappedAdjusted, Wrap64, Accepts;
    PlanArithmetic(l, capacity, top, b, U64_LIMIT - 1);
  }

  /** A block that takes up the whole stack grows out of it. */
  lemma GrowthLeavesTheStack()
    ensures var l, b := Layout(16, 0, 16), Block(0, 64, true);
      && l.Valid() && PlanFor(l, 64, 64, b, 64) == Grow && !Delivers(l, 64, 64, b, 64, Grow)
      && l.TotalFor(64) == 96
  {
    assert Divides(16, U64_LIMIT) && Divides(16, 16) && Divides(16, 0);
    var l, b := Layout(16, 0, 16), Block(0, 64, true);
    assert RoundUp(64 + 2 * 16, 16) == 96;
    PlanArithmetic(l, 64, 64, b, 64);
  }

  lemma TotalIsAligned(l: Layout, size: nat)
    requires l.Valid()
    ensures Divides(l.align, l.TotalFor(size))
  {
    RoundUpIsLeastMultiple(size + 2 * l.info, l.align, 0);
    MultiplesAdd(l.guard, l.guard, l.align);
    MultiplesAdd(RoundUp(size + 2 * l.info, l.align), 2 * l.guard, l.align);
  }

  lemma PrefixEnds(l: Layout, mem: seq<Cell>, bs: seq<Block>, k: nat)
    requires Recorded(l, mem, bs) && k <= |bs|
    ensures EndOf(bs[..k]) <= EndOf(bs)
  {
    TilingPrefix(l, bs, k);
  }

  lemma BlocksAreTiled(l: Layout, mem: seq<Cell>, bs: seq<Block>)
    requires Laid(l, mem, bs)
    ensures l.Valid() && Tiled(l, bs) && TopUsed(bs)
  {
  }

  lemma LaidIsInside(l: Layout, mem: seq<Cell>, bs: seq<Block>)
    requires Laid(l, mem, bs)
    ensures l.Valid() && l.align > 0 && EndOf(bs) <= |mem| < U64_LIMIT
  {
  }

  lemma SameMemory(l: Layout, mem: seq<Cell>, bs: seq<Block>)
    ensures forall j | 0 <= j < |bs| :: BlockKept(l, mem, mem, bs[j])
  {
  }

  lemma KeptContents(l: Layout, mem: seq<Cell>, bs: seq<Block>, i: nat)
    requires i < |bs|
    ensures SameUserMemory(l, mem, mem, bs[i])
  {
  }

  lemma StayedContents(l: Layout, mem: seq<Cell>, b: Block, mem': seq<Cell>, size: nat)
    requires SameUserMemory(l, mem, mem', b) && b.size >= l.Overhead() && End(b) <= |mem|
    ensures ContentsMoved(l, mem, b, mem', UserStart(l, b), size)
  {
  }

  /** The out-of-memory test of `allocate` is right exactly as long as its sum does not wrap around. */
  lemma SizeTestIsExact(top: nat, total: u64, capacity: u64)
    requires top <= capacity
    ensures (Wrap64(top + total) > capacity <==> top + total > capacity) <==> top + total < U64_LIMIT
  {
  }
}
