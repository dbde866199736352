/** src/allocators/arena_allocator.c: the arena over its chunks. */
module ArenaAllocator {
  import opened Arithmetic
  import opened MachineIntegers
  import opened AllocatorInternals
  import opened ArenaBlocks
  import opened ArenaChunk

  datatype Option<T> = None | Some(value: T)

  /** Total size of the block that serves a request. */
  function TotalFor(l: Layout, size: nat): int
    requires l.align > 0
  {
    l.header + RoundUp(size, l.align)
  }

  /** The same as it is computed, with sums that may wrap around. */
  function WrappedTotalFor(l: Layout, size: u64): u64
    requires l.align > 0
  {
    Wrap64(l.header + WrappedRoundUp(size, l.align))
  }

  /** A request that is not empty and whose total size does not wrap around. */
  predicate Servable(l: Layout, size: nat) {
    l.align > 0 && size > 0 && TotalFor(l, size) < U64_LIMIT
  }

  function Max(a: nat, b: nat): (r: nat)
    ensures r == a || r == b
    ensures r >= a && r >= b
  {
    if a > b then a else b
  }

  /** The code's test for a wrap-around is exact, and what passes it is computed exactly. */
  lemma WrapTestIsExact(l: Layout, size: u64)
    requires l.Valid() && size > 0
    ensures WrappedTotalFor(l, size) < size <==> TotalFor(l, size) >= U64_LIMIT
    ensures TotalFor(l, size) < U64_LIMIT ==> WrappedTotalFor(l, size) == TotalFor(l, size)
  {
    hide RoundUp, WrappedRoundUp;
    WrappedRoundUpIsExact(size, l.align);
    WrapOnce(l.header + RoundUp(size, l.align));
  }

  lemma TotalIsBlockSize(l: Layout, size: nat)
    requires l.Valid() && size > 0
    ensures Divides(l.align, TotalFor(l, size)) && TotalFor(l, size) >= l.Minimum()
  {
    RoundUpIsLeastMultiple(size, l.align, 0);
    MultiplesAdd(l.header, RoundUp(size, l.align), l.align);
    var q := (size + (l.align - 1)) / l.align;
    if q * l.align < l.align {
      ProductOrder(q, 1, l.align);
    }
  }

  /** Sums over all chunks. */
  ghost function SumOverChunks(lives: seq<map<nat, nat>>): nat {
    if lives == [] then 0 else SumLive(lives[0]) + SumOverChunks(lives[1..])
  }

  lemma {:induction false} SumOverChunksUpdate(lives: seq<map<nat, nat>>, i: nat, live: map<nat, nat>)
    requires i < |lives|
    ensures SumOverChunks(lives[i := live]) == SumOverChunks(lives) - SumLive(lives[i]) + SumLive(live)
  {
    if i == 0 {
      assert lives[0 := live][1..] == lives[1..];
    } else {
      assert lives[i := live][1..] == lives[1..][i - 1 := live];
      SumOverChunksUpdate(lives[1..], i - 1, live);
    }
  }

  ghost function LivesOf(cs: seq<Chunk>): seq<map<nat, nat>>
    reads cs
  {
    seq(|cs|, i requires 0 <= i < |cs| reads cs => cs[i].live)
  }

  ghost function SumOfLengths(cs: seq<Chunk>): nat {
    if cs == [] then 0 else cs[0].data.Length + SumOfLengths(cs[1..])
  }

  lemma SumsOfOneMore(lives: seq<map<nat, nat>>, c: Chunk, cs: seq<Chunk>)
    ensures SumOverChunks([map[]] + lives) == SumOverChunks(lives)
    ensures SumOfLengths([c] + cs) == c.data.Length + SumOfLengths(cs)
  {
    assert ([map[]] + lives)[1..] == lives && ([c] + cs)[1..] == cs;
  }

  /** The address ranges `a .. a + n` and `b .. b + m` have nothing in common. */
  predicate RangesApart(a: nat, n: nat, b: nat, m: nat) {
    a + n <= b || b + m <= a
  }

  class Arena {
    const layout: Layout
    const chunkSize: u64
    var largestBlock: u64
    var used: nat
    var capacity: nat
    // newest first
    var chunks: seq<Chunk>

    ghost function Lives(): seq<map<nat, nat>>
      reads this`chunks, chunks
    {
      LivesOf(chunks)
    }

    ghost predicate ChunksSound()
      reads this`chunks, chunks, set c | c in chunks :: c.data
    {
      forall i | 0 <= i < |chunks| ::
        chunks[i].layout == layout && chunks[i].base > 0 && chunks[i].Valid()
    }

    ghost predicate ChunksApart()
      reads this`chunks
    {
      forall i, j | 0 <= i < j < |chunks| ::
        && chunks[i] != chunks[j] && chunks[i].data != chunks[j].data
        && RangesApart(chunks[i].base, chunks[i].data.Length, chunks[j].base, chunks[j].data.Length)
    }

    ghost predicate Valid()
      reads this`chunks, this`used, this`capacity, chunks, set c | c in chunks :: c.data
    {
      && layout.Valid() && chunkSize > 0
      && ChunksSound() && ChunksApart()
      && used == SumOverChunks(Lives())
      && capacity == SumOfLengths(chunks)
    }

    /** cutl_allocator_arena_create, without the memory for the arena itself. */
    constructor (layout: Layout, chunkSize: u64)
      requires layout.Valid() && chunkSize > 0
      ensures this.layout == layout && this.chunkSize == chunkSize
      ensures Valid() && chunks == [] && used == 0 && capacity == 0
    {
      this.layout, this.chunkSize := layout, chunkSize;
      largestBlock, used, capacity, chunks := 0, 0, 0, [];
    }

    /** Capacity of the chunk that `grow` asks for. */
    function GrowthFor(total: nat): int
      requires layout.align > 0
      reads this
    {
      RoundUp(Max(Max(total, largestBlock), chunkSize), layout.align)
    }

    lemma GrowthIs(total: nat, wanted: nat)
      requires layout.align > 0 && wanted == Max(Max(total, largestBlock), chunkSize)
      ensures GrowthFor(total) == RoundUp(wanted, layout.align)
    {
    }

    /** A new chunk is as large as the arena makes it to be, and not larger than alignment calls for. */
    lemma GrowthIsLeast(total: nat)
      requires Valid()
      ensures var g := GrowthFor(total);
        && g >= 0 && Divides(layout.align, g) && g >= total && g >= largestBlock && g >= chunkSize
        && forall m: nat | Divides(layout.align, m) && m >= total && m >= largestBlock && m >= chunkSize :: g <= m
    {
      hide RoundUp, Divides, Chunk.Valid, Arena.Valid;
      LayoutIsValid();
      var wanted := Max(Max(total, largestBlock), chunkSize);
      forall m: nat | Divides(layout.align, m) && m >= total && m >= largestBlock && m >= chunkSize
        ensures GrowthFor(total) <= m
      {
        RoundUpIsLeastMultiple(wanted, layout.align, m);
      }
      RoundUpIsLeastMultiple(wanted, layout.align, 0);
    }

    /** The parent allocator hands out memory that no chunk occupies. */
    predicate Grantable(base: nat, length: nat)
      reads this`chunks
    {
      base > 0 && forall i | 0 <= i < |chunks| :: RangesApart(base, length, chunks[i].base, chunks[i].data.Length)
    }

    /** Puts an empty chunk in front of the others. */
    method Attach(chunk: Chunk)
      requires Valid() && chunk !in chunks && forall c | c in chunks :: c.data != chunk.data
      requires chunk.Valid() && chunk.layout == layout && Grantable(chunk.base, chunk.data.Length)
      requires chunk.live == map[]
      modifies this`chunks, this`capacity
      ensures Valid() && chunks == [chunk] + old(chunks)
      ensures capacity == old(capacity) + chunk.data.Length
    {
      hide Chunk.Valid, Divides, SumOverChunks, SumOfLengths;
      ghost var before := Lives();
      SumsOfOneMore(before, chunk, chunks);
      chunks := [chunk] + chunks;
      capacity := capacity + chunk.data.Length;
      assert chunks[1..] == old(chunks);
      forall i | 0 < i < |chunks| ensures chunks[i] == old(chunks)[i - 1] && old(chunks)[i - 1].Valid() {
        assert old(chunks[i - 1].Valid());
      }
      assert Lives() == [map[]] + before;
    }

    /** arena_grow; `grant` is what the parent allocator answers. */
    method Grow(total: u64, grant: Option<nat>) returns (res: Outcome)
      requires Valid() && GrowthFor(total) < U64_LIMIT
      requires grant.Some? ==> Grantable(grant.value, GrowthFor(total))
      modifies this
      ensures Valid() && used == old(used)
      ensures res == if grant.Some? then Success else OutOfMemory
      ensures res != Success ==> unchanged(this)
      ensures res == Success ==>
        && |chunks| == |old(chunks)| + 1 && chunks[1..] == old(chunks)
        && fresh(chunks[0]) && fresh(chunks[0].data)
        && chunks[0].live == map[] && chunks[0].frees == [] && chunks[0].bump == 0
        && chunks[0].data.Length == old(GrowthFor(total)) && chunks[0].base == grant.value
        && capacity == old(capacity) + chunks[0].data.Length
        && largestBlock == if total > old(largestBlock) then total else old(largestBlock)
      // the new chunk has the least aligned size that is not below any of the three
      ensures res == Success ==>
        && var size := chunks[0].data.Length;
        && Divides(layout.align, size) && size >= total && size >= old(largestBlock) && size >= chunkSize
        && forall m: nat | Divides(layout.align, m) && m >= total && m >= old(largestBlock) && m >= chunkSize ::
            size <= m
    {
      hide Chunk.Valid, RoundUp, WrappedRoundUp, Divides, Arena.GrowthFor;
      GrowthIsLeast(total);
      var needed := if total > largestBlock then total else largestBlock;
      var wanted := if needed > chunkSize then needed else chunkSize;
      WrappedRoundUpIsExact(wanted, layout.align);
      var size := WrappedRoundUp(wanted, layout.align);
      GrowthIs(total, wanted);
      if grant.None? {
        return OutOfMemory;
      }
      var chunk := new Chunk(layout, grant.value, size);
      if total > largestBlock {
        largestBlock := total;
      }
      Attach(chunk);
      res := Success;
    }

    /** When only chunk `i` has changed, it is enough to look at that one. */
    twostate lemma OneChunkChanged(i: nat)
      requires old(Valid()) && chunks == old(chunks) && capacity == old(capacity)
      requires i < |chunks| && chunks[i].Valid()
      requires forall j | 0 <= j < |chunks| && j != i :: unchanged(chunks[j]) && unchanged(chunks[j].data)
      requires used == old(used) - old(SumLive(chunks[i].live)) + SumLive(chunks[i].live)
      ensures Valid()
    {
      hide Chunk.Valid, Divides, SumOverChunks, SumLive;
      forall j | 0 <= j < |chunks| ensures chunks[j].layout == layout && chunks[j].base > 0 && chunks[j].Valid() {
        if j != i {
          assert old(chunks[j].Valid());
        }
      }
      assert Lives() == old(Lives())[i := chunks[i].live];
      SumOverChunksUpdate(old(Lives()), i, chunks[i].live);
    }

    /** One round of the loop in `allocate`: a block from chunk `i`, handed out at once. */
    method AllocateFrom(i: nat, total: u64) returns (block: int)
      requires Valid() && i < |chunks| && layout.Minimum() <= total && Divides(layout.align, total)
      modifies this`used, chunks[i], chunks[i].data
      ensures Valid()
      ensures block == NIL <==> !old(chunks[i].CanHold(total))
      ensures block == NIL || block >= 0
      ensures block == NIL ==> unchanged(this) && unchanged(chunks[i]) && unchanged(chunks[i].data)
      ensures block != NIL ==>
        && HandedOut(chunks[i], old(chunks[i].live), block, total)
        && used == old(used) + total
      ensures LiveContentsSame(layout, old(chunks[i].data[..]), chunks[i].data[..], old(chunks[i].live))
    {
      hide Carved, Divides, SumLive, LiveContentsSame, Spare, FirstFit, Recycled;
      var chunk := chunks[i];
      ghost var mem, live := chunk.data[..], chunk.live;
      ghost var k, at;
      block, k, at := chunk.BlockFromChunk(total);
      if block != NIL {
        ghost var mem1 := chunk.data[..];
        chunk.HandOut(block, total);
        used := used + total;
        LiveContentsTwice(layout, mem, mem1, chunk.data[..], live);
        SumLiveWith(live, block, total);
        OneChunkChanged(i);
      } else {
        OneChunkChanged(i);
      }
    }

    /** Nothing in the arena has changed. */
    twostate predicate Untouched()
      reads this, chunks, set c | c in chunks :: c.data
    {
      && unchanged(this)
      && forall c | c in chunks :: unchanged(c) && unchanged(c.data)
    }

    /**
     * A block of `total` bytes was handed out at `block` in chunk `at`: in one of the chunks `cs` the arena had, or
     * in a new one if the parent allocator was asked.
     */
    twostate predicate Served(cs: seq<Chunk>, total: nat, asked: bool, new at: Chunk, block: nat, memory: nat)
      reads this, at, cs, set c | c in cs :: c.data
    {
      && at in chunks && OtherChunksUntouched(cs, at)
      && memory == at.base + block + layout.header && used == old(used) + total
      && (asked ==> chunks == [at] + cs && HandedOut(at, map[], block, total))
      && (!asked ==> chunks == cs && at in cs && HandedOut(at, old(at.live), block, total))
    }

    /** No chunk in front of `at` could hold a block of this total size. */
    twostate predicate IsFirst(cs: seq<Chunk>, new at: Chunk, total: nat)
      reads cs, set c | c in cs :: c.data
    {
      exists i :: 0 <= i < |cs| && cs[i] == at && forall j | 0 <= j < i :: !old(cs[j].CanHold(total))
    }

    /** The chunks are `cs`, with chunk `at` in front of them if the parent allocator was asked. */
    ghost predicate ChunksAre(cs: seq<Chunk>, asked: bool, at: Chunk)
      reads this`chunks
    {
      chunks == (if asked then [at] else []) + cs
    }

    /** Block `block` of chunk `at` is the only live one that was not live before; the others are what they were. */
    twostate predicate OneMoreLive(cs: seq<Chunk>, new at: Chunk, block: nat, total: nat, memory: nat)
      reads this, at, cs, chunks
    {
      && at in chunks && block in at.live && at.live[block] == total
      && memory == at.base + block + layout.header && used == old(used) + total
      && (forall c, t | c in cs && t in old(c.live) ::
            !(c == at && t == block) && c in chunks && t in c.live && c.live[t] == old(c.live[t]))
      && (forall c, t | c in chunks && t in c.live && !(c == at && t == block) :: c in cs && t in old(c.live))
    }

    /** cutl_allocator_arena_allocate */
    method Allocate(size: u64, grant: Option<nat>)
      returns (res: Outcome, memory: nat, ghost asked: bool, at: Chunk?, block: nat)
      requires Valid() && MayAsk(size, grant)
      modifies this, chunks, set c | c in chunks :: c.data
      ensures Valid() && ContentsKept(layout, old(chunks))
      ensures asked ==> Servable(layout, size)
      ensures Servable(layout, size) ==>
        (asked <==> forall c | c in old(chunks) :: !old(c.CanHold(TotalFor(layout, size))))
      ensures res == if !Servable(layout, size) || (asked && grant.None?) then OutOfMemory else Success
      // that is, the request is empty, its total size wraps around, or the parent allocator refuses
      ensures res == OutOfMemory <==>
          size == 0 || layout.header + RoundUp(size, layout.align) >= U64_LIMIT || (asked && grant.None?)
      ensures res != Success ==> Untouched()
      ensures res == Success ==>
        && at != null && Served(old(chunks), TotalFor(layout, size), asked, at, block, memory)
        && OneMoreLive(old(chunks), at, block, TotalFor(layout, size), memory)
        && ChunksAre(old(chunks), asked, at) && (asked ==> fresh(at) && fresh(at.data))
        && at.live[block] == layout.header + RoundUp(size, layout.align)
        && (asked ==> at.data.Length >= chunkSize && at.base == grant.value)
        && (!asked ==> IsFirst(old(chunks), at, TotalFor(layout, size)))
      ensures OnlyNewChunks(chunks, old(chunks))
    {
      hide Arena.Valid, Divides, LiveContentsSame, Chunk.Valid, RoundUp, Chunk.CanHold, WrappedTotalFor;
      LayoutIsValid();
      SameContents();
      memory, asked, at, block := 0, false, null, 0;
      if size == 0 {
        res := OutOfMemory;
        return;
      }
      WrapTestIsExact(layout, size);
      var total := WrappedTotalFor(layout, size);
      if total < size {
        res := OutOfMemory;
        return;
      }
      TotalIsBlockSize(layout, size);
      res, memory, asked, at, block := AllocateTotal(total, grant);
    }

    lemma LayoutIsValid()
      requires Valid()
      ensures layout.Valid() && layout.align > 0
    {
    }

    /** What a request for `size` needs of the parent allocator, should it be asked. */
    predicate MayAsk(size: u64, grant: Option<nat>)
      reads this
    {
      Servable(layout, size) ==>
        && GrowthFor(TotalFor(layout, size)) < U64_LIMIT
        && (grant.Some? ==> Grantable(grant.value, GrowthFor(TotalFor(layout, size))))
    }

    /**
     * cutl_allocator_arena_allocate, once the total size of the block is known. The parent allocator is asked
     * exactly if no chunk can hold the block, and the chunk it grants always can.
     */
    method AllocateTotal(total: u64, grant: Option<nat>)
      returns (res: Outcome, memory: nat, ghost asked: bool, at: Chunk?, block: nat)
      requires Valid() && layout.Minimum() <= total && Divides(layout.align, total)
      requires GrowthFor(total) < U64_LIMIT && (grant.Some? ==> Grantable(grant.value, GrowthFor(total)))
      modifies this, chunks, set c | c in chunks :: c.data
      ensures Valid() && ContentsKept(layout, old(chunks))
      ensures asked <==> forall c | c in old(chunks) :: !old(c.CanHold(total))
      ensures res == if asked && grant.None? then OutOfMemory else Success
      ensures res != Success ==> Untouched()
      ensures res == Success ==>
        && at != null && Served(old(chunks), total, asked, at, block, memory)
        && (asked ==> fresh(at) && fresh(at.data) && at.data.Length >= chunkSize && at.base == grant.value)
        && (!asked ==> IsFirst(old(chunks), at, total))
    {
      hide Arena.Valid, Divides, LiveContentsSame, Chunk.Valid, RoundUp, Chunk.CanHold, HandedOut;
      at := null;
      block := 0;
      memory := 0;
      var i, found := TryChunks(total);
      asked := found == NIL;
      if found == NIL {
        res := Grow(total, grant);
        if res != Success {
          return;
        }
        FreshCanHold(total);
        i := 0;
        found := AllocateFrom(0, total);
        assert chunks == [chunks[0]] + old(chunks);
      }
      memory := chunks[i].base + found + layout.header;
      at, block := chunks[i], found;
      res := Success;
    }

    lemma FreshCanHold(total: nat)
      requires chunks != [] && chunks[0].bump == 0 && chunks[0].data.Length >= total
      ensures chunks[0].CanHold(total)
    {
    }

    /** Chunks further down the list are other objects, with other memory. */
    lemma ChunksDiffer(i: nat)
      requires Valid() && i < |chunks|
      ensures forall c | c in chunks && c != chunks[i] :: c.data != chunks[i].data
    {
    }

    /** Contents that nobody has written to are the same. */
    lemma SameContents()
      ensures forall c | c in chunks :: LiveContentsSame(layout, c.data[..], c.data[..], c.live)
    {
      forall c | c in chunks ensures LiveContentsSame(layout, c.data[..], c.data[..], c.live) {
        LiveContentsReflexive(layout, c.data[..], c.live);
      }
    }

    /** The loop of `allocate` over the chunks it owns. */
    method TryChunks(total: u64) returns (i: nat, found: int)
      requires Valid() && layout.Minimum() <= total && Divides(layout.align, total)
      modifies this`used, chunks, set c | c in chunks :: c.data
      ensures Valid() && ContentsKept(layout, chunks)
      ensures found == NIL <==> forall c | c in chunks :: !old(c.CanHold(total))
      ensures found == NIL ==> Untouched()
      ensures found != NIL ==>
        && found >= 0 && i < |chunks| && OtherChunksUntouched(chunks, chunks[i])
        && HandedOut(chunks[i], old(chunks[i].live), found, total)
        && used == old(used) + total
        && forall j | 0 <= j < i :: !old(chunks[j].CanHold(total))
    {
      hide Arena.Valid, Divides, LiveContentsSame, Chunk.Valid, Chunk.CanHold, HandedOut;
      i, found := 0, NIL;
      SameContents();
      while i < |chunks|
        invariant i <= |chunks| && found == NIL && Valid() && unchanged(this)
        invariant forall c | c in chunks :: unchanged(c) && unchanged(c.data)
        invariant forall j | 0 <= j < i :: !old(chunks[j].CanHold(total))
      {
        ChunksDiffer(i);
        assert chunks[i].data[..] == old(chunks[i].data[..]);
        found := AllocateFrom(i, total);
        if found != NIL {
          forall c | c in chunks && c != chunks[i]
            ensures LiveContentsSame(layout, old(c.data[..]), c.data[..], old(c.live))
          {
            assert c.data[..] == old(c.data[..]);
          }
          assert old(chunks[i].CanHold(total));
          return;
        }
        i := i + 1;
      }
      forall c | c in chunks
        ensures LiveContentsSame(layout, old(c.data[..]), c.data[..], old(c.live)) && !old(c.CanHold(total))
      {
        var j :| 0 <= j < |chunks| && chunks[j] == c;
        assert c.data[..] == old(c.data[..]);
      }
    }

    /** The address is where the user's memory of a block at offset `block` of chunk `i` would start. */
    ghost predicate Locates(memory: nat, i: nat, block: nat)
      reads this`chunks
    {
      i < |chunks| && memory == chunks[i].base + block + layout.header && block + layout.header < chunks[i].data.Length
    }

    /** What the arena reports about an address in its chunks, going by the magic number in front of it. */
    static function MagicVerdict(m: Magic): Outcome {
      match m
      case MagicUsed => Success
      case MagicFree => DoubleDeallocation
      case MagicOther => CorruptedPointer
    }

    lemma RangesOf(i: nat, j: nat)
      requires Valid() && i < j < |chunks|
      ensures RangesApart(chunks[i].base, chunks[i].data.Length, chunks[j].base, chunks[j].data.Length)
    {
    }

    /** An address belongs to at most one chunk. */
    lemma LocatesIsUnique(memory: nat, i: nat, b: nat, j: nat, c: nat)
      requires Valid() && Locates(memory, i, b) && Locates(memory, j, c)
      ensures i == j && b == c
    {
      hide Arena.Valid;
      if i < j {
        RangesOf(i, j);
      } else if j < i {
        RangesOf(j, i);
      }
    }

    /** What the arena says about an address: it is not its own, or what the magic number in front of it says. */
    ghost function Report(memory: nat): Outcome
      reads this`chunks, chunks, set c | c in chunks :: c.data
    {
      if exists i: nat, b: nat :: Locates(memory, i, b) then
        var i: nat, b: nat :| Locates(memory, i, b);
        MagicVerdict(MagicOf(chunks[i].data[b]))
      else
        MismatchedAllocator
    }

    lemma ReportIs(memory: nat, i: nat, b: nat)
      requires Valid() && Locates(memory, i, b)
      ensures Report(memory) == MagicVerdict(MagicOf(chunks[i].data[b]))
    {
      hide Arena.Valid;
      var j: nat, c: nat :| Locates(memory, j, c) && Report(memory) == MagicVerdict(MagicOf(chunks[j].data[c]));
      LocatesIsUnique(memory, i, b, j, c);
    }

    /**
     * What an address gets reported as: it is mismatched if it lies in no chunk, or has no room for a header in front
     * of it, and otherwise the magic number that stands there decides.
     */
    lemma ReportMeans(memory: nat)
      requires Valid()
      ensures Report(memory) == MismatchedAllocator <==>
          forall j | 0 <= j < |chunks| ::
            !(chunks[j].base + layout.header <= memory < chunks[j].base + chunks[j].data.Length)
      ensures forall j | 0 <= j < |chunks| &&
          chunks[j].base + layout.header <= memory < chunks[j].base + chunks[j].data.Length ::
            var cell := chunks[j].data[memory - chunks[j].base - layout.header];
            && (Report(memory) == Success <==> cell.Header? && cell.magic == MagicUsed)
            && (Report(memory) == DoubleDeallocation <==> cell.Header? && cell.magic == MagicFree)
            && (Report(memory) == CorruptedPointer <==>
                  cell.Header? ==> cell.magic != MagicUsed && cell.magic != MagicFree)
    {
      hide Arena.Valid, Arena.Report;
      forall j | 0 <= j < |chunks| &&
        chunks[j].base + layout.header <= memory < chunks[j].base + chunks[j].data.Length
        ensures Report(memory) ==
          MagicVerdict(MagicOf(chunks[j].data[memory - chunks[j].base - layout.header]))
      {
        ReportIs(memory, j, memory - chunks[j].base - layout.header);
      }
      if forall j | 0 <= j < |chunks| ::
        !(chunks[j].base + layout.header <= memory < chunks[j].base + chunks[j].data.Length)
      {
        ForeignIsMismatched(memory);
      }
    }

    lemma ForeignIsMismatched(memory: nat)
      requires forall j | 0 <= j < |chunks| ::
          !(chunks[j].base + layout.header <= memory < chunks[j].base + chunks[j].data.Length)
      ensures Report(memory) == MismatchedAllocator
    {
      forall i: nat, b: nat | Locates(memory, i, b) ensures false {
      }
    }

    /** block_from_pointer */
    method BlockFromPointer(memory: nat) returns (res: Outcome, i: nat, block: nat)
      requires Valid()
      ensures res == Report(memory)
      ensures res != MismatchedAllocator ==> Locates(memory, i, block)
      ensures res == MismatchedAllocator <==>
          forall j | 0 <= j < |chunks| ::
            !(chunks[j].base + layout.header <= memory < chunks[j].base + chunks[j].data.Length)
      ensures res != MismatchedAllocator ==>
        && i < |chunks| && block == memory - chunks[i].base - layout.header && block < chunks[i].data.Length
        && var cell := chunks[i].data[block];
          && (res == Success <==> cell.Header? && cell.magic == MagicUsed)
          && (res == DoubleDeallocation <==> cell.Header? && cell.magic == MagicFree)
          && (res == CorruptedPointer <==> cell.Header? ==> cell.magic != MagicUsed && cell.magic != MagicFree)
    {
      hide Chunk.Valid, Arena.Valid, Arena.Report;
      ReportMeans(memory);
      i, block := 0, 0;
      while i < |chunks| && !(chunks[i].base <= memory < chunks[i].base + chunks[i].data.Length)
        invariant i <= |chunks|
        invariant forall j: nat, b: nat | Locates(memory, j, b) :: j >= i
      {
        i := i + 1;
      }
      if i == |chunks| || memory - chunks[i].base < layout.header {
        NoneLocates(memory, i);
        res := MismatchedAllocator;
        return;
      }
      block := memory - chunks[i].base - layout.header;
      ReportIs(memory, i, block);
      var cell := chunks[i].data[block];
      if MagicOf(cell) == MagicFree {
        return DoubleDeallocation, i, block;
      }
      res := if MagicOf(cell) != MagicUsed then CorruptedPointer else Success;
    }

    lemma NoneLocates(memory: nat, i: nat)
      requires Valid() && i <= |chunks| && forall j: nat, b: nat | Locates(memory, j, b) :: j >= i
      requires i < |chunks| ==>
        chunks[i].base <= memory < chunks[i].base + chunks[i].data.Length && memory - chunks[i].base < layout.header
      ensures Report(memory) == MismatchedAllocator
    {
      hide Arena.Valid;
      forall j: nat, b: nat | Locates(memory, j, b) ensures false {
        InRangeLocates(memory, i, j, b);
      }
    }

    lemma InRangeLocates(memory: nat, i: nat, j: nat, b: nat)
      requires Valid() && Locates(memory, j, b) && i <= j
      requires i < |chunks| ==> chunks[i].base <= memory < chunks[i].base + chunks[i].data.Length
      ensures i < |chunks| && memory - chunks[i].base >= layout.header
    {
      hide Arena.Valid;
      if i < j {
        RangesOf(i, j);
      }
    }

    /** Where a used magic number stands in front of this address there is a live block: it is not a stale pointer. */
    ghost predicate Genuine(memory: nat)
      reads this`chunks, chunks, set c | c in chunks :: c.data
    {
      forall i: nat, b: nat | Locates(memory, i, b) ::
        MagicOf(chunks[i].data[b]) == MagicUsed ==> b in chunks[i].live
    }

    /** Handed-out addresses are genuine and report success; those of free blocks report a double deallocation. */
    lemma LiveIsGenuine(memory: nat, i: nat, b: nat)
      requires Valid() && i < |chunks| && memory == chunks[i].base + b + layout.header
      ensures b in chunks[i].live ==>
        && Locates(memory, i, b) && Genuine(memory) && MagicOf(chunks[i].data[b]) == MagicUsed
        && Report(memory) == Success
      ensures (exists k :: 0 <= k < |chunks[i].frees| && chunks[i].frees[k].start == b) ==>
        && Locates(memory, i, b) && Genuine(memory) && MagicOf(chunks[i].data[b]) == MagicFree
        && Report(memory) == DoubleDeallocation
    {
      hide Arena.Genuine, Arena.Report, Divides, SumOverChunks, FreesPlaced, FreesTagged, LivePlaced, LiveTagged, LiveApartFromFrees;
      var c := chunks[i];
      assert c.Valid() && c.layout == layout;
      if b in c.live {
        LiveReads(layout, c.data[..], c.bump, c.freeList, c.live, c.frees, b);
        OneLocates(memory, i, b);
        ReportIs(memory, i, b);
      }
      if k :| 0 <= k < |c.frees| && c.frees[k].start == b {
        NodeReads(layout, c.data[..], c.bump, c.freeList, c.live, c.frees, k);
        OneLocates(memory, i, b);
        ReportIs(memory, i, b);
      }
    }

    lemma OneLocates(memory: nat, i: nat, b: nat)
      requires Valid() && Locates(memory, i, b)
      requires MagicOf(chunks[i].data[b]) == MagicUsed ==> b in chunks[i].live
      ensures Genuine(memory)
    {
      hide Arena.Valid;
      forall j: nat, c: nat | Locates(memory, j, c) ensures MagicOf(chunks[j].data[c]) == MagicUsed ==> c in chunks[j].live {
        LocatesIsUnique(memory, i, b, j, c);
      }
    }

    /** The live block `block` of chunk `i`, to which `memory` leads, was put back on the free list. */
    twostate predicate TakenBack(memory: nat, i: nat, block: nat)
      reads this, chunks, set c | c in chunks :: c.data
    {
      && chunks == old(chunks) && Locates(memory, i, block) && OtherChunksUntouched(chunks, chunks[i])
      && block in old(chunks[i].live) && chunks[i].live == old(chunks[i].live) - {block}
      && used == old(used) - old(chunks[i].live[block])
    }

    /**
     * cutl_allocator_arena_deallocate. The null pointer is accepted; any other address has to lead to a live block
     * of the arena, or the attempt is reported and changes nothing.
     */
    method Deallocate(memory: nat) returns (res: Outcome, ghost i: nat, ghost block: nat)
      requires Valid() && Genuine(memory)
      modifies this`used, chunks, set c | c in chunks :: c.data
      ensures Valid()
      ensures res == if memory == 0 then Success else old(Report(memory))
      ensures memory == 0 || res != Success ==> Untouched()
      ensures memory != 0 && res == Success ==> TakenBack(memory, i, block)
      // from now on, giving it back is reported
      ensures memory != 0 && res == Success ==> Report(memory) == DoubleDeallocation
      ensures ContentsRemain(layout, chunks)
    {
      hide Arena.Valid, Divides, LiveContentsSame, Chunk.Valid, SumLive, Arena.Report;
      i, block := 0, 0;
      SameContents();
      if memory == 0 {
        res := Success;
        return;
      }
      var at, b;
      res, at, b := BlockFromPointer(memory);
      i, block := at, b;
      if res != Success {
        return;
      }
      ReportIs(memory, at, b);
      ReadyToTakeBack(at, b);
      ChunksDiffer(at);
      TakeBackFrom(at, b);
      LiveIsGenuine(memory, at, b);
    }

    /** The part of `deallocate` behind its checks. */
    method TakeBackFrom(i: nat, block: nat)
      requires Valid() && i < |chunks| && block in chunks[i].live
      modifies this`used, chunks[i], chunks[i].data
      ensures Valid()
      ensures chunks[i].live == old(chunks[i].live) - {block}
      ensures exists k :: 0 <= k < |chunks[i].frees| && chunks[i].frees[k].start == block
      ensures used == old(used) - old(chunks[i].live[block])
      ensures LiveContentsSame(layout, old(chunks[i].data[..]), chunks[i].data[..], chunks[i].live)
    {
      hide Carved, Divides, SumLive, LiveContentsSame, Spare;
      ReadyToTakeBack(i, block);
      var chunk := chunks[i];
      ghost var live, frees := chunk.live, chunk.frees;
      var size := chunk.data[block].size;
      chunk.TakeBack(block);
      assert exists k :: 0 <= k < |chunk.frees| && chunk.frees[k].start == block by {
        ghost var k: nat :| k <= |frees| && chunk.frees == InsertAt(frees, k, Span(block, live[block]));
        assert chunk.frees[k].start == block;
      }
      used := used - size;
      SumLiveWithout(live, block);
      OneChunkChanged(i);
    }

    lemma ReadyToTakeBack(i: nat, b: nat)
      requires Valid() && i < |chunks| && b in chunks[i].live
      ensures chunks[i].Valid() && chunks[i].layout == layout
      ensures b < chunks[i].data.Length && chunks[i].data[b] == Header(chunks[i].live[b], MagicUsed)
      ensures used >= chunks[i].live[b]
      ensures layout.header < chunks[i].live[b] && b + chunks[i].live[b] <= chunks[i].data.Length
    {
      hide Divides, FreesPlaced, FreesTagged, LivePlaced, LiveTagged, LiveApartFromFrees, SumOverChunks, SumLive;
      var c := chunks[i];
      assert c.Valid() && c.layout == layout;
      LiveReads(layout, c.data[..], c.bump, c.freeList, c.live, c.frees, b);
      SumLiveWithout(c.live, b);
      SumIsNotLess(Lives(), i);
    }

    /** An overlapping view for any chunk of the list. */
    lemma ChunkIsSound(c: Chunk)
      requires Valid() && c in chunks
      ensures c.Valid() && c.layout == layout && c.base > 0
      ensures exists i: nat :: i < |chunks| && chunks[i] == c
    {
      hide Chunk.Valid, Divides, SumOverChunks;
    }

    lemma DataDiffers(c: Chunk, d: Chunk)
      requires Valid() && c in chunks && d in chunks && c != d
      ensures c.data != d.data
    {
      hide Arena.Valid;
      ChunkIsSound(c);
      var i: nat :| i < |chunks| && chunks[i] == c;
      ChunksDiffer(i);
    }

    /** Copies what a block holds into another one. */
    method CopyBlock(at: Chunk, block: nat, from: Chunk, source: nat, n: nat)
      requires Valid() && at in chunks && from in chunks
      requires block in at.live && source in from.live && (at == from ==> source != block)
      requires layout.header + n <= at.live[block] && layout.header + n <= from.live[source]
      modifies at.data
      ensures Valid()
      ensures forall t | t in at.live && t != block ::
        SameUserMemory(layout, old(at.data[..]), at.data[..], LiveSpan(at.live, t))
      ensures Copied(old(from.data[..]), source + layout.header, at.data[..], block + layout.header, n)
    {
      hide Arena.Valid, Chunk.Valid, SumLive, SameUserMemory, Copied;
      ChunkIsSound(at);
      ChunkIsSound(from);
      ghost var i: nat :| i < |chunks| && chunks[i] == at;
      ChunksDiffer(i);
      ChunksAreDistinct(i);
      at.CopyFrom(block, from, source, n);
      OneChunkChanged(i);
    }

    /** A client writes a byte into the memory of its block. */
    method ClientWrite(c: Chunk, block: nat, offset: nat, byte: u8)
      requires Valid() && c in chunks && block in c.live && layout.header <= offset < c.live[block]
      modifies c.data
      ensures Valid() && block + offset < c.data.Length
      ensures c.data[..] == old(c.data[..])[block + offset := Raw(byte)]
      ensures forall d | d in chunks && d != c :: d.data != c.data
      ensures forall t | t in c.live && t != block ::
        SameUserMemory(layout, old(c.data[..]), c.data[..], LiveSpan(c.live, t))
    {
      hide Arena.Valid, Chunk.Valid, SumLive, SameUserMemory;
      ChunkIsSound(c);
      ghost var i: nat :| i < |chunks| && chunks[i] == c;
      ChunksDiffer(i);
      ChunksAreDistinct(i);
      c.ClientWrite(block, offset, byte);
      OneChunkChanged(i);
    }

    lemma ChunksAreDistinct(i: nat)
      requires Valid() && i < |chunks|
      ensures forall j | 0 <= j < |chunks| && j != i :: chunks[j] != chunks[i] && chunks[j].data != chunks[i].data
    {
    }

    /** The part of `reallocate` that moves a block: allocate, copy, and give the old block back. */
    method MoveBlock(memory: nat, size: u64, grant: Option<nat>, from: Chunk, block: nat)
      returns (res: Outcome, moved: nat, ghost asked: bool, at: Chunk?, nb: nat)
      requires Valid() && MayAsk(size, grant) && Servable(layout, size)
      requires from in chunks && block in from.live && memory == from.base + block + layout.header
      requires TotalFor(layout, size) > from.live[block]
      modifies this, chunks, set c | c in chunks :: c.data
      ensures Valid() && OnlyNewChunks(chunks, old(chunks))
      ensures asked <==> forall c | c in old(chunks) :: !old(c.CanHold(TotalFor(layout, size)))
      ensures res == if asked && grant.None? then OutOfMemory else Success
      ensures res != Success ==> Untouched()
      ensures res == Success ==>
        && at != null && at in chunks && (asked ==> fresh(at) && fresh(at.data))
        && ChunksAre(old(chunks), asked, at)
        && nb in at.live && at.live[nb] == TotalFor(layout, size) && moved == at.base + nb + layout.header
        && block !in from.live && used == old(used) + TotalFor(layout, size) - old(from.live[block])
      ensures res == Success ==>
        && Copied(old(from.data[..]), block + layout.header, at.data[..], nb + layout.header,
                  old(from.live[block]) - layout.header)
        && OthersKept(layout, old(chunks), from, block)
        && NothingElseLive(chunks, old(chunks), from, block, at, nb)
    {
      hide Arena.Valid, LiveContentsSame, Chunk.Valid, RoundUp, Chunk.CanHold, SameUserMemory, Copied;
      hide Arena.Locates, Arena.Genuine, Arena.Report, Arena.MayAsk, Servable, TotalFor, Layout.Valid;
      hide Arena.Served, HandedOut, Arena.ChunksAre, RangesApart;
      ghost var cs := chunks;
      res, moved, asked, at, nb := Allocate(size, grant);
      if res != Success {
        return;
      }
      label served:
      HasHeader(from, block);
      LiveContentsSaid(layout, old(from.data[..]), from.data[..], old(from.live), block);
      assert forall k | 0 <= k < |chunks| && chunks[k] !in cs :: fresh(chunks[k]) && fresh(chunks[k].data);
      GiveToNew(at, nb, from, block, memory);
      CopiedFromSame(layout, old(from.data[..]), old@served(from.data[..]), LiveSpan(old(from.live), block),
                     at.data[..], nb + layout.header);
      forall c, t | c in cs && t in old(c.live) && !(c == from && t == block)
        ensures t in c.live && c.live[t] == old(c.live[t])
        ensures SameUserMemory(layout, old(c.data[..]), c.data[..], LiveSpan(c.live, t))
      {
        LiveContentsSaid(layout, old(c.data[..]), old@served(c.data[..]), old(c.live), t);
        assert t in old@served(c.live);
        SameUserMemoryTwice(layout, old(c.data[..]), old@served(c.data[..]), c.data[..], LiveSpan(c.live, t));
      }
      forall c, t | c in chunks && t in c.live && !(c == at && t == nb)
        ensures c in cs && t in old(c.live) && !(c == from && t == block)
      {
        assert t in old@served(c.live);
      }
    }

    lemma HasHeader(c: Chunk, block: nat)
      requires Valid() && c in chunks && block in c.live
      ensures layout.header <= c.live[block]
    {
      hide Arena.Valid, Chunk.Valid;
      FoundAgain(c, block, c.base + block + layout.header);
    }

    /** `deallocate` of an address that is known to be that of a live block. */
    method GiveBack(from: Chunk, block: nat, memory: nat)
      requires Valid() && from in chunks && block in from.live && memory == from.base + block + layout.header
      modifies this`used, chunks, set c | c in chunks :: c.data
      ensures Valid() && unchanged(this`chunks) && used == old(used) - old(from.live[block])
      ensures forall c | c in chunks :: c.live == if c == from then old(c.live) - {block} else old(c.live)
      ensures ContentsRemain(layout, chunks)
    {
      hide Arena.Valid, LiveContentsSame, Chunk.Valid, Arena.Locates, Arena.Genuine, Arena.Report;
      FoundAgain(from, block, memory);
      ghost var i, b;
      var r;
      r, i, b := Deallocate(memory);
      SameChunk(memory, from, block, i, b);
    }

    /** Copies a block into a larger one and gives it back. */
    method GiveToNew(at: Chunk, nb: nat, from: Chunk, block: nat, memory: nat)
      requires Valid() && at in chunks && from in chunks
      requires nb in at.live && block in from.live && (at == from ==> nb != block)
      requires memory == from.base + block + layout.header && from.live[block] <= at.live[nb]
      modifies this`used, chunks, set c | c in chunks :: c.data
      ensures Valid() && unchanged(this`chunks) && used == old(used) - old(from.live[block])
      ensures forall c | c in chunks :: c.live == if c == from then old(c.live) - {block} else old(c.live)
      ensures Copied(old(from.data[..]), block + layout.header, at.data[..], nb + layout.header,
                     old(from.live[block]) - layout.header)
      ensures OthersSame(layout, chunks, at, nb)
    {
      hide Arena.Valid, LiveContentsSame, Chunk.Valid, SameUserMemory, Copied, Arena.Locates, Arena.Genuine, Arena.Report;
      FoundAgain(from, block, memory);
      var n := from.data[block].size - layout.header;
      CopyBlock(at, nb, from, block, n);
      label copied:
      GiveBack(from, block, memory);
      forall c, t | c in chunks && t in c.live && !(c == at && t == nb)
        ensures SameUserMemory(layout, old(c.data[..]), c.data[..], LiveSpan(c.live, t))
      {
        LiveContentsSaid(layout, old@copied(c.data[..]), c.data[..], c.live, t);
        if c == at {
          SameUserMemoryTwice(layout, old(c.data[..]), old@copied(c.data[..]), c.data[..], LiveSpan(c.live, t));
        } else {
          DataDiffers(c, at);
          assert old@copied(c.data[..]) == old(c.data[..]);
        }
      }
      LiveContentsSaid(layout, old@copied(at.data[..]), at.data[..], at.live, nb);
      CopiedStays(layout, old(from.data[..]), block + layout.header, old@copied(at.data[..]), at.data[..],
                  LiveSpan(at.live, nb), n);
    }

    /** Free block `k` of the chunk lies right behind `block` and makes up for what it lacks. */
    ghost predicate CanAbsorb(c: Chunk, block: nat, k: nat, total: nat)
      reads c
    {
      && block in c.live && k < |c.frees| && c.frees[k].start == block + c.live[block]
      && c.live[block] + c.frees[k].size >= total
    }

    lemma AbsorbMeans(c: Chunk, block: nat, total: nat)
      requires block in c.live
      ensures (exists k: nat :: CanAbsorb(c, block, k, total)) <==>
          exists k :: 0 <= k < |c.frees| && c.frees[k].start == block + c.live[block] &&
            c.live[block] + c.frees[k].size >= total
    {
      forall k | 0 <= k < |c.frees| && c.frees[k].start == block + c.live[block] &&
        c.live[block] + c.frees[k].size >= total
        ensures exists j: nat :: CanAbsorb(c, block, j, total)
      {
        assert CanAbsorb(c, block, k, total);
      }
    }

    /** The part of `reallocate` that grows a block where it is. */
    method GrowBlock(i: nat, block: nat, behind: nat, ghost k: nat, ghost total: nat)
      requires Valid() && i < |chunks| && CanAbsorb(chunks[i], block, k, total) && behind == chunks[i].frees[k].start
      modifies this`used, chunks[i], chunks[i].data
      ensures Valid()
      ensures chunks[i].live == old(chunks[i].live[block := chunks[i].live[block] + chunks[i].frees[k].size])
      ensures chunks[i].frees == RemoveAt(old(chunks[i].frees), k) && chunks[i].bump == old(chunks[i].bump)
      ensures used == old(used) + old(chunks[i].frees[k].size)
      ensures LiveContentsSame(layout, old(chunks[i].data[..]), chunks[i].data[..], old(chunks[i].live))
    {
      hide Carved, SumLive, LiveContentsSame, RemoveAt;
      var chunk := chunks[i];
      ghost var live := chunk.live;
      FreeReads(i, block, k);
      used := used + chunk.data[behind].size;
      chunk.Absorb(block, behind, k);
      SumLiveWithout(live, block);
      SumLiveWithout(chunk.live, block);
      assert chunk.live - {block} == live - {block};
      OneChunkChanged(i);
    }

    lemma FreeReads(i: nat, block: nat, k: nat)
      requires Valid() && i < |chunks| && k < |chunks[i].frees| && block in chunks[i].live
      ensures var c := chunks[i];
        && c.Valid() && c.layout == layout && c.frees[k].start < c.data.Length
        && c.data[c.frees[k].start] == Header(c.frees[k].size, MagicFree)
        && (c.frees[k].start == block + c.live[block] ==> c.live[block] + c.frees[k].size < U64_LIMIT)
    {
      hide Divides, FreesPlaced, FreesTagged, LivePlaced, LiveTagged, LiveApartFromFrees, SumOverChunks;
      var c := chunks[i];
      assert c.Valid() && c.layout == layout;
      NodeReads(layout, c.data[..], c.bump, c.freeList, c.live, c.frees, k);
    }

    /** Free block `k` starts right behind block `b` of chunk `i`, or none does. */
    ghost predicate IsBehind(i: nat, b: nat, behind: int, k: nat)
      requires i < |chunks| && b in chunks[i].live
      reads this`chunks, chunks, set c | c in chunks :: c.data
    {
      var c := chunks[i];
      if behind == NIL then
        forall j | 0 <= j < |c.frees| :: c.frees[j].start != b + c.live[b]
      else
        && k < |c.frees| && behind == c.frees[k].start == b + c.live[b]
        && behind < c.data.Length && c.data[behind].Header?
        && c.data[behind].size == c.frees[k].size
        && c.live[b] + c.frees[k].size < U64_LIMIT
    }

    /** Nothing but the free block right behind can be found there. */
    method FindBehind(i: nat, block: nat) returns (behind: int, ghost k: nat)
      requires Valid() && i < |chunks| && block in chunks[i].live
      ensures IsBehind(i, block, behind, k)
    {
      hide Carved;
      ReadyToTakeBack(i, block);
      behind, k := chunks[i].FreeListFind(block + chunks[i].data[block].size);
      if behind != NIL {
        FreeReads(i, block, k);
      }
    }

    /** Block `i` of the chunk list gave its contents to `moved`, and no other live block was disturbed. */
    twostate predicate Carried(cs: seq<Chunk>, from: Chunk, block: nat, new at: Chunk, nb: nat, moved: nat, total: nat)
      reads this, at, at.data, cs, chunks, set c | c in cs :: c.data
    {
      && at in chunks && nb in at.live && at.live[nb] >= total && moved == at.base + nb + layout.header
      && block in old(from.live) && layout.header <= old(from.live[block]) <= at.live[nb]
      && Copied(old(from.data[..]), block + layout.header, at.data[..], nb + layout.header,
                old(from.live[block]) - layout.header)
      && (forall c | c in cs :: c in chunks) && OthersKept(layout, cs, from, block)
      && NothingElseLive(chunks, cs, from, block, at, nb)
      && used == old(used) - old(from.live[block]) + at.live[nb]
    }

    /** Growing a block where it is carries its contents and disturbs no other block. */
    method GrowHere(i: nat, b: nat, behind: nat, ghost k: nat, ghost total: nat)
      requires Valid() && i < |chunks| && CanAbsorb(chunks[i], b, k, total) && behind == chunks[i].frees[k].start
      modifies this`used, chunks[i], chunks[i].data
      ensures Valid() && Carried(chunks, chunks[i], b, chunks[i], b, chunks[i].base + b + layout.header, total)
    {
      hide Arena.Valid, LiveContentsSame, Chunk.Valid, SameUserMemory, Copied, SumLive;
      ReadyToTakeBack(i, b);
      ChunksDiffer(i);
      var chunk := chunks[i];
      GrowBlock(i, b, behind, k, total);
      forall c, t | c in chunks && t in old(c.live) && !(c == chunk && t == b)
        ensures t in c.live && c.live[t] == old(c.live[t])
        ensures SameUserMemory(layout, old(c.data[..]), c.data[..], LiveSpan(c.live, t))
      {
        if c == chunk {
          LiveContentsSaid(layout, old(chunk.data[..]), chunk.data[..], old(chunk.live), t);
        } else {
          assert c.data[..] == old(c.data[..]);
          LiveContentsReflexive(layout, c.data[..], c.live);
          LiveContentsSaid(layout, c.data[..], c.data[..], c.live, t);
        }
      }
      LiveContentsSaid(layout, old(chunk.data[..]), chunk.data[..], old(chunk.live), b);
      ContentsAreCopied(layout, old(chunk.data[..]), chunk.data[..], LiveSpan(old(chunk.live), b));
    }

    /** A block that stays as it is carries its contents. */
    ghost method KeepHere(i: nat, b: nat, total: nat)
      requires Valid() && i < |chunks| && b in chunks[i].live && chunks[i].live[b] >= total
      ensures Carried(chunks, chunks[i], b, chunks[i], b, chunks[i].base + b + layout.header, total)
    {
      hide Arena.Valid, LiveContentsSame, Chunk.Valid, SameUserMemory, Copied, SumLive;
      var chunk := chunks[i];
      KeptAsItIs(chunk, b);
      forall c, t | c in chunks && t in old(c.live) && !(c == chunk && t == b)
        ensures t in c.live && c.live[t] == old(c.live[t])
        ensures SameUserMemory(layout, old(c.data[..]), c.data[..], LiveSpan(c.live, t))
      {
        assert c.data[..] == old(c.data[..]);
      }
    }

    /**
     * The part of `reallocate` behind its checks. A block that is large enough stays as it is, one in front of a free
     * block that makes up the difference absorbs it, and any other block moves.
     */
    method ResizeLive(memory: nat, i: nat, b: nat, size: u64, total: u64, grant: Option<nat>)
      returns (res: Outcome, moved: nat, at: Chunk?, nb: nat)
      requires Valid() && MayAsk(size, grant) && Servable(layout, size) && total == TotalFor(layout, size)
      requires i < |chunks| && b in chunks[i].live && memory == chunks[i].base + b + layout.header
      modifies this, chunks, set c | c in chunks :: c.data
      ensures Valid() && OnlyNewChunks(chunks, old(chunks))
      ensures res == Success || (res == OutOfMemory && Untouched())
      ensures total <= old(chunks[i].live[b]) ==> res == Success && Untouched()
      ensures total <= old(chunks[i].live[b]) || (exists k: nat :: old(CanAbsorb(chunks[i], b, k, total))) ==>
        res == Success && moved == memory && at == old(chunks[i]) && chunks == old(chunks)
      ensures grant.Some? || (exists c :: c in old(chunks) && old(c.CanHold(total))) ==> res == Success
      ensures res == Success ==> at != null && Carried(old(chunks), old(chunks[i]), b, at, nb, moved, total)
    {
      hide Arena.Valid, LiveContentsSame, Chunk.Valid, RoundUp, Chunk.CanHold, SameUserMemory, Copied;
      hide Arena.Locates, Arena.Genuine, Arena.Report, Arena.MayAsk, TotalFor, Layout.Valid, WrappedTotalFor, SumLive;
      hide Servable;
      ReadyToTakeBack(i, b);
      var chunk := chunks[i];
      res, moved, at, nb := Success, memory, chunk, b;
      if total <= chunk.data[b].size {
        KeepHere(i, b, total);
        return;
      }
      ghost var k;
      var behind;
      behind, k := FindBehind(i, b);
      assert forall j: nat | old(CanAbsorb(chunk, b, j, total)) :: CanAbsorb(chunk, b, j, total);
      res, moved, at, nb := GrowOrMove(memory, i, b, behind, k, size, total, grant);
    }

    /** A block that is too small grows into the free block `k` behind it, if there is one that is large enough. */
    method GrowOrMove(memory: nat, i: nat, b: nat, behind: int, ghost k: nat, size: u64, total: u64, grant: Option<nat>)
      returns (res: Outcome, moved: nat, at: Chunk?, nb: nat)
      requires Valid() && MayAsk(size, grant) && Servable(layout, size) && total == TotalFor(layout, size)
      requires i < |chunks| && b in chunks[i].live && memory == chunks[i].base + b + layout.header
      requires total > chunks[i].live[b] && IsBehind(i, b, behind, k)
      modifies this, chunks, set c | c in chunks :: c.data
      ensures Valid() && OnlyNewChunks(chunks, old(chunks))
      ensures res == Success || (res == OutOfMemory && Untouched())
      ensures (exists j: nat :: old(CanAbsorb(chunks[i], b, j, total))) ==>
        res == Success && moved == memory && at == old(chunks[i]) && chunks == old(chunks)
      ensures grant.Some? || (exists c :: c in old(chunks) && old(c.CanHold(total))) ==> res == Success
      ensures res == Success ==> at != null && Carried(old(chunks), old(chunks[i]), b, at, nb, moved, total)
    {
      hide Arena.Valid, LiveContentsSame, Chunk.Valid, RoundUp, Chunk.CanHold, SameUserMemory, Copied;
      hide Arena.Locates, Arena.Genuine, Arena.Report, Arena.MayAsk, TotalFor, Layout.Valid, WrappedTotalFor, SumLive;
      hide Servable;
      ReadyToTakeBack(i, b);
      var chunk := chunks[i];
      res, moved, at, nb := Success, memory, chunk, b;
      if behind != NIL && chunk.data[b].size + chunk.data[behind].size >= total {
        assert CanAbsorb(chunk, b, k, total);
        GrowHere(i, b, behind, k, total);
        return;
      }
      FreesStartApart(i);
      ghost var asked;
      res, moved, asked, at, nb := MoveBlock(memory, size, grant, chunk, b);
    }

    /** cutl_allocator_arena_reallocate for a request that is not empty. */
    method Resize(memory: nat, size: u64, grant: Option<nat>)
      returns (res: Outcome, moved: nat, ghost from: Chunk?, ghost block: nat, at: Chunk?, nb: nat)
      requires Valid() && Genuine(memory) && MayAsk(size, grant) && size > 0
      modifies this, chunks, set c | c in chunks :: c.data
      ensures Valid() && OnlyNewChunks(chunks, old(chunks))
      ensures res != Success ==> Untouched()
      ensures old(Report(memory)) != Success ==> res == old(Report(memory))
      ensures old(Report(memory)) == Success ==>
        && from != null && from in old(chunks) && block in old(from.live) && memory == from.base + block + layout.header
        && (!Servable(layout, size) ==> res == OutOfMemory)
        // a block stays where it is if it is large enough, or together with a free block right behind it
        && (Servable(layout, size) && (TotalFor(layout, size) <= old(from.live[block]) ||
              exists k :: 0 <= k < |old(from.frees)| && old(from.frees[k].start == block + from.live[block] &&
                from.live[block] + from.frees[k].size >= TotalFor(layout, size))) ==>
              res == Success && moved == memory && at == from && chunks == old(chunks))
        && (Servable(layout, size) && grant.Some? ==> res == Success)
        && (Servable(layout, size) && (exists c :: c in old(chunks) && old(c.CanHold(TotalFor(layout, size)))) ==>
              res == Success)
        && (res == Success || res == OutOfMemory)
      ensures res == Success ==>
        at != null && Carried(old(chunks), from, block, at, nb, moved, TotalFor(layout, size))
      ensures res == Success && TotalFor(layout, size) <= old(from.live[block]) ==> Untouched()
    {
      hide Arena.Valid, LiveContentsSame, Chunk.Valid, RoundUp, Chunk.CanHold, SameUserMemory, Copied;
      hide Arena.Locates, Arena.Genuine, Arena.Report, Arena.MayAsk, TotalFor, Layout.Valid, WrappedTotalFor, SumLive;
      hide Arena.CanAbsorb;
      LayoutIsValid();
      moved, at, nb, block, from := 0, null, 0, 0, null;
      var i, b;
      res, i, b := BlockFromPointer(memory);
      if res != Success {
        return;
      }
      LocatedIsLive(memory, i, b);
      var chunk := chunks[i];
      from, block := chunk, b;
      WrapTestIsExact(layout, size);
      var total := WrappedTotalFor(layout, size);
      if total < size {
        res := OutOfMemory;
        return;
      }
      AbsorbMeans(chunk, b, total);
      res, moved, at, nb := ResizeLive(memory, i, b, size, total, grant);
    }

    /**
     * cutl_allocator_arena_reallocate: a request for nothing gives the block back, and any other one is a matter
     * for `Resize`.
     */
    method Reallocate(memory: nat, size: u64, grant: Option<nat>)
      returns (res: Outcome, moved: nat, ghost i: nat, ghost from: Chunk?, ghost block: nat, at: Chunk?, nb: nat)
      requires Valid() && Genuine(memory) && MayAsk(size, grant)
      modifies this, chunks, set c | c in chunks :: c.data
      ensures Valid() && OnlyNewChunks(chunks, old(chunks))
      ensures res != Success ==> Untouched()
      ensures size == 0 ==>
        && moved == 0 && res == (if memory == 0 then Success else old(Report(memory)))
        && (memory == 0 ==> Untouched()) && (memory != 0 && res == Success ==> TakenBack(memory, i, block))
        && ContentsRemain(layout, chunks)
      ensures size > 0 && old(Report(memory)) != Success ==> res == old(Report(memory))
      ensures size > 0 && old(Report(memory)) == Success ==>
        && from != null && from in old(chunks) && block in old(from.live) && memory == from.base + block + layout.header
        && (!Servable(layout, size) ==> res == OutOfMemory)
        && (Servable(layout, size) && grant.Some? ==> res == Success)
      ensures size > 0 && res == Success ==>
        at != null && Carried(old(chunks), from, block, at, nb, moved, TotalFor(layout, size))
    {
      hide Arena.Valid, Divides, Chunk.Valid, RoundUp, Chunk.CanHold, Carried, TotalFor;
      hide Arena.Genuine, Arena.Report, Arena.MayAsk, TakenBack;
      i, from, block, at, nb, moved := 0, null, 0, null, 0, 0;
      if size == 0 {
        res, i, block := Deallocate(memory);
      } else {
        res, moved, from, block, at, nb := Resize(memory, size, grant);
      }
    }

    /** cutl_allocator_arena_clear */
    method Clear()
      requires Valid()
      modifies this`used, chunks
      ensures Valid() && unchanged(this`chunks) && used == 0
      ensures forall c | c in chunks :: c.live == map[] && c.frees == [] && c.bump == 0
    {
      hide Chunk.Valid, SumOverChunks, SumLive, Arena.ChunksSound, Arena.ChunksApart;
      var i := 0;
      while i < |chunks|
        invariant i <= |chunks| && ChunksSound() && ChunksApart()
        invariant forall j | 0 <= j < i :: chunks[j].live == map[] && chunks[j].frees == [] && chunks[j].bump == 0
      {
        ChunksStayDistinct(i);
        ClearChunk(i);
        i := i + 1;
      }
      used := 0;
      NothingLive(Lives());
    }

    method ClearChunk(i: nat)
      requires ChunksSound() && ChunksApart() && i < |chunks|
      modifies chunks[i]
      ensures ChunksSound()
      ensures chunks[i].live == map[] && chunks[i].frees == [] && chunks[i].bump == 0
    {
      hide Chunk.Valid;
      ChunksStayDistinct(i);
      chunks[i].Clear();
      forall j | 0 <= j < |chunks| && j != i ensures chunks[j].Valid() {
        assert old(chunks[j].Valid());
      }
    }

    lemma ChunksStayDistinct(i: nat)
      requires ChunksApart() && i < |chunks|
      ensures forall j | 0 <= j < |chunks| && j != i :: chunks[j] != chunks[i] && chunks[j].data != chunks[i].data
    {
    }

    /** cutl_allocator_arena_release: every chunk goes back to the parent allocator. */
    method Release()
      requires Valid()
      modifies this
      ensures Valid() && chunks == [] && used == 0 && capacity == 0 && largestBlock == 0
    {
      chunks, used, capacity, largestBlock := [], 0, 0, 0;
    }

    /**
     * The memory of two live blocks has no address in common, and each block lies aligned inside its chunk, with
     * room for its header in front.
     */
    lemma LiveBlocksAreApart(i: nat, b: nat, j: nat, c: nat)
      requires Valid() && i < |chunks| && b in chunks[i].live && j < |chunks| && c in chunks[j].live
      ensures Divides(layout.align, b) && layout.Minimum() <= chunks[i].live[b]
      ensures b + chunks[i].live[b] <= chunks[i].bump <= chunks[i].data.Length
      ensures (i, b) != (j, c) ==>
        RangesApart(chunks[i].base + b, chunks[i].live[b], chunks[j].base + c, chunks[j].live[c])
    {
      hide Divides, FreesPlaced, FreesTagged, LiveTagged, LiveApartFromFrees, SumOverChunks, SumLive;
      assert chunks[i].Valid() && chunks[j].Valid();
      assert IsBlock(layout, chunks[i].bump, LiveSpan(chunks[i].live, b));
      assert IsBlock(layout, chunks[j].bump, LiveSpan(chunks[j].live, c));
      if i == j && b != c {
        assert Apart(LiveSpan(chunks[i].live, b), LiveSpan(chunks[i].live, c));
      } else if i < j {
        RangesOf(i, j);
      } else if j < i {
        RangesOf(j, i);
      }
    }

    lemma LocatedIsLive(memory: nat, i: nat, b: nat)
      requires Valid() && Genuine(memory) && Locates(memory, i, b) && Report(memory) == Success
      ensures i < |chunks| && b in chunks[i].live && memory == chunks[i].base + b + layout.header
    {
      hide Arena.Valid;
      ReportIs(memory, i, b);
    }

    lemma KeptAsItIs(from: Chunk, block: nat)
      requires Valid() && from in chunks && block in from.live
      ensures from.live[block] >= layout.header
      ensures Copied(from.data[..], block + layout.header, from.data[..], block + layout.header,
                     from.live[block] - layout.header)
      ensures forall c, t | c in chunks && t in c.live ::
        SameUserMemory(layout, c.data[..], c.data[..], LiveSpan(c.live, t))
    {
      hide Arena.Valid;
      ChunkIsSound(from);
      var i: nat :| i < |chunks| && chunks[i] == from;
      ReadyToTakeBack(i, block);
    }

    /** No two free blocks of a chunk start at the same place. */
    lemma FreesStartApart(i: nat)
      requires Valid() && i < |chunks|
      ensures forall j, k | 0 <= j < k < |chunks[i].frees| :: chunks[i].frees[j].start < chunks[i].frees[k].start
    {
      hide Divides, FreesPlaced, FreesTagged, LivePlaced, LiveTagged, LiveApartFromFrees, SumOverChunks;
      var c := chunks[i];
      assert c.Valid();
      FreesAscend(layout, c.bump, c.frees);
    }

    /** The address of a live block is still good, whatever happened to the list of chunks. */
    lemma FoundAgain(c: Chunk, block: nat, memory: nat)
      requires Valid() && c in chunks && block in c.live && memory == c.base + block + layout.header
      ensures memory != 0 && Genuine(memory) && Report(memory) == Success
      ensures block < c.data.Length && c.data[block] == Header(c.live[block], MagicUsed)
      ensures layout.header < c.live[block] && block + layout.header < c.data.Length
    {
      hide Arena.Valid, Chunk.Valid;
      ChunkIsSound(c);
      var i: nat :| i < |chunks| && chunks[i] == c;
      LiveIsGenuine(memory, i, block);
      ReportIs(memory, i, block);
      ReadyToTakeBack(i, block);
    }

    lemma SameChunk(memory: nat, c: Chunk, block: nat, i: nat, b: nat)
      requires Valid() && Locates(memory, i, b) && c in chunks
      requires memory == c.base + block + layout.header && block + layout.header < c.data.Length
      ensures chunks[i] == c && b == block
    {
      hide Arena.Valid;
      ChunkIsSound(c);
      var j: nat :| j < |chunks| && chunks[j] == c;
      LocatesIsUnique(memory, i, b, j, block);
    }
  }

  lemma LiveContentsSaid(l: Layout, mem: seq<Cell>, mem': seq<Cell>, live: map<nat, nat>, t: nat)
    requires LiveContentsSame(l, mem, mem', live) && t in live
    ensures SameUserMemory(l, mem, mem', LiveSpan(live, t))
  {
  }

  /** Contents that stay where they are count as copied there. */
  lemma ContentsAreCopied(l: Layout, mem: seq<Cell>, mem': seq<Cell>, s: Span)
    requires SameUserMemory(l, mem, mem', s) && s.size >= l.header && End(s) <= |mem|
    ensures Copied(mem, s.start + l.header, mem', s.start + l.header, s.size - l.header)
  {
  }

  lemma {:induction false} NothingLive(lives: seq<map<nat, nat>>)
    requires forall i | 0 <= i < |lives| :: lives[i] == map[]
    ensures SumOverChunks(lives) == 0
  {
    if lives != [] {
      NothingLive(lives[1..]);
    }
  }

  /** A block that has kept its contents may be copied from the later memory. */
  lemma CopiedFromSame(l: Layout, src: seq<Cell>, src': seq<Cell>, s: Span, mem: seq<Cell>, to: nat)
    requires SameUserMemory(l, src, src', s) && s.size >= l.header
    requires Copied(src', s.start + l.header, mem, to, s.size - l.header)
    ensures Copied(src, s.start + l.header, mem, to, s.size - l.header)
  {
  }

  /** What was copied into a block is still there if the block has kept its contents. */
  lemma CopiedStays(l: Layout, src: seq<Cell>, from: nat, mem: seq<Cell>, mem': seq<Cell>, s: Span, n: nat)
    requires Copied(src, from, mem, s.start + l.header, n) && SameUserMemory(l, mem, mem', s)
    requires l.header + n <= s.size
    ensures Copied(src, from, mem', s.start + l.header, n)
  {
  }

  lemma {:induction false} SumIsNotLess(lives: seq<map<nat, nat>>, i: nat)
    requires i < |lives|
    ensures SumOverChunks(lives) >= SumLive(lives[i])
  {
    if i > 0 {
      SumIsNotLess(lives[1..], i - 1);
    }
  }

  /** Every block that was live still holds what its user stored. */
  twostate predicate ContentsKept(l: Layout, cs: seq<Chunk>)
    reads cs, set c | c in cs :: c.data
  {
    forall c | c in cs :: LiveContentsSame(l, old(c.data[..]), c.data[..], old(c.live))
  }

  /** Every block that is still live holds what its user stored. */
  twostate predicate ContentsRemain(l: Layout, cs: seq<Chunk>)
    reads cs, set c | c in cs :: c.data
  {
    forall c | c in cs :: LiveContentsSame(l, old(c.data[..]), c.data[..], c.live)
  }

  /** Every block that is live still has its contents, except for block `nb` of chunk `at`. */
  twostate predicate OthersSame(l: Layout, cs: seq<Chunk>, new at: Chunk, nb: nat)
    reads cs, set c | c in cs :: c.data
  {
    forall c, t | c in cs && t in c.live && !(c == at && t == nb) ::
      SameUserMemory(l, old(c.data[..]), c.data[..], LiveSpan(c.live, t))
  }

  /** Every live block but `block` of chunk `from` is still live, of the same size and with the same contents. */
  twostate predicate OthersKept(l: Layout, cs: seq<Chunk>, from: Chunk, block: nat)
    reads cs, set c | c in cs :: c.data
  {
    forall c, t | c in cs && t in old(c.live) && !(c == from && t == block) ::
      && t in c.live && c.live[t] == old(c.live[t])
      && SameUserMemory(l, old(c.data[..]), c.data[..], LiveSpan(c.live, t))
  }

  /** Apart from block `nb` of chunk `at`, only blocks that were live before are live, and `block` of `from` is not. */
  twostate predicate NothingElseLive(new ds: seq<Chunk>, cs: seq<Chunk>, from: Chunk, block: nat, new at: Chunk, nb: nat)
    reads cs, ds
  {
    && (forall c, t | c in ds && t in c.live && !(c == at && t == nb) ::
          c in cs && t in old(c.live) && !(c == from && t == block))
    && (forall c, t | c in cs && t in old(c.live) && c == at && t == nb :: c == from && t == block)
  }

  /** Chunks that are not among `before` are new objects. */
  twostate predicate OnlyNewChunks(new cs: seq<Chunk>, before: seq<Chunk>) {
    forall c | c in cs && c !in before :: fresh(c) && fresh(c.data)
  }

  /** Every chunk but `at` is what it was. */
  twostate predicate OtherChunksUntouched(cs: seq<Chunk>, new at: Chunk)
    reads cs, set c | c in cs :: c.data
  {
    forall c | c in cs && c != at :: unchanged(c) && unchanged(c.data)
  }

  /** The chunk has one more live block, which starts behind the header at `block`. */
  ghost predicate HandedOut(c: Chunk, live: map<nat, nat>, block: int, total: nat)
    reads c
  {
    && 0 <= block && c.layout.header <= total && block + total <= c.data.Length
    && block !in live && c.live == live[block as nat := total]
  }
}
