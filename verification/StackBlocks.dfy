/**
 * What the memory of a stack allocator means: a sequence of blocks that tile it from the bottom, and how each
 * block is written down by tags and guards at both of its ends.
 */
module StackBlocks {
  import opened Arithmetic
  import opened MachineIntegers
  import opened AllocatorInternals

  datatype BlockState = Free | Used | Merged

  /** A byte, or a block-info record standing at the first byte it occupies. */
  datatype Cell = Raw(byte: u8) | Info(size: u64, state: BlockState)

  datatype Block = Block(start: nat, size: nat, used: bool)

  /** Alignment, guard bytes and size of an info record, the latter two rounded up to the alignment. */
  datatype Layout = Layout(align: nat, guard: nat, info: nat) {
    ghost predicate Valid() {
      && Divides(align, U64_LIMIT)
      && Divides(align, guard)
      && info >= 1 && Divides(align, info)
    }

    /** What a block needs besides the memory its user sees. */
    function Overhead(): nat { 2 * info + 2 * guard }

    /** Offset of the user's memory in its block. */
    function UserOffset(): nat { info + guard }

    /** Size of the block that serves a request, info records and guards included. */
    function TotalFor(size: nat): (total: nat)
      requires align >= 1
      ensures size + 2 * info + 2 * guard <= total < size + 2 * info + 2 * guard + align
    {
      RoundUp(size + 2 * info, align) + 2 * guard
    }
  }

  function End(b: Block): nat { b.start + b.size }

  function EndOf(bs: seq<Block>): nat { if bs == [] then 0 else End(bs[|bs| - 1]) }

  /** The blocks follow each other without gaps from offset zero on. */
  ghost predicate Tiled(l: Layout, bs: seq<Block>) {
    && (forall i | 0 <= i < |bs| :: bs[i].size >= l.Overhead() && Divides(l.align, bs[i].size))
    && (bs != [] ==> bs[0].start == 0)
    && (forall i, j | 0 <= i && j == i + 1 < |bs| :: bs[j].start == End(bs[i]))
    && (forall i, j | 0 <= i < j < |bs| :: End(bs[i]) <= bs[j].start)
  }

  function StateOf(b: Block): BlockState { if b.used then Used else Free }

  /** The info records at both ends tell the size and the state of the block. */
  ghost predicate Tagged(l: Layout, mem: seq<Cell>, b: Block) {
    && 1 <= l.info && l.Overhead() <= b.size && End(b) <= |mem| && b.size < U64_LIMIT
    && mem[b.start] == Info(b.size, StateOf(b))
    && mem[End(b) - l.info] == Info(b.size, StateOf(b))
  }

  /** The guards on both ends of the user's memory hold the pattern. */
  ghost predicate Guarded(l: Layout, mem: seq<Cell>, b: Block) {
    && l.Overhead() <= b.size && End(b) <= |mem|
    && (forall o | b.start + l.info <= o < b.start + l.UserOffset() :: mem[o] == Raw(GUARD_PATTERN))
    && (forall o | End(b) - l.UserOffset() <= o < End(b) - l.info :: mem[o] == Raw(GUARD_PATTERN))
  }

  /** The topmost block is in use: free blocks never stay on top. */
  ghost predicate TopUsed(bs: seq<Block>) {
    bs != [] ==> bs[|bs| - 1].used
  }

  /** The blocks tile the lower part of the memory and every one of them is tagged. */
  ghost predicate Recorded(l: Layout, mem: seq<Cell>, bs: seq<Block>) {
    && l.Valid() && Tiled(l, bs) && EndOf(bs) <= |mem| < U64_LIMIT
    && forall i | 0 <= i < |bs| :: Tagged(l, mem, bs[i])
  }

  /** Everything but the guards, which a client that writes out of bounds may have damaged. */
  ghost predicate Laid(l: Layout, mem: seq<Cell>, bs: seq<Block>) {
    Recorded(l, mem, bs) && TopUsed(bs)
  }

  ghost predicate Sound(l: Layout, mem: seq<Cell>, bs: seq<Block>) {
    && Laid(l, mem, bs)
    && forall i | 0 <= i < |bs| :: Guarded(l, mem, bs[i])
  }

  lemma SoundIsLaidOut(l: Layout, mem: seq<Cell>, bs: seq<Block>)
    requires Sound(l, mem, bs)
    ensures l.Valid() && EndOf(bs) <= |mem| < U64_LIMIT
  {
  }

  /** The user's memory of a block. */
  function Usable(l: Layout, b: Block): nat
    requires b.size >= l.Overhead()
  {
    b.size - l.Overhead()
  }

  function UserStart(l: Layout, b: Block): nat { b.start + l.UserOffset() }

  ghost predicate SameUserMemory(l: Layout, mem: seq<Cell>, mem': seq<Cell>, b: Block) {
    && |mem| == |mem'|
    && forall o | UserStart(l, b) <= o < End(b) - l.UserOffset() && o < |mem| :: mem'[o] == mem[o]
  }

  // ----- freeing

  /** How many of the lowest `k` blocks are left when the run of free ones on top of them goes away. */
  function Kept(bs: seq<Block>, k: nat): (kept: nat)
    requires k <= |bs|
    ensures kept <= k && (kept > 0 ==> bs[kept - 1].used)
  {
    if k == 0 || bs[k - 1].used then k else Kept(bs, k - 1)
  }

  /** Drops the run of free blocks on top. */
  function PopFree(bs: seq<Block>): (r: seq<Block>)
    ensures r <= bs && TopUsed(r)
  {
    bs[..Kept(bs, |bs|)]
  }

  /** Freeing block `i`: it is marked free, and if it is on top the free run on top goes away. */
  function Freed(bs: seq<Block>, i: nat): seq<Block>
    requires i < |bs|
  {
    PopFree(bs[i := bs[i].(used := false)])
  }

  /** Only free blocks are dropped. */
  lemma {:induction false} KeptCoversUsed(bs: seq<Block>, k: nat, i: nat)
    requires i < k <= |bs| && bs[i].used
    ensures i < Kept(bs, k)
  {
    if !bs[k - 1].used {
      KeptCoversUsed(bs, k - 1, i);
    }
  }

  /** Blocks below a used one are never dropped. */
  lemma PopFreeKeepsBelow(bs: seq<Block>, k: nat)
    requires k <= |bs| && TopUsed(bs[..k])
    ensures k <= |PopFree(bs)| && PopFree(bs)[..k] == bs[..k]
  {
    if k > 0 {
      assert bs[..k][k - 1] == bs[k - 1];
      KeptCoversUsed(bs, |bs|, k - 1);
    }
  }

  /** The start offsets of the blocks in use. */
  ghost function Live(bs: seq<Block>): set<nat> {
    set i | 0 <= i < |bs| && bs[i].used :: bs[i].start
  }

  ghost predicate DistinctStarts(bs: seq<Block>) {
    forall i, j | 0 <= i < j < |bs| :: bs[i].start != bs[j].start
  }

  lemma FreeingEndsOneLife(bs: seq<Block>, i: nat)
    requires DistinctStarts(bs) && i < |bs|
    ensures Live(Freed(bs, i)) == Live(bs) - {bs[i].start} && DistinctStarts(Freed(bs, i))
  {
    var marked := bs[i := bs[i].(used := false)];
    var r := Freed(bs, i);
    forall x | x in Live(bs) - {bs[i].start} ensures x in Live(r) {
      var j :| 0 <= j < |bs| && bs[j].used && bs[j].start == x;
      KeptCoversUsed(marked, |marked|, j);
      assert r[j] == marked[j];
    }
  }

  /** Frees the live blocks starting at the given offsets, one after the other. */
  ghost function FreedAll(bs: seq<Block>, order: seq<nat>): (r: seq<Block>)
    decreases |order|
  {
    if order == [] then bs
    else if exists i: nat :: i < |bs| && bs[i].used && bs[i].start == order[0] then
      var i: nat :| i < |bs| && bs[i].used && bs[i].start == order[0];
      FreedAll(Freed(bs, i), order[1..])
    else FreedAll(bs, order[1..])
  }

  /** Once every live block has been freed, in whatever order, the stack is empty. */
  lemma {:induction false} FreeingAllEmptiesTheStack(bs: seq<Block>, order: seq<nat>)
    requires DistinctStarts(bs) && TopUsed(bs)
    requires Live(bs) <= set x | x in order
    ensures FreedAll(bs, order) == []
    decreases |order|
  {
    if order == [] {
      assert bs != [] ==> bs[|bs| - 1].start in Live(bs);
    } else if exists i: nat :: i < |bs| && bs[i].used && bs[i].start == order[0] {
      var i: nat :| i < |bs| && bs[i].used && bs[i].start == order[0] &&
        FreedAll(bs, order) == FreedAll(Freed(bs, i), order[1..]);
      FreeingEndsOneLife(bs, i);
      FreeingAllEmptiesTheStack(Freed(bs, i), order[1..]);
    } else {
      forall x | x in Live(bs) ensures x in order[1..] {
        var k :| 0 <= k < |order| && order[k] == x;
      }
      FreeingAllEmptiesTheStack(bs, order[1..]);
    }
  }

  // ----- tilings

  lemma TilingPrefix(l: Layout, bs: seq<Block>, k: nat)
    requires l.Valid() && Tiled(l, bs) && k <= |bs|
    ensures Tiled(l, bs[..k]) && EndOf(bs[..k]) <= EndOf(bs)
  {
  }

  lemma TilingHasDistinctStarts(l: Layout, bs: seq<Block>)
    requires l.Valid() && Tiled(l, bs)
    ensures DistinctStarts(bs)
  {
    forall i, j | 0 <= i < j < |bs| ensures bs[i].start != bs[j].start {
      assert End(bs[i]) <= bs[j].start;
    }
  }

  lemma {:induction false} TilingReachesEnd(l: Layout, bs: seq<Block>, i: nat)
    requires l.Valid() && Tiled(l, bs) && i < |bs|
    ensures End(bs[i]) <= EndOf(bs)
    ensures End(bs[i]) == EndOf(bs) <==> i == |bs| - 1
  {
    if i < |bs| - 1 {
      assert End(bs[i]) <= bs[|bs| - 1].start;
    }
  }

  lemma TilingAppend(l: Layout, bs: seq<Block>, size: nat, used: bool)
    requires l.Valid() && Tiled(l, bs) && size >= l.Overhead() && Divides(l.align, size)
    ensures Tiled(l, bs + [Block(EndOf(bs), size, used)])
    ensures EndOf(bs + [Block(EndOf(bs), size, used)]) == EndOf(bs) + size
  {
    var bs' := bs + [Block(EndOf(bs), size, used)];
    forall i | 0 <= i < |bs| ensures End(bs[i]) <= EndOf(bs) {
      TilingReachesEnd(l, bs, i);
    }
  }

  lemma TilingMark(l: Layout, bs: seq<Block>, i: nat, used: bool)
    requires l.Valid() && Tiled(l, bs) && i < |bs|
    ensures Tiled(l, bs[i := bs[i].(used := used)])
    ensures EndOf(bs[i := bs[i].(used := used)]) == EndOf(bs)
  {
  }

  /** Growing the topmost block. */
  lemma TilingGrow(l: Layout, bs: seq<Block>, size: nat)
    requires l.Valid() && Tiled(l, bs) && bs != [] && size >= l.Overhead() && Divides(l.align, size)
    ensures var t := |bs| - 1; Tiled(l, bs[t := bs[t].(size := size)])
  {
  }

  // ----- what writes into the memory leave alone

  /** `mem'` differs from `mem` at most between `from` and `to`. */
  ghost predicate SameOutside(mem: seq<Cell>, mem': seq<Cell>, from: int, to: int) {
    |mem'| == |mem| && forall o | 0 <= o < |mem| && !(from <= o < to) :: mem'[o] == mem[o]
  }

  /** A block that lies outside of what was written keeps its tags, guards and contents. */
  lemma UntouchedBlock(l: Layout, mem: seq<Cell>, mem': seq<Cell>, from: int, to: int, b: Block)
    requires l.Valid() && SameOutside(mem, mem', from, to) && (End(b) <= from || to <= b.start)
    requires b.size >= l.Overhead() && End(b) <= |mem|
    ensures Tagged(l, mem, b) ==> Tagged(l, mem', b)
    ensures Guarded(l, mem, b) ==> Guarded(l, mem', b)
    ensures SameUserMemory(l, mem, mem', b)
  {
  }

  /** Writing within one block leaves every other one alone. */
  lemma OtherBlocksUntouched(l: Layout, bs: seq<Block>, mem: seq<Cell>, mem': seq<Cell>, i: nat, j: nat)
    requires Recorded(l, mem, bs) && i < |bs| && j < |bs| && i != j
    requires SameOutside(mem, mem', bs[i].start, End(bs[i]))
    ensures Tagged(l, mem', bs[j])
    ensures Guarded(l, mem, bs[j]) ==> Guarded(l, mem', bs[j])
    ensures SameUserMemory(l, mem, mem', bs[j])
  {
    if i < j {
      assert End(bs[i]) <= bs[j].start;
    } else {
      assert End(bs[j]) <= bs[i].start;
    }
    UntouchedBlock(l, mem, mem', bs[i].start, End(bs[i]), bs[j]);
  }

  /** A fresh block behind the last one. */
  lemma LaidAppend(l: Layout, bs: seq<Block>, mem: seq<Cell>, mem': seq<Cell>, b: Block)
    requires Laid(l, mem, bs) && SameOutside(mem, mem', EndOf(bs), |mem|)
    requires b.start == EndOf(bs) && b.used && Divides(l.align, b.size)
    requires Tagged(l, mem', b) && Guarded(l, mem', b)
    ensures Laid(l, mem', bs + [b]) && EndOf(bs + [b]) == End(b)
    ensures forall j | 0 <= j < |bs| :: BlockKept(l, mem, mem', bs[j])
    ensures Sound(l, mem, bs) ==> Sound(l, mem', bs + [b])
  {
    TilingAppend(l, bs, b.size, true);
    forall j | 0 <= j < |bs| ensures Tagged(l, mem', bs[j]) && BlockKept(l, mem, mem', bs[j]) {
      TilingReachesEnd(l, bs, j);
      UntouchedBlock(l, mem, mem', EndOf(bs), |mem|, bs[j]);
    }
  }

  /** A block's contents are the same, and its guards stand if they did. */
  ghost predicate BlockKept(l: Layout, mem: seq<Cell>, mem': seq<Cell>, b: Block) {
    SameUserMemory(l, mem, mem', b) && (Guarded(l, mem, b) ==> Guarded(l, mem', b))
  }

  /** Writing both info records of a block whose guards stand. */
  lemma TaggedBlock(l: Layout, mem: seq<Cell>, b: Block)
    requires l.Valid() && Guarded(l, mem, b) && b.size < U64_LIMIT
    ensures var mem' := mem[End(b) - l.info := Info(b.size, StateOf(b))][b.start := Info(b.size, StateOf(b))];
      Tagged(l, mem', b) && Guarded(l, mem', b) && SameOutside(mem, mem', b.start, End(b)) && SameUserMemory(l, mem, mem', b)
  {
  }

  /** Only the state in the two info records of block `i` has changed. */
  ghost predicate MarkedFree(l: Layout, mem: seq<Cell>, mem': seq<Cell>, b: Block) {
    && Tagged(l, mem, b)
    && mem' == mem[b.start := Info(b.size, Free)][End(b) - l.info := Info(b.size, Free)]
  }

  lemma MarkedBlock(l: Layout, mem: seq<Cell>, mem': seq<Cell>, b: Block)
    requires l.Valid() && Tagged(l, mem, b) && MarkedFree(l, mem, mem', b)
    ensures SameOutside(mem, mem', b.start, End(b))
    ensures Tagged(l, mem', b.(used := false))
    ensures Guarded(l, mem, b) ==> Guarded(l, mem', b.(used := false))
    ensures SameUserMemory(l, mem, mem', b)
  {
  }

  lemma MarkKeepsRecords(l: Layout, bs: seq<Block>, mem: seq<Cell>, mem': seq<Cell>, i: nat)
    requires Recorded(l, mem, bs) && i < |bs| && MarkedFree(l, mem, mem', bs[i])
    ensures Recorded(l, mem', bs[i := bs[i].(used := false)])
  {
    var marked := bs[i := bs[i].(used := false)];
    TilingMark(l, bs, i, false);
    MarkedBlock(l, mem, mem', bs[i]);
    forall j | 0 <= j < |marked| ensures Tagged(l, mem', marked[j]) {
      if j != i {
        OtherBlocksUntouched(l, bs, mem, mem', i, j);
      }
    }
  }

  lemma MarkKeepsContents(l: Layout, bs: seq<Block>, mem: seq<Cell>, mem': seq<Cell>, i: nat, j: nat)
    requires Recorded(l, mem, bs) && i < |bs| && j < |bs| && MarkedFree(l, mem, mem', bs[i])
    ensures Guarded(l, mem, bs[j]) ==> Guarded(l, mem', bs[j])
    ensures SameUserMemory(l, mem, mem', bs[j])
  {
    MarkedBlock(l, mem, mem', bs[i]);
    if j != i {
      OtherBlocksUntouched(l, bs, mem, mem', i, j);
    }
  }

  lemma RecordsOfPrefix(l: Layout, bs: seq<Block>, mem: seq<Cell>, k: nat)
    requires Recorded(l, mem, bs) && k <= |bs|
    ensures Recorded(l, mem, bs[..k])
  {
    TilingPrefix(l, bs, k);
  }

  /** After `free`, what is left is laid out properly again. */
  lemma FreedIsLaid(l: Layout, bs: seq<Block>, mem: seq<Cell>, mem': seq<Cell>, i: nat)
    requires Recorded(l, mem, bs) && i < |bs| && MarkedFree(l, mem, mem', bs[i])
    ensures Laid(l, mem', Freed(bs, i))
  {
    var marked := bs[i := bs[i].(used := false)];
    MarkKeepsRecords(l, bs, mem, mem', i);
    var r := PopFree(marked);
    assert marked[..|r|] == r;
    RecordsOfPrefix(l, marked, mem', |r|);
  }

  lemma FreedIsSound(l: Layout, bs: seq<Block>, mem: seq<Cell>, mem': seq<Cell>, i: nat)
    requires Sound(l, mem, bs) && i < |bs| && MarkedFree(l, mem, mem', bs[i])
    ensures Sound(l, mem', Freed(bs, i))
  {
    FreedIsLaid(l, bs, mem, mem', i);
    var r := Freed(bs, i);
    forall j | 0 <= j < |r| ensures Guarded(l, mem', r[j]) {
      FreedComesFrom(bs, i, j);
      MarkKeepsContents(l, bs, mem, mem', i, j);
      GuardsIgnoreState(l, mem', bs[j], r[j]);
    }
  }

  lemma FreedComesFrom(bs: seq<Block>, i: nat, j: nat)
    requires i < |bs| && j < |Freed(bs, i)|
    ensures |Freed(bs, i)| <= |bs|
    ensures Freed(bs, i)[j] == if j == i then bs[i].(used := false) else bs[j]
  {
    assert Freed(bs, i)[j] == bs[i := bs[i].(used := false)][j];
  }

  lemma GuardsIgnoreState(l: Layout, mem: seq<Cell>, b: Block, c: Block)
    requires b.start == c.start && b.size == c.size
    ensures Guarded(l, mem, b) <==> Guarded(l, mem, c)
  {
  }

  /** So are all blocks but block `i`. */
  ghost predicate OthersKept(l: Layout, bs: seq<Block>, mem: seq<Cell>, mem': seq<Cell>, i: nat) {
    forall j | 0 <= j < |bs| && j != i :: BlockKept(l, mem, mem', bs[j])
  }

  /** Growing the topmost block within its memory. */
  lemma LaidGrow(l: Layout, bs: seq<Block>, mem: seq<Cell>, mem': seq<Cell>, size: nat)
    requires Laid(l, mem, bs) && bs != []
    requires var t := |bs| - 1;
      && size >= bs[t].size && Divides(l.align, size)
      && SameOutside(mem, mem', bs[t].start, |mem|)
      && Tagged(l, mem', bs[t].(size := size)) && Guarded(l, mem', bs[t].(size := size))
    ensures var t := |bs| - 1; var bs' := bs[t := bs[t].(size := size)];
      && Laid(l, mem', bs') && EndOf(bs') == bs[t].start + size
      && (Sound(l, mem, bs) ==> Sound(l, mem', bs'))
    ensures forall j | 0 <= j < |bs| - 1 :: BlockKept(l, mem, mem', bs[j])
  {
    var t := |bs| - 1;
    TilingGrow(l, bs, size);
    forall j | 0 <= j < t ensures Tagged(l, mem', bs[j]) && BlockKept(l, mem, mem', bs[j]) {
      assert End(bs[j]) <= bs[t].start;
      UntouchedBlock(l, mem, mem', bs[t].start, |mem|, bs[j]);
    }
  }

  /** Writing the records of a block that grows, and then its guards. */
  lemma GrownBlock(l: Layout, mem: seq<Cell>, mem': seq<Cell>, b: Block, size: u64)
    requires Tagged(l, mem, b) && b.used && size >= b.size && b.start + size <= |mem|
    requires var b' := b.(size := size); var mem1 := mem[b.start := Info(size, Used)][End(b') - l.info := Info(size, Used)];
      && SameOutside(mem1, mem', b.start + l.info, End(b') - l.info) && SameUserMemory(l, mem1, mem', b')
    ensures Tagged(l, mem', b.(size := size)) && SameOutside(mem, mem', b.start, |mem|) && SameUserMemory(l, mem, mem', b)
  {
  }

  /** Writes into the user's memory of one block, by its client or by a copy. */
  lemma LaidAfterUserWrites(l: Layout, bs: seq<Block>, mem: seq<Cell>, mem': seq<Cell>, i: nat)
    requires Laid(l, mem, bs) && i < |bs|
    requires SameOutside(mem, mem', UserStart(l, bs[i]), UserStart(l, bs[i]) + Usable(l, bs[i]))
    ensures Laid(l, mem', bs) && (Sound(l, mem, bs) ==> Sound(l, mem', bs))
    ensures forall j | 0 <= j < |bs| && j != i :: BlockKept(l, mem, mem', bs[j])
    ensures Guarded(l, mem, bs[i]) ==> Guarded(l, mem', bs[i])
  {
    UserWritesSpareOwnRecords(l, mem, mem', bs[i]);
    forall j | 0 <= j < |bs| && j != i ensures Tagged(l, mem', bs[j]) && BlockKept(l, mem, mem', bs[j]) {
      OtherBlocksUntouched(l, bs, mem, mem', i, j);
    }
  }

  lemma UserWritesSpareOwnRecords(l: Layout, mem: seq<Cell>, mem': seq<Cell>, b: Block)
    requires l.Valid() && Tagged(l, mem, b)
    requires SameOutside(mem, mem', UserStart(l, b), UserStart(l, b) + Usable(l, b))
    ensures Tagged(l, mem', b) && SameOutside(mem, mem', b.start, End(b))
    ensures Guarded(l, mem, b) ==> Guarded(l, mem', b)
  {
  }

  function Min(a: nat, b: nat): (r: nat)
    ensures r == a || r == b
    ensures r <= a && r <= b
  {
    if a < b then a else b
  }

  /** What fits of the old contents of block `b` stands at `to`, for a request of `size`. */
  ghost predicate ContentsMoved(l: Layout, mem: seq<Cell>, b: Block, mem': seq<Cell>, to: nat, size: nat) {
    && b.size >= l.Overhead()
    && Copied(mem, UserStart(l, b), mem', to, Min(Usable(l, b), size))
  }

  /** All of the old memory that the new size has room for is in the new memory. */
  lemma MovedBytes(l: Layout, mem: seq<Cell>, b: Block, mem': seq<Cell>, to: nat, size: nat)
    requires ContentsMoved(l, mem, b, mem', to, size)
    ensures var from, room := b.start + l.info + l.guard, b.size - 2 * l.info - 2 * l.guard;
      var n := if room < size then room else size;
      && 0 <= n && from + n <= |mem| && to + n <= |mem'|
      && mem'[to..to + n] == mem[from..from + n]
  {
  }

  /** Between their guards, all blocks but block `i` hold the bytes they held. */
  lemma OtherBytes(l: Layout, bs: seq<Block>, mem: seq<Cell>, mem': seq<Cell>, i: nat)
    requires OthersKept(l, bs, mem, mem', i)
    ensures forall j, o: nat | 0 <= j < |bs| && j != i && o < |mem| &&
        bs[j].start + l.info + l.guard <= o < bs[j].start + bs[j].size - l.info - l.guard ::
          o < |mem'| && mem'[o] == mem[o]
  {
    forall j, o: nat | 0 <= j < |bs| && j != i && o < |mem| && UserStart(l, bs[j]) <= o < End(bs[j]) - l.UserOffset()
      ensures o < |mem'| && mem'[o] == mem[o]
    {
      assert BlockKept(l, mem, mem', bs[j]);
    }
  }

  lemma UserCellIsInside(l: Layout, mem: seq<Cell>, b: Block, at: nat, c: Cell)
    requires Tagged(l, mem, b) && at < Usable(l, b)
    ensures UserStart(l, b) + at < |mem|
    ensures SameOutside(mem, mem[UserStart(l, b) + at := c], UserStart(l, b), UserStart(l, b) + Usable(l, b))
  {
  }

  /** The first `n` cells from `from` on in `mem` stand from `to` on in `mem'`. */
  ghost predicate Copied(mem: seq<Cell>, from: nat, mem': seq<Cell>, to: nat, n: nat) {
    && from + n <= |mem| && to + n <= |mem'|
    && forall o | to <= o < to + n :: mem'[o] == mem[o - to + from]
  }

  lemma SoundPrefix(l: Layout, bs: seq<Block>, mem: seq<Cell>, k: nat)
    requires Sound(l, mem, bs) && k <= |bs| && TopUsed(bs[..k])
    ensures Sound(l, mem, bs[..k])
  {
    RecordsOfPrefix(l, bs, mem, k);
  }

  /**
   * Moving block `i` into the new block on top: the new block was appended, filled from the old one, and the
   * old one marked free.
   */
  lemma MovedBlock(l: Layout, bs: seq<Block>, mem0: seq<Cell>, mem1: seq<Cell>, mem2: seq<Cell>, mem3: seq<Cell>,
                   i: nat, nb: Block, size: nat)
    requires Laid(l, mem0, bs) && i < |bs| && nb.used && nb.size >= size + l.Overhead()
    requires Laid(l, mem1, bs + [nb]) && End(nb) <= |mem1| == |mem0|
    requires forall j | 0 <= j < |bs| :: BlockKept(l, mem0, mem1, bs[j])
    requires var n := Min(Usable(l, bs[i]), size); var to := UserStart(l, nb);
      && SameOutside(mem1, mem2, to, to + n) && Copied(mem1, UserStart(l, bs[i]), mem2, to, n)
    requires Tagged(l, mem2, bs[i]) && MarkedFree(l, mem2, mem3, bs[i])
    ensures Freed(bs + [nb], i) == bs[i := bs[i].(used := false)] + [nb]
    ensures ContentsMoved(l, mem0, bs[i], mem3, UserStart(l, nb), size)
    ensures forall j | 0 <= j < |bs| && j != i :: BlockKept(l, mem0, mem3, bs[j])
  {
    hide Recorded, Tiled, Guarded, Divides, Kept;
    var all, n := bs + [nb], Min(Usable(l, bs[i]), size);
    assert all[i := all[i].(used := false)] == bs[i := bs[i].(used := false)] + [nb];
    KeptTop(bs[i := bs[i].(used := false)], nb);
    CopyKeepsLaid(l, all, mem1, mem2, |bs|, n);
    MarkKeepsContents(l, all, mem2, mem3, i, |bs|);
    MovedContents(l, mem0, mem1, mem2, mem3, bs[i], nb, n);
    forall j | 0 <= j < |bs| && j != i ensures BlockKept(l, mem0, mem3, bs[j]) {
      assert all[j] == bs[j];
      MarkKeepsContents(l, all, mem2, mem3, i, j);
      SameTwice(l, mem0, mem1, mem2, bs[j]);
      SameTwice(l, mem0, mem2, mem3, bs[j]);
    }
  }

  lemma KeptTop(bs: seq<Block>, nb: Block)
    requires nb.used
    ensures PopFree(bs + [nb]) == bs + [nb]
  {
  }

  lemma SameTwice(l: Layout, mem: seq<Cell>, mem': seq<Cell>, mem'': seq<Cell>, b: Block)
    requires SameUserMemory(l, mem, mem', b) && SameUserMemory(l, mem', mem'', b)
    ensures SameUserMemory(l, mem, mem'', b)
  {
  }

  lemma MovedContents(l: Layout, mem0: seq<Cell>, mem1: seq<Cell>, mem2: seq<Cell>, mem3: seq<Cell>,
                      b: Block, nb: Block, n: nat)
    requires b.size >= l.Overhead() && n <= Usable(l, b) && End(b) <= |mem0|
    requires nb.size >= l.Overhead() && n <= Usable(l, nb) && End(nb) <= |mem0|
    requires SameUserMemory(l, mem0, mem1, b) && SameUserMemory(l, mem2, mem3, nb)
    requires Copied(mem1, UserStart(l, b), mem2, UserStart(l, nb), n)
    ensures Copied(mem0, UserStart(l, b), mem3, UserStart(l, nb), n)
  {
  }

  lemma CopyKeepsLaid(l: Layout, bs: seq<Block>, mem: seq<Cell>, mem': seq<Cell>, i: nat, n: nat)
    requires Laid(l, mem, bs) && i < |bs| && n <= Usable(l, bs[i])
    requires SameOutside(mem, mem', UserStart(l, bs[i]), UserStart(l, bs[i]) + n)
    ensures Laid(l, mem', bs) && (Sound(l, mem, bs) ==> Sound(l, mem', bs))
    ensures forall j | 0 <= j < |bs| && j != i :: BlockKept(l, mem, mem', bs[j])
  {
    LaidAfterUserWrites(l, bs, mem, mem', i);
  }
}
