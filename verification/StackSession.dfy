/** Whole runs of a client on a stack allocator, between saving its top and restoring it. */
module StackSession {
  import opened MachineIntegers
  import opened AllocatorInternals
  import opened StackBlocks
  import opened StackAllocator

  /** What a client may ask for; `h` counts the handles it holds. */
  datatype Request =
    | Allocate(size: u64)
    | Free(h: nat)
    | Resize(h: nat, size: u64)
    | Write(h: nat, at: nat, byte: u8)

  /** Memory a client holds: where it starts and how much of it was asked for. */
  datatype Handle = Handle(memory: nat, size: nat)

  /**
   * The handles are exactly the blocks in use from block `k` on; `at` names the block behind each handle.
   */
  ghost predicate Holds(l: Layout, bs: seq<Block>, k: nat, held: seq<Handle>, at: seq<nat>) {
    && |at| == |held|
    && (forall h | 0 <= h < |held| :: HoldsOne(l, bs, k, held[h], at[h]))
    && (forall g, h | 0 <= g < h < |held| :: at[g] != at[h])
    && (forall i | k <= i < |bs| && bs[i].used :: i in at)
  }

  ghost predicate HoldsOne(l: Layout, bs: seq<Block>, k: nat, handle: Handle, i: nat) {
    && k <= i < |bs| && bs[i].used
    && handle.memory == UserStart(l, bs[i]) && handle.size + l.Overhead() <= bs[i].size
  }

  // ----- how the handles follow the blocks

  lemma HoldsAppended(l: Layout, bs: seq<Block>, k: nat, held: seq<Handle>, at: seq<nat>, nb: Block, handle: Handle)
    requires Holds(l, bs, k, held, at) && k <= |bs| && nb.used
    requires handle.memory == UserStart(l, nb) && handle.size + l.Overhead() <= nb.size
    ensures Holds(l, bs + [nb], k, held + [handle], at + [|bs|])
  {
  }

  lemma HoldsFreed(l: Layout, bs: seq<Block>, k: nat, held: seq<Handle>, at: seq<nat>, h: nat)
    requires Holds(l, bs, k, held, at) && h < |held|
    ensures Holds(l, bs[at[h] := bs[at[h]].(used := false)], k, Without(held, h), Without(at, h))
  {
    var i, at' := at[h], Without(at, h);
    var bs' := bs[i := bs[i].(used := false)];
    forall j | k <= j < |bs'| && bs'[j].used ensures j in at' {
      var g :| 0 <= g < |at| && at[g] == j;
      assert at'[if g < h then g else g - 1] == j;
    }
  }

  /** Popping free blocks takes no handle away. */
  lemma HoldsPopped(l: Layout, bs: seq<Block>, k: nat, held: seq<Handle>, at: seq<nat>)
    requires Holds(l, bs, k, held, at)
    ensures Holds(l, PopFree(bs), k, held, at)
  {
    forall h | 0 <= h < |held| ensures HoldsOne(l, PopFree(bs), k, held[h], at[h]) {
      KeptCoversUsed(bs, |bs|, at[h]);
    }
  }

  lemma HoldsResized(l: Layout, bs: seq<Block>, k: nat, held: seq<Handle>, at: seq<nat>, h: nat, size: nat, total: nat)
    requires Holds(l, bs, k, held, at) && h < |held|
    requires size + l.Overhead() <= total && total >= bs[at[h]].size
    ensures Holds(l, bs[at[h] := bs[at[h]].(size := total)], k, held[h := held[h].(size := size)], at)
  {
  }

  lemma HoldsMoved(l: Layout, bs: seq<Block>, k: nat, held: seq<Handle>, at: seq<nat>, h: nat, nb: Block, size: nat)
    requires Holds(l, bs, k, held, at) && h < |held| && nb.used && size + l.Overhead() <= nb.size
    ensures var bs' := bs[at[h] := bs[at[h]].(used := false)] + [nb];
      Holds(l, bs', k, held[h := Handle(UserStart(l, nb), size)], at[h := |bs|])
  {
    var bs' := bs[at[h] := bs[at[h]].(used := false)] + [nb];
    var at' := at[h := |bs|];
    forall j | k <= j < |bs'| && bs'[j].used ensures j in at' {
      if j == |bs| {
        assert at'[h] == j;
      } else {
        var g :| 0 <= g < |at| && at[g] == j;
        assert at'[g] == j;
      }
    }
  }

  lemma HoldsFitted(l: Layout, bs: seq<Block>, k: nat, held: seq<Handle>, at: seq<nat>, h: nat, size: nat)
    requires Holds(l, bs, k, held, at) && h < |held| && size + l.Overhead() <= bs[at[h]].size
    ensures Holds(l, bs, k, held[h := held[h].(size := size)], at)
  {
  }

  /** Freeing a block at or above `k` leaves the lower ones in place, if the topmost of those is in use. */
  lemma FreedKeepsBelow(bs: seq<Block>, i: nat, k: nat)
    requires k <= i < |bs| && TopUsed(bs[..k])
    ensures k <= |Freed(bs, i)| && Freed(bs, i)[..k] == bs[..k]
  {
    var marked := bs[i := bs[i].(used := false)];
    assert marked[..k] == bs[..k];
    PopFreeKeepsBelow(marked, k);
  }

  /** With no handle left, nothing is left above the lowest `k` blocks either. */
  lemma NothingHeldNothingLeft(l: Layout, bs: seq<Block>, k: nat, held: seq<Handle>, at: seq<nat>)
    requires Holds(l, bs, k, held, at) && k <= |bs| && TopUsed(bs) && held == []
    ensures bs == bs[..k]
  {
    assert k < |bs| ==> |bs| - 1 in at;
  }

  // ----- the run

  class Client {
    const stack: Stack
    var held: seq<Handle>
    ghost var at: seq<nat>
    // the blocks below the saved top
    ghost const below: nat

    ghost predicate Valid()
      reads this, stack, stack.data
    {
      && stack.Valid()
      && below <= |stack.blocks| && TopUsed(stack.blocks[..below])
      && Holds(stack.layout, stack.blocks, below, held, at)
    }

    constructor (stack: Stack)
      requires stack.Valid()
      ensures this.stack == stack && held == [] && below == |stack.blocks| && Valid()
    {
      this.stack := stack;
      held := [];
      at := [];
      below := |stack.blocks|;
      new;
      assert stack.blocks[..below] == stack.blocks;
    }

    /** What every request keeps: validity, the client's identity, and everything below the saved top. */
    twostate predicate Keeps()
      reads this, stack, stack.data
    {
      && Valid()
      && LowerSame(stack.layout, below, old(stack.data[..]), old(stack.blocks), stack.data[..], stack.blocks)
    }

    method AskFor(size: u64)
      requires Valid()
      requires Accepts(stack.layout, stack.data.Length, stack.top, size) ==>
        stack.top + stack.layout.TotalFor(size) <= stack.data.Length
      modifies this, stack, stack.data
      ensures Keeps()
    {
      stack.ValidIsConsistent();
      hide Stack.Valid, Stack.Consistent, OthersKept, Accepts, Holds, TopUsed, SameOutside, RoundUp, LowerSame;
      ghost var bs, mem := stack.blocks, stack.data[..];
      ghost var nb := Block(stack.top, stack.layout.TotalFor(size), true);
      var res, memory := stack.Allocate(size);
      if res == Success {
        AppendKeepsPrefix(bs, nb, below);
        Take(Handle(memory, size), bs, nb);
      }
      LowerStays(stack.layout, below, mem, bs, stack.data[..], stack.blocks, |bs|);
    }

    /** A handle more, for a block that was put on top of the blocks `bs`. */
    method Take(handle: Handle, ghost bs: seq<Block>, ghost nb: Block)
      requires Holds(stack.layout, bs, below, held, at) && below <= |bs| && stack.blocks == bs + [nb] && nb.used
      requires handle.memory == UserStart(stack.layout, nb) && handle.size + stack.layout.Overhead() <= nb.size
      modifies this`held, this`at
      ensures Holds(stack.layout, stack.blocks, below, held, at)
    {
      HoldsAppended(stack.layout, bs, below, held, at, nb, handle);
      held := held + [handle];
      at := at + [|bs|];
    }

    method GiveBack(h: nat)
      requires Valid() && h < |held|
      modifies this, stack, stack.data
      ensures Keeps() && held == Without(old(held), h)
    {
      hide SameUserMemory, MarkedFree, Tiled, Tagged, Guarded;
      ghost var bs, mem, i := stack.blocks, stack.data[..], at[h];
      RecordsOf(stack.layout, mem, bs, i);
      var res := stack.Deallocate(held[h].memory, i);
      assert res == Success;
      HoldsFreed(stack.layout, bs, below, held, at, h);
      HoldsPopped(stack.layout, bs[i := bs[i].(used := false)], below, Without(held, h), Without(at, h));
      FreedKeepsBelow(bs, i, below);
      forall j | 0 <= j < below ensures SameUserMemory(stack.layout, mem, stack.data[..], bs[j]) {
        MarkKeepsContents(stack.layout, bs, mem, stack.data[..], i, j);
      }
      held := Without(held, h);
      at := Without(at, h);
    }

    /**
     * A block that the code keeps although the size does not fit its type stays with its client at its old size; a
     * request that is refused changes nothing.
     */
    method ChangeSize(h: nat, size: u64)
      requires Valid() && h < |held| && stack.PlanIsSafe(size, at[h])
      modifies this, stack, stack.data
      ensures Keeps()
    {
      hide SameUserMemory, Tiled, Tagged, Guarded, PlanFor, OthersKept;
      ghost var bs, mem, i, total, top := stack.blocks, stack.data[..], at[h], stack.layout.TotalFor(size), stack.top;
      ghost var plan := stack.PlanOf(size, i);
      PlanOfHeld(h, size);
      var res, memory := stack.Reallocate(held[h].memory, size, i);
      assert stack.blocks[..below] == bs[..below];
      LowerStays(stack.layout, below, mem, bs, stack.data[..], stack.blocks, i);
      if res != Success || stack.layout.TotalFor(size) >= U64_LIMIT {
        return;
      }
      if plan == Keep {
        HoldsFitted(stack.layout, bs, below, held, at, h, size);
      } else if plan == Grow {
        HoldsResized(stack.layout, bs, below, held, at, h, size, total);
      } else {
        HoldsMoved(stack.layout, bs, below, held, at, h, Block(top, total, true), size);
        at := at[h := |bs|];
      }
      held := held[h := Handle(memory, size)];
    }

    lemma PlanOfHeld(h: nat, size: u64)
      requires Valid() && h < |held|
      ensures var b := stack.blocks[at[h]]; var plan := stack.PlanOf(size, at[h]);
        && Guarded(stack.layout, stack.data[..], b) && b.used
        && 0 <= held[h].memory < stack.data.Length
        && held[h].memory >= stack.layout.UserOffset() && b.start == held[h].memory - stack.layout.UserOffset()
        && b.start < stack.data.Length && stack.data[b.start] == Info(b.size, Used)
        && (plan == Keep <==> stack.layout.TotalFor(size) <= b.size || stack.layout.TotalFor(size) >= U64_LIMIT)
        && (plan == Grow ==> at[h] == |stack.blocks| - 1)
    {
      RecordsOf(stack.layout, stack.data[..], stack.blocks, at[h]);
      TilingReachesEnd(stack.layout, stack.blocks, at[h]);
      PlanArithmetic(stack.layout, stack.data.Length, stack.top, stack.blocks[at[h]], size);
    }

    /** Whether the tests of the code keep a resized block inside the stack. */
    method StaysInside(h: nat, size: u64) returns (safe: bool)
      requires Valid() && h < |held|
      ensures safe <==> stack.PlanIsSafe(size, at[h])
    {
      hide Stack.Valid, Stack.Consistent, Guarded, PlanFor, Holds, TopUsed;
      stack.ValidIsConsistent();
      HandleIsHeld(h);
      PlanOfHeld(h, size);
      var start := held[h].memory - stack.layout.UserOffset();
      var b, total := Block(start, stack.data[start].size, true), stack.layout.TotalFor(size);
      match PlanFor(stack.layout, stack.data.Length, stack.top, b, size) {
        case Grow => safe := start + total <= stack.data.Length;
        case Move => safe := stack.top + total <= stack.data.Length;
        case _ => safe := true;
      }
    }

    lemma HandleIsHeld(h: nat)
      requires Valid() && h < |held|
      ensures HoldsOne(stack.layout, stack.blocks, below, held[h], at[h])
    {
    }

    method Store(h: nat, offset: nat, byte: u8)
      requires Valid() && h < |held| && offset < held[h].size
      modifies stack.data
      ensures Keeps() && held == old(held)
    {
      stack.ValidIsConsistent();
      HandleIsHeld(h);
      hide Stack.Valid, Stack.Consistent, OthersKept, Holds, TopUsed, LowerSame;
      ghost var bs, mem := stack.blocks, stack.data[..];
      stack.ClientWrite(held[h].memory, offset, byte, at[h]);
      LowerStays(stack.layout, below, mem, bs, stack.data[..], bs, at[h]);
    }

    /**
     * Serves a request. Dropped are only requests for handles the client does not hold, and those to which the code
     * would answer with memory outside of the stack; see `AllocateTestIsRight` and `ReallocateIsRight`.
     */
    method Serve(r: Request)
      requires Valid()
      modifies this, stack, stack.data
      ensures Keeps()
    {
      hide Sound, LowerSame, Holds, Accepts, TopUsed, Stack.PlanIsSafe;
      SoundIsLaidOut(stack.layout, stack.data[..], stack.blocks);
      LowerReflexive(stack.layout, below, stack.data[..], stack.blocks);
      match r {
        case Allocate(size) =>
          if
            || !Accepts(stack.layout, stack.data.Length, stack.top, size)
            || stack.top + stack.layout.TotalFor(size) <= stack.data.Length
          {
            AskFor(size);
          }
        case Free(h) =>
          if h < |held| {
            GiveBack(h);
          }
        case Resize(h, size) =>
          if h < |held| {
            var safe := StaysInside(h, size);
            if safe {
              ChangeSize(h, size);
            }
          }
        case Write(h, offset, byte) =>
          if h < |held| && offset < held[h].size {
            Store(h, offset, byte);
          }
      }
    }
  }

  /** The lowest `k` blocks, their tags and guards, and what their users stored, are the same. */
  ghost predicate LowerSame(l: Layout, k: nat, mem: seq<Cell>, bs: seq<Block>, mem': seq<Cell>, bs': seq<Block>) {
    && k <= |bs| && k <= |bs'| && bs'[..k] == bs[..k]
    && forall j | 0 <= j < k :: SameUserMemory(l, mem, mem', bs[j])
  }

  /** The blocks below one that was worked on stay what they are. */
  lemma LowerStays(l: Layout, k: nat, mem: seq<Cell>, bs: seq<Block>, mem': seq<Cell>, bs': seq<Block>, i: nat)
    requires k <= i && k <= |bs| && OthersKept(l, bs, mem, mem', i)
    requires k <= |bs'| && bs'[..k] == bs[..k]
    ensures LowerSame(l, k, mem, bs, mem', bs')
  {
  }

  lemma AppendKeepsPrefix(bs: seq<Block>, b: Block, k: nat)
    requires k <= |bs|
    ensures (bs + [b])[..k] == bs[..k]
    ensures (bs + [b])[|bs|] == b && |bs + [b]| == |bs| + 1
  {
  }

  lemma LowerReflexive(l: Layout, k: nat, mem: seq<Cell>, bs: seq<Block>)
    requires k <= |bs|
    ensures LowerSame(l, k, mem, bs, mem, bs)
  {
  }

  lemma LowerTransitive(l: Layout, k: nat, mem: seq<Cell>, bs: seq<Block>, mem': seq<Cell>, bs': seq<Block>,
                        mem'': seq<Cell>, bs'': seq<Block>)
    requires LowerSame(l, k, mem, bs, mem', bs') && LowerSame(l, k, mem', bs', mem'', bs'')
    ensures LowerSame(l, k, mem, bs, mem'', bs'')
  {
    forall j | 0 <= j < k ensures SameUserMemory(l, mem, mem'', bs[j]) {
      assert bs'[j] == bs'[..k][j] == bs[..k][j] == bs[j];
      SameTwice(l, mem, mem', mem'', bs[j]);
    }
  }

  /**
   * Between saving the top and restoring it a client may ask for anything: the top never falls below the saved
   * one, and restoring brings the saved blocks back, with their tags, guards and contents.
   */
  method SaveRunRestore(stack: Stack, requests: seq<Request>)
    requires stack.Valid()
    modifies stack, stack.data
    ensures stack.Valid() && stack.blocks == old(stack.blocks) && stack.top == old(stack.top)
    ensures forall j | 0 <= j < |stack.blocks| ::
      SameUserMemory(stack.layout, old(stack.data[..]), stack.data[..], stack.blocks[j])
    // that is, every byte between the guards of every block
    ensures forall j, o: nat | 0 <= j < |stack.blocks| && o < stack.data.Length &&
        stack.blocks[j].start + stack.layout.info + stack.layout.guard <= o <
          stack.blocks[j].start + stack.blocks[j].size - stack.layout.info - stack.layout.guard ::
            stack.data[o] == old(stack.data[..])[o]
  {
    hide Sound, Holds, SameUserMemory;
    var saved := stack.GetTop();
    var client := new Client(stack);
    Run(client, requests, saved);
    stack.RestoreTop(saved, client.below);
    AllBytes(stack.layout, stack.blocks, old(stack.data[..]), stack.data[..]);
    assert forall o: nat | o < stack.data.Length :: stack.data[..][o] == stack.data[o];
  }

  lemma AllBytes(l: Layout, bs: seq<Block>, mem: seq<Cell>, mem': seq<Cell>)
    requires forall j | 0 <= j < |bs| :: SameUserMemory(l, mem, mem', bs[j])
    ensures forall j, o: nat | 0 <= j < |bs| && o < |mem| &&
        bs[j].start + l.info + l.guard <= o < bs[j].start + bs[j].size - l.info - l.guard ::
          o < |mem'| && mem'[o] == mem[o]
  {
    forall j, o: nat | 0 <= j < |bs| && o < |mem| && UserStart(l, bs[j]) <= o < End(bs[j]) - l.UserOffset()
      ensures o < |mem'| && mem'[o] == mem[o]
    {
      assert SameUserMemory(l, mem, mem', bs[j]);
    }
  }

  /** Serves one request after the other; a client left without handles is back at the saved top by itself. */
  method Run(client: Client, requests: seq<Request>, ghost saved: nat)
    requires client.Valid() && client.below == |client.stack.blocks| && saved == client.stack.top
    modifies client, client.stack, client.stack.data
    ensures client.Valid() && client.stack.top >= saved
    ensures LowerSame(client.stack.layout, client.below, old(client.stack.data[..]), old(client.stack.blocks),
                      client.stack.data[..], client.stack.blocks)
    ensures client.held == [] ==> client.stack.top == saved && client.stack.blocks == old(client.stack.blocks)
  {
    hide Sound, Holds, SameUserMemory;
    ghost var l, k, mem0, bs0 := client.stack.layout, client.below, client.stack.data[..], client.stack.blocks;
    LowerReflexive(l, k, mem0, bs0);
    for i := 0 to |requests|
      invariant client.Valid()
      invariant LowerSame(l, k, mem0, bs0, client.stack.data[..], client.stack.blocks)
    {
      ghost var mem, bs := client.stack.data[..], client.stack.blocks;
      label before:
      client.Serve(requests[i]);
      assert client.Keeps@before();
      LowerTransitive(l, k, mem0, bs0, mem, bs, client.stack.data[..], client.stack.blocks);
    }
    assert bs0[..k] == bs0;
    TopIsAbove(l, client.stack.data[..], client.stack.blocks, k);
    if client.held == [] {
      NothingLeft(l, client.stack.data[..], client.stack.blocks, k, client.held, client.at);
    }
  }

  lemma TopIsAbove(l: Layout, mem: seq<Cell>, bs: seq<Block>, k: nat)
    requires Sound(l, mem, bs) && k <= |bs|
    ensures EndOf(bs[..k]) <= EndOf(bs)
  {
    TilingPrefix(l, bs, k);
  }

  lemma NothingLeft(l: Layout, mem: seq<Cell>, bs: seq<Block>, k: nat, held: seq<Handle>, at: seq<nat>)
    requires Sound(l, mem, bs) && k <= |bs| && Holds(l, bs, k, held, at) && held == []
    ensures bs == bs[..k]
  {
    NothingHeldNothingLeft(l, bs, k, held, at);
  }

  /** Frees the live blocks one after the other, in the given order of their starts; the stack is empty then. */
  method FreeInOrder(stack: Stack, order: seq<nat>)
    requires stack.Valid() && Live(stack.blocks) == set x | x in order
    requires forall i, j | 0 <= i < j < |order| :: order[i] != order[j]
    modifies stack, stack.data
    ensures stack.Valid() && stack.blocks == [] && stack.top == 0
  {
    hide Stack.Valid, Stack.Consistent, Guarded, Live, TopUsed, PopFree;
    for k := 0 to |order|
      invariant stack.Valid() && Live(stack.blocks) == set x | x in order[k..]
    {
      ghost var bs := stack.blocks;
      assert order[k] in order[k..] && order[k..][1..] == order[k + 1..];
      ghost var i := LiveBlock(stack, order[k]);
      var res := stack.Deallocate(order[k] + stack.layout.UserOffset(), i);
      FreeingEndsOneLife(bs, i);
      assert forall x | x in order[k + 1..] :: x in order[k..] && x != order[k];
      assert forall x | x in order[k..] && x != order[k] :: x in order[k + 1..];
    }
    NothingLives(stack);
  }

  /** The block that starts at a live offset, and that it may be freed. */
  lemma LiveBlock(stack: Stack, start: nat) returns (i: nat)
    requires stack.Valid() && start in Live(stack.blocks)
    ensures stack.Consistent() && DistinctStarts(stack.blocks)
    ensures i < |stack.blocks| && stack.blocks[i].used && stack.blocks[i].start == start
    ensures Guarded(stack.layout, stack.data[..], stack.blocks[i])
    ensures start + stack.layout.UserOffset() == UserStart(stack.layout, stack.blocks[i]) < stack.data.Length
  {
    i :| i < |stack.blocks| && stack.blocks[i].used && stack.blocks[i].start == start;
    BlocksAreTiled(stack.layout, stack.data[..], stack.blocks);
    TilingHasDistinctStarts(stack.layout, stack.blocks);
    RecordsOf(stack.layout, stack.data[..], stack.blocks, i);
  }

  lemma NothingLives(stack: Stack)
    requires stack.Valid() && Live(stack.blocks) == {}
    ensures stack.blocks == [] && stack.top == 0
  {
    TopLives(stack.blocks);
  }

  lemma TopLives(bs: seq<Block>)
    requires TopUsed(bs)
    ensures bs != [] ==> bs[|bs| - 1].start in Live(bs)
  {
  }
}
