/** src/allocators/arena_allocator.c: the operations on one chunk of an arena. */
module ArenaChunk {
  import opened Arithmetic
  import opened MachineIntegers
  import opened AllocatorInternals
  import opened ArenaBlocks

  /** The magic number at a header; anything else is some other number. */
  function MagicOf(c: Cell): Magic {
    if c.Header? then c.magic else MagicOther
  }

  /** Free block `k` is the first that can hold `total`; none can if `k` counts them all. */
  ghost predicate FirstFit(frees: seq<Span>, total: nat, k: nat) {
    && k <= |frees| && (k < |frees| ==> frees[k].size >= total)
    && forall i | 0 <= i < k :: frees[i].size < total
  }

  /**
   * What taking `total` out of free block `k` leaves on the list: the rest of the block, at position `at`, unless
   * it is too small to be a block of its own.
   */
  ghost predicate Recycled(l: Layout, frees: seq<Span>, k: nat, total: nat, at: nat, frees': seq<Span>) {
    && k < |frees| && frees[k].size >= total
    && at < |frees|
    && var rest := Span(frees[k].start + total, frees[k].size - total);
      frees' == if rest.size < l.header + l.align then RemoveAt(frees, k) else InsertAt(RemoveAt(frees, k), at, rest)
  }

  class Chunk {
    const layout: Layout
    // the address at which the memory of the chunk starts
    const base: nat
    const data: array<Cell>
    var bump: nat
    // offset of the first link of the free list, or NIL
    var freeList: int
    ghost var live: map<nat, nat>
    ghost var frees: seq<Span>

    ghost predicate Valid()
      reads this, data
    {
      Carved(layout, data[..], bump, freeList, live, frees) && data.Length < U64_LIMIT
    }

    /** A fresh chunk, as arena_grow prepares it. */
    constructor (layout: Layout, base: nat, capacity: u64)
      requires layout.Valid()
      ensures this.layout == layout && this.base == base && data.Length == capacity && fresh(data)
      ensures Valid() && bump == 0 && live == map[] && frees == []
    {
      this.layout, this.base := layout, base;
      data := new Cell[capacity];
      bump, freeList := 0, NIL;
      live, frees := map[], [];
      new;
      assert Divides(layout.align, 0);
    }

    /** What stays the same when only the free list and spare memory are worked on. */
    twostate predicate LiveKept()
      reads this, data
    {
      Valid() && live == old(live) && LiveContentsSame(layout, old(data[..]), data[..], live)
    }

    /** The search loop of free_list_insert: the link behind which `block` belongs. */
    method FindPlace(block: nat, ghost s: Span) returns (prev: int, cur: int, ghost k: nat)
      requires Valid() && Spare(layout, bump, live, frees, s) && block == s.start
      ensures BelongsAt(frees, k, s)
      ensures cur == NodeAt(layout, frees, k)
      ensures prev == if k == 0 then NIL else NodeAt(layout, frees, k - 1)
    {
      hide Carved, Spare, IsBlock, FreesPlaced;
      FreesOf(layout, data[..], bump, freeList, live, frees);
      prev, cur, k := NIL, freeList, 0;
      while cur != NIL && cur - layout.header < block
        invariant k <= |frees| && cur == NodeAt(layout, frees, k)
        invariant prev == if k == 0 then NIL else NodeAt(layout, frees, k - 1)
        invariant forall i | 0 <= i < k :: frees[i].start < block
        decreases |frees| - k
      {
        NodeReads(layout, data[..], bump, freeList, live, frees, k);
        prev := cur;
        cur := data[cur].next;
        k := k + 1;
      }
      FreesAscend(layout, bump, frees);
    }

    /**
     * free_list_insert of a spare piece with a free header. Both merges are dead: the block the code looks at
     * lies behind the piece, and the other comparison is with a link instead of a block.
     */
    method FreeListInsert(block: nat, ghost s: Span) returns (ghost k: nat)
      requires Valid() && Spare(layout, bump, live, frees, s) && block == s.start
      requires block < data.Length && data[block] == Header(s.size, MagicFree)
      modifies this, data
      ensures LiveKept() && bump == old(bump)
      ensures k <= |old(frees)| && frees == InsertAt(old(frees), k, s)
    {
      hide Carved, Spare, BelongsAt, LiveContentsSame, NodeAt, InsertAt;
      var prev, cur;
      prev, cur, k := FindPlace(block, s);
      InsertReads(layout, data[..], bump, freeList, live, frees, k, s);
      var node := block + layout.header;
      if cur != NIL {
        var previous := cur - layout.header;
        if previous + data[previous].size == block {
          assert false;
        }
      }
      if prev == NIL {
        data[node] := Link(cur);
        freeList := node;
      } else {
        data[node] := Link(cur);
        data[prev] := Link(node);
      }
      var behind := data[node].next;
      if behind != NIL && block + data[block].size == behind {
        assert false;
      }
      frees := InsertAt(frees, k, s);
    }

    /** free_list_find: the free block that starts at `address`, or NIL. */
    method FreeListFind(address: nat) returns (block: int, ghost k: nat)
      requires Valid()
      ensures block != NIL ==> k < |frees| && block == address == frees[k].start
      ensures block == NIL ==> forall i | 0 <= i < |frees| :: frees[i].start != address
    {
      hide LivePlaced, LiveTagged, FreesTagged, Divides, LiveApartFromFrees, LiveContentsSame;
      var node := freeList;
      k := 0;
      while node != NIL
        invariant k <= |frees| && node == NodeAt(layout, frees, k)
        invariant forall i | 0 <= i < k :: frees[i].start < address
        decreases |frees| - k
      {
        NodeReads(layout, data[..], bump, freeList, live, frees, k);
        block := node - layout.header;
        if block == address {
          return;
        }
        if block > address {
          FreesAscend(layout, bump, frees);
          return NIL, k;
        }
        node := data[node].next;
        k := k + 1;
      }
      block := NIL;
    }

    /** The search loop of free_list_remove: the link that leads to the free block at position `k`. */
    method FindLink(block: nat, ghost k: nat) returns (link: int, node: int)
      requires Valid() && k < |frees| && block == frees[k].start
      ensures link == if k == 0 then NIL else NodeAt(layout, frees, k - 1)
      ensures node == NodeAt(layout, frees, k)
    {
      hide LivePlaced, LiveTagged, FreesTagged, Divides, LiveApartFromFrees, LiveContentsSame, Spare, NodeAt;
      link, node := NIL, freeList;
      ghost var i := 0;
      NodeReads(layout, data[..], bump, freeList, live, frees, i);
      while node - layout.header != block
        invariant i <= k && node == NodeAt(layout, frees, i) == frees[i].start + layout.header
        invariant link == if i == 0 then NIL else NodeAt(layout, frees, i - 1)
        decreases k - i
      {
        NodeReads(layout, data[..], bump, freeList, live, frees, i);
        NodeReads(layout, data[..], bump, freeList, live, frees, i + 1);
        link := node;
        node := data[node].next;
        i := i + 1;
      }
      FreesAscend(layout, bump, frees);
    }

    /** free_list_remove of the free block at position `k`. */
    method FreeListRemove(block: nat, ghost k: nat)
      requires Valid() && k < |frees| && block == frees[k].start
      modifies this, data
      ensures LiveKept() && bump == old(bump)
      ensures frees == RemoveAt(old(frees), k)
      ensures Spare(layout, bump, live, frees, old(frees[k]))
    {
      hide Carved, LiveContentsSame, Spare, NodeAt, RemoveAt;
      var link, node := FindLink(block, k);
      RemoveReads(layout, data[..], bump, freeList, live, frees, k);
      if link == NIL {
        freeList := data[node].next;
      } else {
        data[link] := data[node];
      }
      frees := RemoveAt(frees, k);
    }

    /** The first-fit loop of block_from_chunk: the first free block that is large enough, or NIL. */
    method FindFit(total: nat) returns (block: int, ghost k: nat)
      requires Valid()
      ensures FirstFit(frees, total, k)
      ensures block == if k < |frees| then frees[k].start else NIL
    {
      hide LivePlaced, LiveTagged, FreesTagged, Divides, LiveApartFromFrees, LiveContentsSame;
      var node := freeList;
      k := 0;
      while node != NIL
        invariant k <= |frees| && node == NodeAt(layout, frees, k)
        invariant forall i | 0 <= i < k :: frees[i].size < total
        decreases |frees| - k
      {
        NodeReads(layout, data[..], bump, freeList, live, frees, k);
        block := node - layout.header;
        if data[block].size >= total {
          return;
        }
        node := data[node].next;
        k := k + 1;
      }
      block := NIL;
    }

    /** Some free block, or the memory above the bump offset, can hold a block of this total size. */
    ghost predicate CanHold(total: nat)
      reads this, data
    {
      (exists i :: 0 <= i < |frees| && frees[i].size >= total) || bump + total <= data.Length
    }

    /**
     * block_from_chunk. The block it returns is neither live nor free yet, and its header tells its size. It
     * fails exactly if the chunk cannot hold the block, and recycles memory before it uses fresh memory.
     */
    method BlockFromChunk(total: u64) returns (block: int, ghost k: nat, ghost at: nat)
      requires Valid() && layout.Minimum() <= total && Divides(layout.align, total)
      modifies this, data
      ensures LiveKept() && FirstFit(old(frees), total, k)
      ensures block == NIL <==> !old(CanHold(total))
      // it fails only if no free block is large enough and what is left above the bump offset is not either
      ensures block == NIL <==>
          (forall i | 0 <= i < |old(frees)| :: old(frees)[i].size < total) && old(bump) + total > data.Length
      ensures block == NIL ==> unchanged(this) && unchanged(data)
      ensures block != NIL ==>
        && 0 <= block < data.Length && Spare(layout, bump, live, frees, Span(block, total))
        && data[block] == Header(total, MagicOf(data[block]))
      ensures k < |old(frees)| ==>
        block == old(frees)[k].start && bump == old(bump) && Recycled(layout, old(frees), k, total, at, frees)
      ensures k == |old(frees)| && block != NIL ==>
        block == old(bump) && bump == old(bump) + total && frees == old(frees)
    {
      hide Carved, Spare, LiveContentsSame, Recycled, Divides;
      at := 0;
      block, k := FindFit(total);
      if block != NIL {
        at := Recycle(block, total, k);
        return;
      }
      LiveContentsReflexive(layout, data[..], live);
      if data.Length - bump < total {
        return;
      }
      block := bump;
      ghost var mem := data[..];
      BumpMakesSpare(layout, mem, bump, freeList, live, frees, total);
      bump := bump + total;
      SpareHeader(layout, mem, bump, freeList, live, frees, Span(block, total), Header(total, MagicOf(data[block])));
      data[block] := Header(total, MagicOf(data[block]));
    }

    /** The part of block_from_chunk that takes a free block and gives back what it does not need. */
    method Recycle(block: nat, total: u64, ghost k: nat) returns (ghost at: nat)
      requires Valid() && k < |frees| && block == frees[k].start && frees[k].size >= total
      requires layout.Minimum() <= total && Divides(layout.align, total)
      modifies this, data
      ensures LiveKept() && bump == old(bump)
      ensures Recycled(layout, old(frees), k, total, at, frees)
      ensures block < data.Length && Spare(layout, bump, live, frees, Span(block, total))
      ensures data[block] == Header(total, MagicOf(data[block]))
    {
      hide Carved, Spare, LiveContentsSame, InsertAt, RemoveAt, Divides;
      ghost var mem, found := data[..], frees[k];
      NodeReads(layout, mem, bump, freeList, live, frees, k);
      var available := data[block].size;
      FreeListRemove(block, k);
      SpareSplits(layout, bump, live, frees, found, total);
      ghost var kept := Span(block, total);
      at := 0;
      RemoveLength(old(frees), k);
      if available - total >= layout.Minimum() {
        var rest := block + total;
        ghost var s := Span(rest, available - total);
        ghost var mem1 := data[..];
        SpareHeader(layout, mem1, bump, freeList, live, frees, s, Header(available - total, MagicFree));
        data[rest] := Header(available - total, MagicFree);
        LiveContentsTwice(layout, mem, mem1, data[..], live);
        ghost var mem2, frees1 := data[..], frees;
        at := FreeListInsert(rest, s);
        LiveContentsTwice(layout, mem, mem2, data[..], live);
        SpareBesideInsert(layout, bump, live, frees1, at, kept, s);
      }
      ghost var mem3 := data[..];
      SpareHeader(layout, mem3, bump, freeList, live, frees, kept, Header(total, MagicOf(data[block])));
      data[block] := Header(total, MagicOf(data[block]));
      LiveContentsTwice(layout, mem, mem3, data[..], live);
    }

    /** arena_hand_out, the part that concerns the chunk. */
    method HandOut(block: nat, ghost total: nat)
      requires Valid() && Spare(layout, bump, live, frees, Span(block, total))
      requires block < data.Length && data[block].Header? && data[block].size == total
      modifies this, data
      ensures Valid() && bump == old(bump) && frees == old(frees)
      ensures block + total <= data.Length && total >= layout.header
      ensures block !in old(live) && live == old(live)[block := total]
      ensures LiveContentsSame(layout, old(data[..]), data[..], old(live))
    {
      hide Carved, Spare, LiveContentsSame;
      SpareHeader(layout, data[..], bump, freeList, live, frees, Span(block, total), Header(data[block].size, MagicUsed));
      data[block] := Header(data[block].size, MagicUsed);
      SpareBecomesLive(layout, data[..], bump, freeList, live, frees, Span(block, total));
      live := live[block := total];
    }

    /** The part of reallocate that makes a block absorb the free block right behind it. */
    method Absorb(block: nat, behind: nat, ghost k: nat)
      requires Valid() && block in live && k < |frees| && behind == frees[k].start == block + live[block]
      requires live[block] + frees[k].size < U64_LIMIT
      modifies this, data
      ensures Valid() && bump == old(bump) && frees == RemoveAt(old(frees), k)
      ensures live == old(live)[block := old(live)[block] + old(frees)[k].size]
      ensures LiveContentsSame(layout, old(data[..]), data[..], old(live))
    {
      hide Carved, Spare, LiveContentsSame, RemoveAt, Divides;
      ghost var mem, size, taken := data[..], live[block], frees[k];
      LiveReads(layout, mem, bump, freeList, live, frees, block);
      NodeReads(layout, mem, bump, freeList, live, frees, k);
      var grown := data[block].size + data[behind].size;
      FreeListRemove(behind, k);
      ghost var mem1 := data[..];
      GrowLive(layout, mem1, bump, freeList, live, frees, block, taken);
      LiveReads(layout, mem1, bump, freeList, live, frees, block);
      data[block] := Header(grown, data[block].magic);
      LiveContentsTwice(layout, mem, mem1, data[..], live);
      live := live[block := grown];
    }

    /** Writes a cell of the memory that the user of a block has. */
    method WriteCell(block: nat, at: nat, cell: Cell)
      requires Valid() && block in live && layout.header <= at < live[block]
      modifies data
      ensures Valid() && block + at < data.Length && data[..] == old(data[..])[block + at := cell]
      ensures OnlyChanged(layout, old(data[..]), data[..], live, block)
    {
      hide Carved, SameUserMemory;
      WriteToLive(layout, data[..], bump, freeList, live, frees, block, block + at, cell);
      data[block + at] := cell;
    }

    /** A client writes a byte into the memory of its block. */
    method ClientWrite(block: nat, at: nat, byte: u8)
      requires Valid() && block in live && layout.header <= at < live[block]
      modifies data
      ensures Valid() && block + at < data.Length && data[..] == old(data[..])[block + at := Raw(byte)]
      ensures forall t | t in live && t != block :: SameUserMemory(layout, old(data[..]), data[..], LiveSpan(live, t))
    {
      hide Carved, SameUserMemory;
      WriteCell(block, at, Raw(byte));
    }

    /** memcpy into the memory of a live block, from that of another one, perhaps in another chunk. */
    method CopyFrom(block: nat, from: Chunk, source: nat, n: nat)
      requires Valid() && from.Valid() && from.layout == layout
      requires block in live && source in from.live && (from == this ==> source != block)
      requires from != this ==> from.data != data
      requires layout.header + n <= live[block] && layout.header + n <= from.live[source]
      modifies data
      ensures Valid()
      ensures forall t | t in live && t != block :: SameUserMemory(layout, old(data[..]), data[..], LiveSpan(live, t))
      ensures Copied(old(from.data[..]), source + layout.header, data[..], block + layout.header, n)
    {
      hide Carved, SameUserMemory, OnlyChanged, Copied;
      ghost var mem, src := data[..], from.data[..];
      LiveReads(layout, mem, bump, freeList, live, frees, block);
      LiveReads(layout, src, from.bump, from.freeList, from.live, from.frees, source);
      NothingChanged(layout, mem, live, block);
      var to, start := block + layout.header, source + layout.header;
      NothingCopied(src, start, mem, to);
      for k := 0 to n
        invariant Valid() && OnlyChanged(layout, mem, data[..], live, block)
        invariant from != this ==> from.data[..] == src
        invariant Copied(src, start, data[..], to, k)
      {
        if from == this {
          OthersRead(layout, src, data[..], live, block, source, start + k);
        }
        ghost var before := data[..];
        assert from.data[start + k] == from.data[..][start + k] == src[start + k];
        WriteCell(block, layout.header + k, from.data[start + k]);
        OnlyChangedTwice(layout, mem, before, data[..], live, block);
        CopiedGrows(src, start, before, to, k);
      }
      OthersSaid(layout, mem, data[..], live, block);
    }

    /** The part of clear that concerns the chunk: it forgets how far it got. */
    method Clear()
      requires Valid()
      modifies this
      ensures Valid() && bump == 0 && live == map[] && frees == []
    {
      bump, freeList := 0, NIL;
      live, frees := map[], [];
      assert Divides(layout.align, 0);
    }

    /** The part of deallocate that concerns the chunk. */
    method TakeBack(block: nat)
      requires Valid() && block in live
      modifies this, data
      ensures Valid() && bump == old(bump) && live == old(live) - {block}
      ensures exists k: nat :: k <= |old(frees)| && frees == InsertAt(old(frees), k, Span(block, old(live)[block]))
      ensures LiveContentsSame(layout, old(data[..]), data[..], live)
    {
      hide Carved, Spare, LiveContentsSame, InsertAt;
      ghost var mem, s := data[..], LiveSpan(live, block);
      LiveBecomesSpare(layout, mem, bump, freeList, live, frees, block);
      live := live - {block};
      SpareHeader(layout, mem, bump, freeList, live, frees, s, Header(data[block].size, MagicFree));
      data[block] := Header(data[block].size, MagicFree);
      ghost var mem1 := data[..];
      ghost var k := FreeListInsert(block, s);
      LiveContentsTwice(layout, mem, mem1, data[..], live);
    }
  }

  /** The user's memory of every live block but `block` is the same. */
  ghost predicate OnlyChanged(l: Layout, mem: seq<Cell>, mem': seq<Cell>, live: map<nat, nat>, block: nat) {
    forall t | t in live && t != block :: SameUserMemory(l, mem, mem', LiveSpan(live, t))
  }

  lemma NothingChanged(l: Layout, mem: seq<Cell>, live: map<nat, nat>, block: nat)
    ensures OnlyChanged(l, mem, mem, live, block)
  {
  }

  lemma OnlyChangedTwice(l: Layout, mem: seq<Cell>, mem': seq<Cell>, mem'': seq<Cell>, live: map<nat, nat>, block: nat)
    requires OnlyChanged(l, mem, mem', live, block) && OnlyChanged(l, mem', mem'', live, block)
    ensures OnlyChanged(l, mem, mem'', live, block)
  {
    forall t | t in live && t != block ensures SameUserMemory(l, mem, mem'', LiveSpan(live, t)) {
      SameUserMemoryTwice(l, mem, mem', mem'', LiveSpan(live, t));
    }
  }

  lemma OthersSaid(l: Layout, mem: seq<Cell>, mem': seq<Cell>, live: map<nat, nat>, block: nat)
    requires OnlyChanged(l, mem, mem', live, block)
    ensures forall t | t in live && t != block :: SameUserMemory(l, mem, mem', LiveSpan(live, t))
  {
  }

  lemma OthersRead(l: Layout, mem: seq<Cell>, mem': seq<Cell>, live: map<nat, nat>, block: nat, t: nat, o: nat)
    requires OnlyChanged(l, mem, mem', live, block) && t in live && t != block
    requires t + l.header <= o < t + live[t] <= |mem|
    ensures |mem'| == |mem| && mem'[o] == mem[o]
  {
    assert SameUserMemory(l, mem, mem', LiveSpan(live, t));
  }

  lemma FreesOf(l: Layout, mem: seq<Cell>, bump: nat, list: int, live: map<nat, nat>, frees: seq<Span>)
    requires Carved(l, mem, bump, list, live, frees)
    ensures FreesPlaced(l, bump, frees) && list == NodeAt(l, frees, 0)
  {
  }

  lemma NothingCopied(src: seq<Cell>, start: nat, mem: seq<Cell>, to: nat)
    requires start <= |src| && to <= |mem|
    ensures Copied(src, start, mem, to, 0)
  {
  }

  lemma CopiedGrows(src: seq<Cell>, start: nat, mem: seq<Cell>, to: nat, k: nat)
    requires Copied(src, start, mem, to, k) && start + k < |src| && to + k < |mem|
    ensures Copied(src, start, mem[to + k := src[start + k]], to, k + 1)
  {
  }

  /** What a live block reads. */
  lemma LiveReads(l: Layout, mem: seq<Cell>, bump: nat, list: int, live: map<nat, nat>, frees: seq<Span>, s: nat)
    requires Carved(l, mem, bump, list, live, frees) && s in live
    ensures IsBlock(l, bump, LiveSpan(live, s)) && s + live[s] <= |mem|
    ensures s < |mem| && mem[s] == Header(live[s], MagicUsed)
  {
  }

  /** A live block takes over the spare piece behind it by writing its new size. */
  lemma GrowLive(l: Layout, mem: seq<Cell>, bump: nat, list: int, live: map<nat, nat>, frees: seq<Span>,
                 s: nat, behind: Span)
    requires Carved(l, mem, bump, list, live, frees) && s in live && Spare(l, bump, live, frees, behind)
    requires behind.start == s + live[s] && live[s] + behind.size < U64_LIMIT
    ensures s < |mem|
    ensures var grown := live[s] + behind.size; var mem' := mem[s := Header(grown, MagicUsed)];
      && Carved(l, mem', bump, list, live[s := grown], frees)
      && LiveContentsSame(l, mem, mem', live)
  {
    hide Divides, LiveTagged, FreesTagged, LiveApartFromFrees, LiveContentsSame;
    LiveBecomesSpare(l, mem, bump, list, live, frees, s);
    var rest, own := live - {s}, LiveSpan(live, s);
    assert Spare(l, bump, rest, frees, behind);
    SparesJoin(l, bump, rest, frees, own, behind);
    var whole := Span(s, live[s] + behind.size);
    SpareHeader(l, mem, bump, list, rest, frees, whole, Header(whole.size, MagicUsed));
    SpareBecomesLive(l, mem[s := Header(whole.size, MagicUsed)], bump, list, rest, frees, whole);
    assert rest[s := whole.size] == live[s := whole.size];
    HeaderSparesOwnContents(l, mem, live, s, Header(whole.size, MagicUsed));
  }

  lemma HeaderSparesOwnContents(l: Layout, mem: seq<Cell>, live: map<nat, nat>, s: nat, c: Cell)
    requires s in live && s < |mem| && l.header >= 1
    requires LiveContentsSame(l, mem, mem[s := c], live - {s})
    ensures LiveContentsSame(l, mem, mem[s := c], live)
  {
    forall t | t in live ensures SameUserMemory(l, mem, mem[s := c], LiveSpan(live, t)) {
      if t != s {
        assert SameUserMemory(l, mem, mem[s := c], LiveSpan(live - {s}, t));
      }
    }
  }

  /** Writing the header of a spare piece. */
  lemma SpareHeader(l: Layout, mem: seq<Cell>, bump: nat, list: int, live: map<nat, nat>, frees: seq<Span>,
                    s: Span, c: Cell)
    requires Carved(l, mem, bump, list, live, frees) && Spare(l, bump, live, frees, s)
    ensures s.start < |mem| && 1 <= s.size < U64_LIMIT && l.header <= s.size && End(s) <= |mem|
    ensures Carved(l, mem[s.start := c], bump, list, live, frees)
    ensures LiveContentsSame(l, mem, mem[s.start := c], live)
  {
    WriteToSpare(l, mem, bump, list, live, frees, s, s.start, c);
  }

  /** What free_list_insert reads around the place it found, and what its writes amount to. */
  lemma InsertReads(l: Layout, mem: seq<Cell>, bump: nat, list: int, live: map<nat, nat>, frees: seq<Span>,
                    k: nat, s: Span)
    requires Carved(l, mem, bump, list, live, frees) && Spare(l, bump, live, frees, s) && BelongsAt(frees, k, s)
    requires mem[s.start] == Header(s.size, MagicFree)
    ensures k <= |frees| && s.start + l.header < |mem| && l.header >= 1
    ensures k < |frees| <==> NodeAt(l, frees, k) != NIL
    ensures k < |frees| ==>
      && 0 <= NodeAt(l, frees, k) - l.header < |mem|
      && mem[NodeAt(l, frees, k) - l.header].Header?
      && NodeAt(l, frees, k) - l.header + mem[NodeAt(l, frees, k) - l.header].size != s.start
      && s.start + s.size != NodeAt(l, frees, k)
    ensures k > 0 ==>
      && 0 <= NodeAt(l, frees, k - 1) < |mem| && NodeAt(l, frees, k - 1) != s.start
      && NodeAt(l, frees, k - 1) != s.start + l.header
    ensures var cur := NodeAt(l, frees, k); var node := s.start + l.header;
      var mem1 := mem[node := Link(cur)];
      var mem2 := if k == 0 then mem1 else mem1[NodeAt(l, frees, k - 1) := Link(node)];
      && mem2[s.start] == mem[s.start]
      && Carved(l, mem2, bump, if k == 0 then node else list, live, InsertAt(frees, k, s))
      && LiveContentsSame(l, mem, mem2, live)
  {
    hide LivePlaced, LiveTagged, FreesTagged, Divides, LiveApartFromFrees, LiveContentsSame;
    InsertKeepsCarved(l, mem, bump, list, live, frees, k, s);
    MergesNever(l, bump, live, frees, k, s);
    if k < |frees| {
      NodeReads(l, mem, bump, list, live, frees, k);
    }
    if k > 0 {
      NodeReads(l, mem, bump, list, live, frees, k - 1);
      assert Apart(frees[k - 1], s);
    }
    InsertEntry(l, frees, k, s, 0);
  }

  /** What free_list_remove reads around the block it found, and what its write amounts to. */
  lemma RemoveReads(l: Layout, mem: seq<Cell>, bump: nat, list: int, live: map<nat, nat>, frees: seq<Span>, k: nat)
    requires Carved(l, mem, bump, list, live, frees) && k < |frees|
    ensures 0 <= NodeAt(l, frees, k) < |mem| && mem[NodeAt(l, frees, k)] == Link(NodeAt(l, frees, k + 1))
    ensures k > 0 ==> 0 <= NodeAt(l, frees, k - 1) < |mem|
    ensures var mem' := if k == 0 then mem else mem[NodeAt(l, frees, k - 1) := Link(NodeAt(l, frees, k + 1))];
      && Carved(l, mem', bump, if k == 0 then NodeAt(l, frees, 1) else list, live, RemoveAt(frees, k))
      && LiveContentsSame(l, mem, mem', live)
      && Spare(l, bump, live, RemoveAt(frees, k), frees[k])
  {
    hide LivePlaced, LiveTagged, FreesTagged, Divides, LiveApartFromFrees, LiveContentsSame, Spare;
    RemoveKeepsCarved(l, mem, bump, list, live, frees, k);
    NodeReads(l, mem, bump, list, live, frees, k);
    if k > 0 {
      NodeReads(l, mem, bump, list, live, frees, k - 1);
    }
  }
}
