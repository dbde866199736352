/** What the users of an arena may rely on: every block they hold is theirs alone and keeps what they stored. */
module ArenaLedger {
  import opened Arithmetic
  import opened MachineIntegers
  import opened AllocatorInternals
  import opened ArenaBlocks
  import opened ArenaChunk
  import opened ArenaAllocator

  /** A block that was handed out. */
  datatype Place = Place(chunk: Chunk, block: nat)

  /** The address its user holds. */
  function Address(p: Place): nat {
    p.chunk.base + p.block + p.chunk.layout.header
  }

  /** What the user finds in a block. */
  ghost function UserMemory(l: Layout, mem: seq<Cell>, s: Span): seq<Cell> {
    if l.header <= s.size && End(s) <= |mem| then mem[s.start + l.header..End(s)] else []
  }

  lemma SameSpanReads(l: Layout, mem: seq<Cell>, mem': seq<Cell>, s: Span)
    requires SameUserMemory(l, mem, mem', s)
    ensures UserMemory(l, mem', s) == UserMemory(l, mem, s)
  {
  }

  lemma SameReads(l: Layout, mem: seq<Cell>, mem': seq<Cell>, live: map<nat, nat>, t: nat)
    requires LiveContentsSame(l, mem, mem', live) && t in live
    ensures UserMemory(l, mem', LiveSpan(live, t)) == UserMemory(l, mem, LiveSpan(live, t))
  {
    assert SameUserMemory(l, mem, mem', LiveSpan(live, t));
  }

  /** Contents that were copied from the beginning of one block to that of another read the same there. */
  lemma CopyReads(l: Layout, mem: seq<Cell>, s: Span, mem': seq<Cell>, s': Span)
    requires l.header <= s.size <= s'.size && End(s) <= |mem| && End(s') <= |mem'|
    requires Copied(mem, s.start + l.header, mem', s'.start + l.header, s.size - l.header)
    ensures UserMemory(l, mem, s) <= UserMemory(l, mem', s')
  {
  }

  lemma OneReplaced<K, V>(before: map<K, V>, after: map<K, V>, p: K, q: K)
    requires p in before && q in after
    requires forall r | r in before && r != p :: r in after && r != q && after[r] == before[r]
    requires forall r | r in after && r != q :: r in before && r != p
    ensures after == (before - {p})[q := after[q]]
  {
  }

  lemma OneRemoved<K, V>(before: map<K, V>, after: map<K, V>, p: K)
    requires forall r | r in before && r != p :: r in after
    requires forall r | r in after :: r in before && r != p && after[r] == before[r]
    ensures after == before - {p}
  {
  }

  lemma OneAdded<K, V>(before: map<K, V>, after: map<K, V>, q: K)
    requires q in after
    requires forall r | r in before :: r in after && r != q && after[r] == before[r]
    requires forall r | r in after && r != q :: r in before
    ensures after == before[q := after[q]]
  {
  }

  lemma OneChanged<K, V>(before: map<K, V>, after: map<K, V>, p: K, v: V)
    requires p in before && p in after && after[p] == v
    requires forall r | r in before :: r in after && (r != p ==> after[r] == before[r])
    requires forall r | r in after :: r in before
    ensures after == before[p := v]
  {
  }

  ghost predicate IsHeld(a: Arena, p: Place)
    reads a`chunks, p.chunk`live
  {
    p.chunk in a.chunks && p.block in p.chunk.live
  }

  ghost function Contents(a: Arena, p: Place): seq<Cell>
    requires IsHeld(a, p)
    reads a`chunks, p.chunk`live, p.chunk.data
  {
    UserMemory(a.layout, p.chunk.data[..], LiveSpan(p.chunk.live, p.block))
  }

  /** All blocks in use, with what their users stored in them. */
  ghost function Ledger(a: Arena): map<Place, seq<Cell>>
    reads a`chunks, set c | c in a.chunks :: c`live, set c | c in a.chunks :: c.data
  {
    map p | p in (set c, b | c in a.chunks && b in c.live :: Place(c, b)) :: Contents(a, p)
  }

  lemma HeldReads(a: Arena, p: Place)
    requires a.Valid() && IsHeld(a, p)
    ensures p.chunk.layout == a.layout && a.layout.header < p.chunk.live[p.block]
    ensures p.block + p.chunk.live[p.block] <= p.chunk.data.Length
    ensures |Contents(a, p)| == p.chunk.live[p.block] - a.layout.header
    ensures Address(p) != 0 && a.Genuine(Address(p)) && a.Report(Address(p)) == Success
    ensures exists i: nat :: i < |a.chunks| && a.chunks[i] == p.chunk
  {
    hide Arena.Valid, Chunk.Valid;
    a.ChunkIsSound(p.chunk);
    a.FoundAgain(p.chunk, p.block, Address(p));
    var i: nat :| i < |a.chunks| && a.chunks[i] == p.chunk;
    a.ReadyToTakeBack(i, p.block);
  }

  /** The memory of different blocks has not a byte in common, and every one of them is aligned in its chunk. */
  lemma HeldApart(a: Arena, p: Place, q: Place)
    requires a.Valid() && p in Ledger(a) && q in Ledger(a)
    ensures Divides(a.layout.align, p.block)
    ensures p != q ==> RangesApart(Address(p), |Ledger(a)[p]|, Address(q), |Ledger(a)[q]|)
  {
    hide Arena.Valid;
    HeldReads(a, p);
    HeldReads(a, q);
    var i: nat :| i < |a.chunks| && a.chunks[i] == p.chunk;
    var j: nat :| j < |a.chunks| && a.chunks[j] == q.chunk;
    a.LiveBlocksAreApart(i, p.block, j, q.block);
  }

  /** An address leads to one block. */
  lemma AddressIsUnique(a: Arena, p: Place)
    requires a.Valid() && IsHeld(a, p)
    ensures forall c, b | c in a.chunks && b in c.live && c.base + b + a.layout.header == Address(p) :: Place(c, b) == p
  {
    hide Arena.Valid;
    HeldReads(a, p);
    forall c, b | c in a.chunks && b in c.live && c.base + b + a.layout.header == Address(p) ensures Place(c, b) == p {
      HeldReads(a, Place(c, b));
      var i: nat :| i < |a.chunks| && a.chunks[i] == c;
      a.SameChunk(Address(p), p.chunk, p.block, i, b);
    }
  }

  /** Giving a block back takes it out of the ledger and changes nothing else. */
  method Free(a: Arena, p: Place) returns (res: Outcome)
    requires a.Valid() && p in Ledger(a)
    modifies a, a.chunks, set c | c in a.chunks :: c.data
    ensures a.Valid() && res == Success && Ledger(a) == old(Ledger(a)) - {p}
    ensures a.chunks == old(a.chunks)
    ensures a.used == old(a.used) - |old(Ledger(a))[p]| - a.layout.header
    ensures a.Report(Address(p)) == DoubleDeallocation
  {
    hide Arena.Valid, LiveContentsSame, UserMemory, SameUserMemory, Arena.Genuine, Arena.Report, Arena.Locates;
    HeldReads(a, p);
    ghost var before := Ledger(a);
    ghost var i, b;
    res, i, b := a.Deallocate(Address(p));
    a.SameChunk(Address(p), p.chunk, p.block, i, b);
    forall q | q in Ledger(a) ensures q in before && q != p && Ledger(a)[q] == before[q] {
      SameReads(a.layout, old(q.chunk.data[..]), q.chunk.data[..], q.chunk.live, q.block);
    }
    OneRemoved(before, Ledger(a), p);
  }

  /** A block that is resized to nothing is given back. */
  method ResizeToNothing(a: Arena, p: Place) returns (res: Outcome)
    requires a.Valid() && p in Ledger(a)
    modifies a, a.chunks, set c | c in a.chunks :: c.data
    ensures a.Valid() && res == Success && Ledger(a) == old(Ledger(a)) - {p}
    ensures OnlyNewChunks(a.chunks, old(a.chunks))
    ensures a.used == old(a.used) - |old(Ledger(a))[p]| - a.layout.header
  {
    hide Arena.Valid, LiveContentsSame, UserMemory, SameUserMemory, Arena.Genuine, Arena.Report, Arena.Locates;
    HeldReads(a, p);
    ghost var before := Ledger(a);
    ghost var i, from, b;
    var moved, at, nb;
    res, moved, i, from, b, at, nb := a.Reallocate(Address(p), 0, None);
    a.SameChunk(Address(p), p.chunk, p.block, i, b);
    forall q | q in Ledger(a) ensures q in before && q != p && Ledger(a)[q] == before[q] {
      SameReads(a.layout, old(q.chunk.data[..]), q.chunk.data[..], q.chunk.live, q.block);
    }
    OneRemoved(before, Ledger(a), p);
  }

  /** What the arena has not handed out is not given back either: an error is reported and nothing changes. */
  method GiveBackStray(a: Arena, memory: nat) returns (res: Outcome)
    requires a.Valid() && a.Report(memory) != Success
    modifies a, a.chunks, set c | c in a.chunks :: c.data
    ensures a.Valid() && a.chunks == old(a.chunks) && Ledger(a) == old(Ledger(a))
    ensures res == if memory == 0 then Success else old(a.Report(memory))
  {
    hide Arena.Valid, Arena.Report, Arena.Genuine, Arena.Locates;
    StrayIsGenuine(a, memory);
    ghost var i, b;
    res, i, b := a.Deallocate(memory);
  }

  /** Giving a block back twice is noticed, and the second time changes nothing. */
  method FreeTwice(a: Arena, p: Place) returns (first: Outcome, second: Outcome)
    requires a.Valid() && p in Ledger(a)
    modifies a, a.chunks, set c | c in a.chunks :: c.data
    ensures a.Valid() && Ledger(a) == old(Ledger(a)) - {p}
    ensures first == Success && second == DoubleDeallocation
  {
    hide Arena.Valid, Contents, Arena.Report, Arena.Genuine;
    HeldReads(a, p);
    first := Free(a, p);
    second := GiveBackStray(a, Address(p));
  }

  /** Nor is it resized. */
  method ResizeStray(a: Arena, memory: nat, size: u64, grant: Option<nat>) returns (res: Outcome)
    requires a.Valid() && a.Report(memory) != Success && a.MayAsk(size, grant) && size > 0
    modifies a, a.chunks, set c | c in a.chunks :: c.data
    ensures a.Valid() && a.chunks == old(a.chunks) && Ledger(a) == old(Ledger(a)) && res == old(a.Report(memory))
  {
    hide Arena.Valid, Arena.Report, Arena.Genuine, Arena.Locates, Arena.MayAsk, Arena.Carried, TotalFor;
    StrayIsGenuine(a, memory);
    ghost var i, from, b;
    var moved, at, nb;
    res, moved, i, from, b, at, nb := a.Reallocate(memory, size, grant);
  }

  lemma StrayIsGenuine(a: Arena, memory: nat)
    requires a.Valid() && a.Report(memory) != Success
    ensures a.Genuine(memory)
  {
    hide Arena.Valid;
    forall i: nat, b: nat | a.Locates(memory, i, b) ensures MagicOf(a.chunks[i].data[b]) != MagicUsed {
      a.ReportIs(memory, i, b);
    }
  }

  /** Clearing the arena takes every block out of the ledger. */
  method Clear(a: Arena)
    requires a.Valid()
    modifies a, a.chunks
    ensures a.Valid() && a.chunks == old(a.chunks) && Ledger(a) == map[] && a.used == 0
  {
    hide Arena.Valid;
    a.Clear();
  }

  /** So does giving all chunks back to the parent allocator. */
  method Release(a: Arena)
    requires a.Valid()
    modifies a
    ensures a.Valid() && a.chunks == [] && Ledger(a) == map[] && a.used == 0
  {
    hide Arena.Valid;
    a.Release();
  }

  /** A request either fails and changes nothing, or adds a block of the rounded size that nobody held before. */
  method Allocate(a: Arena, size: u64, grant: Option<nat>) returns (res: Outcome, memory: nat, p: Option<Place>)
    requires a.Valid() && a.MayAsk(size, grant)
    modifies a, a.chunks, set c | c in a.chunks :: c.data
    ensures a.Valid() && OnlyNewChunks(a.chunks, old(a.chunks))
    ensures res == Success || (res == OutOfMemory && Ledger(a) == old(Ledger(a)))
    ensures size == 0 || a.layout.header + RoundUp(size, a.layout.align) >= U64_LIMIT ==> res == OutOfMemory
    ensures res == OutOfMemory ==>
      size == 0 || a.layout.header + RoundUp(size, a.layout.align) >= U64_LIMIT || grant.None?
    ensures res == Success ==>
      && p.Some? && Address(p.value) == memory && p.value !in old(Ledger(a)) && p.value in Ledger(a)
      && Ledger(a) == old(Ledger(a))[p.value := Ledger(a)[p.value]]
      && |Ledger(a)[p.value]| == RoundUp(size, a.layout.align)
      && a.used == old(a.used) + |Ledger(a)[p.value]| + a.layout.header
  {
    hide Arena.Valid, LiveContentsSame, UserMemory, SameUserMemory, RoundUp, Chunk.CanHold;
    hide Arena.MayAsk, Arena.Served, Arena.ChunksAre, Arena.IsFirst, Arena.Genuine, Arena.Report, Servable, TotalFor;
    p := None;
    ghost var before := Ledger(a);
    ghost var asked;
    var at, block;
    res, memory, asked, at, block := a.Allocate(size, grant);
    if res != Success {
      return;
    }
    p := Some(Place(at, block));
    HeldReads(a, p.value);
    forall q | q in before ensures q in Ledger(a) && q != p.value && Ledger(a)[q] == before[q] {
      SameReads(a.layout, old(q.chunk.data[..]), q.chunk.data[..], old(q.chunk.live), q.block);
    }
    OneAdded(before, Ledger(a), p.value);
  }

  /**
   * A block whose size changes keeps all it held, in front of whatever is new, and every other block is left alone.
   * The arena counts as used exactly what the block has grown by.
   */
  method Resize(a: Arena, p: Place, size: u64, grant: Option<nat>) returns (res: Outcome, memory: nat, q: Place)
    requires a.Valid() && p in Ledger(a) && a.MayAsk(size, grant) && size > 0
    modifies a, a.chunks, set c | c in a.chunks :: c.data
    ensures a.Valid() && OnlyNewChunks(a.chunks, old(a.chunks))
    ensures res == Success || (res == OutOfMemory && Ledger(a) == old(Ledger(a)))
    ensures res == Success ==>
      && Address(q) == memory && q !in old(Ledger(a)) - {p} && q in Ledger(a)
      && Ledger(a) == (old(Ledger(a)) - {p})[q := Ledger(a)[q]]
      && old(Ledger(a))[p] <= Ledger(a)[q] && size <= |Ledger(a)[q]|
      && a.used == old(a.used) + |Ledger(a)[q]| - |old(Ledger(a))[p]|
  {
    hide Arena.Valid, UserMemory, SameUserMemory, RoundUp, Arena.MayAsk, Arena.Genuine, Arena.Report;
    HeldReads(a, p);
    ghost var before := Ledger(a);
    var at, nb;
    res, memory, at, nb := Carry(a, p, size, grant);
    q := p;
    if res != Success {
      return;
    }
    q := Place(at, nb);
    HeldReads(a, q);
    forall r | r in before && r != p ensures r in Ledger(a) && r != q && Ledger(a)[r] == before[r] {
      SameSpanReads(a.layout, old(r.chunk.data[..]), r.chunk.data[..], LiveSpan(r.chunk.live, r.block));
    }
    OneReplaced(before, Ledger(a), p, q);
  }

  /** `reallocate` for a block that is held. */
  method Carry(a: Arena, p: Place, size: u64, grant: Option<nat>)
    returns (res: Outcome, memory: nat, at: Chunk?, nb: nat)
    requires a.Valid() && p in Ledger(a) && a.MayAsk(size, grant) && size > 0
    modifies a, a.chunks, set c | c in a.chunks :: c.data
    ensures a.Valid() && OnlyNewChunks(a.chunks, old(a.chunks))
    ensures res == Success || (res == OutOfMemory && Ledger(a) == old(Ledger(a)))
    ensures res == Success ==>
      && at != null && IsHeld(a, Place(at, nb)) && memory == Address(Place(at, nb))
      && old(Contents(a, p)) <= Contents(a, Place(at, nb)) && size <= |Contents(a, Place(at, nb))|
      && a.used == old(a.used) - |old(Contents(a, p))| + |Contents(a, Place(at, nb))|
    ensures res == Success ==>
      && (forall c | c in old(a.chunks) :: c in a.chunks) && OthersKept(a.layout, old(a.chunks), p.chunk, p.block)
      && NothingElseLive(a.chunks, old(a.chunks), p.chunk, p.block, at, nb)
  {
    hide Arena.Valid, UserMemory, RoundUp, Chunk.CanHold, Arena.MayAsk, Copied;
    hide Arena.Genuine, Arena.Report, Arena.CanAbsorb, OthersKept, NothingElseLive;
    HeldReads(a, p);
    AddressIsUnique(a, p);
    ghost var from, block;
    res, memory, from, block, at, nb := a.Resize(Address(p), size, grant);
    if res == Success {
      HeldReads(a, Place(at, nb));
      CopyReads(a.layout, old(p.chunk.data[..]), LiveSpan(old(p.chunk.live), p.block),
                at.data[..], LiveSpan(at.live, nb));
    }
  }

  lemma WrittenReads(l: Layout, mem: seq<Cell>, s: Span, o: nat, c: Cell)
    requires l.header <= s.size && End(s) <= |mem| && o < s.size - l.header
    ensures UserMemory(l, mem[s.start + (l.header + o) := c], s) == UserMemory(l, mem, s)[o := c]
  {
  }

  /** A user writes into its block, and nobody else can tell. */
  method Store(a: Arena, p: Place, o: nat, byte: u8)
    requires a.Valid() && p in Ledger(a) && o < |Ledger(a)[p]|
    modifies p.chunk.data
    ensures a.Valid() && a.chunks == old(a.chunks)
    ensures Ledger(a) == old(Ledger(a))[p := old(Ledger(a))[p][o := Raw(byte)]]
  {
    hide Arena.Valid, SameUserMemory, UserMemory, Arena.Genuine, Arena.Report;
    HeldReads(a, p);
    var c := p.chunk;
    ghost var mem, before := c.data[..], Ledger(a);
    a.ClientWrite(c, p.block, a.layout.header + o, byte);
    WrittenReads(a.layout, mem, LiveSpan(c.live, p.block), o, Raw(byte));
    forall q | q in before ensures q in Ledger(a) && (q != p ==> Ledger(a)[q] == before[q]) {
      if q.chunk != c {
        assert q.chunk.data[..] == old(q.chunk.data[..]);
      } else if q != p {
        SameSpanReads(a.layout, mem, c.data[..], LiveSpan(c.live, q.block));
      }
    }
    OneChanged(before, Ledger(a), p, before[p][o := Raw(byte)]);
  }
}
