/** Whole runs of one user on an arena that others use as well. */
module ArenaSession {
  import opened MachineIntegers
  import opened AllocatorInternals
  import opened ArenaBlocks
  import opened ArenaChunk
  import opened ArenaAllocator
  import opened ArenaLedger

  /**
   * What a user may ask for; `h` counts the blocks it holds, `grant` is what the parent allocator would answer, and a
   * stray address is any number.
   */
  datatype Request =
    | Ask(size: u64, grant: Option<nat>)
    | GiveBack(h: nat)
    | ChangeSize(h: nat, size: u64, grant: Option<nat>)
    | Write(h: nat, at: nat, byte: u8)
    | GiveBackStray(memory: nat)
    | ChangeStray(memory: nat, size: u64, grant: Option<nat>)
    | ClearAll
    | ReleaseAll
  {
    /** The request is meant for all blocks of all users. */
    predicate EndsAll() { ClearAll? || ReleaseAll? }
  }

  /** The blocks are in use, each of them held once. */
  ghost predicate Holds(l: map<Place, seq<Cell>>, held: seq<Place>) {
    && (forall h | 0 <= h < |held| :: held[h] in l)
    && (forall g, h | 0 <= g < h < |held| :: held[g] != held[h])
  }

  /** Blocks that are held by others are in use, and what they hold is the same in `m` as in `l`. */
  ghost predicate OthersUndisturbed(l: map<Place, seq<Cell>>, held: seq<Place>, m: map<Place, seq<Cell>>,
                                    held': seq<Place>) {
    forall p | p in l && p !in held :: p in m && m[p] == l[p] && p !in held'
  }

  lemma WithoutOne(l: map<Place, seq<Cell>>, held: seq<Place>, h: nat)
    requires Holds(l, held) && h < |held|
    ensures Holds(l - {held[h]}, Without(held, h))
    ensures forall p | p in Without(held, h) :: p in held && p != held[h]
  {
    var rest := Without(held, h);
    forall g | 0 <= g < |rest| ensures rest[g] in l && rest[g] in held && rest[g] != held[h] {
      assert rest[g] == held[if g < h then g else g + 1];
    }
  }

  lemma OthersUndisturbedTwice(l: map<Place, seq<Cell>>, held: seq<Place>, m: map<Place, seq<Cell>>,
                               held': seq<Place>, n: map<Place, seq<Cell>>, held'': seq<Place>)
    requires OthersUndisturbed(l, held, m, held') && OthersUndisturbed(m, held', n, held'')
    ensures OthersUndisturbed(l, held, n, held'')
  {
  }

  /**
   * Serves a request of a user that holds the blocks `held`. Dropped are requests for blocks it does not hold, those
   * with a grant that the parent allocator could not make, and those for stray addresses behind a used header.
   */
  method Serve(a: Arena, held: seq<Place>, r: Request) returns (held': seq<Place>)
    requires a.Valid() && Holds(Ledger(a), held)
    modifies a, a.chunks, set c | c in a.chunks :: c.data
    ensures a.Valid() && Holds(Ledger(a), held') && OnlyNewChunks(a.chunks, old(a.chunks))
    ensures !r.EndsAll() ==> OthersUndisturbed(old(Ledger(a)), held, Ledger(a), held')
    ensures r.EndsAll() ==> Ledger(a) == map[] && held' == []
  {
    hide Arena.Valid, Ledger, Arena.Report;
    held' := held;
    match r {
      case Ask(size, grant) =>
        if a.MayAsk(size, grant) {
          var res, memory, p := Allocate(a, size, grant);
          if res == Success {
            held' := held + [p.value];
          }
        }
      case GiveBack(h) =>
        if h < |held| {
          WithoutOne(Ledger(a), held, h);
          var res := Free(a, held[h]);
          held' := Without(held, h);
        }
      case ChangeSize(h, size, grant) =>
        if h < |held| && a.MayAsk(size, grant) {
          held' := ChangeHeld(a, held, h, size, grant);
        }
      case Write(h, at, byte) =>
        if h < |held| {
          var size := UsableSize(a, held[h]);
          if at < size {
            Store(a, held[h], at, byte);
          }
        }
      case GiveBackStray(memory) =>
        var verdict, i, b := a.BlockFromPointer(memory);
        if verdict != Success {
          var res := ArenaLedger.GiveBackStray(a, memory);
        }
      case ChangeStray(memory, size, grant) =>
        var verdict, i, b := a.BlockFromPointer(memory);
        if verdict != Success && a.MayAsk(size, grant) {
          if size == 0 {
            var res := ArenaLedger.GiveBackStray(a, memory);
          } else {
            var res := ResizeStray(a, memory, size, grant);
          }
        }
      case ClearAll =>
        Clear(a);
        held' := [];
      case ReleaseAll =>
        Release(a);
        held' := [];
    }
  }

  /** Resizing a block that is held; none is left of it if its new size is zero. */
  method ChangeHeld(a: Arena, held: seq<Place>, h: nat, size: u64, grant: Option<nat>) returns (held': seq<Place>)
    requires a.Valid() && Holds(Ledger(a), held) && h < |held| && a.MayAsk(size, grant)
    modifies a, a.chunks, set c | c in a.chunks :: c.data
    ensures a.Valid() && Holds(Ledger(a), held') && OnlyNewChunks(a.chunks, old(a.chunks))
    ensures OthersUndisturbed(old(Ledger(a)), held, Ledger(a), held')
  {
    hide Arena.Valid, Ledger;
    WithoutOne(Ledger(a), held, h);
    if size == 0 {
      var res := ResizeToNothing(a, held[h]);
      return Without(held, h);
    }
    var res, memory, q := Resize(a, held[h], size, grant);
    held' := if res == Success then Without(held, h) + [q] else held;
  }

  /** How much memory the user of a block has. */
  method UsableSize(a: Arena, p: Place) returns (size: nat)
    requires a.Valid() && p in Ledger(a)
    ensures size == |Ledger(a)[p]| && p.chunk in a.chunks
  {
    hide Arena.Valid;
    HeldReads(a, p);
    a.FoundAgain(p.chunk, p.block, Address(p));
    size := p.chunk.data[p.block].size - a.layout.header;
  }

  /**
   * Over any list of requests the arena stays valid and the user holds only blocks that are in use. Unless all blocks
   * are cleared or released, no block that was in use before is touched: it is still in use and holds the same.
   */
  method Run(a: Arena, requests: seq<Request>) returns (held: seq<Place>)
    requires a.Valid()
    modifies a, a.chunks, set c | c in a.chunks :: c.data
    ensures a.Valid() && Holds(Ledger(a), held)
    ensures (forall r | r in requests :: !r.EndsAll()) ==> OthersUndisturbed(old(Ledger(a)), [], Ledger(a), held)
  {
    hide Arena.Valid, Ledger, Holds, OthersUndisturbed;
    held := [];
    ghost var l0, cs := Ledger(a), a.chunks;
    ghost var ended := false;
    NothingHeld(l0);
    for i := 0 to |requests|
      invariant a.Valid() && Holds(Ledger(a), held)
      invariant ended ==> exists r :: r in requests && r.EndsAll()
      invariant !ended ==> OthersUndisturbed(l0, [], Ledger(a), held)
      invariant OnlyNewChunks(a.chunks, cs)
    {
      ghost var l, held0 := Ledger(a), held;
      assert forall k | 0 <= k < |a.chunks| && a.chunks[k] !in cs :: fresh(a.chunks[k]) && fresh(a.chunks[k].data);
      held := Serve(a, held, requests[i]);
      ended := ended || requests[i].EndsAll();
      if !ended {
        OthersUndisturbedTwice(l0, [], l, held0, Ledger(a), held);
      }
    }
  }

  lemma NothingHeld(l: map<Place, seq<Cell>>)
    ensures Holds(l, []) && OthersUndisturbed(l, [], l, [])
  {
  }
}
