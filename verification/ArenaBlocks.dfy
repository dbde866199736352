/**
 * What the memory of an arena chunk means: live blocks, and free blocks threaded into an address-ordered list
 * through their own memory, all of them apart from each other and below the bump offset.
 */
module ArenaBlocks {
  import opened Arithmetic
  import opened MachineIntegers
  import opened AllocatorInternals

  datatype Magic = MagicUsed | MagicFree | MagicOther

  /** A byte, a block header, or a free-list link, each standing at the first byte it occupies. */
  datatype Cell = Raw(byte: u8) | Header(size: u64, magic: Magic) | Link(next: int)

  /** The null pointer of a link. */
  const NIL: int := -1

  /** Alignment, and the size of a header rounded up to it. */
  datatype Layout = Layout(align: nat, header: nat) {
    ghost predicate Valid() {
      Divides(align, U64_LIMIT) && header >= 1 && Divides(align, header) && Minimum() < U64_LIMIT
    }

    /** ARENA_MINIMUM_BLOCK_SIZE */
    function Minimum(): nat { header + align }
  }

  datatype Span = Span(start: nat, size: nat)

  function End(s: Span): nat { s.start + s.size }

  ghost predicate Apart(a: Span, b: Span) {
    End(a) <= b.start || End(b) <= a.start
  }

  /** An aligned piece of at least the minimum size below the bump offset. */
  ghost predicate IsBlock(l: Layout, bump: nat, s: Span) {
    && Divides(l.align, s.start) && Divides(l.align, s.size)
    && l.align >= 1 && l.header >= 1
    && l.Minimum() <= s.size < U64_LIMIT && End(s) <= bump
  }

  /** Where the link of a free block stands; NIL behind the last one. */
  function NodeAt(l: Layout, frees: seq<Span>, i: nat): int {
    if i < |frees| then frees[i].start + l.header else NIL
  }

  function LiveSpan(live: map<nat, nat>, s: nat): Span
    requires s in live
  {
    Span(s, live[s])
  }

  ghost predicate LivePlaced(l: Layout, bump: nat, live: map<nat, nat>) {
    && (forall s | s in live :: IsBlock(l, bump, LiveSpan(live, s)))
    && (forall s, t | s in live && t in live && s != t :: Apart(LiveSpan(live, s), LiveSpan(live, t)))
  }

  ghost predicate LiveTagged(mem: seq<Cell>, live: map<nat, nat>) {
    forall s | s in live :: s < |mem| && live[s] < U64_LIMIT && mem[s] == Header(live[s], MagicUsed)
  }

  /** Free blocks in strict address order. */
  ghost predicate FreesPlaced(l: Layout, bump: nat, frees: seq<Span>) {
    && (forall i | 0 <= i < |frees| :: IsBlock(l, bump, frees[i]))
    && (forall i, j | 0 <= i < j < |frees| :: End(frees[i]) <= frees[j].start)
  }

  ghost predicate FreeTagged(l: Layout, mem: seq<Cell>, s: Span, next: int) {
    && s.start + l.header < |mem| && s.size < U64_LIMIT
    && mem[s.start] == Header(s.size, MagicFree) && mem[s.start + l.header] == Link(next)
  }

  ghost predicate FreesTagged(l: Layout, mem: seq<Cell>, frees: seq<Span>) {
    forall i | 0 <= i < |frees| :: FreeTagged(l, mem, frees[i], NodeAt(l, frees, i + 1))
  }

  ghost predicate LiveApartFromFrees(live: map<nat, nat>, frees: seq<Span>) {
    forall s, i | s in live && 0 <= i < |frees| :: Apart(LiveSpan(live, s), frees[i])
  }

  /** The state of a chunk. */
  ghost predicate Carved(l: Layout, mem: seq<Cell>, bump: nat, list: int, live: map<nat, nat>, frees: seq<Span>) {
    && l.Valid() && Divides(l.align, bump) && bump <= |mem|
    && LivePlaced(l, bump, live) && LiveTagged(mem, live)
    && FreesPlaced(l, bump, frees) && FreesTagged(l, mem, frees)
    && LiveApartFromFrees(live, frees)
    && list == NodeAt(l, frees, 0)
  }

  /** A piece that is neither live nor on the free list. */
  ghost predicate Spare(l: Layout, bump: nat, live: map<nat, nat>, frees: seq<Span>, s: Span) {
    && IsBlock(l, bump, s)
    && (forall t | t in live :: Apart(LiveSpan(live, t), s))
    && (forall i | 0 <= i < |frees| :: Apart(frees[i], s))
  }

  /** The user's memory of a block. */
  ghost predicate SameUserMemory(l: Layout, mem: seq<Cell>, mem': seq<Cell>, s: Span) {
    && |mem'| == |mem|
    && forall o | s.start + l.header <= o < End(s) && o < |mem| :: mem'[o] == mem[o]
  }

  ghost predicate LiveContentsSame(l: Layout, mem: seq<Cell>, mem': seq<Cell>, live: map<nat, nat>) {
    && |mem'| == |mem|
    && forall s | s in live :: SameUserMemory(l, mem, mem', LiveSpan(live, s))
  }

  /** The first `n` cells from `from` on in `mem` stand from `to` on in `mem'`. */
  ghost predicate Copied(mem: seq<Cell>, from: nat, mem': seq<Cell>, to: nat, n: nat) {
    && from + n <= |mem| && to + n <= |mem'|
    && forall o | to <= o < to + n :: mem'[o] == mem[o - to + from]
  }

  lemma SameUserMemoryTwice(l: Layout, mem: seq<Cell>, mem': seq<Cell>, mem'': seq<Cell>, s: Span)
    requires SameUserMemory(l, mem, mem', s) && SameUserMemory(l, mem', mem'', s)
    ensures SameUserMemory(l, mem, mem'', s)
  {
  }

  // ----- writes that touch no record

  /** A write outside of every live block. */
  lemma LiveSurvives(l: Layout, mem: seq<Cell>, bump: nat, live: map<nat, nat>, o: nat, c: Cell)
    requires LivePlaced(l, bump, live) && LiveTagged(mem, live) && o < |mem|
    requires forall t | t in live :: !(t <= o < t + live[t])
    ensures LiveTagged(mem[o := c], live) && LiveContentsSame(l, mem, mem[o := c], live)
  {
    hide Divides, Apart;
    forall t | t in live ensures mem[o := c][t] == mem[t] {
      assert IsBlock(l, bump, LiveSpan(live, t));
    }
  }

  /** A write that hits neither header nor link of a free block. */
  lemma FreesSurvive(l: Layout, mem: seq<Cell>, frees: seq<Span>, o: nat, c: Cell)
    requires FreesTagged(l, mem, frees) && o < |mem|
    requires forall i | 0 <= i < |frees| :: o != frees[i].start && o != frees[i].start + l.header
    ensures FreesTagged(l, mem[o := c], frees)
  {
  }

  /** A write into a spare piece changes no record and no contents. */
  lemma WriteToSpare(l: Layout, mem: seq<Cell>, bump: nat, list: int, live: map<nat, nat>, frees: seq<Span>,
                     s: Span, o: nat, c: Cell)
    requires Carved(l, mem, bump, list, live, frees)
    requires Spare(l, bump, live, frees, s) && s.start <= o < End(s)
    ensures Carved(l, mem[o := c], bump, list, live, frees)
    ensures LiveContentsSame(l, mem, mem[o := c], live)
  {
    hide Divides, LiveTagged, FreesTagged, LivePlaced, LiveApartFromFrees, LiveContentsSame;
    forall t | t in live ensures !(t <= o < t + live[t]) {
      assert Apart(LiveSpan(live, t), s);
    }
    forall i | 0 <= i < |frees| ensures o != frees[i].start && o != frees[i].start + l.header {
      assert Apart(frees[i], s) && IsBlock(l, bump, frees[i]);
    }
    LiveSurvives(l, mem, bump, live, o, c);
    FreesSurvive(l, mem, frees, o, c);
  }

  /** A client may write anything into the user's memory of a live block. */
  lemma WriteToLive(l: Layout, mem: seq<Cell>, bump: nat, list: int, live: map<nat, nat>, frees: seq<Span>,
                    s: nat, o: nat, c: Cell)
    requires Carved(l, mem, bump, list, live, frees)
    requires s in live && s + l.header <= o < s + live[s]
    ensures o < |mem| && Carved(l, mem[o := c], bump, list, live, frees)
    ensures forall t | t in live && t != s :: SameUserMemory(l, mem, mem[o := c], LiveSpan(live, t))
  {
    hide Divides, FreesTagged;
    assert IsBlock(l, bump, LiveSpan(live, s));
    forall t | t in live && t != s ensures !(t <= o < t + live[t]) {
      assert Apart(LiveSpan(live, s), LiveSpan(live, t));
    }
    forall i | 0 <= i < |frees| ensures o != frees[i].start && o != frees[i].start + l.header {
      assert Apart(LiveSpan(live, s), frees[i]) && IsBlock(l, bump, frees[i]);
    }
    FreesSurvive(l, mem, frees, o, c);
    forall t | t in live ensures mem[o := c][t] == mem[t] {
      assert IsBlock(l, bump, LiveSpan(live, t));
    }
  }

  // ----- the free list

  function InsertAt(frees: seq<Span>, k: nat, s: Span): seq<Span>
    requires k <= |frees|
  {
    frees[..k] + [s] + frees[k..]
  }

  function RemoveAt(frees: seq<Span>, k: nat): seq<Span>
    requires k < |frees|
  {
    frees[..k] + frees[k + 1..]
  }

  /** Position `k` is where `s` belongs in address order. */
  ghost predicate BelongsAt(frees: seq<Span>, k: nat, s: Span) {
    && k <= |frees|
    && (forall i | 0 <= i < k :: frees[i].start < s.start)
    && (forall i | k <= i < |frees| :: s.start <= frees[i].start)
  }

  /** The memory after linking `s` in before position `k`. */
  function LinkedIn(l: Layout, mem: seq<Cell>, frees: seq<Span>, k: nat, s: Span): seq<Cell>
    requires k <= |frees| && s.start + l.header < |mem|
    requires k > 0 ==> frees[k - 1].start + l.header < |mem|
  {
    var mem1 := mem[s.start + l.header := Link(NodeAt(l, frees, k))];
    if k == 0 then mem1 else mem1[frees[k - 1].start + l.header := Link(s.start + l.header)]
  }

  /** The memory after unlinking the free block at position `k`. */
  function Unlinked(l: Layout, mem: seq<Cell>, frees: seq<Span>, k: nat): seq<Cell>
    requires k < |frees|
    requires k > 0 ==> frees[k - 1].start + l.header < |mem|
  {
    if k == 0 then mem else mem[frees[k - 1].start + l.header := Link(NodeAt(l, frees, k + 1))]
  }

  /** A piece that keeps apart from an address-ordered list fits in where it belongs. */
  lemma InsertPlaced(l: Layout, bump: nat, frees: seq<Span>, k: nat, s: Span)
    requires FreesPlaced(l, bump, frees) && BelongsAt(frees, k, s) && IsBlock(l, bump, s)
    requires forall i | 0 <= i < |frees| :: Apart(frees[i], s)
    ensures FreesPlaced(l, bump, InsertAt(frees, k, s))
  {
    hide Divides;
    var frees' := InsertAt(frees, k, s);
    forall i | 0 <= i < |frees'| ensures IsBlock(l, bump, frees'[i]) {
      assert frees'[i] == if i < k then frees[i] else if i == k then s else frees[i - 1];
    }
    forall i, j | 0 <= i < j < |frees'| ensures End(frees'[i]) <= frees'[j].start {
      assert i != k ==> frees'[i] == frees[if i < k then i else i - 1];
      assert j != k ==> frees'[j] == frees[if j < k then j else j - 1];
      if i == k {
        assert IsBlock(l, bump, frees[j - 1]) && Apart(frees[j - 1], s);
      } else if j == k {
        assert IsBlock(l, bump, frees[i]) && Apart(frees[i], s);
      }
    }
  }

  lemma InsertApart(live: map<nat, nat>, frees: seq<Span>, k: nat, s: Span)
    requires LiveApartFromFrees(live, frees) && k <= |frees|
    requires forall t | t in live :: Apart(LiveSpan(live, t), s)
    ensures LiveApartFromFrees(live, InsertAt(frees, k, s))
  {
    hide Apart;
    var frees' := InsertAt(frees, k, s);
    forall t, i | t in live && 0 <= i < |frees'| ensures Apart(LiveSpan(live, t), frees'[i]) {
      assert frees'[i] == if i < k then frees[i] else if i == k then s else frees[i - 1];
    }
  }

  lemma InsertTagged(l: Layout, mem: seq<Cell>, bump: nat, frees: seq<Span>, k: nat, s: Span)
    requires FreesTagged(l, mem, frees) && k <= |frees| && FreesPlaced(l, bump, InsertAt(frees, k, s))
    requires bump <= |mem| && s.size < U64_LIMIT && l.header >= 1
    ensures s.start + l.header < |mem|
    ensures k > 0 ==> frees[k - 1].start + l.header < |mem|
    ensures mem[s.start] == Header(s.size, MagicFree) ==>
        FreesTagged(l, LinkedIn(l, mem, frees, k, s), InsertAt(frees, k, s))
  {
    hide Divides;
    var frees' := InsertAt(frees, k, s);
    assert frees'[k] == s;
    assert IsBlock(l, bump, frees'[k]);
    assert k > 0 ==> FreeTagged(l, mem, frees[k - 1], NodeAt(l, frees, k));
    if mem[s.start] == Header(s.size, MagicFree) {
      var mem' := LinkedIn(l, mem, frees, k, s);
      forall i | 0 <= i < |frees'| ensures FreeTagged(l, mem', frees'[i], NodeAt(l, frees', i + 1)) {
        InsertTaggedOne(l, mem, bump, frees, k, s, i);
      }
    }
  }

  lemma InsertEntry(l: Layout, frees: seq<Span>, k: nat, s: Span, i: nat)
    requires k <= |frees| && i <= |frees|
    ensures var frees' := InsertAt(frees, k, s);
      && |frees'| == |frees| + 1
      && frees'[i] == (if i < k then frees[i] else if i == k then s else frees[i - 1])
      && NodeAt(l, frees', i + 1) ==
        (if i + 1 < k then NodeAt(l, frees, i + 1) else if i + 1 == k then s.start + l.header else NodeAt(l, frees, i))
  {
  }

  /** Blocks apart from each other have no header or link in common. */
  lemma NoCommonCells(l: Layout, bump: nat, frees: seq<Span>, i: nat, j: nat)
    requires FreesPlaced(l, bump, frees) && i < |frees| && j < |frees| && i != j
    ensures var a, b := frees[i], frees[j];
      a.start != b.start && a.start != b.start + l.header && a.start + l.header != b.start + l.header
    ensures End(frees[i]) <= bump && frees[i].start + l.header < End(frees[i]) && l.header >= 1
  {
    hide Divides;
    assert IsBlock(l, bump, frees[i]) && IsBlock(l, bump, frees[j]);
    if i < j {
      assert End(frees[i]) <= frees[j].start;
    } else {
      assert End(frees[j]) <= frees[i].start;
    }
  }

  lemma InsertTaggedOne(l: Layout, mem: seq<Cell>, bump: nat, frees: seq<Span>, k: nat, s: Span, i: nat)
    requires FreesTagged(l, mem, frees) && k <= |frees| && FreesPlaced(l, bump, InsertAt(frees, k, s))
    requires bump <= |mem| && s.size < U64_LIMIT && i <= |frees| && s.start + l.header < |mem|
    requires l.header >= 1
    requires k > 0 ==> frees[k - 1].start + l.header < |mem|
    requires mem[s.start] == Header(s.size, MagicFree)
    ensures var frees' := InsertAt(frees, k, s);
      FreeTagged(l, LinkedIn(l, mem, frees, k, s), frees'[i], NodeAt(l, frees', i + 1))
  {
    hide FreesPlaced, InsertAt, NodeAt;
    var frees' := InsertAt(frees, k, s);
    InsertEntry(l, frees, k, s, i);
    InsertEntry(l, frees, k, s, k);
    if i != k {
      NoCommonCells(l, bump, frees', i, k);
      var o := if i < k then i else i - 1;
      assert FreeTagged(l, mem, frees[o], NodeAt(l, frees, o + 1));
    }
    if k > 0 {
      InsertEntry(l, frees, k, s, k - 1);
      NoCommonCells(l, bump, frees', k - 1, k);
      if i != k - 1 {
        NoCommonCells(l, bump, frees', i, k - 1);
        NoCommonCells(l, bump, frees', k - 1, i);
      }
    }
  }

  /**
   * Linking a spare piece in keeps everything. The list stays in address order, so the block that the code
   * calls previous lies behind the new one.
   */
  lemma InsertKeepsCarved(l: Layout, mem: seq<Cell>, bump: nat, list: int, live: map<nat, nat>, frees: seq<Span>,
                          k: nat, s: Span)
    requires Carved(l, mem, bump, list, live, frees) && Spare(l, bump, live, frees, s)
    requires BelongsAt(frees, k, s) && mem[s.start] == Header(s.size, MagicFree)
    ensures s.start + l.header < |mem|
    ensures k > 0 ==> frees[k - 1].start + l.header < |mem|
    ensures var mem' := LinkedIn(l, mem, frees, k, s); var frees' := InsertAt(frees, k, s);
      && Carved(l, mem', bump, NodeAt(l, frees', 0), live, frees')
      && LiveContentsSame(l, mem, mem', live)
  {
    hide Divides, FreesTagged, LiveTagged, FreesPlaced, LivePlaced, LiveApartFromFrees, LiveContentsSame;
    InsertPlaced(l, bump, frees, k, s);
    InsertApart(live, frees, k, s);
    InsertTagged(l, mem, bump, frees, k, s);
    var node := s.start + l.header;
    var mem1 := mem[node := Link(NodeAt(l, frees, k))];
    OutsideLive(l, bump, live, s, node);
    LiveSurvives(l, mem, bump, live, node, Link(NodeAt(l, frees, k)));
    if k > 0 {
      var prev := frees[k - 1].start + l.header;
      NodeOutsideLive(l, bump, live, frees, k - 1);
      LiveSurvives(l, mem1, bump, live, prev, Link(node));
      LiveContentsTwice(l, mem, mem1, LinkedIn(l, mem, frees, k, s), live);
    }
  }

  lemma OutsideLive(l: Layout, bump: nat, live: map<nat, nat>, s: Span, o: nat)
    requires s.start <= o < End(s) && forall t | t in live :: Apart(LiveSpan(live, t), s)
    ensures forall t | t in live :: !(t <= o < t + live[t])
  {
    forall t | t in live ensures !(t <= o < t + live[t]) {
      assert Apart(LiveSpan(live, t), s);
    }
  }

  lemma NodeOutsideLive(l: Layout, bump: nat, live: map<nat, nat>, frees: seq<Span>, k: nat)
    requires LiveApartFromFrees(live, frees) && FreesPlaced(l, bump, frees) && k < |frees|
    ensures forall t | t in live :: !(t <= frees[k].start + l.header < t + live[t])
  {
    hide Divides;
    assert IsBlock(l, bump, frees[k]);
    forall t | t in live ensures Apart(LiveSpan(live, t), frees[k]) {
    }
    OutsideLive(l, bump, live, frees[k], frees[k].start + l.header);
  }

  lemma LiveContentsTwice(l: Layout, mem: seq<Cell>, mem': seq<Cell>, mem'': seq<Cell>, live: map<nat, nat>)
    requires LiveContentsSame(l, mem, mem', live) && LiveContentsSame(l, mem', mem'', live)
    ensures LiveContentsSame(l, mem, mem'', live)
  {
    forall s | s in live ensures SameUserMemory(l, mem, mem'', LiveSpan(live, s)) {
      assert SameUserMemory(l, mem, mem', LiveSpan(live, s)) && SameUserMemory(l, mem', mem'', LiveSpan(live, s));
    }
  }

  lemma RemoveEntry(l: Layout, frees: seq<Span>, k: nat, i: nat)
    requires k < |frees| && i < |frees| - 1
    ensures var frees' := RemoveAt(frees, k); var o := if i < k then i else i + 1;
      && |frees'| == |frees| - 1
      && frees'[i] == frees[o]
      && NodeAt(l, frees', i + 1) == NodeAt(l, frees, if i + 1 < k then i + 1 else i + 2)
  {
  }

  lemma RemovePlaced(l: Layout, bump: nat, frees: seq<Span>, k: nat)
    requires FreesPlaced(l, bump, frees) && k < |frees|
    ensures FreesPlaced(l, bump, RemoveAt(frees, k))
  {
    hide Divides, IsBlock, RemoveAt;
    var frees' := RemoveAt(frees, k);
    RemoveLength(frees, k);
    forall i | 0 <= i < |frees'| ensures IsBlock(l, bump, frees'[i]) {
      RemoveEntry(l, frees, k, i);
    }
    forall i, j | 0 <= i < j < |frees'| ensures End(frees'[i]) <= frees'[j].start {
      RemoveEntry(l, frees, k, i);
      RemoveEntry(l, frees, k, j);
    }
  }

  lemma RemoveSpare(l: Layout, bump: nat, live: map<nat, nat>, frees: seq<Span>, k: nat)
    requires FreesPlaced(l, bump, frees) && LiveApartFromFrees(live, frees) && k < |frees|
    ensures LiveApartFromFrees(live, RemoveAt(frees, k))
    ensures Spare(l, bump, live, RemoveAt(frees, k), frees[k])
  {
    hide Divides, IsBlock, RemoveAt;
    var frees' := RemoveAt(frees, k);
    RemoveLength(frees, k);
    forall i | 0 <= i < |frees'| ensures Apart(frees'[i], frees[k]) {
      RemoveEntry(l, frees, k, i);
      var o := if i < k then i else i + 1;
      if o < k {
        assert End(frees[o]) <= frees[k].start;
      } else {
        assert End(frees[k]) <= frees[o].start;
      }
    }
    forall t, i | t in live && 0 <= i < |frees'| ensures Apart(LiveSpan(live, t), frees'[i]) {
      RemoveEntry(l, frees, k, i);
    }
    forall t | t in live ensures Apart(LiveSpan(live, t), frees[k]) {
    }
  }

  lemma RemoveLength(frees: seq<Span>, k: nat)
    requires k < |frees|
    ensures |RemoveAt(frees, k)| == |frees| - 1
  {
  }

  lemma RemoveTaggedOne(l: Layout, mem: seq<Cell>, bump: nat, frees: seq<Span>, k: nat, i: nat)
    requires FreesTagged(l, mem, frees) && FreesPlaced(l, bump, frees) && bump <= |mem|
    requires k < |frees| && i < |frees| - 1
    requires k > 0 ==> frees[k - 1].start + l.header < |mem|
    ensures |RemoveAt(frees, k)| == |frees| - 1
    ensures var frees' := RemoveAt(frees, k);
      FreeTagged(l, Unlinked(l, mem, frees, k), frees'[i], NodeAt(l, frees', i + 1))
  {
    hide FreesPlaced, RemoveAt, NodeAt;
    var o := if i < k then i else i + 1;
    RemoveEntry(l, frees, k, i);
    assert FreeTagged(l, mem, frees[o], NodeAt(l, frees, o + 1));
    if k > 0 {
      if o != k - 1 {
        NoCommonCells(l, bump, frees, o, k - 1);
        NoCommonCells(l, bump, frees, k - 1, o);
      } else {
        NoCommonCells(l, bump, frees, o, k);
      }
    }
  }

  /** Unlinking keeps everything and leaves the piece spare. */
  lemma RemoveKeepsCarved(l: Layout, mem: seq<Cell>, bump: nat, list: int, live: map<nat, nat>, frees: seq<Span>,
                          k: nat)
    requires Carved(l, mem, bump, list, live, frees) && k < |frees|
    ensures k > 0 ==> frees[k - 1].start + l.header < |mem|
    ensures var mem' := Unlinked(l, mem, frees, k); var frees' := RemoveAt(frees, k);
      && Carved(l, mem', bump, NodeAt(l, frees', 0), live, frees')
      && LiveContentsSame(l, mem, mem', live)
      && Spare(l, bump, live, frees', frees[k])
  {
    hide Divides, LiveTagged, FreesPlaced, LivePlaced, LiveApartFromFrees, LiveContentsSame, RemoveAt, Spare, NodeAt;
    RemovePlaced(l, bump, frees, k);
    RemoveSpare(l, bump, live, frees, k);
    RemoveLength(frees, k);
    var frees' := RemoveAt(frees, k);
    assert k > 0 ==> FreeTagged(l, mem, frees[k - 1], NodeAt(l, frees, k));
    forall i | 0 <= i < |frees'| ensures FreeTagged(l, Unlinked(l, mem, frees, k), frees'[i], NodeAt(l, frees', i + 1)) {
      RemoveTaggedOne(l, mem, bump, frees, k, i);
    }
    if k > 0 {
      NodeOutsideLive(l, bump, live, frees, k - 1);
      LiveSurvives(l, mem, bump, live, frees[k - 1].start + l.header, Link(NodeAt(l, frees, k + 1)));
    } else {
      LiveContentsReflexive(l, mem, live);
    }
  }

  lemma LiveContentsReflexive(l: Layout, mem: seq<Cell>, live: map<nat, nat>)
    ensures LiveContentsSame(l, mem, mem, live)
  {
  }

  /** What the traversals of the free list read. */
  lemma NodeReads(l: Layout, mem: seq<Cell>, bump: nat, list: int, live: map<nat, nat>, frees: seq<Span>, k: nat)
    requires Carved(l, mem, bump, list, live, frees) && k < |frees|
    ensures NodeAt(l, frees, k) == frees[k].start + l.header < |mem|
    ensures IsBlock(l, bump, frees[k])
    ensures mem[frees[k].start] == Header(frees[k].size, MagicFree)
    ensures mem[NodeAt(l, frees, k)] == Link(NodeAt(l, frees, k + 1))
  {
    hide LivePlaced, LiveTagged, Divides, LiveApartFromFrees;
    assert FreeTagged(l, mem, frees[k], NodeAt(l, frees, k + 1));
  }

  /** Free blocks further down the list start further up. */
  lemma FreesAscend(l: Layout, bump: nat, frees: seq<Span>)
    requires FreesPlaced(l, bump, frees)
    ensures forall i, j | 0 <= i < j < |frees| :: frees[i].start < frees[j].start
  {
    hide Divides;
    forall i, j | 0 <= i < j < |frees| ensures frees[i].start < frees[j].start {
      assert IsBlock(l, bump, frees[i]) && End(frees[i]) <= frees[j].start;
    }
  }

  /**
   * When a piece is put back, the block the code calls previous is the first free one behind it, and its size
   * does not lead back to the piece; nor does the piece end where a link stands. Blocks are never merged.
   */
  lemma MergesNever(l: Layout, bump: nat, live: map<nat, nat>, frees: seq<Span>, k: nat, s: Span)
    requires FreesPlaced(l, bump, frees) && Spare(l, bump, live, frees, s) && BelongsAt(frees, k, s)
    ensures k < |frees| ==> End(frees[k]) != s.start
    ensures k < |frees| ==> End(s) != NodeAt(l, frees, k)
  {
    hide Divides;
    if k < |frees| {
      assert IsBlock(l, bump, frees[k]) && Apart(frees[k], s);
    }
  }

  // ----- pieces changing hands

  /** Handing out a spare piece that carries a header. */
  lemma SpareBecomesLive(l: Layout, mem: seq<Cell>, bump: nat, list: int, live: map<nat, nat>, frees: seq<Span>, s: Span)
    requires Carved(l, mem, bump, list, live, frees) && Spare(l, bump, live, frees, s)
    requires mem[s.start] == Header(s.size, MagicUsed)
    ensures s.start !in live
    ensures Carved(l, mem, bump, list, live[s.start := s.size], frees)
  {
    hide Divides, FreesPlaced, FreesTagged;
    forall t | t in live ensures t != s.start {
      assert IsBlock(l, bump, LiveSpan(live, t)) && Apart(LiveSpan(live, t), s);
    }
    var live' := live[s.start := s.size];
    forall t | t in live' ensures IsBlock(l, bump, LiveSpan(live', t)) {
      assert t != s.start ==> IsBlock(l, bump, LiveSpan(live, t));
    }
    forall t, u | t in live' && u in live' && t != u ensures Apart(LiveSpan(live', t), LiveSpan(live', u)) {
      if t == s.start {
        assert Apart(LiveSpan(live, u), s);
      } else if u == s.start {
        assert Apart(LiveSpan(live, t), s);
      } else {
        assert Apart(LiveSpan(live, t), LiveSpan(live, u));
      }
    }
    forall t, i | t in live' && 0 <= i < |frees| ensures Apart(LiveSpan(live', t), frees[i]) {
      if t == s.start {
        assert Apart(frees[i], s);
      } else {
        assert Apart(LiveSpan(live, t), frees[i]);
      }
    }
  }

  /** Taking a block back from its user. */
  lemma LiveBecomesSpare(l: Layout, mem: seq<Cell>, bump: nat, list: int, live: map<nat, nat>, frees: seq<Span>, s: nat)
    requires Carved(l, mem, bump, list, live, frees) && s in live
    ensures Carved(l, mem, bump, list, live - {s}, frees)
    ensures Spare(l, bump, live - {s}, frees, LiveSpan(live, s))
    ensures IsBlock(l, bump, LiveSpan(live, s)) && s < |mem| && mem[s] == Header(live[s], MagicUsed)
  {
    hide Divides, FreesPlaced, FreesTagged, IsBlock;
    var live' := live - {s};
    forall t | t in live' ensures IsBlock(l, bump, LiveSpan(live', t)) && Apart(LiveSpan(live', t), LiveSpan(live, s)) {
      assert IsBlock(l, bump, LiveSpan(live, t)) && Apart(LiveSpan(live, t), LiveSpan(live, s));
    }
    forall t, u | t in live' && u in live' && t != u ensures Apart(LiveSpan(live', t), LiveSpan(live', u)) {
      assert Apart(LiveSpan(live, t), LiveSpan(live, u));
    }
    forall t, i | t in live' && 0 <= i < |frees| ensures Apart(LiveSpan(live', t), frees[i]) {
      assert Apart(LiveSpan(live, t), frees[i]);
    }
    forall i | 0 <= i < |frees| ensures Apart(frees[i], LiveSpan(live, s)) {
      assert Apart(LiveSpan(live, s), frees[i]);
    }
  }

  /** Cutting a spare piece: its beginning stays spare, and so does the rest if it is large enough. */
  lemma SpareSplits(l: Layout, bump: nat, live: map<nat, nat>, frees: seq<Span>, s: Span, total: nat)
    requires Spare(l, bump, live, frees, s) && l.Minimum() <= total <= s.size && Divides(l.align, total)
    ensures Spare(l, bump, live, frees, Span(s.start, total))
    ensures s.size - total >= l.Minimum() ==> Spare(l, bump, live, frees, Span(s.start + total, s.size - total))
  {
    hide Divides;
    MultiplesAdd(s.start, total, l.align);
    MultiplesAdd(s.size, total, l.align);
    forall t | t in live
      ensures Apart(LiveSpan(live, t), Span(s.start, total))
      ensures Apart(LiveSpan(live, t), Span(s.start + total, s.size - total))
    {
      assert Apart(LiveSpan(live, t), s);
    }
    forall i | 0 <= i < |frees|
      ensures Apart(frees[i], Span(s.start, total))
      ensures Apart(frees[i], Span(s.start + total, s.size - total))
    {
      assert Apart(frees[i], s);
    }
  }

  /** A spare piece stays spare when another one joins the free list. */
  lemma SpareBesideInsert(l: Layout, bump: nat, live: map<nat, nat>, frees: seq<Span>, k: nat, s: Span, other: Span)
    requires Spare(l, bump, live, frees, s) && k <= |frees| && Apart(other, s)
    ensures Spare(l, bump, live, InsertAt(frees, k, other), s)
  {
    hide Divides, IsBlock, Apart;
    var frees' := InsertAt(frees, k, other);
    forall i | 0 <= i < |frees'| ensures Apart(frees'[i], s) {
      InsertEntry(l, frees, k, other, i);
    }
  }

  /** Two spare pieces that touch make one. */
  lemma SparesJoin(l: Layout, bump: nat, live: map<nat, nat>, frees: seq<Span>, a: Span, b: Span)
    requires LivePlaced(l, bump, live) && FreesPlaced(l, bump, frees)
    requires Spare(l, bump, live, frees, a) && Spare(l, bump, live, frees, b) && b.start == End(a)
    requires a.size + b.size < U64_LIMIT
    ensures Spare(l, bump, live, frees, Span(a.start, a.size + b.size))
  {
    hide Divides;
    MultiplesAdd(a.size, b.size, l.align);
    var s := Span(a.start, a.size + b.size);
    forall t | t in live ensures Apart(LiveSpan(live, t), s) {
      assert IsBlock(l, bump, LiveSpan(live, t));
      assert Apart(LiveSpan(live, t), a) && Apart(LiveSpan(live, t), b);
    }
    forall i | 0 <= i < |frees| ensures Apart(frees[i], s) {
      assert IsBlock(l, bump, frees[i]);
      assert Apart(frees[i], a) && Apart(frees[i], b);
    }
  }

  /** Raising the bump offset keeps everything and makes the memory it passes spare. */
  lemma BumpMakesSpare(l: Layout, mem: seq<Cell>, bump: nat, list: int, live: map<nat, nat>, frees: seq<Span>,
                       total: nat)
    requires Carved(l, mem, bump, list, live, frees)
    requires l.Minimum() <= total < U64_LIMIT && Divides(l.align, total) && bump + total <= |mem|
    ensures bump < |mem| && Carved(l, mem, bump + total, list, live, frees)
    ensures Spare(l, bump + total, live, frees, Span(bump, total))
  {
    hide Divides, LiveTagged, FreesTagged;
    MultiplesAdd(bump, total, l.align);
    forall t | t in live
      ensures IsBlock(l, bump + total, LiveSpan(live, t)) && Apart(LiveSpan(live, t), Span(bump, total))
    {
      assert IsBlock(l, bump, LiveSpan(live, t));
    }
    forall i | 0 <= i < |frees|
      ensures IsBlock(l, bump + total, frees[i]) && Apart(frees[i], Span(bump, total))
    {
      assert IsBlock(l, bump, frees[i]);
    }
  }

  // ----- accounting

  /** The sum of the sizes of all live blocks. */
  ghost function SumLive(live: map<nat, nat>): nat
    decreases |live|
  {
    if live == map[] then 0
    else var s :| s in live; live[s] + SumLive(live - {s})
  }

  /** It does not matter which block is counted first. */
  lemma {:induction false} SumLiveWithout(live: map<nat, nat>, s: nat)
    requires s in live
    ensures SumLive(live) == live[s] + SumLive(live - {s})
    decreases |live|
  {
    var t :| t in live && SumLive(live) == live[t] + SumLive(live - {t});
    if t != s {
      SumLiveWithout(live - {t}, s);
      SumLiveWithout(live - {s}, t);
      assert live - {t} - {s} == live - {s} - {t};
    }
  }

  lemma SumLiveWith(live: map<nat, nat>, s: nat, size: nat)
    requires s !in live
    ensures SumLive(live[s := size]) == SumLive(live) + size
  {
    SumLiveWithout(live[s := size], s);
    assert live[s := size] - {s} == live;
  }
}
