/** Any number of threads allocating and freeing through the spin lock, as a state machine over the steps that
    are atomic in the kernel: one compare-exchange, one walk of the list, one store. */
module HeapLock {
  import opened Outcomes
  import opened FreeList
  import opened Arithmetic

  datatype Op = AllocOp(layout: Layout) | FreeOp(block: Region, layout: Layout)

  /** Where a thread is. `entry` remembers the free list as it was when the thread took the lock. */
  datatype Pc =
    | Idle
    | Spinning(op: Op)
    | Holding(op: Op, entry: seq<Region>)
    | Carving(op: Op, entry: seq<Region>, k: nat)
    | Merging(op: Op, entry: seq<Region>)
    | Releasing(op: Op, entry: seq<Region>, addr: nat)

  datatype Heap = Heap(base: nat, top: nat)

  /** `blocks` are the blocks handed out and not freed yet; the callers still own those in `live`, the others
      are being freed. */
  datatype State = State(locked: bool, regions: seq<Region>, blocks: set<Region>, live: set<Region>, threads: seq<Pc>)

  datatype Action = Call(op: Op) | TryLock | FindRegion | ReturnRest | InsertFreed | CoalesceAll | Release

  // ---------- steps ----------

  function Padded(layout: Layout): nat {
    if layout.align > 0 && SizeAlign(layout).Done? then SizeAlign(layout).value.size else 0
  }

  /** Any size may be asked for with any power of two as its alignment; a block is freed by its owner. */
  predicate Callable(s: State, op: Op) {
    PowerOfTwo(op.layout.align) && (op.FreeOp? ==> op.block in s.live && op.block.size == Padded(op.layout))
  }

  predicate InCritical(pc: Pc) {
    pc.Holding? || pc.Carving? || pc.Merging? || pc.Releasing?
  }

  function Move(s: State, t: nat, pc: Pc): State
    requires t < |s.threads|
  {
    s.(threads := s.threads[t := pc])
  }

  /** One step of thread `t`; `None` if it cannot take this step now or the step panics. */
  function Next(s: State, t: nat, action: Action): Option<State>
    requires t < |s.threads|
  {
    match (action, s.threads[t])
    case (Call(op), Idle) =>
      if !Callable(s, op) then None
      else Some(Move(s, t, Spinning(op)).(live := if op.FreeOp? then s.live - {op.block} else s.live))
    case (TryLock, Spinning(op)) =>
      if s.locked then Some(s) else Some(Move(s, t, Holding(op, s.regions)).(locked := true))
    case (FindRegion, Holding(AllocOp(layout), entry)) =>
      if layout.align == 0 || !SizeAlign(layout).Done? then None
      else (
        match FirstFit(s.regions, SizeAlign(layout).value)
        case Done(None) => Some(Move(s, t, Releasing(AllocOp(layout), entry, 0)))
        case Done(Some(k)) =>
          Some(Move(s, t, Carving(AllocOp(layout), entry, k)).(regions := s.regions[..k] + s.regions[k + 1..]))
        case _ => None
      )
    case (ReturnRest, Carving(op, entry, k)) =>
      if k >= |entry| then None
      else (
        match AddRest(s.regions, entry[k], Padded(op.layout))
        case Done(rs) => Some(Move(s, t, Releasing(op, entry, entry[k].addr)).(regions := rs))
        case _ => None
      )
    case (InsertFreed, Holding(FreeOp(block, layout), entry)) =>
      (
        match AddFree(s.regions, block)
        case Done(rs) => Some(Move(s, t, Merging(FreeOp(block, layout), entry)).(regions := rs))
        case _ => None
      )
    case (CoalesceAll, Merging(op, entry)) =>
      Some(Move(s, t, Releasing(op, entry, 0)).(regions := Coalesce(s.regions)))
    case (Release, Releasing(op, entry, addr)) =>
      var s' := Move(s, t, Idle).(locked := false);
      if op.FreeOp? then Some(s'.(blocks := s.blocks - {op.block}))
      else if addr == 0 then Some(s')
      else
        var block := Region(addr, Padded(op.layout));
        Some(s'.(blocks := s.blocks + {block}, live := s.live + {block}))
    case _ => None
  }

  /** A step that is not possible is skipped. */
  function Step(s: State, t: nat, action: Action): State {
    if t >= |s.threads| then s else match Next(s, t, action) case None => s case Some(n) => n
  }

  /** A schedule: which thread moves, and how. */
  function Run(s: State, schedule: seq<(nat, Action)>): State
    decreases schedule
  {
    if schedule == [] then s else Run(Step(s, schedule[0].0, schedule[0].1), schedule[1..])
  }

  function Initial(h: Heap, n: nat): State
    requires h.base < h.top
  {
    State(false, [Region(h.base, h.top - h.base)], {}, {}, seq(n, i => Idle))
  }

  predicate ValidHeap(h: Heap) {
    h.base < h.top < USIZE_LIMIT && WellSized(Region(h.base, h.top - h.base))
  }

  // ---------- invariant ----------

  predicate InBlocks(blocks: set<Region>, x: nat) {
    exists b :: b in blocks && b.Contains(x)
  }

  /** The free list is canonical, and the bytes of the heap are split between it and the blocks: every byte
      lies in the list or in one block, never in two of them, and no byte outside the heap does. */
  ghost predicate Tiles(h: Heap, regions: seq<Region>, blocks: set<Region>) {
    && Canonical(regions)
    && (forall b :: b in blocks ==> WellSized(b))
    && (forall b, c :: b in blocks && c in blocks && b != c ==> b.End() <= c.addr || c.End() <= b.addr)
    && (forall x: nat :: Covers(regions, x) <==> h.base <= x < h.top && !InBlocks(blocks, x))
    && (forall b, x: nat :: b in blocks && b.Contains(x) ==> h.base <= x < h.top)
  }

  /** How far a thread inside the lock has changed the list it found. */
  ghost predicate Progress(regions: seq<Region>, pc: Pc) {
    match pc
    case Idle => true
    case Spinning(_) => true
    case Holding(_, entry) => regions == entry
    case Carving(op, entry, k) =>
      && op.AllocOp? && op.layout.align > 0 && SizeAlign(op.layout).Done?
      && FirstFit(entry, SizeAlign(op.layout).value) == Done(Some(k))
      && regions == entry[..k] + entry[k + 1..]
    case Merging(op, entry) => op.FreeOp? && AddFree(entry, op.block) == Done(regions)
    case Releasing(AllocOp(layout), entry, addr) =>
      layout.align > 0 && Alloc(entry, layout) == Done(Allocation(regions, addr))
    case Releasing(FreeOp(block, layout), entry, _) =>
      layout.align > 0 && Dealloc(entry, block.addr, layout) == Done(regions)
  }

  /** The operation a thread is busy with. */
  ghost predicate OpValid(s: State, pc: Pc) {
    !pc.Idle? ==>
      && PowerOfTwo(pc.op.layout.align)
      && (pc.op.FreeOp? ==> pc.op.block in s.blocks - s.live && pc.op.block.size == Padded(pc.op.layout))
  }

  ghost predicate MutualExclusion(s: State) {
    && (forall t :: 0 <= t < |s.threads| && InCritical(s.threads[t]) ==> s.locked)
    && (forall t, u :: 0 <= t < u < |s.threads| ==> !(InCritical(s.threads[t]) && InCritical(s.threads[u])))
    && (s.locked ==> exists t :: 0 <= t < |s.threads| && InCritical(s.threads[t]))
  }

  predicate Frees(pc: Pc, b: Region) {
    !pc.Idle? && pc.op.FreeOp? && pc.op.block == b
  }

  ghost predicate Inv(h: Heap, s: State) {
    && MutualExclusion(s) && s.live <= s.blocks
    && (!s.locked ==> Tiles(h, s.regions, s.blocks))
    && (forall t :: 0 <= t < |s.threads| && InCritical(s.threads[t]) ==> Tiles(h, s.threads[t].entry, s.blocks))
    && (forall t :: 0 <= t < |s.threads| ==> OpValid(s, s.threads[t]) && Progress(s.regions, s.threads[t]))
    && (forall t, u, b :: 0 <= t < u < |s.threads| ==> !(Frees(s.threads[t], b) && Frees(s.threads[u], b)))
  }

  lemma InitialInv(h: Heap, n: nat)
    requires ValidHeap(h)
    ensures Inv(h, Initial(h, n))
  {
    var rs := Initial(h, n).regions;
    forall x: nat ensures Covers(rs, x) <==> h.base <= x < h.top {
      assert rs[0].Contains(x) <==> h.base <= x < h.top;
    }
  }

  /** A step inside the lock that leaves the blocks alone. */
  lemma InsideKeepsInv(h: Heap, s: State, t: nat, pc: Pc, regions: seq<Region>)
    requires Inv(h, s) && t < |s.threads| && InCritical(s.threads[t])
    requires InCritical(pc) && pc.op == s.threads[t].op && pc.entry == s.threads[t].entry && Progress(regions, pc)
    ensures Inv(h, Move(s, t, pc).(regions := regions))
  {
    hide Tiles;
    var s' := Move(s, t, pc).(regions := regions);
    assert InCritical(s'.threads[t]);
    forall u | 0 <= u < |s.threads| && u != t ensures !InCritical(s'.threads[u]) {
      assert s'.threads[u] == s.threads[u];
    }
  }

  lemma CallKeepsInv(h: Heap, s: State, t: nat, op: Op)
    requires Inv(h, s) && t < |s.threads| && s.threads[t].Idle? && Callable(s, op)
    ensures Inv(h, Move(s, t, Spinning(op)).(live := if op.FreeOp? then s.live - {op.block} else s.live))
  {
    hide Tiles, PowerOfTwo;
    var s' := Move(s, t, Spinning(op)).(live := if op.FreeOp? then s.live - {op.block} else s.live);
    if s.locked {
      var u :| 0 <= u < |s.threads| && InCritical(s.threads[u]);
      assert InCritical(s'.threads[u]);
    }
  }

  lemma TryLockKeepsInv(h: Heap, s: State, t: nat)
    requires Inv(h, s) && t < |s.threads| && s.threads[t].Spinning? && !s.locked
    ensures Inv(h, Move(s, t, Holding(s.threads[t].op, s.regions)).(locked := true))
  {
    var s' := Move(s, t, Holding(s.threads[t].op, s.regions)).(locked := true);
    assert InCritical(s'.threads[t]);
  }

  // ---------- what a whole operation does to the bytes ----------

  lemma RegionsInHeap(h: Heap, regions: seq<Region>, blocks: set<Region>)
    requires Tiles(h, regions, blocks)
    ensures forall i :: 0 <= i < |regions| ==> h.base <= regions[i].addr && regions[i].End() <= h.top
  {
    forall i | 0 <= i < |regions| ensures h.base <= regions[i].addr && regions[i].End() <= h.top {
      assert regions[i].Contains(regions[i].addr) && regions[i].Contains(regions[i].End() - 1);
      assert Covers(regions, regions[i].addr) && Covers(regions, regions[i].End() - 1);
    }
  }

  lemma InMoreBlocks(blocks: set<Region>, block: Region, x: nat)
    ensures InBlocks(blocks + {block}, x) <==> InBlocks(blocks, x) || block.Contains(x)
  {
    if InBlocks(blocks, x) {
      var b :| b in blocks && b.Contains(x);
      assert b in blocks + {block};
    }
    assert block in blocks + {block};
  }

  lemma AddBlock(h: Heap, entry: seq<Region>, blocks: set<Region>, regions: seq<Region>, block: Region)
    requires Tiles(h, entry, blocks) && Canonical(regions) && WellSized(block)
    requires forall x: nat :: block.Contains(x) ==> Covers(entry, x)
    requires forall x: nat :: Covers(regions, x) <==> Covers(entry, x) && !block.Contains(x)
    ensures Tiles(h, regions, blocks + {block}) && block !in blocks
  {
    assert block.Contains(block.addr);
    forall x: nat ensures InBlocks(blocks + {block}, x) <==> InBlocks(blocks, x) || block.Contains(x) {
      InMoreBlocks(blocks, block, x);
    }
    forall b | b in blocks ensures b.End() <= block.addr || block.End() <= b.addr {
      ApartIfNoCommonByte(h, entry, blocks, b, block);
    }
  }

  /** The block that a successful allocation hands out. */
  function Taken(addr: nat, layout: Layout): set<Region> {
    if addr == 0 then {} else {Region(addr, Padded(layout))}
  }

  lemma TilesAfterAlloc(h: Heap, entry: seq<Region>, blocks: set<Region>, layout: Layout)
    requires Tiles(h, entry, blocks) && PowerOfTwo(layout.align) && Alloc(entry, layout).Done?
    ensures var Allocation(regions, addr) := Alloc(entry, layout).value;
      Tiles(h, regions, blocks + Taken(addr, layout)) && Taken(addr, layout) !! blocks
  {
    hide Alloc, SizeAlign;
    AllocRemoves(entry, layout);
    var Allocation(regions, addr) := Alloc(entry, layout).value;
    if addr != 0 {
      AddBlock(h, entry, blocks, regions, Region(addr, Padded(layout)));
    } else {
      assert blocks + Taken(addr, layout) == blocks;
    }
  }

  lemma ApartIfNoCommonByte(h: Heap, regions: seq<Region>, blocks: set<Region>, b: Region, block: Region)
    requires Tiles(h, regions, blocks) && b in blocks && WellSized(block)
    requires forall x: nat :: block.Contains(x) ==> Covers(regions, x)
    ensures b.End() <= block.addr || block.End() <= b.addr
  {
    var x := if b.addr <= block.addr then block.addr else b.addr;
    if b.Contains(x) && block.Contains(x) {
      assert InBlocks(blocks, x);
      assert false;
    }
  }

  lemma TilesAfterFree(h: Heap, entry: seq<Region>, blocks: set<Region>, block: Region, layout: Layout)
    requires Tiles(h, entry, blocks) && layout.align > 0 && block in blocks && block.size == Padded(layout)
    ensures Dealloc(entry, block.addr, layout).Done?
    ensures Tiles(h, Dealloc(entry, block.addr, layout).value, blocks - {block})
  {
    forall x: nat | block.Contains(x) ensures !Covers(entry, x) {
      assert InBlocks(blocks, x);
    }
    DisjointBytes(entry, block);
    DeallocCanonical(entry, block.addr, layout);
    forall x: nat ensures InBlocks(blocks - {block}, x) <==> InBlocks(blocks, x) && !block.Contains(x) {
      if InBlocks(blocks, x) && !block.Contains(x) {
        var b :| b in blocks && b.Contains(x);
        assert b in blocks - {block};
      }
    }
  }

  /** The state in which a thread leaves the lock. */
  function Left(s: State, t: nat, blocks: set<Region>, live: set<Region>): State
    requires t < |s.threads|
  {
    Move(s, t, Idle).(locked := false, blocks := blocks, live := live)
  }

  /** A thread leaves the lock with the blocks as its operation has changed them. */
  lemma LeaveKeepsInv(h: Heap, s: State, t: nat, blocks: set<Region>, live: set<Region>)
    requires Inv(h, s) && t < |s.threads| && InCritical(s.threads[t]) && Tiles(h, s.regions, blocks) && live <= blocks
    requires forall u, b :: 0 <= u < |s.threads| && u != t && Frees(s.threads[u], b) ==> b in blocks - live
    ensures Inv(h, Left(s, t, blocks, live))
  {
    var s' := Left(s, t, blocks, live);
    forall u | 0 <= u < |s.threads|
      ensures !InCritical(s'.threads[u]) && OpValid(s', s'.threads[u]) && Progress(s'.regions, s'.threads[u])
    {
      if u != t {
        assert s'.threads[u] == s.threads[u];
        assert s.threads[u].Spinning? && s.threads[u].op.FreeOp? ==> Frees(s.threads[u], s.threads[u].op.block);
      }
    }
  }

  lemma OthersFree(h: Heap, s: State, t: nat)
    requires Inv(h, s) && t < |s.threads|
    ensures forall u, b :: 0 <= u < |s.threads| && u != t && Frees(s.threads[u], b) ==>
              b in s.blocks - s.live && !Frees(s.threads[t], b)
  {
  }

  lemma ReleaseLeaves(s: State, t: nat)
    requires t < |s.threads| && s.threads[t].Releasing?
    ensures var Releasing(op, entry, addr) := s.threads[t];
      Next(s, t, Release) ==
      Some(if op.FreeOp? then Left(s, t, s.blocks - {op.block}, s.live)
           else Left(s, t, s.blocks + Taken(addr, op.layout), s.live + Taken(addr, op.layout)))
  {
    var Releasing(op, entry, addr) := s.threads[t];
    if op.AllocOp? && addr == 0 {
      assert s.blocks + Taken(addr, op.layout) == s.blocks && s.live + Taken(addr, op.layout) == s.live;
    }
  }

  lemma ReleaseFreed(h: Heap, s: State, t: nat)
    requires Inv(h, s) && t < |s.threads| && s.threads[t].Releasing? && s.threads[t].op.FreeOp?
    ensures Inv(h, Left(s, t, s.blocks - {s.threads[t].op.block}, s.live))
  {
    var Releasing(op, entry, _) := s.threads[t];
    TilesAfterFree(h, entry, s.blocks, op.block, op.layout);
    OthersFree(h, s, t);
    assert Frees(s.threads[t], op.block);
    LeaveKeepsInv(h, s, t, s.blocks - {op.block}, s.live);
  }

  lemma TakenTiles(h: Heap, s: State, t: nat, taken: set<Region>)
    requires Inv(h, s) && t < |s.threads| && s.threads[t].Releasing? && s.threads[t].op.AllocOp?
    requires taken == Taken(s.threads[t].addr, s.threads[t].op.layout)
    ensures Tiles(h, s.regions, s.blocks + taken) && taken !! s.blocks
  {
    TilesAfterAlloc(h, s.threads[t].entry, s.blocks, s.threads[t].op.layout);
  }

  lemma ReleaseTaken(h: Heap, s: State, t: nat, taken: set<Region>)
    requires Inv(h, s) && t < |s.threads| && InCritical(s.threads[t])
    requires Tiles(h, s.regions, s.blocks + taken) && taken !! s.blocks
    ensures Inv(h, Left(s, t, s.blocks + taken, s.live + taken))
  {
    OthersFree(h, s, t);
    LeaveKeepsInv(h, s, t, s.blocks + taken, s.live + taken);
  }

  lemma ReleaseKeepsInv(h: Heap, s: State, t: nat)
    requires Inv(h, s) && t < |s.threads| && s.threads[t].Releasing?
    ensures Next(s, t, Release).Some? && Inv(h, Next(s, t, Release).value)
  {
    ReleaseLeaves(s, t);
    if s.threads[t].op.FreeOp? {
      ReleaseFreed(h, s, t);
    } else {
      var taken := Taken(s.threads[t].addr, s.threads[t].op.layout);
      TakenTiles(h, s, t, taken);
      ReleaseTaken(h, s, t, taken);
    }
  }

  // ---------- all steps and all runs ----------

  lemma FindRegionKeepsInv(h: Heap, s: State, t: nat)
    requires Inv(h, s) && t < |s.threads| && s.threads[t].Holding? && s.threads[t].op.AllocOp?
    requires Next(s, t, FindRegion).Some?
    ensures Inv(h, Next(s, t, FindRegion).value)
  {
    hide Tiles;
    var Holding(op, entry) := s.threads[t];
    match FirstFit(entry, SizeAlign(op.layout).value).value
    case None => InsideKeepsInv(h, s, t, Releasing(op, entry, 0), entry);
    case Some(k) => InsideKeepsInv(h, s, t, Carving(op, entry, k), entry[..k] + entry[k + 1..]);
  }

  lemma AllocIsCarve(entry: seq<Region>, layout: Layout, k: nat)
    requires layout.align > 0 && SizeAlign(layout).Done? && FirstFit(entry, SizeAlign(layout).value) == Done(Some(k))
    ensures k < |entry| && Padded(layout) <= entry[k].size
    ensures Alloc(entry, layout) == Carve(entry, k, Padded(layout))
  {
  }

  lemma CarvingIsAlloc(h: Heap, s: State, t: nat)
    requires Inv(h, s) && t < |s.threads| && s.threads[t].Carving?
    ensures var Carving(op, entry, k) := s.threads[t];
      && op.AllocOp? && op.layout.align > 0 && Padded(op.layout) <= entry[k].size
      && s.regions == entry[..k] + entry[k + 1..]
      && Alloc(entry, op.layout) == Carve(entry, k, Padded(op.layout))
  {
    AllocIsCarve(s.threads[t].entry, s.threads[t].op.layout, s.threads[t].k);
  }

  lemma ReturnRestKeepsInv(h: Heap, s: State, t: nat)
    requires Inv(h, s) && t < |s.threads| && s.threads[t].Carving? && Next(s, t, ReturnRest).Some?
    ensures Inv(h, Next(s, t, ReturnRest).value)
  {
    var Carving(op, entry, k) := s.threads[t];
    CarvingIsAlloc(h, s, t);
    var Allocation(regions, addr) := Carve(entry, k, Padded(op.layout)).value;
    InsideKeepsInv(h, s, t, Releasing(op, entry, addr), regions);
    assert Next(s, t, ReturnRest) == Some(Move(s, t, Releasing(op, entry, addr)).(regions := regions));
  }

  /** A request that every heap list can answer without a panic. */
  predicate Servable(h: Heap, layout: Layout) {
    1 <= layout.align <= NODE_ALIGN && SizeAlign(layout).Done? && h.top + NODE_ALIGN + Padded(layout) < USIZE_LIMIT
  }

  lemma ServablePlain(h: Heap, entry: seq<Region>, blocks: set<Region>, layout: Layout)
    requires Tiles(h, entry, blocks) && Servable(h, layout)
    ensures Plain(entry, layout)
  {
    RegionsInHeap(h, entry, blocks);
  }

  lemma InsertFreedKeepsInv(h: Heap, s: State, t: nat)
    requires Inv(h, s) && t < |s.threads| && s.threads[t].Holding? && s.threads[t].op.FreeOp?
    ensures Next(s, t, InsertFreed).Some? && Inv(h, Next(s, t, InsertFreed).value)
  {
    var Holding(op, entry) := s.threads[t];
    InsideKeepsInv(h, s, t, Merging(op, entry), Insert(entry, op.block));
  }

  lemma CoalesceAllKeepsInv(h: Heap, s: State, t: nat)
    requires Inv(h, s) && t < |s.threads| && s.threads[t].Merging?
    ensures Next(s, t, CoalesceAll).Some? && Inv(h, Next(s, t, CoalesceAll).value)
  {
    var Merging(op, entry) := s.threads[t];
    assert op.block == Region(op.block.addr, Padded(op.layout));
    InsideKeepsInv(h, s, t, Releasing(op, entry, 0), Coalesce(s.regions));
  }

  /** The step a thread inside the lock takes next. */
  function StepInside(pc: Pc): Action
    requires InCritical(pc)
  {
    match pc
    case Holding(AllocOp(_), _) => FindRegion
    case Holding(FreeOp(_, _), _) => InsertFreed
    case Carving(_, _, _) => ReturnRest
    case Merging(_, _) => CoalesceAll
    case Releasing(_, _, _) => Release
  }

  lemma FindRegionGoesOn(h: Heap, s: State, t: nat)
    requires Inv(h, s) && t < |s.threads| && s.threads[t].Holding? && s.threads[t].op.AllocOp?
    requires Servable(h, s.threads[t].op.layout)
    ensures Next(s, t, FindRegion).Some?
  {
    var Holding(op, entry) := s.threads[t];
    ServablePlain(h, entry, s.blocks, op.layout);
    SizeAlignPlain(op.layout);
    FirstFitPlain(entry, SizeAlign(op.layout).value);
  }

  lemma ReturnRestGoesOn(h: Heap, s: State, t: nat)
    requires Inv(h, s) && t < |s.threads| && s.threads[t].Carving? && Servable(h, s.threads[t].op.layout)
    ensures Next(s, t, ReturnRest).Some?
  {
    hide Plain, FirstFit, SizeAlign;
    var Carving(op, entry, k) := s.threads[t];
    CarvingIsAlloc(h, s, t);
    ServablePlain(h, entry, s.blocks, op.layout);
    AllocCanonical(entry, op.layout);
  }

  /** A thread inside the lock can always go on, and nothing in its way panics, if its request asks for no more
      than the alignment of a node and stays clear of the end of the address space. Frees never panic. */
  lemma InsideNeverStuck(h: Heap, s: State, t: nat)
    requires Inv(h, s) && t < |s.threads| && InCritical(s.threads[t])
    requires s.threads[t].op.AllocOp? ==> Servable(h, s.threads[t].op.layout)
    ensures Next(s, t, StepInside(s.threads[t])).Some?
    ensures Inv(h, Next(s, t, StepInside(s.threads[t])).value)
  {
    match s.threads[t] {
      case Holding(AllocOp(_), _) => FindRegionGoesOn(h, s, t);
      case Holding(FreeOp(_, _), _) => InsertFreedKeepsInv(h, s, t);
      case Carving(_, _, _) => ReturnRestGoesOn(h, s, t);
      case Merging(_, _) => CoalesceAllKeepsInv(h, s, t);
      case Releasing(_, _, _) => ReleaseKeepsInv(h, s, t);
    }
    StepKeepsInv(h, s, t);
  }

  lemma StepKeepsInv(h: Heap, s: State, t: nat)
    requires Inv(h, s) && t < |s.threads| && InCritical(s.threads[t])
    requires Next(s, t, StepInside(s.threads[t])).Some?
    ensures Inv(h, Next(s, t, StepInside(s.threads[t])).value)
  {
    match s.threads[t]
    case Holding(AllocOp(_), _) => FindRegionKeepsInv(h, s, t);
    case Holding(FreeOp(_, _), _) => InsertFreedKeepsInv(h, s, t);
    case Carving(_, _, _) => ReturnRestKeepsInv(h, s, t);
    case Merging(_, _) => CoalesceAllKeepsInv(h, s, t);
    case Releasing(_, _, _) => ReleaseKeepsInv(h, s, t);
  }

  /** Every step keeps the invariant, whatever alignments are asked for. */
  lemma NextKeepsInv(h: Heap, s: State, t: nat, action: Action)
    requires Inv(h, s) && t < |s.threads| && Next(s, t, action).Some?
    ensures Inv(h, Next(s, t, action).value)
  {
    var pc := s.threads[t];
    if InCritical(pc) {
      assert action == StepInside(pc);
      StepKeepsInv(h, s, t);
    } else if pc.Idle? {
      CallKeepsInv(h, s, t, action.op);
    } else if !s.locked {
      TryLockKeepsInv(h, s, t);
    }
  }

  /** Every interleaving of any number of threads keeps the invariant. */
  lemma {:induction false} RunKeepsInv(h: Heap, s: State, schedule: seq<(nat, Action)>)
    requires Inv(h, s)
    ensures Inv(h, Run(s, schedule))
    decreases schedule
  {
    if schedule != [] {
      var (t, action) := schedule[0];
      if t < |s.threads| && Next(s, t, action).Some? {
        NextKeepsInv(h, s, t, action);
      }
      RunKeepsInv(h, Step(s, t, action), schedule[1..]);
    }
  }

  lemma SameBlocksSameList(h: Heap, a: seq<Region>, b: seq<Region>, blocks: set<Region>)
    requires Tiles(h, a, blocks) && Tiles(h, b, blocks)
    ensures a == b
  {
    CanonicalUnique(a, b);
  }

  /** Whenever no thread holds the lock, the free list is a function of the blocks handed out: two runs, however
      they interleave and whatever they did before, agree on it if they agree on the blocks; and when every
      block is freed it is the initial list again. */
  lemma FreeListIsCanonical(h: Heap, n: nat, n': nat, schedule: seq<(nat, Action)>, schedule': seq<(nat, Action)>)
    requires ValidHeap(h)
    ensures var s, s' := Run(Initial(h, n), schedule), Run(Initial(h, n'), schedule');
      && (!s.locked && !s'.locked && s.blocks == s'.blocks ==> s.regions == s'.regions)
      && (!s.locked ==> Tiles(h, s.regions, s.blocks))
      && (!s.locked && s.blocks == {} ==> s.regions == [Region(h.base, h.top - h.base)])
      && MutualExclusion(s)
  {
    hide Run, Tiles;
    InitialInv(h, n);
    InitialInv(h, n');
    RunKeepsInv(h, Initial(h, n), schedule);
    RunKeepsInv(h, Initial(h, n'), schedule');
    var s, s' := Run(Initial(h, n), schedule), Run(Initial(h, n'), schedule');
    if !s.locked && !s'.locked && s.blocks == s'.blocks {
      SameBlocksSameList(h, s.regions, s'.regions, s.blocks);
    }
    if !s.locked && s.blocks == {} {
      SameBlocksSameList(h, s.regions, Initial(h, n).regions, {});
    }
  }

  // ---------- one thread by itself ----------

  lemma {:induction false} RunConcat(s: State, first: seq<(nat, Action)>, second: seq<(nat, Action)>)
    ensures Run(s, first + second) == Run(Run(s, first), second)
    decreases first
  {
    if first == [] {
      assert first + second == second;
    } else {
      assert (first + second)[1..] == first[1..] + second;
      RunConcat(Step(s, first[0].0, first[0].1), first[1..], second);
    }
  }

  /** All steps of one allocation, and of one free. */
  function AllocSteps(t: nat, layout: Layout): seq<(nat, Action)> {
    [(t, Call(AllocOp(layout))), (t, TryLock), (t, FindRegion), (t, ReturnRest), (t, Release)]
  }

  function FreeSteps(t: nat, block: Region, layout: Layout): seq<(nat, Action)> {
    [(t, Call(FreeOp(block, layout))), (t, TryLock), (t, InsertFreed), (t, CoalesceAll), (t, Release)]
  }

  lemma RunStep(s: State, t: nat, action: Action, rest: seq<(nat, Action)>)
    ensures Run(s, [(t, action)] + rest) == Run(Step(s, t, action), rest)
  {
    assert ([(t, action)] + rest)[1..] == rest;
  }

  /** Five steps of one thread, one after another. */
  lemma RunFiveSteps(s: State, t: nat, a: Action, b: Action, c: Action, d: Action, e: Action)
    ensures Run(s, [(t, a), (t, b), (t, c), (t, d), (t, e)]) ==
            Step(Step(Step(Step(Step(s, t, a), t, b), t, c), t, d), t, e)
  {
    hide Next, Step;
    var steps := [(t, a), (t, b), (t, c), (t, d), (t, e)];
    var s1 := Step(s, t, a);
    var s2 := Step(s1, t, b);
    var s3 := Step(s2, t, c);
    var s4 := Step(s3, t, d);
    assert steps == [steps[0]] + steps[1..];
    RunStep(s, t, a, steps[1..]);
    assert steps[1..] == [steps[1]] + steps[2..];
    RunStep(s1, t, b, steps[2..]);
    assert steps[2..] == [steps[2]] + steps[3..];
    RunStep(s2, t, c, steps[3..]);
    assert steps[3..] == [steps[3]] + steps[4..];
    RunStep(s3, t, d, steps[4..]);
    assert steps[4..] == [steps[4]] + [];
    RunStep(s4, t, e, []);
  }

  /** A thread inside the lock with no step to take: its operation has panicked. */
  predicate Stuck(s: State, t: nat) {
    s.locked && t < |s.threads| && InCritical(s.threads[t]) && Next(s, t, StepInside(s.threads[t])) == None
  }

  /** A free lock is taken by whichever thread tries, whatever it wants; from a locked one it is turned away. */
  lemma LockTaken(s: State, t: nat)
    requires t < |s.threads| && s.threads[t].Spinning?
    ensures Next(s, t, TryLock) ==
            if s.locked then Some(s)
            else Some(State(true, s.regions, s.blocks, s.live, s.threads[t := Holding(s.threads[t].op, s.regions)]))
  {
  }

  lemma TakeLock(s: State, t: nat, op: Op)
    requires t < |s.threads| && s.threads[t].Idle? && !s.locked && Callable(s, op)
    ensures Step(Step(s, t, Call(op)), t, TryLock) ==
            var live := if op.FreeOp? then s.live - {op.block} else s.live;
            Move(s, t, Holding(op, s.regions)).(locked := true, live := live)
  {
    hide Callable;
    var s1 := Step(s, t, Call(op));
    assert s1 == Move(s, t, Spinning(op)).(live := if op.FreeOp? then s.live - {op.block} else s.live);
    LockTaken(s1, t);
    assert s1.threads[t := Holding(op, s.regions)] == s.threads[t := Holding(op, s.regions)];
  }

  /** The steps inside the lock, from finding a region to releasing the lock. */
  lemma InsideAlone(s: State, t: nat, layout: Layout)
    requires t < |s.threads| && s.locked && layout.align > 0 && s.threads[t] == Holding(AllocOp(layout), s.regions)
    ensures var s' := Step(Step(Step(s, t, FindRegion), t, ReturnRest), t, Release);
      if Alloc(s.regions, layout).Done? then
        var Allocation(regions, addr) := Alloc(s.regions, layout).value;
        s' == Left(s, t, s.blocks + Taken(addr, layout), s.live + Taken(addr, layout)).(regions := regions)
      else Stuck(s', t)
  {
    hide FirstFit, AddRest, SizeAlign;
    var s1 := Step(s, t, FindRegion);
    if Next(s, t, FindRegion) == None {
      assert s1 == s;
    } else if s1.threads[t].Releasing? {
      assert Step(s1, t, ReturnRest) == s1;
      ReleaseLeaves(s1, t);
    } else {
      var s2 := Step(s1, t, ReturnRest);
      if s2.threads[t].Releasing? {
        ReleaseLeaves(s2, t);
      }
    }
  }

  /** A thread that allocates without being interrupted does what `Alloc` says; and if that panics, it holds the
      lock for ever. */
  lemma AllocAlone(s: State, t: nat, layout: Layout)
    requires t < |s.threads| && s.threads[t].Idle? && !s.locked && PowerOfTwo(layout.align)
    ensures var s' := Run(s, AllocSteps(t, layout));
      if Alloc(s.regions, layout).Done? then
        var Allocation(regions, addr) := Alloc(s.regions, layout).value;
        var taken := Taken(addr, layout);
        s' == s.(regions := regions, blocks := s.blocks + taken, live := s.live + taken)
      else Stuck(s', t)
  {
    var op := AllocOp(layout);
    RunFiveSteps(s, t, Call(op), TryLock, FindRegion, ReturnRest, Release);
    TakeLock(s, t, op);
    var held := Move(s, t, Holding(op, s.regions)).(locked := true);
    InsideAlone(held, t, layout);
    assert s.threads[t := Holding(op, s.regions)][t := Idle] == s.threads;
  }

  /** The steps inside the lock, from inserting the block to releasing the lock. */
  lemma FreeInside(s: State, t: nat, block: Region, layout: Layout)
    requires t < |s.threads| && s.locked && s.threads[t] == Holding(FreeOp(block, layout), s.regions)
    requires AddFree(s.regions, block).Done?
    ensures Step(Step(Step(s, t, InsertFreed), t, CoalesceAll), t, Release) ==
            Left(s, t, s.blocks - {block}, s.live).(regions := Coalesce(AddFree(s.regions, block).value))
  {
    hide AddFree, Coalesce;
    var op := FreeOp(block, layout);
    var s1 := Step(s, t, InsertFreed);
    assert s1 == Move(s, t, Merging(op, s.regions)).(regions := AddFree(s.regions, block).value);
    var s2 := Step(s1, t, CoalesceAll);
    assert s2.threads == s.threads[t := Releasing(op, s.regions, 0)];
    ReleaseLeaves(s2, t);
  }

  /** A thread that frees one of its blocks without being interrupted puts the block back into the list: it always
      gets that far, and the block is gone. */
  lemma FreeAlone(h: Heap, s: State, t: nat, block: Region, layout: Layout)
    requires Inv(h, s) && t < |s.threads| && s.threads[t].Idle? && !s.locked
    requires PowerOfTwo(layout.align) && block in s.live && block.size == Padded(layout)
    ensures Dealloc(s.regions, block.addr, layout).Done?
    ensures Run(s, FreeSteps(t, block, layout)) ==
            State(false, Dealloc(s.regions, block.addr, layout).value, s.blocks - {block}, s.live - {block}, s.threads)
  {
    var op := FreeOp(block, layout);
    TilesAfterFree(h, s.regions, s.blocks, block, layout);
    assert block == Region(block.addr, Padded(layout));
    hide Inv, Tiles, AddFree, Coalesce, SizeAlign;
    RunFiveSteps(s, t, Call(op), TryLock, InsertFreed, CoalesceAll, Release);
    TakeLock(s, t, op);
    var held := Move(s, t, Holding(op, s.regions)).(locked := true, live := s.live - {block});
    FreeInside(held, t, block, layout);
    assert s.threads[t := Holding(op, s.regions)][t := Idle] == s.threads;
  }

  /** A thread that allocates and frees again, undisturbed, leaves no trace, whatever the alignment. */
  lemma AllocThenFree(h: Heap, s: State, t: nat, layout: Layout)
    requires Inv(h, s) && t < |s.threads| && s.threads[t].Idle? && !s.locked && PowerOfTwo(layout.align)
    requires Alloc(s.regions, layout).Done? && Alloc(s.regions, layout).value.addr != 0
    ensures var block := Region(Alloc(s.regions, layout).value.addr, Padded(layout));
      Run(s, AllocSteps(t, layout) + FreeSteps(t, block, layout)) == s
  {
    hide Next, Dealloc, Run;
    var block := Region(Alloc(s.regions, layout).value.addr, Padded(layout));
    var s1 := Run(s, AllocSteps(t, layout));
    AllocAlone(s, t, layout);
    RunKeepsInv(h, s, AllocSteps(t, layout));
    TilesAfterAlloc(h, s.regions, s.blocks, layout);
    FreeAlone(h, s1, t, block, layout);
    DeallocUndoesAlloc(s.regions, layout);
    RunConcat(s, AllocSteps(t, layout), FreeSteps(t, block, layout));
    assert s.blocks + {block} - {block} == s.blocks && s.live + {block} - {block} == s.live;
  }

  lemma StepKeepsStuck(s: State, t: nat, u: nat, action: Action)
    requires MutualExclusion(s) && Stuck(s, t)
    ensures Stuck(Step(s, u, action), t) && Step(s, u, action).regions == s.regions
  {
    hide FirstFit, AddRest, AddFree, SizeAlign, Callable;
    if u == t || u >= |s.threads| {
      assert Next(s, t, action) == None;
    } else {
      assert !InCritical(s.threads[u]);
      var s' := Step(s, u, action);
      assert s'.threads[t] == s.threads[t] && s'.regions == s.regions && s'.locked;
    }
  }

  /** The lock is never released again, and nobody else gets in. */
  lemma {:induction false} StuckForever(h: Heap, s: State, t: nat, schedule: seq<(nat, Action)>)
    requires Inv(h, s) && Stuck(s, t)
    ensures Stuck(Run(s, schedule), t) && Run(s, schedule).regions == s.regions
    decreases schedule
  {
    hide Stuck, Next;
    if schedule != [] {
      var (u, action) := schedule[0];
      StepKeepsStuck(s, t, u, action);
      if u < |s.threads| && Next(s, u, action).Some? {
        NextKeepsInv(h, s, u, action);
      }
      StuckForever(h, Step(s, u, action), t, schedule[1..]);
    }
  }

  function HeapOf(r: Region): Heap {
    Heap(r.addr, r.End())
  }

  /** Two requests of one thread, on a heap of whole pages with nothing handed out, among any number of idle threads. */
  lemma TwoRequests(heap: Region, n: nat, t: nat, first: Layout, second: Layout)
    requires PageHeap(heap) && t < n && PowerOfTwo(first.align) && PowerOfTwo(second.align)
    requires Alloc([heap], first).Done?
    ensures var regions := Alloc([heap], first).value.regions;
      var s := Run(Initial(HeapOf(heap), n), AllocSteps(t, first) + AllocSteps(t, second));
      && Inv(HeapOf(heap), s)
      && if Alloc(regions, second).Done? then Taken(Alloc(regions, second).value.addr, second) <= s.live
        else Stuck(s, t)
  {
    var s := Initial(HeapOf(heap), n);
    assert s.regions == [heap];
    PageHeapCanonical(heap);
    assert WellSized([heap][0]);
    InitialInv(HeapOf(heap), n);
    RunKeepsInv(HeapOf(heap), s, AllocSteps(t, first) + AllocSteps(t, second));
    RunConcat(s, AllocSteps(t, first), AllocSteps(t, second));
    AllocAlone(s, t, first);
    AllocAlone(Run(s, AllocSteps(t, first)), t, second);
  }

  /** From the boot on: with any alignment above that of a node, two requests are enough for a caller to own a
      block of the wrong alignment. */
  lemma MisalignedRun(align: nat, n: nat, t: nat)
    requires PowerOfTwo(align) && NODE_ALIGN < align <= MAX_ALIGN && t < n
    ensures var schedule := AllocSteps(t, Layout(24, 8)) + AllocSteps(t, Layout(align, align));
      var s := Run(Initial(HeapOf(ExampleHeap(align)), n), schedule);
      exists block :: block in s.live && block.size == align && block.addr % align != 0
  {
    MisalignedHeap(align);
    EightIsPower();
    TwoRequests(ExampleHeap(align), n, t, Layout(24, 8), Layout(align, align));
    MultipleOfEight(align);
    DivideSum(1, align, 0, align);
    PaddedAlready(align, align);
    var rest := ExampleRest(align, 24);
    assert Region(rest.addr, align) in Taken(rest.addr, Layout(align, align));
  }

  /** And two requests are enough for the heap to be locked for ever, whatever happens afterwards. */
  lemma StuckRun(align: nat, n: nat, t: nat, later: seq<(nat, Action)>)
    requires PowerOfTwo(align) && NODE_ALIGN < align <= MAX_ALIGN && t < n
    ensures var schedule := AllocSteps(t, StickingFirst(align)) + AllocSteps(t, StickingSecond(align));
      Stuck(Run(Initial(HeapOf(ExampleHeap(align)), n), schedule + later), t)
  {
    var h := HeapOf(ExampleHeap(align));
    var schedule := AllocSteps(t, StickingFirst(align)) + AllocSteps(t, StickingSecond(align));
    PanickingHeap(align);
    EightIsPower();
    TwoRequests(ExampleHeap(align), n, t, StickingFirst(align), StickingSecond(align));
    StuckForever(h, Run(Initial(h, n), schedule), t, later);
    RunConcat(Initial(h, n), schedule, later);
  }
}
