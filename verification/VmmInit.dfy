/** The kernel's first address space: `src/mem/vmm.rs`, lines 20-113. */
module VmmInit {
  import opened Outcomes
  import opened Arithmetic
  import opened PageEntry
  import opened PageTable
  import opened Words
  import opened AddressSpace

  const GIB := 0x4000_0000
  const FOUR_GIB := 0x1_0000_0000
  const PAGE := 0x1000

  datatype EntryType = Usable | Reserved | AcpiReclaimable | AcpiNvs | BadMemory | BootloaderReclaimable
                     | KernelAndModules | Framebuffer

  datatype MemEntry = MemEntry(base: nat, length: nat, kind: EntryType)

  predicate IsMapped(e: MemEntry) {
    e.kind != Reserved && e.kind != BadMemory
  }

  /** What the boot loader hands over. `memoryEnd` bounds the memory that is mapped, `kernelSize` the kernel's image. */
  datatype Boot = Boot(memmap: seq<MemEntry>, hhdm: nat, kernelVirt: nat, kernelPhys: nat, memoryEnd: nat,
                       kernelSize: nat)

  /** The address `a` bytes into the window that starts at `virt`. */
  function Place(virt: nat, a: nat): bv64 {
    Word(virt + a)
  }

  /** Where `a` bytes into a window must lead. */
  function Straight(phys: nat, a: nat): Option<Leaf> {
    Some(Leaf(Word(phys + a), Rights(true, false, false), Caching(false, false, false)))
  }

  lemma WriteFlag()
    ensures FlagsOk(0x2) && EntryRights(0x2) == Rights(true, false, false) &&
      EntryCaching(0x2, 2) == Caching(false, false, false)
  {
  }

  const ADDRESSES := 0x1_0000_0000_0000_0000

  lemma SamePageStart(virt: nat, p: nat, a: nat, s: nat)
    requires s > 0 && virt % s == 0 && p == a - a % s
    ensures (virt + p) / s == (virt + a) / s
  {
    Divided(virt, s);
    Divided(a, s);
    var k := virt / s + a / s;
    TimesSum(virt / s, a / s, s);
    DivideSum(k, s, 0, virt + p);
    DivideSum(k, s, a % s, virt + a);
  }

  lemma TimesSum(x: nat, y: nat, s: nat)
    ensures (x + y) * s == x * s + y * s
  {
  }

  /** The page mapped `p` bytes into a window holds every byte that rounds down to `p`. */
  lemma PageHolds(virt: nat, p: nat, a: nat, depth: nat, size: nat)
    requires (size == 1 || size == 3) && 4 <= depth <= 5 && virt % PageBytes(size) == 0 && virt + a < ADDRESSES
    requires p == a - a % PageBytes(size)
    ensures SamePage(Place(virt, p), Place(virt, a), depth, size)
  {
    hide SamePage, Word;
    SamePageNumber(virt + p, virt + a, depth, size);
    SamePageStart(virt, p, a, PageBytes(size));
  }

  /** And it holds no other byte of the window: the walk looks at more bits than the window has. */
  lemma PageHasOnly(virt: nat, p: nat, a: nat, depth: nat, size: nat)
    requires (size == 1 || size == 3) && 4 <= depth <= 5 && virt % PageBytes(size) == 0 && p % PageBytes(size) == 0
    requires p < 0x8000_0000_0000 && a < 0x8000_0000_0000 && virt + a < ADDRESSES && virt + p < ADDRESSES
    requires SamePage(Place(virt, p), Place(virt, a), depth, size)
    ensures p == a - a % PageBytes(size)
  {
    hide SamePage, Word;
    SamePageNumber(virt + p, virt + a, depth, size);
    SameNumbers(virt, p, a, depth, size);
  }

  lemma NearbyPages(virt: nat, p: nat, a: nat, s: nat, k: nat)
    requires (s == 0x1000 && k >= 0x10_0000_0000) || (s == 0x4000_0000 && k >= 0x4_0000)
    requires p < 0x8000_0000_0000 && a < 0x8000_0000_0000
    ensures (virt + p) / s < (virt + a) / s + k
  {
  }

  lemma SameQuotient(virt: nat, p: nat, a: nat, s: nat)
    requires s == 0x1000 || s == 0x4000_0000
    requires virt % s == 0 && p % s == 0 && (virt + p) / s == (virt + a) / s
    ensures p == a - a % s
  {
  }

  lemma SameNumbers(virt: nat, p: nat, a: nat, depth: nat, size: nat)
    requires (size == 1 || size == 3) && 4 <= depth <= 5 && virt % PageBytes(size) == 0 && p % PageBytes(size) == 0
    requires p < 0x8000_0000_0000 && a < 0x8000_0000_0000
    requires (virt + p) / PageBytes(size) % Slots(depth, size) == (virt + a) / PageBytes(size) % Slots(depth, size)
    ensures p == a - a % PageBytes(size)
  {
    NearbyPages(virt, p, a, PageBytes(size), Slots(depth, size));
    NearbyPages(virt, a, p, PageBytes(size), Slots(depth, size));
    CloseNumbers((virt + p) / PageBytes(size), (virt + a) / PageBytes(size), Slots(depth, size));
    SameQuotient(virt, p, a, PageBytes(size));
  }

  lemma OrAnd(pa: bv64, va: bv64, o: bv64)
    ensures Or(pa, And(va, o)) == pa | (va & o)
  {
  }

  lemma LeafByOr(pa: bv64, flags: bv64, size: nat, va: bv64)
    requires 1 <= size <= 3
    ensures FlagsLeaf(pa, flags, size, va) == Leaf(Or(pa, And(va, OffsetMask(size))), EntryRights(flags),
      EntryCaching(flags, 2))
  {
    hide Or, And, OffsetMask, EntryRights, EntryCaching;
    OrAnd(pa, va, OffsetMask(size));
  }

  lemma SameOffset(virt: nat, a: nat, size: nat)
    requires virt % PageBytes(size) == 0
    ensures (virt + a) % PageBytes(size) == a % PageBytes(size)
  {
  }

  /** Every byte of the window in that page is translated straight on. */
  lemma PageGives(virt: nat, phys: nat, p: nat, a: nat, size: nat)
    requires (size == 1 || size == 3) && virt % PageBytes(size) == 0 && phys % PageBytes(size) == 0
    requires virt + a < ADDRESSES && phys + a < ADDRESSES && p == a - a % PageBytes(size)
    ensures Some(FlagsLeaf(Word(phys + p), 0x2, size, Place(virt, a))) == Straight(phys, a)
  {
    hide Or, And, Word, FlagsLeaf, OffsetMask, EntryRights, EntryCaching;
    LeafByOr(Word(phys + p), 0x2, size, Place(virt, a));
    SameOffset(virt, a, size);
    SameOffset(phys, p, size);
    PageOffset(virt + a, size);
    StartAndOffset(phys + p, a % PageBytes(size), size);
    WriteFlag();
  }

  // ---------- the boot loader's promises ----------

  /** The two windows share no 1 GiB slot. */
  ghost predicate SlotsApart(boot: Boot, depth: nat) {
    forall a, o {:trigger Place(boot.hhdm, a), Place(boot.kernelVirt, o)} ::
      0 <= a < boot.memoryEnd && 0 <= o < boot.kernelSize ==>
      !SamePage(Place(boot.hhdm, a), Place(boot.kernelVirt, o), depth, 3)
  }

  ghost predicate BootOk(boot: Boot, depth: nat) {
    && boot.hhdm % GIB == 0 && boot.kernelVirt % PAGE == 0 && boot.kernelPhys % PAGE == 0
    && FOUR_GIB <= boot.memoryEnd <= 0x8000_0000_0000 && boot.memoryEnd % GIB == 0
    && boot.kernelPhys + boot.kernelSize <= 0x8000_0000_0000 && boot.kernelSize % PAGE == 0
    && boot.hhdm + boot.memoryEnd <= ADDRESSES && boot.kernelVirt + boot.kernelSize <= ADDRESSES
    && (forall e :: e in boot.memmap && IsMapped(e) ==> e.base + e.length <= boot.memoryEnd)
    && (forall e :: e in boot.memmap && e.kind == KernelAndModules ==> e.length <= boot.kernelSize)
    && SlotsApart(boot, depth)
  }

  // ---------- what mapping one page does to a window ----------

  /** The bytes from `lo` to `hi` of the window are translated straight on. */
  ghost predicate Mirrors(mem: Memory, root: nat, depth: nat, virt: nat, phys: nat, lo: nat, hi: nat)
    requires 1 <= depth <= 5
  {
    forall a {:trigger Place(virt, a)} :: lo <= a < hi ==> Walk(mem, root, depth, Place(virt, a)) == Straight(phys, a)
  }

  /** Mapping a page of the window again leaves what is translated straight on as it is. */
  lemma MapKeeps(mem: Memory, mem': Memory, root: nat, depth: nat, virt: nat, phys: nat, p: nat, size: nat, lo: nat,
                 hi: nat)
    requires (size == 1 || size == 3) && 4 <= depth <= 5 && p < 0x8000_0000_0000 && hi <= 0x8000_0000_0000
    requires virt + p < ADDRESSES && virt + hi <= ADDRESSES && phys + hi <= ADDRESSES
    requires virt % PageBytes(size) == 0 && phys % PageBytes(size) == 0 && p % PageBytes(size) == 0
    requires PageMapped(mem, mem', root, depth, Place(virt, p), Word(phys + p), 0x2, size)
    requires Mirrors(mem, root, depth, virt, phys, lo, hi)
    ensures Mirrors(mem', root, depth, virt, phys, lo, hi)
  {
    forall a | lo <= a < hi
      ensures Walk(mem', root, depth, Place(virt, a)) == Straight(phys, a)
    {
      if SamePage(Place(virt, p), Place(virt, a), depth, size) {
        PageHasOnly(virt, p, a, depth, size);
        PageGives(virt, phys, p, a, size);
      }
    }
  }

  lemma MapAdds(mem: Memory, mem': Memory, root: nat, depth: nat, virt: nat, phys: nat, p: nat, size: nat)
    requires (size == 1 || size == 3) && 4 <= depth <= 5 && p + PageBytes(size) <= 0x8000_0000_0000
    requires virt + p + PageBytes(size) <= ADDRESSES && phys + p + PageBytes(size) <= ADDRESSES
    requires virt % PageBytes(size) == 0 && phys % PageBytes(size) == 0 && p % PageBytes(size) == 0
    requires PageMapped(mem, mem', root, depth, Place(virt, p), Word(phys + p), 0x2, size)
    ensures Mirrors(mem', root, depth, virt, phys, p, p + PageBytes(size))
  {
    forall a | p <= a < p + PageBytes(size)
      ensures Walk(mem', root, depth, Place(virt, a)) == Straight(phys, a)
    {
      RoundsDown(a, p, PageBytes(size));
      PageHolds(virt, p, a, depth, size);
      PageGives(virt, phys, p, a, size);
    }
  }

  lemma RoundsDown(a: nat, p: nat, s: nat)
    requires (s == 0x1000 || s == 0x4000_0000) && p % s == 0 && p <= a < p + s
    ensures p == a - a % s
  {
  }

  /** A page mapped in one window leaves the other window alone. */
  lemma MapElsewhere(mem: Memory, mem': Memory, root: nat, depth: nat, va: bv64, pa: bv64, size: nat, virt: nat,
                     phys: nat, lo: nat, hi: nat)
    requires 1 <= size <= 3 && 4 <= depth <= 5 && PageMapped(mem, mem', root, depth, va, pa, 0x2, size)
    requires forall a {:trigger Place(virt, a)} :: lo <= a < hi ==> !SamePage(va, Place(virt, a), depth, size)
    requires Mirrors(mem, root, depth, virt, phys, lo, hi)
    ensures Mirrors(mem', root, depth, virt, phys, lo, hi)
  {
  }

  lemma SmallInGiga(x: bv64, y: bv64, depth: nat)
    requires 4 <= depth <= 5 && SamePage(x, y, depth, 1)
    ensures SamePage(y, x, depth, 3)
  {
    SamePageStep(x, y, depth, 1);
    SamePageStep(x, y, depth, 2);
    Symmetric(x, y);
  }

  lemma Symmetric(x: bv64, y: bv64)
    ensures x ^ y == y ^ x
  {
  }

  // ---------- descents stay open ----------

  /** No large page is in the way of the mappings to come: none above the 1 GiB level, none at all at that level when
      the processor has no 1 GiB pages, and none on the way to a page of the kernel. */
  ghost predicate Open(mem: Memory, root: nat, depth: nat, gib: bool, boot: Boot)
    requires 4 <= depth <= 5
  {
    && (forall va {:trigger ClearPath(mem, root, depth, va, 3)} :: ClearPath(mem, root, depth, va, 3))
    && (!gib ==> forall va {:trigger ClearPath(mem, root, depth, va, 2)} :: ClearPath(mem, root, depth, va, 2))
    && (forall o {:trigger Place(boot.kernelVirt, o)} :: 0 <= o < boot.kernelSize ==>
          ClearPath(mem, root, depth, Place(boot.kernelVirt, o), 1))
  }

  lemma GigaKeepsOpen(mem: Memory, mem': Memory, root: nat, depth: nat, gib: bool, boot: Boot, page: nat)
    requires 4 <= depth <= 5 && SlotsApart(boot, depth) && page < boot.memoryEnd && Open(mem, root, depth, gib, boot)
    requires DescentsKept(mem, mem', root, depth, Place(boot.hhdm, page), 3, if gib then 3 else 2)
    ensures Open(mem', root, depth, gib, boot)
  {
  }

  lemma SmallKeepsOpen(mem: Memory, mem': Memory, root: nat, depth: nat, gib: bool, boot: Boot, va: bv64)
    requires 4 <= depth <= 5 && Open(mem, root, depth, gib, boot) && DescentsKept(mem, mem', root, depth, va, 1, 1)
    ensures Open(mem', root, depth, gib, boot)
  {
  }

  /** What the windows held before they still hold. */
  ghost predicate Kept(mem: Memory, mem': Memory, root: nat, depth: nat, boot: Boot)
    requires 1 <= depth <= 5
  {
    && (forall lo, hi {:trigger Mirrors(mem', root, depth, boot.hhdm, 0, lo, hi)} ::
          0 <= lo && 0 <= hi <= boot.memoryEnd && Mirrors(mem, root, depth, boot.hhdm, 0, lo, hi) ==>
          Mirrors(mem', root, depth, boot.hhdm, 0, lo, hi))
    && (forall hi {:trigger Mirrors(mem', root, depth, boot.kernelVirt, boot.kernelPhys, 0, hi)} ::
          0 <= hi <= boot.kernelSize && Mirrors(mem, root, depth, boot.kernelVirt, boot.kernelPhys, 0, hi) ==>
          Mirrors(mem', root, depth, boot.kernelVirt, boot.kernelPhys, 0, hi))
  }

  lemma GigaKeeps(mem: Memory, mem': Memory, root: nat, depth: nat, boot: Boot, page: nat)
    requires 4 <= depth <= 5 && BootOk(boot, depth) && page < boot.memoryEnd && page % GIB == 0
    requires PageMapped(mem, mem', root, depth, Place(boot.hhdm, page), Word(page), 0x2, 3)
    ensures Kept(mem, mem', root, depth, boot)
  {
    hide Walk, PageMapped, Mirrors, Word;
    forall lo: nat, hi: nat | hi <= boot.memoryEnd && Mirrors(mem, root, depth, boot.hhdm, 0, lo, hi)
      ensures Mirrors(mem', root, depth, boot.hhdm, 0, lo, hi)
    {
      MapKeeps(mem, mem', root, depth, boot.hhdm, 0, page, 3, lo, hi);
    }
    forall hi: nat | hi <= boot.kernelSize && Mirrors(mem, root, depth, boot.kernelVirt, boot.kernelPhys, 0, hi)
      ensures Mirrors(mem', root, depth, boot.kernelVirt, boot.kernelPhys, 0, hi)
    {
      MapElsewhere(mem, mem', root, depth, Place(boot.hhdm, page), Word(page), 3, boot.kernelVirt, boot.kernelPhys, 0,
        hi);
    }
  }

  lemma SmallKeeps(mem: Memory, mem': Memory, root: nat, depth: nat, boot: Boot, i: nat)
    requires 4 <= depth <= 5 && BootOk(boot, depth) && i < boot.kernelSize && i % PAGE == 0
    requires PageMapped(mem, mem', root, depth, Place(boot.kernelVirt, i), Word(boot.kernelPhys + i), 0x2, 1)
    ensures Kept(mem, mem', root, depth, boot)
  {
    hide Walk, PageMapped, Mirrors, Word;
    forall lo: nat, hi: nat | hi <= boot.memoryEnd && Mirrors(mem, root, depth, boot.hhdm, 0, lo, hi)
      ensures Mirrors(mem', root, depth, boot.hhdm, 0, lo, hi)
    {
      KernelOutsideMemory(boot, depth, i, hi);
      MapElsewhere(mem, mem', root, depth, Place(boot.kernelVirt, i), Word(boot.kernelPhys + i), 1, boot.hhdm, 0, lo,
        hi);
    }
    forall hi: nat | hi <= boot.kernelSize && Mirrors(mem, root, depth, boot.kernelVirt, boot.kernelPhys, 0, hi)
      ensures Mirrors(mem', root, depth, boot.kernelVirt, boot.kernelPhys, 0, hi)
    {
      MapKeeps(mem, mem', root, depth, boot.kernelVirt, boot.kernelPhys, i, 1, 0, hi);
    }
  }

  lemma KernelOutsideMemory(boot: Boot, depth: nat, i: nat, hi: nat)
    requires 4 <= depth <= 5 && SlotsApart(boot, depth) && i < boot.kernelSize && hi <= boot.memoryEnd
    ensures forall a {:trigger Place(boot.hhdm, a)} :: 0 <= a < hi ==>
      !SamePage(Place(boot.kernelVirt, i), Place(boot.hhdm, a), depth, 1)
  {
    forall a | 0 <= a < hi
      ensures !SamePage(Place(boot.kernelVirt, i), Place(boot.hhdm, a), depth, 1)
    {
      if SamePage(Place(boot.kernelVirt, i), Place(boot.hhdm, a), depth, 1) {
        SmallInGiga(Place(boot.kernelVirt, i), Place(boot.hhdm, a), depth);
      }
    }
  }

  lemma {:induction false} MissingBound(mem: Memory, g: nat, level: nat, va: bv64, to: nat)
    requires 1 <= to <= level <= 5
    ensures Missing(mem, g, level, va, to) <= level - to
    decreases level
  {
    if to < level && HasFrame(mem, g) {
      MissingBound(mem, Child(EntryAt(mem, g, level, va)), level - 1, va, to);
    }
  }

  // ---------- the three loops ----------

  /** The tables fit the boot loader's promises, and the mappings to come will meet no large page. */
  ghost predicate Ready(t: PageTables, boot: Boot)
    reads t
  {
    t.Valid() && BootOk(boot, t.depth) && Open(t.mem, t.root, t.depth, t.gib, boot)
  }

  method MapGiga(t: PageTables, boot: Boot, page: nat)
    requires Ready(t, boot) && page % GIB == 0 && page < boot.memoryEnd && |t.pool| >= 4
    modifies t
    ensures Ready(t, boot) && Kept(old(t.mem), t.mem, t.root, t.depth, boot) && |t.pool| >= |old(t.pool)| - 4
    ensures Mirrors(t.mem, t.root, t.depth, boot.hhdm, 0, page, page + GIB)
  {
    hide Word, SamePage, Mirrors, Kept, FlagsOk, PageMapped, DescentsKept;
    ghost var mem := t.mem;
    var va := Place(boot.hhdm, page);
    GigaStart(boot.hhdm + page);
    WordMappable(page, 3);
    WriteFlag();
    MissingBound(t.mem, t.root, t.depth, va, t.Target(3));
    t.VmmMap(va, Word(page), 0x2, 3);
    GigaKeepsOpen(mem, t.mem, t.root, t.depth, t.gib, boot, page);
    GigaKeeps(mem, t.mem, t.root, t.depth, boot, page);
    MapAdds(mem, t.mem, t.root, t.depth, boot.hhdm, 0, page, 3);
  }

  lemma PageSum(x: nat, y: nat)
    requires x % PAGE == 0 && y % PAGE == 0
    ensures (x + y) % PAGE == 0
  {
    DivideSum(x / PAGE + y / PAGE, PAGE, 0, x + y);
  }

  method MapSmall(t: PageTables, boot: Boot, i: nat)
    requires Ready(t, boot) && i % PAGE == 0 && i < boot.kernelSize && |t.pool| >= 4
    modifies t
    ensures Ready(t, boot) && Kept(old(t.mem), t.mem, t.root, t.depth, boot) && |t.pool| >= |old(t.pool)| - 4
    ensures Mirrors(t.mem, t.root, t.depth, boot.kernelVirt, boot.kernelPhys, i, i + PAGE)
  {
    hide Word, SamePage, Mirrors, Kept, FlagsOk, PageMapped, DescentsKept;
    ghost var mem := t.mem;
    var va := Place(boot.kernelVirt, i);
    PageSum(boot.kernelPhys, i);
    WordMappable(boot.kernelPhys + i, 1);
    WriteFlag();
    MissingBound(t.mem, t.root, t.depth, va, 1);
    t.VmmMap(va, Word(boot.kernelPhys + i), 0x2, 1);
    SmallKeepsOpen(mem, t.mem, t.root, t.depth, t.gib, boot, va);
    SmallKeeps(mem, t.mem, t.root, t.depth, boot, i);
    MapAdds(mem, t.mem, t.root, t.depth, boot.kernelVirt, boot.kernelPhys, i, 1);
  }

  lemma KeptChain(mem0: Memory, mem: Memory, mem': Memory, root: nat, depth: nat, boot: Boot)
    requires 1 <= depth <= 5 && Kept(mem0, mem, root, depth, boot) && Kept(mem, mem', root, depth, boot)
    ensures Kept(mem0, mem', root, depth, boot)
  {
  }

  lemma MirrorsJoin(mem: Memory, root: nat, depth: nat, virt: nat, phys: nat, lo: nat, mid: nat, hi: nat)
    requires 1 <= depth <= 5 && Mirrors(mem, root, depth, virt, phys, lo, mid) &&
      Mirrors(mem, root, depth, virt, phys, mid, hi)
    ensures Mirrors(mem, root, depth, virt, phys, lo, hi)
  {
  }

  /** Maps a stretch of physical memory into the window at `hhdm` with 1 GiB pages. */
  method MapRange(t: PageTables, boot: Boot, start: nat, length: nat, ghost pages: nat)
    requires Ready(t, boot) && start % GIB == 0 && length == pages * GIB && start + length <= boot.memoryEnd
    requires |t.pool| >= 4 * pages
    modifies t
    ensures Ready(t, boot) && Kept(old(t.mem), t.mem, t.root, t.depth, boot) && |t.pool| >= |old(t.pool)| - 4 * pages
    ensures Mirrors(t.mem, t.root, t.depth, boot.hhdm, 0, start, start + length)
  {
    var i := 0;
    ghost var n := 0;
    while i < length
      invariant i == n * GIB && i <= length && Ready(t, boot) && |t.pool| + 4 * n >= |old(t.pool)|
      invariant Kept(old(t.mem), t.mem, t.root, t.depth, boot)
      invariant Mirrors(t.mem, t.root, t.depth, boot.hhdm, 0, start, start + i)
    {
      ghost var mem := t.mem;
      MapGiga(t, boot, start + i);
      KeptChain(old(t.mem), mem, t.mem, t.root, t.depth, boot);
      MirrorsJoin(t.mem, t.root, t.depth, boot.hhdm, 0, start, start + i, start + i + GIB);
      i, n := i + GIB, n + 1;
    }
  }

  /** The pages that the loop over `length` bytes maps. */
  function SmallPages(length: nat): nat {
    (length + PAGE - 1) / PAGE
  }

  method MapKernel(t: PageTables, boot: Boot, length: nat)
    requires Ready(t, boot) && length <= boot.kernelSize && |t.pool| >= 4 * SmallPages(length)
    modifies t
    ensures Ready(t, boot) && Kept(old(t.mem), t.mem, t.root, t.depth, boot)
    ensures |t.pool| >= |old(t.pool)| - 4 * SmallPages(length)
    ensures Mirrors(t.mem, t.root, t.depth, boot.kernelVirt, boot.kernelPhys, 0, length)
  {
    var i := 0;
    ghost var n := 0;
    while i < length
      invariant i == n * PAGE && i < length + PAGE && Ready(t, boot) && |t.pool| + 4 * n >= |old(t.pool)|
      invariant Kept(old(t.mem), t.mem, t.root, t.depth, boot)
      invariant Mirrors(t.mem, t.root, t.depth, boot.kernelVirt, boot.kernelPhys, 0, i)
    {
      ghost var mem := t.mem;
      MapSmall(t, boot, i);
      KeptChain(old(t.mem), mem, t.mem, t.root, t.depth, boot);
      MirrorsJoin(t.mem, t.root, t.depth, boot.kernelVirt, boot.kernelPhys, 0, i, i + PAGE);
      i, n := i + PAGE, n + 1;
    }
  }

  function AlignDown(x: nat): nat {
    x - x % GIB
  }

  function AlignUp(x: nat): nat {
    AlignDown(x + GIB - 1)
  }

  /** The part of an entry above 4 GiB, in 1 GiB pages. */
  function GigaPages(e: MemEntry): nat {
    var base := if e.base < FOUR_GIB then FOUR_GIB else e.base;
    if base >= e.base + e.length then 0 else (AlignUp(e.base + e.length) - AlignDown(base)) / GIB
  }

  lemma EntryCovered(mem: Memory, root: nat, depth: nat, hhdm: nat, base: nat, top: nat, lo: nat, hi: nat)
    requires 1 <= depth <= 5 && lo <= (if base < FOUR_GIB then FOUR_GIB else base) && top <= hi
    requires Mirrors(mem, root, depth, hhdm, 0, 0, FOUR_GIB) && Mirrors(mem, root, depth, hhdm, 0, lo, hi)
    ensures Mirrors(mem, root, depth, hhdm, 0, base, top)
  {
  }

  lemma WholeGigas(base: nat, top: nat, end: nat)
    requires base < top <= end && end % GIB == 0
    ensures AlignDown(base) % GIB == 0 && AlignDown(base) <= base && top <= AlignUp(top) <= end
    ensures AlignUp(top) - AlignDown(base) == (AlignUp(top) - AlignDown(base)) / GIB * GIB
  {
  }

  lemma NothingLost(mem: Memory, root: nat, depth: nat, boot: Boot)
    requires 1 <= depth <= 5
    ensures Kept(mem, mem, root, depth, boot)
  {
    hide Mirrors;
  }

  method MapEntry(t: PageTables, boot: Boot, e: MemEntry)
    requires Ready(t, boot) && e.base + e.length <= boot.memoryEnd && |t.pool| >= 4 * GigaPages(e)
    requires Mirrors(t.mem, t.root, t.depth, boot.hhdm, 0, 0, FOUR_GIB)
    modifies t
    ensures Ready(t, boot) && Kept(old(t.mem), t.mem, t.root, t.depth, boot)
    ensures |t.pool| >= |old(t.pool)| - 4 * GigaPages(e)
    ensures Mirrors(t.mem, t.root, t.depth, boot.hhdm, 0, e.base, e.base + e.length)
  {
    hide Walk, Open, Word, Tree, Kept, AlignDown, AlignUp;
    NothingLost(t.mem, t.root, t.depth, boot);
    var base, top := e.base, e.base + e.length;
    if base < FOUR_GIB {
      base := FOUR_GIB;
    }
    if base >= top {
      return;
    }
    var alignedBase, alignedTop := AlignDown(base), AlignUp(top);
    WholeGigas(base, top, boot.memoryEnd);
    MapRange(t, boot, alignedBase, alignedTop - alignedBase, GigaPages(e));
    EntryCovered(t.mem, t.root, t.depth, boot.hhdm, e.base, top, alignedBase, alignedTop);
  }

  /** The most frames that the loop over the kernel's entries can take for tables: four for each page. */
  function KernelFrames(memmap: seq<MemEntry>): nat {
    if memmap == [] then 0
    else
      var here := if memmap[0].kind == KernelAndModules then 4 * SmallPages(memmap[0].length) else 0;
      here + KernelFrames(memmap[1..])
  }

  function MemoryFrames(memmap: seq<MemEntry>): nat {
    if memmap == [] then 0
    else (if IsMapped(memmap[0]) then 4 * GigaPages(memmap[0]) else 0) + MemoryFrames(memmap[1..])
  }

  ghost predicate KernelMapped(t: PageTables, boot: Boot, j: nat)
    requires 1 <= t.depth <= 5 && j <= |boot.memmap|
    reads t
  {
    forall k :: 0 <= k < j && boot.memmap[k].kind == KernelAndModules ==>
      Mirrors(t.mem, t.root, t.depth, boot.kernelVirt, boot.kernelPhys, 0, boot.memmap[k].length)
  }

  ghost predicate MemoryMapped(t: PageTables, boot: Boot, j: nat)
    requires 1 <= t.depth <= 5 && j <= |boot.memmap|
    reads t
  {
    forall k :: 0 <= k < j && IsMapped(boot.memmap[k]) ==>
      Mirrors(t.mem, t.root, t.depth, boot.hhdm, 0, boot.memmap[k].base, boot.memmap[k].base + boot.memmap[k].length)
  }

  method MapKernelEntries(t: PageTables, boot: Boot)
    requires Ready(t, boot) && |t.pool| >= KernelFrames(boot.memmap)
    modifies t
    ensures Ready(t, boot) && Kept(old(t.mem), t.mem, t.root, t.depth, boot)
    ensures |t.pool| >= |old(t.pool)| - KernelFrames(boot.memmap)
    ensures KernelMapped(t, boot, |boot.memmap|)
  {
    hide Mirrors, Open;
    var j := 0;
    while j < |boot.memmap|
      invariant j <= |boot.memmap| && Ready(t, boot) && Kept(old(t.mem), t.mem, t.root, t.depth, boot)
      invariant |t.pool| - KernelFrames(boot.memmap[j..]) >= |old(t.pool)| - KernelFrames(boot.memmap)
      invariant KernelMapped(t, boot, j)
    {
      assert boot.memmap[j..][1..] == boot.memmap[j + 1..];
      if boot.memmap[j].kind == KernelAndModules {
        ghost var mem := t.mem;
        MapKernel(t, boot, boot.memmap[j].length);
        KeptChain(old(t.mem), mem, t.mem, t.root, t.depth, boot);
      }
      j := j + 1;
    }
  }

  method MapEntries(t: PageTables, boot: Boot)
    requires Ready(t, boot) && |t.pool| >= MemoryFrames(boot.memmap)
    requires Mirrors(t.mem, t.root, t.depth, boot.hhdm, 0, 0, FOUR_GIB)
    modifies t
    ensures Ready(t, boot) && Kept(old(t.mem), t.mem, t.root, t.depth, boot)
    ensures MemoryMapped(t, boot, |boot.memmap|)
  {
    hide Mirrors, SlotsApart, Open;
    var j := 0;
    while j < |boot.memmap|
      invariant j <= |boot.memmap| && Ready(t, boot) && Kept(old(t.mem), t.mem, t.root, t.depth, boot)
      invariant |t.pool| >= MemoryFrames(boot.memmap[j..])
      invariant Mirrors(t.mem, t.root, t.depth, boot.hhdm, 0, 0, FOUR_GIB)
      invariant MemoryMapped(t, boot, j)
    {
      assert boot.memmap[j..][1..] == boot.memmap[j + 1..];
      if IsMapped(boot.memmap[j]) {
        ghost var mem := t.mem;
        MapEntry(t, boot, boot.memmap[j]);
        KeptChain(old(t.mem), mem, t.mem, t.root, t.depth, boot);
      }
      j := j + 1;
    }
  }

  /** The virtual address `from` leads to the physical address `to`, writable, for the kernel only, and cached. */
  ghost predicate Translates(t: PageTables, from: nat, to: nat)
    requires 1 <= t.depth <= 5
    reads t
  {
    Walk(t.mem, t.root, t.depth, Word(from)) ==
    Some(Leaf(Word(to), Rights(true, false, false), Caching(false, false, false)))
  }

  lemma MirrorsTranslate(t: PageTables, virt: nat, phys: nat, lo: nat, hi: nat, a: nat)
    requires 1 <= t.depth <= 5 && Mirrors(t.mem, t.root, t.depth, virt, phys, lo, hi) && lo <= a < hi
    ensures Translates(t, virt + a, phys + a)
  {
    hide Walk, Word;
    assert Place(virt, a) == Word(virt + a);
  }

  /** Memory that must be found in the window: all below 4 GiB, and whatever the map does not call reserved or bad. */
  predicate InMemory(boot: Boot, a: nat) {
    a < 0x1_0000_0000 ||
    exists e :: e in boot.memmap && e.kind != Reserved && e.kind != BadMemory && e.base <= a < e.base + e.length
  }

  predicate InKernel(boot: Boot, o: nat) {
    exists e :: e in boot.memmap && e.kind == KernelAndModules && o < e.length
  }

  /** What the windows must hold, address by address. */
  ghost predicate Translated(t: PageTables, boot: Boot)
    requires 1 <= t.depth <= 5
    reads t
  {
    && (forall from, a: nat :: InMemory(boot, a) && from == boot.hhdm + a ==> Translates(t, from, a))
    && (forall from, to, o: nat :: InKernel(boot, o) && from == boot.kernelVirt + o && to == boot.kernelPhys + o ==>
          Translates(t, from, to))
  }

  lemma AllTranslated(t: PageTables, boot: Boot)
    requires 1 <= t.depth <= 5 && Mirrors(t.mem, t.root, t.depth, boot.hhdm, 0, 0, FOUR_GIB)
    requires MemoryMapped(t, boot, |boot.memmap|) && KernelMapped(t, boot, |boot.memmap|)
    ensures Translated(t, boot)
  {
    hide Translates, Mirrors;
    forall from, a: nat | InMemory(boot, a) && from == boot.hhdm + a ensures Translates(t, from, a) {
      if a < FOUR_GIB {
        MirrorsTranslate(t, boot.hhdm, 0, 0, FOUR_GIB, a);
      } else {
        var e :| e in boot.memmap && e.kind != Reserved && e.kind != BadMemory && e.base <= a < e.base + e.length;
        var k :| 0 <= k < |boot.memmap| && boot.memmap[k] == e;
        MirrorsTranslate(t, boot.hhdm, 0, e.base, e.base + e.length, a);
      }
    }
    forall from, to, o: nat | InKernel(boot, o) && from == boot.kernelVirt + o && to == boot.kernelPhys + o
      ensures Translates(t, from, to)
    {
      var e :| e in boot.memmap && e.kind == KernelAndModules && o < e.length;
      var k :| 0 <= k < |boot.memmap| && boot.memmap[k] == e;
      MirrorsTranslate(t, boot.kernelVirt, boot.kernelPhys, 0, e.length, o);
    }
  }

  /** Where the boot loader puts the window of all memory. */
  function UsualHhdm(depth: nat): nat {
    if depth == 5 then 0xFF00_0000_0000_0000 else 0xFFFF_8000_0000_0000
  }

  lemma UsualNumbers(a: nat, o: nat, depth: nat)
    requires 4 <= depth <= 5 && a < 0x7FFF_8000_0000 && o < 0x8000_0000
    ensures (UsualHhdm(depth) + a) / 0x4000_0000 % Slots(depth, 3) !=
            (0xFFFF_FFFF_8000_0000 + o) / 0x4000_0000 % Slots(depth, 3)
  {
    var i, j := a / 0x4000_0000, o / 0x4000_0000;
    assert i < 0x1_FFFE && j < 2;
    assert (0xFFFF_8000_0000_0000 + a) / 0x4000_0000 == 0x3_FFFE_0000 + i;
    assert (0xFF00_0000_0000_0000 + a) / 0x4000_0000 == 0x3_FC00_0000 + i;
    assert (0xFFFF_FFFF_8000_0000 + o) / 0x4000_0000 == 0x3_FFFF_FFFE + j;
  }

  /** The usual layout keeps the promises: the kernel in the last 2 GiB, memory up to 2 GiB short of 128 TiB. */
  lemma UsualBootOk(boot: Boot, depth: nat)
    requires 4 <= depth <= 5 && boot.hhdm == UsualHhdm(depth) && boot.kernelVirt == 0xFFFF_FFFF_8000_0000
    requires 0x1_0000_0000 <= boot.memoryEnd <= 0x7FFF_8000_0000 && boot.memoryEnd % 0x4000_0000 == 0
    requires boot.kernelSize <= 0x8000_0000 && boot.kernelSize % 0x1000 == 0 && boot.kernelPhys % 0x1000 == 0
    requires boot.kernelPhys + boot.kernelSize <= 0x8000_0000_0000
    requires forall e :: e in boot.memmap && e.kind != Reserved && e.kind != BadMemory ==>
               e.base + e.length <= boot.memoryEnd
    requires forall e :: e in boot.memmap && e.kind == KernelAndModules ==> e.length <= boot.kernelSize
    ensures BootOk(boot, depth)
  {
    hide Word, SamePage;
    forall a, o {:trigger Place(boot.hhdm, a), Place(boot.kernelVirt, o)}
      | 0 <= a < boot.memoryEnd && 0 <= o < boot.kernelSize
      ensures !SamePage(Place(boot.hhdm, a), Place(boot.kernelVirt, o), depth, 3)
    {
      SamePageNumber(boot.hhdm + a, boot.kernelVirt + o, depth, 3);
      UsualNumbers(a, o, depth);
    }
  }

  /** Builds the first address space. Afterwards every byte below 4 GiB and every byte of every entry that is neither
      reserved nor bad is found `hhdm` bytes further up, and the kernel's window leads to its physical base. */
  method VmmInit(frames: seq<bv64>, boot: Boot, depth: nat, gib: bool) returns (t: PageTables)
    requires 4 <= depth <= 5 && BootOk(boot, depth) && PoolOk(map[], frames)
    requires |frames| >= 17 + KernelFrames(boot.memmap) + MemoryFrames(boot.memmap)
    ensures fresh(t) && t.Valid() && t.depth == depth
    ensures Mirrors(t.mem, t.root, t.depth, boot.hhdm, 0, 0, FOUR_GIB)
    ensures MemoryMapped(t, boot, |boot.memmap|)
    ensures KernelMapped(t, boot, |boot.memmap|)
    ensures Translated(t, boot)
  {
    t := new PageTables(frames, depth, gib);
    MapRange(t, boot, 0, FOUR_GIB, 4);
    MapKernelEntries(t, boot);
    MapEntries(t, boot);
    AllTranslated(t, boot);
  }
}
