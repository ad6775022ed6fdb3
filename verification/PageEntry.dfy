/** Page-table entries and virtual addresses, bit by bit: `src/arch/x86_64/paging.rs`. */
module PageEntry {

  // ---------- entries ----------

  const PT_FLAG_VALID: bv64 := 0x1
  const PT_FLAG_LARGE: bv64 := 0x80
  const PT_PADDR_MASK: bv64 := 0x0000_FFFF_FFFF_F000
  /** Valid, writable, open to user mode. */
  const PT_TABLE_FLAGS: bv64 := 0x7

  predicate Present(e: bv64) {
    e & 0x1 != 0
  }

  /** The address the kernel reads out of an entry: 48 bits. */
  function Addr(e: bv64): bv64 {
    e & PT_PADDR_MASK
  }

  predicate IsTable(e: bv64) {
    e & 0x81 == 0x1
  }

  predicate IsLarge(e: bv64) {
    e & 0x81 == 0x81
  }

  lemma EntryKind(e: bv64)
    ensures Present(e) <==> IsTable(e) || IsLarge(e)
    ensures !(IsTable(e) && IsLarge(e))
  {
  }

  lemma ZeroEntry()
    ensures !Present(0) && !IsTable(0) && !IsLarge(0)
  {
  }

  /** What an entry allows and how it is cached. */
  datatype Rights = Rights(write: bool, user: bool, noExec: bool)

  datatype Caching = Caching(writeThrough: bool, disabled: bool, pat: bool)

  datatype Leaf = Leaf(phys: bv64, rights: Rights, caching: Caching)

  const ALL_RIGHTS := Rights(true, true, false)

  function EntryRights(e: bv64): Rights {
    Rights(e & 0x2 != 0, e & 0x4 != 0, e & 0x8000_0000_0000_0000 != 0)
  }

  /** A large page keeps its PAT bit where a small page has the lowest address bit. */
  function EntryCaching(e: bv64, level: nat): Caching {
    Caching(e & 0x8 != 0, e & 0x10 != 0, if level == 1 then e & 0x80 != 0 else e & 0x1000 != 0)
  }

  // ---------- addresses ----------

  /** The nine address bits that index the table of the given level; level 1 holds the entries of 4 KiB pages. */
  function IndexBits(va: bv64, level: nat): bv9
    requires 1 <= level <= 5
  {
    match level
    case 1 => ((va & (0x1FF << 12)) >> 12) as bv9
    case 2 => ((va & (0x1FF << 21)) >> 21) as bv9
    case 3 => ((va & (0x1FF << 30)) >> 30) as bv9
    case 4 => ((va & (0x1FF << 39)) >> 39) as bv9
    case 5 => ((va & (0x1FF << 48)) >> 48) as bv9
  }

  function Index(va: bv64, level: nat): (i: nat)
    requires 1 <= level <= 5
    ensures i < 512
  {
    IndexBits(va, level) as nat
  }

  /** The bits of an address that select a byte in a page of the given level. */
  function OffsetMask(level: nat): bv64
    requires 1 <= level <= 3
  {
    match level
    case 1 => 0xFFF
    case 2 => 0x1F_FFFF
    case 3 => 0x3FFF_FFFF
  }

  /** The part of an entry that gives the processor the address of a page of the given level: 52 bits. */
  function PageMask(level: nat): bv64
    requires 1 <= level <= 3
  {
    match level
    case 1 => 0x000F_FFFF_FFFF_F000
    case 2 => 0x000F_FFFF_FFE0_0000
    case 3 => 0x000F_FFFF_C000_0000
  }

  // ---------- the entry of a page ----------

  /** The flags leave the address bits, the large bit and the reserved bits alone; bit 12 stands for PAT. */
  predicate FlagsOk(flags: bv64) {
    flags & 0x7FFF_FFFF_FFFF_E080 == 0
  }

  /** The address fits the address field of a page of the given level. */
  predicate Mappable(pa: bv64, level: nat)
    requires 1 <= level <= 3
  {
    pa & !PageMask(level) == 0
  }

  /** The entry that `vmm_map` writes: a small page moves its PAT bit out of the address field. */
  function MakeEntry(pa: bv64, flags: bv64, level: nat): bv64 {
    if level == 1 then pa | (if flags & 0x1000 != 0 then (flags & !0x1000) | 0x80 else flags)
    else pa | flags | PT_FLAG_LARGE
  }

  /** What the processor makes of an entry for a page when it translates `va`. */
  function LeafOf(e: bv64, level: nat, va: bv64): Leaf
    requires 1 <= level <= 3
  {
    Leaf((e & PageMask(level)) | (va & OffsetMask(level)), EntryRights(e), EntryCaching(e, level))
  }

  /** What the caller of `vmm_map` asks for. */
  function FlagsLeaf(pa: bv64, flags: bv64, level: nat, va: bv64): Leaf
    requires 1 <= level <= 3
  {
    Leaf(pa | (va & OffsetMask(level)), EntryRights(flags), EntryCaching(flags, 2))
  }

  /** An entry that maps a page: it is not taken for a table. */
  predicate LeafEntry(e: bv64, level: nat) {
    1 <= level <= 3 && Present(e) && (level > 1 ==> IsLarge(e))
  }

  // Bit facts, one at a time: the solver takes each apart into single bits.

  /** An address and flags that share no bit come apart again. */
  lemma Apart(n: bv64, f: bv64, mask: bv64)
    requires f & mask == 0 && n & !mask == 0
    ensures (n | f) & mask == n
  {
  }

  lemma SmallAddress(flags: bv64)
    requires flags & 0x7FFF_FFFF_FFFF_E080 == 0
    ensures (if flags & 0x1000 != 0 then ((flags | 0x1) & !0x1000) | 0x80 else flags | 0x1) & 0x000F_FFFF_FFFF_F000 == 0
  {
  }

  lemma SmallRights(pa: bv64, flags: bv64, f: bv64, e: bv64)
    requires f == (if flags & 0x1000 != 0 then ((flags | 0x1) & !0x1000) | 0x80 else flags | 0x1)
    requires pa & !0x000F_FFFF_FFFF_F000 == 0 && e == pa | f
    ensures e & 0x1 != 0
    ensures e & 0x2 == flags & 0x2 && e & 0x4 == flags & 0x4 &&
      e & 0x8000_0000_0000_0000 == flags & 0x8000_0000_0000_0000
  {
  }

  lemma SmallCaching(pa: bv64, flags: bv64, f: bv64, e: bv64)
    requires flags & 0x7FFF_FFFF_FFFF_E080 == 0
    requires f == (if flags & 0x1000 != 0 then ((flags | 0x1) & !0x1000) | 0x80 else flags | 0x1)
    requires pa & !0x000F_FFFF_FFFF_F000 == 0 && e == pa | f
    ensures e & 0x8 == flags & 0x8 && e & 0x10 == flags & 0x10 && (e & 0x80 != 0 <==> flags & 0x1000 != 0)
  {
  }

  lemma LargeAddress(flags: bv64)
    requires flags & 0x7FFF_FFFF_FFFF_E080 == 0
    ensures ((flags | 0x1) | 0x80) & 0x000F_FFFF_FFE0_0000 == 0
    ensures ((flags | 0x1) | 0x80) & 0x000F_FFFF_C000_0000 == 0
  {
  }

  lemma LargeRights(pa: bv64, flags: bv64, e: bv64)
    requires pa & !0x000F_FFFF_FFE0_0000 == 0 && e == pa | ((flags | 0x1) | 0x80)
    ensures e & 0x1 != 0 && e & 0x81 == 0x81
    ensures e & 0x2 == flags & 0x2 && e & 0x4 == flags & 0x4 &&
      e & 0x8000_0000_0000_0000 == flags & 0x8000_0000_0000_0000
  {
  }

  lemma LargeCaching(pa: bv64, flags: bv64, e: bv64)
    requires pa & !0x000F_FFFF_FFE0_0000 == 0 && e == pa | ((flags | 0x1) | 0x80)
    ensures e & 0x8 == flags & 0x8 && e & 0x10 == flags & 0x10 && e & 0x1000 == flags & 0x1000
  {
  }

  lemma GigaIsLarge(pa: bv64)
    requires pa & !0x000F_FFFF_C000_0000 == 0
    ensures pa & !0x000F_FFFF_FFE0_0000 == 0
  {
  }

  lemma SameRights(e: bv64, flags: bv64)
    requires e & 0x2 == flags & 0x2 && e & 0x4 == flags & 0x4 &&
      e & 0x8000_0000_0000_0000 == flags & 0x8000_0000_0000_0000
    ensures EntryRights(e) == EntryRights(flags)
  {
  }

  /** The flags as they are written for a small page. */
  function SmallFlags(flags: bv64): bv64 {
    if flags & 0x1000 != 0 then ((flags | 0x1) & !0x1000) | 0x80 else flags | 0x1
  }

  lemma SmallIs(pa: bv64, flags: bv64)
    ensures MakeEntry(pa, flags | PT_FLAG_VALID, 1) == pa | SmallFlags(flags)
  {
    assert (flags | 0x1) & 0x1000 == flags & 0x1000;
  }

  lemma LargeIs(pa: bv64, flags: bv64, level: nat)
    requires level > 1
    ensures MakeEntry(pa, flags | PT_FLAG_VALID, level) == pa | ((flags | 0x1) | 0x80)
  {
  }

  lemma SmallEntryAddress(pa: bv64, flags: bv64, e: bv64)
    requires pa & !0x000F_FFFF_FFFF_F000 == 0 && FlagsOk(flags) && e == pa | SmallFlags(flags)
    ensures e & 0x000F_FFFF_FFFF_F000 == pa
  {
    SmallAddress(flags);
    Apart(pa, SmallFlags(flags), 0x000F_FFFF_FFFF_F000);
  }

  lemma SmallEntryRights(pa: bv64, flags: bv64, e: bv64)
    requires Mappable(pa, 1) && FlagsOk(flags) && e == pa | SmallFlags(flags)
    ensures Present(e) && EntryRights(e) == EntryRights(flags)
  {
    SmallRights(pa, flags, SmallFlags(flags), e);
    SameRights(e, flags);
  }

  lemma SmallEntryCaching(pa: bv64, flags: bv64, e: bv64)
    requires Mappable(pa, 1) && FlagsOk(flags) && e == pa | SmallFlags(flags)
    ensures EntryCaching(e, 1) == EntryCaching(flags, 2)
  {
    SmallCaching(pa, flags, SmallFlags(flags), e);
  }

  lemma LargeEntryAddress(pa: bv64, flags: bv64, e: bv64)
    requires pa & !0x000F_FFFF_FFE0_0000 == 0 && FlagsOk(flags) && e == pa | ((flags | 0x1) | 0x80)
    ensures e & 0x000F_FFFF_FFE0_0000 == pa
  {
    LargeAddress(flags);
    Apart(pa, (flags | 0x1) | 0x80, 0x000F_FFFF_FFE0_0000);
  }

  lemma GigaEntryAddress(pa: bv64, flags: bv64, e: bv64)
    requires pa & !0x000F_FFFF_C000_0000 == 0 && FlagsOk(flags) && e == pa | ((flags | 0x1) | 0x80)
    ensures e & 0x000F_FFFF_C000_0000 == pa
  {
    LargeAddress(flags);
    Apart(pa, (flags | 0x1) | 0x80, 0x000F_FFFF_C000_0000);
  }

  lemma LargeEntryRights(pa: bv64, flags: bv64, e: bv64)
    requires pa & !0x000F_FFFF_FFE0_0000 == 0 && e == pa | ((flags | 0x1) | 0x80)
    ensures Present(e) && IsLarge(e) && EntryRights(e) == EntryRights(flags)
  {
    LargeRights(pa, flags, e);
    SameRights(e, flags);
  }

  lemma LargeEntryCaching(pa: bv64, flags: bv64, e: bv64, level: nat)
    requires level > 1 && pa & !0x000F_FFFF_FFE0_0000 == 0 && e == pa | ((flags | 0x1) | 0x80)
    ensures EntryCaching(e, level) == EntryCaching(flags, 2)
  {
    LargeCaching(pa, flags, e);
  }

  lemma LeafFromParts(e: bv64, pa: bv64, flags: bv64, level: nat, va: bv64)
    requires 1 <= level <= 3 && e & PageMask(level) == pa
    requires EntryRights(e) == EntryRights(flags) && EntryCaching(e, level) == EntryCaching(flags, 2)
    ensures LeafOf(e, level, va) == FlagsLeaf(pa, flags, level, va)
  {
  }

  /** A small page, a 2 MiB page and a 1 GiB page written with the same flags allow and cache the same:
      the entry maps exactly the address and the flags it was made from. */
  lemma EntryMaps(pa: bv64, flags: bv64, level: nat, va: bv64)
    requires 1 <= level <= 3 && Mappable(pa, level) && FlagsOk(flags)
    ensures var e := MakeEntry(pa, flags | PT_FLAG_VALID, level);
      LeafEntry(e, level) && LeafOf(e, level, va) == FlagsLeaf(pa, flags, level, va)
  {
    var e := MakeEntry(pa, flags | PT_FLAG_VALID, level);
    if level == 1 {
      SmallIs(pa, flags);
      SmallEntryAddress(pa, flags, e);
      SmallEntryRights(pa, flags, e);
      SmallEntryCaching(pa, flags, e);
    } else {
      LargeIs(pa, flags, level);
      if level == 3 {
        GigaIsLarge(pa);
        GigaEntryAddress(pa, flags, e);
      } else {
        LargeEntryAddress(pa, flags, e);
      }
      LargeEntryRights(pa, flags, e);
      LargeEntryCaching(pa, flags, e, level);
    }
    LeafFromParts(e, pa, flags, level, va);
  }

  // ---------- the entry of a table ----------

  /** The frame the processor goes to: the whole 52-bit address field. */
  function FrameBits(e: bv64): bv64 {
    e & 0x000F_FFFF_FFFF_F000
  }

  lemma NarrowIsWide(n: bv64)
    requires n & 0x0000_FFFF_FFFF_F000 == n
    ensures n & !0x000F_FFFF_FFFF_F000 == 0 && n & !0x0000_FFFF_FFFF_F000 == 0
  {
  }

  lemma TableBits(n: bv64, e: bv64)
    requires n & !0x0000_FFFF_FFFF_F000 == 0 && e == n | 0x7
    ensures e & 0x81 == 0x1 && e & 0x2 != 0 && e & 0x4 != 0 && e & 0x8000_0000_0000_0000 == 0
  {
  }

  lemma TableFrame(n: bv64, e: bv64)
    requires Addr(n) == n && e == n | PT_TABLE_FLAGS
    ensures FrameBits(e) == n
  {
    NarrowIsWide(n);
    Apart(n, 0x7, 0x000F_FFFF_FFFF_F000);
  }

  lemma TableAddress(n: bv64, e: bv64)
    requires Addr(n) == n && e == n | PT_TABLE_FLAGS
    ensures Addr(e) == n
  {
    NarrowIsWide(n);
    Apart(n, 0x7, 0x0000_FFFF_FFFF_F000);
  }

  lemma TableKind(n: bv64, e: bv64)
    requires Addr(n) == n && e == n | PT_TABLE_FLAGS
    ensures IsTable(e) && EntryRights(e) == ALL_RIGHTS
  {
    NarrowIsWide(n);
    TableBits(n, e);
  }

  /** Below 2^48 the kernel and the processor read the same frame out of a table entry. */
  lemma TableEntry(n: bv64, e: bv64)
    requires Addr(n) == n && e == n | PT_TABLE_FLAGS
    ensures IsTable(e) && FrameBits(e) == n && Addr(e) == n && EntryRights(e) == ALL_RIGHTS
  {
    TableFrame(n, e);
    TableAddress(n, e);
    TableKind(n, e);
  }

  // ---------- pages as sets of addresses ----------

  predicate Clear(x: bv64, mask: bv64) {
    x & mask == 0
  }

  function IndexMask(level: nat): bv64
    requires 1 <= level <= 5
  {
    match level
    case 1 => 0x0000_0000_001F_F000
    case 2 => 0x0000_0000_3FE0_0000
    case 3 => 0x0000_007F_C000_0000
    case 4 => 0x0000_FF80_0000_0000
    case 5 => 0x01FF_0000_0000_0000
  }

  /** The address bits that the walk has looked at when it has read the table of the given level. */
  function SlotMask(depth: nat, level: nat): bv64
    requires 1 <= level <= 5
  {
    if depth == 5 then match level
      case 1 => 0x01FF_FFFF_FFFF_F000
      case 2 => 0x01FF_FFFF_FFE0_0000
      case 3 => 0x01FF_FFFF_C000_0000
      case 4 => 0x01FF_FF80_0000_0000
      case 5 => 0x01FF_0000_0000_0000
    else match level
      case 1 => 0x0000_FFFF_FFFF_F000
      case 2 => 0x0000_FFFF_FFE0_0000
      case 3 => 0x0000_FFFF_C000_0000
      case 4 => 0x0000_FF80_0000_0000
      case 5 => 0x0
  }

  /** The two addresses lie in the same page of the given level, above level 3 in the same stretch one entry covers. */
  predicate SamePage(va: bv64, va': bv64, depth: nat, level: nat)
    requires 1 <= level <= 5
  {
    Clear(va ^ va', SlotMask(depth, level))
  }

  lemma ClearDown(x: bv64, m: bv64, n: bv64)
    requires Clear(x, m | n)
    ensures Clear(x, m)
  {
  }

  lemma ClearUp(x: bv64, m: bv64, n: bv64)
    requires Clear(x, m) && Clear(x, n)
    ensures Clear(x, m | n)
  {
  }

  lemma SwapMasks(m: bv64, n: bv64)
    ensures m | n == n | m
  {
  }

  lemma ClearBoth(x: bv64, m: bv64, n: bv64)
    ensures Clear(x, m | n) <==> Clear(x, m) && Clear(x, n)
  {
    hide Clear;
    if Clear(x, m | n) {
      ClearDown(x, m, n);
      SwapMasks(m, n);
      ClearDown(x, n, m);
    } else if Clear(x, m) && Clear(x, n) {
      ClearUp(x, m, n);
    }
  }

  lemma SlotMasks(depth: nat, level: nat)
    requires 1 <= level < depth && 4 <= depth <= 5
    ensures SlotMask(depth, level) == IndexMask(level) | SlotMask(depth, level + 1)
  {
  }

  lemma SlotStep(x: bv64, depth: nat, level: nat)
    requires 1 <= level < depth && 4 <= depth <= 5
    ensures Clear(x, SlotMask(depth, level)) <==> Clear(x, IndexMask(level)) && Clear(x, SlotMask(depth, level + 1))
  {
    hide Clear;
    SlotMasks(depth, level);
    ClearBoth(x, IndexMask(level), SlotMask(depth, level + 1));
  }

  /** Two addresses lie in one page when they lie in one page of the next level and have the same index. */
  lemma SamePageStep(va: bv64, va': bv64, depth: nat, level: nat)
    requires 1 <= level < depth && 4 <= depth <= 5
    ensures SamePage(va, va', depth, level) <==>
            Clear(va ^ va', IndexMask(level)) && SamePage(va, va', depth, level + 1)
  {
    hide Clear, SlotMask, IndexMask;
    SlotStep(va ^ va', depth, level);
  }

  lemma SameIndex1(va: bv64, va': bv64)
    ensures IndexBits(va, 1) == IndexBits(va', 1) <==> Clear(va ^ va', 0x0000_0000_001F_F000)
  {
  }

  lemma SameIndex2(va: bv64, va': bv64)
    ensures IndexBits(va, 2) == IndexBits(va', 2) <==> Clear(va ^ va', 0x0000_0000_3FE0_0000)
  {
  }

  lemma SameIndex3(va: bv64, va': bv64)
    ensures IndexBits(va, 3) == IndexBits(va', 3) <==> Clear(va ^ va', 0x0000_007F_C000_0000)
  {
  }

  lemma SameIndex4(va: bv64, va': bv64)
    ensures IndexBits(va, 4) == IndexBits(va', 4) <==> Clear(va ^ va', 0x0000_FF80_0000_0000)
  {
  }

  lemma SameIndex5(va: bv64, va': bv64)
    ensures IndexBits(va, 5) == IndexBits(va', 5) <==> Clear(va ^ va', 0x01FF_0000_0000_0000)
  {
  }

  lemma SameNumber(a: bv9, b: bv9)
    ensures a as nat == b as nat <==> a == b
  {
  }

  lemma SameIndexIffClear(va: bv64, va': bv64, level: nat)
    requires 1 <= level <= 5
    ensures Index(va, level) == Index(va', level) <==> Clear(va ^ va', IndexMask(level))
  {
    SameNumber(IndexBits(va, level), IndexBits(va', level));
    match level
    case 1 => SameIndex1(va, va');
    case 2 => SameIndex2(va, va');
    case 3 => SameIndex3(va, va');
    case 4 => SameIndex4(va, va');
    case 5 => SameIndex5(va, va');
  }

  // ---------- a 1 GiB page in parts of 2 MiB ----------

  lemma PartBits4(va: bv64, va': bv64, i: bv64, x: bv64)
    requires va & 0x3FE0_0000 == 0 && i & !0x3FE0_0000 == 0 && x == va | i
    ensures Clear(x ^ va', 0x0000_FFFF_FFE0_0000) <==> Clear(va ^ va', 0x0000_FFFF_C000_0000) && va' & 0x3FE0_0000 == i
  {
  }

  lemma PartBits5(va: bv64, va': bv64, i: bv64, x: bv64)
    requires va & 0x3FE0_0000 == 0 && i & !0x3FE0_0000 == 0 && x == va | i
    ensures Clear(x ^ va', 0x01FF_FFFF_FFE0_0000) <==> Clear(va ^ va', 0x01FF_FFFF_C000_0000) && va' & 0x3FE0_0000 == i
  {
  }

  lemma Slots4(a: bv64, b: bv64)
    ensures SamePage(a, b, 4, 2) <==> Clear(a ^ b, 0x0000_FFFF_FFE0_0000)
    ensures SamePage(a, b, 4, 3) <==> Clear(a ^ b, 0x0000_FFFF_C000_0000)
  {
  }

  lemma Slots5(a: bv64, b: bv64)
    ensures SamePage(a, b, 5, 2) <==> Clear(a ^ b, 0x01FF_FFFF_FFE0_0000)
    ensures SamePage(a, b, 5, 3) <==> Clear(a ^ b, 0x01FF_FFFF_C000_0000)
  {
  }

  lemma PartPage4(va: bv64, va': bv64, i: bv64, x: bv64)
    requires va & 0x3FE0_0000 == 0 && i & !0x3FE0_0000 == 0 && x == va | i
    ensures SamePage(x, va', 4, 2) <==> SamePage(va, va', 4, 3) && va' & 0x3FE0_0000 == i
  {
    PartBits4(va, va', i, x);
    Slots4(x, va');
    Slots4(va, va');
  }

  lemma PartPage5(va: bv64, va': bv64, i: bv64, x: bv64)
    requires va & 0x3FE0_0000 == 0 && i & !0x3FE0_0000 == 0 && x == va | i
    ensures SamePage(x, va', 5, 2) <==> SamePage(va, va', 5, 3) && va' & 0x3FE0_0000 == i
  {
    PartBits5(va, va', i, x);
    Slots5(x, va');
    Slots5(va, va');
  }

  lemma SumIsUnion(x: bv64, i: bv64)
    requires x & 0x3FE0_0000 == 0 && i & !0x3FE0_0000 == 0
    ensures x + i == x | i
  {
  }

  /** The 2 MiB page at distance `i` consists of the addresses of the 1 GiB page with those middle bits. */
  lemma PartPage(va: bv64, va': bv64, i: bv64, depth: nat)
    requires va & 0x3FE0_0000 == 0 && i & !0x3FE0_0000 == 0 && 4 <= depth <= 5
    ensures SamePage(va + i, va', depth, 2) <==> SamePage(va, va', depth, 3) && va' & 0x3FE0_0000 == i
  {
    hide Clear, SamePage;
    SumIsUnion(va, i);
    if depth == 5 {
      PartPage5(va, va', i, va + i);
    } else {
      PartPage4(va, va', i, va + i);
    }
  }

  lemma PartAddress(pa: bv64, va: bv64, i: bv64)
    requires va & 0x3FE0_0000 == i
    ensures (pa | i) | (va & 0x1F_FFFF) == pa | (va & 0x3FFF_FFFF)
  {
  }

  lemma PartPhys(pa: bv64, va: bv64, i: bv64)
    requires pa & !0x000F_FFFF_C000_0000 == 0 && i & !0x3FE0_0000 == 0 && va & 0x3FE0_0000 == i
    ensures (pa + i) | (va & 0x1F_FFFF) == pa | (va & 0x3FFF_FFFF)
  {
    assert pa & 0x3FE0_0000 == 0;
    SumIsUnion(pa, i);
    PartAddress(pa, va, i);
  }

  lemma ValidKeepsRights(flags: bv64)
    ensures EntryRights(flags | PT_FLAG_VALID) == EntryRights(flags)
    ensures EntryCaching(flags | PT_FLAG_VALID, 2) == EntryCaching(flags, 2)
  {
  }

  lemma SameLeaf(pa: bv64, flags: bv64, pa': bv64, flags': bv64, va: bv64)
    requires pa' | (va & 0x1F_FFFF) == pa | (va & 0x3FFF_FFFF)
    requires EntryRights(flags') == EntryRights(flags) && EntryCaching(flags', 2) == EntryCaching(flags, 2)
    ensures FlagsLeaf(pa', flags', 2, va) == FlagsLeaf(pa, flags, 3, va)
  {
  }

  /** Inside that page, the 2 MiB entry translates as the 1 GiB entry would. */
  lemma PartLeaf(pa: bv64, flags: bv64, va: bv64, i: bv64)
    requires Mappable(pa, 3) && i & !0x3FE0_0000 == 0 && va & 0x3FE0_0000 == i
    ensures FlagsLeaf(pa + i, flags | PT_FLAG_VALID, 2, va) == FlagsLeaf(pa, flags, 3, va)
  {
    PartPhys(pa, va, i);
    ValidKeepsRights(flags);
    SameLeaf(pa, flags, pa + i, flags | PT_FLAG_VALID, va);
  }

  lemma PartMappable(pa: bv64, i: bv64)
    requires pa & !0x000F_FFFF_C000_0000 == 0 && i & !0x3FE0_0000 == 0
    ensures (pa | i) & !0x000F_FFFF_FFE0_0000 == 0
  {
  }

  lemma PartSumMappable(pa: bv64, i: bv64)
    requires pa & !0x000F_FFFF_C000_0000 == 0 && i & !0x3FE0_0000 == 0
    ensures (pa + i) & !0x000F_FFFF_FFE0_0000 == 0
  {
    assert pa & 0x3FE0_0000 == 0;
    SumIsUnion(pa, i);
    PartMappable(pa, i);
  }

  lemma PartArguments(pa: bv64, flags: bv64, i: bv64)
    requires Mappable(pa, 3) && i & !0x3FE0_0000 == 0 && FlagsOk(flags)
    ensures Mappable(pa + i, 2) && FlagsOk(flags | PT_FLAG_VALID)
  {
    PartSumMappable(pa, i);
  }

  lemma PartStep(va: bv64, i: bv64)
    requires i & 0x1F_FFFF == 0 && i < 0x4000_0000
    ensures va & 0x3FE0_0000 < i + 0x20_0000 <==> va & 0x3FE0_0000 < i || va & 0x3FE0_0000 == i
  {
  }

  lemma PartCursor(i: bv64)
    requires i & 0x1F_FFFF == 0 && i < 0x4000_0000
    ensures i & !0x3FE0_0000 == 0 && (i + 0x20_0000) & 0x1F_FFFF == 0 && i < i + 0x20_0000 <= 0x4000_0000
  {
  }

  lemma PartBelow(v: bv64)
    ensures v & 0x3FE0_0000 < 0x4000_0000 && (v & 0x3FE0_0000) & !0x3FE0_0000 == 0
  {
  }

  lemma OtherBits4(va: bv64, i: bv64, x: bv64)
    requires i & 0x1F_FFFF == 0 && 0 < i < 0x4000_0000 && x == va + i
    ensures !Clear(x ^ va, 0x0000_FFFF_FFE0_0000)
  {
  }

  lemma OtherBits5(va: bv64, i: bv64, x: bv64)
    requires i & 0x1F_FFFF == 0 && 0 < i < 0x4000_0000 && x == va + i
    ensures !Clear(x ^ va, 0x01FF_FFFF_FFE0_0000)
  {
  }

  lemma OtherPart4(va: bv64, i: bv64, x: bv64)
    requires i & 0x1F_FFFF == 0 && 0 < i < 0x4000_0000 && x == va + i
    ensures !SamePage(x, va, 4, 2)
  {
    hide Clear, SamePage;
    OtherBits4(va, i, x);
    Slots4(x, va);
  }

  lemma OtherPart5(va: bv64, i: bv64, x: bv64)
    requires i & 0x1F_FFFF == 0 && 0 < i < 0x4000_0000 && x == va + i
    ensures !SamePage(x, va, 5, 2)
  {
    hide Clear, SamePage;
    OtherBits5(va, i, x);
    Slots5(x, va);
  }

  /** No later part holds the first address. */
  lemma OtherPart(va: bv64, i: bv64, depth: nat)
    requires i & 0x1F_FFFF == 0 && 0 < i < 0x4000_0000 && 4 <= depth <= 5
    ensures !SamePage(va + i, va, depth, 2)
  {
    hide SamePage;
    if depth == 5 {
      OtherPart5(va, i, va + i);
    } else {
      OtherPart4(va, i, va + i);
    }
  }

  lemma MiddleBits(pa: bv64, va: bv64)
    requires pa & 0x3FFF_FFFF == 0
    ensures pa | (va & 0x1F_FFFF) == pa | (va & 0x3FFF_FFFF) <==> va & 0x3FE0_0000 == 0
  {
  }

  lemma GigaBase(pa: bv64)
    requires pa & !0x000F_FFFF_C000_0000 == 0
    ensures pa & 0x3FFF_FFFF == 0
  {
  }

  lemma LeafFields(pa: bv64, flags: bv64, level: nat, va: bv64)
    requires 1 <= level <= 3
    ensures FlagsLeaf(pa, flags, level, va).rights == EntryRights(flags)
    ensures FlagsLeaf(pa, flags, level, va).caching == EntryCaching(flags, 2)
  {
    hide EntryRights, EntryCaching, OffsetMask;
  }

  lemma OnlyPhys(pa: bv64, flags: bv64, va: bv64)
    ensures FlagsLeaf(pa, flags | PT_FLAG_VALID, 2, va) == FlagsLeaf(pa, flags, 3, va) <==>
            FlagsLeaf(pa, flags | PT_FLAG_VALID, 2, va).phys == FlagsLeaf(pa, flags, 3, va).phys
  {
    hide FlagsLeaf, EntryRights, EntryCaching;
    LeafFields(pa, flags | PT_FLAG_VALID, 2, va);
    LeafFields(pa, flags, 3, va);
    ValidKeepsRights(flags);
  }

  /** The first part's leaf for `va` is that of the single entry exactly when `va` lies in its first 2 MiB. */
  lemma FirstPartLeaf(pa: bv64, flags: bv64, va: bv64)
    requires Mappable(pa, 3)
    ensures FlagsLeaf(pa, flags | PT_FLAG_VALID, 2, va) == FlagsLeaf(pa, flags, 3, va) <==> va & 0x3FE0_0000 == 0
  {
    GigaBase(pa);
    hide FlagsLeaf, Mappable;
    MiddleBits(pa, va);
    AskedAddress(pa, flags | PT_FLAG_VALID, va);
    AskedAddress(pa, flags, va);
    OnlyPhys(pa, flags, va);
  }

  lemma PageOfItself(va: bv64, depth: nat, level: nat)
    requires 1 <= level <= 5
    ensures SamePage(va, va, depth, level)
  {
    SameBitsClear(va, SlotMask(depth, level));
  }

  lemma SameBitsClear(va: bv64, mask: bv64)
    ensures Clear(va ^ va, mask)
  {
  }

  lemma LastPart4(va: bv64)
    ensures Clear(va ^ (va + 0x3FE0_0000), 0x0000_FFFF_C000_0000) <==> va & 0x3FE0_0000 == 0
  {
  }

  lemma LastPart5(va: bv64)
    ensures Clear(va ^ (va + 0x3FE0_0000), 0x01FF_FFFF_C000_0000) <==> va & 0x3FE0_0000 == 0
  {
  }

  /** The last of the 512 parts still lies in the 1 GiB page of `va` exactly when `va` starts in its first 2 MiB;
      from any other address the parts run over into the next 1 GiB page, which a single 1 GiB entry would not touch. */
  lemma PartsStayInPage(va: bv64, depth: nat)
    requires 4 <= depth <= 5
    ensures SamePage(va, va + 0x3FE0_0000, depth, 3) <==> va & 0x3FE0_0000 == 0
  {
    if depth == 5 {
      LastPart5(va);
      Slots5(va, va + 0x3FE0_0000);
    } else {
      LastPart4(va);
      Slots4(va, va + 0x3FE0_0000);
    }
  }

  // ---------- the fields, bit by bit ----------

  lemma MappableSmall(pa: bv64)
    ensures Mappable(pa, 1) <==> pa & 0xFFF0_0000_0000_0FFF == 0
  {
  }

  lemma MappableMiddle(pa: bv64)
    ensures Mappable(pa, 2) <==> pa & 0xFFF0_0000_001F_FFFF == 0
  {
  }

  lemma MappableGiga(pa: bv64)
    ensures Mappable(pa, 3) <==> pa & 0xFFF0_0000_3FFF_FFFF == 0
  {
  }

  /** The physical addresses that can be mapped: below 2^52 and multiples of the page's size. */
  lemma MappableBits(pa: bv64)
    ensures Mappable(pa, 1) <==> pa & 0xFFF0_0000_0000_0FFF == 0
    ensures Mappable(pa, 2) <==> pa & 0xFFF0_0000_001F_FFFF == 0
    ensures Mappable(pa, 3) <==> pa & 0xFFF0_0000_3FFF_FFFF == 0
  {
    hide Mappable;
    MappableSmall(pa);
    MappableMiddle(pa);
    MappableGiga(pa);
  }

  /** The flags that can be asked for: bits 0 to 6, 8 to 12, and 63. */
  lemma FlagBits(flags: bv64)
    ensures FlagsOk(flags) <==> flags | 0x8000_0000_0000_1F7F == 0x8000_0000_0000_1F7F
  {
  }

  /** The frames the kernel can use for tables: below 2^48 and multiples of 4096. */
  lemma FrameAddresses(n: bv64)
    ensures Addr(n) == n <==> n & 0xFFFF_0000_0000_0FFF == 0
  {
  }

  lemma EntryAddress1(e: bv64, va: bv64)
    ensures LeafOf(e, 1, va).phys == (e & 0x000F_FFFF_FFFF_F000) | (va & 0xFFF)
  {
    hide EntryRights, EntryCaching;
  }

  lemma EntryAddress2(e: bv64, va: bv64)
    ensures LeafOf(e, 2, va).phys == (e & 0x000F_FFFF_FFE0_0000) | (va & 0x1F_FFFF)
  {
    hide EntryRights, EntryCaching;
  }

  lemma EntryAddress3(e: bv64, va: bv64)
    ensures LeafOf(e, 3, va).phys == (e & 0x000F_FFFF_C000_0000) | (va & 0x3FFF_FFFF)
  {
    hide EntryRights, EntryCaching;
  }

  /** The processor's view of the entry of a page: the address field and the offset, and the bits for rights and
      caching; PAT is bit 7 in a small page and bit 12 in a large one. */
  lemma EntryFields(e: bv64, va: bv64)
    ensures LeafOf(e, 1, va).phys == (e & 0x000F_FFFF_FFFF_F000) | (va & 0xFFF)
    ensures LeafOf(e, 2, va).phys == (e & 0x000F_FFFF_FFE0_0000) | (va & 0x1F_FFFF)
    ensures LeafOf(e, 3, va).phys == (e & 0x000F_FFFF_C000_0000) | (va & 0x3FFF_FFFF)
  {
    hide LeafOf;
    EntryAddress1(e, va);
    EntryAddress2(e, va);
    EntryAddress3(e, va);
  }

  lemma EntryBits(e: bv64, level: nat, va: bv64)
    requires 1 <= level <= 3
    ensures LeafOf(e, level, va).rights == Rights(e & 0x2 != 0, e & 0x4 != 0, e & 0x8000_0000_0000_0000 != 0)
    ensures LeafOf(e, level, va).caching ==
            Caching(e & 0x8 != 0, e & 0x10 != 0, e & (if level == 1 then 0x80 else 0x1000) != 0)
  {
    hide PageMask, OffsetMask;
  }

  /** What `vmm_map` is asked for: the address with the offset, and the flags' rights and caching, PAT being bit 12. */
  lemma AskedBits(pa: bv64, flags: bv64, level: nat, va: bv64)
    requires 1 <= level <= 3
    ensures FlagsLeaf(pa, flags, level, va).rights ==
            Rights(flags & 0x2 != 0, flags & 0x4 != 0, flags & 0x8000_0000_0000_0000 != 0)
    ensures FlagsLeaf(pa, flags, level, va).caching ==
            Caching(flags & 0x8 != 0, flags & 0x10 != 0, flags & 0x1000 != 0)
  {
    hide OffsetMask;
  }

  lemma AskedAddress1(pa: bv64, flags: bv64, va: bv64)
    ensures FlagsLeaf(pa, flags, 1, va).phys == pa | (va & 0xFFF)
  {
    hide EntryRights, EntryCaching;
  }

  lemma AskedAddress2(pa: bv64, flags: bv64, va: bv64)
    ensures FlagsLeaf(pa, flags, 2, va).phys == pa | (va & 0x1F_FFFF)
  {
    hide EntryRights, EntryCaching;
  }

  lemma AskedAddress3(pa: bv64, flags: bv64, va: bv64)
    ensures FlagsLeaf(pa, flags, 3, va).phys == pa | (va & 0x3FFF_FFFF)
  {
    hide EntryRights, EntryCaching;
  }

  lemma AskedAddress(pa: bv64, flags: bv64, va: bv64)
    ensures FlagsLeaf(pa, flags, 1, va).phys == pa | (va & 0xFFF)
    ensures FlagsLeaf(pa, flags, 2, va).phys == pa | (va & 0x1F_FFFF)
    ensures FlagsLeaf(pa, flags, 3, va).phys == pa | (va & 0x3FFF_FFFF)
  {
    hide FlagsLeaf;
    AskedAddress1(pa, flags, va);
    AskedAddress2(pa, flags, va);
    AskedAddress3(pa, flags, va);
  }

  /** Nine bits of the address for each level, from bit 12 up. */
  lemma IndexFields(va: bv64)
    ensures IndexBits(va, 1) == ((va >> 12) & 0x1FF) as bv9 && IndexBits(va, 2) == ((va >> 21) & 0x1FF) as bv9
    ensures IndexBits(va, 3) == ((va >> 30) & 0x1FF) as bv9 && IndexBits(va, 4) == ((va >> 39) & 0x1FF) as bv9
    ensures IndexBits(va, 5) == ((va >> 48) & 0x1FF) as bv9
  {
  }
}
