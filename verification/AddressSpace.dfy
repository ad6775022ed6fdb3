/** The page tables of an address space: `vmm_map` in `src/arch/x86_64/paging.rs` and `get_next_level` in
    `src/mem/vmm.rs`. */
module AddressSpace {
  import opened Outcomes
  import opened PageEntry
  import opened PageTable

  // ---------- a 1 GiB page as 512 pages of 2 MiB ----------

  /** The addresses of the 1 GiB page of `va` up to distance `i`. */
  predicate InParts(va: bv64, va': bv64, depth: nat, i: bv64) {
    SamePage(va, va', depth, 3) && va' & 0x3FE0_0000 < i
  }

  /** The first parts of the 1 GiB page of `va` are translated as asked, everything else as before. */
  ghost predicate PartsMapped(mem: Memory, mem': Memory, root: nat, depth: nat, va: bv64, pa: bv64, flags: bv64,
                              i: bv64)
    requires 1 <= depth <= 5
  {
    forall va' {:trigger Walk(mem', root, depth, va')} :: Walk(mem', root, depth, va') ==
      if InParts(va, va', depth, i) then Some(FlagsLeaf(pa, flags, 3, va')) else Walk(mem, root, depth, va')
  }

  predicate PartArgumentsOk(va: bv64, pa: bv64, depth: nat, i: bv64) {
    4 <= depth <= 5 && va & 0x3FE0_0000 == 0 && Mappable(pa, 3) && i & 0x1F_FFFF == 0 && i < 0x4000_0000
  }

  lemma NextPart(va: bv64, va': bv64, pa: bv64, depth: nat, i: bv64)
    requires PartArgumentsOk(va, pa, depth, i)
    ensures InParts(va, va', depth, i + 0x20_0000) <==> InParts(va, va', depth, i) || SamePage(va + i, va', depth, 2)
  {
    PartCursor(i);
    PartPage(va, va', i, depth);
    PartStep(va', i);
  }

  lemma PartSame(va: bv64, pa: bv64, flags: bv64, depth: nat, i: bv64, va': bv64)
    requires PartArgumentsOk(va, pa, depth, i) && SamePage(va + i, va', depth, 2)
    ensures FlagsLeaf(pa + i, flags | PT_FLAG_VALID, 2, va') == FlagsLeaf(pa, flags, 3, va')
  {
    PartCursor(i);
    PartPage(va, va', i, depth);
    PartLeaf(pa, flags, va', i);
  }

  lemma PartAt(mem0: Memory, mem: Memory, mem': Memory, root: nat, depth: nat, va: bv64, pa: bv64, flags: bv64,
               i: bv64, va': bv64)
    requires PartArgumentsOk(va, pa, depth, i)
    requires PartsMapped(mem0, mem, root, depth, va, pa, flags, i)
    requires PageMapped(mem, mem', root, depth, va + i, pa + i, flags | PT_FLAG_VALID, 2)
    ensures Walk(mem', root, depth, va') ==
            if InParts(va, va', depth, i + 0x20_0000) then Some(FlagsLeaf(pa, flags, 3, va'))
              else Walk(mem0, root, depth, va')
  {
    NextPart(va, va', pa, depth, i);
    if SamePage(va + i, va', depth, 2) {
      PartSame(va, pa, flags, depth, i, va');
    }
  }

  lemma PartMapped(mem0: Memory, mem: Memory, mem': Memory, root: nat, depth: nat, va: bv64, pa: bv64, flags: bv64,
                   i: bv64)
    requires PartArgumentsOk(va, pa, depth, i)
    requires PartsMapped(mem0, mem, root, depth, va, pa, flags, i)
    requires PageMapped(mem, mem', root, depth, va + i, pa + i, flags | PT_FLAG_VALID, 2)
    ensures PartsMapped(mem0, mem', root, depth, va, pa, flags, i + 0x20_0000)
  {
    forall va' {
      PartAt(mem0, mem, mem', root, depth, va, pa, flags, i, va');
    }
  }

  lemma PartClear(mem0: Memory, mem: Memory, mem': Memory, root: nat, depth: nat, va: bv64, pa: bv64, i: bv64)
    requires PartArgumentsOk(va, pa, depth, i)
    requires DescentsKept(mem0, mem, root, depth, va, 3, 2) && DescentsKept(mem, mem', root, depth, va + i, 2, 2)
    ensures DescentsKept(mem0, mem', root, depth, va, 3, 2)
  {
    forall va', to | 1 <= to <= depth && ClearPath(mem0, root, depth, va', to) &&
      (2 <= to || !SamePage(va, va', depth, 3))
      ensures ClearPath(mem', root, depth, va', to)
    {
      PartCursor(i);
      PartPage(va, va', i, depth);
      assert ClearPath(mem, root, depth, va', to);
    }
  }

  /** All parts hang under the same table. */
  lemma PartDescent(mem: Memory, root: nat, depth: nat, va: bv64, pa: bv64, i: bv64)
    requires PartArgumentsOk(va, pa, depth, i)
    ensures Missing(mem, root, depth, va + i, 2) == Missing(mem, root, depth, va, 2)
    ensures ClearPath(mem, root, depth, va + i, 2) == ClearPath(mem, root, depth, va, 2)
  {
    PartInPage(va, i, depth);
    SamePageIffSamePath(va, va + i, depth, 3);
    SameDescent(mem, root, depth, depth, va, va + i, 2);
  }

  lemma PartInPage(va: bv64, i: bv64, depth: nat)
    requires 4 <= depth <= 5 && va & 0x3FE0_0000 == 0 && i & 0x1F_FFFF == 0 && i < 0x4000_0000
    ensures SamePage(va, va + i, depth, 3)
  {
    PartCursor(i);
    SamePageIffSamePath(va + i, va + i, depth, 2);
    PartPage(va, va + i, i, depth);
  }

  lemma NoPartsYet(mem: Memory, mem': Memory, root: nat, depth: nat, va: bv64, pa: bv64, flags: bv64)
    requires 1 <= depth <= 5 && SameView(mem, mem', root, depth)
    ensures PartsMapped(mem, mem', root, depth, va, pa, flags, 0) && DescentsKept(mem, mem', root, depth, va, 3, 2)
  {
    hide Walk, ClearPath, SamePage;
  }

  /** The 512 pages of 2 MiB translate every address as the single 1 GiB page would. */
  lemma AllPartsMapped(mem: Memory, mem': Memory, root: nat, depth: nat, va: bv64, pa: bv64, flags: bv64)
    requires 4 <= depth <= 5 && PartsMapped(mem, mem', root, depth, va, pa, flags, 0x4000_0000)
    ensures PageMapped(mem, mem', root, depth, va, pa, flags, 3)
  {
    forall va'
      ensures Walk(mem', root, depth, va') ==
              if SamePage(va, va', depth, 3) then Some(FlagsLeaf(pa, flags, 3, va')) else Walk(mem, root, depth, va')
    {
      PartBelow(va');
    }
  }

  /** The memories that the fallback goes through from the part at distance `i` on: each comes from the one before
      it by mapping 2 MiB. */
  ghost predicate PartsRun(ms: seq<Memory>, root: nat, depth: nat, va: bv64, pa: bv64, flags: bv64, i: bv64)
    requires 1 <= depth <= 5
    decreases |ms|
  {
    if i >= 0x4000_0000 then |ms| == 1
    else
      && |ms| > 1 && PageMapped(ms[0], ms[1], root, depth, va + i, pa + i, flags | PT_FLAG_VALID, 2)
      && PartsRun(ms[1..], root, depth, va, pa, flags, i + 0x20_0000)
  }

  lemma {:induction false} AlignedRun(mem0: Memory, ms: seq<Memory>, root: nat, depth: nat, va: bv64, pa: bv64,
                                      flags: bv64, i: bv64)
    requires 4 <= depth <= 5 && va & 0x3FE0_0000 == 0 && Mappable(pa, 3) && i & 0x1F_FFFF == 0 && i <= 0x4000_0000
    requires PartsRun(ms, root, depth, va, pa, flags, i)
    requires PartsMapped(mem0, ms[0], root, depth, va, pa, flags, i)
    ensures PageMapped(mem0, ms[|ms| - 1], root, depth, va, pa, flags, 3)
    decreases |ms|
  {
    hide PartsMapped, PageMapped, Mappable;
    if i < 0x4000_0000 {
      PartCursor(i);
      assert PartArgumentsOk(va, pa, depth, i);
      PartMapped(mem0, ms[0], ms[1], root, depth, va, pa, flags, i);
      AlignedRun(mem0, ms[1..], root, depth, va, pa, flags, i + 0x20_0000);
    } else {
      AllPartsMapped(mem0, ms[0], root, depth, va, pa, flags);
    }
  }

  /** Later parts leave the translation of the first address alone. */
  lemma {:induction false} LaterParts(ms: seq<Memory>, root: nat, depth: nat, va: bv64, pa: bv64, flags: bv64, i: bv64)
    requires 4 <= depth <= 5 && i & 0x1F_FFFF == 0 && 0 < i <= 0x4000_0000
    requires PartsRun(ms, root, depth, va, pa, flags, i)
    ensures Walk(ms[|ms| - 1], root, depth, va) == Walk(ms[0], root, depth, va)
    decreases |ms|
  {
    hide Walk, SamePage;
    if i < 0x4000_0000 {
      PartCursor(i);
      OtherPart(va, i, depth);
      LaterParts(ms[1..], root, depth, va, pa, flags, i + 0x20_0000);
    }
  }

  lemma FirstPart(mem: Memory, mem': Memory, root: nat, depth: nat, va: bv64, pa: bv64, flags: bv64)
    requires 4 <= depth <= 5 && PageMapped(mem, mem', root, depth, va + 0, pa + 0, flags | PT_FLAG_VALID, 2)
    ensures Walk(mem', root, depth, va) == Some(FlagsLeaf(pa, flags | PT_FLAG_VALID, 2, va))
  {
    hide Walk, SamePage;
    assert va + 0 == va && pa + 0 == pa;
    PageOfItself(va, depth, 2);
  }

  lemma SinglePage(mem: Memory, mem': Memory, root: nat, depth: nat, va: bv64, pa: bv64, flags: bv64)
    requires 4 <= depth <= 5 && PageMapped(mem, mem', root, depth, va, pa, flags, 3)
    ensures Walk(mem', root, depth, va) == Some(FlagsLeaf(pa, flags, 3, va))
  {
    hide Walk, SamePage;
    PageOfItself(va, depth, 3);
  }

  /** Without 1 GiB pages, the 512 pages of 2 MiB that replace one translate every address as it would exactly when
      the request lies in the first 2 MiB of its 1 GiB page. From anywhere else they are shifted by the distance to
      the page's start, and the last of them run over into the next page (`PartsStayInPage`). */
  lemma FallbackIff(ms: seq<Memory>, root: nat, depth: nat, va: bv64, pa: bv64, flags: bv64)
    requires 4 <= depth <= 5 && Mappable(pa, 3) && PartsRun(ms, root, depth, va, pa, flags, 0)
    ensures PageMapped(ms[0], ms[|ms| - 1], root, depth, va, pa, flags, 3) <==> va & 0x3FE0_0000 == 0
  {
    hide PageMapped, Mappable, Walk;
    if va & 0x3FE0_0000 == 0 {
      NoPartsYet(ms[0], ms[0], root, depth, va, pa, flags);
      AlignedRun(ms[0], ms, root, depth, va, pa, flags, 0);
    } else if PageMapped(ms[0], ms[|ms| - 1], root, depth, va, pa, flags, 3) {
      SinglePage(ms[0], ms[|ms| - 1], root, depth, va, pa, flags);
      FirstPart(ms[0], ms[1], root, depth, va, pa, flags);
      LaterParts(ms[1..], root, depth, va, pa, flags, 0x20_0000);
      FirstPartLeaf(pa, flags, va);
      assert false;
    }
  }

  /** The memory with the frame `page` made a table and hung under entry `i` of frame `f`. */
  function WithTable(mem: Memory, f: nat, i: nat, page: bv64): Memory
    requires f in mem && i < |mem[f]|
  {
    AddTable(mem, f, i, page | PT_TABLE_FLAGS, page as nat)
  }

  lemma PlaceKnown(mem: Memory, paths: map<nat, seq<nat>>, root: nat, depth: nat, f: nat)
    requires Tree(mem, paths, root, depth) && f in mem
    ensures f in paths
  {
  }

  lemma TableFits(mem: Memory, paths: map<nat, seq<nat>>, root: nat, depth: nat, f: nat, level: nat, va: bv64,
                  page: bv64)
    requires Tree(mem, paths, root, depth) && 2 <= level <= depth <= 5 && Reaches(mem, root, depth, va, f, level)
    requires HasFrame(mem, f) && !Present(EntryAt(mem, f, level, va)) && Addr(page) == page && page as nat !in mem
    ensures NewTable(mem, paths, root, depth, f, Index(va, level), page | PT_TABLE_FLAGS, page as nat)
  {
    TableEntry(page, page | PT_TABLE_FLAGS);
    WalkThrough(mem, paths, root, depth, root, depth, va, f, level, va);
  }

  lemma TableHung(mem: Memory, paths: map<nat, seq<nat>>, root: nat, depth: nat, f: nat, level: nat, va: bv64,
                  page: bv64, to: nat,
                  mem': Memory, paths': map<nat, seq<nat>>)
    requires Tree(mem, paths, root, depth) && 1 <= to < level <= depth <= 5 && Reaches(mem, root, depth, va, f, level)
    requires HasFrame(mem, f) && !Present(EntryAt(mem, f, level, va)) && Addr(page) == page && page as nat !in mem
    requires mem' == WithTable(mem, f, Index(va, level), page)
    requires f in paths && paths' == paths[page as nat := paths[f] + [Index(va, level)]]
    ensures Tree(mem', paths', root, depth)
    ensures SameView(mem, mem', root, depth) && mem'.Keys == mem.Keys + {page as nat}
    ensures Reaches(mem', root, depth, va, page as nat, level - 1) &&
      Missing(mem', page as nat, level - 1, va, to) == level - 1 - to
    ensures HasFrame(mem', page as nat) && ClearPath(mem', page as nat, level - 1, va, to)
  {
    hide IsTable, IsLarge, Present, FrameBits, Addr, IndexBits, Walk, SameView, Reaches, Missing, ClearPath;
    var e := page | PT_TABLE_FLAGS;
    TableFits(mem, paths, root, depth, f, level, va, page);
    NewTableKeepsTree(mem, paths, root, depth, f, Index(va, level), e, page as nat);
    NewTableSameView(mem, paths, root, depth, f, Index(va, level), e, page as nat);
    NewTableReached(mem, paths, root, depth, f, e, page as nat, level, va, to);
    EmptyTable(mem', page as nat, level - 1, va, to);
  }

  lemma SameViewChain(mem0: Memory, mem: Memory, mem': Memory, root: nat, depth: nat)
    requires 1 <= depth <= 5 && SameView(mem0, mem, root, depth) && SameView(mem, mem', root, depth)
    ensures SameView(mem0, mem', root, depth)
  {
  }

  lemma ViewThenPage(mem0: Memory, mem: Memory, mem': Memory, root: nat, depth: nat, va: bv64, pa: bv64, flags: bv64,
                     size: nat, target: nat)
    requires 1 <= depth <= 5 && 1 <= size <= 3 && SameView(mem0, mem, root, depth)
    ensures PageMapped(mem, mem', root, depth, va, pa, flags, size) ==>
      PageMapped(mem0, mem', root, depth, va, pa, flags, size)
    ensures DescentsKept(mem, mem', root, depth, va, size, target) ==>
      DescentsKept(mem0, mem', root, depth, va, size, target)
  {
  }

  lemma TableBelow(mem: Memory, paths: map<nat, seq<nat>>, root: nat, depth: nat, f: nat, level: nat, va: bv64)
    requires Tree(mem, paths, root, depth) && 2 <= level <= depth <= 5 && Reaches(mem, root, depth, va, f, level)
    requires HasFrame(mem, f) && IsTable(EntryAt(mem, f, level, va))
    ensures var e := EntryAt(mem, f, level, va);
      Addr(e) as nat == Child(e) && HasFrame(mem, Child(e)) && Reaches(mem, root, depth, va, Child(e), level - 1)
  {
    hide IsTable, IsLarge, Present, FrameBits, IndexBits, Walk;
    WalkThrough(mem, paths, root, depth, root, depth, va, f, level, va);
    ChildOnPath(mem, paths, root, depth, f, level, va);
    assert TableEntryOk(mem, paths, f, Index(va, level));
    ReachesStep(mem, root, depth, va, f, level);
  }

  /** The free frames are distinct and not in use, and their addresses fit the kernel's address mask. */
  ghost predicate PoolOk(mem: Memory, pool: seq<bv64>) {
    && (forall k :: 0 <= k < |pool| ==> Addr(pool[k]) == pool[k] && pool[k] as nat !in mem)
    && (forall k, l :: 0 <= k < l < |pool| ==> pool[k] as nat != pool[l] as nat)
  }

  lemma PoolHead(mem: Memory, pool: seq<bv64>)
    requires PoolOk(mem, pool) && |pool| > 0
    ensures Addr(pool[0]) == pool[0] && pool[0] as nat !in mem
  {
  }

  lemma PoolTail(mem: Memory, pool: seq<bv64>, mem': Memory)
    requires PoolOk(mem, pool) && |pool| > 0 && mem'.Keys == mem.Keys + {pool[0] as nat}
    ensures PoolOk(mem', pool[1..])
  {
  }

  lemma EmptyTree(f: nat, depth: nat)
    requires 4 <= depth <= 5
    ensures var mem := map[f := ZeroFrame()];
      && Tree(mem, map[f := []], f, depth)
      && (forall va {:trigger Walk(mem, f, depth, va)} :: Walk(mem, f, depth, va) == None)
      && (forall va, to {:trigger ClearPath(mem, f, depth, va, to)} :: 1 <= to <= depth ==>
        ClearPath(mem, f, depth, va, to))
  {
    var mem: Memory := map[f := ZeroFrame()];
    ZeroEntry();
    forall va, to | 1 <= to <= depth
      ensures Walk(mem, f, depth, va) == None && ClearPath(mem, f, depth, va, to)
    {
      EmptyTable(mem, f, depth, va, to);
    }
    forall va
      ensures Walk(mem, f, depth, va) == None
    {
      EmptyTable(mem, f, depth, va, 1);
    }
  }

  // ---------- the tables ----------

  class PageTables {
    /** The frames in use as tables, by physical address. */
    var mem: Memory
    /** The frames that `pmm_alloc` will hand out, zeroed as it does. */
    var pool: seq<bv64>
    const root: nat
    const depth: nat
    /** Whether the processor has 1 GiB pages. */
    const gib: bool
    /** For each table the indices on the way to it. */
    ghost var paths: map<nat, seq<nat>>

    /** A fresh table with no entries translates nothing. */
    constructor (frames: seq<bv64>, depth: nat, gib: bool)
      requires |frames| > 0 && PoolOk(map[], frames) && 4 <= depth <= 5
      ensures Valid() && this.depth == depth && this.gib == gib && pool == frames[1..]
      ensures forall va {:trigger Walk(mem, root, depth, va)} :: Walk(mem, root, depth, va) == None
      ensures forall va, to {:trigger ClearPath(mem, root, depth, va, to)} :: 1 <= to <= depth ==>
        ClearPath(mem, root, depth, va, to)
    {
      var f := frames[0] as nat;
      mem := map[f := ZeroFrame()];
      root := f;
      this.depth := depth;
      this.gib := gib;
      pool := frames[1..];
      paths := map[f := []];
      EmptyTree(f, depth);
      PoolTail(map[], frames, map[f := ZeroFrame()]);
    }

    ghost predicate Valid()
      reads this
    {
      4 <= depth <= 5 && Tree(mem, paths, root, depth) && PoolOk(mem, pool)
    }

    /** The lowest level at which mapping a page of the given size needs a table. */
    function Target(size: nat): (level: nat)
      ensures 1 <= size <= 3 ==> 1 <= level <= size
    {
      if size == 3 && !gib then 2 else size
    }

    /** The descent along `va` has come to the table in frame `directory`; it can go on to level `to`, and there
        are frames enough for the tables that it will have to make. */
    ghost predicate At(directory: nat, va: bv64, level: nat, to: nat)
      requires 1 <= to <= level <= 5
      reads this
    {
      && Valid() && level <= depth && Reaches(mem, root, depth, va, directory, level) && HasFrame(mem, directory)
      && ClearPath(mem, directory, level, va, to) && |pool| >= Missing(mem, directory, level, va, to)
    }

    /** Takes a fresh frame for the table that is absent one level down, and enters it. */
    method HangTable(directory: nat, va: bv64, level: nat, entry: nat, ghost to: nat) returns (next: nat)
      requires 1 <= to <= level < 5 && At(directory, va, level + 1, to) && entry == Index(va, level + 1)
      requires !Present(EntryAt(mem, directory, level + 1, va)) && |pool| > 0
      modifies this
      ensures Valid() && Reaches(mem, root, depth, va, next, level) && HasFrame(mem, next) &&
        ClearPath(mem, next, level, va, to)
      ensures SameView(old(mem), mem, root, depth)
      ensures |pool| == |old(pool)| - 1 && Missing(mem, next, level, va, to) == level - to
    {
      hide IsTable, IsLarge, Present, FrameBits, IndexBits, SameView;
      hide Reaches, PoolOk, Walk, ClearPath, Missing, Tree, WithTable;
      PlaceKnown(mem, paths, root, depth, directory);
      var page := pool[0];
      next := page as nat;
      var mem' := WithTable(mem, directory, entry, page);
      ghost var paths' := paths[next := paths[directory] + [entry]];
      PoolHead(mem, pool);
      TableHung(mem, paths, root, depth, directory, level + 1, va, page, to, mem', paths');
      PoolTail(mem, pool, mem');
      pool, mem, paths := pool[1..], mem', paths';
    }

    /** The frame of the table one level down, made first when there is none: then one frame less is free and
        one table less is missing. No translation changes. */
    method GetNextLevel(directory: nat, va: bv64, level: nat, entry: nat, ghost to: nat) returns (next: nat)
      requires 1 <= to <= level < 5 && At(directory, va, level + 1, to) && entry == Index(va, level + 1)
      modifies this
      ensures At(next, va, level, to) && SameView(old(mem), mem, root, depth)
      ensures |pool| - Missing(mem, next, level, va, to) == old(|pool| - Missing(mem, directory, level + 1, va, to))
    {
      hide FrameBits, IndexBits, Tree, Reaches, PoolOk;
      var e := mem[directory][entry];
      EntryKind(e);
      if IsTable(e) {
        next := Addr(e) as nat;
        TableBelow(mem, paths, root, depth, directory, level + 1, va);
      } else {
        next := HangTable(directory, va, level, entry, to);
      }
    }

    method WriteEntry(directory: nat, va: bv64, pa: bv64, flags: bv64, size: nat)
      requires 1 <= size <= 3 && At(directory, va, size, size) && Mappable(pa, size) && FlagsOk(flags)
      modifies this
      ensures Valid() && PageMapped(old(mem), mem, root, depth, va, pa, flags, size)
      ensures DescentsKept(old(mem), mem, root, depth, va, size, size)
      ensures pool == old(pool) && Reaches(mem, root, depth, va, directory, size)
    {
      hide IsTable, IsLarge, FrameBits, IndexBits, Tree, PageMapped, DescentsKept, FlagsOk, Mappable;
      LeafMaps(mem, paths, root, depth, directory, size, va, pa, flags);
      mem := SetEntry(mem, directory, Index(va, size), MakeEntry(pa, flags | PT_FLAG_VALID, size));
    }

    /** The descent to the table whose entries cover 1 GiB each, for both paging modes. */
    method GetPml3(va: bv64, ghost to: nat) returns (pml3: nat)
      requires 1 <= to <= 3 && Valid() && At(root, va, depth, to)
      modifies this
      ensures At(pml3, va, 3, to) && SameView(old(mem), mem, root, depth)
      ensures |pool| - Missing(mem, pml3, 3, va, to) == old(|pool| - Missing(mem, root, depth, va, to))
    {
      hide IsTable, IsLarge, FrameBits, IndexBits, Tree, SameView, PoolOk, Walk;
      var pml4 := root;
      if depth == 5 {
        pml4 := GetNextLevel(root, va, 4, Index(va, 5), to);
      }
      ghost var mem1 := mem;
      pml3 := GetNextLevel(pml4, va, 3, Index(va, 4), to);
      SameViewChain(old(mem), mem1, mem, root, depth);
    }

    /** Maps one page. Every address in the page is translated to its place in the physical page, with the rights
        and the caching that the flags ask for, and every other address as before; the frames used up are exactly
        the tables that were missing. */
    method VmmMap(va: bv64, pa: bv64, flags: bv64, size: nat)
      requires Valid() && 1 <= size <= 3 && Mappable(pa, size) && FlagsOk(flags)
      requires size == 3 && !gib ==> va & 0x3FE0_0000 == 0
      requires ClearPath(mem, root, depth, va, Target(size)) && |pool| >= Missing(mem, root, depth, va, Target(size))
      modifies this
      ensures Valid() && PageMapped(old(mem), mem, root, depth, va, pa, flags, size)
      ensures DescentsKept(old(mem), mem, root, depth, va, size, Target(size))
      ensures |pool| == old(|pool| - Missing(mem, root, depth, va, Target(size)))
      ensures Missing(mem, root, depth, va, Target(size)) == 0 && ClearPath(mem, root, depth, va, Target(size))
      decreases size, 1
    {
      hide IsTable, IsLarge, FrameBits, IndexBits, SameView, PoolOk, Walk, PageMapped, DescentsKept, FlagsOk, Mappable;
      ghost var to, mem0 := Target(size), mem;
      var pml3 := GetPml3(va, to);
      if size == 3 {
        if gib {
          FinishEntry(mem0, pml3, va, pa, flags, size);
        } else {
          FinishInParts(mem0, pml3, va, pa, flags);
        }
        return;
      }
      ghost var mem2 := mem;
      var pml2 := GetNextLevel(pml3, va, 2, Index(va, 3), to);
      SameViewChain(mem0, mem2, mem, root, depth);
      if size == 2 {
        FinishEntry(mem0, pml2, va, pa, flags, size);
        return;
      }
      ghost var mem3 := mem;
      var pml1 := GetNextLevel(pml2, va, 1, Index(va, 2), to);
      SameViewChain(mem0, mem3, mem, root, depth);
      FinishEntry(mem0, pml1, va, pa, flags, size);
    }

    method FinishEntry(ghost mem0: Memory, directory: nat, va: bv64, pa: bv64, flags: bv64, size: nat)
      requires 1 <= size <= 3 && At(directory, va, size, size) && Mappable(pa, size) && FlagsOk(flags)
      requires SameView(mem0, mem, root, depth)
      modifies this
      ensures Valid() && PageMapped(mem0, mem, root, depth, va, pa, flags, size)
      ensures DescentsKept(mem0, mem, root, depth, va, size, size)
      ensures pool == old(pool)
      ensures Missing(mem, root, depth, va, size) == 0 && ClearPath(mem, root, depth, va, size)
      decreases size, 0
    {
      hide IsTable, IsLarge, FrameBits, IndexBits, Tree, SameView;
      hide PoolOk, Walk, PageMapped, DescentsKept, FlagsOk, Mappable;
      WriteEntry(directory, va, pa, flags, size);
      ViewThenPage(mem0, old(mem), mem, root, depth, va, pa, flags, size, size);
      ReachesClear(mem, root, depth, va, directory, size, size);
    }

    method FinishInParts(ghost mem0: Memory, directory: nat, va: bv64, pa: bv64, flags: bv64)
      requires At(directory, va, 3, 2) && Mappable(pa, 3) && FlagsOk(flags) && va & 0x3FE0_0000 == 0
      requires SameView(mem0, mem, root, depth)
      modifies this
      ensures Valid() && PageMapped(mem0, mem, root, depth, va, pa, flags, 3)
      ensures DescentsKept(mem0, mem, root, depth, va, 3, 2)
      ensures |pool| == old(|pool| - Missing(mem, directory, 3, va, 2))
      ensures Missing(mem, root, depth, va, 2) == 0 && ClearPath(mem, root, depth, va, 2)
      decreases 3, 0
    {
      hide IsTable, IsLarge, FrameBits, IndexBits, Tree, SameView;
      hide PoolOk, Walk, PageMapped, DescentsKept, PartsMapped, FlagsOk, Mappable;
      MissingFromHere(mem, root, depth, va, directory, 3, 2);
      ClearToHere(mem, root, depth, va, directory, 3, 2);
      NoPartsYet(mem0, mem, root, depth, va, pa, flags);
      var i: bv64 := 0;
      while i < 0x4000_0000
        invariant i & 0x1F_FFFF == 0 && i <= 0x4000_0000
        invariant Valid() && PartsMapped(mem0, mem, root, depth, va, pa, flags, i)
        invariant DescentsKept(mem0, mem, root, depth, va, 3, 2) && ClearPath(mem, root, depth, va, 2)
        invariant |pool| - Missing(mem, root, depth, va, 2) == old(|pool| - Missing(mem, directory, 3, va, 2))
        invariant i > 0 ==> Missing(mem, root, depth, va, 2) == 0
        decreases 0x4000_0000 - i
      {
        ghost var mem1 := mem;
        assert PartArgumentsOk(va, pa, depth, i);
        PartDescent(mem, root, depth, va, pa, i);
        PartCursor(i);
        PartArguments(pa, flags, i);
        VmmMap(va + i, pa + i, flags | PT_FLAG_VALID, 2);
        PartDescent(mem, root, depth, va, pa, i);
        PartMapped(mem0, mem1, mem, root, depth, va, pa, flags, i);
        PartClear(mem0, mem1, mem, root, depth, va, pa, i);
        i := i + 0x20_0000;
      }
      AllPartsMapped(mem0, mem, root, depth, va, pa, flags);
    }
  }
}
