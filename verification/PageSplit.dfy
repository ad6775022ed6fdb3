/** Replacing a large page by smaller ones: the arm of `get_next_level` in `src/mem/vmm.rs` that maps the parts of the
    old page again, starting from the table that held it as if that were the root. */
module PageSplit {
  import opened Outcomes
  import opened PageEntry
  import opened PageTable
  import opened AddressSpace

  datatype Tables = Tables(mem: Memory, pool: seq<bv64>)

  // ---------- the descent and the entry, from any frame ----------

  /** The next table along `va` as `get_next_level` finds or makes it; `None` at a large page, outside the tables, and
      without a free frame. */
  function NextTable(s: Tables, f: nat, level: nat, va: bv64): Option<(Tables, nat)>
    requires 1 <= level <= 5
  {
    if !HasFrame(s.mem, f) then None
    else
      var e := EntryAt(s.mem, f, level, va);
      if IsTable(e) then Some((s, Addr(e) as nat))
      else if IsLarge(e) || s.pool == [] then None
      else Some((Tables(WithTable(s.mem, f, Index(va, level), s.pool[0]), s.pool[1..]), s.pool[0] as nat))
  }

  function Descend(s: Tables, f: nat, level: nat, va: bv64, to: nat): Option<(Tables, nat)>
    requires 1 <= to <= level <= 5
    decreases level
  {
    if level == to then Some((s, f))
    else match NextTable(s, f, level, va)
      case Some((s', next)) => Descend(s', next, level - 1, va, to)
      case None => None
  }

  /** `vmm_map` with frame `f` taken for the root. */
  function MapFrom(s: Tables, f: nat, depth: nat, va: bv64, pa: bv64, flags: bv64, size: nat): Option<Tables>
    requires 1 <= size <= 2 && 4 <= depth <= 5
  {
    match Descend(s, f, depth, va, size)
    case Some((s', table)) =>
      if !HasFrame(s'.mem, table) then None
      else Some(s'.(mem := SetEntry(s'.mem, table, Index(va, size), MakeEntry(pa, flags | PT_FLAG_VALID, size))))
    case None => None
  }

  function Span(level: nat): bv64
    requires 1 <= level <= 3
  {
    match level
    case 1 => 0x1000
    case 2 => 0x20_0000
    case 3 => 0x4000_0000
  }

  /** The flags of the old page that its parts get. */
  function KeptFlags(e: bv64): bv64 {
    e & 0x8000_0000_0000_0002
  }

  // ---------- what the recursion can reach ----------

  /** A split: `base` is the memory with the new table hung under entry `slot` of frame `dir`; the recursion reads
      entry `first` of `dir` and, one table further down, entry `second`. */
  datatype Split = Split(base: Memory, dir: nat, table: nat, slot: nat, first: nat, second: nat, depth: nat, size: nat)

  /** The recursion starts in the new table or under an absent entry. */
  ghost predicate SplitOk(c: Split) {
    && 4 <= c.depth <= 5 && 1 <= c.size <= 2 && c.dir != c.table && HasFrame(c.base, c.dir) && c.table in c.base
    && c.slot < 512 && c.first < 512 && c.second < 512 && c.base[c.table] == ZeroFrame()
    && IsTable(c.base[c.dir][c.slot]) && Addr(c.base[c.dir][c.slot]) as nat == c.table
    && (c.first != c.slot ==> !Present(c.base[c.dir][c.first]))
  }

  predicate Writable(c: Split, f: nat, k: nat) {
    (f == c.dir && k == c.first && c.first != c.slot) || (f == c.table && k == c.second && c.first == c.slot)
  }

  ghost predicate EntryOk(m: Memory, lv: map<nat, nat>, f: nat, k: nat)
    requires f in m && k < |m[f]| && f in lv
  {
    var e := m[f][k];
    Present(e) ==> IsTable(e) && Addr(e) as nat in lv && lv[Addr(e) as nat] + 1 == lv[f]
  }

  /** The frames the recursion has come through, each with the level it is used at: the two it finds, and new ones. */
  ghost predicate Levels(c: Split, m: Memory, lv: map<nat, nat>) {
    && c.dir in lv && lv[c.dir] == c.depth && (c.table in lv <==> c.first == c.slot)
    && (c.table in lv ==> lv[c.table] == c.depth - 1)
    && (forall f :: f in lv ==> HasFrame(m, f) && c.size <= lv[f] <= c.depth)
    && (forall f :: f in lv && f in c.base ==> f == c.dir || f == c.table)
    && (forall f :: f in lv && lv[f] == c.depth ==> f == c.dir)
  }

  /** All other frames are as they were, and of the two at most one entry has been written. */
  ghost predicate Kept(c: Split, m: Memory) {
    && (forall f :: f in c.base ==> f in m && |m[f]| == |c.base[f]|)
    && (forall f, k {:trigger m[f][k]} ::
          f in c.base && f in m && 0 <= k < |c.base[f]| && k < |m[f]| && !Writable(c, f, k) ==> m[f][k] == c.base[f][k])
  }

  ghost predicate EntriesOk(c: Split, m: Memory, lv: map<nat, nat>) {
    forall f, k {:trigger m[f][k]} ::
      f in lv && f in m && lv[f] > c.size && 0 <= k < |m[f]| && (f == c.dir ==> k == c.first) ==> EntryOk(m, lv, f, k)
  }

  ghost predicate Grown(c: Split, m: Memory, lv: map<nat, nat>) {
    Levels(c, m, lv) && Kept(c, m) && EntriesOk(c, m, lv)
  }

  /** `va` lies in the old page. */
  predicate InOldPage(c: Split, va: bv64) {
    4 <= c.depth <= 5 && Index(va, c.depth) == c.first && Index(va, c.depth - 1) == c.second
  }

  /** The frames the recursion starts with. */
  function StartLevels(c: Split): map<nat, nat>
    requires c.depth > 0
  {
    if c.first == c.slot then map[c.dir := c.depth, c.table := c.depth - 1] else map[c.dir := c.depth]
  }

  lemma StartEntry(c: Split, f: nat, k: nat)
    requires SplitOk(c) && f in StartLevels(c) && k < 512 && (f == c.dir ==> k == c.first)
    ensures HasFrame(c.base, f) && EntryOk(c.base, StartLevels(c), f, k)
  {
    hide IsTable, IsLarge, Present, Addr;
    ZeroEntry();
    if f == c.table {
      assert c.base[f][k] == 0;
    } else if c.first == c.slot {
      assert c.table in StartLevels(c) && StartLevels(c)[c.table] + 1 == c.depth;
    }
  }

  lemma StartGrown(c: Split)
    requires SplitOk(c)
    ensures Grown(c, c.base, StartLevels(c))
  {
    hide IsTable, IsLarge, Present, Addr, EntryOk;
    var lv := StartLevels(c);
    assert |c.base[c.table]| == 512;
    forall f, k | f in lv && lv[f] > c.size && 0 <= k < |c.base[f]| && (f == c.dir ==> k == c.first)
      ensures EntryOk(c.base, lv, f, k)
    {
      StartEntry(c, f, k);
    }
  }

  /** Entry `k` of frame `f` has become a table: the empty frame `n`. */
  ghost predicate Hung(m: Memory, m': Memory, f: nat, k: nat, n: nat) {
    && HasFrame(m, f) && HasFrame(m', f) && k < 512 && n !in m && n in m' && m'[n] == ZeroFrame()
    && m'.Keys == m.Keys + {n} && IsTable(m'[f][k]) && Addr(m'[f][k]) as nat == n
    && (forall g :: g in m && g != f ==> m'[g] == m[g])
    && (forall l :: 0 <= l < 512 && l != k ==> m'[f][l] == m[f][l])
  }

  lemma HungEntry(m: Memory, f: nat, k: nat, page: bv64)
    requires HasFrame(m, f) && k < 512 && Addr(page) == page && page as nat !in m
    ensures Hung(m, WithTable(m, f, k, page), f, k, page as nat)
  {
    TableEntry(page, page | PT_TABLE_FLAGS);
    hide IsTable, Addr;
    var e := page | PT_TABLE_FLAGS;
    var m' := AddTable(m, f, k, e, page as nat);
    assert m'[f] == m[f][k := e] && |m'[page as nat]| == 512;
  }

  lemma HungIs(m: Memory, f: nat, k: nat, page: bv64)
    requires HasFrame(m, f) && k < 512 && page as nat !in m
    ensures HasFrame(WithTable(m, f, k, page), f) && WithTable(m, f, k, page)[f][k] == page | PT_TABLE_FLAGS
  {
  }

  lemma HungChild(m: Memory, f: nat, k: nat, page: bv64, m': Memory)
    requires HasFrame(m, f) && k < 512 && Addr(page) == page && page as nat !in m && m' == WithTable(m, f, k, page)
    requires HasFrame(m', f)
    ensures Child(m'[f][k]) == page as nat
  {
    TableEntry(page, page | PT_TABLE_FLAGS);
    hide IsTable, Addr, FrameBits, WithTable;
    HungIs(m, f, k, page);
  }

  /** An absent entry that the recursion comes to is one it may write. */
  lemma AbsentWritable(c: Split, m: Memory, lv: map<nat, nat>, f: nat, k: nat)
    requires SplitOk(c) && Levels(c, m, lv) && Kept(c, m) && f in lv && f in c.base && k < 512 && !Present(m[f][k])
    requires (f == c.dir ==> k == c.first) && (f == c.table ==> k == c.second)
    ensures Writable(c, f, k)
  {
    hide IsTable, IsLarge, Present, Addr;
    EntryKind(c.base[c.dir][c.slot]);
    assert m[c.dir][c.slot] == m[c.dir][c.slot];
  }

  lemma HungKept(c: Split, m: Memory, m': Memory, f: nat, k: nat, n: nat)
    requires Kept(c, m) && Hung(m, m', f, k, n) && (f in c.base ==> Writable(c, f, k))
    ensures Kept(c, m')
  {
    hide IsTable, Addr, Writable;
    forall g, l | g in c.base && 0 <= l < |c.base[g]| && !Writable(c, g, l) ensures m'[g][l] == c.base[g][l] {
      assert m[g][l] == c.base[g][l];
    }
  }

  lemma HungLevels(c: Split, m: Memory, lv: map<nat, nat>, m': Memory, f: nat, k: nat, n: nat)
    requires SplitOk(c) && Levels(c, m, lv) && Hung(m, m', f, k, n) && f in lv && lv[f] > c.size &&
      c.base.Keys <= m.Keys
    ensures Levels(c, m', lv[n := lv[f] - 1]) && n !in lv
  {
    hide IsTable, Addr;
    assert n !in lv && |m'[n]| == 512;
  }

  lemma HungEntryOk(c: Split, m: Memory, lv: map<nat, nat>, m': Memory, f: nat, k: nat, n: nat, g: nat, l: nat)
    requires EntriesOk(c, m, lv) && Levels(c, m, lv) && Hung(m, m', f, k, n) && f in lv && lv[f] > c.size && n !in lv
    requires var lv' := lv[n := lv[f] - 1];
      g in lv' && lv'[g] > c.size && g in m' && l < |m'[g]| && (g == c.dir ==> l == c.first)
    ensures EntryOk(m', lv[n := lv[f] - 1], g, l)
  {
    hide IsTable, IsLarge, Present, Addr;
    ZeroEntry();
    if g == n {
      assert m'[g][l] == 0;
    } else if g != f || l != k {
      assert m'[g][l] == m[g][l] && EntryOk(m, lv, g, l);
    }
  }

  lemma HangGrown(c: Split, m: Memory, lv: map<nat, nat>, f: nat, k: nat, m': Memory, n: nat)
    requires SplitOk(c) && Grown(c, m, lv) && f in lv && lv[f] > c.size && Hung(m, m', f, k, n)
    requires (f == c.dir ==> k == c.first) && (f == c.table ==> k == c.second) && !Present(m[f][k])
    ensures Grown(c, m', lv[n := lv[f] - 1])
  {
    if f in c.base {
      AbsentWritable(c, m, lv, f, k);
    }
    HungKept(c, m, m', f, k, n);
    HungLevels(c, m, lv, m', f, k, n);
    var lv' := lv[n := lv[f] - 1];
    hide SplitOk, Levels, EntryOk, Kept, Hung;
    forall g, l | g in lv' && g in m' && lv'[g] > c.size && 0 <= l < |m'[g]| && (g == c.dir ==> l == c.first)
      ensures EntryOk(m', lv', g, l)
    {
      HungEntryOk(c, m, lv, m', f, k, n, g, l);
    }
  }

  lemma NextGrown(c: Split, s: Tables, lv: map<nat, nat>, f: nat, level: nat, va: bv64) returns (lv': map<nat, nat>)
    requires SplitOk(c) && Grown(c, s.mem, lv) && PoolOk(s.mem, s.pool) && |s.pool| > 0 && InOldPage(c, va)
    requires f in lv && lv[f] == level > c.size
    ensures NextTable(s, f, level, va).Some?
    ensures var (s', next) := NextTable(s, f, level, va).value;
      && Grown(c, s'.mem, lv') && PoolOk(s'.mem, s'.pool) && |s'.pool| >= |s.pool| - 1
      && next in lv' && lv'[next] == level - 1
  {
    hide IsTable, IsLarge, Present, FrameBits, Addr, IndexBits, WithTable, PoolOk;
    var k := Index(va, level);
    var e := EntryAt(s.mem, f, level, va);
    EntryKind(e);
    assert e == s.mem[f][k] && EntryOk(s.mem, lv, f, k);
    if IsTable(e) {
      lv' := lv;
    } else {
      var page := s.pool[0];
      PoolHead(s.mem, s.pool);
      lv' := lv[page as nat := level - 1];
      HungEntry(s.mem, f, k, page);
      HangGrown(c, s.mem, lv, f, k, WithTable(s.mem, f, k, page), page as nat);
      PoolTail(s.mem, s.pool, WithTable(s.mem, f, k, page));
    }
  }

  lemma Bounds(c: Split)
    requires SplitOk(c)
    ensures 4 <= c.depth <= 5 && 1 <= c.size <= 2
  {
    hide IsTable, Present, Addr;
  }

  lemma {:induction false} DescendGrown(c: Split, s: Tables, lv: map<nat, nat>, f: nat, level: nat, va: bv64)
      returns (lv': map<nat, nat>)
    requires SplitOk(c) && Grown(c, s.mem, lv) && PoolOk(s.mem, s.pool) && InOldPage(c, va)
    requires f in lv && lv[f] == level >= c.size && level <= c.depth && |s.pool| >= level - c.size
    ensures Descend(s, f, level, va, c.size).Some?
    ensures var (s', table) := Descend(s, f, level, va, c.size).value;
      && Grown(c, s'.mem, lv') && PoolOk(s'.mem, s'.pool) && |s'.pool| >= |s.pool| - (level - c.size)
      && table in lv' && lv'[table] == c.size
    decreases level
  {
    hide Grown, SplitOk, PoolOk, NextTable, InOldPage;
    Bounds(c);
    lv' := lv;
    if level > c.size {
      lv' := NextGrown(c, s, lv, f, level, va);
      var (s', next) := NextTable(s, f, level, va).value;
      lv' := DescendGrown(c, s', lv', next, level - 1, va);
    }
  }

  lemma LeafGrown(c: Split, m: Memory, lv: map<nat, nat>, f: nat, k: nat, e: bv64)
    requires SplitOk(c) && Grown(c, m, lv) && f in lv && lv[f] == c.size && k < 512
    ensures HasFrame(m, f) && Grown(c, SetEntry(m, f, k, e), lv) && SetEntry(m, f, k, e).Keys == m.Keys
  {
    hide IsTable, IsLarge, Present, FrameBits, Addr, IndexBits;
    var m' := SetEntry(m, f, k, e);
    assert f !in c.base;
    forall g, l | g in lv && lv[g] > c.size && 0 <= l < |m'[g]| && (g == c.dir ==> l == c.first)
      ensures EntryOk(m', lv, g, l)
    {
      assert m'[g] == m[g] && EntryOk(m, lv, g, l);
    }
  }

  lemma MapGrown(c: Split, s: Tables, lv: map<nat, nat>, va: bv64, pa: bv64, flags: bv64) returns (lv': map<nat, nat>)
    requires SplitOk(c) && Grown(c, s.mem, lv) && PoolOk(s.mem, s.pool) && InOldPage(c, va) && |s.pool| >= 4
    ensures MapFrom(s, c.dir, c.depth, va, pa, flags, c.size).Some?
    ensures var s' := MapFrom(s, c.dir, c.depth, va, pa, flags, c.size).value;
      Grown(c, s'.mem, lv') && PoolOk(s'.mem, s'.pool) && |s'.pool| >= |s.pool| - 4
  {
    hide IsTable, IsLarge, Present, FrameBits, Addr, IndexBits, Descend, EntriesOk, Kept;
    lv' := DescendGrown(c, s, lv, c.dir, c.depth, va);
    var (s', table) := Descend(s, c.dir, c.depth, va, c.size).value;
    LeafGrown(c, s'.mem, lv', table, Index(va, c.size), MakeEntry(pa, flags | PT_FLAG_VALID, c.size));
  }

  // ---------- what the walk finds afterwards ----------

  /** A walk that comes to a table with no entry for the address ends there. */
  lemma {:induction false} LostWalk(mem: Memory, paths: map<nat, seq<nat>>, root: nat, depth: nat, m: Memory,
                                    g: nat, l: nat, va: bv64, dir: nat, level: nat)
    requires Tree(mem, paths, root, depth) && 2 <= level <= l <= depth <= 5 && g in mem
    requires paths[g] == Path(va, depth, l) && Reaches(mem, g, l, va, dir, level)
    requires forall f :: f in mem && f != dir ==> f in m && m[f] == mem[f]
    requires dir in paths && |paths[dir]| == depth - level
    requires Walk(m, dir, level, va) == None
    ensures Walk(m, g, l, va) == None
    decreases l
  {
    hide IsTable, IsLarge, Present, FrameBits, Addr, IndexBits;
    if g != dir {
      var e := EntryAt(mem, g, l, va);
      assert HasFrame(m, g) && EntryAt(m, g, l, va) == e;
      EntryKind(e);
      ChildOnPath(mem, paths, root, depth, g, l, va);
      LostWalk(mem, paths, root, depth, m, Child(e), l - 1, va, dir, level);
    }
  }

  lemma LostBelow(m: Memory, dir: nat, level: nat, va: bv64, table: nat)
    requires 2 <= level <= 5 && HasFrame(m, dir) && HasFrame(m, table)
    requires IsTable(EntryAt(m, dir, level, va)) && Child(EntryAt(m, dir, level, va)) == table
    requires EntryAt(m, table, level - 1, va) == 0
    ensures Walk(m, dir, level, va) == None
  {
    hide IsTable, IsLarge, Present, FrameBits, Addr, IndexBits;
    EntryKind(EntryAt(m, dir, level, va));
    ZeroEntry();
  }

  // ---------- the parts of the old page ----------

  /** Frames enough for the parts of the `rest` bytes, whatever tables they need. */
  ghost function FramesFor(rest: bv64, size: nat): nat
    decreases rest
  {
    if size == 1 && rest >= 0x1000 then 4 + FramesFor(rest - 0x1000, size)
    else if size == 2 && rest >= 0x20_0000 then 4 + FramesFor(rest - 0x20_0000, size)
    else 0
  }

  /** Distances that the loop goes through. */
  predicate CursorOk(i: bv64, level: nat, size: nat)
    requires 1 <= size < level <= 3
  {
    i & OffsetMask(size) == 0 && i <= Span(level)
  }

  lemma FramesStep(rest: bv64, rest': bv64, size: nat)
    requires 1 <= size <= 2
    requires if size == 1 then 0x1000 <= rest && rest' == rest - 0x1000
      else 0x20_0000 <= rest && rest' == rest - 0x20_0000
    ensures FramesFor(rest, size) == 4 + FramesFor(rest', size)
  {
  }

  lemma Cursor21(i: bv64)
    requires i & 0xFFF == 0 && i < 0x20_0000
    ensures i + 0x1000 <= 0x20_0000 && (i + 0x1000) & 0xFFF == 0
    ensures 0x1000 <= 0x20_0000 - i
    ensures 0x20_0000 - (i + 0x1000) == 0x20_0000 - i - 0x1000
  {
  }

  lemma Cursor31(i: bv64)
    requires i & 0xFFF == 0 && i < 0x4000_0000
    ensures i + 0x1000 <= 0x4000_0000 && (i + 0x1000) & 0xFFF == 0
    ensures 0x1000 <= 0x4000_0000 - i
    ensures 0x4000_0000 - (i + 0x1000) == 0x4000_0000 - i - 0x1000
  {
  }

  lemma Cursor32(i: bv64)
    requires i & 0x1F_FFFF == 0 && i < 0x4000_0000
    ensures i + 0x20_0000 <= 0x4000_0000 && (i + 0x20_0000) & 0x1F_FFFF == 0
    ensures 0x20_0000 <= 0x4000_0000 - i
    ensures 0x4000_0000 - (i + 0x20_0000) == 0x4000_0000 - i - 0x20_0000
  {
  }

  function NextPart(i: bv64, size: nat): bv64
    requires 1 <= size <= 3
  {
    i + Span(size)
  }

  /** The bytes of the old page from distance `i` on. */
  function Rest(i: bv64, level: nat): bv64
    requires 1 <= level <= 3
  {
    Span(level) - i
  }

  lemma NextIs1(i: bv64)
    ensures NextPart(i, 1) == i + 0x1000
  {
  }

  lemma NextIs2(i: bv64)
    ensures NextPart(i, 2) == i + 0x20_0000
  {
  }

  lemma RestIs2(i: bv64)
    ensures Rest(i, 2) == 0x20_0000 - i
  {
  }

  lemma RestIs3(i: bv64)
    ensures Rest(i, 3) == 0x4000_0000 - i
  {
  }

  lemma CursorNext21(i: bv64)
    requires i & 0xFFF == 0 && i < 0x20_0000
    ensures CursorOk(NextPart(i, 1), 2, 1)
  {
    hide NextPart;
    NextIs1(i);
    Cursor21(i);
  }

  lemma FramesNext21(i: bv64)
    requires i & 0xFFF == 0 && i < 0x20_0000
    ensures FramesFor(Rest(i, 2), 1) == 4 + FramesFor(Rest(NextPart(i, 1), 2), 1)
  {
    hide FramesFor, NextPart, Rest;
    NextIs1(i);
    RestIs2(i);
    RestIs2(NextPart(i, 1));
    Cursor21(i);
    FramesStep(Rest(i, 2), Rest(NextPart(i, 1), 2), 1);
  }

  lemma CursorNext31(i: bv64)
    requires i & 0xFFF == 0 && i < 0x4000_0000
    ensures CursorOk(NextPart(i, 1), 3, 1)
  {
    hide NextPart;
    NextIs1(i);
    Cursor31(i);
  }

  lemma FramesNext31(i: bv64)
    requires i & 0xFFF == 0 && i < 0x4000_0000
    ensures FramesFor(Rest(i, 3), 1) == 4 + FramesFor(Rest(NextPart(i, 1), 3), 1)
  {
    hide FramesFor, NextPart, Rest;
    NextIs1(i);
    RestIs3(i);
    RestIs3(NextPart(i, 1));
    Cursor31(i);
    FramesStep(Rest(i, 3), Rest(NextPart(i, 1), 3), 1);
  }

  lemma CursorNext32(i: bv64)
    requires i & 0x1F_FFFF == 0 && i < 0x4000_0000
    ensures CursorOk(NextPart(i, 2), 3, 2)
  {
    hide NextPart;
    NextIs2(i);
    Cursor32(i);
  }

  lemma FramesNext32(i: bv64)
    requires i & 0x1F_FFFF == 0 && i < 0x4000_0000
    ensures FramesFor(Rest(i, 3), 2) == 4 + FramesFor(Rest(NextPart(i, 2), 3), 2)
  {
    hide FramesFor, NextPart, Rest;
    NextIs2(i);
    RestIs3(i);
    RestIs3(NextPart(i, 2));
    Cursor32(i);
    FramesStep(Rest(i, 3), Rest(NextPart(i, 2), 3), 2);
  }

  lemma CursorStep(i: bv64, level: nat, size: nat)
    requires 1 <= size < level <= 3 && CursorOk(i, level, size) && i < Span(level)
    ensures CursorOk(NextPart(i, size), level, size)
    ensures FramesFor(Rest(i, level), size) == 4 + FramesFor(Rest(NextPart(i, size), level), size)
  {
    hide FramesFor, NextPart, Rest;
    if level == 2 {
      CursorNext21(i);
      FramesNext21(i);
    } else if size == 1 {
      CursorNext31(i);
      FramesNext31(i);
    } else {
      CursorNext32(i);
      FramesNext32(i);
    }
  }

  lemma CursorStart(level: nat, size: nat)
    requires 1 <= size < level <= 3
    ensures CursorOk(0, level, size) && Rest(0, level) == Span(level)
  {
  }

  /** The address of the part at distance `i`. */
  function PartOf(va: bv64, i: bv64, level: nat): bv64
    requires 2 <= level <= 3
  {
    match level
    case 2 => (va & !0x1F_FFFF) + i
    case 3 => (va & !0x3FFF_FFFF) + i
  }

  lemma High2(va: bv64, i: bv64, x: bv64)
    requires i < 0x20_0000 && x == (va & !0x1F_FFFF) + i
    ensures x & !0x3FFF_FFFF == va & !0x3FFF_FFFF
  {
    assert x & !0x1F_FFFF == va & !0x1F_FFFF;
  }

  lemma High3(va: bv64, i: bv64, x: bv64)
    requires i < 0x4000_0000 && x == (va & !0x3FFF_FFFF) + i
    ensures x & !0x3FFF_FFFF == va & !0x3FFF_FFFF
  {
  }

  lemma HighIndices(va: bv64, x: bv64)
    requires x & !0x3FFF_FFFF == va & !0x3FFF_FFFF
    ensures x & (0x1FF << 30) == va & (0x1FF << 30) && x & (0x1FF << 39) == va & (0x1FF << 39)
    ensures x & (0x1FF << 48) == va & (0x1FF << 48)
  {
  }

  lemma PartDistance2(va: bv64, i: bv64, x: bv64)
    requires i < 0x20_0000 && x == (va & !0x1F_FFFF) + i
    ensures x & 0x1F_FFFF == i && x & !0x1F_FFFF == va & !0x1F_FFFF
  {
  }

  lemma PartDistance3(va: bv64, i: bv64, x: bv64)
    requires i < 0x4000_0000 && x == (va & !0x3FFF_FFFF) + i
    ensures x & 0x3FFF_FFFF == i && x & !0x3FFF_FFFF == va & !0x3FFF_FFFF
  {
  }

  /** The part at distance `i` lies that far into the old page. */
  lemma PartPlace2(va: bv64, i: bv64)
    requires i < 0x20_0000
    ensures PartOf(va, i, 2) & 0x1F_FFFF == i && PartOf(va, i, 2) & !0x1F_FFFF == va & !0x1F_FFFF
  {
    hide PartOf;
    PartIs2(va, i);
    PartDistance2(va, i, PartOf(va, i, 2));
  }

  lemma PartPlace3(va: bv64, i: bv64)
    requires i < 0x4000_0000
    ensures PartOf(va, i, 3) & 0x3FFF_FFFF == i && PartOf(va, i, 3) & !0x3FFF_FFFF == va & !0x3FFF_FFFF
  {
    hide PartOf;
    PartIs3(va, i);
    PartDistance3(va, i, PartOf(va, i, 3));
  }

  /** The parts keep only the right to write and the bar on execution. */
  lemma KeptBits(e: bv64)
    ensures EntryRights(KeptFlags(e)) == Rights(e & 0x2 != 0, false, e & 0x8000_0000_0000_0000 != 0)
    ensures KeptFlags(e) & 0x7FFF_FFFF_FFFF_FFFD == 0
  {
  }

  lemma HighIndex(va: bv64, x: bv64, l: nat)
    requires x & !0x3FFF_FFFF == va & !0x3FFF_FFFF && 3 <= l <= 5
    ensures Index(x, l) == Index(va, l)
  {
    HighIndices(va, x);
  }

  lemma PartHigh(va: bv64, i: bv64, level: nat)
    requires 2 <= level <= 3 && i < Span(level)
    ensures PartOf(va, i, level) & !0x3FFF_FFFF == va & !0x3FFF_FFFF
  {
    hide PartOf;
    if level == 2 {
      PartHigh2(va, i);
    } else {
      PartHigh3(va, i);
    }
  }

  lemma PartIs2(va: bv64, i: bv64)
    ensures PartOf(va, i, 2) == (va & !0x1F_FFFF) + i
  {
  }

  lemma PartIs3(va: bv64, i: bv64)
    ensures PartOf(va, i, 3) == (va & !0x3FFF_FFFF) + i
  {
  }

  lemma PartHigh2(va: bv64, i: bv64)
    requires i < 0x20_0000
    ensures PartOf(va, i, 2) & !0x3FFF_FFFF == va & !0x3FFF_FFFF
  {
    hide PartOf;
    PartIs2(va, i);
    High2(va, i, PartOf(va, i, 2));
  }

  lemma PartHigh3(va: bv64, i: bv64)
    requires i < 0x4000_0000
    ensures PartOf(va, i, 3) & !0x3FFF_FFFF == va & !0x3FFF_FFFF
  {
    hide PartOf;
    PartIs3(va, i);
    High3(va, i, PartOf(va, i, 3));
  }

  /** All parts have the old page's indices at level 3 and above. */
  lemma PartIndex(va: bv64, i: bv64, level: nat, l: nat)
    requires 2 <= level <= 3 && i < Span(level) && 3 <= l <= 5
    ensures Index(PartOf(va, i, level), l) == Index(va, l)
  {
    hide PartOf, Span, IndexBits;
    PartHigh(va, i, level);
    HighIndex(va, PartOf(va, i, level), l);
  }

  // ---------- the split ----------

  /** The descent along `va` has come to a large page in frame `dir`. */
  ghost predicate LargeAt(s: Tables, paths: map<nat, seq<nat>>, root: nat, depth: nat, dir: nat, level: nat, va: bv64) {
    && 4 <= depth <= 5 && 2 <= level <= 3 && Tree(s.mem, paths, root, depth) && PoolOk(s.mem, s.pool)
    && Reaches(s.mem, root, depth, va, dir, level) && HasFrame(s.mem, dir) && IsLarge(EntryAt(s.mem, dir, level, va))
  }

  /** Read as a root, the table sends the parts into the new table or to an absent entry. */
  predicate FreshStart(s: Tables, depth: nat, dir: nat, level: nat, va: bv64)
    requires 4 <= depth <= 5 && 2 <= level <= 3 && HasFrame(s.mem, dir)
  {
    Index(va, depth) == Index(va, level) || !Present(EntryAt(s.mem, dir, depth, va))
  }

  /** The addresses that the split may still translate. */
  predicate MaySurvive(va: bv64, va': bv64, depth: nat, level: nat)
    requires 4 <= depth <= 5 && 2 <= level <= 3
  {
    Index(va, depth) == Index(va, level) && Index(va', level - 1) == Index(va, depth - 1)
  }

  /** The entry's address has bits below the size of its page, as the PAT bit is one. */
  predicate OddAddress(e: bv64, level: nat)
    requires 1 <= level <= 3
  {
    Addr(e) & OffsetMask(level) != 0
  }

  lemma OddBits(e: bv64)
    ensures OddAddress(e, 2) <==> e & 0x1F_F000 != 0
    ensures OddAddress(e, 3) <==> e & 0x3FFF_F000 != 0
  {
  }

  /** The arm that splits a large page. It panics exactly when the entry's address has bits below the old page's
      size, such as the PAT bit; otherwise the addresses of the old page are lost, all of them, or all but one in 512.
      So it never keeps the view of memory, which the other two arms always keep. */
  method SplitLarge(s: Tables, ghost paths: map<nat, seq<nat>>, ghost root: nat, depth: nat, dir: nat, level: nat,
                    va: bv64, size: nat) returns (r: Option<Tables>)
    requires LargeAt(s, paths, root, depth, dir, level, va) && 1 <= size < level && FreshStart(s, depth, dir, level, va)
    requires |s.pool| > FramesFor(Span(level), size)
    ensures r.Some? ==> !SameView(s.mem, r.value.mem, root, depth)
    ensures r.None? <==> OddAddress(EntryAt(s.mem, dir, level, va), level)
    ensures r.Some? ==> forall va' :: SamePage(va, va', depth, level) ==>
              && Walk(s.mem, root, depth, va').Some?
              && (MaySurvive(va, va', depth, level) || Walk(r.value.mem, root, depth, va') == None)
  {
    hide Tree, Reaches, IsLarge, IsTable, Present, PoolOk, Levels, Kept, EntriesOk, SplitOk, IndexBits, Span, Walk;
    hide OddAddress, SamePage, MaySurvive, SameView, FramesFor, WithTable, FreshStart;
    var slot := Index(va, level);
    var large := s.mem[dir][slot];
    if OddAddress(large, level) {
      return None;
    }
    var t := Tables(WithTable(s.mem, dir, slot, s.pool[0]), s.pool[1..]);
    ghost var c, lv := SplitStart(s, paths, root, depth, dir, level, va, size);
    t, lv := MapParts(c, lv, t, depth, dir, level, va, large, size);
    SplitLoses(s, paths, root, depth, dir, level, va, c, t.mem);
    SomethingLost(s.mem, t.mem, root, depth, va, level);
    return Some(t);
  }

  /** Maps the parts of the old page, with frame `dir` for the root. */
  method MapParts(ghost c: Split, ghost lv: map<nat, nat>, s: Tables, depth: nat, dir: nat, level: nat, va: bv64,
                  large: bv64, size: nat) returns (t: Tables, ghost lv': map<nat, nat>)
    requires SplitOk(c) && Grown(c, s.mem, lv) && PoolOk(s.mem, s.pool) && 2 <= level <= 3 && 1 <= size < level
    requires c.depth == depth && c.dir == dir && c.size == size && InOldPage(c, va)
    requires |s.pool| >= FramesFor(Span(level), size)
    ensures Grown(c, t.mem, lv') && PoolOk(t.mem, t.pool)
  {
    hide Levels, Kept, EntriesOk, SplitOk, IndexBits, Span;
    hide PartOf, CursorOk, Rest, NextPart, FramesFor, MapFrom, Addr;
    t, lv' := s, lv;
    var i: bv64 := 0;
    CursorStart(level, size);
    Bounds(c);
    while i < Span(level)
      invariant CursorOk(i, level, size) && Grown(c, t.mem, lv') && PoolOk(t.mem, t.pool)
      invariant |t.pool| >= FramesFor(Rest(i, level), size)
      decreases FramesFor(Rest(i, level), size)
    {
      CursorStep(i, level, size);
      PartIndex(va, i, level, depth);
      PartIndex(va, i, level, depth - 1);
      ghost var lv2 := MapGrown(c, t, lv', PartOf(va, i, level), Addr(large) + i, KeptFlags(large));
      t := MapFrom(t, dir, depth, PartOf(va, i, level), Addr(large) + i, KeptFlags(large), size).value;
      lv' := lv2;
      i := NextPart(i, size);
    }
  }

  lemma FlipSmall(va: bv64, x: bv64)
    requires x == va ^ 0x1000
    ensures IndexBits(x, 1) != IndexBits(va, 1) && Clear(va ^ x, 0x01FF_FFFF_FFE0_0000)
    ensures Clear(va ^ x, 0x0000_FFFF_FFE0_0000)
  {
  }

  lemma FlipMiddle(va: bv64, x: bv64)
    requires x == va ^ 0x20_0000
    ensures IndexBits(x, 2) != IndexBits(va, 2) && Clear(va ^ x, 0x01FF_FFFF_C000_0000)
    ensures Clear(va ^ x, 0x0000_FFFF_C000_0000)
  {
  }

  /** Another address in the page, with another index one level down. */
  lemma Neighbour(va: bv64, depth: nat, level: nat) returns (x: bv64)
    requires 4 <= depth <= 5 && 2 <= level <= 3
    ensures SamePage(va, x, depth, level) && Index(x, level - 1) != Index(va, level - 1)
  {
    hide IndexBits, SamePage, Clear;
    if level == 2 {
      x := va ^ 0x1000;
      FlipSmall(va, x);
    } else {
      x := va ^ 0x20_0000;
      FlipMiddle(va, x);
    }
    SameNumber(IndexBits(x, level - 1), IndexBits(va, level - 1));
    Slots4(va, x);
    Slots5(va, x);
  }

  /** Every page holds an address that cannot survive: a split never keeps all translations. */
  lemma SomethingLost(mem: Memory, m: Memory, root: nat, depth: nat, va: bv64, level: nat)
    requires 4 <= depth <= 5 && 2 <= level <= 3
    requires forall va' :: SamePage(va, va', depth, level) ==>
               && Walk(mem, root, depth, va').Some?
               && (MaySurvive(va, va', depth, level) || Walk(m, root, depth, va') == None)
    ensures !SameView(mem, m, root, depth)
  {
    hide IndexBits, SamePage, Walk, ClearPath;
    PageOfItself(va, depth, level);
    var x := Neighbour(va, depth, level);
    assert !MaySurvive(va, va, depth, level) || !MaySurvive(va, x, depth, level);
  }

  /** The split that begins with the new table hung in place of the large page. */
  lemma SplitStart(s: Tables, paths: map<nat, seq<nat>>, root: nat, depth: nat, dir: nat, level: nat, va: bv64,
                   size: nat)
      returns (c: Split, lv: map<nat, nat>)
    requires LargeAt(s, paths, root, depth, dir, level, va) && 1 <= size < level && FreshStart(s, depth, dir, level, va)
    requires |s.pool| > 0
    ensures c == Split(WithTable(s.mem, dir, Index(va, level), s.pool[0]), dir, s.pool[0] as nat, Index(va, level),
                       Index(va, depth), Index(va, depth - 1), depth, size)
    ensures SplitOk(c) && Grown(c, c.base, lv) && PoolOk(c.base, s.pool[1..])
  {
    hide IsLarge, Addr, IndexBits;
    var page := s.pool[0];
    PoolHead(s.mem, s.pool);
    HungEntry(s.mem, dir, Index(va, level), page);
    PoolTail(s.mem, s.pool, WithTable(s.mem, dir, Index(va, level), page));
    c := Split(WithTable(s.mem, dir, Index(va, level), page), dir, page as nat, Index(va, level),
      Index(va, depth), Index(va, depth - 1), depth, size);
    StartGrown(c);
    lv := StartLevels(c);
  }

  lemma SplitLoses(s: Tables, paths: map<nat, seq<nat>>, root: nat, depth: nat, dir: nat, level: nat, va: bv64,
                   c: Split, m: Memory)
    requires LargeAt(s, paths, root, depth, dir, level, va) && |s.pool| > 0 && SplitOk(c) && Kept(c, m)
    requires c.base == WithTable(s.mem, dir, Index(va, level), s.pool[0]) && c.dir == dir && c.table == s.pool[0] as nat
    requires c.slot == Index(va, level) && c.first == Index(va, depth) && c.second == Index(va, depth - 1) &&
      c.depth == depth
    ensures forall va' :: SamePage(va, va', depth, level) ==>
              && Walk(s.mem, root, depth, va').Some?
              && (MaySurvive(va, va', depth, level) || Walk(m, root, depth, va') == None)
  {
    forall va' | SamePage(va, va', depth, level)
      ensures Walk(s.mem, root, depth, va').Some?
      ensures MaySurvive(va, va', depth, level) || Walk(m, root, depth, va') == None
    {
      SplitLosesOne(s, paths, root, depth, dir, level, va, c, m, va');
    }
  }

  lemma SplitLosesOne(s: Tables, paths: map<nat, seq<nat>>, root: nat, depth: nat, dir: nat, level: nat, va: bv64,
                      c: Split, m: Memory, va': bv64)
    requires LargeAt(s, paths, root, depth, dir, level, va) && |s.pool| > 0 && SplitOk(c) && Kept(c, m)
    requires c.base == WithTable(s.mem, dir, Index(va, level), s.pool[0]) && c.dir == dir && c.table == s.pool[0] as nat
    requires c.slot == Index(va, level) && c.first == Index(va, depth) && c.second == Index(va, depth - 1) &&
      c.depth == depth
    requires SamePage(va, va', depth, level)
    ensures Walk(s.mem, root, depth, va').Some?
    ensures MaySurvive(va, va', depth, level) || Walk(m, root, depth, va') == None
  {
    hide IsTable, IsLarge, Present, FrameBits, Addr, IndexBits, SamePage, Walk;
    PageIndex(va, va', depth, level);
    WalkThrough(s.mem, paths, root, depth, root, depth, va, dir, level, va');
    LargeWalks(s.mem, dir, level, va');
    if !MaySurvive(va, va', depth, level) {
      KeptAbsent(c, m, level, va');
      PoolHead(s.mem, s.pool);
      HungEntry(s.mem, dir, c.slot, s.pool[0]);
      HungChild(s.mem, dir, c.slot, s.pool[0], c.base);
      LostBelow(m, dir, level, va', c.table);
      forall f | f in s.mem && f != dir ensures f in m && m[f] == s.mem[f] {
        assert f in c.base && f != c.table;
        KeptFrame(c, m, f);
      }
      LostWalk(s.mem, paths, root, depth, m, root, depth, va', dir, level);
    }
  }

  lemma KeptFrame(c: Split, m: Memory, f: nat)
    requires Kept(c, m) && f in c.base && f != c.dir && f != c.table
    ensures f in m && m[f] == c.base[f]
  {
    forall k | 0 <= k < |c.base[f]| ensures m[f][k] == c.base[f][k] {
      assert !Writable(c, f, k);
    }
  }

  lemma LargeWalks(mem: Memory, dir: nat, level: nat, va: bv64)
    requires 2 <= level <= 3 && HasFrame(mem, dir) && IsLarge(EntryAt(mem, dir, level, va))
    ensures Walk(mem, dir, level, va).Some?
  {
    hide FrameBits, Addr, IndexBits;
    EntryKind(EntryAt(mem, dir, level, va));
    hide IsTable, IsLarge, Present;
  }

  /** The new table's entry for an address that cannot survive is still absent, and the table still in place. */
  lemma KeptAbsent(c: Split, m: Memory, level: nat, va: bv64)
    requires SplitOk(c) && Kept(c, m) && 2 <= level <= 3 && Index(va, level) == c.slot
    requires !(c.first == c.slot && Index(va, level - 1) == c.second)
    ensures HasFrame(m, c.dir) && HasFrame(m, c.table)
    ensures EntryAt(m, c.dir, level, va) == c.base[c.dir][c.slot] && EntryAt(m, c.table, level - 1, va) == 0
  {
    hide IsTable, Present, Addr, IndexBits;
    assert m[c.dir][c.slot] == c.base[c.dir][c.slot];
    assert m[c.table][Index(va, level - 1)] == c.base[c.table][Index(va, level - 1)];
  }
}
