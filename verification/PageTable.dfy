/** Page tables in physical memory and the walk the processor makes through them, for four and five levels. */
module PageTable {
  import opened Outcomes

  import opened PageEntry

  /** Rights are the weakest along the walk. */
  function Restrict(e: bv64, leaf: Leaf): Leaf {
    var r := EntryRights(e);
    leaf.(rights := Rights(leaf.rights.write && r.write, leaf.rights.user && r.user, leaf.rights.noExec || r.noExec))
  }

  // ---------- the walk ----------

  /** Physical memory that holds tables: frames of 512 entries, by physical address. */
  type Memory = map<nat, seq<bv64>>

  /** The frame the processor goes to from a table entry. */
  function Child(e: bv64): nat {
    FrameBits(e) as nat
  }

  predicate HasFrame(mem: Memory, f: nat) {
    f in mem && |mem[f]| == 512
  }

  /** Translates `va` from the table in frame `f`; `None` is a page fault. */
  function Walk(mem: Memory, f: nat, level: nat, va: bv64): Option<Leaf>
    requires 1 <= level <= 5
    decreases level
  {
    if !HasFrame(mem, f) then None
    else
      var e := mem[f][Index(va, level)];
      if !Present(e) then None
      else if level == 1 then Some(LeafOf(e, 1, va))
      else if IsLarge(e) then if level <= 3 then Some(LeafOf(e, level, va)) else None
      else match Walk(mem, Child(e), level - 1, va)
        case None => None
        case Some(leaf) => Some(Restrict(e, leaf))
  }

  // ---------- the tree of tables ----------

  /** The indices of `va` from level `depth` down to the level above `level`. */
  function Path(va: bv64, depth: nat, level: nat): (p: seq<nat>)
    requires level <= depth <= 5
    ensures |p| == depth - level
    decreases depth - level
  {
    if level == depth then [] else Path(va, depth, level + 1) + [Index(va, level + 1)]
  }

  ghost predicate TableEntryOk(mem: Memory, paths: map<nat, seq<nat>>, f: nat, i: nat)
    requires f in mem && f in paths && i < |mem[f]|
  {
    var e := mem[f][i];
    && Addr(e) == FrameBits(e) && Child(e) in mem && Child(e) in paths && paths[Child(e)] == paths[f] + [i]
    && EntryRights(e) == ALL_RIGHTS
  }

  /** Every table knows its place: `paths` gives the indices that lead to it, so no table hangs under two
      entries, and the entries that lead to tables take no rights away. */
  ghost predicate Tree(mem: Memory, paths: map<nat, seq<nat>>, root: nat, depth: nat) {
    && root in mem && root in paths && paths[root] == []
    && (forall f :: f in mem ==> f in paths && |mem[f]| == 512 && |paths[f]| < depth)
    && (forall f, i {:trigger mem[f][i]} :: f in mem && 0 <= i < 512 && |paths[f]| < depth - 1 && IsTable(mem[f][i]) ==>
          TableEntryOk(mem, paths, f, i))
  }

  /** The walk of `va` from frame `g` at `level` goes through frame `f` at `level'`. */
  ghost predicate Reaches(mem: Memory, g: nat, level: nat, va: bv64, f: nat, level': nat)
    requires 1 <= level' <= level <= 5
    decreases level
  {
    if level == level' then g == f
    else HasFrame(mem, g) && IsTable(mem[g][Index(va, level)]) && 
         Reaches(mem, Child(mem[g][Index(va, level)]), level - 1, va, f, level')
  }

  /** The descent along `va` to the table of level `to` meets no large page. */
  predicate ClearPath(mem: Memory, g: nat, level: nat, va: bv64, to: nat)
    requires 1 <= to <= level <= 5
    decreases level
  {
    to < level && HasFrame(mem, g) ==>
      var e := mem[g][Index(va, level)];
      !IsLarge(e) && (IsTable(e) ==> ClearPath(mem, Child(e), level - 1, va, to))
  }

  predicate OnPath(p: seq<nat>, va: bv64, depth: nat)
    requires depth <= 5
  {
    |p| <= depth && p == Path(va, depth, depth - |p|)
  }

  lemma NextOnPath(p: seq<nat>, va: bv64, depth: nat, level: nat)
    requires 1 <= level <= depth <= 5 && p == Path(va, depth, level)
    ensures p + [Index(va, level)] == Path(va, depth, level - 1) && OnPath(p + [Index(va, level)], va, depth)
  {
    hide IsTable, IsLarge, Present, FrameBits, Addr, IndexBits;
  }

  /** The memory after writing entry `i` of frame `f`. */
  function SetEntry(mem: Memory, f: nat, i: nat, e: bv64): Memory
    requires f in mem && i < |mem[f]|
  {
    mem[f := mem[f][i := e]]
  }

  function ZeroFrame(): seq<bv64> {
    seq(512, i => 0)
  }

  // ---------- writes off the path of an address ----------

  /** The entry that the walk of `va` reads in frame `g`. */
  function EntryAt(mem: Memory, g: nat, level: nat, va: bv64): bv64
    requires 1 <= level <= 5 && HasFrame(mem, g)
  {
    mem[g][Index(va, level)]
  }

  lemma EntryUntouched(mem: Memory, paths: map<nat, seq<nat>>, depth: nat, f: nat, i: nat, e: bv64, g: nat, level: nat,
                       va: bv64)
    requires 1 <= level <= depth <= 5 && HasFrame(mem, g) && HasFrame(mem, f) && g in paths && f in paths
    requires paths[g] == Path(va, depth, level) && i < 512 && !OnPath(paths[f] + [i], va, depth)
    ensures HasFrame(SetEntry(mem, f, i, e), g)
    ensures EntryAt(SetEntry(mem, f, i, e), g, level, va) == EntryAt(mem, g, level, va)
  {
    hide IsTable, IsLarge, Present, FrameBits, Addr, IndexBits;
    NextOnPath(paths[g], va, depth, level);
  }

  /** The table that the walk of `va` reaches next stands where the path of `va` says. */
  lemma ChildOnPath(mem: Memory, paths: map<nat, seq<nat>>, root: nat, depth: nat, g: nat, level: nat, va: bv64)
    requires Tree(mem, paths, root, depth) && 2 <= level <= depth <= 5
    requires g in mem && paths[g] == Path(va, depth, level) && IsTable(EntryAt(mem, g, level, va))
    ensures var c := Child(EntryAt(mem, g, level, va));
      c in mem && paths[c] == Path(va, depth, level - 1)
    ensures EntryRights(EntryAt(mem, g, level, va)) == ALL_RIGHTS
  {
    hide IsTable, IsLarge, Present, FrameBits, Addr, IndexBits;
    NextOnPath(paths[g], va, depth, level);
    assert TableEntryOk(mem, paths, g, Index(va, level));
  }

  /** Two memories that agree on an entry, and on everything below it, agree on the walk. */
  lemma SameStep(mem: Memory, mem': Memory, g: nat, level: nat, va: bv64, to: nat)
    requires 1 <= to <= level <= 5 && HasFrame(mem, g) && HasFrame(mem', g)
    requires EntryAt(mem', g, level, va) == EntryAt(mem, g, level, va)
    requires var e := EntryAt(mem, g, level, va);
      level > 1 && IsTable(e) ==>
        && Walk(mem', Child(e), level - 1, va) == Walk(mem, Child(e), level - 1, va)
        && (to < level && ClearPath(mem, Child(e), level - 1, va, to) ==> ClearPath(mem', Child(e), level - 1, va, to))
    ensures Walk(mem', g, level, va) == Walk(mem, g, level, va)
    ensures ClearPath(mem, g, level, va, to) ==> ClearPath(mem', g, level, va, to)
  {
    hide IsTable, IsLarge, Present, FrameBits, Addr, IndexBits;
    EntryKind(EntryAt(mem, g, level, va));
  }

  /** Writing an entry that is not on the path of `va` leaves its walk alone, and its descent clear. */
  lemma {:induction false} WriteElsewhere(mem: Memory, paths: map<nat, seq<nat>>, root: nat, depth: nat,
                                          f: nat, i: nat, e: bv64, g: nat, level: nat, va: bv64, to: nat)
    requires Tree(mem, paths, root, depth) && 1 <= to <= level <= depth <= 5
    requires g in mem && paths[g] == Path(va, depth, level)
    requires f in mem && i < 512 && !OnPath(paths[f] + [i], va, depth)
    ensures Walk(SetEntry(mem, f, i, e), g, level, va) == Walk(mem, g, level, va)
    ensures ClearPath(mem, g, level, va, to) ==> ClearPath(SetEntry(mem, f, i, e), g, level, va, to)
    decreases level
  {
    hide IsTable, IsLarge, Present, FrameBits, Addr, IndexBits;
    EntryUntouched(mem, paths, depth, f, i, e, g, level, va);
    var before := EntryAt(mem, g, level, va);
    if IsTable(before) && level > 1 {
      ChildOnPath(mem, paths, root, depth, g, level, va);
      var below := if to < level then to else level - 1;
      WriteElsewhere(mem, paths, root, depth, f, i, e, Child(before), level - 1, va, below);
    }
    SameStep(mem, SetEntry(mem, f, i, e), g, level, va, to);
  }

  // ---------- descending ----------

  lemma WalkStep(mem: Memory, g: nat, level: nat, va: bv64)
    requires 2 <= level <= 5 && HasFrame(mem, g) && IsTable(EntryAt(mem, g, level, va))
    requires EntryRights(EntryAt(mem, g, level, va)) == ALL_RIGHTS
    ensures Walk(mem, g, level, va) == Walk(mem, Child(EntryAt(mem, g, level, va)), level - 1, va)
  {
    hide IsTable, IsLarge, Present, FrameBits, Addr, IndexBits;
    EntryKind(EntryAt(mem, g, level, va));
  }

  /** A walk that comes through frame `f` continues from there, with no right lost on the way. */
  lemma {:induction false} WalkThrough(mem: Memory, paths: map<nat, seq<nat>>, root: nat, depth: nat, g: nat,
                                       level: nat,
                                       va: bv64, f: nat, level': nat, va': bv64)
    requires Tree(mem, paths, root, depth) && 1 <= level' <= level <= depth <= 5
    requires g in mem && paths[g] == Path(va, depth, level) && Reaches(mem, g, level, va, f, level')
    requires Path(va', depth, level') == Path(va, depth, level')
    ensures f in mem && paths[f] == Path(va, depth, level')
    ensures Walk(mem, g, level, va') == Walk(mem, f, level', va')
    ensures Reaches(mem, g, level, va', f, level')
    decreases level
  {
    hide IsTable, IsLarge, Present, FrameBits, Addr, IndexBits;
    if level' < level {
      SameIndex(va, va', depth, level', level);
      var e := EntryAt(mem, g, level, va);
      assert EntryAt(mem, g, level, va') == e;
      ChildOnPath(mem, paths, root, depth, g, level, va);
      WalkStep(mem, g, level, va');
      WalkThrough(mem, paths, root, depth, Child(e), level - 1, va, f, level', va');
    }
  }

  lemma {:induction false} SameIndex(va: bv64, va': bv64, depth: nat, to: nat, level: nat)
    requires to < level <= depth <= 5 && Path(va', depth, to) == Path(va, depth, to)
    ensures Index(va', level) == Index(va, level) && Path(va', depth, level) == Path(va, depth, level)
    decreases level - to
  {
    hide IsTable, IsLarge, Present, FrameBits, Addr, IndexBits;
    var p, q := Path(va, depth, to), Path(va', depth, to);
    assert p == Path(va, depth, to + 1) + [Index(va, to + 1)];
    assert q == Path(va', depth, to + 1) + [Index(va', to + 1)];
    assert p[|p| - 1] == q[|q| - 1] && p[..|p| - 1] == q[..|q| - 1];
    if to + 1 < level {
      SameIndex(va, va', depth, to + 1, level);
    }
  }

  // ---------- hanging a new table under an absent entry ----------

  /** The memory with a zeroed frame `n` hung under entry `i` of frame `f`. */
  function AddTable(mem: Memory, f: nat, i: nat, e: bv64, n: nat): Memory
    requires f in mem && i < |mem[f]|
  {
    SetEntry(mem, f, i, e)[n := ZeroFrame()]
  }

  ghost predicate NewTable(mem: Memory, paths: map<nat, seq<nat>>, root: nat, depth: nat, f: nat, i: nat, e: bv64,
                           n: nat) {
    && Tree(mem, paths, root, depth) && f in mem && i < 512 && |paths[f]| + 1 < depth
    && !Present(mem[f][i]) && n !in mem && IsTable(e) && Child(e) == n && Addr(e) == FrameBits(e)
    && EntryRights(e) == ALL_RIGHTS
  }

  lemma EmptyTable(mem: Memory, n: nat, level: nat, va: bv64, to: nat)
    requires n in mem && mem[n] == ZeroFrame() && 1 <= to <= level <= 5
    ensures Walk(mem, n, level, va) == None && ClearPath(mem, n, level, va, to)
  {
    hide IsTable, IsLarge, Present, FrameBits, Addr, IndexBits;
    assert mem[n][Index(va, level)] == 0;
    ZeroEntry();
  }

  lemma NewTableHere(mem: Memory, paths: map<nat, seq<nat>>, root: nat, depth: nat, f: nat, i: nat, e: bv64, n: nat,
                     level: nat, va: bv64, to: nat)
    requires NewTable(mem, paths, root, depth, f, i, e, n) && 1 <= to <= level <= depth <= 5
    requires paths[f] == Path(va, depth, level) && Index(va, level) == i
    ensures Walk(AddTable(mem, f, i, e, n), f, level, va) == None == Walk(mem, f, level, va)
    ensures ClearPath(AddTable(mem, f, i, e, n), f, level, va, to)
  {
    hide IsTable, IsLarge, Present, FrameBits, Addr, IndexBits;
    var mem' := AddTable(mem, f, i, e, n);
    assert EntryAt(mem', f, level, va) == e && level > 1;
    EntryKind(e);
    EmptyTable(mem', n, level - 1, va, if to < level then to else level - 1);
  }

  lemma NewTableElsewhere(mem: Memory, paths: map<nat, seq<nat>>, root: nat, depth: nat, f: nat, i: nat, e: bv64,
                          n: nat,
                          g: nat, level: nat, va: bv64)
    requires NewTable(mem, paths, root, depth, f, i, e, n) && 1 <= level <= 5 && g in mem &&
      !(g == f && Index(va, level) == i)
    ensures HasFrame(mem, g) && HasFrame(AddTable(mem, f, i, e, n), g)
    ensures EntryAt(AddTable(mem, f, i, e, n), g, level, va) == EntryAt(mem, g, level, va)
  {
    hide IsTable, IsLarge, Present, FrameBits, Addr, IndexBits;
  }

  /** A new empty table changes no translation, and blocks no descent. */
  lemma {:induction false} NewTableChangesNothing(mem: Memory, paths: map<nat, seq<nat>>, root: nat, depth: nat,
                                                  f: nat, i: nat, e: bv64, n: nat, mem': Memory, g: nat, level: nat,
                                                  va: bv64, to: nat)
    requires NewTable(mem, paths, root, depth, f, i, e, n) && 1 <= to <= level <= depth <= 5
    requires mem' == AddTable(mem, f, i, e, n) && g in mem && paths[g] == Path(va, depth, level)
    ensures Walk(mem', g, level, va) == Walk(mem, g, level, va)
    ensures ClearPath(mem, g, level, va, to) ==> ClearPath(mem', g, level, va, to)
    decreases level
  {
    hide IsTable, IsLarge, Present, FrameBits, Addr, IndexBits, Tree, AddTable;
    if g == f && Index(va, level) == i {
      NewTableHere(mem, paths, root, depth, f, i, e, n, level, va, to);
    } else {
      NewTableElsewhere(mem, paths, root, depth, f, i, e, n, g, level, va);
      var before := EntryAt(mem, g, level, va);
      if IsTable(before) && level > 1 {
        ChildOnPath(mem, paths, root, depth, g, level, va);
        var below := if to < level then to else level - 1;
        NewTableChangesNothing(mem, paths, root, depth, f, i, e, n, mem', Child(before), level - 1, va, below);
      }
      SameStep(mem, mem', g, level, va, to);
    }
  }

  lemma NewTableKeepsTree(mem: Memory, paths: map<nat, seq<nat>>, root: nat, depth: nat, f: nat, i: nat, e: bv64,
                          n: nat)
    requires NewTable(mem, paths, root, depth, f, i, e, n)
    ensures Tree(AddTable(mem, f, i, e, n), paths[n := paths[f] + [i]], root, depth)
  {
    hide IsTable, IsLarge, Present, FrameBits, Addr, IndexBits;
    var mem', paths' := AddTable(mem, f, i, e, n), paths[n := paths[f] + [i]];
    ZeroEntry();
    forall h, j | h in mem' && 0 <= j < 512 && |paths'[h]| < depth - 1 && IsTable(mem'[h][j])
      ensures TableEntryOk(mem', paths', h, j)
    {
      assert h != n by {
        assert mem'[n][j] == 0;
      }
      if !(h == f && j == i) {
        assert mem'[h][j] == mem[h][j];
        assert TableEntryOk(mem, paths, h, j);
      }
    }
  }

  // ---------- writing a leaf ----------

  lemma LeafKeepsTree(mem: Memory, paths: map<nat, seq<nat>>, root: nat, depth: nat, f: nat, i: nat, e: bv64)
    requires Tree(mem, paths, root, depth) && f in mem && i < 512 && LeafEntry(e, depth - |paths[f]|)
    ensures Tree(SetEntry(mem, f, i, e), paths, root, depth)
  {
    hide IsTable, IsLarge, Present, FrameBits, Addr, IndexBits;
    var mem' := SetEntry(mem, f, i, e);
    EntryKind(e);
    forall h, j | h in mem' && 0 <= j < 512 && |paths[h]| < depth - 1 && IsTable(mem'[h][j])
      ensures TableEntryOk(mem', paths, h, j)
    {
      assert mem'[h][j] == mem[h][j];
      assert TableEntryOk(mem, paths, h, j);
    }
  }

  // ---------- the table that a descent has come to ----------

  /** How many tables have to be made to bring the descent along `va` from frame `g` to the table of level `to`. */
  function Missing(mem: Memory, g: nat, level: nat, va: bv64, to: nat): nat
    requires 1 <= to <= level <= 5
    decreases level
  {
    if level == to || !HasFrame(mem, g) then 0
    else if IsTable(EntryAt(mem, g, level, va)) then Missing(mem, Child(EntryAt(mem, g, level, va)), level - 1, va, to)
    else level - to
  }

  lemma {:induction false} ReachesStep(mem: Memory, g: nat, level: nat, va: bv64, f: nat, level': nat)
    requires 2 <= level' <= level <= 5 && Reaches(mem, g, level, va, f, level')
    requires HasFrame(mem, f) && IsTable(EntryAt(mem, f, level', va))
    ensures Reaches(mem, g, level, va, Child(EntryAt(mem, f, level', va)), level' - 1)
    decreases level
  {
    hide IsTable, IsLarge, Present, FrameBits, Addr, IndexBits;
    var next := Child(EntryAt(mem, g, level, va));
    if level' < level {
      ReachesStep(mem, next, level - 1, va, f, level');
    } else {
      assert Reaches(mem, next, level - 1, va, next, level - 1);
    }
    assert Reaches(mem, next, level - 1, va, Child(EntryAt(mem, f, level', va)), level' - 1);
  }

  /** Changing the last table of a descent leaves the way to it as it was. */
  lemma {:induction false} ReachesKept(mem: Memory, paths: map<nat, seq<nat>>, root: nat, depth: nat, mem': Memory,
                                       g: nat, level: nat, va: bv64, f: nat, level': nat)
    requires Tree(mem, paths, root, depth) && 1 <= level' <= level <= depth <= 5
    requires g in mem && paths[g] == Path(va, depth, level) && Reaches(mem, g, level, va, f, level')
    requires f in mem && paths[f] == Path(va, depth, level')
    requires forall h :: h in mem && h != f ==> h in mem' && mem'[h] == mem[h]
    ensures Reaches(mem', g, level, va, f, level')
    decreases level
  {
    hide IsTable, IsLarge, Present, FrameBits, Addr, IndexBits;
    if level' < level {
      ChildOnPath(mem, paths, root, depth, g, level, va);
      ReachesKept(mem, paths, root, depth, mem', Child(EntryAt(mem, g, level, va)), level - 1, va, f, level');
    }
  }

  /** A descent that has come to a table of level `level'` has met tables only, so it lacks none. */
  lemma {:induction false} ReachesClear(mem: Memory, g: nat, level: nat, va: bv64, f: nat, level': nat, to: nat)
    requires 1 <= level' <= to <= level <= 5 && Reaches(mem, g, level, va, f, level')
    ensures ClearPath(mem, g, level, va, to) && Missing(mem, g, level, va, to) == 0
    decreases level
  {
    hide IsTable, IsLarge, Present, FrameBits, Addr, IndexBits;
    if to < level {
      EntryKind(EntryAt(mem, g, level, va));
      ReachesClear(mem, Child(EntryAt(mem, g, level, va)), level - 1, va, f, level', to);
    }
  }

  lemma {:induction false} MissingFromHere(mem: Memory, g: nat, level: nat, va: bv64, f: nat, level': nat, to: nat)
    requires 1 <= to <= level' <= level <= 5 && Reaches(mem, g, level, va, f, level')
    ensures Missing(mem, g, level, va, to) == Missing(mem, f, level', va, to)
    decreases level
  {
    hide IsTable, IsLarge, Present, FrameBits, Addr, IndexBits;
    if level' < level {
      MissingFromHere(mem, Child(EntryAt(mem, g, level, va)), level - 1, va, f, level', to);
    }
  }

  lemma {:induction false} ClearToHere(mem: Memory, g: nat, level: nat, va: bv64, f: nat, level': nat, to: nat)
    requires 1 <= to <= level' <= level <= 5 && Reaches(mem, g, level, va, f, level') &&
      ClearPath(mem, f, level', va, to)
    ensures ClearPath(mem, g, level, va, to)
    decreases level
  {
    hide IsTable, IsLarge, Present, FrameBits, Addr, IndexBits;
    if level' < level {
      EntryKind(EntryAt(mem, g, level, va));
      ClearToHere(mem, Child(EntryAt(mem, g, level, va)), level - 1, va, f, level', to);
    }
  }

  /** The descent depends on the indices above its end only. */
  lemma {:induction false} SameDescent(mem: Memory, g: nat, depth: nat, level: nat, va: bv64, va': bv64, to: nat)
    requires 1 <= to <= level <= depth <= 5 && Path(va', depth, to) == Path(va, depth, to)
    ensures Missing(mem, g, level, va', to) == Missing(mem, g, level, va, to)
    ensures ClearPath(mem, g, level, va', to) == ClearPath(mem, g, level, va, to)
    decreases level
  {
    hide IsTable, IsLarge, Present, FrameBits, Addr, IndexBits;
    if to < level && HasFrame(mem, g) {
      SameIndex(va, va', depth, to, level);
      SameDescent(mem, Child(EntryAt(mem, g, level, va)), depth, level - 1, va, va', to);
    }
  }

  // ---------- what a new table and a new page do to all addresses ----------

  /** The same translation of every address, and every clear descent still clear. */
  ghost predicate SameView(mem: Memory, mem': Memory, root: nat, depth: nat)
    requires 1 <= depth <= 5
  {
    && (forall va {:trigger Walk(mem', root, depth, va)} :: Walk(mem', root, depth, va) == Walk(mem, root, depth, va))
    && (forall va, to {:trigger ClearPath(mem', root, depth, va, to)} ::
      1 <= to <= depth && ClearPath(mem, root, depth, va, to) ==>
          ClearPath(mem', root, depth, va, to))
  }

  lemma NewTableSameView(mem: Memory, paths: map<nat, seq<nat>>, root: nat, depth: nat, f: nat, i: nat, e: bv64, n: nat)
    requires NewTable(mem, paths, root, depth, f, i, e, n) && 1 <= depth <= 5
    ensures SameView(mem, AddTable(mem, f, i, e, n), root, depth)
  {
    hide IsTable, IsLarge, Present, FrameBits, Addr, IndexBits;
    var mem' := AddTable(mem, f, i, e, n);
    forall va
      ensures Walk(mem', root, depth, va) == Walk(mem, root, depth, va)
    {
      NewTableChangesNothing(mem, paths, root, depth, f, i, e, n, mem', root, depth, va, 1);
    }
    forall va, to | 1 <= to <= depth && ClearPath(mem, root, depth, va, to)
      ensures ClearPath(mem', root, depth, va, to)
    {
      NewTableChangesNothing(mem, paths, root, depth, f, i, e, n, mem', root, depth, va, to);
    }
  }

  lemma NewTableReached(mem: Memory, paths: map<nat, seq<nat>>, root: nat, depth: nat, f: nat, e: bv64, n: nat,
                        level: nat, va: bv64, to: nat)
    requires 1 <= to < level <= depth <= 5 && Reaches(mem, root, depth, va, f, level)
    requires NewTable(mem, paths, root, depth, f, Index(va, level), e, n)
    ensures var mem' := AddTable(mem, f, Index(va, level), e, n);
      Reaches(mem', root, depth, va, n, level - 1) && Missing(mem', n, level - 1, va, to) == level - 1 - to
  {
    hide IsTable, IsLarge, Present, FrameBits, Addr, IndexBits;
    var mem' := AddTable(mem, f, Index(va, level), e, n);
    WalkThrough(mem, paths, root, depth, root, depth, va, f, level, va);
    ReachesKept(mem, paths, root, depth, mem', root, depth, va, f, level);
    assert EntryAt(mem', f, level, va) == e;
    ReachesStep(mem', root, depth, va, f, level);
    assert EntryAt(mem', n, level - 1, va) == 0;
    ZeroEntry();
  }

  /** The page of `va` is translated as asked, everything else as before. */
  ghost predicate PageMapped(mem: Memory, mem': Memory, root: nat, depth: nat, va: bv64, pa: bv64, flags: bv64,
                             size: nat)
    requires 1 <= size <= 3 && 1 <= depth <= 5
  {
    forall va' {:trigger Walk(mem', root, depth, va')} :: Walk(mem', root, depth, va') ==
      if SamePage(va, va', depth, size) then Some(FlagsLeaf(pa, flags, size, va')) else Walk(mem, root, depth, va')
  }

  /** A descent can only have become blocked inside the page of `va`, and below level `target`. */
  ghost predicate DescentsKept(mem: Memory, mem': Memory, root: nat, depth: nat, va: bv64, size: nat, target: nat)
    requires 1 <= size <= 3 && 1 <= depth <= 5
  {
    forall va', to {:trigger ClearPath(mem', root, depth, va', to)} ::
      1 <= to <= depth && ClearPath(mem, root, depth, va', to) && (target <= to || !SamePage(va, va', depth, size)) ==>
      ClearPath(mem', root, depth, va', to)
  }

  lemma LeafElsewhere(mem: Memory, paths: map<nat, seq<nat>>, root: nat, depth: nat, f: nat, level: nat, va: bv64,
                      e: bv64,
                      va': bv64, to: nat)
    requires Tree(mem, paths, root, depth) && 1 <= level <= 3 && 4 <= depth <= 5 && 1 <= to <= depth
    requires Reaches(mem, root, depth, va, f, level) && !SamePage(va, va', depth, level)
    ensures HasFrame(mem, f)
    ensures var mem' := SetEntry(mem, f, Index(va, level), e);
      && Walk(mem', root, depth, va') == Walk(mem, root, depth, va')
      && (ClearPath(mem, root, depth, va', to) ==> ClearPath(mem', root, depth, va', to))
  {
    hide IsTable, IsLarge, Present, FrameBits, Addr, IndexBits;
    WalkThrough(mem, paths, root, depth, root, depth, va, f, level, va);
    NextOnPath(paths[f], va, depth, level);
    SamePageIffSamePath(va, va', depth, level);
    WriteElsewhere(mem, paths, root, depth, f, Index(va, level), e, root, depth, va', to);
  }

  lemma PageIndex(va: bv64, va': bv64, depth: nat, level: nat)
    requires 1 <= level <= depth && 4 <= depth <= 5 && SamePage(va, va', depth, level)
    ensures Index(va', level) == Index(va, level) && Path(va', depth, level) == Path(va, depth, level)
  {
    hide IsTable, IsLarge, Present, FrameBits, Addr, IndexBits;
    SamePageIffSamePath(va, va', depth, level);
    SameIndex(va, va', depth, level - 1, level);
  }

  lemma LeafReached(mem: Memory, paths: map<nat, seq<nat>>, root: nat, depth: nat, f: nat, level: nat, va: bv64,
                    mem': Memory)
    requires Tree(mem, paths, root, depth) && 1 <= level <= depth <= 5 && Reaches(mem, root, depth, va, f, level)
    requires forall h :: h in mem && h != f ==> h in mem' && mem'[h] == mem[h]
    ensures HasFrame(mem, f) && paths[f] == Path(va, depth, level) && Reaches(mem', root, depth, va, f, level)
  {
    hide IsTable, IsLarge, Present, FrameBits, Addr, IndexBits;
    WalkThrough(mem, paths, root, depth, root, depth, va, f, level, va);
    ReachesKept(mem, paths, root, depth, mem', root, depth, va, f, level);
  }

  lemma LeafWritten(mem: Memory, paths: map<nat, seq<nat>>, root: nat, depth: nat, f: nat, level: nat, va: bv64,
                    e: bv64, mem': Memory)
    requires Tree(mem, paths, root, depth) && 1 <= level <= 3 && 4 <= depth <= 5 && LeafEntry(e, level)
    requires Reaches(mem, root, depth, va, f, level) && HasFrame(mem, f) &&
      mem' == SetEntry(mem, f, Index(va, level), e)
    ensures Tree(mem', paths, root, depth) && Reaches(mem', root, depth, va, f, level)
  {
    hide IsTable, IsLarge, Present, FrameBits, Addr, IndexBits;
    LeafReached(mem, paths, root, depth, f, level, va, mem');
    LeafKeepsTree(mem, paths, root, depth, f, Index(va, level), e);
  }

  lemma LeafInPage(mem: Memory, paths: map<nat, seq<nat>>, root: nat, depth: nat, f: nat, level: nat, va: bv64, e: bv64,
                   va': bv64, mem': Memory)
    requires Tree(mem, paths, root, depth) && 1 <= level <= 3 && 4 <= depth <= 5 && LeafEntry(e, level)
    requires Reaches(mem, root, depth, va, f, level) && SamePage(va, va', depth, level)
    requires HasFrame(mem, f) && mem' == SetEntry(mem, f, Index(va, level), e)
    ensures Walk(mem', root, depth, va') == Some(LeafOf(e, level, va'))
    ensures Reaches(mem', root, depth, va', f, level)
  {
    hide IsTable, IsLarge, Present, FrameBits, Addr, IndexBits;
    LeafWritten(mem, paths, root, depth, f, level, va, e, mem');
    PageIndex(va, va', depth, level);
    WalkThrough(mem', paths, root, depth, root, depth, va, f, level, va');
    LeafWalk(mem', f, level, va', e);
  }

  lemma LeafWalk(mem: Memory, f: nat, level: nat, va: bv64, e: bv64)
    requires 1 <= level <= 3 && LeafEntry(e, level) && HasFrame(mem, f) && EntryAt(mem, f, level, va) == e
    ensures Walk(mem, f, level, va) == Some(LeafOf(e, level, va))
  {
    hide IsTable, IsLarge, Present, FrameBits, Addr, IndexBits;
  }

  lemma LeafTranslates(mem: Memory, paths: map<nat, seq<nat>>, root: nat, depth: nat, f: nat, level: nat, va: bv64,
                       pa: bv64, flags: bv64, e: bv64, va': bv64)
    requires Tree(mem, paths, root, depth) && 1 <= level <= 3 && 4 <= depth <= 5 && HasFrame(mem, f)
    requires Reaches(mem, root, depth, va, f, level) && Mappable(pa, level) && FlagsOk(flags)
    requires e == MakeEntry(pa, flags | PT_FLAG_VALID, level)
    ensures Walk(SetEntry(mem, f, Index(va, level), e), root, depth, va') ==
            if SamePage(va, va', depth, level) then Some(FlagsLeaf(pa, flags, level, va'))
            else Walk(mem, root, depth, va')
  {
    hide IsTable, IsLarge, Present, FrameBits, Addr, IndexBits, FlagsLeaf, LeafOf, Mappable, FlagsOk, MakeEntry;
    hide Tree, Reaches, SamePage, SetEntry, Walk;
    EntryMaps(pa, flags, level, va');
    if SamePage(va, va', depth, level) {
      LeafInPage(mem, paths, root, depth, f, level, va, e, va', SetEntry(mem, f, Index(va, level), e));
    } else {
      LeafElsewhere(mem, paths, root, depth, f, level, va, e, va', 1);
    }
  }

  lemma LeafLeavesClear(mem: Memory, paths: map<nat, seq<nat>>, root: nat, depth: nat, f: nat, level: nat, va: bv64,
                        e: bv64, va': bv64, to: nat)
    requires Tree(mem, paths, root, depth) && 1 <= level <= 3 && 4 <= depth <= 5 && HasFrame(mem, f)
    requires Reaches(mem, root, depth, va, f, level) && LeafEntry(e, level)
    requires 1 <= to <= depth && ClearPath(mem, root, depth, va', to)
    requires level <= to || !SamePage(va, va', depth, level)
    ensures ClearPath(SetEntry(mem, f, Index(va, level), e), root, depth, va', to)
  {
    hide IsTable, IsLarge, Present, FrameBits, Addr, IndexBits, Tree, Reaches, SamePage, SetEntry, ClearPath;
    if SamePage(va, va', depth, level) {
      var mem' := SetEntry(mem, f, Index(va, level), e);
      LeafInPage(mem, paths, root, depth, f, level, va, e, va', mem');
      ReachesClear(mem', root, depth, va', f, level, to);
    } else {
      LeafElsewhere(mem, paths, root, depth, f, level, va, e, va', to);
    }
  }

  /** Writing the entry of a page where the descent along `va` ends maps that page and nothing else. */
  lemma LeafMaps(mem: Memory, paths: map<nat, seq<nat>>, root: nat, depth: nat, f: nat, level: nat, va: bv64, pa: bv64,
                 flags: bv64)
    requires Tree(mem, paths, root, depth) && 1 <= level <= 3 && 4 <= depth <= 5
    requires Reaches(mem, root, depth, va, f, level) && Mappable(pa, level) && FlagsOk(flags)
    ensures HasFrame(mem, f)
    ensures var mem' := SetEntry(mem, f, Index(va, level), MakeEntry(pa, flags | PT_FLAG_VALID, level));
      && Tree(mem', paths, root, depth) && Reaches(mem', root, depth, va, f, level)
      && PageMapped(mem, mem', root, depth, va, pa, flags, level) &&
        DescentsKept(mem, mem', root, depth, va, level, level)
  {
    hide IsTable, IsLarge, Present, FrameBits, Addr, IndexBits, FlagsLeaf, LeafOf, Mappable, FlagsOk, Walk, ClearPath;
    hide Tree, Reaches, SamePage, LeafEntry, MakeEntry, SetEntry;
    var e := MakeEntry(pa, flags | PT_FLAG_VALID, level);
    EntryMaps(pa, flags, level, va);
    LeafReached(mem, paths, root, depth, f, level, va, mem);
    var mem' := SetEntry(mem, f, Index(va, level), e);
    LeafWritten(mem, paths, root, depth, f, level, va, e, mem');
    forall va'
      ensures Walk(mem', root, depth, va') ==
              if SamePage(va, va', depth, level) then Some(FlagsLeaf(pa, flags, level, va'))
                else Walk(mem, root, depth, va')
    {
      LeafTranslates(mem, paths, root, depth, f, level, va, pa, flags, e, va');
    }
    forall va', to | 1 <= to <= depth && ClearPath(mem, root, depth, va', to) &&
      (level <= to || !SamePage(va, va', depth, level))
      ensures ClearPath(mem', root, depth, va', to)
    {
      LeafLeavesClear(mem, paths, root, depth, f, level, va, e, va', to);
    }
  }

  // ---------- one place for each table ----------

  /** Two walks that come through the same table have come the same way, at the same level: no table is shared. */
  lemma NoSharing(mem: Memory, paths: map<nat, seq<nat>>, root: nat, depth: nat,
                  va: bv64, va': bv64, f: nat, level: nat, level': nat)
    requires Tree(mem, paths, root, depth) && 1 <= level <= depth <= 5 && 1 <= level' <= depth
    requires Reaches(mem, root, depth, va, f, level) && Reaches(mem, root, depth, va', f, level')
    ensures level == level' && Path(va, depth, level) == Path(va', depth, level)
  {
    hide IsTable, IsLarge, Present, FrameBits, Addr, IndexBits;
    WalkThrough(mem, paths, root, depth, root, depth, va, f, level, va);
    WalkThrough(mem, paths, root, depth, root, depth, va', f, level', va');
  }

  lemma Snoc(p: seq<nat>, i: nat, q: seq<nat>, j: nat)
    requires |p| == |q|
    ensures p + [i] == q + [j] <==> p == q && i == j
  {
    hide IsTable, IsLarge, Present, FrameBits, Addr, IndexBits;
    var p', q' := p + [i], q + [j];
    assert p'[..|p|] == p && p'[|p|] == i && q'[..|p|] == q && q'[|p|] == j;
  }

  /** Two addresses share all indices down to a level exactly when they lie in one page of that level. */
  lemma {:induction false} SamePageIffSamePath(va: bv64, va': bv64, depth: nat, level: nat)
    requires 1 <= level <= depth && 4 <= depth <= 5
    ensures SamePage(va, va', depth, level) <==> Path(va, depth, level - 1) == Path(va', depth, level - 1)
    decreases depth - level
  {
    hide IsTable, IsLarge, Present, FrameBits, Addr, IndexBits, SlotMask, IndexMask, Clear;
    SameIndexIffClear(va, va', level);
    Snoc(Path(va, depth, level), Index(va, level), Path(va', depth, level), Index(va', level));
    if level < depth {
      SamePageStep(va, va', depth, level);
      SamePageIffSamePath(va, va', depth, level + 1);
    } else {
      TopMask(depth);
    }
  }

  lemma TopMask(depth: nat)
    requires 4 <= depth <= 5
    ensures SlotMask(depth, depth) == IndexMask(depth)
  {
    hide IsTable, IsLarge, Present, FrameBits, Addr, IndexBits;
  }

  // ---------- what an entry on the way does ----------

  /** Through a table entry the walk reaches the same place, with no right that the entry withholds. */
  lemma WalkRestricts(mem: Memory, f: nat, level: nat, va: bv64)
    requires 2 <= level <= 5 && HasFrame(mem, f) && IsTable(EntryAt(mem, f, level, va))
    ensures var e := EntryAt(mem, f, level, va);
      var below := Walk(mem, Child(e), level - 1, va);
      match Walk(mem, f, level, va)
      case None => below == None
      case Some(leaf) =>
        && below.Some? && leaf.phys == below.value.phys && leaf.caching == below.value.caching
        && (leaf.rights.write <==> below.value.rights.write && e & 0x2 != 0)
        && (leaf.rights.user <==> below.value.rights.user && e & 0x4 != 0)
        && (leaf.rights.noExec <==> below.value.rights.noExec || e & 0x8000_0000_0000_0000 != 0)
  {
    EntryKind(EntryAt(mem, f, level, va));
    hide IsTable, IsLarge, Present, FrameBits, Addr, IndexBits;
  }

  /** A walk ends at an absent entry, at a page of 4 KiB, 2 MiB or 1 GiB, and at nothing else that is no table. */
  lemma WalkEnds(mem: Memory, f: nat, level: nat, va: bv64)
    requires 1 <= level <= 5 && HasFrame(mem, f)
    ensures var e := EntryAt(mem, f, level, va);
      && (e & 0x1 == 0 ==> Walk(mem, f, level, va) == None)
      && (e & 0x1 != 0 && (level == 1 || (e & 0x80 != 0 && level <= 3)) ==>
            Walk(mem, f, level, va) == Some(LeafOf(e, level, va)))
      && (e & 0x81 == 0x81 && level > 3 ==> Walk(mem, f, level, va) == None)
  {
    var e := EntryAt(mem, f, level, va);
    LargeBits(e);
    hide IsTable, IsLarge, Present, FrameBits, Addr, IndexBits;
  }

  lemma LargeBits(e: bv64)
    ensures Present(e) <==> e & 0x1 != 0
    ensures IsLarge(e) <==> e & 0x1 != 0 && e & 0x80 != 0
    ensures IsLarge(e) <==> e & 0x81 == 0x81
  {
  }
}
