/** The kernel heap's free list as a list of regions: what each operation does to it, and why the list is a
    canonical form of the free bytes. */
module FreeList {
  import opened Arithmetic
  import opened Outcomes

  /** Size and alignment of a list node; every region can hold one. */
  const NODE_SIZE := 16
  const NODE_ALIGN := 8
  const USIZE_LIMIT := 0x1_0000_0000_0000_0000
  const ISIZE_MAX := 0x7FFF_FFFF_FFFF_FFFF

  datatype Layout = Layout(size: nat, align: nat)

  datatype Region = Region(addr: nat, size: nat) {
    function End(): nat {
      addr + size
    }

    predicate Contains(x: nat) {
      addr <= x < End()
    }
  }

  datatype Allocation = Allocation(regions: seq<Region>, addr: nat)

  // ---------- the operations ----------

  /** `val` rounded up to a multiple of `align`. */
  function AlignUp(val: nat, align: nat): (r: nat)
    requires align > 0
    ensures val <= r < val + align
  {
    if val % align == 0 then val else val + (align - val % align)
  }

  /** The layout the allocator works with: node-aligned, padded, and large enough for a node. */
  function SizeAlign(layout: Layout): (r: Outcome<Layout>)
    requires layout.align > 0
    ensures r.Done? ==> r.value.align >= layout.align && r.value.size >= layout.size
  {
    var align := if layout.align < NODE_ALIGN then NODE_ALIGN else layout.align;
    if layout.size + align - 1 > ISIZE_MAX || NODE_SIZE + align - 1 > ISIZE_MAX then Panicked
    else
      var size := AlignUp(layout.size, align);
      Done(Layout(if size < NODE_SIZE then NODE_SIZE else size, align))
  }

  /** Whether an allocation may be taken from `r`: it fits behind the aligned start, and what is left over is
      nothing or can hold a node. The alignment is added to the address before anything is taken off again. */
  function Fits(r: Region, layout: Layout): Outcome<bool>
    requires layout.align > 0
  {
    if r.addr + layout.align >= USIZE_LIMIT then Panicked
    else
      var start := AlignUp(r.addr, layout.align);
      var end := start + layout.size;
      if end >= USIZE_LIMIT || r.End() >= USIZE_LIMIT then Panicked
      else if end > r.End() then Done(false)
      else if 0 < r.End() - end < NODE_SIZE then Done(false)
      else Done(start != 0)
  }

  /** The index of the first region that fits. */
  function FirstFit(rs: seq<Region>, layout: Layout): (r: Outcome<Option<nat>>)
    requires layout.align > 0
    ensures r.Done? && r.value.Some? ==> r.value.value < |rs| && rs[r.value.value].size >= layout.size
  {
    if rs == [] then Done(None)
    else
      var fits :- Fits(rs[0], layout);
      if fits then Done(Some(0))
      else
        var found :- FirstFit(rs[1..], layout);
        Done(match found case None => None case Some(i) => Some(i + 1))
  }

  /** Puts `r` before the first region that starts behind it. */
  function Insert(rs: seq<Region>, r: Region): seq<Region> {
    if rs == [] || rs[0].addr > r.addr then [r] + rs else [rs[0]] + Insert(rs[1..], r)
  }

  function AddFree(rs: seq<Region>, r: Region): Outcome<seq<Region>> {
    if r.addr + NODE_ALIGN >= USIZE_LIMIT || r.addr % NODE_ALIGN != 0 || r.size < NODE_SIZE then Panicked
    else Done(Insert(rs, r))
  }

  /** Merges every region with the next one as long as they touch. */
  function Coalesce(rs: seq<Region>): seq<Region>
    decreases |rs|
  {
    if |rs| < 2 then rs
    else if rs[0].End() == rs[1].addr then Coalesce([Region(rs[0].addr, rs[0].size + rs[1].size)] + rs[2..])
    else [rs[0]] + Coalesce(rs[1..])
  }

  /** Returns what is left of region `r` behind its first `size` bytes. */
  function AddRest(rs: seq<Region>, r: Region, size: nat): Outcome<seq<Region>> {
    if r.size <= size then Done(rs) else AddFree(rs, Region(r.addr + size, r.size - size))
  }

  /** Hands out the start of region `i`, whatever the alignment asked for, and returns the rest to the list. */
  function Carve(rs: seq<Region>, i: nat, size: nat): Outcome<Allocation>
    requires i < |rs| && size <= rs[i].size
  {
    var regions :- AddRest(rs[..i] + rs[i + 1..], rs[i], size);
    Done(Allocation(regions, rs[i].addr))
  }

  /** Address 0 is the null pointer. */
  function Alloc(rs: seq<Region>, layout: Layout): Outcome<Allocation>
    requires layout.align > 0
  {
    var padded :- SizeAlign(layout);
    var found :- FirstFit(rs, padded);
    match found
    case None => Done(Allocation(rs, 0))
    case Some(i) => Carve(rs, i, padded.size)
  }

  function Dealloc(rs: seq<Region>, addr: nat, layout: Layout): Outcome<seq<Region>>
    requires layout.align > 0
  {
    var padded :- SizeAlign(layout);
    var regions :- AddFree(rs, Region(addr, padded.size));
    Done(Coalesce(regions))
  }

  // ---------- canonical form ----------

  predicate Covers(rs: seq<Region>, x: nat) {
    exists i :: 0 <= i < |rs| && rs[i].Contains(x)
  }

  predicate WellSized(r: Region) {
    0 < r.addr && r.addr % NODE_ALIGN == 0 && r.size >= NODE_SIZE && r.size % NODE_ALIGN == 0 && r.End() < USIZE_LIMIT
  }

  /** In address order and without overlap; neighbours may touch. */
  predicate Sorted(rs: seq<Region>) {
    && (forall i :: 0 <= i < |rs| ==> WellSized(rs[i]))
    && forall i, j :: 0 <= i < j < |rs| ==> rs[i].End() <= rs[j].addr
  }

  /** In address order, and a gap between any two regions: nothing is left to merge. */
  predicate Canonical(rs: seq<Region>) {
    && (forall i :: 0 <= i < |rs| ==> WellSized(rs[i]))
    && forall i, j :: 0 <= i < j < |rs| ==> rs[i].End() < rs[j].addr
  }

  ghost predicate SameBytes(a: seq<Region>, b: seq<Region>) {
    forall x :: Covers(a, x) <==> Covers(b, x)
  }

  lemma CoversHead(rs: seq<Region>, x: nat)
    requires rs != []
    ensures Covers(rs, x) <==> rs[0].Contains(x) || Covers(rs[1..], x)
  {
    if Covers(rs, x) && !rs[0].Contains(x) {
      var i :| 0 <= i < |rs| && rs[i].Contains(x);
      assert rs[1..][i - 1].Contains(x);
    }
    if Covers(rs[1..], x) {
      var i :| 0 <= i < |rs[1..]| && rs[1..][i].Contains(x);
      assert rs[i + 1].Contains(x);
    }
  }

  lemma CoversConcat(a: seq<Region>, b: seq<Region>, x: nat)
    ensures Covers(a + b, x) <==> Covers(a, x) || Covers(b, x)
  {
    if Covers(a + b, x) {
      var i :| 0 <= i < |a + b| && (a + b)[i].Contains(x);
      assert if i < |a| then a[i].Contains(x) else b[i - |a|].Contains(x);
    }
    if Covers(a, x) {
      var i :| 0 <= i < |a| && a[i].Contains(x);
      assert (a + b)[i].Contains(x);
    }
    if Covers(b, x) {
      var i :| 0 <= i < |b| && b[i].Contains(x);
      assert (a + b)[|a| + i].Contains(x);
    }
  }

  /** The first region of a canonical list is the first run of covered bytes. */
  lemma FirstRun(rs: seq<Region>)
    requires Canonical(rs) && rs != []
    ensures Covers(rs, rs[0].addr) && !Covers(rs, rs[0].End())
    ensures forall x: nat :: Covers(rs, x) ==> rs[0].addr <= x
    ensures forall x: nat :: rs[0].addr <= x < rs[0].End() ==> Covers(rs, x)
    ensures Canonical(rs[1..]) && forall x: nat :: Covers(rs[1..], x) <==> Covers(rs, x) && x >= rs[0].End()
  {
    assert rs[0].Contains(rs[0].addr);
    forall x | rs[0].addr <= x < rs[0].End() ensures Covers(rs, x) {
      assert rs[0].Contains(x);
    }
    forall x: nat ensures Covers(rs[1..], x) <==> Covers(rs, x) && x >= rs[0].End() {
      CoversHead(rs, x);
    }
  }

  /** Two canonical lists that cover the same bytes are the same list. */
  lemma {:induction false} CanonicalUnique(a: seq<Region>, b: seq<Region>)
    requires Canonical(a) && Canonical(b) && SameBytes(a, b)
    ensures a == b
  {
    if a != [] {
      FirstRun(a);
    }
    if b != [] {
      FirstRun(b);
    }
    if a != [] && b != [] {
      assert Covers(b, a[0].addr) && Covers(a, b[0].addr);
      assert !Covers(b, a[0].End()) && !Covers(a, b[0].End());
      CanonicalUnique(a[1..], b[1..]);
      assert a == [a[0]] + a[1..] && b == [b[0]] + b[1..];
    }
  }

  // ---------- dealloc ----------

  /** No byte of `r` is free. */
  predicate Disjoint(rs: seq<Region>, r: Region) {
    forall i :: 0 <= i < |rs| ==> rs[i].End() <= r.addr || r.End() <= rs[i].addr
  }

  lemma DisjointBytes(rs: seq<Region>, r: Region)
    requires r.size > 0 && forall x: nat :: r.Contains(x) ==> !Covers(rs, x)
    requires forall i :: 0 <= i < |rs| ==> WellSized(rs[i])
    ensures Disjoint(rs, r)
  {
    forall i | 0 <= i < |rs| ensures rs[i].End() <= r.addr || r.End() <= rs[i].addr {
      var x := if rs[i].addr <= r.addr then r.addr else rs[i].addr;
      if rs[i].Contains(x) && r.Contains(x) {
        assert Covers(rs, x);
        assert false;
      }
    }
  }

  lemma {:induction false} InsertCovers(rs: seq<Region>, r: Region, x: nat)
    ensures Covers(Insert(rs, r), x) <==> Covers(rs, x) || r.Contains(x)
  {
    var s := Insert(rs, r);
    CoversHead(s, x);
    if rs == [] || rs[0].addr > r.addr {
      assert s[1..] == rs;
    } else {
      InsertCovers(rs[1..], r, x);
      CoversHead(rs, x);
      assert s[1..] == Insert(rs[1..], r);
    }
  }

  lemma {:induction false} InsertMembers(rs: seq<Region>, r: Region)
    ensures forall y :: y in Insert(rs, r) ==> y in rs || y == r
  {
    if rs != [] && rs[0].addr <= r.addr {
      InsertMembers(rs[1..], r);
    }
  }

  lemma SortedCons(r: Region, rs: seq<Region>)
    requires WellSized(r) && Sorted(rs) && forall y :: y in rs ==> r.End() <= y.addr
    ensures Sorted([r] + rs)
  {
    var s := [r] + rs;
    forall j | 1 <= j < |s| ensures s[j] == rs[j - 1] && WellSized(s[j]) && r.End() <= s[j].addr {
      assert rs[j - 1] in rs;
    }
  }

  lemma {:induction false} InsertSorted(rs: seq<Region>, r: Region)
    requires Sorted(rs) && WellSized(r) && Disjoint(rs, r)
    ensures Sorted(Insert(rs, r))
  {
    if rs == [] || rs[0].addr > r.addr {
      SortedCons(r, rs);
    } else {
      InsertSorted(rs[1..], r);
      InsertMembers(rs[1..], r);
      SortedCons(rs[0], Insert(rs[1..], r));
    }
  }

  lemma MergedBytes(rs: seq<Region>, x: nat)
    requires |rs| >= 2 && rs[0].End() == rs[1].addr
    ensures Covers([Region(rs[0].addr, rs[0].size + rs[1].size)] + rs[2..], x) <==> Covers(rs, x)
  {
    var merged := [Region(rs[0].addr, rs[0].size + rs[1].size)] + rs[2..];
    CoversHead(rs, x);
    CoversHead(rs[1..], x);
    CoversHead(merged, x);
    assert merged[1..] == rs[2..] == rs[1..][1..];
  }

  lemma CanonicalCons(r: Region, rs: seq<Region>)
    requires WellSized(r) && Canonical(rs) && (rs != [] ==> r.End() < rs[0].addr)
    ensures Canonical([r] + rs)
  {
    var s := [r] + rs;
    forall j | 1 <= j < |s| ensures s[j] == rs[j - 1] && r.End() < s[j].addr {
      assert rs[0].addr <= rs[j - 1].addr;
    }
  }

  lemma {:induction false} CoalesceCanonical(rs: seq<Region>)
    requires Sorted(rs)
    ensures Canonical(Coalesce(rs)) && SameBytes(Coalesce(rs), rs)
    ensures rs != [] ==> Coalesce(rs) != [] && Coalesce(rs)[0].addr == rs[0].addr
    decreases |rs|
  {
    if |rs| >= 2 {
      if rs[0].End() == rs[1].addr {
        CoalesceCanonical([Region(rs[0].addr, rs[0].size + rs[1].size)] + rs[2..]);
        forall x: nat {
          MergedBytes(rs, x);
        }
      } else {
        var tail := Coalesce(rs[1..]);
        CoalesceCanonical(rs[1..]);
        CanonicalCons(rs[0], tail);
        forall x: nat ensures Covers([rs[0]] + tail, x) <==> Covers(rs, x) {
          CoversHead([rs[0]] + tail, x);
          CoversHead(rs, x);
        }
      }
    }
  }

  /** Freeing a block puts its bytes back and leaves the list canonical. */
  lemma DeallocCanonical(rs: seq<Region>, addr: nat, layout: Layout)
    requires layout.align > 0 && SizeAlign(layout).Done?
    requires var block := Region(addr, SizeAlign(layout).value.size);
      Canonical(rs) && WellSized(block) && Disjoint(rs, block)
    ensures var block := Region(addr, SizeAlign(layout).value.size);
      && Dealloc(rs, addr, layout).Done?
      && Canonical(Dealloc(rs, addr, layout).value)
      && forall x: nat :: Covers(Dealloc(rs, addr, layout).value, x) <==> Covers(rs, x) || block.Contains(x)
  {
    var block := Region(addr, SizeAlign(layout).value.size);
    InsertSorted(rs, block);
    forall x: nat ensures Covers(Insert(rs, block), x) <==> Covers(rs, x) || block.Contains(x) {
      InsertCovers(rs, block, x);
    }
    CoalesceCanonical(Insert(rs, block));
  }

  // ---------- alloc ----------

  /** The test a region has to pass when the alignment asks for nothing more than a node. */
  predicate FitsPlain(r: Region, size: nat) {
    r.size == size || r.size >= size + NODE_SIZE
  }

  /** A request whose alignment is at most that of a node, and too small to reach the end of the address space. */
  predicate Plain(rs: seq<Region>, layout: Layout) {
    && 1 <= layout.align <= NODE_ALIGN && SizeAlign(layout).Done?
    && forall i :: 0 <= i < |rs| ==> rs[i].addr + NODE_ALIGN + SizeAlign(layout).value.size < USIZE_LIMIT
  }

  lemma SizeAlignPlain(layout: Layout)
    requires 1 <= layout.align <= NODE_ALIGN && SizeAlign(layout).Done?
    ensures var padded := SizeAlign(layout).value;
      padded.align == NODE_ALIGN && padded.size >= NODE_SIZE && padded.size % NODE_ALIGN == 0 &&
        padded.size >= layout.size
  {
  }

  lemma {:induction false} FirstFitPlain(rs: seq<Region>, layout: Layout)
    requires layout.align == NODE_ALIGN && layout.size % NODE_ALIGN == 0
    requires forall i :: 0 <= i < |rs| ==> WellSized(rs[i]) && rs[i].addr + NODE_ALIGN + layout.size < USIZE_LIMIT
    ensures FirstFit(rs, layout).Done?
    ensures match FirstFit(rs, layout).value
            case None => forall i :: 0 <= i < |rs| ==> !FitsPlain(rs[i], layout.size)
            case Some(k) => FirstFitting(rs, layout.size, k)
  {
    if rs != [] {
      assert Fits(rs[0], layout) == Done(FitsPlain(rs[0], layout.size));
      FirstFitPlain(rs[1..], layout);
    }
  }

  lemma {:induction false} InsertBetween(before: seq<Region>, after: seq<Region>, r: Region)
    requires forall i :: 0 <= i < |before| ==> before[i].addr <= r.addr
    requires after != [] ==> r.addr < after[0].addr
    ensures Insert(before + after, r) == before + [r] + after
  {
    if before == [] {
      assert before + after == after;
    } else {
      InsertBetween(before[1..], after, r);
      assert (before + after)[1..] == before[1..] + after;
    }
  }

  /** Taking a block from the front of region `i`: what is left of the region stays in its place. */
  lemma CarvePlain(rs: seq<Region>, i: nat, size: nat)
    requires Canonical(rs) && i < |rs| && FitsPlain(rs[i], size) && size % NODE_ALIGN == 0 && size > 0
    ensures Carve(rs, i, size) == Done(Allocation(
      if rs[i].size == size then rs[..i] + rs[i + 1..] else rs[i := Region(rs[i].addr + size, rs[i].size - size)],
      rs[i].addr))
  {
    if rs[i].size != size {
      var left := Region(rs[i].addr + size, rs[i].size - size);
      InsertBetween(rs[..i], rs[i + 1..], left);
      assert rs[..i] + [left] + rs[i + 1..] == rs[i := left];
    }
  }

  lemma RemoveRegion(rs: seq<Region>, i: nat)
    requires Canonical(rs) && i < |rs|
    ensures Canonical(rs[..i] + rs[i + 1..])
    ensures forall x: nat :: Covers(rs[..i] + rs[i + 1..], x) <==> Covers(rs, x) && !rs[i].Contains(x)
  {
    var before, after := rs[..i], rs[i + 1..];
    assert rs == before + ([rs[i]] + after);
    forall x: nat ensures Covers(before + after, x) <==> Covers(rs, x) && !rs[i].Contains(x) {
      CoversConcat(before, after, x);
      CoversConcat(before, [rs[i]] + after, x);
      CoversHead([rs[i]] + after, x);
      assert ([rs[i]] + after)[1..] == after;
    }
  }

  lemma ReplaceBytes(before: seq<Region>, r: Region, r': Region, after: seq<Region>, x: nat)
    ensures Covers(before + ([r] + after), x) <==> Covers(before, x) || r.Contains(x) || Covers(after, x)
    ensures Covers(before + ([r'] + after), x) <==> Covers(before, x) || r'.Contains(x) || Covers(after, x)
  {
    CoversConcat(before, [r] + after, x);
    CoversConcat(before, [r'] + after, x);
    CoversHead([r] + after, x);
    CoversHead([r'] + after, x);
    assert ([r] + after)[1..] == after == ([r'] + after)[1..];
  }

  lemma OnlyOneContains(rs: seq<Region>, i: nat, x: nat)
    requires Canonical(rs) && i < |rs| && rs[i].Contains(x)
    ensures !Covers(rs[..i], x) && !Covers(rs[i + 1..], x)
  {
    var before, after := rs[..i], rs[i + 1..];
    forall k | 0 <= k < |before| ensures !before[k].Contains(x) {
      assert before[k] == rs[k] && rs[k].End() < rs[i].addr;
    }
    forall k | 0 <= k < |after| ensures !after[k].Contains(x) {
      assert after[k] == rs[i + 1 + k];
    }
  }

  lemma ShrinkBytes(rs: seq<Region>, i: nat, size: nat, x: nat)
    requires Canonical(rs) && i < |rs| && rs[i].size >= size
    ensures var s := rs[i := Region(rs[i].addr + size, rs[i].size - size)];
      Covers(s, x) <==> Covers(rs, x) && !Region(rs[i].addr, size).Contains(x)
  {
    var before, after, left := rs[..i], rs[i + 1..], Region(rs[i].addr + size, rs[i].size - size);
    assert rs == before + ([rs[i]] + after) && rs[i := left] == before + ([left] + after);
    ReplaceBytes(before, rs[i], left, after, x);
    if rs[i].Contains(x) {
      OnlyOneContains(rs, i, x);
    }
  }

  lemma EightSum(x: nat, y: nat)
    requires x % 8 == 0 && y % 8 == 0
    ensures (x + y) % 8 == 0 && (x - y) % 8 == 0
  {
  }

  lemma ShrinkRegion(rs: seq<Region>, i: nat, size: nat)
    requires Canonical(rs) && i < |rs| && rs[i].size >= size + NODE_SIZE && size % NODE_ALIGN == 0
    ensures var s := rs[i := Region(rs[i].addr + size, rs[i].size - size)];
      Canonical(s) && forall x: nat :: Covers(s, x) <==> Covers(rs, x) && !Region(rs[i].addr, size).Contains(x)
  {
    var left := Region(rs[i].addr + size, rs[i].size - size);
    var s := rs[i := left];
    EightSum(rs[i].addr, size);
    EightSum(rs[i].size, size);
    assert WellSized(left) && left.End() == rs[i].End();
    forall x: nat ensures Covers(s, x) <==> Covers(rs, x) && !Region(rs[i].addr, size).Contains(x) {
      ShrinkBytes(rs, i, size, x);
    }
  }

  /** `a` is the outcome of a request for `size` bytes: null if no region passes the test, and otherwise the
      front of the first one that does, whose bytes alone leave the list. */
  ghost predicate AllocMeets(rs: seq<Region>, size: nat, a: Allocation) {
    var block := Region(a.addr, size);
    if a.addr == 0 then
      a.regions == rs && forall i :: 0 <= i < |rs| ==> !FitsPlain(rs[i], size)
    else
      && WellSized(block) && Canonical(a.regions)
      && (forall x: nat :: block.Contains(x) ==> Covers(rs, x))
      && (forall x: nat :: Covers(a.regions, x) <==> Covers(rs, x) && !block.Contains(x))
      && (exists k :: 0 <= k < |rs| && FirstFitting(rs, size, k) && rs[k].addr == a.addr)
  }

  predicate FirstFitting(rs: seq<Region>, size: nat, k: nat)
    requires k < |rs|
  {
    FitsPlain(rs[k], size) && forall i :: 0 <= i < k ==> !FitsPlain(rs[i], size)
  }

  lemma CarveMeets(rs: seq<Region>, k: nat, size: nat)
    requires Canonical(rs) && size >= NODE_SIZE && size % NODE_ALIGN == 0
    requires k < |rs| && FirstFitting(rs, size, k)
    ensures Carve(rs, k, size).Done? && AllocMeets(rs, size, Carve(rs, k, size).value)
  {
    CarvePlain(rs, k, size);
    if rs[k].size == size {
      RemoveRegion(rs, k);
      assert Region(rs[k].addr, size) == rs[k];
    } else {
      ShrinkRegion(rs, k, size);
    }
    forall x: nat | Region(rs[k].addr, size).Contains(x) ensures Covers(rs, x) {
      assert rs[k].Contains(x);
    }
  }

  /** What a request with at most node alignment does: it takes the first region that passes the fit and sliver
      test, and only if none does it returns null; the list stays canonical and loses exactly the block. */
  lemma AllocCanonical(rs: seq<Region>, layout: Layout)
    requires Canonical(rs) && Plain(rs, layout)
    ensures Alloc(rs, layout).Done?
    ensures AllocMeets(rs, SizeAlign(layout).value.size, Alloc(rs, layout).value)
  {
    SizeAlignPlain(layout);
    var padded := SizeAlign(layout).value;
    FirstFitPlain(rs, padded);
    var found := FirstFit(rs, padded).value;
    if found.Some? {
      CarveMeets(rs, found.value, padded.size);
    }
  }

  // ---------- any alignment ----------

  predicate PowerOfTwo(n: nat) {
    n == 1 || (n > 1 && n % 2 == 0 && PowerOfTwo(n / 2))
  }

  lemma {:induction false} MultipleOfEight(align: nat)
    requires PowerOfTwo(align) && align > 8
    ensures align % 8 == 0 && align >= 16
  {
    if align > 16 {
      MultipleOfEight(align / 2);
    } else {
      assert PowerOfTwo(align / 2) && PowerOfTwo(align / 2 / 2) && PowerOfTwo(align / 2 / 2 / 2);
    }
  }

  lemma TimesEight(k: nat, m: nat)
    requires m % 8 == 0
    ensures k * m % 8 == 0
  {
    DivideSum(k * (m / 8), 8, 0, k * m);
  }

  lemma AlignUpMultiple(val: nat, align: nat) returns (k: nat)
    requires align > 0
    ensures AlignUp(val, align) == k * align
  {
    Divided(val, align);
    k := if val % align == 0 then val / align else val / align + 1;
  }

  /** A padded size is a multiple of eight, whatever power of two the alignment. */
  lemma PaddedSize(layout: Layout)
    requires PowerOfTwo(layout.align) && SizeAlign(layout).Done?
    ensures SizeAlign(layout).value.size % NODE_ALIGN == 0 && SizeAlign(layout).value.size >= NODE_SIZE
  {
    if layout.align > NODE_ALIGN {
      MultipleOfEight(layout.align);
      var k := AlignUpMultiple(layout.size, layout.align);
      TimesEight(k, layout.align);
    }
  }

  lemma MoreTimes(k: nat, j: nat, a: nat)
    ensures k > j ==> k * a >= j * a + a
  {
    if k > j {
      ProductBelow(j + 1, a, k, a);
      Distribute(j, j + 1, a);
    }
  }

  lemma MultipleAtMost(m: nat, a: nat, x: nat)
    requires a > 0 && m % a == 0 && m >= x
    ensures AlignUp(x, a) <= m
  {
    var k := AlignUpMultiple(x, a);
    Divided(m, a);
    MoreTimes(k, m / a, a);
    ProductBelow(k, a, m / a, a);
  }

  lemma AlignUpIsMultiple(x: nat, a: nat)
    requires a > 0
    ensures AlignUp(x, a) % a == 0
  {
    var k := AlignUpMultiple(x, a);
    DivideSum(k, a, 0, k * a);
  }

  /** The padded size is the least that holds the request and a list node and is a multiple of the alignment, or 16
      if the request is for nothing at all; the alignment is at least 8. It panics exactly when the size would no longer
      fit a signed word. */
  lemma SizeAlignLeast(layout: Layout, m: nat)
    requires layout.align > 0
    ensures var a := if layout.align < 8 then 8 else layout.align;
      && (SizeAlign(layout).Done? <==>
          layout.size + a <= 0x8000_0000_0000_0000 && 16 + a <= 0x8000_0000_0000_0000)
      && !SizeAlign(layout).Rejected?
      && (SizeAlign(layout).Done? ==>
          var padded := SizeAlign(layout).value;
          && padded.align == a && padded.size >= layout.size && padded.size >= 16
          && (padded.size % a == 0 || padded.size == 16)
          && (m % a == 0 && m >= layout.size && m >= 16 ==> padded.size <= m))
  {
    var a := if layout.align < 8 then 8 else layout.align;
    AlignUpIsMultiple(layout.size, a);
    if m % a == 0 && m >= layout.size {
      MultipleAtMost(m, a, layout.size);
    }
  }

  // ---------- which region is taken ----------

  /** The aligned start in the region is the first multiple of the alignment, and the fit test asks for room behind it
      and for a remainder that is nothing or can hold a node. */
  lemma FitsIff(r: Region, layout: Layout, start: nat)
    requires layout.align > 0 && start % layout.align == 0 && r.addr <= start < r.addr + layout.align
    ensures var end := start + layout.size;
      Fits(r, layout) ==
      if r.addr + layout.align >= 0x1_0000_0000_0000_0000 || end >= 0x1_0000_0000_0000_0000
         || r.addr + r.size >= 0x1_0000_0000_0000_0000 then Panicked
      else Done(start != 0 && end <= r.addr + r.size && (end == r.addr + r.size || end + 16 <= r.addr + r.size))
  {
    MultipleAtMost(start, layout.align, r.addr);
    AlignUpIsMultiple(r.addr, layout.align);
    CloseNumbers(start, AlignUp(r.addr, layout.align), layout.align);
  }

  /** The first region that passes the test; a panic only if testing panics before one does. */
  ghost predicate FirstOf(rs: seq<Region>, layout: Layout, found: Outcome<Option<nat>>)
    requires layout.align > 0
  {
    match found
    case Done(Some(k)) =>
      && k < |rs| && Fits(rs[k], layout) == Done(true)
      && forall i :: 0 <= i < k ==> Fits(rs[i], layout) == Done(false)
    case Done(None) => forall i :: 0 <= i < |rs| ==> Fits(rs[i], layout) == Done(false)
    case Rejected => false
    case Panicked =>
      exists k :: 0 <= k < |rs| && Fits(rs[k], layout) == Panicked
        && forall i :: 0 <= i < k ==> Fits(rs[i], layout) == Done(false)
  }

  lemma {:induction false} FirstFitIsFirst(rs: seq<Region>, layout: Layout)
    requires layout.align > 0
    ensures FirstOf(rs, layout, FirstFit(rs, layout))
  {
    hide Fits;
    if rs != [] {
      FitsNeverRejects(rs[0], layout);
      if Fits(rs[0], layout) == Done(false) {
        FirstFitIsFirst(rs[1..], layout);
        var tail := FirstFit(rs[1..], layout);
        assert forall i :: 1 <= i < |rs| ==> rs[i] == rs[1..][i - 1];
        if tail.Panicked? {
          var k :| 0 <= k < |rs[1..]| && Fits(rs[1..][k], layout) == Panicked
            && forall i :: 0 <= i < k ==> Fits(rs[1..][i], layout) == Done(false);
          assert Fits(rs[k + 1], layout) == Panicked;
        }
      } else if Fits(rs[0], layout) == Panicked {
        assert Fits(rs[0], layout) == Panicked;
      }
    }
  }

  lemma FitsNeverRejects(r: Region, layout: Layout)
    requires layout.align > 0
    ensures Fits(r, layout) in {Done(true), Done(false), Panicked}
  {
  }

  /** A request of any alignment is served from the first region that passes the test, at the region's own start; it
      returns null only if none does. */
  lemma AllocIsFirstFit(rs: seq<Region>, layout: Layout)
    requires layout.align > 0 && Alloc(rs, layout).Done?
    ensures SizeAlign(layout).Done?
    ensures var padded, a := SizeAlign(layout).value, Alloc(rs, layout).value;
      || (a == Allocation(rs, 0) && forall i :: 0 <= i < |rs| ==> Fits(rs[i], padded) == Done(false))
      || (exists k :: 0 <= k < |rs| && FirstOf(rs, padded, Done(Some(k))) && a.addr == rs[k].addr)
  {
    hide Fits;
    var padded := SizeAlign(layout).value;
    FirstFitIsFirst(rs, padded);
  }

  /** A region is accepted exactly if it is aligned for a node, can hold one, and ends neither the address space nor
      the arithmetic. */
  lemma AddFreeIff(rs: seq<Region>, r: Region)
    ensures AddFree(rs, r).Done? <==> r.addr % 8 == 0 && r.size >= 16 && r.addr + 8 < 0x1_0000_0000_0000_0000
    ensures !AddFree(rs, r).Done? ==> AddFree(rs, r) == Panicked
  {
  }

  /** What has left the list when a request was served. */
  ghost predicate Removed(rs: seq<Region>, block: Region, regions: seq<Region>) {
    && WellSized(block) && Canonical(regions)
    && (forall x: nat :: block.Contains(x) ==> Covers(rs, x))
    && (forall x: nat :: Covers(regions, x) <==> Covers(rs, x) && !block.Contains(x))
  }

  lemma CarveRemoves(rs: seq<Region>, k: nat, size: nat)
    requires Canonical(rs) && size >= NODE_SIZE && size % NODE_ALIGN == 0 && k < |rs| && size <= rs[k].size
    requires Carve(rs, k, size).Done?
    ensures Carve(rs, k, size).value.addr == rs[k].addr
    ensures Removed(rs, Region(rs[k].addr, size), Carve(rs, k, size).value.regions)
  {
    CarvePlain(rs, k, size);
    if rs[k].size == size {
      RemoveRegion(rs, k);
      assert Region(rs[k].addr, size) == rs[k];
    } else {
      ShrinkRegion(rs, k, size);
    }
    forall x: nat | Region(rs[k].addr, size).Contains(x) ensures Covers(rs, x) {
      assert rs[k].Contains(x);
    }
  }

  /** A request of any alignment that does not panic takes exactly its block out of the list, or leaves the list
      alone. */
  lemma AllocRemoves(rs: seq<Region>, layout: Layout)
    requires Canonical(rs) && PowerOfTwo(layout.align) && Alloc(rs, layout).Done?
    ensures SizeAlign(layout).Done?
    ensures var Allocation(regions, addr) := Alloc(rs, layout).value;
      if addr == 0 then regions == rs else Removed(rs, Region(addr, SizeAlign(layout).value.size), regions)
  {
    var padded := SizeAlign(layout).value;
    PaddedSize(layout);
    var found := FirstFit(rs, padded).value;
    if found.Some? {
      CarveRemoves(rs, found.value, padded.size);
    }
  }

  /** Freeing the block just allocated, with the same layout, restores the list exactly. */
  lemma DeallocUndoesAlloc(rs: seq<Region>, layout: Layout)
    requires Canonical(rs) && PowerOfTwo(layout.align)
    requires Alloc(rs, layout).Done? && Alloc(rs, layout).value.addr != 0
    ensures var Allocation(regions, addr) := Alloc(rs, layout).value;
      Dealloc(regions, addr, layout) == Done(rs)
  {
    AllocRemoves(rs, layout);
    var Allocation(regions, addr) := Alloc(rs, layout).value;
    var block := Region(addr, SizeAlign(layout).value.size);
    DisjointBytes(regions, block);
    DeallocCanonical(regions, addr, layout);
    CanonicalUnique(Dealloc(regions, addr, layout).value, rs);
  }

  // ---------- alignment ----------

  /** The largest alignment a layout of at least one byte can have. */
  const MAX_ALIGN := 0x4000_0000_0000_0000

  const PAGE_SIZE := 4096

  /** A heap as the kernel lays it out: whole pages. */
  predicate PageHeap(r: Region) {
    r.addr > 0 && r.addr % PAGE_SIZE == 0 && r.size > 0 && r.size % PAGE_SIZE == 0 && r.End() < USIZE_LIMIT
  }

  /** The list after serving the requests in turn. */
  function AllocAll(rs: seq<Region>, layouts: seq<Layout>): Outcome<seq<Region>>
    requires forall l :: l in layouts ==> l.align > 0
    decreases |layouts|
  {
    if layouts == [] then Done(rs)
    else match Alloc(rs, layouts[0])
      case Done(a) => AllocAll(a.regions, layouts[1..])
      case Rejected => Rejected
      case Panicked => Panicked
  }

  predicate Powers(layouts: seq<Layout>) {
    forall l :: l in layouts ==> PowerOfTwo(l.align)
  }

  /** The kernel's heap of 1024 pages is one, wherever it comes to lie. */
  lemma KernelHeap(addr: nat)
    requires addr > 0 && addr % 4096 == 0 && addr + 1024 * 4096 < 0x1_0000_0000_0000_0000
    ensures PageHeap(Region(addr, 1024 * 4096))
  {
  }

  /** A list that requests can lead to on a heap of whole pages. */
  ghost predicate Reached(rs: seq<Region>) {
    exists r, layouts :: PageHeap(r) && Powers(layouts) && AllocAll([r], layouts) == Done(rs)
  }

  lemma {:induction false} AllocAllCanonical(rs: seq<Region>, layouts: seq<Layout>)
    requires Canonical(rs) && Powers(layouts) && AllocAll(rs, layouts).Done?
    ensures Canonical(AllocAll(rs, layouts).value)
    decreases |layouts|
  {
    if layouts != [] {
      AllocRemoves(rs, layouts[0]);
      AllocAllCanonical(Alloc(rs, layouts[0]).value.regions, layouts[1..]);
    }
  }

  lemma EightInPage(x: nat)
    requires x % PAGE_SIZE == 0
    ensures x % 8 == 0
  {
    var k := x / 4096;
    assert x == 4096 * k == 8 * (512 * k);
  }

  lemma PageHeapCanonical(r: Region)
    requires PageHeap(r)
    ensures Canonical([r])
  {
    EightInPage(r.addr);
    EightInPage(r.size);
    assert WellSized([r][0]);
  }

  lemma ReachedCanonical(rs: seq<Region>)
    requires Reached(rs)
    ensures Canonical(rs)
  {
    var r, layouts :| PageHeap(r) && Powers(layouts) && AllocAll([r], layouts) == Done(rs);
    PageHeapCanonical(r);
    AllocAllCanonical([r], layouts);
  }

  /** Every block handed out has the alignment that was asked for. */
  ghost predicate AlwaysAligned(align: nat, lists: iset<seq<Region>>)
    requires align > 0
  {
    forall rs, size :: rs in lists && Alloc(rs, Layout(size, align)).Done? ==>
      Alloc(rs, Layout(size, align)).value.addr % align == 0
  }

  /** No request that stays clear of the end of the address space panics. */
  ghost predicate NeverPanics(align: nat, lists: iset<seq<Region>>)
    requires align > 0
  {
    forall rs, size :: rs in lists && Roomy(rs, Layout(size, align)) ==> Alloc(rs, Layout(size, align)).Done?
  }

  predicate Roomy(rs: seq<Region>, layout: Layout)
    requires layout.align > 0
  {
    && SizeAlign(layout).Done?
    && forall i :: 0 <= i < |rs| ==>
         rs[i].addr + SizeAlign(layout).value.align + SizeAlign(layout).value.size < USIZE_LIMIT
  }

  lemma AllocKeepsNodeAlignment(rs: seq<Region>, layout: Layout)
    requires Canonical(rs) && layout.align > 0 && Alloc(rs, layout).Done?
    ensures Alloc(rs, layout).value.addr % NODE_ALIGN == 0
  {
    var padded := SizeAlign(layout).value;
    var found := FirstFit(rs, padded).value;
    if found.Some? {
      assert Alloc(rs, layout).value.addr == rs[found.value].addr;
    }
  }

  lemma AddFirst(r: Region)
    requires r.addr % NODE_ALIGN == 0 && r.size >= NODE_SIZE && r.End() <= USIZE_LIMIT
    ensures AddFree([], r) == Done([r])
  {
    assert Insert([], r) == [r];
  }

  lemma OneRegionCarved(r: Region, size: nat)
    requires Canonical([r]) && size % NODE_ALIGN == 0 && 0 < size && size + NODE_SIZE <= r.size
    ensures Carve([r], 0, size) == Done(Allocation([Region(r.addr + size, r.size - size)], r.addr))
  {
    var left := Region(r.addr + size, r.size - size);
    assert WellSized([r][0]);
    assert [r][..0] + [r][1..] == [];
    EightSum(r.addr, size);
    AddFirst(left);
  }

  /** A request that fits the only region is served from it, whatever follows. */
  lemma ServedFromOnly(r: Region, layout: Layout)
    requires layout.align > 0 && SizeAlign(layout) == Done(layout) && r.addr + layout.align < USIZE_LIMIT
    requires var end := AlignUp(r.addr, layout.align) + layout.size;
      0 < r.addr && end <= r.End() < USIZE_LIMIT && (end == r.End() || end + NODE_SIZE <= r.End())
    ensures r.size >= layout.size && Alloc([r], layout) == Carve([r], 0, layout.size)
  {
    assert Fits([r][0], layout) == Done(true);
    assert FirstFit([r], layout) == Done(Some(0));
  }

  /** A first request for `size` bytes leaves the rest of the heap as the only region. */
  lemma FirstRequest(r: Region, size: nat)
    requires PageHeap(r) && size % 8 == 0 && 16 <= size && size + 16 <= r.size
    requires r.addr + 8 + size < USIZE_LIMIT && size + 7 <= ISIZE_MAX
    ensures Alloc([r], Layout(size, 8)) == Done(Allocation([Region(r.addr + size, r.size - size)], r.addr))
    ensures Reached([Region(r.addr + size, r.size - size)])
  {
    var layout := Layout(size, 8);
    assert SizeAlign(layout) == Done(layout);
    PageHeapCanonical(r);
    assert WellSized([r][0]);
    ServedFromOnly(r, layout);
    OneRegionCarved(r, size);
    EightIsPower();
    OneRequestReached(r, layout, [Region(r.addr + size, r.size - size)], r.addr);
  }

  lemma OneRequestReached(r: Region, layout: Layout, rs: seq<Region>, addr: nat)
    requires PageHeap(r) && PowerOfTwo(layout.align) && Alloc([r], layout) == Done(Allocation(rs, addr))
    ensures Reached(rs)
  {
    assert [layout][1..] == [];
    assert AllocAll(rs, []) == Done(rs);
    assert Powers([layout]) && AllocAll([r], [layout]) == Done(rs);
  }

  lemma EightIsPower()
    ensures PowerOfTwo(8)
  {
    assert PowerOfTwo(2) && PowerOfTwo(4);
  }

  // ---------- where larger alignments go wrong ----------

  /** The heap of the examples starts at a page that is a multiple of the alignment. */
  function ExampleBase(align: nat): nat {
    if align < PAGE_SIZE then PAGE_SIZE else align
  }

  function ExampleHeap(align: nat): Region {
    Region(ExampleBase(align), 2 * ExampleBase(align))
  }

  /** What is left of it behind the first `size` bytes. */
  function ExampleRest(align: nat, size: nat): (rest: Region)
    requires size <= PAGE_SIZE || size <= align
    ensures rest.End() == ExampleHeap(align).End()
  {
    Region(ExampleBase(align) + size, 2 * ExampleBase(align) - size)
  }

  /** A first request that ends eight bytes in front of a multiple of the alignment, and a second one for
      everything behind that multiple. */
  function StickingFirst(align: nat): Layout {
    Layout(if align < 32 then 24 else align - 8, 8)
  }

  function StickingSecond(align: nat): Layout {
    Layout(if align < 32 then 2 * ExampleBase(align) - 32 else 2 * ExampleBase(align) - align, align)
  }

  lemma {:induction false} SmallAlignment(align: nat)
    requires PowerOfTwo(align) && 8 < align < PAGE_SIZE
    ensures align in {16, 32, 64, 128, 256, 512, 1024, 2048}
  {
    if align <= 16 {
      MultipleOfEight(align);
    } else {
      SmallAlignment(align / 2);
    }
  }

  lemma TwicePages(half: nat, x: nat)
    requires half % PAGE_SIZE == 0 && x == 2 * half
    ensures x % PAGE_SIZE == 0
  {
    var k := half / 4096;
    assert x == 4096 * (2 * k);
  }

  lemma {:induction false} LargeAlignment(align: nat)
    requires PowerOfTwo(align) && align >= PAGE_SIZE
    ensures align % PAGE_SIZE == 0
  {
    if align >= 2 * PAGE_SIZE {
      LargeAlignment(align / 2);
      TwicePages(align / 2, align);
    } else if align > PAGE_SIZE {
      SmallAlignment(align / 2);
    }
  }

  lemma DividesPage(align: nat)
    requires align in {16, 32, 64, 128, 256, 512, 1024, 2048}
    ensures PAGE_SIZE % align == 0
  {
    assert 4096 % 16 == 4096 % 32 == 4096 % 64 == 4096 % 128 == 0;
    assert 4096 % 256 == 4096 % 512 == 4096 % 1024 == 4096 % 2048 == 0;
  }

  lemma ExampleIsPageHeap(align: nat)
    requires PowerOfTwo(align) && 8 < align <= MAX_ALIGN
    ensures PageHeap(ExampleHeap(align)) && ExampleBase(align) % align == 0
    ensures align % 8 == 0 && (align == 16 || align >= 32) && align <= ExampleBase(align) <= MAX_ALIGN
  {
    MultipleOfEight(align);
    if align >= PAGE_SIZE {
      LargeAlignment(align);
      DivideSum(1, align, 0, align);
    } else {
      SmallAlignment(align);
      DividesPage(align);
    }
    hide PowerOfTwo;
    TwicePages(ExampleBase(align), 2 * ExampleBase(align));
  }

  /** The aligned start that the fit test looks at. */
  lemma BehindMultiple(base: nat, align: nat, r: nat)
    requires 0 < r < align && base % align == 0
    ensures (base + r) % align == r && AlignUp(base + r, align) == base + align
  {
    Divided(base, align);
    DivideSum(base / align, align, r, base + r);
  }

  lemma NextMultiple(base: nat, align: nat)
    requires align > 0 && base % align == 0
    ensures (base + align) % align == 0
  {
    Divided(base, align);
    DivideSum(base / align + 1, align, 0, base + align);
  }

  lemma PaddedAlready(size: nat, align: nat)
    requires align >= 16 && size % align == 0 && size >= align && size + align - 1 <= ISIZE_MAX
    ensures SizeAlign(Layout(size, align)) == Done(Layout(size, align))
  {
  }

  /** One over-aligned unit served from a region that starts `skip` bytes behind a multiple of the alignment. */
  lemma Misserved(base: nat, align: nat, skip: nat, r: Region)
    requires align >= 16 && align % 8 == 0 && base % align == 0 && 0 < skip < align && r.addr == base + skip
    requires Canonical([r]) && 2 * align - 1 <= ISIZE_MAX && base + 2 * align < USIZE_LIMIT
    requires base + 2 * align == r.End() || base + 2 * align + NODE_SIZE <= r.End()
    requires align + NODE_SIZE <= r.size
    ensures Alloc([r], Layout(align, align)).Done? && Alloc([r], Layout(align, align)).value.addr == r.addr
    ensures r.addr % align != 0
  {
    assert WellSized([r][0]);
    BehindMultiple(base, align, skip);
    DivideSum(1, align, 0, align);
    PaddedAlready(align, align);
    ServedFromOnly(r, Layout(align, align));
    OneRegionCarved(r, align);
    hide Alloc, SizeAlign, AlignUp;
  }

  lemma MisservedRest(base: nat, align: nat, r: Region)
    requires align % 8 == 0 && (align == 16 || align >= 32) && base % align == 0 && align <= base <= MAX_ALIGN
    requires align < PAGE_SIZE ==> base == PAGE_SIZE
    requires align >= PAGE_SIZE ==> base == align
    requires r == Region(base + 24, 2 * base - 24) && Canonical([r])
    ensures Alloc([r], Layout(align, align)).Done? && Alloc([r], Layout(align, align)).value.addr == r.addr
    ensures r.addr % align != 0
  {
    hide Alloc, Canonical;
    if align == 16 {
      NextMultiple(base, align);
      Misserved(base + 16, align, 8, r);
    } else {
      Misserved(base, align, 24, r);
    }
  }

  /** After a first request for 24 bytes, a request for one over-aligned unit is served with the wrong alignment. */
  lemma MisalignedHeap(align: nat)
    requires PowerOfTwo(align) && 8 < align <= MAX_ALIGN
    ensures var heap, rest, unit := ExampleHeap(align), ExampleRest(align, 24), Layout(align, align);
      && PageHeap(heap) && Alloc([heap], Layout(24, 8)) == Done(Allocation([rest], heap.addr)) && Reached([rest])
      && Alloc([rest], unit).Done? && Alloc([rest], unit).value.addr == rest.addr && rest.addr % align != 0
  {
    hide Alloc, Canonical, Reached;
    var rest := ExampleRest(align, 24);
    ExampleIsPageHeap(align);
    FirstRequest(ExampleHeap(align), 24);
    ReachedCanonical([rest]);
    MisservedRest(ExampleBase(align), align, rest);
  }

  lemma ShortRest(r: Region, size: nat)
    requires r.size == size + 8
    ensures Carve([r], 0, size).Panicked?
  {
  }

  /** A request for everything behind the next multiple of the alignment, from a region that starts eight bytes
      in front of it. */
  lemma StuckRest(base: nat, align: nat, size: nat, r: Region)
    requires align >= 16 && base % align == 0 && r.addr == base + (align - 8) && r.size == size + 8
    requires size % align == 0 && align <= size && size + align - 1 <= ISIZE_MAX
    requires r.addr + align + size < USIZE_LIMIT
    ensures Roomy([r], Layout(size, align)) && Alloc([r], Layout(size, align)).Panicked?
  {
    BehindMultiple(base, align, align - 8);
    PaddedAlready(size, align);
    hide AlignUp, SizeAlign;
    ServedFromOnly(r, Layout(size, align));
    ShortRest(r, size);
    hide Alloc, Carve;
  }

  /** What is left of `2 * base` bytes is a multiple as well. */
  lemma RestMultiple(base: nat, align: nat)
    requires 0 < align <= base && base % align == 0
    ensures (2 * base - align) % align == 0
  {
    var q := base / align;
    Divided(base, align);
    AtLeastOnce(2 * q - 1, align);
    DoubleProduct(align, q);
    Distribute(1, 2 * q, align);
    DivideSum(2 * q - 1, align, 0, 2 * base - align);
  }

  /** After the first of the two sticking requests, the second leaves a remainder too small for a node. */
  lemma PanickingHeap(align: nat)
    requires PowerOfTwo(align) && 8 < align <= MAX_ALIGN
    ensures var heap, first, second := ExampleHeap(align), StickingFirst(align), StickingSecond(align);
      var rest := ExampleRest(align, first.size);
      && PageHeap(heap) && Alloc([heap], first) == Done(Allocation([rest], heap.addr)) && Reached([rest])
      && Roomy([rest], second) && Alloc([rest], second).Panicked?
  {
    hide Alloc, Reached, Roomy, PowerOfTwo;
    var base, first, second := ExampleBase(align), StickingFirst(align), StickingSecond(align);
    ExampleIsPageHeap(align);
    FirstRequest(ExampleHeap(align), first.size);
    RestMultiple(base, align);
    if align == 16 {
      NextMultiple(base, align);
      DivideSum(510, 16, 0, 8160);
      StuckRest(base + 16, align, second.size, ExampleRest(align, first.size));
    } else {
      StuckRest(base, align, second.size, ExampleRest(align, first.size));
    }
  }

  lemma {:induction false} SmallPowers(align: nat)
    requires PowerOfTwo(align) && align <= 8
    ensures align in {1, 2, 4, 8}
  {
    if align > 1 {
      SmallPowers(align / 2);
    }
  }

  lemma DividesEight(addr: nat, align: nat)
    requires align in {1, 2, 4, 8} && addr % 8 == 0
    ensures addr % align == 0
  {
    var k := addr / 8;
    DivideSum(8 * k, 1, 0, addr);
    DivideSum(4 * k, 2, 0, addr);
    DivideSum(2 * k, 4, 0, addr);
  }

  /** The fit test looks at the aligned start, but the block starts where the region does. So alignment is
      respected, and the remainder can always be returned, exactly for alignments up to that of a node: whether
      all canonical lists are meant, or only those that requests lead to on a heap of whole pages. */
  lemma SoundIffNodeAligned(align: nat, lists: iset<seq<Region>>)
    requires PowerOfTwo(align) && align <= MAX_ALIGN
    requires forall rs :: (Reached(rs) ==> rs in lists) && (rs in lists ==> Canonical(rs))
    ensures AlwaysAligned(align, lists) <==> align <= NODE_ALIGN
    ensures NeverPanics(align, lists) <==> align <= NODE_ALIGN
  {
    if align <= NODE_ALIGN {
      SmallPowers(align);
      forall rs, size | rs in lists && Alloc(rs, Layout(size, align)).Done?
        ensures Alloc(rs, Layout(size, align)).value.addr % align == 0
      {
        AllocKeepsNodeAlignment(rs, Layout(size, align));
        DividesEight(Alloc(rs, Layout(size, align)).value.addr, align);
      }
      forall rs, size | rs in lists && Roomy(rs, Layout(size, align)) ensures Alloc(rs, Layout(size, align)).Done? {
        AllocCanonical(rs, Layout(size, align));
      }
    } else {
      MisalignedHeap(align);
      PanickingHeap(align);
      var rest, stuck := [ExampleRest(align, 24)], [ExampleRest(align, StickingFirst(align).size)];
      assert rest in lists && Alloc(rest, Layout(align, align)).value.addr % align != 0;
      assert stuck in lists && Roomy(stuck, StickingSecond(align)) && Alloc(stuck, StickingSecond(align)).Panicked?;
    }
  }
}
