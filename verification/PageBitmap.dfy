/** The physical page allocator as functions on page numbers: a next-fit search with a retry from the start of
    memory, where address 0 doubles as failure. */
module PageBitmap {
  import opened Outcomes

  const PAGE_SIZE := 4096

  /** `used[i]` says that page `i` is taken or not memory at all. */
  datatype Pages = Pages(used: seq<bool>, cursor: nat, usedPages: nat)

  predicate FreeRun(used: seq<bool>, page: nat, n: nat) {
    page + n <= |used| && forall i :: page <= i < page + n ==> !used[i]
  }

  /** The lowest free run of `n` pages that starts at `from` or later and ends by `limit`. */
  function Search(used: seq<bool>, from: nat, n: nat, limit: nat): (r: Option<nat>)
    requires limit <= |used|
    ensures match r
            case Some(p) =>
              && from <= p && p + n <= limit && FreeRun(used, p, n)
              && forall q :: from <= q < p ==> !FreeRun(used, q, n)
            case None => forall q :: from <= q && q + n <= limit ==> !FreeRun(used, q, n)
    decreases limit - from
  {
    if from + n > limit then None
    else if FreeRun(used, from, n) then Some(from)
    else if from == limit then None
    else Search(used, from + 1, n, limit)
  }

  /** The lowest run is unique. */
  lemma {:induction false} SearchFinds(used: seq<bool>, from: nat, n: nat, limit: nat, p: nat)
    requires limit <= |used| && from <= p && p + n <= limit && FreeRun(used, p, n)
    requires forall q :: from <= q < p ==> !FreeRun(used, q, n)
    ensures Search(used, from, n, limit) == Some(p)
  {
    var r := Search(used, from, n, limit);
    assert r.Some?;
  }

  function Mark(used: seq<bool>, page: nat, n: nat, value: bool): (r: seq<bool>)
    requires page + n <= |used|
    ensures |r| == |used|
    ensures forall i :: 0 <= i < |used| ==> r[i] == if page <= i < page + n then value else used[i]
  {
    seq(|used|, i requires 0 <= i < |used| => if page <= i < page + n then value else used[i])
  }

  /** One pass up to `limit`. The address returned is 0 when nothing was found. */
  function InnerAlloc(s: Pages, n: nat, limit: nat): (Pages, nat)
    requires limit <= |s.used|
  {
    var found := if n == 0 then None else Search(s.used, s.cursor, n, limit);
    match found
    case Some(p) => (s.(used := Mark(s.used, p, n, true), cursor := p + n), p * PAGE_SIZE)
    case None => (s.(cursor := if s.cursor < limit then limit else s.cursor), 0)
  }

  /** Two passes. The second one is limited by where the first one ended, not by where it began. */
  function Alloc(s: Pages, n: nat, highest: nat): (Pages, nat)
    requires s.cursor <= highest <= |s.used|
  {
    var (s1, addr1) := InnerAlloc(s, n, highest);
    if addr1 != 0 then (s1.(usedPages := s1.usedPages + n), addr1)
    else
      var (s2, addr2) := InnerAlloc(s1.(cursor := 0), n, s1.cursor);
      if addr2 != 0 then (s2.(usedPages := s2.usedPages + n), addr2) else (s2, 0)
  }

  /** Gives the pages back; the count must not drop below zero. */
  function Dealloc(s: Pages, addr: nat, n: nat): Pages
    requires addr / PAGE_SIZE + n <= |s.used| && n <= s.usedPages
  {
    s.(used := Mark(s.used, addr / PAGE_SIZE, n, false), usedPages := s.usedPages - n)
  }

  // ---------- completeness ----------

  ghost predicate SomeRun(used: seq<bool>, n: nat, highest: nat) {
    exists p :: 0 <= p && p + n <= highest && FreeRun(used, p, n)
  }

  /** What an allocation of `n` pages promises. */
  ghost predicate Served(s: Pages, n: nat, highest: nat)
    requires s.cursor <= highest <= |s.used|
  {
    var (s', addr) := Alloc(s, n, highest);
    if n == 0 || !SomeRun(s.used, n, highest) then
      addr == 0 && s'.used == s.used && s'.usedPages == s.usedPages && s'.cursor == highest
    else
      var p := addr / PAGE_SIZE;
      && addr != 0 && addr == 4096 * p
      && p + n <= highest && FreeRun(s.used, p, n)
      && s'.used == Mark(s.used, p, n, true) && s'.usedPages == s.usedPages + n && s'.cursor == p + n
  }

  lemma PageOfAddress(p: nat)
    ensures p * PAGE_SIZE / PAGE_SIZE == p && p * PAGE_SIZE % PAGE_SIZE == 0
  {
  }

  /** With page 0 taken the search is sound and complete wherever the cursor stands. */
  lemma AllocServed(s: Pages, n: nat, highest: nat)
    requires s.cursor <= highest <= |s.used| && (highest > 0 ==> s.used[0])
    ensures Served(s, n, highest)
  {
    if n > 0 {
      if p :| Search(s.used, s.cursor, n, highest) == Some(p) {
        assert p != 0;
        PageOfAddress(p);
      } else if p :| Search(s.used, 0, n, highest) == Some(p) {
        assert p != 0;
        PageOfAddress(p);
      }
    }
  }

  /** The allocation is next-fit: a run at or behind the cursor is preferred, and the lowest such run is taken. */
  lemma AllocIsNextFit(s: Pages, n: nat, highest: nat)
    requires s.cursor <= highest <= |s.used| && (highest > 0 ==> s.used[0]) && n > 0
    ensures var (_, addr) := Alloc(s, n, highest);
      var ahead, all := Search(s.used, s.cursor, n, highest), Search(s.used, 0, n, highest);
      addr == match (ahead, all) case (Some(p), _) => p * PAGE_SIZE case (None, Some(p)) => p * PAGE_SIZE case _ => 0
  {
    if p :| Search(s.used, s.cursor, n, highest) == Some(p) {
      assert p != 0;
    }
  }

  /** Page 0 must be taken, because its address reads as failure: otherwise, and only then, some request is
      refused although there is room, and a page is lost. */
  lemma CompleteIffPageZeroTaken(used: seq<bool>, highest: nat)
    requires highest <= |used|
    ensures (forall cursor, n, count :: 0 <= cursor <= highest ==> Served(Pages(used, cursor, count), n, highest)) <==>
            (highest == 0 || used[0])
  {
    if highest == 0 || used[0] {
      forall cursor, n, count | 0 <= cursor <= highest ensures Served(Pages(used, cursor, count), n, highest) {
        AllocServed(Pages(used, cursor, count), n, highest);
      }
    } else {
      var s := Pages(used, 0, 0);
      assert FreeRun(used, 0, 1) && SomeRun(used, 1, highest);
      assert Search(used, 0, 1, highest) == Some(0);
      assert !Served(s, 1, highest);
    }
  }

  // ---------- conservation ----------

  function CountClear(used: seq<bool>): nat {
    if used == [] then 0 else CountClear(used[..|used| - 1]) + if used[|used| - 1] then 0 else 1
  }

  lemma {:induction false} MarkCount(used: seq<bool>, page: nat, n: nat, value: bool)
    requires page + n <= |used|
    requires forall i :: page <= i < page + n ==> used[i] != value
    ensures CountClear(Mark(used, page, n, value)) == if value then CountClear(used) - n else CountClear(used) + n
  {
    var marked, k := Mark(used, page, n, value), |used| - 1;
    if used == [] {
    } else if page + n <= k {
      MarkCount(used[..k], page, n, value);
      assert marked[..k] == Mark(used[..k], page, n, value);
    } else if n > 0 {
      MarkCount(used[..k], page, n - 1, value);
      assert marked[..k] == Mark(used[..k], page, n - 1, value);
    } else {
      assert marked == used;
    }
  }

  datatype Run = Run(page: nat, n: nat)

  datatype Op = AllocPages(n: nat) | FreePages(run: Run)

  datatype World = World(pages: Pages, live: set<Run>)

  function Step(w: World, op: Op, highest: nat): World
    requires w.pages.cursor <= highest <= |w.pages.used|
  {
    match op
    case AllocPages(n) =>
      var (pages, addr) := Alloc(w.pages, n, highest);
      if addr == 0 then w.(pages := pages) else World(pages, w.live + {Run(addr / PAGE_SIZE, n)})
    case FreePages(run) =>
      if run in w.live && run.page + run.n <= |w.pages.used| && run.n <= w.pages.usedPages then
        World(Dealloc(w.pages, run.page * PAGE_SIZE, run.n), w.live - {run})
      else w
  }

  predicate Apart(a: Run, b: Run) {
    a.page + a.n <= b.page || b.page + b.n <= a.page
  }

  predicate Holds(r: Run, i: nat) {
    r.page <= i < r.page + r.n
  }

  predicate Held(live: set<Run>, i: nat) {
    exists r :: r in live && Holds(r, i)
  }

  /** Relative to the pages taken at the start: a page is taken exactly if it was then or lies in a live run, no
      page lies in two runs, and the count of used pages balances the clear pages. */
  ghost predicate Balanced(w: World, initial: seq<bool>, highest: nat) {
    && w.pages.cursor <= highest <= |initial| == |w.pages.used| && (highest > 0 ==> initial[0])
    && w.pages.usedPages + CountClear(w.pages.used) == CountClear(initial)
    && (forall i :: 0 <= i < |initial| ==> (w.pages.used[i] <==> initial[i] || Held(w.live, i)))
    && (forall r :: r in w.live ==> 0 < r.n && r.page + r.n <= highest)
    && (forall r, i: nat :: r in w.live && Holds(r, i) ==> !initial[i])
    && (forall a, b :: a in w.live && b in w.live && a != b ==> Apart(a, b))
  }

  lemma {:induction false} ClearCountMonotone(a: seq<bool>, b: seq<bool>)
    requires |a| == |b| && forall i :: 0 <= i < |a| && a[i] ==> b[i]
    ensures CountClear(b) <= CountClear(a)
  {
    if a != [] {
      ClearCountMonotone(a[..|a| - 1], b[..|b| - 1]);
    }
  }

  lemma HeldWith(live: set<Run>, run: Run, i: nat)
    ensures Held(live + {run}, i) <==> Held(live, i) || Holds(run, i)
  {
    if Held(live, i) {
      var r :| r in live && Holds(r, i);
      assert r in live + {run};
    }
    assert run in live + {run};
  }

  lemma TakeBalanced(w: World, initial: seq<bool>, highest: nat, run: Run, pages: Pages)
    requires Balanced(w, initial, highest) && run.n > 0 && run.page + run.n <= highest
    requires FreeRun(w.pages.used, run.page, run.n) && pages.cursor <= highest
    requires pages.used == Mark(w.pages.used, run.page, run.n, true) && pages.usedPages == w.pages.usedPages + run.n
    ensures Balanced(World(pages, w.live + {run}), initial, highest)
  {
    MarkCount(w.pages.used, run.page, run.n, true);
    forall i: nat {
      HeldWith(w.live, run, i);
    }
    forall r | r in w.live ensures Apart(r, run) {
      var i := if r.page <= run.page then run.page else r.page;
      assert Holds(r, i) ==> Held(w.live, i);
    }
  }

  lemma AllocBalanced(w: World, initial: seq<bool>, highest: nat, n: nat)
    requires Balanced(w, initial, highest)
    ensures Balanced(Step(w, AllocPages(n), highest), initial, highest)
  {
    AllocServed(w.pages, n, highest);
    var (pages, addr) := Alloc(w.pages, n, highest);
    if addr != 0 {
      TakeBalanced(w, initial, highest, Run(addr / PAGE_SIZE, n), pages);
    }
  }

  lemma FreeBalanced(w: World, initial: seq<bool>, highest: nat, run: Run)
    requires Balanced(w, initial, highest) && run in w.live
    ensures run.n <= w.pages.usedPages
    ensures Balanced(Step(w, FreePages(run), highest), initial, highest)
    ensures Step(w, FreePages(run), highest).live == w.live - {run}
    ensures Step(w, FreePages(run), highest).pages.cursor == w.pages.cursor
  {
    PageOfAddress(run.page);
    var used := Mark(w.pages.used, run.page, run.n, false);
    forall i | run.page <= i < run.page + run.n ensures w.pages.used[i] && !initial[i] {
      assert Holds(run, i);
    }
    MarkCount(w.pages.used, run.page, run.n, false);
    forall i: nat ensures Held(w.live - {run}, i) <==> Held(w.live, i) && !Holds(run, i) {
      if Held(w.live, i) && !Holds(run, i) {
        var r :| r in w.live && Holds(r, i);
        assert r in w.live - {run};
      }
    }
    ClearCountMonotone(initial, used);
  }

  function RunOps(w: World, ops: seq<Op>, highest: nat): World
    requires w.pages.cursor <= highest <= |w.pages.used|
    decreases ops
  {
    if ops == [] then w
    else
      var w' := Step(w, ops[0], highest);
      if w'.pages.cursor <= highest <= |w'.pages.used| then RunOps(w', ops[1..], highest) else w'
  }

  lemma StepBalanced(w: World, initial: seq<bool>, op: Op, highest: nat)
    requires Balanced(w, initial, highest)
    ensures Balanced(Step(w, op, highest), initial, highest)
  {
    match op
    case AllocPages(n) => AllocBalanced(w, initial, highest, n);
    case FreePages(run) =>
      if run in w.live {
        FreeBalanced(w, initial, highest, run);
      }
  }

  /** Over every run of allocations and frees the books balance. */
  lemma {:induction false} RunsBalance(w: World, initial: seq<bool>, ops: seq<Op>, highest: nat)
    requires Balanced(w, initial, highest)
    ensures Balanced(RunOps(w, ops, highest), initial, highest)
    decreases ops
  {
    if ops != [] {
      StepBalanced(w, initial, ops[0], highest);
      RunsBalance(Step(w, ops[0], highest), initial, ops[1..], highest);
    }
  }

  /** Once everything is freed, in whatever order, the bitmap is the initial one and nothing counts as used. */
  lemma AllFreed(pages: Pages, ops: seq<Op>, highest: nat)
    requires pages.cursor <= highest <= |pages.used| && (highest > 0 ==> pages.used[0]) && pages.usedPages == 0
    ensures var w := RunOps(World(pages, {}), ops, highest);
      w.live == {} ==> w.pages.used == pages.used && w.pages.usedPages == 0
  {
    RunsBalance(World(pages, {}), pages.used, ops, highest);
    var w := RunOps(World(pages, {}), ops, highest);
    if w.live == {} {
      forall i | 0 <= i < |pages.used| ensures w.pages.used[i] == pages.used[i] {
        assert !Held(w.live, i);
      }
      assert w.pages.used == pages.used;
    }
  }
}
