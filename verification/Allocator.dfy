/** The heap as the kernel keeps it: free memory threaded into a linked list of nodes, spliced in place. Every
    method does to the list what the function of the same name in `FreeList` does to the regions. */
module Allocator {
  import opened Outcomes
  import opened FreeList

  /** A node lies at the start of the free memory it describes. */
  class MemNode {
    const addr: nat
    var size: nat
    var next: MemNode?

    constructor (addr: nat, size: nat)
      ensures this.addr == addr && this.size == size && next == null
    {
      this.addr, this.size, next := addr, size, null;
    }

    function EndAddr(): nat
      reads this
    {
      addr + size
    }
  }

  /** No region starts where the head node lies. */
  ghost predicate HeadApart(rs: seq<Region>) {
    forall j :: 1 <= j < |rs| ==> rs[j].addr != rs[0].addr
  }

  lemma InsertBehind(rs: seq<Region>, i: nat, r: Region)
    requires i < |rs| && (forall j :: 1 <= j <= i ==> rs[j].addr <= r.addr) &&
      (i + 1 < |rs| ==> r.addr < rs[i + 1].addr)
    ensures (rs[..i + 1] + [r] + rs[i + 1..])[1..] == Insert(rs[1..], r)
  {
    var before, after := rs[1..i + 1], rs[i + 1..];
    assert rs[1..] == before + after;
    assert (rs[..i + 1] + [r] + after)[1..] == before + [r] + after;
    forall j | 0 <= j < |before| ensures before[j].addr <= r.addr {
      assert before[j] == rs[j + 1];
    }
    InsertBetween(before, after, r);
  }

  class LinkedListAllocator {
    /** The node before the first region; it describes no memory. */
    const head: MemNode
    /** All nodes in list order, `head` first, and what they describe. */
    ghost var chain: seq<MemNode>
    ghost var regions: seq<Region>
    /** The nodes that are or once were in the list. */
    ghost var nodes: set<MemNode>

    constructor (headAddr: nat)
      ensures Valid() && regions[1..] == [] && head.addr == headAddr && fresh(nodes)
    {
      head := new MemNode(headAddr, 0);
      chain := [head];
      regions := [Region(headAddr, 0)];
      nodes := {head};
    }

    ghost predicate Valid()
      reads this, nodes
    {
      && (forall i :: 0 <= i < |chain| ==> chain[i] in nodes)
      && 0 < |chain| == |regions| && chain[0] == head && regions[0] == Region(head.addr, 0)
      && (forall i, j :: 0 <= i < j < |chain| ==> chain[i] != chain[j])
      && (forall i {:trigger chain[i].next} :: 0 <= i < |chain| ==>
            chain[i].next == if i + 1 < |chain| then chain[i + 1] else null)
      && (forall i :: 0 <= i < |chain| ==> regions[i] == Region(chain[i].addr, chain[i].size))
    }

    /** The node after which a region at `ptr` belongs. */
    method FindSpot(ptr: nat) returns (target: MemNode, ghost i: nat)
      requires Valid()
      ensures i < |chain| && target == chain[i]
      ensures forall j :: 1 <= j <= i ==> regions[j].addr <= ptr
      ensures i + 1 < |chain| ==> ptr < regions[i + 1].addr
    {
      target, i := head, 0;
      while target.next != null
        invariant i < |chain| && target == chain[i]
        invariant forall j :: 1 <= j <= i ==> regions[j].addr <= ptr
        decreases |chain| - i
      {
        assert target.next == chain[i + 1] && regions[i + 1].addr == target.next.addr;
        if target.next.addr > ptr {
          break;
        }
        target := target.next;
        i := i + 1;
      }
    }

    /** Splices `node` in behind `target`. */
    method LinkAfter(target: MemNode, ghost i: nat, node: MemNode)
      requires Valid() && i < |chain| && target == chain[i] && node !in nodes
      modifies target, node, this`chain, this`regions, this`nodes
      ensures Valid() && nodes == old(nodes) + {node} && chain == old(chain)[..i + 1] + [node] + old(chain)[i + 1..]
      ensures regions == old(regions)[..i + 1] + [Region(node.addr, old(node.size))] + old(regions)[i + 1..]
    {
      node.next := target.next;
      target.next := node;
      nodes := nodes + {node};
      chain := chain[..i + 1] + [node] + chain[i + 1..];
      regions := regions[..i + 1] + [Region(node.addr, node.size)] + regions[i + 1..];
    }

    /** Takes the node behind `target` out of the list. */
    method UnlinkAfter(target: MemNode, ghost i: nat) returns (node: MemNode)
      requires Valid() && i + 1 < |chain| && target == chain[i]
      modifies target, chain[i + 1], this`chain, this`regions
      ensures Valid() && node == old(chain[i + 1]) && node.size == old(chain[i + 1].size)
      ensures chain == old(chain)[..i + 1] + old(chain)[i + 2..]
      ensures regions == old(regions)[..i + 1] + old(regions)[i + 2..]
    {
      node := target.next;
      target.next := node.next;
      node.next := null;
      chain := chain[..i + 1] + chain[i + 2..];
      regions := regions[..i + 1] + regions[i + 2..];
    }

    method AddFreeRegion(ptr: nat, size: nat) returns (r: Outcome<()>)
      requires Valid()
      modifies nodes, this`chain, this`regions, this`nodes
      ensures Valid() && fresh(nodes - old(nodes))
      ensures match AddFree(old(regions)[1..], Region(ptr, size))
              case Done(rs) => r == Done(()) && regions[1..] == rs
              case Rejected => r.Rejected?
              case Panicked => r.Panicked?
    {
      if ptr + NODE_ALIGN >= USIZE_LIMIT || ptr % NODE_ALIGN != 0 || size < NODE_SIZE {
        return Panicked;
      }
      var target, i := FindSpot(ptr);
      InsertBehind(regions, i, Region(ptr, size));
      var node := new MemNode(ptr, size);
      LinkAfter(target, i, node);
      return Done(());
    }

    /** Merges the node behind `current` into it. */
    method MergeNext(current: MemNode, ghost i: nat)
      requires Valid() && 1 <= i && i + 1 < |chain| && current == chain[i] && regions[i].End() == regions[i + 1].addr
      modifies current, chain[i + 1], this`chain, this`regions
      ensures Valid() && chain == old(chain)[..i + 1] + old(chain)[i + 2..]
      ensures regions == MergeAt(old(regions), i)
    {
      var size := current.size;
      var next := UnlinkAfter(current, i);
      current.size := size + next.size;
      regions := regions[i := Region(current.addr, current.size)];
    }

    /** Merges neighbouring nodes along the whole list. The head lies outside the heap, so it never touches a
        region. */
    method CoalesceMemory()
      requires Valid()
      requires HeadApart(regions)
      modifies nodes, this`chain, this`regions, this`nodes
      ensures Valid() && nodes == old(nodes)
      ensures regions[1..] == Coalesce(old(regions)[1..])
    {
      var current := head;
      ghost var i := 0;
      while current.next != null
        invariant Valid() && 0 <= i < |chain| && current == chain[i]
        invariant nodes == old(nodes)
        invariant HeadApart(regions) && CoalescedTo(regions, i) == Coalesce(old(regions)[1..])
        decreases |chain| - i
      {
        var next := current.next;
        assert next == chain[i + 1] && regions[i + 1].addr == next.addr && regions[i].End() == current.EndAddr();
        assert i == 0 ==> next.addr != head.addr;
        if current.EndAddr() == next.addr {
          MergeAtKeeps(regions, i);
          MergeNext(current, i);
        } else {
          AdvanceKeeps(regions, i);
          current := next;
          i := i + 1;
        }
      }
    }

    /** The node before the first one that fits; null if none does. */
    method FindBefore(layout: Layout) returns (r: Outcome<MemNode?>)
      requires Valid() && layout.align > 0
      ensures match FirstFit(regions[1..], layout)
              case Done(None) => r == Done(null)
              case Done(Some(k)) => r == Done(chain[k])
              case Rejected => r.Rejected?
              case Panicked => r.Panicked?
    {
      hide Fits;
      var current := head;
      ghost var i := 0;
      while current.next != null
        invariant i < |chain| && current == chain[i]
        invariant FirstFit(regions[1..], layout) == Later(i, FirstFit(regions[i + 1..], layout))
        decreases |chain| - i
      {
        var node := current.next;
        assert node == chain[i + 1] && regions[i + 1] == Region(node.addr, node.size);
        FirstFitStep(regions, i, layout);
        var fits :- Fits(Region(node.addr, node.size), layout);
        if fits {
          return Done(current);
        }
        current := node;
        i := i + 1;
      }
      return Done(null);
    }

    /** Takes the first node that fits out of the list; null if none does. */
    method FindRegion(layout: Layout) returns (r: Outcome<MemNode?>)
      requires Valid() && layout.align > 0
      modifies nodes, this`chain, this`regions
      ensures Valid()
      ensures match FirstFit(old(regions)[1..], layout)
              case Done(None) => r == Done(null) && regions == old(regions)
              case Done(Some(k)) =>
                && r.Done? && r.value != null
                && Region(r.value.addr, r.value.size) == old(regions)[1..][k]
                && regions[1..] == old(regions)[1..][..k] + old(regions)[1..][k + 1..]
              case Rejected => r.Rejected?
              case Panicked => r.Panicked?
    {
      ghost var found := FirstFit(regions[1..], layout);
      var before :- FindBefore(layout);
      if before == null {
        return Done(null);
      }
      ghost var k := found.value.value;
      RemoveBehind(regions, k);
      var node := UnlinkAfter(before, k);
      return Done(node);
    }

    /** The address of a block, or 0. */
    method InnerAlloc(layout: Layout) returns (r: Outcome<nat>)
      requires Valid() && layout.align > 0
      modifies nodes, this`chain, this`regions, this`nodes
      ensures Valid() && fresh(nodes - old(nodes))
      ensures match Alloc(old(regions)[1..], layout)
              case Done(a) => r == Done(a.addr) && regions[1..] == a.regions
              case Rejected => r.Rejected?
              case Panicked => r.Panicked?
    {
      hide SizeAlign, Insert;
      var padded :- SizeAlign(layout);
      var region :- FindRegion(padded);
      if region == null {
        return Done(0);
      }
      ghost var rs := regions[1..];
      var end := region.addr + padded.size;
      var extra := region.EndAddr() - end;
      assert AddRest(rs, Region(region.addr, region.size), padded.size) ==
             if extra > 0 then AddFree(rs, Region(end, extra)) else Done(rs);
      if extra > 0 {
        var _ :- AddFreeRegion(end, extra);
      }
      return Done(region.addr);
    }

    method InnerDealloc(ptr: nat, layout: Layout) returns (r: Outcome<()>)
      requires Valid() && layout.align > 0
      requires ptr != head.addr && HeadApart(regions)
      modifies nodes, this`chain, this`regions, this`nodes
      ensures Valid() && fresh(nodes - old(nodes))
      ensures match Dealloc(old(regions)[1..], ptr, layout)
              case Done(rs) => r == Done(()) && regions[1..] == rs
              case Rejected => r.Rejected?
              case Panicked => r.Panicked?
    {
      var padded :- SizeAlign(layout);
      ghost var rs := regions[1..];
      var _ :- AddFreeRegion(ptr, padded.size);
      InsertMembers(rs, Region(ptr, padded.size));
      forall j | 1 <= j < |regions| ensures regions[j].addr != regions[0].addr {
        assert regions[j] == regions[1..][j - 1] && regions[j] in Insert(rs, Region(ptr, padded.size));
      }
      CoalesceMemory();
      return Done(());
    }
  }

  lemma RemoveBehind(rs: seq<Region>, i: nat)
    requires i + 1 < |rs|
    ensures (rs[..i + 1] + rs[i + 2..])[1..] == rs[1..][..i] + rs[1..][i + 1..]
  {
  }

  ghost function MergeAt(rs: seq<Region>, i: nat): seq<Region>
    requires i + 1 < |rs|
  {
    rs[..i] + [Region(rs[i].addr, rs[i].size + rs[i + 1].size)] + rs[i + 2..]
  }

  /** What the list will be once the merging that has come to position `i` is finished. */
  ghost function CoalescedTo(rs: seq<Region>, i: nat): seq<Region>
    requires i < |rs|
  {
    if i == 0 then Coalesce(rs[1..]) else rs[1..i] + Coalesce(rs[i..])
  }

  lemma MergeAtKeeps(rs: seq<Region>, i: nat)
    requires 1 <= i && i + 1 < |rs| && rs[i].End() == rs[i + 1].addr
    ensures CoalescedTo(MergeAt(rs, i), i) == CoalescedTo(rs, i)
    ensures HeadApart(rs) ==> HeadApart(MergeAt(rs, i))
  {
    assert MergeAt(rs, i)[i..] == [Region(rs[i].addr, rs[i].size + rs[i + 1].size)] + rs[i..][2..];
    assert MergeAt(rs, i)[1..i] == rs[1..i];
  }

  lemma AdvanceKeeps(rs: seq<Region>, i: nat)
    requires i + 1 < |rs| && rs[i].End() != rs[i + 1].addr
    ensures CoalescedTo(rs, i + 1) == CoalescedTo(rs, i)
  {
    if i > 0 {
      assert rs[i..][1..] == rs[i + 1..];
      assert rs[1..i + 1] == rs[1..i] + [rs[i]];
    }
  }

  /** An index found `i` places further on. */
  function Later(i: nat, r: Outcome<Option<nat>>): Outcome<Option<nat>> {
    match r
    case Done(Some(k)) => Done(Some(k + i))
    case _ => r
  }

  lemma FirstFitStep(rs: seq<Region>, i: nat, layout: Layout)
    requires i + 1 < |rs| && layout.align > 0
    ensures FirstFit(rs[i + 1..], layout) ==
            match Fits(rs[i + 1], layout)
            case Done(true) => Done(Some(0))
            case Done(false) => Later(1, FirstFit(rs[i + 2..], layout))
            case Rejected => Rejected
            case Panicked => Panicked
  {
    hide Fits;
    assert rs[i + 1..][1..] == rs[i + 2..];
  }

}
