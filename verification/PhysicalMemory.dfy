/** The physical memory manager as the kernel runs it: a bitmap of bytes scanned with a cursor. Its methods
    do what the functions of `PageBitmap` say. */
module PhysicalMemory {
  import opened Outcomes
  import opened PageBitmap

  // ---------- bits of a byte ----------

  /** `1 << i`. */
  function BitMask(i: nat): bv8
    requires i < 8
  {
    match i
    case 0 => 0x01
    case 1 => 0x02
    case 2 => 0x04
    case 3 => 0x08
    case 4 => 0x10
    case 5 => 0x20
    case 6 => 0x40
    case 7 => 0x80
  }

  predicate TestBit(b: bv8, i: nat)
    requires i < 8
  {
    b & BitMask(i) != 0
  }

  function WithBit(b: bv8, i: nat, value: bool): bv8
    requires i < 8
  {
    if value then b | BitMask(i) else b & !BitMask(i)
  }

  /** Setting or clearing one bit of a byte changes that bit and no other. */
  lemma OneBitOnly(b: bv8, i: nat, value: bool, j: nat)
    requires i < 8 && j < 8
    ensures TestBit(WithBit(b, i, value), j) == if i == j then value else TestBit(b, j)
  {
  }

  lemma AllBitsSet(j: nat)
    requires j < 8
    ensures TestBit(0xFF, j)
  {
  }

  /** What the bytes of the bitmap say about the pages. */
  function PageBits(bytes: seq<bv8>): (used: seq<bool>)
    ensures |used| == 8 * |bytes|
  {
    seq(8 * |bytes|, p requires 0 <= p < 8 * |bytes| => TestBit(bytes[p / 8], p % 8))
  }

  lemma UpdatedBit(bytes: seq<bv8>, p: nat, value: bool, q: nat)
    requires p < 8 * |bytes| && q < 8 * |bytes|
    ensures TestBit(bytes[p / 8 := WithBit(bytes[p / 8], p % 8, value)][q / 8], q % 8) ==
            if p == q then value else TestBit(bytes[q / 8], q % 8)
  {
    var b := WithBit(bytes[p / 8], p % 8, value);
    if p / 8 == q / 8 {
      assert bytes[p / 8 := b][q / 8] == b;
      OneBitOnly(bytes[p / 8], p % 8, value, q % 8);
      assert p % 8 == q % 8 <==> p == q;
    } else {
      assert bytes[p / 8 := b][q / 8] == bytes[q / 8];
    }
  }

  lemma UpdateByte(bytes: seq<bv8>, p: nat, value: bool)
    requires p < 8 * |bytes|
    ensures PageBits(bytes[p / 8 := WithBit(bytes[p / 8], p % 8, value)]) == PageBits(bytes)[p := value]
  {
    var after := bytes[p / 8 := WithBit(bytes[p / 8], p % 8, value)];
    forall q: nat | q < 8 * |bytes| ensures PageBits(after)[q] == PageBits(bytes)[p := value][q] {
      UpdatedBit(bytes, p, value, q);
    }
  }

  // ---------- the memory map ----------

  datatype Entry = Entry(usable: bool, base: nat, length: nat)

  function Max(a: nat, b: nat): nat {
    if a < b then b else a
  }

  /** One past the last usable byte. */
  function HighestAddr(es: seq<Entry>): nat {
    if es == [] then 0
    else
      var e, rest := es[|es| - 1], HighestAddr(es[..|es| - 1]);
      if e.usable then Max(rest, e.base + e.length) else rest
  }

  function UsablePages(es: seq<Entry>): nat {
    if es == [] then 0
    else
      var e := es[|es| - 1];
      UsablePages(es[..|es| - 1]) + if e.usable then e.length / PAGE_SIZE else 0
  }

  /** Bytes of the bitmap: an eighth of the pages, rounded down, and then up to whole pages. */
  function BitmapSize(pages: nat): nat {
    (pages / 8 + PAGE_SIZE - 1) / PAGE_SIZE * PAGE_SIZE
  }

  /** The two roundings leave the bitmap short exactly when the number of pages is one to seven more than a
      multiple of 32768. */
  lemma BitmapCoversIff(pages: nat)
    ensures 8 * BitmapSize(pages) >= pages <==> !(1 <= pages % 32768 <= 7)
  {
    var q, r := pages / 32768, pages % 32768;
    assert pages / 8 == 4096 * q + r / 8;
    assert (pages / 8 + PAGE_SIZE - 1) / PAGE_SIZE == q + (r / 8 + PAGE_SIZE - 1) / PAGE_SIZE;
  }

  predicate Room(e: Entry, size: nat) {
    e.usable && e.length >= size
  }

  predicate InEntry(e: Entry, page: nat) {
    e.usable && e.base / PAGE_SIZE <= page < e.base / PAGE_SIZE + e.length / PAGE_SIZE
  }

  predicate InSomeEntry(es: seq<Entry>, page: nat) {
    exists j :: 0 <= j < |es| && InEntry(es[j], page)
  }

  /** The first entry with room gives up its front for the bitmap. */
  function Shorten(es: seq<Entry>, k: nat, size: nat): seq<Entry>
    requires k < |es| && es[k].length >= size
  {
    es[k := Entry(es[k].usable, es[k].base + size, es[k].length - size)]
  }

  lemma {:induction false} EntryBelowHighest(es: seq<Entry>, j: nat)
    requires j < |es| && es[j].usable
    ensures es[j].base + es[j].length <= HighestAddr(es)
  {
    if j < |es| - 1 {
      EntryBelowHighest(es[..|es| - 1], j);
    }
  }

  /** No usable byte lies higher, and no lower bound would do. */
  lemma {:induction false} HighestIsTop(es: seq<Entry>)
    ensures forall j :: 0 <= j < |es| && es[j].usable ==> es[j].base + es[j].length <= HighestAddr(es)
    ensures HighestAddr(es) == 0 ||
            exists j :: 0 <= j < |es| && es[j].usable && es[j].base + es[j].length == HighestAddr(es)
  {
    if es != [] {
      var n := |es| - 1;
      HighestIsTop(es[..n]);
      if HighestAddr(es) != 0 && HighestAddr(es) == HighestAddr(es[..n]) {
        var j :| 0 <= j < n && es[..n][j].usable && es[..n][j].base + es[..n][j].length == HighestAddr(es[..n]);
        assert es[j].usable && es[j].base + es[j].length == HighestAddr(es);
      }
      forall j | 0 <= j < |es| && es[j].usable ensures es[j].base + es[j].length <= HighestAddr(es) {
        assert j < n ==> es[..n][j] == es[j];
      }
    }
  }

  /** The pages of an entry that starts on a page boundary are those that lie in it with all their bytes. */
  lemma InEntryBytes(e: Entry, page: nat)
    requires e.base % 4096 == 0
    ensures InEntry(e, page) <==> e.usable && e.base <= 4096 * page && 4096 * page + 4096 <= e.base + e.length
  {
  }

  /** No page belongs to two of the entries. */
  ghost predicate EntriesApart(es: seq<Entry>) {
    forall i, j, page: nat :: 0 <= i < j < |es| ==> !(InEntry(es[i], page) && InEntry(es[j], page))
  }

  lemma WithLast(es: seq<Entry>, page: nat)
    requires es != []
    ensures InSomeEntry(es, page) <==> InSomeEntry(es[..|es| - 1], page) || InEntry(es[|es| - 1], page)
  {
    assert es == es[..|es| - 1] + [es[|es| - 1]];
    OneMoreEntry(es[..|es| - 1], es[|es| - 1], page);
  }

  lemma FewerApart(es: seq<Entry>)
    requires es != [] && EntriesApart(es)
    ensures EntriesApart(es[..|es| - 1])
  {
    var s := es[..|es| - 1];
    forall i, j, page: nat | 0 <= i < j < |s| ensures !(InEntry(s[i], page) && InEntry(s[j], page)) {
      assert s[i] == es[i] && s[j] == es[j];
    }
  }

  lemma NotTwice(es: seq<Entry>, page: nat)
    requires es != [] && EntriesApart(es) && InEntry(es[|es| - 1], page)
    ensures !InSomeEntry(es[..|es| - 1], page)
  {
    var front := es[..|es| - 1];
    forall j | 0 <= j < |front| ensures !InEntry(front[j], page) {
      assert front[j] == es[j];
    }
  }

  /** The pages of the last entry, taken again. */
  lemma LastTaken(used: seq<bool>, es: seq<Entry>) returns (before: seq<bool>)
    requires es != [] && EntriesApart(es) && forall p: nat :: InSomeEntry(es, p) ==> p < |used|
    requires forall p :: 0 <= p < |used| ==> (used[p] <==> !InSomeEntry(es, p))
    ensures var e := es[|es| - 1];
      CountClear(used) == CountClear(before) + if e.usable then e.length / PAGE_SIZE else 0
    ensures |before| == |used| && forall p :: 0 <= p < |used| ==> (before[p] <==> !InSomeEntry(es[..|es| - 1], p))
  {
    var e := es[|es| - 1];
    var page, k := e.base / PAGE_SIZE, if e.usable then e.length / PAGE_SIZE else 0;
    var front := es[..|es| - 1];
    forall p: nat ensures InSomeEntry(es, p) <==> InSomeEntry(front, p) || InEntry(e, p) {
      WithLast(es, p);
    }
    if k == 0 {
      return used;
    }
    assert InEntry(e, page + k - 1) && InSomeEntry(es, page + k - 1);
    before := Mark(used, page, k, true);
    forall i | page <= i < page + k ensures InEntry(e, i) && !used[i] && !InSomeEntry(front, i) {
      NotTwice(es, i);
    }
    MarkCount(used, page, k, true);
  }

  /** If exactly the pages of the entries are clear, there are as many as the entries count. */
  lemma {:induction false} ClearCountIsUsable(used: seq<bool>, es: seq<Entry>)
    requires EntriesApart(es) && forall p: nat :: InSomeEntry(es, p) ==> p < |used|
    requires forall p :: 0 <= p < |used| ==> (used[p] <==> !InSomeEntry(es, p))
    ensures CountClear(used) == UsablePages(es)
    decreases |es|
  {
    if es == [] {
      NoneClear(used);
    } else {
      var before := LastTaken(used, es);
      var front := es[..|es| - 1];
      forall p: nat | InSomeEntry(front, p) ensures p < |before| {
        WithLast(es, p);
      }
      FewerApart(es);
      ClearCountIsUsable(before, front);
    }
  }

  lemma {:induction false} NoneClear(used: seq<bool>)
    requires forall p :: 0 <= p < |used| ==> used[p]
    ensures CountClear(used) == 0
  {
    if used != [] {
      NoneClear(used[..|used| - 1]);
    }
  }

  lemma {:induction false} UsableUpdate(es: seq<Entry>, k: nat, e: Entry)
    requires k < |es| && es[k].usable && e.usable
    ensures UsablePages(es[k := e]) + es[k].length / PAGE_SIZE == UsablePages(es) + e.length / PAGE_SIZE
  {
    var n := |es| - 1;
    if k < n {
      UsableUpdate(es[..n], k, e);
      assert es[k := e][..n] == es[..n][k := e];
    } else {
      assert es[k := e][..n] == es[..n];
    }
  }

  lemma ShortenedInside(es: seq<Entry>, k: nat, size: nat, j: nat, page: nat)
    requires k < |es| && size % PAGE_SIZE == 0 && Room(es[k], size) && j < |es|
    ensures InEntry(Shorten(es, k, size)[j], page) ==> InEntry(es[j], page)
  {
    ShortenedEntry(es[k], size, page);
  }

  lemma ShortenedApart(es: seq<Entry>, k: nat, size: nat)
    requires k < |es| && size % PAGE_SIZE == 0 && Room(es[k], size) && EntriesApart(es)
    ensures EntriesApart(Shorten(es, k, size))
    ensures forall p: nat :: InSomeEntry(Shorten(es, k, size), p) ==> InSomeEntry(es, p)
  {
    var s := Shorten(es, k, size);
    forall i, j, p: nat | 0 <= i < j < |es| ensures !(InEntry(s[i], p) && InEntry(s[j], p)) {
      ShortenedInside(es, k, size, i, p);
      ShortenedInside(es, k, size, j, p);
    }
    forall p: nat | InSomeEntry(s, p) ensures InSomeEntry(es, p) {
      var j :| 0 <= j < |s| && InEntry(s[j], p);
      ShortenedInside(es, k, size, j, p);
    }
  }

  /** The books at the start: the clear pages and the bitmap's own make up the usable ones. */
  lemma StartBalances(used: seq<bool>, es: seq<Entry>, k: nat, size: nat)
    requires k < |es| && size % PAGE_SIZE == 0 && Room(es[k], size) && HighestAddr(es) / PAGE_SIZE <= |used|
    requires forall p :: 0 <= p < |used| ==> (used[p] <==> !InSomeEntry(Shorten(es, k, size), p))
    ensures EntriesApart(es) ==> CountClear(used) + size / 4096 == UsablePages(es)
  {
    if EntriesApart(es) {
      forall p: nat | InSomeEntry(es, p) ensures p < |used| {
        var j :| 0 <= j < |es| && InEntry(es[j], p);
        EntryBelowHighest(es, j);
        WholePages(es[j].base, es[j].length, HighestAddr(es));
      }
      ShortenedApart(es, k, size);
      ClearCountIsUsable(used, Shorten(es, k, size));
      UsableUpdate(es, k, Shorten(es, k, size)[k]);
      PagesLeft(es[k].length, size);
    }
  }

  lemma PagesLeft(length: nat, size: nat)
    requires size % PAGE_SIZE == 0 && size <= length
    ensures (length - size) / PAGE_SIZE == length / PAGE_SIZE - size / 4096
  {
  }

  /** The bitmap's own pages: the front of entry `k`. */
  predicate InStorage(e: Entry, size: nat, page: nat) {
    e.base / PAGE_SIZE <= page < e.base / PAGE_SIZE + size / PAGE_SIZE
  }

  lemma ShortenedEntry(e: Entry, size: nat, page: nat)
    requires size % PAGE_SIZE == 0 && Room(e, size)
    ensures InEntry(Entry(e.usable, e.base + size, e.length - size), page) <==>
      InEntry(e, page) && !InStorage(e, size, page)
  {
    var n := size / PAGE_SIZE;
    assert (e.base + size) / PAGE_SIZE == e.base / PAGE_SIZE + n;
    assert (e.length - size) / PAGE_SIZE == e.length / PAGE_SIZE - n;
  }

  /** Giving pages to the bitmap takes exactly its own pages away from the usable ones. */
  lemma ShortenTakesStorage(es: seq<Entry>, k: nat, size: nat, page: nat)
    requires k < |es| && size % PAGE_SIZE == 0 && Room(es[k], size)
    requires forall i, j :: 0 <= i < j < |es| ==> !(InEntry(es[i], page) && InEntry(es[j], page))
    ensures InSomeEntry(Shorten(es, k, size), page) <==> InSomeEntry(es, page) && !InStorage(es[k], size, page)
  {
    var s := Shorten(es, k, size);
    ShortenedEntry(es[k], size, page);
    assert InStorage(es[k], size, page) ==> InEntry(es[k], page);
    if InSomeEntry(s, page) {
      var j :| 0 <= j < |s| && InEntry(s[j], page);
      assert InEntry(es[j], page);
    }
    if InSomeEntry(es, page) && !InStorage(es[k], size, page) {
      var j :| 0 <= j < |es| && InEntry(es[j], page);
      assert InEntry(s[j], page);
    }
  }

  class PhysicalMemoryManager {
    var bitmap: array<bv8>
    var highestPageIdx: nat
    var lastUsedPageIdx: nat
    var usablePages: nat
    var usedPages: nat

    ghost function State(): Pages
      reads this, bitmap
    {
      Pages(PageBits(bitmap[..]), lastUsedPageIdx, usedPages)
    }

    ghost predicate Valid()
      reads this
    {
      lastUsedPageIdx <= highestPageIdx <= 8 * bitmap.Length
    }

    method BitmapTest(bit: nat) returns (r: bool)
      requires bit < 8 * bitmap.Length
      ensures r == PageBits(bitmap[..])[bit]
    {
      r := TestBit(bitmap[bit / 8], bit % 8);
    }

    method BitmapSet(bit: nat)
      requires bit < 8 * bitmap.Length
      modifies bitmap
      ensures PageBits(bitmap[..]) == PageBits(old(bitmap[..]))[bit := true]
    {
      UpdateByte(bitmap[..], bit, true);
      ghost var before := bitmap[..];
      bitmap[bit / 8] := bitmap[bit / 8] | BitMask(bit % 8);
      assert bitmap[..] == before[bit / 8 := WithBit(before[bit / 8], bit % 8, true)];
    }

    method BitmapReset(bit: nat)
      requires bit < 8 * bitmap.Length
      modifies bitmap
      ensures PageBits(bitmap[..]) == PageBits(old(bitmap[..]))[bit := false]
    {
      UpdateByte(bitmap[..], bit, false);
      ghost var before := bitmap[..];
      bitmap[bit / 8] := bitmap[bit / 8] & !BitMask(bit % 8);
      assert bitmap[..] == before[bit / 8 := WithBit(before[bit / 8], bit % 8, false)];
    }

    /** Sets or clears `n` pages one by one. */
    method SetRange(page: nat, n: nat, value: bool)
      requires page + n <= 8 * bitmap.Length
      modifies bitmap
      ensures PageBits(bitmap[..]) == Mark(PageBits(old(bitmap[..])), page, n, value)
    {
      ghost var before := PageBits(bitmap[..]);
      for i := page to page + n
        invariant PageBits(bitmap[..]) == Mark(before, page, i - page, value)
      {
        if value {
          BitmapSet(i);
        } else {
          BitmapReset(i);
        }
        assert Mark(before, page, i - page, value)[i := value] == Mark(before, page, i + 1 - page, value);
      }
    }

    /** Counts clear pages from the cursor on and takes the first `pages` in a row. */
    method PmmInnerAlloc(pages: nat, limit: nat) returns (addr: nat)
      requires limit <= 8 * bitmap.Length
      modifies this`lastUsedPageIdx, bitmap
      ensures (State(), addr) == InnerAlloc(old(State()), pages, limit)
    {
      hide PageBits, Mark;
      ghost var used, start := PageBits(bitmap[..]), lastUsedPageIdx;
      var p := 0;
      while lastUsedPageIdx < limit
        invariant PageBits(bitmap[..]) == used && bitmap == old(bitmap)
        invariant start <= lastUsedPageIdx - p && (lastUsedPageIdx <= limit || lastUsedPageIdx == start)
        invariant forall i :: lastUsedPageIdx - p <= i < lastUsedPageIdx ==> i < |used| && !used[i]
        invariant pages > 0 ==> p < pages && forall q :: start <= q < lastUsedPageIdx - p ==> !FreeRun(used, q, pages)
        decreases limit - lastUsedPageIdx
      {
        var taken := BitmapTest(lastUsedPageIdx);
        lastUsedPageIdx := lastUsedPageIdx + 1;
        if taken {
          p := 0;
          continue;
        }
        p := p + 1;
        if p == pages {
          var page := lastUsedPageIdx - pages;
          SearchFinds(used, start, pages, limit, page);
          SetRange(page, pages, true);
          return page * PAGE_SIZE;
        }
      }
      return 0;
    }

    method PmmAllocNozero(pages: nat) returns (addr: nat)
      requires Valid()
      modifies this`lastUsedPageIdx, this`usedPages, bitmap
      ensures Valid() && (State(), addr) == PageBitmap.Alloc(old(State()), pages, highestPageIdx)
    {
      hide PageBits, Mark, Search;
      addr := PmmInnerAlloc(pages, highestPageIdx);
      if addr == 0 {
        var last := lastUsedPageIdx;
        lastUsedPageIdx := 0;
        addr := PmmInnerAlloc(pages, last);
        if addr == 0 {
          return 0;
        }
      }
      usedPages := usedPages + pages;
    }

    method PmmDealloc(ptr: nat, pages: nat)
      requires ptr / PAGE_SIZE + pages <= 8 * bitmap.Length && pages <= usedPages
      modifies this`usedPages, bitmap
      ensures State() == PageBitmap.Dealloc(old(State()), ptr, pages)
    {
      SetRange(ptr / PAGE_SIZE, pages, false);
      usedPages := usedPages - pages;
    }

    constructor ()
      ensures Valid() && lastUsedPageIdx == usablePages == usedPages == 0
    {
      bitmap := new bv8[0];
      highestPageIdx, lastUsedPageIdx, usablePages, usedPages := 0, 0, 0, 0;
    }

    /** Adds up the usable pages and finds where usable memory ends. */
    method MeasureMemory(entries: array<Entry>) returns (highestAddr: nat)
      modifies this`usablePages
      ensures highestAddr == HighestAddr(entries[..])
      ensures usablePages == old(usablePages) + UsablePages(entries[..])
    {
      highestAddr := 0;
      for i := 0 to entries.Length
        invariant highestAddr == HighestAddr(entries[..i])
        invariant usablePages == old(usablePages) + UsablePages(entries[..i])
      {
        assert entries[..i + 1] == entries[..i] + [entries[i]];
        if entries[i].usable {
          usablePages := usablePages + entries[i].length / PAGE_SIZE;
          if highestAddr < entries[i].base + entries[i].length {
            highestAddr := entries[i].base + entries[i].length;
          }
        }
      }
      assert entries[..entries.Length] == entries[..];
    }

    /** Puts the bitmap, all pages taken, at the front of the first entry with room for it. */
    method PlaceBitmap(entries: array<Entry>, size: nat) returns (ghost k: nat)
      requires exists j :: 0 <= j < entries.Length && Room(entries[j], size)
      modifies this`bitmap, entries
      ensures k < entries.Length && Room(old(entries[..])[k], size)
      ensures forall j :: 0 <= j < k ==> !Room(old(entries[..])[j], size)
      ensures entries[..] == Shorten(old(entries[..]), k, size)
      ensures fresh(bitmap) && bitmap.Length == size && forall p :: 0 <= p < 8 * size ==> PageBits(bitmap[..])[p]
    {
      var i := 0;
      while i < entries.Length && !Room(entries[i], size)
        invariant i <= entries.Length && forall j :: 0 <= j < i ==> !Room(entries[j], size)
      {
        i := i + 1;
      }
      bitmap := new bv8[size](_ => 0xFF);
      forall p | 0 <= p < 8 * size ensures PageBits(bitmap[..])[p] {
        AllBitsSet(p % 8);
      }
      ghost var before := entries[..];
      entries[i] := Entry(entries[i].usable, entries[i].base + size, entries[i].length - size);
      assert entries[..] == Shorten(before, i, size);
      k := i;
    }

    /** Clears the pages of every usable entry. */
    method ClearUsable(es: seq<Entry>)
      requires forall j :: 0 <= j < |es| && es[j].usable ==>
                 es[j].base / PAGE_SIZE + es[j].length / PAGE_SIZE <= 8 * bitmap.Length
      requires forall p :: 0 <= p < 8 * bitmap.Length ==> PageBits(bitmap[..])[p]
      modifies bitmap
      ensures forall p :: 0 <= p < 8 * bitmap.Length ==> (PageBits(bitmap[..])[p] <==> !InSomeEntry(es, p))
    {
      for k := 0 to |es|
        invariant forall p :: 0 <= p < 8 * bitmap.Length ==> (PageBits(bitmap[..])[p] <==> !InSomeEntry(es[..k], p))
      {
        forall p: nat ensures InSomeEntry(es[..k + 1], p) <==> InSomeEntry(es[..k], p) || InEntry(es[k], p) {
          OneMoreEntry(es[..k], es[k], p);
          assert es[..k + 1] == es[..k] + [es[k]];
        }
        if es[k].usable {
          SetRange(es[k].base / PAGE_SIZE, es[k].length / PAGE_SIZE, false);
        }
      }
      assert es[..|es|] == es;
    }

    /** Sets up the manager. The bitmap must reach all pages, which depends on how many there are. */
    method PmmInit(entries: array<Entry>) returns (ghost k: nat, ghost size: nat)
      requires lastUsedPageIdx == usedPages == 0
      requires var pages := HighestAddr(entries[..]) / PAGE_SIZE;
        && !(1 <= pages % 32768 <= 7)
        && exists j :: 0 <= j < entries.Length && Room(entries[j], BitmapSize(pages))
      modifies this`bitmap, this`highestPageIdx, this`usablePages, entries
      ensures Valid() && highestPageIdx == HighestAddr(old(entries[..])) / PAGE_SIZE
      ensures usablePages == old(usablePages) + UsablePages(old(entries[..]))
      ensures size == BitmapSize(highestPageIdx) == bitmap.Length && size % PAGE_SIZE == 0
      ensures k < entries.Length && old(entries[..])[k].usable && old(entries[..])[k].length >= size
      ensures forall j :: 0 <= j < k ==> !(old(entries[..])[j].usable && old(entries[..])[j].length >= size)
      ensures entries[..] == Shorten(old(entries[..]), k, size)
      ensures EntriesApart(old(entries[..])) ==> CountClear(State().used) + size / 4096 == UsablePages(old(entries[..]))
      ensures forall p :: 0 <= p < 8 * bitmap.Length ==>
                (State().used[p] <==> !InSomeEntry(Shorten(old(entries[..]), k, size), p))
    {
      ghost var es := entries[..];
      var highestAddr := MeasureMemory(entries);
      highestPageIdx := highestAddr / PAGE_SIZE;
      var bitmapSize := BitmapSize(highestPageIdx);
      BitmapCoversIff(highestPageIdx);
      k := PlaceBitmap(entries, bitmapSize);
      size := bitmapSize;
      forall j | 0 <= j < entries.Length && entries[j].usable
        ensures entries[j].base / PAGE_SIZE + entries[j].length / PAGE_SIZE <= 8 * bitmap.Length
      {
        EntryBelowHighest(es, j);
        assert entries[j] == Shorten(es, k, size)[j];
        WholePages(entries[j].base, entries[j].length, highestAddr);
      }
      ClearUsable(entries[..]);
      StartBalances(State().used, es, k, size);
    }
  }

  lemma OneMoreEntry(es: seq<Entry>, e: Entry, page: nat)
    ensures InSomeEntry(es + [e], page) <==> InSomeEntry(es, page) || InEntry(e, page)
  {
    if InSomeEntry(es, page) {
      var j :| 0 <= j < |es| && InEntry(es[j], page);
      assert InEntry((es + [e])[j], page);
    }
    assert (es + [e])[|es|] == e;
  }

  lemma WholePages(base: nat, length: nat, top: nat)
    requires base + length <= top
    ensures base / PAGE_SIZE + length / PAGE_SIZE <= top / PAGE_SIZE
  {
  }
}
