/** The table built for a length list, and the counting sort that fills it in place. */
module HuffmanTable {
  import opened Outcomes
  import opened BitStreams
  import opened Huffman

  class Huff {
    const counts: array<nat>
    const symbols: array<nat>

    constructor ()
      ensures fresh(counts) && fresh(symbols) && Shaped()
    {
      counts := new nat[MAX_BITS + 1](_ => 0);
      symbols := new nat[MAX_SYMBOLS](_ => 0);
    }

    predicate Shaped() {
      counts != symbols && counts.Length == MAX_BITS + 1 && symbols.Length == MAX_SYMBOLS
    }

    /** `counts` holds the number of codes of each length, and `symbols` the used symbols sorted by code
        length, symbols of one length staying in increasing order. */
    ghost predicate Represents(ls: Lengths)
      reads counts, symbols
    {
      && Shaped() && ValidLengths(ls)
      && (forall l :: 1 <= l <= MAX_BITS ==> counts[l] == Count(ls, l))
      && (forall l :: 1 <= l <= MAX_BITS ==> Segment(ls, ls, l, symbols[..]))
    }

    lemma SymbolAt(ls: Lengths, l: nat, k: nat)
      requires Represents(ls) && 1 <= l <= MAX_BITS && k < Count(ls, l)
      ensures Offset(ls, l) + k < MAX_SYMBOLS && symbols[Offset(ls, l) + k] == Positions(ls, l)[k]
    {
      assert Segment(ls, ls, l, symbols[..]);
      var first := Offset(ls, l);
      assert symbols[first + k] == symbols[..][first..first + Count(ls, l)][k];
    }
  }

  /** The two tables share no array. */
  predicate Apart(a: Huff, b: Huff) {
    {a.counts, a.symbols} !! {b.counts, b.symbols}
  }

  /** `items` lie in the table from slot `first` on. */
  ghost predicate Holds(first: nat, items: seq<nat>, table: seq<nat>) {
    first + |items| <= |table| && table[first..first + |items|] == items
  }

  lemma HoldsOneMore(first: nat, items: seq<nat>, table: seq<nat>, v: nat)
    requires Holds(first, items, table) && first + |items| < |table|
    ensures Holds(first, items + [v], table[first + |items| := v])
  {
    assert table[first + |items| := v][first..first + |items| + 1] == table[first..first + |items|] + [v];
  }

  lemma HoldsElsewhere(first: nat, items: seq<nat>, table: seq<nat>, slot: nat, v: nat)
    requires Holds(first, items, table) && slot < |table|
    requires slot < first || first + |items| <= slot
    ensures Holds(first, items, table[slot := v])
  {
    assert table[slot := v][first..first + |items|] == table[first..first + |items|];
  }

  /** The slots reserved for length `l` begin with the symbols of that length in `prefix`. */
  ghost predicate Segment(ls: Lengths, prefix: Lengths, l: nat, symbols: seq<nat>) {
    Holds(Offset(ls, l), Positions(prefix, l), symbols)
  }

  lemma SlotsInRange(ls: Lengths, l: nat)
    requires |ls| <= MAX_SYMBOLS && 1 <= l <= MAX_BITS
    ensures Offset(ls, l) + Count(ls, l) <= |ls|
  {
    OffsetMonotone(ls, l, MAX_BITS + 1);
    OffsetBound(ls, MAX_BITS + 1);
  }

  /** Counts the codes of each length. */
  method CountLengths(lengths: seq<nat>, size: nat, out: Huff) returns (r: Outcome<()>)
    requires out.Shaped() && size <= MAX_SYMBOLS && size <= |lengths|
    modifies out.counts
    ensures r.Done? <==> ValidLengths(lengths[..size])
    ensures !r.Rejected?
    ensures r.Done? ==>
      out.counts[0] == 0 && forall l :: 1 <= l <= MAX_BITS ==> out.counts[l] == Count(lengths[..size], l)
  {
    for i := 0 to MAX_BITS + 1
      invariant forall j :: 0 <= j < i ==> out.counts[j] == 0
    {
      out.counts[i] := 0;
    }
    for i := 0 to size
      invariant forall l :: 0 <= l <= MAX_BITS ==> out.counts[l] == Count(lengths[..i], l)
      invariant ValidLengths(lengths[..i])
    {
      var length := lengths[i];
      assert lengths[..size][i] == length;
      if length > MAX_BITS {
        return Panicked;
      }
      forall l: nat ensures Count(lengths[..i + 1], l) == Count(lengths[..i], l) + if l == length then 1 else 0 {
        PositionsSnoc(lengths, i, l);
      }
      out.counts[length] := out.counts[length] + 1;
    }
    out.counts[0] := 0;
    return Done(());
  }

  /** The sort has placed the symbols below `i`; `offsets` says where the next one of each length goes. */
  ghost predicate Placed(ls: Lengths, i: nat, offsets: seq<nat>, symbols: seq<nat>)
    requires i <= |ls|
  {
    && |offsets| == MAX_BITS + 1 && |symbols| == MAX_SYMBOLS
    && (forall l :: 1 <= l <= MAX_BITS ==> offsets[l] == Offset(ls, l) + Count(ls[..i], l))
    && (forall l :: 1 <= l <= MAX_BITS ==> Segment(ls, ls[..i], l, symbols))
  }

  /** The next slot of the length of symbol `i` is free, and no other segment reaches it. */
  lemma PlaceStep(ls: Lengths, i: nat, l: nat, symbols: seq<nat>)
    requires ValidLengths(ls) && i < |ls| && 1 <= l <= MAX_BITS && |symbols| == MAX_SYMBOLS
    requires ls[i] != 0 && Segment(ls, ls[..i], l, symbols)
    ensures var slot := Offset(ls, ls[i]) + Count(ls[..i], ls[i]);
      slot < MAX_SYMBOLS && Segment(ls, ls[..i + 1], l, symbols[slot := i])
  {
    PositionsSnoc(ls, i, l);
    CountPrefix(ls, i, ls[i]);
    SlotsInRange(ls, ls[i]);
    if l == ls[i] {
      HoldsOneMore(Offset(ls, l), Positions(ls[..i], l), symbols, i);
    } else {
      SegmentsApart(ls, i, l);
      HoldsElsewhere(Offset(ls, l), Positions(ls[..i], l), symbols, Offset(ls, ls[i]) + Count(ls[..i], ls[i]), i);
    }
  }

  lemma SegmentsApart(ls: Lengths, i: nat, l: nat)
    requires i < |ls| && 1 <= l && 1 <= ls[i] && l != ls[i]
    ensures var slot := Offset(ls, ls[i]) + Count(ls[..i], ls[i]);
      slot < Offset(ls, l) || Offset(ls, l) + Count(ls[..i], l) <= slot
  {
    CountPrefix(ls, i, ls[i]);
    CountPrefix(ls, i, l);
    if l < ls[i] {
      OffsetMonotone(ls, l, ls[i]);
    } else {
      OffsetMonotone(ls, ls[i], l);
    }
  }

  /** Placing symbol `i` in the next slot of its length. */
  lemma PlaceSymbol(ls: Lengths, i: nat, offsets: seq<nat>, symbols: seq<nat>)
    requires ValidLengths(ls) && i < |ls| && Placed(ls, i, offsets, symbols)
    ensures ls[i] == 0 ==> Placed(ls, i + 1, offsets, symbols)
    ensures ls[i] != 0 ==> offsets[ls[i]] < MAX_SYMBOLS
    ensures ls[i] != 0 ==> Placed(ls, i + 1, offsets[ls[i] := offsets[ls[i]] + 1], symbols[offsets[ls[i]] := i])
  {
    forall l: nat
      ensures Positions(ls[..i + 1], l) == if ls[i] == l then Positions(ls[..i], l) + [i] else Positions(ls[..i], l)
    {
      PositionsSnoc(ls, i, l);
    }
    var prefix := ls[..i + 1];
    if ls[i] == 0 {
      forall l | 1 <= l <= MAX_BITS ensures Segment(ls, prefix, l, symbols) {
        assert Segment(ls, ls[..i], l, symbols);
      }
    } else {
      PlaceStep(ls, i, ls[i], symbols);
      var symbols' := symbols[offsets[ls[i]] := i];
      forall l | 1 <= l <= MAX_BITS ensures Segment(ls, prefix, l, symbols') {
        PlaceStep(ls, i, l, symbols);
      }
    }
  }

  /** Places every used symbol into the slots of its length. */
  method PlaceSymbols(ls: seq<nat>, offsets: array<nat>, symbols: array<nat>)
    requires ValidLengths(ls) && offsets != symbols
    requires Placed(ls, 0, offsets[..], symbols[..])
    modifies offsets, symbols
    ensures Placed(ls, |ls|, offsets[..], symbols[..])
  {
    for i := 0 to |ls|
      invariant Placed(ls, i, offsets[..], symbols[..])
    {
      PlaceSymbol(ls, i, offsets[..], symbols[..]);
      if ls[i] != 0 {
        ghost var offsets0, symbols0 := offsets[..], symbols[..];
        var slot := offsets[ls[i]];
        symbols[slot] := i;
        offsets[ls[i]] := slot + 1;
        assert symbols[..] == symbols0[slot := i];
        assert offsets[..] == offsets0[ls[i] := slot + 1];
      }
    }
  }

  /** The first slot of each length. */
  method StartOffsets(ghost ls: Lengths, counts: array<nat>) returns (offsets: array<nat>)
    requires counts.Length == MAX_BITS + 1 && counts[0] == 0
    requires forall l {:trigger counts[l]} :: 1 <= l <= MAX_BITS ==> counts[l] == Count(ls, l)
    ensures fresh(offsets) && offsets.Length == MAX_BITS + 1
    ensures forall l :: 1 <= l <= MAX_BITS ==> offsets[l] == Offset(ls, l)
  {
    offsets := new nat[MAX_BITS + 1];
    var count := 0;
    for i := 0 to counts.Length
      invariant count == Offset(ls, i)
      invariant forall l {:trigger offsets[l]} :: 1 <= l < i ==> offsets[l] == Offset(ls, l)
    {
      offsets[i] := count;
      count := count + counts[i];
    }
  }

  /** Fills the table for the first `size` lengths. */
  method BuildHuffman(lengths: seq<nat>, size: nat, out: Huff) returns (r: Outcome<()>)
    requires out.Shaped()
    modifies out.counts, out.symbols
    ensures r.Done? <==> size <= |lengths| && ValidLengths(lengths[..size])
    ensures r.Done? ==> out.Represents(lengths[..size])
    ensures !r.Rejected?
  {
    if size > MAX_SYMBOLS || size > |lengths| {
      return Panicked;
    }
    var ls := lengths[..size];
    var _ :- CountLengths(lengths, size, out);
    var offsets := StartOffsets(ls, out.counts);
    assert ls[..0] == [];
    forall l | 1 <= l <= MAX_BITS ensures Segment(ls, ls[..0], l, out.symbols[..]) {
      SlotsInRange(ls, l);
    }
    PlaceSymbols(ls, offsets, out.symbols);
    assert ls[..|ls|] == ls;
    return Done(());
  }

  /** The two fixed codes of block type 1. */
  method BuildFixed(outLength: Huff, outDist: Huff)
    requires outLength.Shaped() && outDist.Shaped() && Apart(outLength, outDist)
    modifies outLength.counts, outLength.symbols, outDist.counts, outDist.symbols
    ensures outLength.Represents(FixedLiteralLengths()) && outDist.Represents(FixedDistanceLengths())
  {
    var lengths := new nat[MAX_SYMBOLS](_ => 0);
    forall i | 0 <= i < 144 {
      lengths[i] := 8;
    }
    forall i | 144 <= i < 256 {
      lengths[i] := 9;
    }
    forall i | 256 <= i < 280 {
      lengths[i] := 7;
    }
    forall i | 280 <= i < 288 {
      lengths[i] := 8;
    }
    assert lengths[..] == FixedLiteralLengths() == lengths[..][..288];
    var r := BuildHuffman(lengths[..], 288, outLength);
    forall i | 0 <= i < 30 {
      lengths[i] := 5;
    }
    assert lengths[..][..30] == FixedDistanceLengths();
    r := BuildHuffman(lengths[..], 30, outDist);
  }
}
