/** What a DEFLATE stream says, as functions from bits to tokens. The blocks are parsed here without
    producing any output; `Lz77.Expand` gives the tokens their meaning. */
module DeflateFormat {
  import opened Outcomes
  import opened BitStreams
  import opened Huffman
  import opened Lz77

  const LENGTH_BITS: seq<nat> :=
    [0, 0, 0, 0, 0, 0, 0, 0, 1, 1, 1, 1, 2, 2, 2, 2, 3, 3, 3, 3, 4, 4, 4, 4, 5, 5, 5, 5, 0, 127]
  const LENGTH_BASE: seq<nat> :=
    [3, 4, 5, 6, 7, 8, 9, 10, 11, 13, 15, 17, 19, 23, 27, 31, 35, 43, 51, 59, 67, 83, 99, 115, 131, 163, 195,
     227, 258, 0]
  const DIST_BITS: seq<nat> :=
    [0, 0, 0, 0, 1, 1, 2, 2, 3, 3, 4, 4, 5, 5, 6, 6, 7, 7, 8, 8, 9, 9, 10, 10, 11, 11, 12, 12, 13, 13]
  const DIST_BASE: seq<nat> :=
    [1, 2, 3, 4, 5, 7, 9, 13, 17, 25, 33, 49, 65, 97, 129, 193, 257, 385, 513, 769, 1025, 1537, 2049, 3073, 4097,
     6145, 8193, 12289, 16385, 24577]
  const CLEN_ORDER: seq<nat> :=
    [16, 17, 18, 0, 8, 7, 9, 6, 10, 5, 11, 4, 12, 3, 13, 2, 14, 1, 15]

  const END_OF_BLOCK := 256
  const CODE_LENGTH_CODES := 19
  /** Slots for the lengths of a dynamic block: 288 literal/length symbols and 32 distance symbols. */
  const LENGTH_SLOTS := 320

  lemma Pow2Table()
    ensures Pow2(0) == 1 && Pow2(1) == 2 && Pow2(2) == 4 && Pow2(3) == 8 && Pow2(4) == 16 && Pow2(5) == 32
    ensures Pow2(6) == 64 && Pow2(7) == 128 && Pow2(8) == 256 && Pow2(9) == 512 && Pow2(10) == 1024
    ensures Pow2(11) == 2048 && Pow2(12) == 4096 && Pow2(13) == 8192 && Pow2(14) == 16384 && Pow2(15) == 32768
    ensures Pow2(16) == 65536
  {
    assert Pow2(4) == 2 * Pow2(3) && Pow2(3) == 2 * Pow2(2);
    assert Pow2(8) == 2 * Pow2(7) && Pow2(7) == 2 * Pow2(6) && Pow2(6) == 2 * Pow2(5) && Pow2(5) == 2 * Pow2(4);
    assert Pow2(12) == 2 * Pow2(11) && Pow2(11) == 2 * Pow2(10) && Pow2(10) == 2 * Pow2(9) && Pow2(9) == 2 * Pow2(8);
    assert Pow2(15) == 2 * Pow2(14) && Pow2(14) == 2 * Pow2(13) && Pow2(13) == 2 * Pow2(12);
  }

  /** No distance reaches back beyond the ring, and none is zero. */
  lemma DistanceInWindow(symbol: nat, bits: Bits)
    requires symbol < |DIST_BITS| && TakeBase(bits, DIST_BITS[symbol], DIST_BASE[symbol]).Done?
    ensures 1 <= TakeBase(bits, DIST_BITS[symbol], DIST_BASE[symbol]).value.value <= 32768
  {
    Pow2Table();
  }

  /** No length symbol that the decoder survives gives more than 258 bytes. */
  lemma LengthBounded(symbol: nat, bits: Bits)
    requires symbol < |LENGTH_BITS| && TakeBase(bits, LENGTH_BITS[symbol], LENGTH_BASE[symbol]).Done?
    ensures 3 <= TakeBase(bits, LENGTH_BITS[symbol], LENGTH_BASE[symbol]).value.value <= 258
  {
    Pow2Table();
  }

  // ---------- the tables of section 3.2.5 ----------

  /** The extra bits grow by one with every other distance symbol and with every fourth length symbol; the longest
      match has a symbol of its own. */
  lemma ExtraBits()
    ensures |DIST_BITS| == |DIST_BASE| == 30 && |LENGTH_BITS| == |LENGTH_BASE| == 30
    ensures forall k :: 0 <= k < 30 ==> DIST_BITS[k] == if k < 4 then 0 else k / 2 - 1
    ensures forall k :: 0 <= k < 28 ==> LENGTH_BITS[k] == if k < 8 then 0 else k / 4 - 1
    ensures LENGTH_BITS[28] == 0 && LENGTH_BASE[28] == 258
  {
  }

  /** The distances of a symbol begin where those of the symbol before it end: from 1 to 32768, with no gap and no
      overlap. */
  lemma DistanceRanges(k: nat)
    requires k < 30
    ensures DIST_BASE[0] == 1
    ensures DIST_BASE[k] + Pow2(DIST_BITS[k]) == if k == 29 then 32769 else DIST_BASE[k + 1]
  {
    Pow2Table();
  }

  /** And so do the lengths of the first 28 symbols, from 3 to 258. */
  lemma LengthRanges(k: nat)
    requires k < 28
    ensures LENGTH_BASE[0] == 3
    ensures LENGTH_BASE[k] + Pow2(LENGTH_BITS[k]) == if k == 27 then 259 else LENGTH_BASE[k + 1]
  {
    Pow2Table();
  }

  /** `n` is the base of entry `k` plus a number of its extra bits. */
  predicate InRange(bases: seq<nat>, extra: seq<nat>, k: nat, n: nat)
    requires k < |bases| == |extra|
  {
    bases[k] <= n < bases[k] + Pow2(extra[k])
  }

  lemma {:induction false} DistancesAscend(j: nat, k: nat)
    requires j < k < 30
    ensures DIST_BASE[j] + Pow2(DIST_BITS[j]) <= DIST_BASE[k]
    decreases k
  {
    DistanceRanges(k - 1);
    if j < k - 1 {
      DistancesAscend(j, k - 1);
    }
  }

  lemma {:induction false} LengthsAscend(j: nat, k: nat)
    requires j < k < 28
    ensures LENGTH_BASE[j] + Pow2(LENGTH_BITS[j]) <= LENGTH_BASE[k]
    decreases k
  {
    LengthRanges(k - 1);
    if j < k - 1 {
      LengthsAscend(j, k - 1);
    }
  }

  lemma {:induction false} FindDistance(distance: nat, k: nat) returns (s: nat)
    requires k < 30 && 1 <= distance < DIST_BASE[k] + Pow2(DIST_BITS[k])
    ensures s <= k && InRange(DIST_BASE, DIST_BITS, s, distance)
    decreases k
  {
    if DIST_BASE[k] <= distance {
      s := k;
    } else {
      DistanceRanges(k - 1);
      s := FindDistance(distance, k - 1);
    }
  }

  lemma {:induction false} FindLength(length: nat, k: nat) returns (s: nat)
    requires k < 28 && 3 <= length < LENGTH_BASE[k] + Pow2(LENGTH_BITS[k])
    ensures s <= k && InRange(LENGTH_BASE, LENGTH_BITS, s, length)
    decreases k
  {
    if LENGTH_BASE[k] <= length {
      s := k;
    } else {
      LengthRanges(k - 1);
      s := FindLength(length, k - 1);
    }
  }

  /** Every distance is the base plus the extra bits of exactly one symbol, and of none if it is out of range. */
  lemma DistancesPartition(distance: nat)
    ensures 1 <= distance <= 32768 <==> exists k :: 0 <= k < 30 && InRange(DIST_BASE, DIST_BITS, k, distance)
    ensures forall j, k :: 0 <= j < k < 30 ==>
      !(InRange(DIST_BASE, DIST_BITS, j, distance) && InRange(DIST_BASE, DIST_BITS, k, distance))
  {
    DistanceRanges(29);
    if 1 <= distance <= 32768 {
      var k := FindDistance(distance, 29);
    }
    forall j, k | 0 <= j < k < 30 ensures DIST_BASE[j] + Pow2(DIST_BITS[j]) <= DIST_BASE[k] {
      DistancesAscend(j, k);
    }
  }

  /** Likewise every length from 3 to 258 and the first 28 length symbols. */
  lemma LengthsPartition(length: nat)
    ensures 3 <= length <= 258 <==> exists k :: 0 <= k < 28 && InRange(LENGTH_BASE, LENGTH_BITS, k, length)
    ensures forall j, k :: 0 <= j < k < 28 ==>
      !(InRange(LENGTH_BASE, LENGTH_BITS, j, length) && InRange(LENGTH_BASE, LENGTH_BITS, k, length))
  {
    LengthRanges(27);
    if 3 <= length <= 258 {
      var k := FindLength(length, 27);
    }
    forall j, k | 0 <= j < k < 28 ensures LENGTH_BASE[j] + Pow2(LENGTH_BITS[j]) <= LENGTH_BASE[k] {
      LengthsAscend(j, k);
    }
  }

  /** The two length symbols behind them are of no use: one panics, the other has no entry. */
  lemma UnusableLengths(dist: Lengths, bits: Bits)
    ensures ParseMatch(29, dist, bits) == Panicked && ParseMatch(30, dist, bits) == Panicked
  {
  }

  /** The order of section 3.2.7: the run symbols, zero, and then the lengths outward from eight. */
  lemma CodeLengthOrder()
    ensures |CLEN_ORDER| == 19 && CLEN_ORDER[..4] == [16, 17, 18, 0]
    ensures forall j :: 0 <= j < 8 ==> CLEN_ORDER[4 + 2 * j] == 8 + j
    ensures forall j :: 0 <= j < 7 ==> CLEN_ORDER[5 + 2 * j] == 7 - j
  {
  }

  // ---------- tokens ----------

  function ParseDistance(dist: Lengths, bits: Bits): (r: Outcome<Parsed<nat>>)
    ensures r.Done? ==> |r.value.rest| < |bits|
  {
    var Parsed(symbol, bits) :- Decode(dist, bits);
    if symbol >= |DIST_BITS| then Panicked else TakeBase(bits, DIST_BITS[symbol], DIST_BASE[symbol])
  }

  /** A match whose length symbol was the entry `symbol` of the length table. */
  function ParseMatch(symbol: nat, dist: Lengths, bits: Bits): (r: Outcome<Parsed<Token>>)
    ensures r.Done? ==> |r.value.rest| < |bits|
  {
    if symbol >= |LENGTH_BITS| then Panicked
    else
      var Parsed(length, bits) :- TakeBase(bits, LENGTH_BITS[symbol], LENGTH_BASE[symbol]);
      var Parsed(distance, bits) :- ParseDistance(dist, bits);
      Done(Parsed(Match(length, distance), bits))
  }

  /** One token, or `None` at the end of the block. */
  function ParseToken(lit: Lengths, dist: Lengths, bits: Bits): (r: Outcome<Parsed<Option<Token>>>)
    ensures r.Done? ==> |r.value.rest| < |bits|
  {
    var Parsed(symbol, bits) :- Decode(lit, bits);
    if symbol < 256 then Done(Parsed(Some(Literal(symbol)), bits))
    else if symbol == END_OF_BLOCK then Done(Parsed(None, bits))
    else
      var Parsed(token, bits) :- ParseMatch(symbol - 257, dist, bits);
      Done(Parsed(Some(token), bits))
  }

  /** Puts tokens already parsed in front of the tokens still to come. */
  function Prepend(tokens: seq<Token>, r: Outcome<Parsed<seq<Token>>>): Outcome<Parsed<seq<Token>>> {
    match r
    case Done(Parsed(more, rest)) => Done(Parsed(tokens + more, rest))
    case _ => r
  }

  function ParseTokens(lit: Lengths, dist: Lengths, bits: Bits): (r: Outcome<Parsed<seq<Token>>>)
    ensures r.Done? ==> |r.value.rest| < |bits|
    decreases |bits|
  {
    var Parsed(token, bits) :- ParseToken(lit, dist, bits);
    match token
    case None => Done(Parsed([], bits))
    case Some(t) => Prepend([t], ParseTokens(lit, dist, bits))
  }

  // ---------- stored blocks ----------

  function ParseBytes(bits: Bits, n: nat): (r: Outcome<Parsed<seq<Token>>>)
    ensures r.Done? ==> |r.value.rest| + 8 * n == |bits|
    decreases n
  {
    if n == 0 then Done(Parsed([], bits))
    else
      var Parsed(b, rest) :- TakeByte(bits);
      Prepend([Literal(b)], ParseBytes(rest, n - 1))
  }

  /** The second word must be the complement of the first. */
  function ParseStored(bits: Bits): (r: Outcome<Parsed<seq<Token>>>)
    ensures r.Done? ==> |r.value.rest| < |bits|
  {
    var Parsed(len, bits) :- TakeNumber(bits, 16);
    var Parsed(nlen, bits) :- TakeNumber(bits, 16);
    if len + nlen != 0xFFFF then Rejected else ParseBytes(bits, len)
  }

  // ---------- dynamic tables ----------

  datatype Tables = Tables(lit: Lengths, dist: Lengths)

  /** The lengths of the code length code, which come in a fixed scrambled order. */
  function TakeCodeLengths(bits: Bits, i: nat, n: nat, table: Lengths): (r: Outcome<Parsed<Lengths>>)
    requires i <= n <= CODE_LENGTH_CODES && |table| == CODE_LENGTH_CODES
    ensures r.Done? ==> |r.value.value| == CODE_LENGTH_CODES && |r.value.rest| <= |bits|
    decreases n - i
  {
    if i == n then Done(Parsed(table, bits))
    else
      var Parsed(length, bits) :- TakeNumber(bits, 3);
      TakeCodeLengths(bits, i + 1, n, table[CLEN_ORDER[i] := length])
  }

  function Repeat(v: nat, n: nat): (r: Lengths)
    ensures |r| == n && forall i :: 0 <= i < n ==> r[i] == v
  {
    seq(n, i => v)
  }

  /** How long a run of symbol 16, 17 or 18 is. */
  function TakeRunLength(symbol: nat, bits: Bits): Outcome<Parsed<nat>> {
    if symbol == 16 then TakeBase(bits, 2, 3)
    else if symbol == 17 then TakeBase(bits, 3, 3)
    else TakeBase(bits, 7, 11)
  }

  /** One step of the length list: the lengths so far, extended by the next symbol. */
  function TakeRun(codes: Lengths, lengths: Lengths, bits: Bits): (r: Outcome<Parsed<Lengths>>)
    requires |lengths| < LENGTH_SLOTS
    ensures r.Done? ==> |r.value.rest| < |bits| && |lengths| <= |r.value.value| <= LENGTH_SLOTS
  {
    var Parsed(symbol, bits) :- Decode(codes, bits);
    if symbol < 16 then Done(Parsed(lengths + [symbol], bits))
    else if symbol == 16 && lengths == [] then Panicked
    else
      var Parsed(n, bits) :- TakeRunLength(symbol, bits);
      if |lengths| + n > LENGTH_SLOTS then Panicked
      else Done(Parsed(lengths + Repeat(if symbol == 16 then lengths[|lengths| - 1] else 0, n), bits))
  }

  function TakeLengths(codes: Lengths, lengths: Lengths, total: nat, bits: Bits): (r: Outcome<Parsed<Lengths>>)
    requires |lengths| <= LENGTH_SLOTS && total <= LENGTH_SLOTS
    ensures r.Done? ==> |r.value.rest| <= |bits| && total <= |r.value.value| <= LENGTH_SLOTS
    decreases |bits|
  {
    if |lengths| >= total then Done(Parsed(lengths, bits))
    else
      var Parsed(lengths, bits) :- TakeRun(codes, lengths, bits);
      TakeLengths(codes, lengths, total, bits)
  }

  /** The lists of lengths behind a header that announces their sizes. */
  function ParseLengthLists(literals: nat, distances: nat, clengths: nat, bits: Bits): (r: Outcome<Parsed<Tables>>)
    requires literals + distances <= LENGTH_SLOTS && clengths <= CODE_LENGTH_CODES
    ensures r.Done? ==> |r.value.rest| <= |bits|
  {
    var Parsed(codes, bits) :- TakeCodeLengths(bits, 0, clengths, Repeat(0, CODE_LENGTH_CODES));
    var Parsed(lengths, bits) :- TakeLengths(codes, [], literals + distances, bits);
    Done(Parsed(Tables(lengths[..literals], lengths[literals..literals + distances]), bits))
  }

  function ParseTables(bits: Bits): (r: Outcome<Parsed<Tables>>)
    ensures r.Done? ==> |r.value.rest| < |bits|
  {
    var Parsed(literals, bits) :- TakeBase(bits, 5, 257);
    var Parsed(distances, bits) :- TakeBase(bits, 5, 1);
    var Parsed(clengths, bits) :- TakeBase(bits, 4, 4);
    ParseLengthLists(literals, distances, clengths, bits)
  }

  // ---------- blocks ----------

  function ParseBody(kind: nat, bits: Bits): (r: Outcome<Parsed<seq<Token>>>)
    ensures r.Done? ==> |r.value.rest| < |bits|
  {
    if kind == 0 then ParseStored(bits)
    else if kind == 1 then ParseTokens(FixedLiteralLengths(), FixedDistanceLengths(), bits)
    else if kind == 2 then
      var Parsed(tables, bits) :- ParseTables(bits);
      ParseTokens(tables.lit, tables.dist, bits)
    else Rejected
  }

  /** All blocks up to and including the first one marked final. */
  function ParseBlocks(bits: Bits): (r: Outcome<Parsed<seq<Token>>>)
    ensures r.Done? ==> |r.value.rest| < |bits|
    decreases |bits|
  {
    var Parsed(isFinal, bits) :- TakeBit(bits);
    var Parsed(kind, bits) :- TakeNumber(bits, 2);
    var Parsed(tokens, bits) :- ParseBody(kind, bits);
    if isFinal then Done(Parsed(tokens, bits)) else Prepend(tokens, ParseBlocks(bits))
  }

  // ---------- how parsing fails ----------

  lemma {:induction false} DecodeNeverRejects(ls: Lengths, i: nat, offs: nat, bits: Bits)
    requires i >= 1
    ensures !DecodeFrom(ls, i, offs, bits).Rejected?
    decreases |bits|
  {
    if bits != [] && i <= MAX_BITS && 2 * offs + BitValue(bits[0]) >= Count(ls, i) {
      DecodeNeverRejects(ls, i + 1, 2 * offs + BitValue(bits[0]) - Count(ls, i), bits[1..]);
    }
  }

  lemma {:induction false} TokensNeverReject(lit: Lengths, dist: Lengths, bits: Bits)
    ensures !ParseTokens(lit, dist, bits).Rejected?
    decreases |bits|
  {
    DecodeNeverRejects(lit, 1, 0, bits);
    if ParseToken(lit, dist, bits).Done? {
      TokensNeverReject(lit, dist, ParseToken(lit, dist, bits).value.rest);
    } else if Decode(lit, bits).Done? {
      var Parsed(symbol, bits') := Decode(lit, bits).value;
      if symbol > END_OF_BLOCK && symbol - 257 < |LENGTH_BITS| {
        var length := TakeBase(bits', LENGTH_BITS[symbol - 257], LENGTH_BASE[symbol - 257]);
        if length.Done? {
          DecodeNeverRejects(dist, 1, 0, length.value.rest);
        }
      }
    }
  }

  lemma {:induction false} CodeLengthsNeverReject(bits: Bits, i: nat, n: nat, table: Lengths)
    requires i <= n <= CODE_LENGTH_CODES && |table| == CODE_LENGTH_CODES
    ensures !TakeCodeLengths(bits, i, n, table).Rejected?
    decreases n - i
  {
    if i < n && TakeNumber(bits, 3).Done? {
      var Parsed(length, rest) := TakeNumber(bits, 3).value;
      CodeLengthsNeverReject(rest, i + 1, n, table[CLEN_ORDER[i] := length]);
    }
  }

  lemma {:induction false} LengthsNeverReject(codes: Lengths, lengths: Lengths, total: nat, bits: Bits)
    requires |lengths| <= LENGTH_SLOTS && total <= LENGTH_SLOTS
    ensures !TakeLengths(codes, lengths, total, bits).Rejected?
    decreases |bits|
  {
    if |lengths| < total {
      DecodeNeverRejects(codes, 1, 0, bits);
      var run := TakeRun(codes, lengths, bits);
      if run.Done? {
        LengthsNeverReject(codes, run.value.value, total, run.value.rest);
      }
    }
  }

  lemma ListsNeverReject(literals: nat, distances: nat, clengths: nat, bits: Bits)
    requires literals + distances <= LENGTH_SLOTS && clengths <= CODE_LENGTH_CODES
    ensures !ParseLengthLists(literals, distances, clengths, bits).Rejected?
  {
    hide Decode, TakeRun;
    var table := Repeat(0, CODE_LENGTH_CODES);
    CodeLengthsNeverReject(bits, 0, clengths, table);
    var codes := TakeCodeLengths(bits, 0, clengths, table);
    if codes.Done? {
      LengthsNeverReject(codes.value.value, [], literals + distances, codes.value.rest);
    }
  }

  lemma TablesNeverReject(bits: Bits)
    ensures !ParseTables(bits).Rejected?
  {
    hide ParseLengthLists;
    var literals := TakeBase(bits, 5, 257);
    if literals.Done? {
      var distances := TakeBase(literals.value.rest, 5, 1);
      if distances.Done? {
        var clengths := TakeBase(distances.value.rest, 4, 4);
        if clengths.Done? {
          Pow2Table();
          ListsNeverReject(literals.value.value, distances.value.value, clengths.value.value, clengths.value.rest);
        }
      }
    }
  }

  lemma {:induction false} BytesNeverReject(bits: Bits, n: nat)
    ensures !ParseBytes(bits, n).Rejected?
    decreases n
  {
    if n > 0 && TakeByte(bits).Done? {
      BytesNeverReject(TakeByte(bits).value.rest, n - 1);
    }
  }

  lemma {:induction false} SumOfComplements(a: Bits, b: Bits)
    requires |a| == |b|
    ensures Value(a) + Value(b) == Pow2(|a|) - 1 <==> forall i :: 0 <= i < |a| ==> a[i] != b[i]
  {
    if a != [] {
      SumOfComplements(a[1..], b[1..]);
      assert (forall i :: 0 <= i < |a| ==> a[i] != b[i]) <==>
             a[0] != b[0] && forall i :: 0 <= i < |a[1..]| ==> a[1..][i] != b[1..][i] by {
        assert forall i :: 0 <= i < |a[1..]| ==> a[1..][i] == a[i + 1] && b[1..][i] == b[i + 1];
        assert forall i :: 1 <= i < |a| ==> a[i] == a[1..][i - 1] && b[i] == b[1..][i - 1];
      }
    }
  }

  /** An error is reported, rather than a panic, in two cases: a block of the reserved type, and a stored block whose
      second word is not the complement of its first. */
  lemma RejectedIff(kind: nat, bits: Bits)
    requires kind < 4
    ensures ParseBody(kind, bits).Rejected? <==>
            kind == 3 || (kind == 0 && |bits| >= 32 && exists i :: 0 <= i < 16 && bits[i] == bits[16 + i])
  {
    TokensNeverReject(FixedLiteralLengths(), FixedDistanceLengths(), bits);
    TablesNeverReject(bits);
    if ParseTables(bits).Done? {
      var Parsed(tables, rest) := ParseTables(bits).value;
      TokensNeverReject(tables.lit, tables.dist, rest);
    }
    if |bits| >= 32 {
      Pow2Table();
      var a, b := bits[..16], bits[16..][..16];
      SumOfComplements(a, b);
      assert forall i :: 0 <= i < 16 ==> a[i] == bits[i] && b[i] == bits[16 + i];
      BytesNeverReject(bits[16..][16..], Value(a));
    }
  }

  /** The list of lengths has room for 288 literal and 32 distance symbols: a run that goes beyond it panics. */
  lemma RunsEndAt320(codes: Lengths, lengths: Lengths, bits: Bits, symbol: nat, rest: Bits, n: nat, rest': Bits)
    requires |lengths| < 320 && Decode(codes, bits) == Done(Parsed(symbol, rest)) && symbol >= 16
    requires (symbol == 16 ==> lengths != []) && TakeRunLength(symbol, rest) == Done(Parsed(n, rest'))
    ensures |lengths| + n <= 320 ==> TakeRun(codes, lengths, bits).Done?
    ensures |lengths| + n > 320 ==> TakeRun(codes, lengths, bits) == Panicked
  {
  }
}
