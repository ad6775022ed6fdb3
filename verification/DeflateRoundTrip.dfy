/** Whole DEFLATE streams: for every list of blocks the decoder gives back the expansion of their tokens,
    with the one exception of stored blocks that do not follow a byte boundary. */
module DeflateRoundTrip {
  import opened Outcomes
  import opened Arithmetic
  import opened BitStreams
  import opened Huffman
  import opened Lz77
  import opened DeflateFormat
  import opened DeflateEncoder

  /** A stored block carries the bits that fill the byte its header ends in (section 3.2.4). A dynamic block
      carries its tables, the code for their lengths, how many lengths of that code are written, and the
      run-length coding chosen. */
  datatype Block =
    | Stored(padding: Bits, data: seq<Byte>)
    | Fixed(tokens: seq<Token>)
    | Dynamic(tables: Tables, codes: Lengths, shown: nat, runs: seq<Run>, tokens: seq<Token>)

  function FixedTables(): Tables {
    Tables(FixedLiteralLengths(), FixedDistanceLengths())
  }

  predicate WellFormed(block: Block) {
    match block
    case Stored(padding, data) => |padding| < 8 && |data| <= 0xFFFF
    case Fixed(tokens) => AllEncodable(FixedTables(), tokens)
    case Dynamic(tables, codes, shown, runs, tokens) =>
      && 257 <= |tables.lit| <= 288 && 1 <= |tables.dist| <= 32
      && |codes| == CODE_LENGTH_CODES && 4 <= shown <= CODE_LENGTH_CODES
      && (forall s :: 0 <= s < CODE_LENGTH_CODES ==> codes[s] < 8 && (CLEN_PLACE[s] >= shown ==> codes[s] == 0))
      && RunsGive(codes, [], runs, tables.lit + tables.dist)
      && (forall r :: r in runs ==> HasCode(codes, RunSymbol(r)))
      && AllEncodable(tables, tokens)
  }

  predicate AllWellFormed(blocks: seq<Block>) {
    blocks != [] ==> WellFormed(blocks[0]) && AllWellFormed(blocks[1..])
  }

  function BlockTokens(block: Block): seq<Token> {
    match block
    case Stored(_, data) => Literals(data)
    case Fixed(tokens) => tokens
    case Dynamic(_, _, _, _, tokens) => tokens
  }

  function AllTokens(blocks: seq<Block>): seq<Token> {
    if blocks == [] then [] else BlockTokens(blocks[0]) + AllTokens(blocks[1..])
  }

  // ---------- stored blocks ----------

  function EncodeBytes(data: seq<Byte>): Bits {
    if data == [] then [] else LowBits(data[0], 8) + EncodeBytes(data[1..])
  }

  function EncodeStored(data: seq<Byte>): Bits
    requires |data| <= 0xFFFF
  {
    LowBits(|data|, 16) + (LowBits(0xFFFF - |data|, 16) + EncodeBytes(data))
  }

  lemma {:induction false} ParseEncodedBytes(data: seq<Byte>, rest: Bits)
    ensures ParseBytes(EncodeBytes(data) + rest, |data|) == Done(Parsed(Literals(data), rest))
  {
    if data == [] {
      assert EncodeBytes(data) + rest == rest;
    } else {
      Pow2Table();
      Reassociate(LowBits(data[0], 8), EncodeBytes(data[1..]), rest);
      TakeWrittenNumber(data[0], 8, EncodeBytes(data[1..]) + rest);
      ParseEncodedBytes(data[1..], rest);
    }
  }

  lemma ParseEncodedStored(data: seq<Byte>, rest: Bits)
    requires |data| <= 0xFFFF
    ensures ParseStored(EncodeStored(data) + rest) == Done(Parsed(Literals(data), rest))
  {
    Pow2Table();
    var len, nlen, bytes := LowBits(|data|, 16), LowBits(0xFFFF - |data|, 16), EncodeBytes(data);
    Regroup(len, nlen, bytes, rest);
    TakeWrittenNumber(|data|, 16, nlen + (bytes + rest));
    TakeWrittenNumber(0xFFFF - |data|, 16, bytes + rest);
    ParseEncodedBytes(data, rest);
  }

  lemma {:induction false} ComplementBits(v: nat, n: nat)
    requires v < Pow2(n)
    ensures forall i :: 0 <= i < n ==> LowBits(Pow2(n) - 1 - v, n)[i] == !LowBits(v, n)[i]
  {
    if n > 0 {
      assert (Pow2(n) - 1 - v) / 2 == Pow2(n - 1) - 1 - v / 2;
      ComplementBits(v / 2, n - 1);
    }
  }

  lemma ComplementWord(v: nat)
    requires v <= 0xFFFF
    ensures forall i :: 0 <= i < 16 ==> LowBits(0xFFFF - v, 16)[i] != LowBits(v, 16)[i]
  {
    Pow2Table();
    ComplementBits(v, 16);
  }

  lemma {:induction false} ParsedBytesCount(bits: Bits, n: nat)
    requires ParseBytes(bits, n).Done?
    ensures |ParseBytes(bits, n).value.value| == n
    decreases n
  {
    if n > 0 {
      ParsedBytesCount(TakeByte(bits).value.rest, n - 1);
    }
  }

  lemma WordRead(bits: Bits)
    requires |bits| >= 16
    ensures Value(bits[..16]) <= 0xFFFF && bits[..16] == LowBits(Value(bits[..16]), 16)
  {
    Pow2Table();
    LowBitsOfValue(bits[..16], 16);
    assert bits[..16] + [] == bits[..16];
  }

  /** What the decoder has read as the two length words when it accepts a stored block. */
  lemma StoredWords(bits: Bits) returns (n: nat)
    requires ParseStored(bits).Done?
    ensures n == |ParseStored(bits).value.value| <= 0xFFFF && |bits| >= 32
    ensures bits[..16] == LowBits(n, 16) && bits[16..32] == LowBits(0xFFFF - n, 16)
  {
    var len, nlen := Value(bits[..16]), Value(bits[16..][..16]);
    WordRead(bits);
    WordRead(bits[16..]);
    assert bits[16..][..16] == bits[16..32];
    ParsedBytesCount(bits[16..][16..], len);
    n := len;
  }

  ghost predicate Periodic(w: Bits, k: nat) {
    forall i :: k <= i < |w| ==> w[i] == w[i - k]
  }

  /** Whether the `i`-th of the last `k` bits of a 16-bit word is the complement of bit `i`. */
  predicate Flips(w: Bits, k: nat, i: nat)
    requires |w| == 16 && i < k <= 16
  {
    w[16 - k + i] != w[i]
  }

  lemma EvenPeriods(w: Bits, k: nat)
    requires |w| == 16 && Periodic(w, k) && k in {1, 2, 4, 6}
    ensures k == 6 ==> !Flips(w, 6, 0) || !Flips(w, 6, 2) || !Flips(w, 6, 4)
    ensures k != 6 ==> !Flips(w, k, 0)
  {
    if k == 6 {
      assert w[10] == w[4] && w[12] == w[6] == w[0] && w[14] == w[8] == w[2];
    } else {
      assert k == 4 ==> w[12] == w[8] == w[4] == w[0];
      assert k == 2 ==> w[14] == w[12] == w[10] == w[8] == w[6] == w[4] == w[2] == w[0];
      assert k == 1 ==> w[15] == w[14] == w[13] == w[12] == w[11] == w[10] == w[9] == w[8];
      assert k == 1 ==> w[8] == w[7] == w[6] == w[5] == w[4] == w[3] == w[2] == w[1] == w[0];
    }
  }

  lemma Period3(w: Bits)
    requires |w| == 16 && Periodic(w, 3)
    ensures !Flips(w, 3, 0) || !Flips(w, 3, 1) || !Flips(w, 3, 2)
  {
    assert w[13] == w[10] == w[7] == w[4] == w[1];
    assert w[14] == w[11] == w[8] == w[5] == w[2];
    assert w[15] == w[12] == w[9] == w[6] == w[3] == w[0];
  }

  lemma Period5(w: Bits)
    requires |w| == 16 && Periodic(w, 5)
    ensures !Flips(w, 5, 0) || !Flips(w, 5, 1) || !Flips(w, 5, 2) || !Flips(w, 5, 3) || !Flips(w, 5, 4)
  {
    assert w[11] == w[6] == w[1] && w[12] == w[7] == w[2] && w[13] == w[8] == w[3] && w[14] == w[9] == w[4];
    assert w[15] == w[10] == w[5] == w[0];
  }

  lemma Period7(w: Bits)
    requires |w| == 16 && Periodic(w, 7)
    ensures !Flips(w, 7, 0) || !Flips(w, 7, 1) || !Flips(w, 7, 2) || !Flips(w, 7, 3) || !Flips(w, 7, 4) ||
      !Flips(w, 7, 5)
            || !Flips(w, 7, 6)
  {
    assert w[9] == w[2] && w[10] == w[3] && w[11] == w[4] && w[12] == w[5] && w[13] == w[6];
    assert w[14] == w[7] == w[0] && w[15] == w[8] == w[1];
  }

  /** A 16-bit word that repeats with period `k` below 8 does not end in the complement of its first bits:
      going around the period in steps of 16 would flip the bit an odd number of times. */
  lemma NoSuchWord(w: Bits, k: nat)
    requires |w| == 16 && 1 <= k < 8 && Periodic(w, k)
    ensures exists i :: 0 <= i < k && !Flips(w, k, i)
  {
    match k
    case 3 => Period3(w);
    case 5 => Period5(w);
    case 7 => Period7(w);
    case _ => EvenPeriods(w, k);
  }

  /** The second word at the start is the complement of `w`. */
  ghost predicate ComplementSecond(bits: Bits, w: Bits)
    requires |w| == 16 && |bits| >= 32
  {
    forall i :: 0 <= i < 16 ==> w[i] != bits[16 + i]
  }

  /** Two complementary words do not come again `k` bits earlier. */
  lemma ShiftedWords(bits: Bits, k: nat, w: Bits)
    requires 1 <= k < 8 && |w| == 16 && |bits| >= 32 + k && bits[k..k + 16] == w
    ensures bits[..16] == w ==> !ComplementSecond(bits, w)
  {
    forall i | 0 <= i < 16 ensures w[i] == bits[k + i] {
      assert bits[k..k + 16][i] == bits[k + i];
    }
    if bits[..16] == w {
      assert forall i :: 0 <= i < 16 ==> bits[..16][i] == bits[i];
      assert Periodic(w, k) by {
        forall i | k <= i < 16 ensures w[i] == w[i - k] {
          assert bits[k + (i - k)] == w[i - k];
        }
      }
      NoSuchWord(w, k);
      var i :| 0 <= i < k && !Flips(w, k, i);
      assert bits[16 + i] == bits[k + (16 - k + i)] == w[16 - k + i] == w[i];
    }
  }

  /** Moved back, the words of a stored block do not read as its length and the complement of its length. */
  lemma NotItsOwnWords(bits: Bits, k: nat, n: nat, m: nat)
    requires 1 <= k < 8 && n <= 0xFFFF && |bits| >= 32 + k && bits[k..k + 16] == LowBits(n, 16)
    requires m <= 0xFFFF && bits[..16] == LowBits(m, 16) && bits[16..32] == LowBits(0xFFFF - m, 16)
    ensures m != n
  {
    var w := LowBits(n, 16);
    if m == n {
      ComplementWord(n);
      assert ComplementSecond(bits, w) by {
        forall i | 0 <= i < 16 ensures w[i] != bits[16 + i] {
          assert bits[16..32][i] == bits[16 + i];
        }
      }
      ShiftedWords(bits, k, w);
      assert false;
    }
  }

  /** Padding the decoder should have skipped makes it see another length. */
  lemma MisreadLength(bits: Bits, k: nat, n: nat)
    requires 1 <= k < 8 && n <= 0xFFFF && |bits| >= 32 + k && bits[k..k + 16] == LowBits(n, 16)
    requires ParseStored(bits).Done?
    ensures |ParseStored(bits).value.value| != n
  {
    var m := StoredWords(bits);
    NotItsOwnWords(bits, k, n, m);
  }

  lemma SliceBehind(a: Bits, b: Bits, c: Bits)
    ensures (a + (b + c))[|a|..|a| + |b|] == b
  {
  }

  /** Padding the decoder should have skipped makes it see another length: it cannot return this block. */
  lemma PaddedStoredMisread(padding: Bits, data: seq<Byte>, rest: Bits)
    requires 1 <= |padding| < 8 && |data| <= 0xFFFF
    requires ParseStored(padding + (EncodeStored(data) + rest)).Done?
    ensures |ParseStored(padding + (EncodeStored(data) + rest)).value.value| != |data|
  {
    var len, nlen, bytes := LowBits(|data|, 16), LowBits(0xFFFF - |data|, 16), EncodeBytes(data);
    Regroup(len, nlen, bytes, rest);
    var tail := nlen + (bytes + rest);
    SliceBehind(padding, len, tail);
    MisreadLength(padding + (len + tail), |padding|, |data|);
  }

  /** The decoder reads the length words right behind the header, where RFC 1951 puts them at the next byte
      boundary. It returns the stored bytes exactly when there is nothing to skip. */
  lemma StoredIffNoPadding(padding: Bits, data: seq<Byte>, rest: Bits)
    requires WellFormed(Stored(padding, data))
    ensures ParseBody(0, padding + (EncodeStored(data) + rest)) == Done(Parsed(Literals(data), rest)) <==> padding == []
  {
    if padding == [] {
      assert padding + (EncodeStored(data) + rest) == EncodeStored(data) + rest;
      ParseEncodedStored(data, rest);
    } else if ParseStored(padding + (EncodeStored(data) + rest)).Done? {
      PaddedStoredMisread(padding, data, rest);
    }
  }

  // ---------- dynamic blocks ----------

  function EncodeLists(block: Block): Bits
    requires block.Dynamic? && WellFormed(block)
  {
    EncodeCodeLengths(block.codes, 0, block.shown) + EncodeRuns(block.codes, block.runs)
  }

  function EncodeTables(block: Block): Bits
    requires block.Dynamic? && WellFormed(block)
  {
    LowBits(|block.tables.lit| - 257, 5) +
    (LowBits(|block.tables.dist| - 1, 5) + (LowBits(block.shown - 4, 4) + EncodeLists(block)))
  }

  lemma ParseListsTaken(literals: nat, distances: nat, clengths: nat, bits: Bits, codes: Lengths, bits': Bits,
                        all: Lengths, rest: Bits)
    requires |all| == literals + distances <= LENGTH_SLOTS && clengths <= CODE_LENGTH_CODES
    requires TakeCodeLengths(bits, 0, clengths, Repeat(0, CODE_LENGTH_CODES)) == Done(Parsed(codes, bits'))
    requires TakeLengths(codes, [], |all|, bits') == Done(Parsed(all, rest))
    ensures ParseLengthLists(literals, distances, clengths, bits) ==
            Done(Parsed(Tables(all[..literals], all[literals..literals + distances]), rest))
  {
  }

  lemma EncodedListsTaken(block: Block, rest: Bits)
    requires block.Dynamic? && WellFormed(block)
    ensures var Dynamic(tables, codes, shown, runs, _) := block;
      var all, tail := tables.lit + tables.dist, EncodeRuns(codes, runs) + rest;
      && |all| <= LENGTH_SLOTS && shown <= CODE_LENGTH_CODES
      && TakeCodeLengths(EncodeCodeLengths(codes, 0, shown) + tail, 0, shown, Repeat(0, CODE_LENGTH_CODES)) ==
         Done(Parsed(codes, tail))
      && TakeLengths(codes, [], |all|, tail) == Done(Parsed(all, rest))
  {
    var Dynamic(tables, codes, shown, runs, _) := block;
    TakeEncodedCodeLengths(codes, 0, shown, Repeat(0, CODE_LENGTH_CODES), EncodeRuns(codes, runs) + rest);
    TakeEncodedRuns(codes, [], runs, tables.lit + tables.dist, rest);
  }

  lemma ParseEncodedLists(block: Block, rest: Bits)
    requires block.Dynamic? && WellFormed(block)
    ensures ParseLengthLists(|block.tables.lit|, |block.tables.dist|, block.shown, EncodeLists(block) + rest) ==
            Done(Parsed(block.tables, rest))
  {
    hide ParseLengthLists, TakeCodeLengths, TakeLengths, Repeat, EncodeRuns, EncodeCodeLengths;
    hide RunsGive, AllEncodable, HasCode, RunSymbol;
    var Dynamic(tables, codes, shown, runs, _) := block;
    var all, tail := tables.lit + tables.dist, EncodeRuns(codes, runs) + rest;
    EncodedListsTaken(block, rest);
    Reassociate(EncodeCodeLengths(codes, 0, shown), EncodeRuns(codes, runs), rest);
    ParseListsTaken(|tables.lit|, |tables.dist|, shown, EncodeCodeLengths(codes, 0, shown) + tail, codes, tail, all,
      rest);
    SplitLists(tables.lit, tables.dist);
  }

  lemma SplitLists(a: Lengths, b: Lengths)
    ensures (a + b)[..|a|] == a && (a + b)[|a|..|a| + |b|] == b
  {
  }

  /** The decoder rebuilds both tables exactly, and nothing of the code length code is left in them. */
  lemma ParseEncodedTables(block: Block, rest: Bits)
    requires block.Dynamic? && WellFormed(block)
    ensures ParseTables(EncodeTables(block) + rest) == Done(Parsed(block.tables, rest))
  {
    Pow2Table();
    var lit, dist, shown := |block.tables.lit|, |block.tables.dist|, block.shown;
    var a, b, c, lists := LowBits(lit - 257, 5), LowBits(dist - 1, 5), LowBits(shown - 4, 4), EncodeLists(block);
    Reassociate(a, b + (c + lists), rest);
    Regroup(b, c, lists, rest);
    TakeWrittenBase(lit, 5, 257, b + (c + (lists + rest)));
    TakeWrittenBase(dist, 5, 1, c + (lists + rest));
    TakeWrittenBase(shown, 4, 4, lists + rest);
    ParseEncodedLists(block, rest);
  }

  // ---------- streams ----------

  function Kind(block: Block): nat {
    match block
    case Stored(_, _) => 0
    case Fixed(_) => 1
    case Dynamic(_, _, _, _, _) => 2
  }

  function EncodeBody(block: Block): Bits
    requires WellFormed(block)
  {
    match block
    case Stored(padding, data) => padding + EncodeStored(data)
    case Fixed(tokens) => EncodeTokens(FixedTables(), tokens)
    case Dynamic(tables, _, _, _, tokens) => EncodeTables(block) + EncodeTokens(tables, tokens)
  }

  function EncodeBlock(block: Block, isFinal: bool): Bits
    requires WellFormed(block)
  {
    [isFinal] + (LowBits(Kind(block), 2) + EncodeBody(block))
  }

  /** The blocks one after another, the last one marked final. */
  function EncodeBlocks(blocks: seq<Block>): Bits
    requires AllWellFormed(blocks)
  {
    if blocks == [] then [] else EncodeBlock(blocks[0], |blocks| == 1) + EncodeBlocks(blocks[1..])
  }

  /** How many bits of the byte are left when a block header that starts at bit `pos` has ended. */
  function BitsToBoundary(pos: nat): nat {
    (8 - (pos + 3) % 8) % 8
  }

  /** Where the block after the first one starts. */
  function NextBlock(blocks: seq<Block>, pos: nat): nat
    requires blocks != [] && WellFormed(blocks[0])
  {
    pos + |EncodeBlock(blocks[0], |blocks| == 1)|
  }

  /** The stream that starts with `blocks` at bit `pos` pads every stored block as RFC 1951 demands. */
  predicate PaddedFrom(blocks: seq<Block>, pos: nat)
    requires AllWellFormed(blocks)
  {
    blocks != [] ==>
    && (blocks[0].Stored? ==> |blocks[0].padding| == BitsToBoundary(pos))
    && PaddedFrom(blocks[1..], NextBlock(blocks, pos))
  }

  /** Every stored block follows a header that ends on a byte boundary. */
  predicate StoredAligned(blocks: seq<Block>, pos: nat)
    requires AllWellFormed(blocks)
  {
    blocks != [] ==>
    && (blocks[0].Stored? ==> (pos + 3) % 8 == 0)
    && StoredAligned(blocks[1..], NextBlock(blocks, pos))
  }

  predicate NoPadding(blocks: seq<Block>) {
    blocks != [] ==> (blocks[0].Stored? ==> blocks[0].padding == []) && NoPadding(blocks[1..])
  }

  lemma BoundaryIffNoBitsLeft(pos: nat)
    ensures BitsToBoundary(pos) == 0 <==> (pos + 3) % 8 == 0
  {
  }

  /** A conforming stream has no padding exactly when every stored block is aligned. */
  lemma {:induction false} AlignedIffNoPadding(blocks: seq<Block>, pos: nat)
    requires AllWellFormed(blocks) && PaddedFrom(blocks, pos)
    ensures StoredAligned(blocks, pos) <==> NoPadding(blocks)
    decreases blocks
  {
    if blocks != [] {
      BoundaryIffNoBitsLeft(pos);
      AlignedIffNoPadding(blocks[1..], NextBlock(blocks, pos));
    }
  }

  /** The body of a block is decoded to its tokens unless it is a stored block with padding. */
  lemma ParseEncodedBody(block: Block, rest: Bits)
    requires WellFormed(block)
    ensures ParseBody(Kind(block), EncodeBody(block) + rest) == Done(Parsed(BlockTokens(block), rest)) <==>
            (block.Stored? ==> block.padding == [])
  {
    match block
    case Stored(padding, data) =>
      Reassociate(padding, EncodeStored(data), rest);
      StoredIffNoPadding(padding, data, rest);
    case Fixed(tokens) =>
      ParseEncodedTokens(FixedTables(), tokens, rest);
    case Dynamic(tables, _, _, _, tokens) =>
      Reassociate(EncodeTables(block), EncodeTokens(tables, tokens), rest);
      ParseEncodedTables(block, EncodeTokens(tables, tokens) + rest);
      ParseEncodedTokens(tables, tokens, rest);
  }

  /** The header of a block, and then its body. */
  lemma ParseEncodedHeader(block: Block, isFinal: bool, rest: Bits)
    requires WellFormed(block)
    ensures var bits := EncodeBlock(block, isFinal) + rest;
      && TakeBit(bits) == Done(Parsed(isFinal, LowBits(Kind(block), 2) + (EncodeBody(block) + rest)))
      && TakeNumber(LowBits(Kind(block), 2) + (EncodeBody(block) + rest), 2) ==
         Done(Parsed(Kind(block), EncodeBody(block) + rest))
  {
    Pow2Table();
    Regroup([isFinal], LowBits(Kind(block), 2), EncodeBody(block), rest);
    var tail := LowBits(Kind(block), 2) + (EncodeBody(block) + rest);
    assert ([isFinal] + tail)[1..] == tail;
    TakeWrittenNumber(Kind(block), 2, EncodeBody(block) + rest);
  }

  lemma ParseEncodedBlock(block: Block, isFinal: bool, rest: Bits)
    requires WellFormed(block) && (block.Stored? ==> block.padding == [])
    ensures ParseBlocks(EncodeBlock(block, isFinal) + rest) ==
            if isFinal then Done(Parsed(BlockTokens(block), rest)) else Prepend(BlockTokens(block), ParseBlocks(rest))
  {
    ParseEncodedHeader(block, isFinal, rest);
    ParseEncodedBody(block, rest);
  }

  /** For every list of blocks without padding, the decoder recovers the tokens of all of them and leaves what
      follows the final block. */
  lemma {:induction false} DecodeEncodedBlocks(blocks: seq<Block>, tail: Bits)
    requires blocks != [] && AllWellFormed(blocks) && NoPadding(blocks)
    ensures ParseBlocks(EncodeBlocks(blocks) + tail) == Done(Parsed(AllTokens(blocks), tail))
    decreases blocks
  {
    var block, isFinal, more := blocks[0], |blocks| == 1, EncodeBlocks(blocks[1..]);
    Reassociate(EncodeBlock(block, isFinal), more, tail);
    ParseEncodedBlock(block, isFinal, more + tail);
    if isFinal {
      assert more + tail == tail;
      assert BlockTokens(block) + [] == BlockTokens(block);
    } else {
      DecodeEncodedBlocks(blocks[1..], tail);
    }
  }

  /** On bytes: for every stream that conforms to RFC 1951 and in which stored blocks are aligned, the decoder
      recovers the tokens, and only zero bits of the last byte are left over. */
  lemma InflateInvertsDeflate(blocks: seq<Block>) returns (padding: nat)
    requires blocks != [] && AllWellFormed(blocks)
    requires PaddedFrom(blocks, 0) && StoredAligned(blocks, 0)
    ensures padding < 8
    ensures ParseBlocks(Unpack(Pack(EncodeBlocks(blocks)))) == Done(Parsed(AllTokens(blocks), LowBits(0, padding)))
  {
    AlignedIffNoPadding(blocks, 0);
    padding := UnpackPack(EncodeBlocks(blocks));
    DecodeEncodedBlocks(blocks, LowBits(0, padding));
  }

  // ---------- the fixed codes ----------

  lemma OneMoreTimes(n: nat, s: nat)
    ensures (n + 1) * s == n * s + s
  {
  }

  lemma {:induction false} KraftSumRepeat(l: nat, n: nat)
    ensures KraftSum(Repeat(l, n)) == n * Share(l)
  {
    if n > 0 {
      KraftSumRepeat(l, n - 1);
      assert Repeat(l, n)[..n - 1] == Repeat(l, n - 1);
      OneMoreTimes(n - 1, Share(l));
    }
  }

  /** The fixed codes are complete enough for every byte, the end of the block and every match. */
  lemma FixedTablesEncodeEverything(token: Token)
    requires token.Match? ==> 3 <= token.length <= 258 && 1 <= token.distance <= 32768
    ensures Encodable(FixedTables(), token) && HasCode(FixedTables().lit, END_OF_BLOCK)
  {
    var lit, dist := FixedTables().lit, FixedTables().dist;
    Pow2Table();
    assert lit == Repeat(8, 144) + Repeat(9, 112) + Repeat(7, 24) + Repeat(8, 8);
    KraftSumAppend(Repeat(8, 144) + Repeat(9, 112) + Repeat(7, 24), Repeat(8, 8));
    KraftSumAppend(Repeat(8, 144) + Repeat(9, 112), Repeat(7, 24));
    KraftSumAppend(Repeat(8, 144), Repeat(9, 112));
    KraftSumRepeat(8, 144);
    KraftSumRepeat(9, 112);
    KraftSumRepeat(7, 24);
    KraftSumRepeat(8, 8);
    assert dist == Repeat(5, 30);
    KraftSumRepeat(5, 30);
    KraftIffEverySymbolDecodes(lit);
    KraftIffEverySymbolDecodes(dist);
  }

  lemma {:induction false} CountAppend(a: Lengths, b: Lengths, l: nat)
    ensures Count(a + b, l) == Count(a, l) + Count(b, l)
  {
    if b == [] {
      assert a + b == a;
    } else {
      var n := |b| - 1;
      CountAppend(a, b[..n], l);
      assert (a + b)[..|a + b| - 1] == a + b[..n];
    }
  }

  lemma {:induction false} CountRepeat(v: nat, n: nat, l: nat)
    ensures Count(Repeat(v, n), l) == if v == l then n else 0
  {
    if n > 0 {
      CountRepeat(v, n - 1, l);
      assert Repeat(v, n)[..n - 1] == Repeat(v, n - 1);
    }
  }

  /** How many of the first `n` symbols of the fixed literal/length code have length `l`. */
  lemma FixedCount(n: nat, l: nat)
    requires n <= 288
    ensures |FixedLiteralLengths()| == 288
    ensures Count(FixedLiteralLengths()[..n], l) ==
            if l == 8 then (if n <= 144 then n else if n <= 280 then 144 else n - 136)
            else if l == 9 then (if n <= 144 then 0 else if n <= 256 then n - 144 else 112)
            else if l == 7 then (if n <= 256 then 0 else if n <= 280 then n - 256 else 24)
            else 0
  {
    var ls := FixedLiteralLengths()[..n];
    var a, b := if n <= 144 then n else 144, if n <= 144 then 0 else if n <= 256 then n - 144 else 112;
    var c, d := if n <= 256 then 0 else if n <= 280 then n - 256 else 24, if n <= 280 then 0 else n - 280;
    assert ls == Repeat(8, a) + Repeat(9, b) + Repeat(7, c) + Repeat(8, d);
    CountAppend(Repeat(8, a) + Repeat(9, b) + Repeat(7, c), Repeat(8, d), l);
    CountAppend(Repeat(8, a) + Repeat(9, b), Repeat(7, c), l);
    CountAppend(Repeat(8, a), Repeat(9, b), l);
    CountRepeat(8, a, l);
    CountRepeat(9, b, l);
    CountRepeat(7, c, l);
    CountRepeat(8, d, l);
  }

  lemma FixedFirstCodes()
    ensures var ls := FixedLiteralLengths();
      FirstCode(ls, 7) == 0 && FirstCode(ls, 8) == 0x30 && FirstCode(ls, 9) == 0x190
  {
    var ls := FixedLiteralLengths();
    assert ls[..288] == ls;
    FixedCount(288, 1);
    FixedCount(288, 2);
    FixedCount(288, 3);
    FixedCount(288, 4);
    FixedCount(288, 5);
    FixedCount(288, 6);
    FixedCount(288, 7);
    FixedCount(288, 8);
    assert FirstCode(ls, 4) == 2 * FirstCode(ls, 3) == 4 * FirstCode(ls, 2) == 0;
    assert FirstCode(ls, 7) == 2 * FirstCode(ls, 6) == 4 * FirstCode(ls, 5) == 0;
    assert FirstCode(ls, 8) == 2 * (FirstCode(ls, 7) + 24);
    assert FirstCode(ls, 9) == 2 * (FirstCode(ls, 8) + 152);
  }

  /** The codes that section 3.2.6 prints for literals, lengths and distances. */
  lemma FixedCodes(s: nat)
    requires s < 288
    ensures var ls := FixedLiteralLengths();
      |ls| == 288 && (ls[s], Code(ls, s)) == if s < 144 then (8, 0x30 + s)
                                             else if s < 256 then (9, 0x190 + (s - 144))
                                             else if s < 280 then (7, s - 256)
                                             else (8, 0xC0 + (s - 280))
    ensures var ls := FixedDistanceLengths();
      |ls| == 30 && (s < 30 ==> ls[s] == 5 && Code(ls, s) == s)
  {
    FixedFirstCodes();
    FixedCount(s, FixedLiteralLengths()[s]);
    if s < 30 {
      var ls := FixedDistanceLengths();
      assert ls == Repeat(5, 30) && ls[..s] == Repeat(5, s);
      CountRepeat(5, s, 5);
      CountRepeat(5, 30, 1);
      CountRepeat(5, 30, 2);
      CountRepeat(5, 30, 3);
      CountRepeat(5, 30, 4);
      assert FirstCode(ls, 3) == 2 * FirstCode(ls, 2) == 4 * FirstCode(ls, 1) == 0;
      assert FirstCode(ls, 5) == 2 * FirstCode(ls, 4) == 4 * FirstCode(ls, 3) == 0;
    }
  }

  // ---------- streams of plain bytes ----------

  /** The `n` digits of `v`, the highest first. */
  function Digits(v: nat, n: nat): Bits {
    seq(n, i requires 0 <= i < n => v / Pow2(n - 1 - i) % 2 == 1)
  }

  /** Bytes as the fixed code writes them. */
  function FixedBytes(data: seq<Byte>): Bits {
    if data == [] then []
    else
      var b: nat := data[0];
      (if b < 144 then Digits(0x30 + b, 8) else Digits(0x100 + b, 9)) + FixedBytes(data[1..])
  }

  lemma DigitsAreHighFirst(v: nat, n: nat)
    ensures HighFirst(v, n) == Digits(v, n)
  {
    forall i | 0 <= i < n ensures HighFirst(v, n)[i] == Digits(v, n)[i] {
      HighFirstIndex(v, n, i);
    }
  }

  lemma ZeroDigits(n: nat)
    ensures Digits(0, n) == seq(n, i => false)
  {
    forall i | 0 <= i < n ensures Digits(0, n)[i] == false {
      DivideSum(0, Pow2(n - 1 - i), 0, 0);
    }
  }

  lemma EndOfFixedBlock()
    ensures HasCode(FixedTables().lit, 256) && CodeBits(FixedTables().lit, 256) == seq(7, i => false)
  {
    Pow2Table();
    FixedCodes(256);
    DigitsAreHighFirst(0, 7);
    ZeroDigits(7);
  }

  lemma {:induction false} FixedLiteralsEncoded(data: seq<Byte>)
    ensures AllEncodable(FixedTables(), Literals(data))
    ensures EncodeTokens(FixedTables(), Literals(data)) == FixedBytes(data) + seq(7, i => false)
    decreases data
  {
    EndOfFixedBlock();
    forall t | t in Literals(data) ensures Encodable(FixedTables(), t) {
      FixedTablesEncodeEverything(t);
    }
    if data == [] {
      assert FixedBytes(data) + seq(7, i => false) == seq(7, i => false);
    } else {
      FixedLiteralsEncoded(data[1..]);
      FixedCodes(data[0]);
      DigitsAreHighFirst(Code(FixedTables().lit, data[0]), FixedTables().lit[data[0]]);
      assert Literals(data)[1..] == Literals(data[1..]);
      var first := CodeBits(FixedTables().lit, data[0]);
      assert EncodeTokens(FixedTables(), Literals(data)) == first + EncodeTokens(FixedTables(), Literals(data[1..]));
      Reassociate(first, FixedBytes(data[1..]), seq(7, i => false));
    }
  }

  lemma BlockHeader(block: Block, isFinal: bool, body: Bits)
    requires WellFormed(block) && !block.Dynamic? && EncodeBody(block) == body
    ensures EncodeBlock(block, isFinal) == [isFinal, block.Fixed?, false] + body
  {
    hide EncodeBody, WellFormed;
    var kind := LowBits(Kind(block), 2);
    assert kind == [block.Fixed?, false] && [isFinal] + kind == [isFinal, block.Fixed?, false];
    assert [isFinal] + (kind + body) == [isFinal] + kind + body;
  }

  /** A final block of the fixed type, bit by bit: three header bits, the bytes, and seven zero bits for the end. */
  lemma FixedBlockOfBytes(data: seq<Byte>, rest: Bits)
    ensures ParseBlocks([true, true, false] + (FixedBytes(data) + seq(7, i => false)) + rest) ==
            Done(Parsed(Literals(data), rest))
  {
    hide ParseBlocks, EncodeTokens, AllEncodable, FixedBytes;
    FixedLiteralsEncoded(data);
    var block := Fixed(Literals(data));
    var body := FixedBytes(data) + seq(7, i => false);
    BlockHeader(block, true, body);
    ParseEncodedBlock(block, true, rest);
  }

  /** A stored block behind its header: sixteen bits of length, their complement, and the bytes, low bits first. */
  lemma StoredBlockOfBytes(data: seq<Byte>, isFinal: bool, rest: Bits)
    requires |data| <= 0xFFFF
    ensures ParseBlocks([isFinal, false, false] + (EncodeStored(data) + rest)) ==
            if isFinal then Done(Parsed(Literals(data), rest)) else Prepend(Literals(data), ParseBlocks(rest))
  {
    hide ParseBlocks, EncodeStored;
    var block := Stored([], data);
    assert [] + EncodeStored(data) == EncodeStored(data);
    BlockHeader(block, isFinal, EncodeStored(data));
    Reassociate([isFinal, false, false], EncodeStored(data), rest);
    ParseEncodedBlock(block, isFinal, rest);
  }

  lemma {:induction false} BytesAsBits(data: seq<Byte>)
    ensures EncodeBytes(data) == Unpack(data)
  {
    if data != [] {
      BytesAsBits(data[1..]);
      ByteBitsAreLowBits(data[0]);
    }
  }

  function Concat(parts: seq<seq<Byte>>): seq<Byte> {
    if parts == [] then [] else parts[0] + Concat(parts[1..])
  }

  /** Blocks whose tokens are literals, whatever their types, give the bytes of all of them in turn. */
  lemma {:induction false} ExpandParts(out: seq<Byte>, blocks: seq<Block>, parts: seq<seq<Byte>>)
    requires |blocks| == |parts| && forall i :: 0 <= i < |blocks| ==> BlockTokens(blocks[i]) == Literals(parts[i])
    ensures Expand(out, AllTokens(blocks)) == out + Concat(parts)
    decreases blocks
  {
    hide ExpandToken, BlockTokens;
    if blocks == [] {
      assert out + [] == out;
    } else {
      ExpandAppend(out, BlockTokens(blocks[0]), AllTokens(blocks[1..]));
      ExpandLiterals(out, parts[0]);
      ExpandParts(out + parts[0], blocks[1..], parts[1..]);
      assert (out + parts[0]) + Concat(parts[1..]) == out + Concat(parts);
    }
  }
}
