/** The zlib container (RFC 1950) around a DEFLATE stream, its checksum, and how much a stream can grow. */
module Zlib {
  import opened Outcomes
  import opened Arithmetic
  import opened BitStreams
  import opened Huffman
  import opened Lz77
  import opened DeflateFormat
  import opened DeflateEncoder
  import opened DeflateRoundTrip
  import opened Inflate

  // ---------- Adler-32 ----------

  const ADLER_BASE := 65521

  function Sum(data: seq<Byte>): nat {
    if data == [] then 0 else data[0] + Sum(data[1..])
  }

  /** Each byte times the number of bytes from it to the end. */
  function WeightedSum(data: seq<Byte>): nat {
    if data == [] then 0 else |data| * data[0] + WeightedSum(data[1..])
  }

  /** The two sums of section 8.2 of RFC 1950 in closed form. */
  function AdlerA(data: seq<Byte>): (a: nat)
    ensures a < ADLER_BASE
  {
    (1 + Sum(data)) % ADLER_BASE
  }

  function AdlerB(data: seq<Byte>): (b: nat)
    ensures b < ADLER_BASE
  {
    (|data| + WeightedSum(data)) % ADLER_BASE
  }

  /** The four bytes in the other order. */
  function SwapBytes(word: nat): nat
    requires word < 0x1_0000_0000
  {
    var w1 := word / 256;
    var w2 := w1 / 256;
    word % 256 * 0x100_0000 + w1 % 256 * 0x1_0000 + w2 % 256 * 256 + w2 / 256
  }

  function FromLittleEndian(bytes: seq<Byte>): nat
    requires |bytes| == 4
  {
    var b0: nat, b1: nat, b2: nat, b3: nat := bytes[0], bytes[1], bytes[2], bytes[3];
    b0 + 256 * b1 + 0x1_0000 * b2 + 0x100_0000 * b3
  }

  /** Two 16-bit numbers, each with its high byte first. */
  function BigEndianPair(high: nat, low: nat): (bytes: seq<Byte>)
    requires high < 0x1_0000 && low < 0x1_0000
    ensures |bytes| == 4
  {
    var h1: int, h0: int, l1: int, l0: int := high / 256, high % 256, low / 256, low % 256;
    [h1, h0, l1, l0]
  }

  /** The checksum as it stands in the stream. */
  function Trailer(data: seq<Byte>): (bytes: seq<Byte>)
    ensures |bytes| == 4
  {
    BigEndianPair(AdlerB(data), AdlerA(data))
  }

  lemma {:induction false} SumSnoc(data: seq<Byte>, b: Byte)
    ensures Sum(data + [b]) == Sum(data) + b
    ensures WeightedSum(data + [b]) == WeightedSum(data) + Sum(data) + b
  {
    if data == [] {
      assert (data + [b])[1..] == [];
    } else {
      SumSnoc(data[1..], b);
      assert (data + [b])[1..] == data[1..] + [b];
      OneMoreTimes(|data|, data[0]);
    }
  }

  lemma AddModulo(x: nat, y: nat)
    ensures (x % ADLER_BASE + y) % ADLER_BASE == (x + y) % ADLER_BASE
  {
  }

  lemma AddModulo2(x: nat, y: nat)
    ensures (x % ADLER_BASE + y % ADLER_BASE) % ADLER_BASE == (x + y) % ADLER_BASE
  {
    AddModulo(x, y % ADLER_BASE);
    AddModulo(y, x);
  }

  lemma AdlerSnoc(data: seq<Byte>, b: Byte)
    ensures AdlerA(data + [b]) == (AdlerA(data) + b) % ADLER_BASE
    ensures AdlerB(data + [b]) == (AdlerB(data) + AdlerA(data + [b])) % ADLER_BASE
  {
    SumSnoc(data, b);
    AddModulo(1 + Sum(data), b);
    AddModulo2(|data| + WeightedSum(data), 1 + Sum(data + [b]));
  }

  /** Section 8.2 of RFC 1950: one sum starts at 1 and adds every byte, the other starts at 0 and adds the first sum
      every time, both modulo 65521. */
  lemma AdlerRecurrence(data: seq<Byte>, b: Byte)
    ensures AdlerA([]) == 1 && AdlerB([]) == 0
    ensures AdlerA(data + [b]) == (AdlerA(data) + b) % 65521
    ensures AdlerB(data + [b]) == (AdlerB(data) + AdlerA(data + [b])) % 65521
  {
    AdlerSnoc(data, b);
  }

  /** And the second sum comes first in the stream, each with its high byte first. */
  lemma TrailerBytes(data: seq<Byte>)
    ensures var t := Trailer(data);
      var t0: nat, t1: nat, t2: nat, t3: nat := t[0], t[1], t[2], t[3];
      256 * t0 + t1 == AdlerB(data) && 256 * t2 + t3 == AdlerA(data)
  {
  }

  /** The running sums equal the closed form, and neither addition leaves 32 bits. */
  method Adler32(bytes: seq<Byte>) returns (checksum: nat)
    ensures checksum < 0x1_0000_0000
    ensures checksum == SwapBytes(AdlerB(bytes) * 0x1_0000 + AdlerA(bytes))
  {
    var a, b := 1, 0;
    for i := 0 to |bytes|
      invariant a == AdlerA(bytes[..i]) && b == AdlerB(bytes[..i])
    {
      assert bytes[..i + 1] == bytes[..i] + [bytes[i]];
      AdlerSnoc(bytes[..i], bytes[i]);
      assert a + bytes[i] < 0x1_0000_0000 && b + (a + bytes[i]) % ADLER_BASE < 0x1_0000_0000;
      a := (a + bytes[i]) % ADLER_BASE;
      b := (b + a) % ADLER_BASE;
    }
    assert bytes[..|bytes|] == bytes;
    checksum := SwapBytes(b * 0x1_0000 + a);
  }

  lemma SwapIsBigEndian(high: nat, low: nat)
    requires high < 0x1_0000 && low < 0x1_0000
    ensures SwapBytes(high * 0x1_0000 + low) == FromLittleEndian(BigEndianPair(high, low))
  {
    var word := high * 0x1_0000 + low;
    LastDigit(high * 256 + low / 256, low % 256);
    LastDigit(high, low / 256);
    assert word / 256 == high * 256 + low / 256;
  }

  lemma LastDigit(q: nat, r: nat)
    requires r < 256
    ensures (q * 256 + r) / 256 == q && (q * 256 + r) % 256 == r
  {
  }

  lemma LittleEndianDigits(s: seq<Byte>)
    requires |s| == 4
    ensures var v := FromLittleEndian(s);
      s[0] == v % 256 && s[1] == v / 256 % 256 && s[2] == v / 256 / 256 % 256 && s[3] == v / 256 / 256 / 256
  {
    var b0: nat, b1: nat, b2: nat, b3: nat := s[0], s[1], s[2], s[3];
    LastDigit(b1 + 256 * (b2 + 256 * b3), b0);
    LastDigit(b2 + 256 * b3, b1);
    LastDigit(b3, b2);
    assert FromLittleEndian(s) == (b1 + 256 * (b2 + 256 * b3)) * 256 + b0;
  }

  /** Comparing the swapped checksum with the little-endian trailer compares the trailer byte by byte. */
  lemma ChecksumIffTrailer(data: seq<Byte>, trailer: seq<Byte>)
    requires |trailer| == 4
    ensures SwapBytes(AdlerB(data) * 0x1_0000 + AdlerA(data)) == FromLittleEndian(trailer) <==> trailer == Trailer(data)
  {
    SwapIsBigEndian(AdlerB(data), AdlerA(data));
    LittleEndianDigits(trailer);
    LittleEndianDigits(Trailer(data));
  }

  // ---------- growth ----------

  lemma MatchCost(symbol: nat, dist: Lengths, bits: Bits)
    requires ParseMatch(symbol, dist, bits).Done?
    ensures var Parsed(token, rest) := ParseMatch(symbol, dist, bits).value;
      token.length <= 258 && |rest| < |bits|
  {
    LengthBounded(symbol, bits);
  }

  /** Every token costs at least one bit for 129 bytes of output. */
  lemma TokenCost(lit: Lengths, dist: Lengths, bits: Bits)
    requires ParseToken(lit, dist, bits).Done? && ParseToken(lit, dist, bits).value.value.Some?
    ensures var Parsed(token, rest) := ParseToken(lit, dist, bits).value;
      ExpandedSize([token.value]) <= 129 * (|bits| - |rest|)
  {
    hide ParseMatch;
    var Parsed(symbol, bits') := Decode(lit, bits).value;
    if symbol > END_OF_BLOCK {
      MatchCost(symbol - 257, dist, bits');
    }
  }

  lemma {:induction false} TokensCost(lit: Lengths, dist: Lengths, bits: Bits)
    requires ParseTokens(lit, dist, bits).Done?
    ensures var Parsed(tokens, rest) := ParseTokens(lit, dist, bits).value;
      ExpandedSize(tokens) <= 129 * (|bits| - |rest|)
    decreases |bits|
  {
    var Parsed(token, bits') := ParseToken(lit, dist, bits).value;
    if token.Some? {
      TokenCost(lit, dist, bits);
      TokensCost(lit, dist, bits');
      ExpandedSizeAppend([token.value], ParseTokens(lit, dist, bits').value.value);
    }
  }

  lemma {:induction false} BytesCost(bits: Bits, n: nat)
    requires ParseBytes(bits, n).Done?
    ensures ExpandedSize(ParseBytes(bits, n).value.value) == n
    decreases n
  {
    if n > 0 {
      var Parsed(b, rest) := TakeByte(bits).value;
      BytesCost(rest, n - 1);
      ExpandedSizeAppend([Literal(b)], ParseBytes(rest, n - 1).value.value);
    }
  }

  lemma BodyCost(kind: nat, bits: Bits)
    requires ParseBody(kind, bits).Done?
    ensures var Parsed(tokens, rest) := ParseBody(kind, bits).value;
      ExpandedSize(tokens) <= 129 * (|bits| - |rest|)
  {
    if kind == 0 {
      BytesCost(bits[16..][16..], Value(bits[..16]));
    } else if kind == 1 {
      TokensCost(FixedLiteralLengths(), FixedDistanceLengths(), bits);
    } else {
      var Parsed(tables, rest) := ParseTables(bits).value;
      TokensCost(tables.lit, tables.dist, rest);
    }
  }

  /** No stream, valid encoding or not, produces more than 129 bytes for each bit it uses. */
  lemma {:induction false} OutputBound(bits: Bits)
    requires ParseBlocks(bits).Done?
    ensures var Parsed(tokens, rest) := ParseBlocks(bits).value;
      && ExpandedSize(tokens) <= 129 * (|bits| - |rest|)
      && |Expand([], tokens)| <= 129 * (|bits| - |rest|)
    decreases |bits|
  {
    var kind, body := TakeNumber(bits[1..], 2).value.value, bits[1..][2..];
    BodyCost(kind, body);
    var Parsed(tokens, rest) := ParseBody(kind, body).value;
    if !bits[0] {
      OutputBound(rest);
      ExpandedSizeAppend(tokens, ParseBlocks(rest).value.value);
    }
    ExpandSize([], ParseBlocks(bits).value.value);
  }

  // ---------- the container ----------

  /** Deflate with a window of at most 32 KiB, a header divisible by 31, no preset dictionary. */
  predicate HeaderOk(cmf: Byte, flags: Byte) {
    cmf % 16 == 8 && cmf / 16 <= 7 && (cmf * 256 + flags) % 31 == 0 && flags / 32 % 2 == 0
  }

  /** The fields of section 2.2 of RFC 1950: compression method 8, a window of at most 32 KiB, no dictionary, any
      level, and a check value that makes the two bytes a multiple of 31. */
  lemma HeaderFields(cm: nat, cinfo: nat, level: nat, dict: nat, fcheck: nat)
    requires cm < 16 && cinfo < 16 && level < 4 && dict < 2 && fcheck < 32
    ensures HeaderOk(16 * cinfo + cm, 64 * level + 32 * dict + fcheck) <==>
            && cm == 8 && cinfo <= 7 && dict == 0
            && (256 * (16 * cinfo + cm) + (64 * level + 32 * dict + fcheck)) % 31 == 0
  {
    var cmf, flags := 16 * cinfo + cm, 64 * level + 32 * dict + fcheck;
    DivideSum(cinfo, 16, cm, cmf);
    DivideSum(2 * level + dict, 32, fcheck, flags);
    DivideSum(level, 2, dict, 2 * level + dict);
    assert cmf * 256 + flags == 256 * cmf + flags;
  }

  lemma CheckValue(n: nat) returns (fcheck: nat)
    ensures fcheck < 31 && (n + fcheck) % 31 == 0
  {
    Divided(n, 31);
    if n % 31 == 0 {
      fcheck := 0;
    } else {
      fcheck := 31 - n % 31;
      DivideSum(n / 31 + 1, 31, 0, n + fcheck);
    }
  }

  /** For every choice of fields there is such a check value. */
  lemma CheckValueExists(cm: nat, cinfo: nat, level: nat, dict: nat) returns (fcheck: nat)
    requires cm < 16 && cinfo < 16 && level < 4 && dict < 2
    ensures fcheck < 31
    ensures HeaderOk(16 * cinfo + cm, 64 * level + 32 * dict + fcheck) <==> cm == 8 && cinfo <= 7 && dict == 0
  {
    var n := 256 * (16 * cinfo + cm) + (64 * level + 32 * dict);
    fcheck := CheckValue(n);
    HeaderFields(cm, cinfo, level, dict, fcheck);
  }

  /** The two bytes for these fields, with method 8 and no dictionary. */
  predicate HeaderOf(cmf: Byte, flags: Byte, cinfo: nat, level: nat, fcheck: nat) {
    && cinfo <= 7 && level < 4 && fcheck < 32
    && cmf == 16 * cinfo + 8 && flags == 64 * level + fcheck && (256 * cmf + flags) % 31 == 0
  }

  ghost predicate GoodHeader(cmf: Byte, flags: Byte) {
    exists cinfo, level, fcheck :: HeaderOf(cmf, flags, cinfo, level, fcheck)
  }

  lemma GoodHeaderAccepted(cmf: Byte, flags: Byte)
    requires GoodHeader(cmf, flags)
    ensures HeaderOk(cmf, flags)
  {
    var cinfo, level, fcheck :| HeaderOf(cmf, flags, cinfo, level, fcheck);
    HeaderFields(8, cinfo, level, 0, fcheck);
  }

  /** `bytes` is a zlib stream for `data`. */
  predicate Uncompresses(bytes: seq<Byte>, data: seq<Byte>) {
    && |bytes| >= 6 && HeaderOk(bytes[0], bytes[1])
    && var parse := ParseBlocks(Unpack(bytes[2..|bytes| - 4]));
    && parse.Done? && data == Expand([], parse.value.value)
    && bytes[|bytes| - 4..] == Trailer(data)
  }

  method UncompressData(bytes: seq<Byte>) returns (r: Outcome<seq<Byte>>)
    ensures forall data :: r == Done(data) <==> Uncompresses(bytes, data)
    ensures r.Panicked? <==>
            || |bytes| <= 2
            || (HeaderOk(bytes[0], bytes[1]) && (|bytes| < 6 || ParseBlocks(Unpack(bytes[2..|bytes| - 4])).Panicked?))
  {
    if |bytes| <= 2 {
      return Panicked;
    }
    var cmf: int, flags: int := bytes[0], bytes[1];
    if cmf % 16 != 8 || cmf / 16 > 7 || (cmf * 256 + flags) % 31 != 0 || flags / 32 % 2 != 0 {
      return Rejected;
    }
    if |bytes| < 6 {
      return Panicked;
    }
    var context := new InflateContext(bytes[2..|bytes| - 4]);
    var data :- context.Decompress();
    var checksum := FromLittleEndian(bytes[|bytes| - 4..]);
    var adler := Adler32(data);
    ChecksumIffTrailer(data, bytes[|bytes| - 4..]);
    if adler != checksum {
      return Rejected;
    }
    return Done(data);
  }

  /** A zlib stream for `blocks`. */
  function Wrap(cmf: Byte, flags: Byte, blocks: seq<Block>): seq<Byte>
    requires AllWellFormed(blocks)
  {
    [cmf, flags] + Pack(EncodeBlocks(blocks)) + Trailer(Expand([], AllTokens(blocks)))
  }

  lemma UncompressWrapped(cmf: Byte, flags: Byte, blocks: seq<Block>, data: seq<Byte>)
    requires HeaderOk(cmf, flags)
    requires blocks != [] && AllWellFormed(blocks) && PaddedFrom(blocks, 0) && StoredAligned(blocks, 0)
    ensures Uncompresses(Wrap(cmf, flags, blocks), data) <==> data == Expand([], AllTokens(blocks))
  {
    var bytes, body := Wrap(cmf, flags, blocks), Pack(EncodeBlocks(blocks));
    assert bytes[2..|bytes| - 4] == body;
    assert bytes[|bytes| - 4..] == Trailer(Expand([], AllTokens(blocks)));
    var padding := InflateInvertsDeflate(blocks);
  }

  /** Every well-formed zlib stream is uncompressed to the expansion of its tokens and to nothing else. */
  lemma UncompressInvertsWrap(cmf: Byte, flags: Byte, blocks: seq<Block>, data: seq<Byte>)
    requires GoodHeader(cmf, flags)
    requires blocks != [] && AllWellFormed(blocks) && PaddedFrom(blocks, 0) && StoredAligned(blocks, 0)
    ensures Uncompresses(Wrap(cmf, flags, blocks), data) <==>
            data == Expand([], AllTokens(blocks))
  {
    hide HeaderOk, GoodHeader, Uncompresses, Wrap, Expand, AllWellFormed, PaddedFrom, StoredAligned;
    GoodHeaderAccepted(cmf, flags);
    UncompressWrapped(cmf, flags, blocks, data);
  }

  /** If all the blocks hold plain bytes, whatever their types, the result is these bytes. */
  lemma UncompressParts(cmf: Byte, flags: Byte, blocks: seq<Block>, parts: seq<seq<Byte>>, data: seq<Byte>)
    requires GoodHeader(cmf, flags)
    requires blocks != [] && AllWellFormed(blocks) && PaddedFrom(blocks, 0) && StoredAligned(blocks, 0)
    requires |blocks| == |parts| && forall i :: 0 <= i < |blocks| ==> BlockTokens(blocks[i]) == Literals(parts[i])
    ensures Uncompresses(Wrap(cmf, flags, blocks), data) <==> data == Concat(parts)
  {
    hide Expand, Uncompresses, Wrap, BlockTokens, AllWellFormed, PaddedFrom, StoredAligned;
    UncompressInvertsWrap(cmf, flags, blocks, data);
    ExpandParts([], blocks, parts);
    assert [] + Concat(parts) == Concat(parts);
  }

  /** A whole stream in the open: two header bytes, one final fixed block, the checksum. It uncompresses to the bytes
      that it writes and to nothing else. */
  lemma UncompressFixedBytes(cmf: Byte, flags: Byte, data: seq<Byte>, d: seq<Byte>)
    requires GoodHeader(cmf, flags)
    ensures var bits := [true, true, false] + (FixedBytes(data) + seq(7, i => false));
      var bytes := [cmf, flags] + Pack(bits) + Trailer(data);
      Uncompresses(bytes, d) <==> d == data
  {
    hide Uncompresses, FixedBytes, HeaderOk, Pack, Expand;
    var block := Fixed(Literals(data));
    OnlyBlock(data);
    assert AllWellFormed([block]) && BlockTokens(block) == Literals(data);
    UncompressParts(cmf, flags, [block], [data], d);
    assert Concat([data]) == data + Concat([]) == data;
    ExpandParts([], [block], [data]);
    assert [] + data == data;
  }

  lemma OnlyBlock(data: seq<Byte>)
    ensures var block := Fixed(Literals(data));
      && WellFormed(block) && AllWellFormed([block])
      && EncodeBlocks([block]) == [true, true, false] + (FixedBytes(data) + seq(7, i => false))
      && PaddedFrom([block], 0) && StoredAligned([block], 0)
  {
    hide FixedBytes, EncodeTokens, AllEncodable;
    var block := Fixed(Literals(data));
    FixedLiteralsEncoded(data);
    assert AllWellFormed([]) && EncodeBlocks([]) == [];
    BlockHeader(block, true, EncodeBody(block));
    assert EncodeBlocks([block]) == EncodeBlock(block, true) + [];
  }

  /** A stream grows by less than a factor of 1032. */
  lemma UncompressedSize(bytes: seq<Byte>, data: seq<Byte>)
    requires Uncompresses(bytes, data)
    ensures |data| <= 1032 * (|bytes| - 6)
  {
    OutputBound(Unpack(bytes[2..|bytes| - 4]));
  }
}
