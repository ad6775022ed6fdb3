/** The decoder as the kernel runs it: a bit reader that consumes its input, a 32 KiB ring that stands in
    for the output when a match is copied, and one pass that decodes and copies together. Every method
    is tied to the parse of `DeflateFormat` and the expansion of `Lz77`. */
module Inflate {
  import opened Outcomes
  import opened BitStreams
  import opened Huffman
  import opened HuffmanTable
  import opened Lz77
  import opened DeflateFormat

  class HuffRing {
    var pointer: nat
    const data: array<Byte>

    constructor ()
      ensures fresh(data) && Holds([])
    {
      pointer := 0;
      data := new Byte[WINDOW](_ => 0);
    }

    /** How many places back slot `j` was written, the newest byte being 1 place back. */
    function Age(j: nat): nat
      reads this
      requires pointer <= WINDOW && j < WINDOW
    {
      if j < pointer then pointer - j else pointer - j + WINDOW
    }

    /** The ring shows the last 32768 bytes of `out`. */
    ghost predicate Holds(out: seq<Byte>)
      reads this, data
    {
      && pointer <= WINDOW && data.Length == WINDOW
      && forall j :: 0 <= j < WINDOW ==> data[j] == PeekBack(out, Age(j))
    }
  }

  class InflateContext {
    var inputBuf: seq<Byte>
    var bitIndex: nat
    var outputBuf: seq<Byte>
    const ring: HuffRing

    constructor (bytes: seq<Byte>)
      ensures fresh(ring) && fresh(ring.data) && Valid()
      ensures unread == Unpack(bytes) && outputBuf == []
    {
      inputBuf := bytes;
      bitIndex := 0;
      outputBuf := [];
      ring := new HuffRing();
      unread := Unpack(bytes);
      new;
      if bytes != [] {
        assert ByteBits(bytes[0])[0..] == ByteBits(bytes[0]);
      }
    }

    ghost predicate Valid()
      reads this, ring, ring.data
    {
      ReaderValid() && ring.Holds(outputBuf)
    }

    /** The bits not read yet. */
    ghost var unread: Bits

    // The quantifier keeps the definition of UnreadBits out of proofs that do not mention it.
    ghost predicate ReaderValid()
      reads this
    {
      && bitIndex <= 8
      && forall buf, k {:trigger UnreadBits(buf, k)} :: buf == inputBuf && k == bitIndex ==>
        unread == UnreadBits(buf, k)
    }

    method GetBit() returns (r: Outcome<bool>)
      requires ReaderValid()
      modifies this`inputBuf, this`bitIndex, this`unread
      ensures ReaderValid()
      ensures Agrees(TakeBit(old(unread)), r, unread)
    {
      assert unread == UnreadBits(inputBuf, bitIndex);
      if bitIndex == 8 {
        if inputBuf == [] {
          return Panicked;
        }
        inputBuf := inputBuf[1..];
        if inputBuf == [] {
          return Panicked;
        }
        bitIndex := 0;
        assert ByteBits(inputBuf[0])[0..] == ByteBits(inputBuf[0]);
      }
      if inputBuf == [] {
        return Panicked;
      }
      var bit := BitSet(inputBuf[0], bitIndex);
      bitIndex := bitIndex + 1;
      unread := unread[1..];
      return Done(bit);
    }

    method GetBits(numBits: nat) returns (r: Outcome<nat>)
      requires ReaderValid()
      modifies this`inputBuf, this`bitIndex, this`unread
      ensures ReaderValid()
      ensures Agrees(TakeNumber(old(unread), numBits), r, unread)
    {
      ghost var bits := unread;
      var word := 0;
      for i := 0 to numBits
        invariant ReaderValid() && i <= 32 && i <= |bits|
        invariant unread == bits[i..] && word == Value(bits[..i])
      {
        var bit :- GetBit();
        if i >= 32 {
          return Panicked;
        }
        ValueAppend(bits[..i], bit);
        assert bits[..i + 1] == bits[..i] + [bit];
        word := word + BitValue(bit) * Pow2(i);
      }
      return Done(word);
    }

    method GetByte() returns (r: Outcome<Byte>)
      requires ReaderValid()
      modifies this`inputBuf, this`bitIndex, this`unread
      ensures ReaderValid()
      ensures Agrees(TakeByte(old(unread)), r, unread)
    {
      ghost var bits := unread;
      var byte :- GetBits(8);
      ValueFitsByte(bits[..8]);
      return Done(byte);
    }

    method GetBitsBase(num: nat, base: nat) returns (r: Outcome<nat>)
      requires ReaderValid()
      modifies this`inputBuf, this`bitIndex, this`unread
      ensures ReaderValid()
      ensures Agrees(TakeBase(old(unread), num, base), r, unread)
    {
      var extra := 0;
      if num != 0 {
        extra :- GetBits(num);
      }
      return Done(base + extra);
    }

    /** Reads one symbol. The table may be over-subscribed or incomplete: the last assertion of the
        source, that `base + offs` is an index of the table, holds for all of them. */
    method Decode(huff: Huff, ghost ls: Lengths) returns (r: Outcome<nat>)
      requires ReaderValid() && huff.Represents(ls)
      modifies this`inputBuf, this`bitIndex, this`unread
      ensures ReaderValid()
      ensures Agrees(Huffman.Decode(ls, old(unread)), r, unread)
    {
      ghost var goal := Huffman.Decode(ls, unread);
      var base: nat, offs: nat, i: nat := 0, 0, 1;
      while true
        invariant huff.Represents(ls) && ReaderValid() && 1 <= i <= MAX_BITS + 1
        invariant base == Offset(ls, i) && DecodeFrom(ls, i, offs, unread) == goal
        decreases MAX_BITS + 1 - i
      {
        ghost var bits := unread;
        var bit :- GetBit();
        assert bits[0] == bit && bits[1..] == unread;
        offs := 2 * offs + BitValue(bit);
        if i > MAX_BITS {
          return Panicked;
        }
        if offs < huff.counts[i] {
          break;
        }
        base := base + huff.counts[i];
        offs := offs - huff.counts[i];
        i := i + 1;
      }
      assert goal == Done(Parsed(Positions(ls, i)[offs], unread));
      huff.SymbolAt(ls, i, offs);
      return Done(huff.symbols[base + offs]);
    }

    method Emit(byte: Byte)
      requires Valid()
      modifies this`outputBuf, ring, ring.data
      ensures Valid() && outputBuf == old(outputBuf) + [byte]
    {
      if ring.pointer == WINDOW {
        ring.pointer := 0;
      }
      ring.data[ring.pointer] := byte;
      ring.pointer := ring.pointer + 1;
      outputBuf := outputBuf + [byte];
    }

    /** Offsets count around the ring: `offset` and `offset` plus a multiple of 32768 read the same byte. */
    method Peek(offset: nat) returns (b: Byte)
      requires Valid() && offset < 0x1_0000_0000_0000_0000
      ensures b == PeekBack(outputBuf, (offset + 32767) % 32768 + 1)
    {
      var index := (ring.pointer - offset) % 0x1_0000_0000_0000_0000 % WINDOW;
      RingAge(ring.pointer, offset);
      b := ring.data[index];
    }

    /** A method that decoded tokens ended as their parse says, and appended their expansion. */
    ghost predicate Produced(parse: Outcome<Parsed<seq<Token>>>, r: Outcome<()>, before: seq<Byte>)
      reads this
    {
      match parse
      case Done(p) => r.Done? && unread == p.rest && outputBuf == Expand(before, p.value)
      case Rejected => r.Rejected?
      case Panicked => r.Panicked?
    }

    method CopyStored(len: nat) returns (r: Outcome<()>)
      requires Valid()
      modifies this`inputBuf, this`bitIndex, this`unread, this`outputBuf, ring, ring.data
      ensures Valid() && Produced(ParseBytes(old(unread), len), r, old(outputBuf))
    {
      ghost var done: seq<Token> := [];
      PrependNothing(ParseBytes(unread, len));
      for i := 0 to len
        invariant Valid() && outputBuf == Expand(old(outputBuf), done)
        invariant ParseBytes(old(unread), len) == Prepend(done, ParseBytes(unread, len - i))
      {
        var byte :- GetByte();
        Emit(byte);
        PrependPrepend(done, [Literal(byte)], ParseBytes(unread, len - i - 1));
        ExpandSnoc(old(outputBuf), done, Literal(byte));
        done := done + [Literal(byte)];
      }
      assert done + [] == done;
      return Done(());
    }

    method Uncompressed() returns (r: Outcome<()>)
      requires Valid()
      modifies this`inputBuf, this`bitIndex, this`unread, this`outputBuf, ring, ring.data
      ensures Valid() && Produced(ParseStored(old(unread)), r, old(outputBuf))
    {
      var len :- GetBits(16);
      var nlen :- GetBits(16);
      if len + nlen != 0xFFFF {
        return Rejected;
      }
      r := CopyStored(len);
    }

    /** Copies a match out of the ring, byte by byte. */
    method CopyFromRing(length: nat, offset: nat)
      requires Valid() && 1 <= offset <= 32768
      modifies this`outputBuf, ring, ring.data
      ensures Valid() && outputBuf == CopyMatch(old(outputBuf), length, offset)
    {
      for i := 0 to length
        invariant Valid()
        invariant CopyMatch(outputBuf, length - i, offset) == CopyMatch(old(outputBuf), length, offset)
      {
        var b := Peek(offset);
        Emit(b);
      }
    }

    method DecodeDistance(huffDist: Huff, ghost dist: Lengths) returns (r: Outcome<nat>)
      requires ReaderValid() && huffDist.Represents(dist)
      modifies this`inputBuf, this`bitIndex, this`unread
      ensures ReaderValid() && Agrees(ParseDistance(dist, old(unread)), r, unread)
      ensures r.Done? ==> 1 <= r.value <= 32768
    {
      var distance :- Decode(huffDist, dist);
      if distance >= |DIST_BITS| {
        return Panicked;
      }
      ghost var bits := unread;
      var offset :- GetBitsBase(DIST_BITS[distance], DIST_BASE[distance]);
      DistanceInWindow(distance, bits);
      return Done(offset);
    }

    method InflateMatch(symbol: nat, huffDist: Huff, ghost dist: Lengths) returns (r: Outcome<()>)
      requires Valid() && huffDist.Represents(dist)
      modifies this`inputBuf, this`bitIndex, this`unread, this`outputBuf, ring, ring.data
      ensures Valid()
      ensures match ParseMatch(symbol, dist, old(unread))
              case Done(p) => r.Done? && unread == p.rest && outputBuf == ExpandToken(old(outputBuf), p.value)
              case Rejected => r.Rejected?
              case Panicked => r.Panicked?
    {
      if symbol >= |LENGTH_BITS| {
        return Panicked;
      }
      var length :- GetBitsBase(LENGTH_BITS[symbol], LENGTH_BASE[symbol]);
      var offset :- DecodeDistance(huffDist, dist);
      CopyFromRing(length, offset);
      return Done(());
    }

    /** One round of the block loop; the result says whether the block goes on. */
    method InflateToken(huffLen: Huff, huffDist: Huff, ghost lit: Lengths,
                        ghost dist: Lengths) returns (r: Outcome<bool>)
      requires Valid() && huffLen.Represents(lit) && huffDist.Represents(dist)
      modifies this`inputBuf, this`bitIndex, this`unread, this`outputBuf, ring, ring.data
      ensures Valid()
      ensures match ParseToken(lit, dist, old(unread))
              case Done(p) =>
                && r == Done(p.value.Some?) && unread == p.rest
                && outputBuf == if p.value.Some? then ExpandToken(old(outputBuf), p.value.value) else old(outputBuf)
              case Rejected => r.Rejected?
              case Panicked => r.Panicked?
    {
      hide CopyMatch, ParseMatch;
      var symbol :- Decode(huffLen, lit);
      if symbol < 256 {
        Emit(symbol);
        return Done(true);
      }
      if symbol == END_OF_BLOCK {
        return Done(false);
      }
      var _ :- InflateMatch(symbol - 257, huffDist, dist);
      return Done(true);
    }

    method InflateBlock(huffLen: Huff, huffDist: Huff, ghost lit: Lengths, ghost dist: Lengths) returns (r: Outcome<()>)
      requires Valid() && huffLen.Represents(lit) && huffDist.Represents(dist)
      modifies this`inputBuf, this`bitIndex, this`unread, this`outputBuf, ring, ring.data
      ensures Valid() && Produced(ParseTokens(lit, dist, old(unread)), r, old(outputBuf))
    {
      ghost var done: seq<Token> := [];
      PrependNothing(ParseTokens(lit, dist, unread));
      while true
        invariant Valid() && outputBuf == Expand(old(outputBuf), done)
        invariant huffLen.Represents(lit) && huffDist.Represents(dist)
        invariant ParseTokens(lit, dist, old(unread)) == Prepend(done, ParseTokens(lit, dist, unread))
        decreases |unread|
      {
        ghost var parsed := ParseToken(lit, dist, unread);
        var more :- InflateToken(huffLen, huffDist, lit, dist);
        if !more {
          break;
        }
        ghost var token := parsed.value.value.value;
        PrependPrepend(done, [token], ParseTokens(lit, dist, unread));
        ExpandSnoc(old(outputBuf), done, token);
        done := done + [token];
      }
      assert done + [] == done;
      return Done(());
    }

    // ---------- dynamic tables ----------

    /** Reads the lengths of the code length code into the first slots of `lengths`. */
    method ReadCodeLengths(lengths: array<nat>, n: nat) returns (r: Outcome<()>)
      requires ReaderValid() && n <= CODE_LENGTH_CODES <= lengths.Length
      requires ValidLengths(lengths[..CODE_LENGTH_CODES])
      modifies this`inputBuf, this`bitIndex, this`unread, lengths
      ensures ReaderValid()
      ensures match TakeCodeLengths(old(unread), 0, n, old(lengths[..CODE_LENGTH_CODES]))
              case Done(p) => r.Done? && unread == p.rest && lengths[..CODE_LENGTH_CODES] == p.value
              case Rejected => r.Rejected?
              case Panicked => r.Panicked?
      ensures ValidLengths(lengths[..CODE_LENGTH_CODES])
    {
      for i := 0 to n
        invariant ReaderValid() && ValidLengths(lengths[..CODE_LENGTH_CODES])
        invariant TakeCodeLengths(old(unread), 0, n, old(lengths[..CODE_LENGTH_CODES])) ==
                  TakeCodeLengths(unread, i, n, lengths[..CODE_LENGTH_CODES])
      {
        ghost var table := lengths[..CODE_LENGTH_CODES];
        var length :- GetBits(3);
        lengths[CLEN_ORDER[i]] := length;
        assert lengths[..CODE_LENGTH_CODES] == table[CLEN_ORDER[i] := length];
      }
      return Done(());
    }

    /** Writes `length` copies of `rep` from slot `count` on. */
    method WriteRun(lengths: array<nat>, count: nat, rep: nat, length: nat) returns (r: Outcome<nat>)
      requires lengths.Length == LENGTH_SLOTS && count <= LENGTH_SLOTS
      modifies lengths
      ensures r == if count + length > LENGTH_SLOTS then Panicked else Done(count + length)
      ensures r.Done? ==> lengths[..count + length] == old(lengths[..count]) + Repeat(rep, length)
    {
      var i := 0;
      while i != length
        invariant i <= length && count + i <= LENGTH_SLOTS
        invariant lengths[..count + i] == old(lengths[..count]) + Repeat(rep, i)
      {
        if count + i >= LENGTH_SLOTS {
          return Panicked;
        }
        lengths[count + i] := rep;
        assert Repeat(rep, i + 1) == Repeat(rep, i) + [rep];
        i := i + 1;
      }
      return Done(count + length);
    }

    /** One round of the length loop: how many slots are filled afterwards. */
    method ReadRun(codes: Huff, ghost cl: Lengths, lengths: array<nat>, count: nat) returns (r: Outcome<nat>)
      requires ReaderValid() && codes.Represents(cl) && |cl| == CODE_LENGTH_CODES
      requires lengths.Length == LENGTH_SLOTS && count < LENGTH_SLOTS && lengths !in {codes.counts, codes.symbols}
      modifies this`inputBuf, this`bitIndex, this`unread, lengths
      ensures ReaderValid()
      ensures match TakeRun(cl, old(lengths[..count]), old(unread))
              case Done(p) =>
                r == Done(|p.value|) && unread == p.rest && |p.value| <= LENGTH_SLOTS && lengths[..|p.value|] == p.value
              case Rejected => r.Rejected?
              case Panicked => r.Panicked?
    {
      ghost var bits := unread;
      var symbol :- Decode(codes, cl);
      DecodedIsCode(cl, bits);
      var rep, length := 0, 0;
      if symbol < 16 {
        lengths[count] := symbol;
        return Done(count + 1);
      } else if symbol < 19 {
        if symbol == 16 {
          if count == 0 {
            return Panicked;
          }
          rep := lengths[count - 1];
          length :- GetBitsBase(2, 3);
        } else if symbol == 17 {
          length :- GetBitsBase(3, 3);
        } else {
          length :- GetBitsBase(7, 11);
        }
        r := WriteRun(lengths, count, rep, length);
      } else {
        assert false;
      }
    }

    /** Fills `lengths` with the lengths of both codes. The first 19 slots hold the code length code until
        they are overwritten. */
    method ReadLengths(cl: Lengths, lengths: array<nat>, total: nat) returns (r: Outcome<()>)
      requires ReaderValid() && |cl| == CODE_LENGTH_CODES && ValidLengths(cl)
      requires lengths.Length == LENGTH_SLOTS && total <= LENGTH_SLOTS
      modifies this`inputBuf, this`bitIndex, this`unread, lengths
      ensures ReaderValid()
      ensures match TakeLengths(cl, [], total, old(unread))
              case Done(p) => r.Done? && unread == p.rest && lengths[..total] == p.value[..total]
              case Rejected => r.Rejected?
              case Panicked => r.Panicked?
      ensures r.Done? ==> forall k :: 0 <= k < total ==> lengths[k] <= MAX_BITS
    {
      var codes := new Huff();
      assert cl[..CODE_LENGTH_CODES] == cl;
      var built := BuildHuffman(cl, CODE_LENGTH_CODES, codes);
      var count: nat := 0;
      while count < total
        invariant ReaderValid() && codes.Represents(cl) && count <= LENGTH_SLOTS
        invariant forall k :: 0 <= k < count ==> lengths[k] <= MAX_BITS
        invariant TakeLengths(cl, lengths[..count], total, unread) == TakeLengths(cl, [], total, old(unread))
        decreases |unread|
      {
        ghost var before, bits := lengths[..count], unread;
        count :- ReadRun(codes, cl, lengths, count);
        RunKeepsLengthsValid(cl, before, bits);
        assert forall k :: 0 <= k < count ==> lengths[k] == lengths[..count][k];
      }
      assert lengths[..total] == lengths[..count][..total];
      return Done(());
    }

    method ReadLengthLists(lengths: array<nat>, literals: nat, distances: nat, clengths: nat) returns (r: Outcome<()>)
      requires ReaderValid() && lengths.Length == LENGTH_SLOTS
      requires literals <= MAX_SYMBOLS && literals + distances <= LENGTH_SLOTS && distances <= MAX_SYMBOLS
      requires clengths <= CODE_LENGTH_CODES && lengths[..CODE_LENGTH_CODES] == Repeat(0, CODE_LENGTH_CODES)
      modifies this`inputBuf, this`bitIndex, this`unread, lengths
      ensures ReaderValid()
      ensures match ParseLengthLists(literals, distances, clengths, old(unread))
              case Done(Parsed(tables, rest)) =>
                && r.Done? && unread == rest
                && lengths[..literals] == tables.lit && ValidLengths(tables.lit)
                && lengths[literals..][..distances] == tables.dist && ValidLengths(tables.dist)
              case Rejected => r.Rejected?
              case Panicked => r.Panicked?
    {
      var _ :- ReadCodeLengths(lengths, clengths);
      var _ :- ReadLengths(lengths[..CODE_LENGTH_CODES], lengths, literals + distances);
      ghost var all := lengths[..literals + distances];
      assert lengths[..literals] == all[..literals];
      assert lengths[literals..][..distances] == all[literals..];
      return Done(());
    }

    /** Reads the header of a dynamic block: how many lengths each of the two codes has. */
    method ReadTables(lengths: array<nat>) returns (r: Outcome<(nat, nat)>)
      requires ReaderValid() && lengths.Length == LENGTH_SLOTS
      requires lengths[..CODE_LENGTH_CODES] == Repeat(0, CODE_LENGTH_CODES)
      modifies this`inputBuf, this`bitIndex, this`unread, lengths
      ensures ReaderValid()
      ensures match ParseTables(old(unread))
              case Done(Parsed(tables, rest)) =>
                && r == Done((|tables.lit|, |tables.dist|)) && unread == rest
                && |tables.lit| + |tables.dist| <= LENGTH_SLOTS
                && lengths[..|tables.lit|] == tables.lit && ValidLengths(tables.lit)
                && lengths[|tables.lit|..][..|tables.dist|] == tables.dist && ValidLengths(tables.dist)
              case Rejected => r.Rejected?
              case Panicked => r.Panicked?
    {
      var literals :- GetBitsBase(5, 257);
      var distances :- GetBitsBase(5, 1);
      var clengths :- GetBitsBase(4, 4);
      Pow2Table();
      var _ :- ReadLengthLists(lengths, literals, distances, clengths);
      return Done((literals, distances));
    }

    method DecodeHuffman() returns (r: Outcome<()>)
      requires Valid()
      modifies this`inputBuf, this`bitIndex, this`unread, this`outputBuf, ring, ring.data
      ensures Valid() && Produced(ParseBody(2, old(unread)), r, old(outputBuf))
    {
      var lengths := new nat[LENGTH_SLOTS](_ => 0);
      assert lengths[..CODE_LENGTH_CODES] == Repeat(0, CODE_LENGTH_CODES);
      ghost var tables := ParseTables(unread);
      var sizes :- ReadTables(lengths);
      var (literals, distances) := sizes;
      var huffLen := new Huff();
      var built := BuildHuffman(lengths[..], literals, huffLen);
      assert lengths[..][..literals] == lengths[..literals];
      var huffDist := new Huff();
      built := BuildHuffman(lengths[literals..], distances, huffDist);
      r := InflateBlock(huffLen, huffDist, tables.value.value.lit, tables.value.value.dist);
    }

    /** Runs the decoder to the end of the last block. */
    method Decompress() returns (r: Outcome<seq<Byte>>)
      requires Valid()
      modifies this`inputBuf, this`bitIndex, this`unread, this`outputBuf, ring, ring.data
      ensures Valid()
      ensures match ParseBlocks(old(unread))
              case Done(p) => unread == p.rest && r == Done(Expand(old(outputBuf), p.value))
              case Rejected => r.Rejected?
              case Panicked => r.Panicked?
    {
      var lengths := new Huff();
      var dists := new Huff();
      BuildFixed(lengths, dists);
      ghost var done: seq<Token> := [];
      PrependNothing(ParseBlocks(unread));
      while true
        invariant Valid() && outputBuf == Expand(old(outputBuf), done)
        invariant lengths.Represents(FixedLiteralLengths()) && dists.Represents(FixedDistanceLengths())
        invariant ParseBlocks(old(unread)) == Prepend(done, ParseBlocks(unread))
        decreases |unread|
      {
        var isFinal :- GetBit();
        var blockType :- GetBits(2);
        ghost var body := ParseBody(blockType, unread);
        if blockType == 0 {
          var _ :- Uncompressed();
        } else if blockType == 1 {
          var _ :- InflateBlock(lengths, dists, FixedLiteralLengths(), FixedDistanceLengths());
        } else if blockType == 2 {
          var _ :- DecodeHuffman();
        } else {
          return Rejected;
        }
        ExpandAppend(old(outputBuf), done, body.value.value);
        PrependPrepend(done, body.value.value, ParseBlocks(unread));
        done := done + body.value.value;
        if isFinal {
          break;
        }
      }
      return Done(outputBuf);
    }
  }

  lemma WrapKeepsRemainder(x: int)
    requires -0x1_0000_0000_0000_0000 < x <= 32768
    ensures x % 0x1_0000_0000_0000_0000 % 32768 == x % 32768
  {
    if x >= 0 {
      assert x % 0x1_0000_0000_0000_0000 == x;
    } else {
      assert x % 0x1_0000_0000_0000_0000 == x + 0x1_0000_0000_0000_0000;
    }
  }

  /** How far back the slot lies that a wrapped index names. */
  lemma RingAge(pointer: nat, offset: nat)
    requires pointer <= 32768 && offset < 0x1_0000_0000_0000_0000
    ensures var index := (pointer - offset) % 0x1_0000_0000_0000_0000 % 32768;
      0 <= index < 32768
      && (if index < pointer then pointer - index else pointer - index + 32768) == (offset + 32767) % 32768 + 1
  {
    WrapKeepsRemainder(pointer - offset);
    var index := (pointer - offset) % 32768;
    var age := if index < pointer then pointer - index else pointer - index + 32768;
    assert (age - offset) % 32768 == 0 && 1 <= age <= 32768;
  }

  /** The run-length code only produces lengths a code may have. */
  lemma RunKeepsLengthsValid(codes: Lengths, lengths: Lengths, bits: Bits)
    requires |lengths| < LENGTH_SLOTS && TakeRun(codes, lengths, bits).Done?
    requires forall k :: 0 <= k < |lengths| ==> lengths[k] <= MAX_BITS
    ensures var r := TakeRun(codes, lengths, bits).value.value;
      forall k :: 0 <= k < |r| ==> r[k] <= MAX_BITS
  {
  }

  lemma PrependNothing(r: Outcome<Parsed<seq<Token>>>)
    ensures Prepend([], r) == r
  {
    if r.Done? {
      assert [] + r.value.value == r.value.value;
    }
  }

  lemma PrependPrepend(a: seq<Token>, b: seq<Token>, r: Outcome<Parsed<seq<Token>>>)
    ensures Prepend(a, Prepend(b, r)) == Prepend(a + b, r)
  {
    if r.Done? {
      assert a + (b + r.value.value) == (a + b) + r.value.value;
    }
  }
}
