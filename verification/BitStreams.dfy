/** Bytes read as a stream of bits, least significant bit first (RFC 1951, section 3.1.1). */
module BitStreams {
  import opened Outcomes
  import opened Arithmetic

  type Byte = x: int | 0 <= x < 256

  type Bits = seq<bool>

  /** A value read from a stream, and the bits that follow it. */
  datatype Parsed<+T> = Parsed(value: T, rest: Bits)

  function Pow2(n: nat): (p: nat)
    ensures p > 0
  {
    if n == 0 then 1 else 2 * Pow2(n - 1)
  }

  function BitValue(bit: bool): nat {
    if bit then 1 else 0
  }

  /** The test `v & (1 << i) != 0`. */
  predicate BitSet(v: nat, i: nat) {
    if i == 0 then v % 2 == 1 else BitSet(v / 2, i - 1)
  }

  /** The number whose bits, least significant first, are `bits`. */
  function Value(bits: Bits): (v: nat)
    ensures v < Pow2(|bits|)
  {
    if bits == [] then 0 else BitValue(bits[0]) + 2 * Value(bits[1..])
  }

  /** The `n` low bits of `v`, least significant first. */
  function LowBits(v: nat, n: nat): (bits: Bits)
    ensures |bits| == n
  {
    if n == 0 then [] else [v % 2 == 1] + LowBits(v / 2, n - 1)
  }

  /** The bits of a byte, least significant first. */
  function ByteBits(b: Byte): Bits {
    seq(8, i requires 0 <= i < 8 => BitSet(b, i))
  }

  function Unpack(bytes: seq<Byte>): (bits: Bits)
    ensures |bits| == 8 * |bytes|
  {
    if bytes == [] then [] else ByteBits(bytes[0]) + Unpack(bytes[1..])
  }

  /** The bits left to read when the first `bitIndex` bits of the first byte are already used. */
  function UnreadBits(buf: seq<Byte>, bitIndex: nat): Bits
    requires bitIndex <= 8
  {
    if buf == [] then [] else ByteBits(buf[0])[bitIndex..] + Unpack(buf[1..])
  }

  /** Fills whole bytes from the low bit up, and the last byte with zero bits. */
  function Pack(bits: Bits): seq<Byte> {
    if |bits| == 0 then []
    else if |bits| <= 8 then
      ValueFitsByte(bits);
      [Value(bits)]
    else
      ValueFitsByte(bits[..8]);
      [Value(bits[..8])] + Pack(bits[8..])
  }

  function TakeBit(bits: Bits): Outcome<Parsed<bool>> {
    if bits == [] then Panicked else Done(Parsed(bits[0], bits[1..]))
  }

  /** Reads an `n`-bit number into a 32-bit word; a longer one overflows the shift. */
  function TakeNumber(bits: Bits, n: nat): Outcome<Parsed<nat>> {
    if |bits| < n || n > 32 then Panicked else Done(Parsed(Value(bits[..n]), bits[n..]))
  }

  function TakeByte(bits: Bits): (r: Outcome<Parsed<Byte>>)
    ensures r.Done? ==> |r.value.rest| + 8 == |bits|
  {
    var Parsed(v, rest) :- TakeNumber(bits, 8);
    ValueFitsByte(bits[..8]);
    Done(Parsed(v, rest))
  }

  /** A table entry plus the extra bits it asks for. */
  function TakeBase(bits: Bits, n: nat, base: nat): Outcome<Parsed<nat>> {
    var Parsed(extra, rest) :- TakeNumber(bits, n);
    Done(Parsed(base + extra, rest))
  }

  /** A method that read from a stream ended as its specification `parse` says. */
  predicate Agrees<T(==)>(parse: Outcome<Parsed<T>>, r: Outcome<T>, unread: Bits) {
    match parse
    case Done(p) => r == Done(p.value) && unread == p.rest
    case Rejected => r.Rejected?
    case Panicked => r.Panicked?
  }

  lemma Reassociate(a: Bits, b: Bits, c: Bits)
    ensures (a + b) + c == a + (b + c)
  {
  }

  lemma Regroup(a: Bits, b: Bits, c: Bits, d: Bits)
    ensures (a + (b + c)) + d == a + (b + (c + d))
  {
  }

  lemma ValueFitsByte(bits: Bits)
    requires |bits| <= 8
    ensures Value(bits) < 256
  {
    Pow2Monotone(|bits|, 8);
    assert Pow2(8) == 256;
  }

  lemma {:induction false} Pow2Monotone(m: nat, n: nat)
    requires m <= n
    ensures Pow2(m) <= Pow2(n)
  {
    if m < n {
      Pow2Monotone(m, n - 1);
    }
  }

  lemma {:induction false} LowBitsIndex(v: nat, n: nat, i: nat)
    requires i < n
    ensures LowBits(v, n)[i] == BitSet(v, i)
  {
    if i > 0 {
      LowBitsIndex(v / 2, n - 1, i - 1);
    }
  }

  lemma ByteBitsAreLowBits(b: Byte)
    ensures ByteBits(b) == LowBits(b, 8)
  {
    forall i | 0 <= i < 8 ensures ByteBits(b)[i] == LowBits(b, 8)[i] {
      LowBitsIndex(b, 8, i);
    }
  }

  lemma {:induction false} ValueAppend(bits: Bits, bit: bool)
    ensures Value(bits + [bit]) == Value(bits) + BitValue(bit) * Pow2(|bits|)
  {
    if bits == [] {
    } else {
      ValueAppend(bits[1..], bit);
      assert (bits + [bit])[1..] == bits[1..] + [bit];
    }
  }

  /** Writing a number in `n` bits and reading it back gives the number. */
  lemma {:induction false} ValueOfLowBits(v: nat, n: nat)
    requires v < Pow2(n)
    ensures Value(LowBits(v, n)) == v
  {
    if n > 0 {
      ValueOfLowBits(v / 2, n - 1);
      assert LowBits(v, n)[1..] == LowBits(v / 2, n - 1);
    }
  }

  lemma {:induction false} LowBitsOfValue(bits: Bits, n: nat)
    requires |bits| <= n
    ensures LowBits(Value(bits), n) == bits + LowBits(0, n - |bits|)
  {
    if bits == [] {
      assert bits + LowBits(0, n) == LowBits(0, n);
    } else {
      LowBitsOfValue(bits[1..], n - 1);
      assert Value(bits) / 2 == Value(bits[1..]);
      assert [bits[0]] + (bits[1..] + LowBits(0, n - |bits|)) == bits + LowBits(0, n - |bits|);
    }
  }

  /** Reading a number that was written in `n` bits gives it back and leaves what follows. */
  lemma TakeWrittenNumber(v: nat, n: nat, rest: Bits)
    requires v < Pow2(n) && n <= 32
    ensures TakeNumber(LowBits(v, n) + rest, n) == Done(Parsed(v, rest))
  {
    ValueOfLowBits(v, n);
    assert (LowBits(v, n) + rest)[..n] == LowBits(v, n);
    assert (LowBits(v, n) + rest)[n..] == rest;
  }

  /** Packing into bytes loses no bit: reading the bytes back gives the bits and then fewer than
      eight zero bits of padding. */
  lemma {:induction false} UnpackPack(bits: Bits) returns (padding: nat)
    ensures padding < 8
    ensures Unpack(Pack(bits)) == bits + LowBits(0, padding)
  {
    if |bits| == 0 {
      padding := 0;
    } else if |bits| <= 8 {
      padding := 8 - |bits|;
      ValueFitsByte(bits);
      LowBitsOfValue(bits, 8);
      ByteBitsAreLowBits(Value(bits));
      var b := Pack(bits);
      assert b[1..] == [];
    } else {
      padding := UnpackPack(bits[8..]);
      ValueFitsByte(bits[..8]);
      LowBitsOfValue(bits[..8], 8);
      ByteBitsAreLowBits(Value(bits[..8]));
      var b := Pack(bits);
      assert b[1..] == Pack(bits[8..]);
      assert bits == bits[..8] + bits[8..];
    }
  }

  lemma {:induction false} BitOfByte(v: nat, i: nat)
    ensures BitSet(v, i) <==> v / Pow2(i) % 2 == 1
  {
    if i > 0 {
      BitOfByte(v / 2, i - 1);
      HalveFirst(v, Pow2(i - 1));
    }
  }

  /** Bit `k` of the stream is bit `k % 8`, counted from the low end, of byte `k / 8`. */
  lemma {:induction false} UnpackIndex(bytes: seq<Byte>, k: nat)
    requires k < 8 * |bytes|
    ensures Unpack(bytes)[k] <==> bytes[k / 8] / Pow2(k % 8) % 2 == 1
    decreases |bytes|
  {
    if k < 8 {
      BitOfByte(bytes[0], k);
    } else {
      Divided(k, 8);
      DivideSum(k / 8 - 1, 8, k % 8, k - 8);
      UnpackIndex(bytes[1..], k - 8);
    }
  }

  /** Reading on behind the end panics; an error is never reported for it. */
  lemma NothingLeft(bits: Bits, n: nat)
    requires |bits| < n
    ensures TakeNumber(bits, n) == Panicked && TakeBit([]) == Panicked
  {
  }
}
