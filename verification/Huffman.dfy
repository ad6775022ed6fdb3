/** Canonical Huffman codes given by a code length for each symbol (RFC 1951, section 3.2.2), and the
    count-based decoder as a function. Nothing here assumes the lengths come from a real code. */
module Huffman {
  import opened Outcomes
  import opened Arithmetic
  import opened BitStreams

  const MAX_BITS := 15
  const MAX_SYMBOLS := 288

  /** The code length of each symbol; 0 means that the symbol is not used. */
  type Lengths = seq<nat>

  predicate ValidLengths(ls: Lengths) {
    |ls| <= MAX_SYMBOLS && forall s :: 0 <= s < |ls| ==> ls[s] <= MAX_BITS
  }

  /** The fixed literal/length code (RFC 1951, section 3.2.6). */
  function FixedLiteralLengths(): Lengths {
    seq(288, i => if i < 144 then 8 else if i < 256 then 9 else if i < 280 then 7 else 8)
  }

  function FixedDistanceLengths(): Lengths {
    seq(30, i => 5)
  }

  /** The symbols of code length `l`, in increasing order. */
  function Positions(ls: Lengths, l: nat): (ps: seq<nat>)
    ensures |ps| <= |ls|
  {
    if ls == [] then []
    else
      var n := |ls| - 1;
      if ls[n] == l then Positions(ls[..n], l) + [n] else Positions(ls[..n], l)
  }

  function Count(ls: Lengths, l: nat): nat {
    |Positions(ls, l)|
  }

  /** Number of used symbols whose codes are shorter than `l`. */
  function Offset(ls: Lengths, l: nat): nat {
    if l <= 1 then 0 else Offset(ls, l - 1) + Count(ls, l - 1)
  }

  /** The smallest code of length `l`, as the algorithm of section 3.2.2 computes it. */
  function FirstCode(ls: Lengths, l: nat): nat {
    if l <= 1 then 0 else 2 * (FirstCode(ls, l - 1) + Count(ls, l - 1))
  }

  /** One past the largest code of length `l`; 0 at length 0. */
  function EndCode(ls: Lengths, l: nat): nat {
    if l == 0 then 0 else FirstCode(ls, l) + Count(ls, l)
  }

  predicate Used(ls: Lengths, s: nat) {
    s < |ls| && 0 < ls[s] <= MAX_BITS
  }

  /** How many smaller symbols share the code length of `s`. */
  function Rank(ls: Lengths, s: nat): nat
    requires s < |ls|
  {
    Count(ls[..s], ls[s])
  }

  function Code(ls: Lengths, s: nat): nat
    requires s < |ls|
  {
    FirstCode(ls, ls[s]) + Rank(ls, s)
  }

  /** The code of `s` can be written in the number of bits its length allows. */
  predicate HasCode(ls: Lengths, s: nat) {
    Used(ls, s) && Code(ls, s) < Pow2(ls[s])
  }

  /** The `n` low bits of `v`, most significant first: the order of Huffman codes in the stream. */
  function HighFirst(v: nat, n: nat): (bits: Bits)
    ensures |bits| == n
  {
    if n == 0 then [] else HighFirst(v / 2, n - 1) + [v % 2 == 1]
  }

  /** The number got by reading `bits`, most significant bit first, after the digits of `v`. */
  function Extend(v: nat, bits: Bits): nat
    decreases bits
  {
    if bits == [] then v else Extend(2 * v + BitValue(bits[0]), bits[1..])
  }

  function CodeBits(ls: Lengths, s: nat): Bits
    requires s < |ls|
  {
    HighFirst(Code(ls, s), ls[s])
  }

  /** The decoder's loop entered with its variables `i` and `offs`. */
  function DecodeFrom(ls: Lengths, i: nat, offs: nat, bits: Bits): (r: Outcome<Parsed<nat>>)
    requires i >= 1
    ensures r.Done? ==> |r.value.rest| < |bits|
    decreases |bits|
  {
    if bits == [] || i > MAX_BITS then Panicked
    else
      var v := 2 * offs + BitValue(bits[0]);
      if v < Count(ls, i) then Done(Parsed(Positions(ls, i)[v], bits[1..]))
      else DecodeFrom(ls, i + 1, v - Count(ls, i), bits[1..])
  }

  function Decode(ls: Lengths, bits: Bits): (r: Outcome<Parsed<nat>>)
    ensures r.Done? ==> |r.value.rest| < |bits|
  {
    DecodeFrom(ls, 1, 0, bits)
  }

  // ---------- symbols of one length ----------

  lemma {:induction false} PositionsSound(ls: Lengths, l: nat, k: nat)
    requires k < Count(ls, l)
    ensures Positions(ls, l)[k] < |ls| && ls[Positions(ls, l)[k]] == l
    ensures Rank(ls, Positions(ls, l)[k]) == k
  {
    var n := |ls| - 1;
    if ls[n] == l && k == Count(ls, l) - 1 {
    } else {
      PositionsSound(ls[..n], l, k);
      var p := Positions(ls[..n], l)[k];
      assert ls[..n][..p] == ls[..p];
    }
  }

  lemma {:induction false} PositionsComplete(ls: Lengths, s: nat)
    requires s < |ls|
    ensures Rank(ls, s) < Count(ls, ls[s])
    ensures Positions(ls, ls[s])[Rank(ls, s)] == s
  {
    var n := |ls| - 1;
    if s < n {
      PositionsComplete(ls[..n], s);
      assert ls[..n][..s] == ls[..s];
    }
  }

  lemma {:induction false} PositionsSnoc(ls: Lengths, i: nat, l: nat)
    requires i < |ls|
    ensures Positions(ls[..i + 1], l) == if ls[i] == l then Positions(ls[..i], l) + [i] else Positions(ls[..i], l)
  {
    assert ls[..i + 1][..i] == ls[..i];
  }

  lemma {:induction false} CountPrefix(ls: Lengths, i: nat, l: nat)
    requires i <= |ls|
    ensures Count(ls[..i], l) <= Count(ls, l)
    ensures i < |ls| && ls[i] == l ==> Count(ls[..i], l) < Count(ls, l)
    decreases |ls|
  {
    if i < |ls| {
      var n := |ls| - 1;
      CountPrefix(ls[..n], i, l);
      assert ls[..n][..i] == ls[..i];
    } else {
      assert ls[..i] == ls;
    }
  }

  lemma {:induction false} OffsetEmpty(l: nat)
    ensures Offset([], l) == 0
  {
    if l > 1 {
      OffsetEmpty(l - 1);
    }
  }

  lemma {:induction false} OffsetSnoc(ls: Lengths, l: nat)
    requires ls != []
    ensures var n := |ls| - 1;
      Offset(ls, l) == Offset(ls[..n], l) + if 1 <= ls[n] < l then 1 else 0
  {
    if l > 1 {
      OffsetSnoc(ls, l - 1);
    }
  }

  /** The used symbols fit into a table with one slot for each symbol. */
  lemma {:induction false} OffsetBound(ls: Lengths, l: nat)
    ensures Offset(ls, l) <= |ls|
  {
    if ls == [] {
      OffsetEmpty(l);
    } else {
      OffsetSnoc(ls, l);
      OffsetBound(ls[..|ls| - 1], l);
    }
  }

  lemma {:induction false} OffsetMonotone(ls: Lengths, l: nat, m: nat)
    requires 1 <= l < m
    ensures Offset(ls, l) + Count(ls, l) <= Offset(ls, m)
  {
    if l < m - 1 {
      OffsetMonotone(ls, l, m - 1);
    }
  }

  // ---------- most significant bit first ----------

  lemma {:induction false} ExtendSnoc(v: nat, bits: Bits, bit: bool)
    ensures Extend(v, bits + [bit]) == 2 * Extend(v, bits) + BitValue(bit)
    decreases bits
  {
    if bits == [] {
      assert (bits + [bit])[1..] == [];
    } else {
      ExtendSnoc(2 * v + BitValue(bits[0]), bits[1..], bit);
      assert (bits + [bit])[1..] == bits[1..] + [bit];
    }
  }

  lemma {:induction false} ExtendHighFirst(v: nat, n: nat)
    requires v < Pow2(n)
    ensures Extend(0, HighFirst(v, n)) == v
  {
    if n > 0 {
      ExtendHighFirst(v / 2, n - 1);
      ExtendSnoc(0, HighFirst(v / 2, n - 1), v % 2 == 1);
    }
  }

  lemma {:induction false} HighFirstExtend(bits: Bits)
    ensures Extend(0, bits) < Pow2(|bits|)
    ensures HighFirst(Extend(0, bits), |bits|) == bits
  {
    if bits != [] {
      var n := |bits| - 1;
      HighFirstExtend(bits[..n]);
      ExtendSnoc(0, bits[..n], bits[n]);
      assert bits[..n] + [bits[n]] == bits;
    }
  }

  // ---------- the decoder against the canonical code ----------

  /** `e` with `n` zero bits after it. */
  function Shifted(e: nat, n: nat): nat
    decreases n
  {
    if n == 0 then e else Shifted(2 * e, n - 1)
  }

  lemma {:induction false} ShiftedMonotone(d: nat, e: nat, n: nat)
    requires d <= e
    ensures Shifted(d, n) <= Shifted(e, n)
    decreases n
  {
    if n > 0 {
      ShiftedMonotone(2 * d, 2 * e, n - 1);
    }
  }

  lemma {:induction false} ExtendBelowShifted(v: nat, e: nat, bits: Bits)
    requires v < e
    ensures Extend(v, bits) < Shifted(e, |bits|)
    decreases bits
  {
    if bits != [] {
      ExtendBelowShifted(2 * v + BitValue(bits[0]), 2 * e, bits[1..]);
    }
  }

  /** Codes of length `m` come after every shorter code, extended to `m` bits. */
  lemma {:induction false} CodesAscend(ls: Lengths, i: nat, m: nat)
    requires 1 <= i < m
    ensures FirstCode(ls, m) >= Shifted(EndCode(ls, i), m - i)
    decreases m - i
  {
    assert FirstCode(ls, i + 1) == 2 * EndCode(ls, i);
    assert Shifted(EndCode(ls, i), m - i) == Shifted(FirstCode(ls, i + 1), m - i - 1);
    if i + 1 < m {
      ShiftedMonotone(FirstCode(ls, i + 1), EndCode(ls, i + 1), m - i - 1);
      CodesAscend(ls, i + 1, m);
    }
  }

  /** Before level `i` the loop has read a prefix of `code`; the bits `w` are still to come. */
  ghost predicate OnTheWayTo(ls: Lengths, i: nat, offs: nat, w: Bits, code: nat)
    requires i >= 1
  {
    Extend(offs + EndCode(ls, i - 1), w) == code
  }

  lemma OneBitOn(ls: Lengths, i: nat, offs: nat, w: Bits, code: nat)
    requires i >= 1 && w != []
    ensures OnTheWayTo(ls, i, offs, w, code) <==>
            Extend(2 * offs + BitValue(w[0]) + FirstCode(ls, i), w[1..]) == code
  {
    assert FirstCode(ls, i) == 2 * EndCode(ls, i - 1);
  }

  /** A longer code is not mistaken for a code of length `i`. */
  lemma NotFoundYet(ls: Lengths, s: nat, i: nat, offs: nat, w: Bits)
    requires Used(ls, s) && 1 <= i < ls[s] && |w| == ls[s] - i + 1
    requires OnTheWayTo(ls, i, offs, w, Code(ls, s))
    ensures var v := 2 * offs + BitValue(w[0]);
      v >= Count(ls, i) && OnTheWayTo(ls, i + 1, v - Count(ls, i), w[1..], Code(ls, s))
  {
    OneBitOn(ls, i, offs, w, Code(ls, s));
    var v := 2 * offs + BitValue(w[0]);
    CodesAscend(ls, i, ls[s]);
    if v + FirstCode(ls, i) < EndCode(ls, i) {
      ExtendBelowShifted(v + FirstCode(ls, i), EndCode(ls, i), w[1..]);
      assert false;
    }
    assert v - Count(ls, i) + EndCode(ls, i) == v + FirstCode(ls, i);
  }

  lemma FoundNow(ls: Lengths, s: nat, i: nat, offs: nat, w: Bits)
    requires Used(ls, s) && i == ls[s] && |w| == 1
    requires OnTheWayTo(ls, i, offs, w, Code(ls, s))
    ensures var v := 2 * offs + BitValue(w[0]);
      v < Count(ls, i) && Positions(ls, i)[v] == s
  {
    OneBitOn(ls, i, offs, w, Code(ls, s));
    assert Extend(2 * offs + BitValue(w[0]) + FirstCode(ls, i), w[1..]) == 2 * offs + BitValue(w[0]) + FirstCode(ls, i);
    PositionsComplete(ls, s);
  }

  lemma {:induction false} DecodeFromFinds(ls: Lengths, s: nat, i: nat, offs: nat, w: Bits, rest: Bits)
    requires Used(ls, s) && 1 <= i <= ls[s] && |w| == ls[s] - i + 1
    requires OnTheWayTo(ls, i, offs, w, Code(ls, s))
    ensures DecodeFrom(ls, i, offs, w + rest) == Done(Parsed(s, rest))
    decreases 16 - i
  {
    var bits, v := w + rest, 2 * offs + BitValue(w[0]);
    assert bits[0] == w[0] && bits[1..] == w[1..] + rest;
    if i < ls[s] {
      NotFoundYet(ls, s, i, offs, w);
      DecodeFromFinds(ls, s, i + 1, v - Count(ls, i), w[1..], rest);
      assert DecodeFrom(ls, i, offs, bits) == DecodeFrom(ls, i + 1, v - Count(ls, i), bits[1..]);
    } else {
      FoundNow(ls, s, i, offs, w);
      assert bits[1..] == rest;
      assert DecodeFrom(ls, i, offs, bits) == Done(Parsed(Positions(ls, i)[v], bits[1..]));
    }
  }

  /** What the loop returns names the bits it consumed. */
  lemma {:induction false} DecodeFromSound(ls: Lengths, i: nat, offs: nat, bits: Bits)
      returns (s: nat, w: Bits, rest: Bits)
    requires i >= 1 && DecodeFrom(ls, i, offs, bits).Done?
    ensures DecodeFrom(ls, i, offs, bits) == Done(Parsed(s, rest))
    ensures Used(ls, s) && i <= ls[s] && |w| == ls[s] - i + 1
    ensures bits == w + rest && OnTheWayTo(ls, i, offs, w, Code(ls, s))
    decreases 16 - i
  {
    var v := 2 * offs + BitValue(bits[0]);
    if v < Count(ls, i) {
      PositionsSound(ls, i, v);
      s, w, rest := Positions(ls, i)[v], bits[..1], bits[1..];
    } else {
      s, w, rest := DecodeFromSound(ls, i + 1, v - Count(ls, i), bits[1..]);
      assert v - Count(ls, i) + EndCode(ls, i) == v + FirstCode(ls, i);
      w := [bits[0]] + w;
    }
    OneBitOn(ls, i, offs, w, Code(ls, s));
  }

  lemma DecodedIsCode(ls: Lengths, bits: Bits)
    requires Decode(ls, bits).Done?
    ensures var Parsed(s, rest) := Decode(ls, bits).value; HasCode(ls, s) && bits == CodeBits(ls, s) + rest
  {
    var s, w, rest := DecodeFromSound(ls, 1, 0, bits);
    HighFirstExtend(w);
  }

  /** For every length table, sensible or not, the decoder returns symbol `s` exactly on the canonical
      code of `s`, and only if that code fits into its length. */
  lemma DecodeIffCode(ls: Lengths, s: nat, bits: Bits, rest: Bits)
    ensures Decode(ls, bits) == Done(Parsed(s, rest)) <==> HasCode(ls, s) && bits == CodeBits(ls, s) + rest
  {
    if Decode(ls, bits) == Done(Parsed(s, rest)) {
      DecodedIsCode(ls, bits);
    }
    if HasCode(ls, s) && bits == CodeBits(ls, s) + rest {
      ExtendHighFirst(Code(ls, s), ls[s]);
      DecodeFromFinds(ls, s, 1, 0, CodeBits(ls, s), rest);
    }
  }

  /** No code is a prefix of another: a stream cannot start with the codes of two symbols. */
  lemma PrefixFree(ls: Lengths, s: nat, t: nat, tail: Bits, tail': Bits)
    requires HasCode(ls, s) && HasCode(ls, t)
    requires CodeBits(ls, s) + tail == CodeBits(ls, t) + tail'
    ensures s == t && tail == tail'
  {
    DecodeIffCode(ls, s, CodeBits(ls, s) + tail, tail);
    DecodeIffCode(ls, t, CodeBits(ls, s) + tail, tail');
  }

  // ---------- over-subscription ----------

  /** The share of all 15-bit strings that codes of length `l` take. */
  function Share(l: nat): nat {
    if 1 <= l <= MAX_BITS then Pow2(MAX_BITS - l) else 0
  }

  function KraftSum(ls: Lengths): nat {
    if ls == [] then 0 else KraftSum(ls[..|ls| - 1]) + Share(ls[|ls| - 1])
  }

  /** The code lengths do not ask for more codes than there are bit strings. */
  predicate NotOverSubscribed(ls: Lengths) {
    KraftSum(ls) <= Pow2(MAX_BITS)
  }

  lemma {:induction false} EndCodeSnoc(ls: Lengths, l: nat)
    requires ls != []
    ensures var x := ls[|ls| - 1];
      EndCode(ls, l) == EndCode(ls[..|ls| - 1], l) + if 1 <= x <= l then Pow2(l - x) else 0
  {
    if l > 0 {
      EndCodeSnoc(ls, l - 1);
      assert FirstCode(ls, l) == 2 * EndCode(ls, l - 1);
      assert FirstCode(ls[..|ls| - 1], l) == 2 * EndCode(ls[..|ls| - 1], l - 1);
    }
  }

  lemma {:induction false} EndCodeEmpty(l: nat)
    ensures EndCode([], l) == 0
  {
    if l > 0 {
      EndCodeEmpty(l - 1);
      assert FirstCode([], l) == 2 * EndCode([], l - 1);
    }
  }

  lemma {:induction false} KraftSumIsEndCode(ls: Lengths)
    ensures KraftSum(ls) == EndCode(ls, MAX_BITS)
  {
    if ls == [] {
      EndCodeEmpty(MAX_BITS);
    } else {
      KraftSumIsEndCode(ls[..|ls| - 1]);
      EndCodeSnoc(ls, MAX_BITS);
    }
  }

  /** Codes that fit at one length fit at every smaller length. */
  lemma {:induction false} EndCodeFitsBelow(ls: Lengths, l: nat, m: nat)
    requires l <= m && EndCode(ls, m) <= Pow2(m)
    ensures EndCode(ls, l) <= Pow2(l)
    decreases m
  {
    if l < m {
      assert FirstCode(ls, m) == 2 * EndCode(ls, m - 1);
      EndCodeFitsBelow(ls, l, m - 1);
    }
  }

  /** The longest length that has codes. */
  lemma {:induction false} OverSubscribedLevel(ls: Lengths, m: nat) returns (l: nat)
    requires EndCode(ls, m) > Pow2(m)
    ensures 1 <= l <= m && EndCode(ls, l) > Pow2(l) && Count(ls, l) > 0
  {
    assert FirstCode(ls, m) == 2 * EndCode(ls, m - 1);
    if Count(ls, m) > 0 {
      l := m;
    } else {
      l := OverSubscribedLevel(ls, m - 1);
    }
  }

  /** Every used symbol can be returned by the decoder exactly when the Kraft sum of the lengths does
      not exceed one. */
  lemma KraftIffEverySymbolDecodes(ls: Lengths)
    ensures NotOverSubscribed(ls) <==> forall s: nat :: Used(ls, s) ==> HasCode(ls, s)
  {
    KraftSumIsEndCode(ls);
    if NotOverSubscribed(ls) {
      forall s: nat | Used(ls, s) ensures HasCode(ls, s) {
        EndCodeFitsBelow(ls, ls[s], MAX_BITS);
        PositionsComplete(ls, s);
      }
    } else {
      var l := OverSubscribedLevel(ls, MAX_BITS);
      var k := Count(ls, l) - 1;
      PositionsSound(ls, l, k);
      var s := Positions(ls, l)[k];
      assert Used(ls, s) && !HasCode(ls, s);
    }
  }

  /** Decoding the canonical code of a used symbol of a table that is not over-subscribed. */
  lemma DecodeCode(ls: Lengths, s: nat, rest: Bits)
    requires NotOverSubscribed(ls) && Used(ls, s)
    ensures Decode(ls, CodeBits(ls, s) + rest) == Done(Parsed(s, rest))
  {
    KraftIffEverySymbolDecodes(ls);
    DecodeIffCode(ls, s, CodeBits(ls, s) + rest, rest);
  }

  lemma {:induction false} KraftSumAppend(a: Lengths, b: Lengths)
    ensures KraftSum(a + b) == KraftSum(a) + KraftSum(b)
  {
    if b == [] {
      assert a + b == a;
    } else {
      var n := |b| - 1;
      KraftSumAppend(a, b[..n]);
      assert (a + b)[..|a + b| - 1] == a + b[..n];
    }
  }

  // ---------- what the numbers mean ----------

  /** Codes have at most fifteen bits, and a code at most 288 symbols. */
  lemma CodeLimits(ls: Lengths, s: nat)
    ensures Used(ls, s) <==> s < |ls| && 1 <= ls[s] <= 15
    ensures ValidLengths(ls) <==> |ls| <= 288 && forall t :: 0 <= t < |ls| ==> ls[t] <= 15
  {
  }

  /** Bit `i` of a code, as it comes in the stream, is its `i`-th bit from the top. */
  lemma {:induction false} HighFirstIndex(v: nat, n: nat, i: nat)
    requires i < n
    ensures HighFirst(v, n)[i] <==> v / Pow2(n - 1 - i) % 2 == 1
    decreases n
  {
    if i < n - 1 {
      HighFirstIndex(v / 2, n - 1, i);
      HalveFirst(v, Pow2(n - 2 - i));
    }
  }

  lemma {:induction false} ShiftedIsProduct(e: nat, n: nat)
    ensures Shifted(e, n) == e * Pow2(n)
    decreases n
  {
    if n > 0 {
      ShiftedIsProduct(2 * e, n - 1);
      TwiceProduct(e, Pow2(n - 1));
    }
  }

  lemma TwiceProduct(e: nat, p: nat)
    ensures 2 * e * p == e * (2 * p)
  {
  }

  lemma {:induction false} RankStep(ls: Lengths, s: nat, t: nat)
    requires s < t < |ls| && ls[s] == ls[t] && forall i :: s < i < t ==> ls[i] != ls[s]
    ensures Rank(ls, t) == Rank(ls, s) + 1
  {
    var l := ls[s];
    CountUpTo(ls, s, t, l);
  }

  lemma {:induction false} CountUpTo(ls: Lengths, s: nat, t: nat, l: nat)
    requires s < t <= |ls| && ls[s] == l && forall i :: s < i < t ==> ls[i] != l
    ensures Count(ls[..t], l) == Count(ls[..s], l) + 1
    decreases t
  {
    PositionsSnoc(ls, t - 1, l);
    if s < t - 1 {
      CountUpTo(ls, s, t - 1, l);
    }
  }

  /** The two rules of section 3.2.2, and where the codes start: symbols of one length have consecutive codes in
      symbol order, a shorter code comes before every longer one, and the first code of the shortest length is zero. */
  lemma CanonicalRules(ls: Lengths, s: nat, t: nat)
    requires Used(ls, s) && Used(ls, t)
    ensures ls[s] == ls[t] && s < t && (forall i :: s < i < t ==> ls[i] != ls[s]) ==> Code(ls, t) == Code(ls, s) + 1
    ensures ls[s] < ls[t] ==> (Code(ls, s) + 1) * Pow2(ls[t] - ls[s]) <= Code(ls, t)
    ensures (forall i :: 0 <= i < |ls| && ls[i] != 0 ==> ls[s] < ls[i] || (ls[s] == ls[i] && s <= i)) ==>
            Code(ls, s) == 0
  {
    if ls[s] == ls[t] && s < t && forall i :: s < i < t ==> ls[i] != ls[s] {
      RankStep(ls, s, t);
    }
    if ls[s] < ls[t] {
      CodesAscend(ls, ls[s], ls[t]);
      PositionsComplete(ls, s);
      ShiftedMonotone(Code(ls, s) + 1, EndCode(ls, ls[s]), ls[t] - ls[s]);
      ShiftedIsProduct(Code(ls, s) + 1, ls[t] - ls[s]);
    }
    if forall i :: 0 <= i < |ls| && ls[i] != 0 ==> ls[s] < ls[i] || (ls[s] == ls[i] && s <= i) {
      NoneShorter(ls, ls[s]);
      if Rank(ls, s) > 0 {
        PositionsSound(ls[..s], ls[s], 0);
        assert false;
      }
    }
  }

  lemma {:induction false} NoneShorter(ls: Lengths, l: nat)
    requires l >= 1 && forall i :: 0 <= i < |ls| && ls[i] != 0 ==> l <= ls[i]
    ensures FirstCode(ls, l) == 0
  {
    if l > 1 {
      if Count(ls, l - 1) > 0 {
        PositionsSound(ls, l - 1, 0);
        assert false;
      }
      NoneShorter(ls, l - 1);
    }
  }
}
