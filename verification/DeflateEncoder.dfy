/** A DEFLATE encoder as RFC 1951 describes the format, and the proof that the decoder inverts it for every
    choice an encoder may make: block types, length tables, run-length coding of the tables, tokens. */
module DeflateEncoder {
  import opened Outcomes
  import opened BitStreams
  import opened Huffman
  import opened Lz77
  import opened DeflateFormat

  /** One step of the run-length coding of a length list (section 3.2.7). */
  datatype Run = OneLength(length: nat) | CopyPrevious(n: nat) | ZerosShort(n: nat) | ZerosLong(n: nat)

  // ---------- tokens ----------

  /** The last entry up to `k` whose base is not above `n`. */
  function FindBase(bases: seq<nat>, n: nat, k: nat): (i: nat)
    requires k < |bases| && bases[0] <= n
    ensures i <= k && bases[i] <= n && (i < k ==> n < bases[i + 1])
    decreases k
  {
    if bases[k] <= n then k else FindBase(bases, n, k - 1)
  }

  function LengthSymbol(length: nat): nat
    requires 3 <= length
  {
    FindBase(LENGTH_BASE, length, |LENGTH_BASE| - 2)
  }

  function DistanceSymbol(distance: nat): nat
    requires 1 <= distance
  {
    FindBase(DIST_BASE, distance, |DIST_BASE| - 1)
  }

  /** The tables have a code for everything the token needs. */
  predicate Encodable(tables: Tables, token: Token) {
    match token
    case Literal(b) => HasCode(tables.lit, b)
    case Match(length, distance) =>
      && 3 <= length <= MAX_MATCH && 1 <= distance <= WINDOW
      && HasCode(tables.lit, 257 + LengthSymbol(length)) && HasCode(tables.dist, DistanceSymbol(distance))
  }

  function EncodeLength(length: nat): Bits
    requires 3 <= length
  {
    var k := LengthSymbol(length);
    LowBits(length - LENGTH_BASE[k], LENGTH_BITS[k])
  }

  function EncodeDistance(dist: Lengths, distance: nat): Bits
    requires 1 <= distance && HasCode(dist, DistanceSymbol(distance))
  {
    var k := DistanceSymbol(distance);
    CodeBits(dist, k) + LowBits(distance - DIST_BASE[k], DIST_BITS[k])
  }

  function EncodeToken(tables: Tables, token: Token): Bits
    requires Encodable(tables, token)
  {
    match token
    case Literal(b) => CodeBits(tables.lit, b)
    case Match(length, distance) =>
      CodeBits(tables.lit, 257 + LengthSymbol(length)) + (EncodeLength(length) + EncodeDistance(tables.dist, distance))
  }

  predicate AllEncodable(tables: Tables, tokens: seq<Token>) {
    HasCode(tables.lit, END_OF_BLOCK) && forall t :: t in tokens ==> Encodable(tables, t)
  }

  function EncodeTokens(tables: Tables, tokens: seq<Token>): Bits
    requires AllEncodable(tables, tokens)
  {
    if tokens == [] then CodeBits(tables.lit, END_OF_BLOCK)
    else EncodeToken(tables, tokens[0]) + EncodeTokens(tables, tokens[1..])
  }

  lemma LengthFitsSymbol(length: nat)
    requires 3 <= length <= 258
    ensures var k := LengthSymbol(length);
      k < 29 && LENGTH_BASE[k] <= length < LENGTH_BASE[k] + Pow2(LENGTH_BITS[k])
  {
    var k := LengthSymbol(length);
    if k < 28 {
      LengthRanges(k);
    }
  }

  lemma DistanceFitsSymbol(distance: nat)
    requires 1 <= distance <= 32768
    ensures var k := DistanceSymbol(distance);
      k < 30 && DIST_BASE[k] <= distance < DIST_BASE[k] + Pow2(DIST_BITS[k])
  {
    var k := DistanceSymbol(distance);
    DistanceRanges(k);
  }

  /** Reading a code that was written. */
  lemma DecodeWritten(ls: Lengths, s: nat, rest: Bits)
    requires HasCode(ls, s)
    ensures Decode(ls, CodeBits(ls, s) + rest) == Done(Parsed(s, rest))
  {
    DecodeIffCode(ls, s, CodeBits(ls, s) + rest, rest);
  }

  /** Reading a table entry that was written as its base and extra bits. */
  lemma TakeWrittenBase(v: nat, n: nat, base: nat, rest: Bits)
    requires base <= v < base + Pow2(n) && n <= 32
    ensures TakeBase(LowBits(v - base, n) + rest, n, base) == Done(Parsed(v, rest))
  {
    TakeWrittenNumber(v - base, n, rest);
  }

  lemma TakeEncodedLength(length: nat, rest: Bits)
    requires 3 <= length <= 258
    ensures var k := LengthSymbol(length);
      TakeBase(EncodeLength(length) + rest, LENGTH_BITS[k], LENGTH_BASE[k]) == Done(Parsed(length, rest))
  {
    var k := LengthSymbol(length);
    LengthFitsSymbol(length);
    TakeWrittenBase(length, LENGTH_BITS[k], LENGTH_BASE[k], rest);
  }

  lemma ParseEncodedDistance(dist: Lengths, distance: nat, rest: Bits)
    requires 1 <= distance <= 32768 && HasCode(dist, DistanceSymbol(distance))
    ensures ParseDistance(dist, EncodeDistance(dist, distance) + rest) == Done(Parsed(distance, rest))
  {
    var k := DistanceSymbol(distance);
    DistanceFitsSymbol(distance);
    var extra := LowBits(distance - DIST_BASE[k], DIST_BITS[k]);
    Reassociate(CodeBits(dist, k), extra, rest);
    DecodeWritten(dist, k, extra + rest);
    TakeWrittenBase(distance, DIST_BITS[k], DIST_BASE[k], rest);
  }

  lemma ParseEncodedMatch(dist: Lengths, length: nat, distance: nat, rest: Bits)
    requires 3 <= length <= 258 && 1 <= distance <= 32768 && HasCode(dist, DistanceSymbol(distance))
    ensures ParseMatch(LengthSymbol(length), dist, EncodeLength(length) + (EncodeDistance(dist, distance) + rest)) ==
            Done(Parsed(Match(length, distance), rest))
  {
    TakeEncodedLength(length, EncodeDistance(dist, distance) + rest);
    ParseEncodedDistance(dist, distance, rest);
  }

  lemma ParseTokenAsMatch(tables: Tables, bits: Bits, symbol: nat, tail: Bits)
    requires Decode(tables.lit, bits) == Done(Parsed(symbol, tail)) && symbol > END_OF_BLOCK
    requires ParseMatch(symbol - 257, tables.dist, tail).Done?
    ensures var Parsed(token, rest) := ParseMatch(symbol - 257, tables.dist, tail).value;
      ParseToken(tables.lit, tables.dist, bits) == Done(Parsed(Some(token), rest))
  {
  }

  lemma ParseEncodedMatchToken(tables: Tables, length: nat, distance: nat, rest: Bits)
    requires Encodable(tables, Match(length, distance))
    ensures ParseToken(tables.lit, tables.dist, EncodeToken(tables, Match(length, distance)) + rest) ==
            Done(Parsed(Some(Match(length, distance)), rest))
  {
    var symbol := 257 + LengthSymbol(length);
    var code, first, second := CodeBits(tables.lit, symbol), EncodeLength(length),
      EncodeDistance(tables.dist, distance);
    var tail := first + (second + rest);
    Regroup(code, first, second, rest);
    DecodeWritten(tables.lit, symbol, tail);
    ParseEncodedMatch(tables.dist, length, distance, rest);
    ParseTokenAsMatch(tables, code + tail, symbol, tail);
  }

  lemma ParseEncodedToken(tables: Tables, token: Token, rest: Bits)
    requires Encodable(tables, token)
    ensures ParseToken(tables.lit, tables.dist, EncodeToken(tables, token) + rest) == Done(Parsed(Some(token), rest))
  {
    match token
    case Literal(b) => DecodeWritten(tables.lit, b, rest);
    case Match(length, distance) => ParseEncodedMatchToken(tables, length, distance, rest);
  }

  lemma {:induction false} ParseEncodedTokens(tables: Tables, tokens: seq<Token>, rest: Bits)
    requires AllEncodable(tables, tokens)
    ensures ParseTokens(tables.lit, tables.dist, EncodeTokens(tables, tokens) + rest) == Done(Parsed(tokens, rest))
  {
    if tokens == [] {
      DecodeWritten(tables.lit, END_OF_BLOCK, rest);
    } else {
      var first, more := EncodeToken(tables, tokens[0]), EncodeTokens(tables, tokens[1..]);
      Reassociate(first, more, rest);
      ParseEncodedToken(tables, tokens[0], more + rest);
      ParseEncodedTokens(tables, tokens[1..], rest);
      assert [tokens[0]] + tokens[1..] == tokens;
    }
  }

  // ---------- dynamic tables ----------

  function RunSymbol(run: Run): nat {
    match run
    case OneLength(l) => l
    case CopyPrevious(_) => 16
    case ZerosShort(_) => 17
    case ZerosLong(_) => 18
  }

  /** What the run adds to the list of lengths. */
  function RunLengths(lengths: Lengths, run: Run): Lengths {
    match run
    case OneLength(l) => [l]
    case CopyPrevious(n) => Repeat(if lengths == [] then 0 else lengths[|lengths| - 1], n)
    case ZerosShort(n) => Repeat(0, n)
    case ZerosLong(n) => Repeat(0, n)
  }

  predicate RunAllowed(codes: Lengths, lengths: Lengths, run: Run) {
    && HasCode(codes, RunSymbol(run))
    && match run
       case OneLength(l) => l <= MAX_BITS
       case CopyPrevious(n) => lengths != [] && 3 <= n <= 6
       case ZerosShort(n) => 3 <= n <= 10
       case ZerosLong(n) => 11 <= n <= 138
  }

  /** The extra bits that give the length of the run. */
  function RunExtra(run: Run): Bits {
    match run
    case OneLength(_) => []
    case CopyPrevious(n) => if n < 3 then [] else LowBits(n - 3, 2)
    case ZerosShort(n) => if n < 3 then [] else LowBits(n - 3, 3)
    case ZerosLong(n) => if n < 11 then [] else LowBits(n - 11, 7)
  }

  function EncodeRun(codes: Lengths, run: Run): Bits
    requires HasCode(codes, RunSymbol(run))
  {
    CodeBits(codes, RunSymbol(run)) + RunExtra(run)
  }

  /** `runs` continue the list `lengths` to `all`. Runs may cross from the literal to the distance lengths. */
  predicate RunsGive(codes: Lengths, lengths: Lengths, runs: seq<Run>, all: Lengths)
    decreases runs
  {
    if runs == [] then lengths == all
    else
      && RunAllowed(codes, lengths, runs[0])
      && RunsGive(codes, lengths + RunLengths(lengths, runs[0]), runs[1..], all)
  }

  function EncodeRuns(codes: Lengths, runs: seq<Run>): Bits
    requires forall r :: r in runs ==> HasCode(codes, RunSymbol(r))
  {
    if runs == [] then [] else EncodeRun(codes, runs[0]) + EncodeRuns(codes, runs[1..])
  }

  lemma {:induction false} RunsHaveCodes(codes: Lengths, lengths: Lengths, runs: seq<Run>, all: Lengths)
    requires RunsGive(codes, lengths, runs, all)
    ensures forall r :: r in runs ==> HasCode(codes, RunSymbol(r))
    ensures |lengths| <= |all| && (runs != [] ==> |lengths| < |all|)
    decreases runs
  {
    if runs != [] {
      RunsHaveCodes(codes, lengths + RunLengths(lengths, runs[0]), runs[1..], all);
      assert runs == [runs[0]] + runs[1..];
    }
  }

  lemma TakeEncodedRunLength(run: Run, rest: Bits)
    requires match run
             case OneLength(_) => false
             case CopyPrevious(n) => 3 <= n <= 6
             case ZerosShort(n) => 3 <= n <= 10
             case ZerosLong(n) => 11 <= n <= 138
    ensures TakeRunLength(RunSymbol(run), RunExtra(run) + rest) == Done(Parsed(run.n, rest))
  {
    Pow2Table();
    match run
    case CopyPrevious(n) => TakeWrittenBase(n, 2, 3, rest);
    case ZerosShort(n) => TakeWrittenBase(n, 3, 3, rest);
    case ZerosLong(n) => TakeWrittenBase(n, 7, 11, rest);
  }

  lemma TakeEncodedRun(codes: Lengths, lengths: Lengths, run: Run, rest: Bits)
    requires RunAllowed(codes, lengths, run) && |lengths + RunLengths(lengths, run)| <= LENGTH_SLOTS
    ensures TakeRun(codes, lengths, EncodeRun(codes, run) + rest) ==
            Done(Parsed(lengths + RunLengths(lengths, run), rest))
  {
    var code := CodeBits(codes, RunSymbol(run));
    Reassociate(code, RunExtra(run), rest);
    DecodeWritten(codes, RunSymbol(run), RunExtra(run) + rest);
    if run.OneLength? {
      assert RunExtra(run) + rest == rest;
    } else {
      TakeEncodedRunLength(run, rest);
    }
  }

  /** The length loop rebuilds exactly the list that was run-length coded. */
  lemma {:induction false} TakeEncodedRuns(codes: Lengths, lengths: Lengths, runs: seq<Run>, all: Lengths, rest: Bits)
    requires RunsGive(codes, lengths, runs, all) && |all| <= LENGTH_SLOTS
    requires forall r :: r in runs ==> HasCode(codes, RunSymbol(r))
    requires |lengths| <= |all|
    ensures TakeLengths(codes, lengths, |all|, EncodeRuns(codes, runs) + rest) == Done(Parsed(all, rest))
    decreases runs
  {
    RunsHaveCodes(codes, lengths, runs, all);
    if runs == [] {
      assert EncodeRuns(codes, runs) + rest == rest;
    } else {
      var next := lengths + RunLengths(lengths, runs[0]);
      var first, more := EncodeRun(codes, runs[0]), EncodeRuns(codes, runs[1..]);
      RunsHaveCodes(codes, next, runs[1..], all);
      Reassociate(first, more, rest);
      TakeEncodedRun(codes, lengths, runs[0], more + rest);
      TakeEncodedRuns(codes, next, runs[1..], all, rest);
    }
  }

  /** Where each code length symbol stands in the scrambled order. */
  const CLEN_PLACE: seq<nat> := [3, 17, 15, 13, 11, 9, 7, 5, 4, 6, 8, 10, 12, 14, 16, 18, 0, 1, 2]

  lemma OrderIsPermutation()
    ensures forall i :: 0 <= i < CODE_LENGTH_CODES ==>
      CLEN_ORDER[i] < CODE_LENGTH_CODES && CLEN_PLACE[CLEN_ORDER[i]] == i
    ensures forall s :: 0 <= s < CODE_LENGTH_CODES ==>
      CLEN_PLACE[s] < CODE_LENGTH_CODES && CLEN_ORDER[CLEN_PLACE[s]] == s
  {
  }

  function EncodeCodeLengths(codes: Lengths, i: nat, n: nat): Bits
    requires |codes| == CODE_LENGTH_CODES && i <= n <= CODE_LENGTH_CODES
    decreases n - i
  {
    if i == n then [] else LowBits(codes[CLEN_ORDER[i]], 3) + EncodeCodeLengths(codes, i + 1, n)
  }

  /** The first `i` entries, in the scrambled order, are filled in. */
  ghost predicate FilledTo(codes: Lengths, i: nat, table: Lengths) {
    && |codes| == |table| == CODE_LENGTH_CODES
    && forall s :: 0 <= s < CODE_LENGTH_CODES ==> table[s] == if CLEN_PLACE[s] < i then codes[s] else 0
  }

  lemma FillNext(codes: Lengths, i: nat, table: Lengths)
    requires i < CODE_LENGTH_CODES && FilledTo(codes, i, table)
    ensures CLEN_ORDER[i] < CODE_LENGTH_CODES
    ensures FilledTo(codes, i + 1, table[CLEN_ORDER[i] := codes[CLEN_ORDER[i]]])
  {
    OrderIsPermutation();
  }

  lemma {:induction false} TakeEncodedCodeLengths(codes: Lengths, i: nat, n: nat, table: Lengths, rest: Bits)
    requires i <= n <= CODE_LENGTH_CODES && FilledTo(codes, i, table)
    requires forall s :: 0 <= s < CODE_LENGTH_CODES ==> codes[s] < 8 && (CLEN_PLACE[s] >= n ==> codes[s] == 0)
    ensures TakeCodeLengths(EncodeCodeLengths(codes, i, n) + rest, i, n, table) == Done(Parsed(codes, rest))
    decreases n - i
  {
    if i == n {
      assert table == codes;
      assert EncodeCodeLengths(codes, i, n) + rest == rest;
    } else {
      FillNext(codes, i, table);
      Pow2Table();
      var s := CLEN_ORDER[i];
      var more := EncodeCodeLengths(codes, i + 1, n);
      Reassociate(LowBits(codes[s], 3), more, rest);
      TakeWrittenNumber(codes[s], 3, more + rest);
      TakeEncodedCodeLengths(codes, i + 1, n, table[s := codes[s]], rest);
    }
  }
}
