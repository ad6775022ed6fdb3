/** The meaning of a token stream: what LZ77 literals and matches append to the output. */
module Lz77 {
  import opened BitStreams

  const WINDOW := 32768
  const MAX_MATCH := 258

  datatype Token = Literal(byte: Byte) | Match(length: nat, distance: nat)

  /** The byte `d` places before the end; before the start of the output there are zeros. */
  function PeekBack(out: seq<Byte>, d: nat): Byte {
    if 1 <= d <= |out| then out[|out| - d] else 0
  }

  /** Appends `length` bytes one at a time, each one copied from `distance` places back. */
  function CopyMatch(out: seq<Byte>, length: nat, distance: nat): seq<Byte>
    decreases length
  {
    if length == 0 then out else CopyMatch(out + [PeekBack(out, distance)], length - 1, distance)
  }

  function ExpandToken(out: seq<Byte>, token: Token): seq<Byte> {
    match token
    case Literal(b) => out + [b]
    case Match(length, distance) => CopyMatch(out, length, distance)
  }

  function Expand(out: seq<Byte>, tokens: seq<Token>): seq<Byte>
    decreases tokens
  {
    if tokens == [] then out else Expand(ExpandToken(out, tokens[0]), tokens[1..])
  }

  function ExpandedSize(tokens: seq<Token>): nat {
    if tokens == [] then 0
    else (if tokens[0].Literal? then 1 else tokens[0].length) + ExpandedSize(tokens[1..])
  }

  /** Byte `k` repeats the one `distance` places before it; in front of the output there are zeros. */
  predicate Repeats(r: seq<Byte>, k: nat, distance: nat)
    requires k < |r| && distance >= 1
  {
    r[k] == if k < distance then 0 else r[k - distance]
  }

  /** A match extends the output so that every new byte repeats an earlier one, whether or not the two ranges
      overlap. This determines the result. */
  lemma {:induction false} CopyMatchRepeats(out: seq<Byte>, length: nat, distance: nat)
    requires distance >= 1
    ensures var r := CopyMatch(out, length, distance);
      && |r| == |out| + length
      && out <= r
      && forall k :: |out| <= k < |r| ==> Repeats(r, k, distance)
    decreases length
  {
    if length > 0 {
      var next := out + [PeekBack(out, distance)];
      CopyMatchRepeats(next, length - 1, distance);
      var r := CopyMatch(out, length, distance);
      assert r[..|out|] == next[..|out|] == out;
      assert r[|out|] == next[|out|];
      assert distance <= |out| ==> r[|out| - distance] == r[..|out|][|out| - distance];
      assert Repeats(r, |out|, distance);
    } else {
      assert CopyMatch(out, length, distance) == out;
    }
  }

  lemma {:induction false} CopyMatchSize(out: seq<Byte>, length: nat, distance: nat)
    ensures out <= CopyMatch(out, length, distance) && |CopyMatch(out, length, distance)| == |out| + length
    decreases length
  {
    if length > 0 {
      CopyMatchSize(out + [PeekBack(out, distance)], length - 1, distance);
    } else {
      assert CopyMatch(out, length, distance) == out;
    }
  }

  /** The bytes of `data` one by one. */
  function Literals(data: seq<Byte>): (tokens: seq<Token>)
    ensures |tokens| == |data| && forall i :: 0 <= i < |data| ==> tokens[i] == Literal(data[i])
  {
    if data == [] then [] else [Literal(data[0])] + Literals(data[1..])
  }

  /** Literals append their own bytes. */
  lemma {:induction false} ExpandLiterals(out: seq<Byte>, data: seq<Byte>)
    ensures Expand(out, Literals(data)) == out + data
    decreases data
  {
    if data == [] {
      assert out + data == out;
    } else {
      ExpandLiterals(out + [data[0]], data[1..]);
      assert (out + [data[0]]) + data[1..] == out + data;
    }
  }

  /** What one token does to the output, said without the functions that do it. */
  ghost predicate Appends(out: seq<Byte>, token: Token, r: seq<Byte>)
    requires token.Match? ==> token.distance >= 1
  {
    match token
    case Literal(b) => r == out + [b]
    case Match(length, distance) =>
      |r| == |out| + length && out <= r && forall k :: |out| <= k < |r| ==> Repeats(r, k, distance)
  }

  lemma {:induction false} SameCopy(out: seq<Byte>, distance: nat, r: seq<Byte>, r': seq<Byte>, n: nat)
    requires distance >= 1 && |r| == |r'| && out <= r && out <= r' && n <= |r|
    requires forall k :: |out| <= k < |r| ==> Repeats(r, k, distance)
    requires forall k :: |out| <= k < |r| ==> Repeats(r', k, distance)
    ensures r[..n] == r'[..n]
    decreases n
  {
    if n > 0 {
      SameCopy(out, distance, r, r', n - 1);
      var k := n - 1;
      if k < |out| {
        assert r[k] == out[k] == r'[k];
      } else {
        assert Repeats(r, k, distance) && Repeats(r', k, distance);
        assert k >= distance ==> r[..k][k - distance] == r'[..k][k - distance];
      }
      assert r[..n] == r[..k] + [r[k]] && r'[..n] == r'[..k] + [r'[k]];
    }
  }

  predicate DistancesPositive(tokens: seq<Token>) {
    forall i :: 0 <= i < |tokens| && tokens[i].Match? ==> tokens[i].distance >= 1
  }

  /** The outputs before and after each token form the only chain in which each follows from the one before. */
  ghost predicate Chain(outs: seq<seq<Byte>>, tokens: seq<Token>)
    requires DistancesPositive(tokens)
  {
    && |outs| == |tokens| + 1
    && forall i :: 0 <= i < |tokens| ==> Appends(outs[i], tokens[i], outs[i + 1])
  }

  lemma AppendsIff(out: seq<Byte>, token: Token, r: seq<Byte>)
    requires token.Match? ==> token.distance >= 1
    ensures Appends(out, token, r) <==> r == ExpandToken(out, token)
  {
    if token.Match? {
      var r' := CopyMatch(out, token.length, token.distance);
      CopyMatchRepeats(out, token.length, token.distance);
      if Appends(out, token, r) {
        SameCopy(out, token.distance, r, r', |r|);
        assert r[..|r|] == r && r'[..|r'|] == r';
      }
    }
  }

  /** The expansion is where that chain ends. */
  lemma {:induction false} ExpandIsChain(outs: seq<seq<Byte>>, tokens: seq<Token>)
    requires DistancesPositive(tokens) && Chain(outs, tokens)
    ensures Expand(outs[0], tokens) == outs[|tokens|]
    decreases tokens
  {
    if tokens != [] {
      AppendsIff(outs[0], tokens[0], outs[1]);
      assert Chain(outs[1..], tokens[1..]);
      ExpandIsChain(outs[1..], tokens[1..]);
    }
  }

  lemma {:induction false} ExpandAppend(out: seq<Byte>, a: seq<Token>, b: seq<Token>)
    ensures Expand(out, a + b) == Expand(Expand(out, a), b)
    decreases a
  {
    if a == [] {
      assert a + b == b;
    } else {
      ExpandAppend(ExpandToken(out, a[0]), a[1..], b);
      assert (a + b)[1..] == a[1..] + b;
    }
  }

  lemma ExpandSnoc(out: seq<Byte>, a: seq<Token>, t: Token)
    ensures Expand(out, a + [t]) == ExpandToken(Expand(out, a), t)
  {
    ExpandAppend(out, a, [t]);
    assert Expand(Expand(out, a), [t]) == Expand(ExpandToken(Expand(out, a), t), []);
  }

  /** Expansion only appends, and by exactly the sizes of the tokens. */
  lemma {:induction false} ExpandSize(out: seq<Byte>, tokens: seq<Token>)
    ensures out <= Expand(out, tokens)
    ensures |Expand(out, tokens)| == |out| + ExpandedSize(tokens)
    decreases tokens
  {
    if tokens != [] {
      if tokens[0].Match? {
        CopyMatchSize(out, tokens[0].length, tokens[0].distance);
      }
      var next := ExpandToken(out, tokens[0]);
      ExpandSize(next, tokens[1..]);
      assert out <= next <= Expand(out, tokens);
    }
  }

  lemma {:induction false} ExpandedSizeAppend(a: seq<Token>, b: seq<Token>)
    ensures ExpandedSize(a + b) == ExpandedSize(a) + ExpandedSize(b)
  {
    if a == [] {
      assert a + b == b;
    } else {
      ExpandedSizeAppend(a[1..], b);
      assert (a + b)[1..] == a[1..] + b;
    }
  }
}
