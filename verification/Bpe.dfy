/** Byte-pair compression of the symbol names: frequent pairs become tokens, which expand back to the names. */
module Bpe {
  import opened Bits

  const MAX_TOKENS := 128
  const MAX_EXPANSION := 32
  const MIN_COUNT := 4

  // ----- what compressed bytes mean -----

  function ExpandByte(tokens: seq<seq<Byte>>, b: Byte): seq<Byte> {
    if b < 128 then [b] else if b - 128 < |tokens| then tokens[b - 128] else []
  }

  function Expand(tokens: seq<seq<Byte>>, s: seq<Byte>): seq<Byte> {
    if s == [] then [] else ExpandByte(tokens, s[0]) + Expand(tokens, s[1..])
  }

  /** Only bytes with a meaning. */
  ghost predicate Known(count: nat, s: seq<Byte>) {
    forall i | 0 <= i < |s| :: s[i] < 128 + count
  }

  lemma {:induction false} ExpandLiteral(s: seq<Byte>)
    requires forall i | 0 <= i < |s| :: s[i] < 128
    ensures Expand([], s) == s
  {
    if s != [] {
      ExpandLiteral(s[1..]);
      assert s == [s[0]] + s[1..];
    }
  }

  // ----- replacing a pair -----

  function Replaced(s: seq<Byte>, a: Byte, b: Byte, t: Byte): (r: seq<Byte>)
    ensures |r| <= |s|
  {
    if s == [] then []
    else if |s| >= 2 && s[0] == a && s[1] == b then [t] + Replaced(s[2..], a, b, t)
    else [s[0]] + Replaced(s[1..], a, b, t)
  }

  /** With the pair's expansion as the new token, the meaning is unchanged. */
  lemma {:induction false} ReplacedExpands(tokens: seq<seq<Byte>>, s: seq<Byte>, a: Byte, b: Byte, t: Byte)
    requires Known(|tokens|, s) && t == 128 + |tokens| && a < t && b < t
    ensures var tokens' := tokens + [ExpandByte(tokens, a) + ExpandByte(tokens, b)];
            Expand(tokens', Replaced(s, a, b, t)) == Expand(tokens, s) && Known(|tokens'|, Replaced(s, a, b, t))
  {
    var e := ExpandByte(tokens, a) + ExpandByte(tokens, b);
    var tokens' := tokens + [e];
    if s == [] {
    } else if |s| >= 2 && s[0] == a && s[1] == b {
      var rest := Replaced(s[2..], a, b, t);
      ReplacedExpands(tokens, s[2..], a, b, t);
      assert Replaced(s, a, b, t)[1..] == rest;
      assert s[1..][1..] == s[2..];
      ConcatAssoc(ExpandByte(tokens, a), ExpandByte(tokens, b), Expand(tokens, s[2..]));
    } else {
      var rest := Replaced(s[1..], a, b, t);
      ReplacedExpands(tokens, s[1..], a, b, t);
      assert Replaced(s, a, b, t)[1..] == rest;
    }
  }

  method ReplacePair(s: seq<Byte>, a: Byte, b: Byte, t: Byte) returns (out: seq<Byte>)
    ensures out == Replaced(s, a, b, t)
  {
    hide Replaced;
    out := [];
    var r := 0;
    while r < |s|
      invariant 0 <= r <= |s| && out + Replaced(s[r..], a, b, t) == Replaced(s, a, b, t)
    {
      ReplacedStep(s, r, a, b, t);
      if r + 1 < |s| && s[r] == a && s[r + 1] == b {
        ConcatAssoc(out, [t], Replaced(s[r + 2..], a, b, t));
        out := out + [t];
        r := r + 2;
      } else {
        ConcatAssoc(out, [s[r]], Replaced(s[r + 1..], a, b, t));
        out := out + [s[r]];
        r := r + 1;
      }
    }
    ReplacedNothing(a, b, t);
  }

  lemma ReplacedStep(s: seq<Byte>, r: nat, a: Byte, b: Byte, t: Byte)
    requires r < |s|
    ensures s[0..] == s
    ensures r + 1 < |s| && s[r] == a && s[r + 1] == b ==>
            Replaced(s[r..], a, b, t) == [t] + Replaced(s[r + 2..], a, b, t)
    ensures !(r + 1 < |s| && s[r] == a && s[r + 1] == b) ==>
            Replaced(s[r..], a, b, t) == [s[r]] + Replaced(s[r + 1..], a, b, t)
  {
    var u := s[r..];
    assert u[1..] == s[r + 1..];
    if |u| >= 2 {
      assert u[2..] == s[r + 2..];
    }
  }

  lemma ReplacedNothing(a: Byte, b: Byte, t: Byte)
    ensures Replaced([], a, b, t) == []
  {
  }

  // ----- counting pairs -----

  /** How often the pair occurs among the first `n` adjacent pairs. */
  ghost function PairsIn(s: seq<Byte>, n: nat, p: nat): nat
    requires n < |s| || n == 0
  {
    if n == 0 then 0 else PairsIn(s, n - 1, p) + if PairAt(s, n - 1) == p then 1 else 0
  }

  function PairAt(s: seq<Byte>, i: nat): (p: nat)
    requires i + 1 < |s|
    ensures p < 65536
  {
    Packed(s[i], s[i + 1])
  }

  function Packed(a: int, b: int): int {
    256 * a + b
  }

  function Pairs(s: seq<Byte>): nat {
    if |s| == 0 then 0 else |s| - 1
  }

  ghost function PairCount(seqs: seq<seq<Byte>>, n: nat, p: nat): nat
    requires n <= |seqs|
  {
    if n == 0 then 0 else PairCount(seqs, n - 1, p) + PairsIn(seqs[n - 1], Pairs(seqs[n - 1]), p)
  }

  method CountPairs(seqs: seq<seq<Byte>>) returns (counts: array<nat>)
    ensures fresh(counts) && counts.Length == 65536
    ensures forall p | 0 <= p < 65536 :: counts[p] == PairCount(seqs, |seqs|, p)
  {
    counts := new nat[65536](_ => 0);
    var j := 0;
    while j < |seqs|
      invariant 0 <= j <= |seqs|
      invariant forall p | 0 <= p < 65536 :: counts[p] == PairCount(seqs, j, p)
    {
      var s := seqs[j];
      var i := 0;
      while i + 1 < |s|
        invariant 0 <= i <= Pairs(s)
        invariant forall p | 0 <= p < 65536 :: counts[p] == PairCount(seqs, j, p) + PairsIn(s, i, p)
      {
        var p := PairAt(s, i);
        counts[p] := counts[p] + 1;
        i := i + 1;
      }
      j := j + 1;
    }
  }

  /** A pair that is counted occurs, so both its bytes have a meaning. */
  lemma {:induction false} CountedIn(s: seq<Byte>, n: nat, p: nat) returns (i: nat)
    requires (n < |s| || n == 0) && PairsIn(s, n, p) > 0
    ensures i + 1 < |s| && PairAt(s, i) == p
  {
    if PairAt(s, n - 1) == p {
      i := n - 1;
    } else {
      i := CountedIn(s, n - 1, p);
    }
  }

  lemma {:induction false} CountedKnown(seqs: seq<seq<Byte>>, n: nat, p: nat, count: nat)
    requires n <= |seqs| && p < 65536 && PairCount(seqs, n, p) > 0 && forall j | 0 <= j < |seqs| ::
             Known(count, seqs[j])
    ensures p / 256 < 128 + count && p % 256 < 128 + count
  {
    var s := seqs[n - 1];
    if PairsIn(s, Pairs(s), p) > 0 {
      var i := CountedIn(s, Pairs(s), p);
      assert Known(count, s);
      Unpacked(s[i], s[i + 1]);
    } else {
      CountedKnown(seqs, n - 1, p, count);
    }
  }

  lemma Unpacked(a: Byte, b: Byte)
    ensures Packed(a, b) / 256 == a && Packed(a, b) % 256 == b
  {
  }

  // ----- choosing a pair -----

  ghost predicate TokensOk(tokens: seq<seq<Byte>>) {
    |tokens| <= MAX_TOKENS && forall t | 0 <= t < |tokens| :: 2 <= |tokens[t]| <= MAX_EXPANSION
  }

  /** Frequent enough, and its expansion fits a token. */
  ghost predicate Worthwhile(seqs: seq<seq<Byte>>, tokens: seq<seq<Byte>>, p: nat)
    requires p < 65536
  {
    && PairCount(seqs, |seqs|, p) >= MIN_COUNT
    && |ExpandByte(tokens, p / 256)| + |ExpandByte(tokens, p % 256)| <= MAX_EXPANSION
  }

  /** The most frequent worthwhile pair, the lowest one of several. */
  method ChoosePair(seqs: seq<seq<Byte>>, tokens: seq<seq<Byte>>) returns (found: bool, best: nat)
    requires TokensOk(tokens) && forall j | 0 <= j < |seqs| :: Known(|tokens|, seqs[j])
    ensures best < 65536
    ensures found <==> exists p | 0 <= p < 65536 :: Worthwhile(seqs, tokens, p)
    ensures found ==> Worthwhile(seqs, tokens, best) && best / 256 < 128 + |tokens| && best % 256 < 128 + |tokens|
    ensures found ==> forall p | 0 <= p < 65536 && Worthwhile(seqs, tokens, p) ::
                        PairCount(seqs, |seqs|, p) < PairCount(seqs, |seqs|, best)
                          || (PairCount(seqs, |seqs|, p) == PairCount(seqs, |seqs|, best) && best <= p)
  {
    hide PairCount, ExpandByte;
    var counts := CountPairs(seqs);
    found, best := false, 0;
    var bestCount := 0;
    var p := 0;
    while p < 65536
      invariant 0 <= p <= 65536 && best < 65536
      invariant forall q | 0 <= q < 65536 :: counts[q] == PairCount(seqs, |seqs|, q)
      invariant found <==> bestCount > 0
      invariant found ==> best < p && Worthwhile(seqs, tokens, best) && bestCount == PairCount(seqs, |seqs|, best)
      invariant found ==> best / 256 < 128 + |tokens| && best % 256 < 128 + |tokens|
      invariant forall q | 0 <= q < p && Worthwhile(seqs, tokens, q) ::
                  PairCount(seqs, |seqs|, q) < bestCount || (PairCount(seqs, |seqs|, q) == bestCount && best <= q)
    {
      if counts[p] >= MIN_COUNT {
        CountedKnown(seqs, |seqs|, p, |tokens|);
        var length := |ExpandByte(tokens, p / 256)| + |ExpandByte(tokens, p % 256)|;
        if length <= MAX_EXPANSION && counts[p] > bestCount {
          found, best, bestCount := true, p, counts[p];
        }
      }
      p := p + 1;
    }
  }

  // ----- compression -----

  /** Every compressed sequence still means its name. */
  ghost predicate Means(tokens: seq<seq<Byte>>, seqs: seq<seq<Byte>>, names: seq<seq<Byte>>) {
    |seqs| == |names| && forall j | 0 <= j < |seqs| :: MeansOne(tokens, seqs[j], names[j])
  }

  ghost predicate MeansOne(tokens: seq<seq<Byte>>, s: seq<Byte>, name: seq<Byte>) {
    Known(|tokens|, s) && Expand(tokens, s) == name && |s| <= |name|
  }

  ghost predicate Ascii(s: seq<Byte>) {
    forall i | 0 <= i < |s| :: s[i] < 128
  }

  method Compress(names: seq<seq<Byte>>) returns (tokens: seq<seq<Byte>>, seqs: seq<seq<Byte>>)
    requires forall j | 0 <= j < |names| :: Ascii(names[j])
    ensures TokensOk(tokens) && Means(tokens, seqs, names)
  {
    hide Expand, ExpandByte, PairCount, Replaced;
    tokens, seqs := [], names;
    forall j | 0 <= j < |names| ensures MeansOne([], names[j], names[j]) {
      ExpandLiteral(names[j]);
    }
    var round := 0;
    while round < MAX_TOKENS && |tokens| < MAX_TOKENS
      invariant 0 <= round && TokensOk(tokens) && Means(tokens, seqs, names)
      decreases MAX_TOKENS - round
    {
      forall j | 0 <= j < |seqs| ensures Known(|tokens|, seqs[j]) {
        assert MeansOne(tokens, seqs[j], names[j]);
      }
      var found, best := ChoosePair(seqs, tokens);
      if !found {
        break;
      }
      var a: Byte, b: Byte := best / 256, best % 256;
      ExpansionSize(tokens, a);
      ExpansionSize(tokens, b);
      var tokens' := tokens + [ExpandByte(tokens, a) + ExpandByte(tokens, b)];
      seqs := ReplaceAll(tokens, seqs, a, b, names);
      tokens := tokens';
      round := round + 1;
    }
  }

  lemma ExpansionSize(tokens: seq<seq<Byte>>, b: Byte)
    requires TokensOk(tokens) && b < 128 + |tokens|
    ensures 1 <= |ExpandByte(tokens, b)|
  {
  }

  method ReplaceAll(tokens: seq<seq<Byte>>, seqs: seq<seq<Byte>>, a: Byte, b: Byte, ghost names: seq<seq<Byte>>)
      returns (out: seq<seq<Byte>>)
    requires TokensOk(tokens) && |tokens| < MAX_TOKENS && Means(tokens, seqs, names) && a < 128 + |tokens|
             && b < 128 + |tokens|
    ensures Means(tokens + [ExpandByte(tokens, a) + ExpandByte(tokens, b)], out, names)
  {
    hide Expand, ExpandByte, Replaced;
    ghost var tokens' := tokens + [ExpandByte(tokens, a) + ExpandByte(tokens, b)];
    out := [];
    var j := 0;
    while j < |seqs|
      invariant 0 <= j <= |seqs| && |out| == j
      invariant forall k | 0 <= k < j :: MeansOne(tokens', out[k], names[k])
    {
      assert MeansOne(tokens, seqs[j], names[j]);
      ReplacedExpands(tokens, seqs[j], a, b, 128 + |tokens|);
      var s := ReplacePair(seqs[j], a, b, 128 + |tokens|);
      out := out + [s];
      j := j + 1;
    }
  }
}
