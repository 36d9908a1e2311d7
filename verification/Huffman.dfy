/** Canonical Huffman codes (section 3.2.2 of RFC 1951) and the decode table built for them. */
module Huffman {
  import opened Bits

  const MAX_BITS := 15
  const MAX_SYMS := 288

  // ----- the code a vector of lengths denotes -----

  /** How many entries of `lengths` equal `len`. */
  function Count(lengths: seq<nat>, len: nat): nat {
    if lengths == [] then 0
    else Count(lengths[..|lengths| - 1], len) + BitOf(lengths[|lengths| - 1] == len)
  }

  /** bl_count of the RFC: length 0 means the symbol does not occur. */
  function BlCount(lengths: seq<nat>, len: nat): nat {
    if len == 0 then 0 else Count(lengths, len)
  }

  /** next_code of the RFC: the first code of each length. */
  function NextCode(lengths: seq<nat>, len: nat): nat {
    if len == 0 then 0 else 2 * (NextCode(lengths, len - 1) + BlCount(lengths, len - 1))
  }

  function Rank(lengths: seq<nat>, s: nat): nat
    requires s < |lengths|
  {
    Count(lengths[..s], lengths[s])
  }

  function CodeValue(lengths: seq<nat>, s: nat): nat
    requires s < |lengths|
  {
    NextCode(lengths, lengths[s]) + Rank(lengths, s)
  }

  /** The code of symbol `s`, as it appears in the stream. */
  function Code(lengths: seq<nat>, s: nat): (c: seq<bool>)
    requires s < |lengths|
    ensures |c| == lengths[s]
  {
    MsbFirst(CodeValue(lengths, s), lengths[s])
  }

  predicate Coded(lengths: seq<nat>, s: nat) {
    s < |lengths| && lengths[s] > 0
  }

  ghost predicate CodeStarts(lengths: seq<nat>, s: nat, bits: seq<bool>) {
    Coded(lengths, s) && Code(lengths, s) <= bits
  }

  /** Reference decoder: the symbol whose code the bits start with, if there is one. */
  ghost function Decode(lengths: seq<nat>, bits: seq<bool>): (p: Parsed<nat>)
    ensures p.Got? ==> CodeStarts(lengths, p.value, bits) && p.rest == bits[lengths[p.value]..]
    ensures p.NoParse? ==> forall s: nat :: !CodeStarts(lengths, s, bits)
  {
    if exists s: nat :: CodeStarts(lengths, s, bits) then
      var s: nat :| CodeStarts(lengths, s, bits);
      Got(s, bits[lengths[s]..])
    else NoParse
  }

  // ----- which vectors are accepted -----

  /** A code of length `len` takes this share of the 2^15 code space. */
  function Weight(len: nat): nat {
    if 1 <= len <= MAX_BITS then Pow2(MAX_BITS - len) else 0
  }

  function KraftSum(lengths: seq<nat>): nat {
    if lengths == [] then 0
    else KraftSum(lengths[..|lengths| - 1]) + Weight(lengths[|lengths| - 1])
  }

  predicate InRange(lengths: seq<nat>) {
    |lengths| <= MAX_SYMS && forall i | 0 <= i < |lengths| :: lengths[i] <= MAX_BITS
  }

  predicate AtMost(lengths: seq<nat>, bound: nat) {
    forall i | 0 <= i < |lengths| :: lengths[i] <= bound
  }

  /** zlib's rule: no codes at all, a complete code, or (outside the code-length alphabet)
      an incomplete code whose lengths are all 1. */
  predicate Acceptable(lengths: seq<nat>, isCodeLengths: bool) {
    && InRange(lengths)
    && (|| AtMost(lengths, 0)
        || KraftSum(lengths) == Pow2(MAX_BITS)
        || (KraftSum(lengths) < Pow2(MAX_BITS) && !isCodeLengths && AtMost(lengths, 1)))
  }

  /** Code space used up by the lengths up to `len`, in codes of length `len`. */
  function Used(lengths: seq<nat>, len: nat): nat {
    NextCode(lengths, len) + BlCount(lengths, len)
  }

  lemma CountConcat(s: seq<nat>, t: seq<nat>, len: nat)
    ensures Count(s + t, len) == Count(s, len) + Count(t, len)
  {
    if t == [] {
      assert s + t == s;
    } else {
      var front := t[..|t| - 1];
      assert (s + t)[..|s + t| - 1] == s + front;
      CountConcat(s, front, len);
    }
  }

  lemma CountStep(lengths: seq<nat>, i: nat)
    requires i < |lengths|
    ensures forall len: nat :: Count(lengths[..i + 1], len) == Count(lengths[..i], len) + BitOf(lengths[i] == len)
  {
    assert lengths[..i + 1][..i] == lengths[..i];
  }

  /** Lower ranks go to earlier symbols. */
  lemma RankOrder(lengths: seq<nat>, s: nat, t: nat)
    requires s < t <= |lengths|
    ensures Count(lengths[..s], lengths[s]) < Count(lengths[..t], lengths[s])
  {
    assert lengths[..t] == lengths[..s] + [lengths[s]] + lengths[s + 1..t];
    CountConcat(lengths[..s] + [lengths[s]], lengths[s + 1..t], lengths[s]);
    assert (lengths[..s] + [lengths[s]])[..s] == lengths[..s];
  }

  lemma RankBelowCount(lengths: seq<nat>, s: nat)
    requires s < |lengths|
    ensures Rank(lengths, s) < Count(lengths, lengths[s])
  {
    RankOrder(lengths, s, |lengths|);
    assert lengths[..|lengths|] == lengths;
  }

  lemma SymbolOfRank(lengths: seq<nat>, len: nat, k: nat) returns (s: nat)
    requires k < Count(lengths, len)
    ensures s < |lengths| && lengths[s] == len && Rank(lengths, s) == k
  {
    var front := lengths[..|lengths| - 1];
    if k < Count(front, len) {
      s := SymbolOfRank(front, len, k);
      assert lengths[..s] == front[..s];
    } else {
      s := |lengths| - 1;
    }
  }

  lemma {:induction false} UsedSnoc(front: seq<nat>, x: nat, len: nat)
    ensures Used(front + [x], len) == Used(front, len) + if 1 <= x <= len then Pow2(len - x) else 0
  {
    if len == 0 {
    } else {
      UsedSnoc(front, x, len - 1);
      assert (front + [x])[..|front|] == front;
    }
  }

  lemma {:induction false} UsedOfNothing(len: nat)
    ensures Used([], len) == 0
  {
    if len > 0 {
      UsedOfNothing(len - 1);
    }
  }

  /** The running count of the builder is the Kraft sum. */
  lemma {:induction false} UsedIsKraft(lengths: seq<nat>)
    ensures Used(lengths, MAX_BITS) == KraftSum(lengths)
  {
    if lengths == [] {
      UsedOfNothing(MAX_BITS);
    } else {
      var front, x := lengths[..|lengths| - 1], lengths[|lengths| - 1];
      UsedIsKraft(front);
      UsedSnoc(front, x, MAX_BITS);
      assert lengths == front + [x];
    }
  }

  /** Codes of a longer length start past everything used by a shorter one. */
  lemma {:induction false} UsedGrows(lengths: seq<nat>, len: nat, longer: nat)
    requires len < longer
    ensures Pow2(longer - len) * Used(lengths, len) <= NextCode(lengths, longer)
  {
    if longer == len + 1 {
      assert Pow2(1) == 2;
    } else {
      UsedGrows(lengths, len, longer - 1);
      assert Pow2(longer - len) == 2 * Pow2(longer - 1 - len);
      var p, u := Pow2(longer - 1 - len), Used(lengths, len);
      assert 2 * p * u == 2 * (p * u);
    }
  }

  lemma CancelFactor(p: nat, a: nat, b: nat)
    requires p > 0 && p * a <= p * b
    ensures a <= b
  {
    assert a > b ==> p * a >= p * (b + 1);
  }

  /** Not over-subscribed overall means not over-subscribed at any length. */
  lemma UsedFits(lengths: seq<nat>, len: nat)
    requires len <= MAX_BITS && KraftSum(lengths) <= Pow2(MAX_BITS)
    ensures Used(lengths, len) <= Pow2(len)
  {
    UsedIsKraft(lengths);
    if len < MAX_BITS {
      UsedGrows(lengths, len, MAX_BITS);
      Pow2Add(MAX_BITS - len, len);
      CancelFactor(Pow2(MAX_BITS - len), Used(lengths, len), Pow2(len));
    }
  }

  lemma CodeValueFits(lengths: seq<nat>, s: nat)
    requires Coded(lengths, s) && InRange(lengths) && KraftSum(lengths) <= Pow2(MAX_BITS)
    ensures CodeValue(lengths, s) < Used(lengths, lengths[s]) <= Pow2(lengths[s])
  {
    RankBelowCount(lengths, s);
    UsedFits(lengths, lengths[s]);
  }

  /** Distinct symbols of one length have distinct codes. */
  lemma SameLengthInjective(lengths: seq<nat>, s: nat, t: nat)
    requires s < |lengths| && t < |lengths| && lengths[s] == lengths[t]
    requires CodeValue(lengths, s) == CodeValue(lengths, t)
    ensures s == t
  {
    if s < t {
      RankOrder(lengths, s, t);
    } else if t < s {
      RankOrder(lengths, t, s);
    }
  }

  /** The leading bits of a longer code lie past every shorter code. */
  lemma LongerCodeLiesPast(lengths: seq<nat>, len: nat, t: nat)
    requires InRange(lengths) && KraftSum(lengths) <= Pow2(MAX_BITS)
    requires Coded(lengths, t) && 0 < len < lengths[t]
    ensures Used(lengths, len) <= MsbValue(Code(lengths, t)[..len])
  {
    hide Shr, KraftSum, Count, Pow2, MsbFirst, MsbValue;
    CodeValueFits(lengths, t);
    var v, longer := CodeValue(lengths, t), lengths[t];
    UsedGrows(lengths, len, longer);
    Pow2Add(longer - len, len);
    ShrBounds(v, longer - len, Used(lengths, len), Pow2(len));
    MsbFirstTake(v, longer, len);
    MsbValueOfCode(Shr(v, longer - len), len);
  }

  /** Canonical codes of an accepted vector are prefix-free. */
  lemma PrefixFree(lengths: seq<nat>, s: nat, t: nat)
    requires InRange(lengths) && KraftSum(lengths) <= Pow2(MAX_BITS)
    requires Coded(lengths, s) && Coded(lengths, t)
    requires Code(lengths, s) <= Code(lengths, t)
    ensures s == t
  {
    CodeValueFits(lengths, s);
    MsbValueOfCode(CodeValue(lengths, s), lengths[s]);
    if lengths[s] == lengths[t] {
      CodeValueFits(lengths, t);
      MsbValueOfCode(CodeValue(lengths, t), lengths[t]);
      assert Code(lengths, s) == Code(lengths, t);
      SameLengthInjective(lengths, s, t);
    } else {
      assert Code(lengths, t)[..lengths[s]] == Code(lengths, s);
      LongerCodeLiesPast(lengths, lengths[s], t);
    }
  }

  lemma AcceptableFits(lengths: seq<nat>, isCodeLengths: bool)
    requires Acceptable(lengths, isCodeLengths)
    ensures InRange(lengths) && KraftSum(lengths) <= Pow2(MAX_BITS)
  {
    if AtMost(lengths, 0) {
      AllZeroKraft(lengths);
    }
  }

  lemma AllZeroKraft(lengths: seq<nat>)
    requires AtMost(lengths, 0)
    ensures KraftSum(lengths) == 0
  {
  }

  /** Decoding inverts coding, whatever follows. */
  lemma DecodeCode(lengths: seq<nat>, isCodeLengths: bool, s: nat, rest: seq<bool>)
    requires Acceptable(lengths, isCodeLengths) && Coded(lengths, s)
    ensures Decode(lengths, Code(lengths, s) + rest) == Got(s, rest)
  {
    AcceptableFits(lengths, isCodeLengths);
    var bits := Code(lengths, s) + rest;
    assert CodeStarts(lengths, s, bits);
    var t := Decode(lengths, bits).value;
    var cs, ct := Code(lengths, s), Code(lengths, t);
    if |cs| <= |ct| {
      assert cs == bits[..|cs|] == ct[..|cs|];
      PrefixFree(lengths, s, t);
    } else {
      assert ct == bits[..|ct|] == cs[..|ct|];
      PrefixFree(lengths, t, s);
    }
  }

  // ----- the decode table -----

  /** `counts[len]` symbols have length `len`; `symbols` lists them by length, then by value. */
  datatype HuffTree = HuffTree(counts: seq<nat>, symbols: seq<nat>)

  /** Where the symbols of length `len` start in the symbol list. */
  function Offset(lengths: seq<nat>, len: nat): nat {
    if len <= 1 then 0 else Offset(lengths, len - 1) + Count(lengths, len - 1)
  }

  function Slot(lengths: seq<nat>, s: nat): nat
    requires s < |lengths|
  {
    Offset(lengths, lengths[s]) + Rank(lengths, s)
  }

  ghost predicate TableOf(h: HuffTree, lengths: seq<nat>) {
    && |h.counts| == MAX_BITS + 1
    && (forall len | 0 <= len <= MAX_BITS :: h.counts[len] == BlCount(lengths, len))
    && Listed(lengths, h.symbols, |lengths|)
  }

  lemma OffsetMonotone(lengths: seq<nat>, len: nat, longer: nat)
    requires 1 <= len < longer
    ensures Offset(lengths, len) + Count(lengths, len) <= Offset(lengths, longer)
  {
  }

  lemma {:induction false} OffsetSnoc(front: seq<nat>, x: nat, len: nat)
    ensures Offset(front + [x], len) == Offset(front, len) + BitOf(1 <= x < len)
  {
    if len > 1 {
      OffsetSnoc(front, x, len - 1);
      assert (front + [x])[..|front|] == front;
    }
  }

  lemma OffsetBound(lengths: seq<nat>, len: nat)
    ensures Offset(lengths, len) <= |lengths|
  {
    if lengths == [] {
    } else {
      var front := lengths[..|lengths| - 1];
      OffsetBound(front, len);
      OffsetSnoc(front, lengths[|lengths| - 1], len);
      assert lengths == front + [lengths[|lengths| - 1]];
    }
  }

  lemma SlotBound(lengths: seq<nat>, s: nat)
    requires Coded(lengths, s)
    ensures Slot(lengths, s) < |lengths|
  {
    RankBelowCount(lengths, s);
    OffsetMonotone(lengths, lengths[s], lengths[s] + 1);
    OffsetBound(lengths, lengths[s] + 1);
  }

  lemma SlotsDistinct(lengths: seq<nat>, s: nat, t: nat)
    requires Coded(lengths, s) && Coded(lengths, t) && s < t
    ensures Slot(lengths, s) != Slot(lengths, t)
  {
    RankBelowCount(lengths, s);
    RankBelowCount(lengths, t);
    if lengths[s] == lengths[t] {
      RankOrder(lengths, s, t);
    } else if lengths[s] < lengths[t] {
      OffsetMonotone(lengths, lengths[s], lengths[t]);
    } else {
      OffsetMonotone(lengths, lengths[t], lengths[s]);
    }
  }

  /** The symbols below `upTo` are where they belong. */
  ghost predicate Listed(lengths: seq<nat>, symbols: seq<nat>, upTo: nat) {
    && |symbols| == MAX_SYMS
    && forall s: nat | s < upTo && Coded(lengths, s) :: Slot(lengths, s) < MAX_SYMS && symbols[Slot(lengths, s)] == s
  }

  lemma ListedStep(lengths: seq<nat>, symbols: seq<nat>, t: nat)
    requires InRange(lengths) && Coded(lengths, t) && Listed(lengths, symbols, t)
    ensures Slot(lengths, t) < MAX_SYMS
    ensures Listed(lengths, symbols[Slot(lengths, t) := t], t + 1)
  {
    SlotBound(lengths, t);
    forall s: nat | s < t && Coded(lengths, s) ensures Slot(lengths, s) != Slot(lengths, t) {
      SlotsDistinct(lengths, s, t);
    }
  }

  /** Tallies the lengths; fails on one above the limit. */
  method CountLengths(lengths: seq<nat>) returns (ok: bool, counts: array<nat>)
    ensures counts.Length == MAX_BITS + 1 && fresh(counts)
    ensures ok == AtMost(lengths, MAX_BITS)
    ensures ok ==> forall len | 0 <= len <= MAX_BITS :: counts[len] == BlCount(lengths, len)
  {
    counts := new nat[MAX_BITS + 1](_ => 0);
    for i := 0 to |lengths|
      invariant AtMost(lengths[..i], MAX_BITS)
      invariant forall len | 0 <= len <= MAX_BITS :: counts[len] == Count(lengths[..i], len)
    {
      if lengths[i] > MAX_BITS {
        return false, counts;
      }
      CountStep(lengths, i);
      counts[lengths[i]] := counts[lengths[i]] + 1;
    }
    assert lengths[..|lengths|] == lengths;
    counts[0] := 0;
    ok := true;
  }

  lemma NoCountsNoLength(lengths: seq<nat>, bound: nat)
    requires forall len | bound < len <= MAX_BITS :: Count(lengths, len) == 0
    requires AtMost(lengths, MAX_BITS)
    ensures AtMost(lengths, bound)
  {
    forall i | 0 <= i < |lengths| ensures lengths[i] <= bound {
      RankBelowCount(lengths, i);
    }
  }

  lemma CountBeyond(lengths: seq<nat>, bound: nat, len: nat)
    requires AtMost(lengths, bound) && bound < len
    ensures Count(lengths, len) == 0
  {
  }

  /** Decides acceptance from the tallies, as the builder does. */
  method CheckCounts(ghost lengths: seq<nat>, counts: array<nat>, isCodeLengths: bool) returns (ok: bool)
    requires InRange(lengths) && counts.Length == MAX_BITS + 1
    requires forall len | 0 <= len <= MAX_BITS :: counts[len] == BlCount(lengths, len)
    ensures ok == Acceptable(lengths, isCodeLengths)
  {
    var maxLen := MAX_BITS;
    while maxLen > 0 && counts[maxLen] == 0
      invariant 0 <= maxLen <= MAX_BITS
      invariant forall len | maxLen < len <= MAX_BITS :: Count(lengths, len) == 0
    {
      maxLen := maxLen - 1;
    }
    NoCountsNoLength(lengths, maxLen);
    if maxLen == 0 {
      return true;
    }
    assert !AtMost(lengths, 0) by {
      if AtMost(lengths, 0) {
        CountBeyond(lengths, 0, maxLen);
      }
    }
    var left: int := 1;
    UsedIsKraft(lengths);
    for len := 1 to MAX_BITS + 1
      invariant left == Pow2(len - 1) - Used(lengths, len - 1)
      invariant left >= 0
    {
      left := 2 * left;
      left := left - counts[len];
      if left < 0 {
        if KraftSum(lengths) <= Pow2(MAX_BITS) {
          UsedFits(lengths, len);
        }
        return false;
      }
    }
    if left > 0 && (isCodeLengths || maxLen != 1) {
      assert maxLen != 1 ==> !AtMost(lengths, 1) by {
        if maxLen != 1 && AtMost(lengths, 1) {
          CountBeyond(lengths, 1, maxLen);
        }
      }
      return false;
    }
    return true;
  }

  lemma ListedNothing(lengths: seq<nat>, symbols: seq<nat>)
    requires |symbols| == MAX_SYMS
    ensures Listed(lengths, symbols, 0)
  {
  }

  lemma ListedSkip(lengths: seq<nat>, symbols: seq<nat>, t: nat)
    requires t < |lengths| && lengths[t] == 0 && Listed(lengths, symbols, t)
    ensures Listed(lengths, symbols, t + 1)
  {
  }

  /** Where each length's symbols start. */
  method Offsets(ghost lengths: seq<nat>, counts: array<nat>) returns (offs: array<nat>)
    requires counts.Length == MAX_BITS + 1
    requires forall len | 0 <= len <= MAX_BITS :: counts[len] == BlCount(lengths, len)
    ensures offs.Length == MAX_BITS + 2 && fresh(offs)
    ensures forall k | 1 <= k <= MAX_BITS + 1 :: offs[k] == Offset(lengths, k)
  {
    hide Count;
    offs := new nat[MAX_BITS + 2](_ => 0);
    for len := 1 to MAX_BITS + 1
      invariant forall k | 1 <= k <= len :: offs[k] == Offset(lengths, k)
    {
      offs[len + 1] := offs[len] + counts[len];
    }
  }

  lemma CountOfNothing(len: nat)
    ensures Count([], len) == 0
  {
  }

  /** Lists the symbols by length, then by value. */
  method ListSymbols(lengths: seq<nat>, counts: array<nat>) returns (symbols: seq<nat>)
    requires InRange(lengths) && counts.Length == MAX_BITS + 1
    requires forall len | 0 <= len <= MAX_BITS :: counts[len] == BlCount(lengths, len)
    ensures Listed(lengths, symbols, |lengths|)
  {
    hide Listed, Count, Offset;
    var offs := Offsets(lengths, counts);
    var table := new nat[MAX_SYMS](_ => 0);
    ListedNothing(lengths, table[..]);
    forall k: nat ensures Count(lengths[..0], k) == 0 {
      CountOfNothing(k);
    }
    for i := 0 to |lengths|
      invariant forall k | 1 <= k <= MAX_BITS :: offs[k] == Offset(lengths, k) + Count(lengths[..i], k)
      invariant Listed(lengths, table[..], i)
    {
      CountStep(lengths, i);
      if lengths[i] != 0 {
        ListedStep(lengths, table[..], i);
        table[offs[lengths[i]]] := i;
        offs[lengths[i]] := offs[lengths[i]] + 1;
      } else {
        ListedSkip(lengths, table[..], i);
      }
    }
    symbols := table[..];
  }

  /** Accepts exactly the acceptable length vectors and builds their decode table. */
  method HuffBuild(lengths: seq<nat>, isCodeLengths: bool) returns (ok: bool, h: HuffTree)
    ensures ok == Acceptable(lengths, isCodeLengths)
    ensures ok ==> TableOf(h, lengths)
  {
    h := HuffTree([], []);
    if |lengths| > MAX_SYMS {
      return false, h;
    }
    var counts;
    ok, counts := CountLengths(lengths);
    if !ok {
      return;
    }
    ok := CheckCounts(lengths, counts, isCodeLengths);
    if !ok {
      return;
    }
    var symbols := ListSymbols(lengths, counts);
    h := HuffTree(counts[..], symbols);
  }
}
