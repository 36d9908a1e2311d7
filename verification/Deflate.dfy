/** The encoder: one fixed-code block with a greedy match at two candidate distances. */
module Deflate {
  import opened Bits
  import opened Huffman
  import opened DeflateFormat
  import opened DeflateTables
  import InflateSpec
  import opened Statuses

  // ----- the bit writer -----

  /** Packs bits into `out[start..start + cap)`, remembering whether they ran past it. */
  class BitWriter {
    const out: array<Byte>
    const start: nat
    const cap: nat
    var bytePos: nat
    var bitBuf: nat
    var bitCount: nat
    var overflow: bool
    /** Every bit put so far. */
    ghost var put: seq<bool>

    ghost predicate Valid()
      reads this, out
    {
      && start + cap <= out.Length
      && bytePos <= cap
      && bitCount < 8 && bitCount == |put| % 8
      && Pending(put, bitBuf, bitCount)
      && overflow == (|put| / 8 > cap) && (overflow ==> bytePos == cap)
      && (!overflow ==> bytePos == |put| / 8 && BytesToBits(out[start..start + bytePos]) == put[..|put| - bitCount])
    }

    constructor (out: array<Byte>, start: nat, cap: nat)
      requires start + cap <= out.Length
      ensures Valid() && put == [] && this.out == out && this.start == start && this.cap == cap
    {
      this.out, this.start, this.cap := out, start, cap;
      bytePos, bitBuf, bitCount, overflow, put := 0, 0, 0, false, [];
    }

    twostate predicate OnlyWindowChanged()
      reads this, out
    {
      && (forall i | 0 <= i < out.Length && !(start <= i < start + cap) :: out[i] == old(out[i]))
    }

    /** As Valid, but with a whole byte still in the buffer. */
    ghost predicate Full()
      reads this, out
    {
      && start + cap <= out.Length
      && bytePos <= cap
      && bitCount == 8 && |put| % 8 == 0
      && Pending(put, bitBuf, 8)
      && overflow == (|put| / 8 - 1 > cap) && (overflow ==> bytePos == cap)
      && (!overflow ==> bytePos == |put| / 8 - 1 && BytesToBits(out[start..start + bytePos]) == put[..|put| - 8])
    }

    method StoreByte()
      requires Full()
      modifies this, out
      ensures Valid() && put == old(put) && OnlyWindowChanged()
    {
      hide BytesToBits, Pending, Pow2;
      PendingByte(put, bitBuf);
      if bytePos >= cap {
        overflow := true;
      } else {
        ghost var done := out[start..start + bytePos];
        out[start + bytePos] := bitBuf;
        bytePos := bytePos + 1;
        assert out[start..start + bytePos] == done + [bitBuf];
        AppendByte(done, bitBuf, put);
        assert put == put[..|put|];
      }
      bitBuf := 0;
      bitCount := 0;
      NothingPending(put);
    }

    method PutBit(bit: nat)
      requires Valid() && bit <= 1
      modifies this, out
      ensures Valid() && put == old(put) + [bit == 1] && OnlyWindowChanged()
    {
      hide BytesToBits, Pending, Pow2;
      ghost var before, n := put, bitCount;
      NextMod8(|put|);
      PendingStep(put, bitBuf, bitCount, bit);
      bitBuf := bitBuf + bit * Pow2(bitCount);
      bitCount := bitCount + 1;
      put := put + [bit == 1];
      assert put[..|put| - bitCount] == before[..|before| - n];
      if bitCount == 8 {
        StoreByte();
      }
    }

    /** A field, least significant bit first. */
    method Bits(value: nat, n: nat)
      requires Valid()
      modifies this, out
      ensures Valid() && put == old(put) + LsbFirst(value, n) && OnlyWindowChanged()
    {
      hide Valid;
      var v := value;
      for i := 0 to n
        invariant Valid() && put + LsbFirst(v, n - i) == old(put) + LsbFirst(value, n) && OnlyWindowChanged()
      {
        ghost var before := put;
        PutBit(v % 2);
        assert LsbFirst(v, n - i) == [v % 2 == 1] + LsbFirst(v / 2, n - i - 1);
        assert before + LsbFirst(v, n - i) == put + LsbFirst(v / 2, n - i - 1);
        v := v / 2;
      }
    }

    /** A code, most significant bit first. */
    method Huffman(code: nat, len: nat)
      requires Valid()
      modifies this, out
      ensures Valid() && put == old(put) + MsbFirst(code, len) && OnlyWindowChanged()
    {
      hide Valid;
      var i: int := len - 1;
      while i >= 0
        invariant -1 <= i < len && Valid() && OnlyWindowChanged()
        invariant put == old(put) + MsbFirst(Shr(code, i + 1), len - 1 - i)
      {
        PutBit(Shr(code, i) % 2);
        i := i - 1;
      }
    }

    /** Pads the last byte with zero bits. */
    method FlushByte()
      requires Valid()
      modifies this, out
      ensures Valid() && bitCount == 0 && OnlyWindowChanged()
      ensures put == old(put) + Zeros((8 - |old(put)| % 8) % 8)
    {
      hide BytesToBits, Pending, Zeros;
      ghost var n := (8 - |put| % 8) % 8;
      ghost var i := 0;
      while bitCount != 0
        invariant Valid() && OnlyWindowChanged() && i <= n && put == old(put) + Zeros(i)
        decreases n - i
      {
        PutBit(0);
        i := i + 1;
      }
    }
  }

  lemma {:induction false} PutLow(buf: nat, n: nat, bit: nat)
    requires buf < Pow2(n) && bit <= 1
    ensures buf + bit * Pow2(n) < Pow2(n + 1)
    ensures LsbFirst(buf + bit * Pow2(n), n + 1) == LsbFirst(buf, n) + [bit == 1]
  {
    var s := LsbFirst(buf, n);
    LsbValueOfField(buf, n);
    LsbValueSnoc(s, bit == 1);
    LsbFieldOfValue(s + [bit == 1]);
  }

  lemma NextMod8(n: nat)
    ensures if n % 8 == 7 then (n + 1) % 8 == 0 && (n + 1) / 8 == n / 8 + 1
            else (n + 1) % 8 == n % 8 + 1 && (n + 1) / 8 == n / 8
  {
  }

  /** The buffer holds the last `count` bits. */
  ghost predicate Pending(put: seq<bool>, buf: nat, count: nat) {
    && count <= |put|
    && buf < Pow2(count)
    && LsbFirst(buf, count) == put[|put| - count..]
  }

  lemma PendingStep(put: seq<bool>, buf: nat, count: nat, bit: nat)
    requires Pending(put, buf, count) && bit <= 1
    ensures Pending(put + [bit == 1], buf + bit * Pow2(count), count + 1)
  {
    PutLow(buf, count, bit);
    var after := put + [bit == 1];
    assert after[|after| - (count + 1)..] == put[|put| - count..] + [bit == 1];
  }

  lemma NothingPending(put: seq<bool>)
    ensures Pending(put, 0, 0)
  {
    assert put[|put|..] == [];
  }

  lemma PendingByte(put: seq<bool>, buf: nat)
    requires Pending(put, buf, 8)
    ensures buf < 256
  {
    Pow2Eight();
  }

  lemma AppendByte(done: seq<Byte>, b: Byte, put: seq<bool>)
    requires Pending(put, b, 8) && BytesToBits(done) == put[..|put| - 8]
    ensures BytesToBits(done + [b]) == put
  {
    BytesToBitsConcat(done, [b]);
    assert [b][1..] == [];
    assert put == put[..|put| - 8] + put[|put| - 8..];
  }

  // ----- the fixed code by its table -----

  /** The table of section 3.2.6 of RFC 1951: code and length of a literal/length symbol. */
  function FixedLitCode(sym: nat): (nat, nat) {
    if sym <= 143 then (0x30 + sym, 8)
    else if sym <= 255 then (0x190 + (sym - 144), 9)
    else if sym <= 279 then (sym - 256, 7)
    else (0xC0 + (sym - 280), 8)
  }

  function FixedDistCode(sym: nat): (nat, nat) {
    (sym, 5)
  }

  lemma {:induction false} CountRepeat(s: seq<nat>, n: nat, x: nat, len: nat)
    ensures Count(s + Repeat(n, x), len) == Count(s, len) + if x == len then n else 0
  {
    if n == 0 {
      assert s + Repeat(0, x) == s;
    } else {
      CountRepeat(s, n - 1, x, len);
      var t := s + Repeat(n, x);
      assert t[..|t| - 1] == s + Repeat(n - 1, x);
    }
  }

  /** Counts over the first `a`, `b`, `c`, `d` symbols of the four ranges. */
  lemma CountFixed(a: nat, b: nat, c: nat, d: nat, len: nat)
    ensures Count(Repeat(a, 8) + Repeat(b, 9) + Repeat(c, 7) + Repeat(d, 8), len)
         == if len == 8 then a + d else if len == 9 then b else if len == 7 then c else 0
  {
    hide Count;
    CountOfNothing(len);
    CountRepeat([], a, 8, len);
    assert [] + Repeat(a, 8) == Repeat(a, 8);
    CountRepeat(Repeat(a, 8), b, 9, len);
    CountRepeat(Repeat(a, 8) + Repeat(b, 9), c, 7, len);
    CountRepeat(Repeat(a, 8) + Repeat(b, 9) + Repeat(c, 7), d, 8, len);
  }

  lemma {:induction false} FixedNextCodeLow(len: nat)
    requires len <= 7
    ensures NextCode(FixedLit(), len) == 0
  {
    if len > 0 {
      FixedNextCodeLow(len - 1);
      CountFixed(144, 112, 24, 8, len - 1);
    }
  }

  lemma FixedNextCode()
    ensures NextCode(FixedLit(), 7) == 0 && NextCode(FixedLit(), 8) == 0x30 && NextCode(FixedLit(), 9) == 0x190
  {
    hide Count;
    FixedNextCodeLow(7);
    CountFixed(144, 112, 24, 8, 7);
    CountFixed(144, 112, 24, 8, 8);
    assert NextCode(FixedLit(), 8) == 2 * (NextCode(FixedLit(), 7) + BlCount(FixedLit(), 7));
    assert NextCode(FixedLit(), 9) == 2 * (NextCode(FixedLit(), 8) + BlCount(FixedLit(), 8));
  }

  lemma FixedRank(sym: nat)
    requires sym < 288
    ensures Count(FixedLit()[..sym], FixedLit()[sym])
         == if sym < 144 then sym else if sym < 256 then sym - 144 else if sym < 280 then sym - 256
           else 144 + (sym - 280)
  {
    hide Count;
    var a := if sym < 144 then sym else 144;
    var b := if sym < 144 then 0 else if sym < 256 then sym - 144 else 112;
    var c := if sym < 256 then 0 else if sym < 280 then sym - 256 else 24;
    var d := if sym < 280 then 0 else sym - 280;
    assert FixedLit()[..sym] == Repeat(a, 8) + Repeat(b, 9) + Repeat(c, 7) + Repeat(d, 8);
    CountFixed(a, b, c, d, FixedLit()[sym]);
  }

  /** The table is the canonical code of the fixed lengths. */
  lemma FixedLitCodeCanonical(sym: nat)
    requires sym < 288
    ensures Code(FixedLit(), sym) == MsbFirst(FixedLitCode(sym).0, FixedLitCode(sym).1)
  {
    hide Count, NextCode, MsbFirst;
    FixedNextCode();
    FixedRank(sym);
  }

  lemma {:induction false} FixedDistNextCode(len: nat)
    requires len <= 5
    ensures NextCode(FixedDist(), len) == 0
  {
    if len > 0 {
      FixedDistNextCode(len - 1);
      CountRepeat([], 32, 5, len - 1);
      assert [] + Repeat(32, 5) == FixedDist();
    }
  }

  lemma FixedDistCodeCanonical(sym: nat)
    requires sym < 32
    ensures Code(FixedDist(), sym) == MsbFirst(FixedDistCode(sym).0, FixedDistCode(sym).1)
  {
    hide MsbFirst;
    FixedDistNextCode(5);
    CountRepeat([], sym, 5, 5);
    assert FixedDist()[..sym] == [] + Repeat(sym, 5);
  }

  // ----- matches -----

  /** How far `data` repeats with period `dist` from `pos` on, at most `maxLen`. */
  function MatchLen(data: seq<Byte>, pos: nat, dist: nat, maxLen: nat): (len: nat)
    requires 0 < dist <= pos && pos + maxLen <= |data|
    ensures len <= maxLen
    ensures forall j | pos <= j < pos + len :: data[j] == data[j - dist]
    ensures len < maxLen ==> data[pos + len] != data[pos + len - dist]
    decreases maxLen
  {
    if maxLen == 0 || data[pos] != data[pos - dist] then 0 else 1 + MatchLen(data, pos + 1, dist, maxLen - 1)
  }

  method MatchLength(data: seq<Byte>, pos: nat, dist: nat, maxLen: nat) returns (len: nat)
    requires 0 < dist <= pos && pos + maxLen <= |data|
    ensures len == MatchLen(data, pos, dist, maxLen)
  {
    len := 0;
    while len < maxLen && data[pos + len] == data[pos + len - dist]
      invariant len <= maxLen
      invariant MatchLen(data, pos, dist, maxLen) == len + MatchLen(data, pos + len, dist, maxLen - len)
    {
      len := len + 1;
    }
  }

  /** Copying a match back reproduces the data, overlapping or not. */
  lemma CopyOfMatch(data: seq<Byte>, pos: nat, dist: nat, maxLen: nat, len: nat)
    requires 0 < dist <= pos && pos + maxLen <= |data| && len <= MatchLen(data, pos, dist, maxLen)
    ensures CopyBack(data[..pos], dist, len) == data[..pos + len]
  {
    CopyAgreeing(data, pos, dist, len);
  }

  ghost predicate Agrees(data: seq<Byte>, pos: nat, dist: nat, len: nat) {
    0 < dist <= pos && pos + len <= |data| && forall j | pos <= j < pos + len :: data[j] == data[j - dist]
  }

  lemma AgreesStep(data: seq<Byte>, pos: nat, dist: nat, len: nat)
    requires Agrees(data, pos, dist, len) && len > 0
    ensures 0 < dist <= pos < |data| && data[pos] == data[pos - dist] && Agrees(data, pos + 1, dist, len - 1)
    ensures data[..pos] + [data[pos]] == data[..pos + 1]
  {
  }

  lemma {:induction false} CopyAgreeing(data: seq<Byte>, pos: nat, dist: nat, len: nat)
    requires Agrees(data, pos, dist, len)
    ensures 0 < dist <= pos && pos + len <= |data| && CopyBack(data[..pos], dist, len) == data[..pos + len]
    decreases len
  {
    if len > 0 {
      hide Agrees, CopyBack;
      AgreesStep(data, pos, dist, len);
      CopyStep(data[..pos], dist, len);
      CopyAgreeing(data, pos + 1, dist, len - 1);
    }
  }

  // ----- length and distance symbols -----

  /** The largest table entry at most `v`, searching down from `k`. */
  function SymbolFor(table: seq<nat>, v: nat, k: nat): (s: nat)
    requires k < |table| && table[0] <= v
    ensures s <= k && table[s] <= v
    ensures s < k ==> v < table[s + 1]
  {
    if table[k] <= v then k else SymbolFor(table, v, k - 1)
  }

  predicate Matchable(len: nat, dist: nat) {
    3 <= len <= 258 && 1 <= dist <= 32768
  }

  function CopyItem(len: nat, dist: nat): Item
    requires Matchable(len, dist)
  {
    var ls, ds := SymbolFor(LENGTH_BASE, len, 28), SymbolFor(DIST_BASE, dist, 29);
    Copy(ls, len - LENGTH_BASE[ls], ds, dist - DIST_BASE[ds])
  }

  lemma CopyItemOk(len: nat, dist: nat)
    requires Matchable(len, dist)
    ensures var c := CopyItem(len, dist); c.Ok() && c.Length() == len && c.Distance() == dist
  {
    hide Pow2;
    var ls, ds := SymbolFor(LENGTH_BASE, len, 28), SymbolFor(DIST_BASE, dist, 29);
    Powers();
    if ls < 28 {
      LengthSteps(ls);
    }
    DistSteps(ds);
  }

  lemma FixedCoded(item: Item)
    requires item.Ok()
    ensures ItemCoded(FixedTrees(), item)
  {
  }

  // ----- the items chosen -----

  function Remaining(data: seq<Byte>, pos: nat): (n: nat)
    requires pos < |data|
    ensures 0 < n <= 258 && pos + n <= |data|
  {
    if |data| - pos > 258 then 258 else |data| - pos
  }

  /** The match length at a candidate distance, 0 where the candidate does not apply. */
  function Candidate(data: seq<Byte>, pos: nat, dist: nat): (len: nat)
    requires pos < |data|
    ensures len <= Remaining(data, pos)
    ensures len > 0 ==> 0 < dist <= pos && dist <= 32768
  {
    if Remaining(data, pos) >= 3 && dist != 0 && dist <= 32768 && pos >= dist
    then MatchLen(data, pos, dist, Remaining(data, pos)) else 0
  }

  /** The longer of the two candidates, distance 3 on a tie. */
  function BestDistance(data: seq<Byte>, pos: nat, rowStride: nat): nat
    requires pos < |data|
  {
    if Candidate(data, pos, rowStride) > Candidate(data, pos, 3) then rowStride else 3
  }

  function Choose(data: seq<Byte>, pos: nat, rowStride: nat): (item: Item)
    requires pos < |data|
  {
    var dist := BestDistance(data, pos, rowStride);
    var len := Candidate(data, pos, dist);
    if len >= 3 then CopyItem(len, dist) else Literal(data[pos])
  }

  lemma ChooseAdvances(data: seq<Byte>, pos: nat, rowStride: nat)
    requires pos < |data|
    ensures var item := Choose(data, pos, rowStride);
            && item.Applies(data[..pos]) && item.Length() <= |data| - pos
            && item.Apply(data[..pos]) == data[..pos + item.Length()]
  {
    hide CopyItem, MatchLen, CopyBack;
    var dist := BestDistance(data, pos, rowStride);
    var len := Candidate(data, pos, dist);
    if len >= 3 {
      CopyItemOk(len, dist);
      CopyOfMatch(data, pos, dist, Remaining(data, pos), len);
    } else {
      assert data[..pos] + [data[pos]] == data[..pos + 1];
    }
  }

  function Tokens(data: seq<Byte>, pos: nat, rowStride: nat): seq<Item>
    requires pos <= |data|
    decreases |data| - pos
  {
    if pos == |data| then []
    else
      ChooseAdvances(data, pos, rowStride);
      var item := Choose(data, pos, rowStride);
      [item] + Tokens(data, pos + item.Length(), rowStride)
  }

  /** What the items from `pos` on are written as, and what they produce. */
  function Tail(data: seq<Byte>, pos: nat, rowStride: nat): Written<seq<Byte>>
    requires pos <= |data|
  {
    WriteBody(FixedTrees(), Tokens(data, pos, rowStride), data[..pos])
  }

  lemma TailEnd(data: seq<Byte>, rowStride: nat)
    ensures Tail(data, |data|, rowStride) == Written(Code(FixedLit(), END_OF_BLOCK), data)
  {
    hide Code, WriteBody, Tokens, FixedLit;
    FixedEndCoded();
    WriteBodyNil(FixedTrees(), data[..|data|]);
    TokensEnd(data, rowStride);
    assert data[..|data|] == data;
  }

  lemma TailStep(data: seq<Byte>, pos: nat, rowStride: nat)
    requires pos < |data|
    ensures var item := Choose(data, pos, rowStride);
            && item.Ok() && 0 < item.Length() <= |data| - pos && ItemCoded(FixedTrees(), item)
            && Tail(data, pos, rowStride)
            == Prepend(ItemBits(FixedTrees(), item), Tail(data, pos + item.Length(), rowStride))
  {
    hide Choose, ItemBits, FixedTrees, Tokens, WriteBody, ItemCoded;
    ChooseAdvances(data, pos, rowStride);
    var item := Choose(data, pos, rowStride);
    FixedCoded(item);
    TokensStep(data, pos, rowStride);
    WriteBodyCons(FixedTrees(), item, Tokens(data, pos + item.Length(), rowStride), data[..pos]);
  }

  /** Running the chosen items produces the data, whatever the row stride. */
  lemma {:induction false} TokensRun(data: seq<Byte>, pos: nat, rowStride: nat)
    requires pos <= |data|
    ensures Tail(data, pos, rowStride).Written? && Tail(data, pos, rowStride).out == data
    decreases |data| - pos
  {
    hide Tail, Choose, ItemBits, FixedTrees, ItemCoded, Code;
    if pos == |data| {
      TailEnd(data, rowStride);
    } else {
      TailStep(data, pos, rowStride);
      TokensRun(data, pos + Choose(data, pos, rowStride).Length(), rowStride);
    }
  }

  lemma TokensStep(data: seq<Byte>, pos: nat, rowStride: nat)
    requires pos < |data|
    ensures var item := Choose(data, pos, rowStride);
            && item.Ok() && pos + item.Length() <= |data|
            && Tokens(data, pos, rowStride) == [item] + Tokens(data, pos + item.Length(), rowStride)
  {
    ChooseAdvances(data, pos, rowStride);
  }

  lemma TokensEnd(data: seq<Byte>, rowStride: nat)
    ensures Tokens(data, |data|, rowStride) == []
  {
  }

  lemma WriteBodyNil(t: Trees, out: seq<Byte>)
    requires Coded(t.lit, END_OF_BLOCK)
    ensures WriteBody(t, [], out) == Written(Code(t.lit, END_OF_BLOCK), out)
  {
  }

  lemma WriteBodyCons(t: Trees, item: Item, items: seq<Item>, out: seq<Byte>)
    requires ItemCoded(t, item) && item.Applies(out)
    ensures WriteBody(t, [item] + items, out) == Prepend(ItemBits(t, item), WriteBody(t, items, item.Apply(out)))
  {
    hide ItemBits, ItemCoded;
    assert ([item] + items)[1..] == items;
  }

  lemma FixedEndCoded()
    ensures Coded(FixedTrees().lit, END_OF_BLOCK) && |Code(FixedTrees().lit, END_OF_BLOCK)| == 7
  {
  }

  /** Three header bits, the items, the end-of-block code. */
  function DeflateBits(data: seq<Byte>, rowStride: nat): seq<bool> {
    var w := WriteStream([Fixed(Tokens(data, 0, rowStride))], 0, []);
    if w.Written? then w.bits else []
  }

  lemma DeflateWritten(data: seq<Byte>, rowStride: nat)
    ensures WriteStream([Fixed(Tokens(data, 0, rowStride))], 0, []) == Written(DeflateBits(data, rowStride), data)
    ensures DeflateBits(data, rowStride)
         == [true, true, false] + WriteBody(FixedTrees(), Tokens(data, 0, rowStride), []).bits
  {
    hide Tokens, WriteBody, FixedTrees;
    TokensRun(data, 0, rowStride);
    assert data[..0] == [];
  }

  // ----- the size bound -----

  lemma ItemCost(item: Item)
    requires item.Ok()
    ensures ItemCoded(FixedTrees(), item) && |ItemBits(FixedTrees(), item)| <= 9 * item.Length()
  {
    hide Code, Pow2, FixedTrees;
    FixedCoded(item);
    match item
    case Literal(b) => SymbolCost(b);
    case Copy(ls, le, ds, de) => CopyCost(ls, ds);
  }

  lemma SymbolCost(sym: nat)
    requires sym < 288
    ensures |FixedTrees().lit| == 288 && FixedTrees().lit[sym] <= 9
  {
  }

  lemma CopyCost(ls: nat, ds: nat)
    requires ls < LENGTH_CODES && ds < DIST_CODES
    ensures |FixedTrees().lit| == 288 && |FixedTrees().dist| == 32
    ensures FixedTrees().lit[257 + ls] + LengthExtra(ls) + FixedTrees().dist[ds] + DistExtra(ds) <= 9 * LengthBase(ls)
  {
    DistExtraBound(ds);
  }

  lemma DistExtraBound(ds: nat)
    requires ds < DIST_CODES
    ensures DistExtra(ds) <= 13
  {
  }

  lemma {:induction false} BodyCost(data: seq<Byte>, pos: nat, rowStride: nat)
    requires pos <= |data|
    ensures var w := Tail(data, pos, rowStride); w.Written? && |w.bits| <= 9 * (|data| - pos) + 7
    decreases |data| - pos
  {
    hide Tail, Choose, ItemBits, FixedTrees, ItemCoded, Code;
    if pos == |data| {
      TailEnd(data, rowStride);
      FixedEndCoded();
    } else {
      TailStep(data, pos, rowStride);
      ItemCost(Choose(data, pos, rowStride));
      BodyCost(data, pos + Choose(data, pos, rowStride).Length(), rowStride);
    }
  }

  /** Nine bits a byte and ten more always suffice. */
  lemma DeflateCost(data: seq<Byte>, rowStride: nat)
    ensures |DeflateBits(data, rowStride)| <= 9 * |data| + 10
  {
    hide WriteBody, Tokens, FixedTrees, DeflateBits;
    DeflateWritten(data, rowStride);
    BodyCost(data, 0, rowStride);
    assert data[..0] == [];
  }

  // ----- the encoder -----

  method EmitSymbol(bw: BitWriter, sym: nat)
    requires bw.Valid() && sym < 288
    modifies bw, bw.out
    ensures bw.Valid() && bw.OnlyWindowChanged() && bw.put == old(bw.put) + Code(FixedLit(), sym)
  {
    hide BitWriter.Valid, FixedLit, Code, MsbFirst;
    FixedLitCodeCanonical(sym);
    var (code, len) := FixedLitCode(sym);
    bw.Huffman(code, len);
  }

  function LengthBits(length: nat): seq<bool>
    requires 3 <= length <= 258
  {
    var ls := SymbolFor(LENGTH_BASE, length, 28);
    Code(FixedLit(), 257 + ls) + LsbFirst(length - LENGTH_BASE[ls], LENGTH_EXTRA[ls])
  }

  function DistanceBits(distance: nat): seq<bool>
    requires 1 <= distance <= 32768
  {
    var ds := SymbolFor(DIST_BASE, distance, 29);
    Code(FixedDist(), ds) + LsbFirst(distance - DIST_BASE[ds], DIST_EXTRA[ds])
  }

  /** Searches a base table down from its top entry. */
  method FindSymbol(table: seq<nat>, v: nat, top: nat) returns (i: nat)
    requires top < |table| && table[0] <= v
    ensures i == SymbolFor(table, v, top)
  {
    i := top;
    while table[i] > v
      invariant 0 <= i <= top && SymbolFor(table, v, i) == SymbolFor(table, v, top)
      decreases i
    {
      i := i - 1;
    }
  }

  method EmitLength(bw: BitWriter, length: nat)
    requires bw.Valid() && 3 <= length <= 258
    modifies bw, bw.out
    ensures bw.Valid() && bw.OnlyWindowChanged()
    ensures bw.put == old(bw.put) + LengthBits(length)
  {
    assert |FixedLit()| == 288;
    hide BitWriter.Valid, FixedLit, Code, LsbFirst, SymbolFor;
    var i := FindSymbol(LENGTH_BASE, length, 28);
    ConcatAssoc(bw.put, Code(FixedLit(), 257 + i), LsbFirst(length - LENGTH_BASE[i], LENGTH_EXTRA[i]));
    EmitSymbol(bw, 257 + i);
    bw.Bits(length - LENGTH_BASE[i], LENGTH_EXTRA[i]);
  }

  method EmitDistance(bw: BitWriter, distance: nat)
    requires bw.Valid() && 1 <= distance <= 32768
    modifies bw, bw.out
    ensures bw.Valid() && bw.OnlyWindowChanged()
    ensures bw.put == old(bw.put) + DistanceBits(distance)
  {
    hide BitWriter.Valid, FixedDist, Code, LsbFirst, MsbFirst, SymbolFor;
    var i := FindSymbol(DIST_BASE, distance, 29);
    FixedDistCodeCanonical(i);
    var (code, len) := FixedDistCode(i);
    ConcatAssoc(bw.put, MsbFirst(code, len), LsbFirst(distance - DIST_BASE[i], DIST_EXTRA[i]));
    bw.Huffman(code, len);
    bw.Bits(distance - DIST_BASE[i], DIST_EXTRA[i]);
  }

  lemma CopyItemBits(len: nat, dist: nat)
    requires Matchable(len, dist)
    ensures ItemCoded(FixedTrees(), CopyItem(len, dist))
    ensures ItemBits(FixedTrees(), CopyItem(len, dist)) == LengthBits(len) + DistanceBits(dist)
  {
    hide Code, LsbFirst, Pow2, SymbolFor, FixedLit, FixedDist;
    CopyItemOk(len, dist);
    FixedCoded(CopyItem(len, dist));
    var c := CopyItem(len, dist);
    FourInTwo(Code(FixedLit(), 257 + c.lsym), LsbFirst(c.lextra, LengthExtra(c.lsym)),
              Code(FixedDist(), c.dsym), LsbFirst(c.dextra, DistExtra(c.dsym)));
  }

  lemma FourInTwo(a: seq<bool>, b: seq<bool>, c: seq<bool>, d: seq<bool>)
    ensures a + (b + (c + d)) == (a + b) + (c + d)
  {
  }

  /** The better of the two candidate matches at `pos`; length 0 if neither applies. */
  method FindMatch(data: seq<Byte>, pos: nat, rowStride: nat) returns (bestLen: nat, bestDist: nat)
    requires pos < |data|
    ensures var dist := BestDistance(data, pos, rowStride);
            if Candidate(data, pos, dist) >= 3 then bestLen == Candidate(data, pos, dist) && bestDist == dist
            else bestLen < 3
    ensures bestLen >= 3 ==> bestLen >= Candidate(data, pos, rowStride) && bestLen >= Candidate(data, pos, 3)
    ensures bestLen < 3 ==> Candidate(data, pos, rowStride) < 3 && Candidate(data, pos, 3) < 3
  {
    var remaining := if |data| - pos > 258 then 258 else |data| - pos;
    bestLen, bestDist := 0, 0;
    if remaining >= 3 {
      if pos >= 3 {
        var len := MatchLength(data, pos, 3, remaining);
        if len >= 3 && len > bestLen {
          bestLen, bestDist := len, 3;
        }
      }
      if rowStride != 0 && rowStride <= 32768 && pos >= rowStride {
        var len := MatchLength(data, pos, rowStride, remaining);
        if len >= 3 && len > bestLen {
          bestLen, bestDist := len, rowStride;
        }
      }
    }
  }

  /** What is still to be written from `pos` on. */
  function BodyFrom(data: seq<Byte>, pos: nat, rowStride: nat): seq<bool>
    requires pos <= |data|
  {
    TokensRun(data, pos, rowStride);
    Tail(data, pos, rowStride).bits
  }

  lemma BodyStep(data: seq<Byte>, pos: nat, rowStride: nat)
    requires pos < |data|
    ensures var item := Choose(data, pos, rowStride);
            && item.Ok() && 0 < item.Length() <= |data| - pos && ItemCoded(FixedTrees(), item)
            && BodyFrom(data, pos, rowStride)
            == ItemBits(FixedTrees(), item) + BodyFrom(data, pos + item.Length(), rowStride)
  {
    hide Tail, Choose, ItemBits, FixedTrees, ItemCoded;
    TailStep(data, pos, rowStride);
    TokensRun(data, pos + Choose(data, pos, rowStride).Length(), rowStride);
  }

  lemma BodyStart(data: seq<Byte>, rowStride: nat)
    ensures DeflateBits(data, rowStride) == [true, true, false] + BodyFrom(data, 0, rowStride)
  {
    hide WriteBody, Tokens, FixedTrees, DeflateBits;
    DeflateWritten(data, rowStride);
    assert data[..0] == [];
  }

  lemma BodyEnd(data: seq<Byte>, rowStride: nat)
    ensures BodyFrom(data, |data|, rowStride) == Code(FixedLit(), END_OF_BLOCK)
  {
    hide Tail, Code, FixedLit;
    TailEnd(data, rowStride);
  }

  lemma CopyStepBits(data: seq<Byte>, pos: nat, rowStride: nat, len: nat, dist: nat)
    requires pos < |data| && dist == BestDistance(data, pos, rowStride) && len == Candidate(data, pos, dist) >= 3
    ensures Matchable(len, dist) && pos + len <= |data|
    ensures BodyFrom(data, pos, rowStride) == (LengthBits(len) + DistanceBits(dist))
            + BodyFrom(data, pos + len, rowStride)
  {
    hide LengthBits, DistanceBits, BodyFrom, Candidate, BestDistance, CopyItem, FixedTrees, ItemBits;
    CopyItemOk(len, dist);
    CopyItemBits(len, dist);
    BodyStep(data, pos, rowStride);
  }

  lemma LiteralStepBits(data: seq<Byte>, pos: nat, rowStride: nat)
    requires pos < |data| && Candidate(data, pos, BestDistance(data, pos, rowStride)) < 3
    ensures BodyFrom(data, pos, rowStride) == Code(FixedLit(), data[pos]) + BodyFrom(data, pos + 1, rowStride)
  {
    hide Code, BodyFrom, Candidate, BestDistance, FixedLit;
    BodyStep(data, pos, rowStride);
  }

  /** Writes one item and moves past the data it stands for. */
  method EmitItem(bw: BitWriter, data: seq<Byte>, pos: nat, rowStride: nat) returns (next: nat)
    requires bw.Valid() && pos < |data|
    modifies bw, bw.out
    ensures bw.Valid() && bw.OnlyWindowChanged()
    ensures pos < next <= |data|
    ensures bw.put + BodyFrom(data, next, rowStride) == old(bw.put) + BodyFrom(data, pos, rowStride)
  {
    hide BitWriter.Valid, Code, LengthBits, DistanceBits, Candidate, BestDistance, FixedLit, BodyFrom;
    var bestLen, bestDist := FindMatch(data, pos, rowStride);
    if bestLen >= 3 {
      CopyStepBits(data, pos, rowStride, bestLen, bestDist);
      EmitLength(bw, bestLen);
      EmitDistance(bw, bestDist);
      next := pos + bestLen;
    } else {
      LiteralStepBits(data, pos, rowStride);
      EmitSymbol(bw, data[pos]);
      next := pos + 1;
    }
  }

  lemma PaddedBytes(bytes: seq<Byte>, bits: seq<bool>)
    requires BytesToBits(bytes) == bits + Zeros((8 - |bits| % 8) % 8)
    ensures bytes == BitsToBytes(bits)
  {
    hide BytesToBits, BitsToBytes;
    PackUnpacked(bytes);
    UnpackPacked(bits);
    PackUnpacked(BitsToBytes(bits));
    PadCount(|bits|);
  }

  /** The end-of-block code and the padding. */
  method Finish(bw: BitWriter, ghost goal: seq<bool>) returns (st: Status, outLen: nat)
    requires bw.Valid() && goal == bw.put + Code(FixedLit(), END_OF_BLOCK)
    modifies bw, bw.out
    ensures bw.start + bw.cap <= bw.out.Length
    ensures st == if (|goal| + 7) / 8 <= bw.cap then Ok else ErrNoMemory
    ensures st == Ok ==> outLen <= bw.cap && bw.out[bw.start..bw.start + outLen] == BitsToBytes(goal)
    ensures bw.OnlyWindowChanged()
  {
    hide BytesToBits, BitsToBytes, Pending, FixedLit, Code, Zeros;
    EmitSymbol(bw, END_OF_BLOCK);
    bw.FlushByte();
    assert (|goal| + 7) / 8 == |bw.put| / 8;
    if bw.overflow {
      return ErrNoMemory, 0;
    }
    outLen := bw.bytePos;
    assert BytesToBits(bw.out[bw.start..bw.start + outLen]) == bw.put by {
      assert bw.put[..|bw.put| - 0] == bw.put;
    }
    PaddedBytes(bw.out[bw.start..bw.start + outLen], goal);
    st := Ok;
  }

  /** Writes the encoding of `data` into `out[start..start + cap)`; succeeds exactly when it fits. */
  method DeflateFixed(data: seq<Byte>, rowStride: nat, out: array<Byte>, start: nat, cap: nat)
    returns (st: Status, outLen: nat)
    requires start + cap <= out.Length
    modifies out
    ensures st == if (|DeflateBits(data, rowStride)| + 7) / 8 <= cap then Ok else ErrNoMemory
    ensures st == Ok ==> outLen <= cap && out[start..start + outLen] == BitsToBytes(DeflateBits(data, rowStride))
    ensures forall i | 0 <= i < out.Length && !(start <= i < start + cap) :: out[i] == old(out[i])
  {
    hide BitWriter.Valid, BitsToBytes, BodyFrom, FixedLit, DeflateBits, Code;
    ghost var goal := DeflateBits(data, rowStride);
    var bw := new BitWriter(out, start, cap);
    EmitBlockStart(bw);
    BodyStart(data, rowStride);
    var pos := 0;
    while pos < |data|
      invariant pos <= |data| && fresh(bw) && bw.Valid() && bw.out == out && bw.start == start && bw.cap == cap
      invariant goal == bw.put + BodyFrom(data, pos, rowStride)
      invariant forall i | 0 <= i < out.Length && !(start <= i < start + cap) :: out[i] == old(out[i])
      decreases |data| - pos
    {
      pos := EmitItem(bw, data, pos, rowStride);
      OverflowMeans(bw);
      if bw.overflow {
        assert |bw.put| <= |goal|;
        return ErrNoMemory, 0;
      }
    }
    BodyEnd(data, rowStride);
    st, outLen := Finish(bw, goal);
  }

  lemma OverflowMeans(bw: BitWriter)
    requires bw.Valid()
    ensures bw.overflow <==> |bw.put| / 8 > bw.cap
  {
  }

  /** The bits that say: last block, fixed codes. */
  method EmitBlockStart(bw: BitWriter)
    requires bw.Valid() && bw.put == []
    modifies bw, bw.out
    ensures bw.Valid() && bw.put == [true, true, false] && bw.OnlyWindowChanged()
  {
    hide BitWriter.Valid;
    bw.PutBit(1);
    bw.PutBit(1);
    bw.PutBit(0);
  }

  // ----- round trip -----

  /** Inflating the packed encoding, with anything after it, gives the data back and stops in the
      encoding's last byte; with too little room it reports that. */
  lemma DeflateInflate(data: seq<Byte>, rowStride: nat, tail: seq<Byte>, cap: nat)
    ensures var bytes := BitsToBytes(DeflateBits(data, rowStride));
            var o := InflateSpec.ReadStream(BytesToBits(bytes + tail), [], cap);
            if |data| <= cap then o.Done? && o.out == data && |bytes + tail| - |o.rest| / 8 == |bytes|
            else o.Failed? && o.status == ErrNoMemory
  {
    hide *;
    var bits := DeflateBits(data, rowStride);
    DeflateWritten(data, rowStride);
    var pad := PackedThen(bits, tail);
    WholeBytesLeft(pad, tail, BitsToBytes(bits));
    InflateSpec.StreamComplete([Fixed(Tokens(data, 0, rowStride))], 0, [], pad + BytesToBits(tail), cap);
  }

  /** Packed bits with bytes after them: the bits, less than a byte of padding, and the bits of those bytes. */
  lemma PackedThen(bits: seq<bool>, tail: seq<Byte>) returns (pad: seq<bool>)
    ensures |pad| < 8 && BytesToBits(BitsToBytes(bits) + tail) == bits + (pad + BytesToBits(tail))
    ensures |bits + (pad + BytesToBits(tail))| % 8 == 0
  {
    hide BytesToBits, BitsToBytes, Zeros;
    var bytes := BitsToBytes(bits);
    UnpackPacked(bits);
    BytesToBitsConcat(bytes, tail);
    pad := Zeros(8 * |bytes| - |bits|);
    ConcatAssoc(bits, pad, BytesToBits(tail));
  }

  lemma WholeBytesLeft(pad: seq<bool>, tail: seq<Byte>, bytes: seq<Byte>)
    requires |pad| < 8
    ensures |bytes + tail| - |pad + BytesToBits(tail)| / 8 == |bytes|
  {
    Mod8(|tail|, |pad|);
  }
}
