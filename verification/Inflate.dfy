/** The inflater as it runs: a bit reader over the input, decode tables, an output buffer filled in
    place. Each routine is tied to the parser of InflateSpec. */
module Inflate {
  import opened Bits
  import opened Huffman
  import opened DeflateFormat
  import opened InflateSpec
  import opened Statuses

  class BitReader {
    const data: seq<Byte>
    var bytePos: nat
    var bitBuf: nat
    var bitCount: nat

    ghost predicate Valid()
      reads this
    {
      bytePos <= |data| && bitCount < 8
    }

    /** The unread bits. */
    ghost function Rest(): (bits: seq<bool>)
      requires Valid()
      reads this
      ensures |bits| == bitCount + 8 * (|data| - bytePos)
    {
      LsbFirst(bitBuf, bitCount) + BytesToBits(data[bytePos..])
    }

    constructor (data: seq<Byte>)
      ensures Valid() && this.data == data && Rest() == BytesToBits(data)
    {
      this.data := data;
      bytePos, bitBuf, bitCount := 0, 0, 0;
      new;
      assert data[0..] == data;
    }

    /** 0 or 1, or -1 past the end of input. */
    method Bit() returns (bit: int)
      requires Valid()
      modifies this
      ensures Valid()
      ensures old(Rest()) == [] ==> bit == -1 && Rest() == []
      ensures old(Rest()) != [] ==> bit == BitOf(old(Rest())[0]) && Rest() == old(Rest())[1..]
    {
      if bitCount == 0 {
        if bytePos >= |data| {
          return -1;
        }
        bitBuf := data[bytePos];
        bytePos := bytePos + 1;
        bitCount := 8;
        assert data[bytePos - 1..][1..] == data[bytePos..];
      }
      bit := bitBuf % 2;
      bitBuf := bitBuf / 2;
      bitCount := bitCount - 1;
    }

    /** An `n`-bit field, least significant bit first, or -1 past the end of input. */
    method Bits(n: nat) returns (v: int)
      requires Valid()
      modifies this
      ensures Valid()
      ensures TakeField(old(Rest()), n) == if v < 0 then NoParse else Got(v, Rest())
      ensures v < 0 ==> Rest() == []
    {
      assert LsbValue([]) == 0;
      hide Rest, LsbValue, Pow2;
      v := 0;
      ghost var bits := Rest();
      for i := 0 to n
        invariant Valid() && i <= |bits| && Rest() == bits[i..]
        invariant v == LsbValue(bits[..i])
      {
        var bit := Bit();
        if bit < 0 {
          return -1;
        }
        assert bits[..i + 1] == bits[..i] + [bits[i]];
        LsbValueSnoc(bits[..i], bits[i]);
        v := v + bit * Pow2(i);
      }
    }

    lemma RestWhenAligned()
      requires Valid() && bitCount == 0
      ensures Rest() == BytesToBits(data[bytePos..])
    {
    }

    /** Drops the rest of the current byte. */
    method Align()
      requires Valid()
      modifies this
      ensures Valid() && bitCount == 0 && bytePos == old(bytePos)
      ensures Rest() == BytesToBits(data[bytePos..]) == old(Rest())[|old(Rest())| % 8..]
    {
      Mod8(|data| - bytePos, bitCount);
      bitCount := 0;
    }
  }

  // ----- Huffman symbols -----

  ghost predicate NoCodeBelow(lengths: seq<nat>, bits: seq<bool>, len: nat) {
    forall s: nat | Coded(lengths, s) && lengths[s] < len :: !CodeStarts(lengths, s, bits)
  }

  lemma DecodeHit(lengths: seq<nat>, isCodeLengths: bool, h: HuffTree, bits: seq<bool>, len: nat) returns (s: nat)
    requires Acceptable(lengths, isCodeLengths) && TableOf(h, lengths)
    requires 1 <= len <= MAX_BITS && len <= |bits|
    requires NextCode(lengths, len) <= MsbValue(bits[..len]) < Used(lengths, len)
    ensures var slot := Offset(lengths, len) + MsbValue(bits[..len]) - NextCode(lengths, len);
            slot < |h.symbols| && h.symbols[slot] == s && Decode(lengths, bits) == Got(s, bits[len..])
  {
    hide Acceptable, KraftSum, Decode;
    var k := MsbValue(bits[..len]) - NextCode(lengths, len);
    s := SymbolOfRank(lengths, len, k);
    assert Slot(lengths, s) == Offset(lengths, len) + k;
    MsbCodeOfValue(bits[..len]);
    assert Code(lengths, s) == bits[..len];
    assert bits == bits[..len] + bits[len..];
    DecodeCode(lengths, isCodeLengths, s, bits[len..]);
  }

  lemma DecodeMiss(lengths: seq<nat>, bits: seq<bool>, len: nat)
    requires 1 <= len <= |bits| && Used(lengths, len) <= MsbValue(bits[..len])
    requires NoCodeBelow(lengths, bits, len)
    ensures NoCodeBelow(lengths, bits, len + 1)
  {
    forall s: nat | Coded(lengths, s) && lengths[s] == len ensures !CodeStarts(lengths, s, bits) {
      RankBelowCount(lengths, s);
      if CodeStarts(lengths, s, bits) {
        assert bits[..len] == Code(lengths, s);
        MsbValueOfCode(CodeValue(lengths, s), len);
      }
    }
  }

  lemma DecodeNone(lengths: seq<nat>, bits: seq<bool>, len: nat)
    requires InRange(lengths) && NoCodeBelow(lengths, bits, len) && (len > MAX_BITS || |bits| < len)
    ensures Decode(lengths, bits) == NoParse
  {
  }

  lemma DecodeStart(lengths: seq<nat>, isCodeLengths: bool, bits: seq<bool>)
    requires Acceptable(lengths, isCodeLengths)
    ensures InRange(lengths) && NextCode(lengths, 1) == 0 == Offset(lengths, 1) && MsbValue(bits[..0]) == 0
    ensures NoCodeBelow(lengths, bits, 1)
  {
    hide KraftSum;
    AcceptableFits(lengths, isCodeLengths);
  }

  lemma OneMoreBit(bits: seq<bool>, len: nat)
    requires 1 <= len <= |bits|
    ensures MsbValue(bits[..len]) == 2 * MsbValue(bits[..len - 1]) + BitOf(bits[len - 1])
  {
    assert bits[..len][..len - 1] == bits[..len - 1];
  }

  /** Codes of one length end where the next length's begin, doubled. */
  lemma RangeStep(h: HuffTree, lengths: seq<nat>, len: nat)
    requires TableOf(h, lengths) && 1 <= len <= MAX_BITS
    ensures len < |h.counts| && Used(lengths, len) == NextCode(lengths, len) + h.counts[len]
    ensures NextCode(lengths, len + 1) == 2 * Used(lengths, len)
    ensures Offset(lengths, len + 1) == Offset(lengths, len) + h.counts[len]
  {
    hide Listed, Count;
  }

  /** The next symbol by the canonical code ranges, one bit at a time; -1 if no code matches. */
  method HuffDecode(br: BitReader, h: HuffTree, ghost lengths: seq<nat>, ghost isCodeLengths: bool) returns (sym: int)
    requires br.Valid() && Acceptable(lengths, isCodeLengths) && TableOf(h, lengths)
    modifies br
    ensures br.Valid()
    ensures Decode(lengths, old(br.Rest())) == if sym < 0 then NoParse else Got(sym, br.Rest())
  {
    hide Acceptable, Decode, TableOf, NextCode, Used, Offset, MsbValue, NoCodeBelow, br.Valid, br.Rest;
    ghost var bits := br.Rest();
    var code, first, index := 0, 0, 0;
    DecodeStart(lengths, isCodeLengths, bits);
    for len := 1 to MAX_BITS + 1
      invariant br.Valid() && len - 1 <= |bits| && br.Rest() == bits[len - 1..]
      invariant code == 2 * MsbValue(bits[..len - 1])
      invariant first == NextCode(lengths, len) && first <= code
      invariant index == Offset(lengths, len)
      invariant NoCodeBelow(lengths, bits, len)
    {
      var bit := br.Bit();
      if bit < 0 {
        DecodeNone(lengths, bits, len);
        return -1;
      }
      OneMoreBit(bits, len);
      RangeStep(h, lengths, len);
      code := code + bit;
      var count := h.counts[len];
      if code - first < count {
        ghost var s := DecodeHit(lengths, isCodeLengths, h, bits, len);
        return h.symbols[index + (code - first)];
      }
      DecodeMiss(lengths, bits, len);
      index := index + count;
      first := 2 * (first + count);
      code := 2 * code;
    }
    DecodeNone(lengths, bits, MAX_BITS + 1);
    return -1;
  }

  // ----- trees -----

  method BuildFixedTrees() returns (lit: HuffTree, dist: HuffTree)
    ensures TableOf(lit, FixedTrees().lit) && TableOf(dist, FixedTrees().dist)
  {
    FixedTreesOk();
    var litLengths := new nat[288];
    var i := 0;
    while i < 144
      invariant 0 <= i <= 144 && forall k | 0 <= k < i :: litLengths[k] == 8
    {
      litLengths[i], i := 8, i + 1;
    }
    while i < 256
      invariant 144 <= i <= 256 && forall k | 0 <= k < i :: litLengths[k] == if k < 144 then 8 else 9
    {
      litLengths[i], i := 9, i + 1;
    }
    while i < 280
      invariant 256 <= i <= 280
      invariant forall k | 0 <= k < i :: litLengths[k] == if k < 144 then 8 else if k < 256 then 9 else 7
    {
      litLengths[i], i := 7, i + 1;
    }
    while i < 288
      invariant 280 <= i <= 288
      invariant forall k | 0 <= k < i ::
                litLengths[k] == if k < 144 then 8 else if k < 256 then 9 else if k < 280 then 7 else 8
    {
      litLengths[i], i := 8, i + 1;
    }
    assert litLengths[..] == FixedLit();
    var distLengths := new nat[32](_ => 5);
    assert distLengths[..] == FixedDist();
    var ok;
    ok, lit := HuffBuild(litLengths[..], false);
    ok, dist := HuffBuild(distLengths[..], false);
  }

  /** Appends a run of equal lengths, refusing to go past `total`. */
  method FillRun(lengths: array<nat>, n: nat, total: nat, rep: nat, value: nat) returns (ok: bool)
    requires n <= total <= lengths.Length
    modifies lengths
    ensures ok == (n + rep <= total)
    ensures ok ==> lengths[..n + rep] == old(lengths[..n]) + Repeat(rep, value)
  {
    for i := 0 to rep
      invariant n + i <= total
      invariant lengths[..n] == old(lengths[..n])
      invariant forall k | n <= k < n + i :: lengths[k] == value
    {
      if n + i >= total {
        return false;
      }
      lengths[n + i] := value;
    }
    ok := true;
  }

  ghost function PrependFields(sent: seq<nat>, p: Parsed<seq<nat>>): Parsed<seq<nat>> {
    match p
    case NoParse => NoParse
    case Got(v, r) => Got(sent + v, r)
  }

  /** The code-length code lengths, stored by symbol. */
  method ReadClLengths(br: BitReader, hclen: nat) returns (ok: bool, cl: seq<nat>)
    requires br.Valid() && hclen <= 19
    modifies br
    ensures br.Valid()
    ensures var p := ReadFields(hclen, 3, old(br.Rest()));
            if ok then p.Got? && cl == ClLengths(p.value) && p.rest == br.Rest() else p.NoParse?
  {
    hide *;
    var table := NoLengths();
    ghost var sent: seq<nat> := [];
    ghost var goal := ReadFields(hclen, 3, br.Rest());
    NoFieldsYet(goal);
    for i := 0 to hclen
      invariant br.Valid() && |sent| == i && table[..] == ClLengths(sent)
      invariant goal == PrependFields(sent, ReadFields(hclen - i, 3, br.Rest()))
    {
      ghost var before := br.Rest();
      var v := br.Bits(3);
      if v < 0 {
        NoMoreFields(hclen - i, before, sent);
        return false, [];
      }
      StoreLength(table, sent, i, v);
      FieldsStep(hclen - i, v, before, sent, br.Rest());
      sent := sent + [v];
    }
    AllFields(sent, br.Rest());
    return true, table[..];
  }

  method NoLengths() returns (table: array<nat>)
    ensures fresh(table) && table.Length == 19 && table[..] == ClLengths([])
  {
    table := new nat[19](_ => 0);
    assert table[..] == Repeat(19, 0);
  }

  lemma NoFieldsYet(goal: Parsed<seq<nat>>)
    ensures goal == PrependFields([], goal)
  {
    if goal.Got? {
      assert [] + goal.value == goal.value;
    }
  }

  lemma NoMoreFields(n: nat, bits: seq<bool>, sent: seq<nat>)
    requires n > 0 && TakeField(bits, 3).NoParse?
    ensures PrependFields(sent, ReadFields(n, 3, bits)) == NoParse
  {
  }

  lemma AllFields(sent: seq<nat>, bits: seq<bool>)
    ensures PrependFields(sent, ReadFields(0, 3, bits)) == Got(sent, bits)
  {
    assert sent + [] == sent;
  }

  /** The `i`-th length sent goes to the `i`-th symbol of the permutation. */
  method StoreLength(table: array<nat>, ghost sent: seq<nat>, i: nat, v: nat)
    requires table.Length == 19 && i == |sent| < 19 && table[..] == ClLengths(sent)
    modifies table
    ensures table[..] == ClLengths(sent + [v])
  {
    assert (sent + [v])[..|sent|] == sent;
    table[CLC_ORDER[i]] := v;
  }

  lemma FieldsStep(n: nat, v: nat, before: seq<bool>, sent: seq<nat>, after: seq<bool>)
    requires n > 0 && TakeField(before, 3) == Got(v, after)
    ensures PrependFields(sent, ReadFields(n, 3, before)) == PrependFields(sent + [v], ReadFields(n - 1, 3, after))
  {
    var p := ReadFields(n - 1, 3, after);
    if p.Got? {
      assert sent + ([v] + p.value) == (sent + [v]) + p.value;
    }
  }

  lemma StepSingle(cl: seq<nat>, total: nat, bits: seq<bool>, done: seq<nat>)
    requires |done| < total && Decode(cl, bits).Got? && Decode(cl, bits).value < 16
    ensures var d := Decode(cl, bits);
            ReadOps(cl, total, bits, done) == ReadOps(cl, total, d.rest, done + [d.value])
  {
    hide Decode;
    var d := Decode(cl, bits);
    assert TakeField(d.rest, 0) == Got(0, d.rest);
    assert NextOp(cl, bits) == Got(Single(d.value), d.rest);
  }

  lemma StepFails(cl: seq<nat>, total: nat, bits: seq<bool>, done: seq<nat>)
    requires |done| < total
    requires var d := Decode(cl, bits);
             d.NoParse? || TakeField(d.rest, OpExtraWidth(d.value)).NoParse? || (d.value == 16 && done == [])
    ensures ReadOps(cl, total, bits, done) == NoParse
  {
    hide Decode, TakeField;
  }

  /** What a run symbol, with the bits that follow it, does to the lengths so far. */
  function RunOf(sym: nat, bits: seq<bool>, done: seq<nat>, total: nat): Parsed<seq<nat>>
    requires 16 <= sym <= 18
  {
    match TakeField(bits, OpExtraWidth(sym))
    case NoParse => NoParse
    case Got(extra, rest) =>
      var op := OpOf(sym, extra);
      if !op.Applies(done) || |done| + op.Span() > total then NoParse else Got(op.Apply(done), rest)
  }

  lemma StepRun(cl: seq<nat>, total: nat, bits: seq<bool>, done: seq<nat>)
    requires |done| < total && Decode(cl, bits).Got? && 16 <= Decode(cl, bits).value <= 18
    ensures var d := Decode(cl, bits);
            var r := RunOf(d.value, d.rest, done, total);
            && (r.Got? ==> |r.value| <= total)
            && ReadOps(cl, total, bits, done) == if r.NoParse? then NoParse else ReadOps(cl, total, r.rest, r.value)
  {
    hide Decode, TakeField;
  }

  lemma NothingToRead(cl: seq<nat>, total: nat, bits: seq<bool>, done: seq<nat>)
    requires |done| == total
    ensures ReadOps(cl, total, bits, done) == Got(done, bits)
  {
  }

  /** A run of the last length or of zeros. */
  method ReadRun(br: BitReader, sym: nat, lengths: array<nat>, n: nat, total: nat) returns (ok: bool, next: nat)
    requires br.Valid() && 16 <= sym <= 18 && n < total <= lengths.Length
    modifies br, lengths
    ensures br.Valid() && n <= next <= total
    ensures RunOf(sym, old(br.Rest()), old(lengths[..n]), total)
         == if ok then Got(lengths[..next], br.Rest()) else NoParse
    ensures ok ==> n < next
  {
    hide TakeField, Pow2, br.Valid, br.Rest;
    next := n;
    if sym == 16 && n == 0 {
      return false, n;
    }
    ghost var bits := br.Rest();
    var rep := br.Bits(if sym == 16 then 2 else if sym == 17 then 3 else 7);
    if rep < 0 {
      return false, n;
    }
    FieldFits(bits, OpExtraWidth(sym));
    var value := if sym == 16 then lengths[n - 1] else 0;
    rep := rep + if sym == 18 then 11 else 3;
    ok := FillRun(lengths, n, total, rep, value);
    if ok {
      next := n + rep;
    }
  }

  /** The lit/len and distance code lengths, run by run. */
  method ReadCodeLengths(br: BitReader, tree: HuffTree, ghost cl: seq<nat>, total: nat) returns (ok: bool, r: seq<nat>)
    requires br.Valid() && Acceptable(cl, true) && TableOf(tree, cl) && |cl| == 19
    modifies br
    ensures br.Valid()
    ensures ReadOps(cl, total, old(br.Rest()), []) == if ok then Got(r, br.Rest()) else NoParse
  {
    hide TakeField, Decode, Acceptable, TableOf, ReadOps, OpOf, OpExtraWidth, br.Valid, br.Rest;
    var lengths := new nat[total](_ => 0);
    ghost var goal := ReadOps(cl, total, br.Rest(), []);
    var n := 0;
    while n < total
      invariant br.Valid() && n <= total
      invariant goal == ReadOps(cl, total, br.Rest(), lengths[..n])
      decreases total - n
    {
      ghost var done, bits := lengths[..n], br.Rest();
      var sym := HuffDecode(br, tree, cl, true);
      if sym < 0 {
        StepFails(cl, total, bits, done);
        return false, [];
      }
      if sym < 16 {
        StepSingle(cl, total, bits, done);
        lengths[n] := sym;
        n := n + 1;
        assert lengths[..n] == done + [sym];
      } else {
        StepRun(cl, total, bits, done);
        ok, n := ReadRun(br, sym, lengths, n, total);
        if !ok {
          return false, [];
        }
      }
    }
    NothingToRead(cl, total, br.Rest(), lengths[..n]);
    assert lengths[..n] == lengths[..];
    return true, lengths[..];
  }

  lemma CountFields(bits: seq<bool>)
    requires |bits| >= 14
    ensures TakeField(bits, 5) == Got(LsbValue(bits[..5]), bits[5..])
    ensures TakeField(bits[5..], 5) == Got(LsbValue(bits[5..10]), bits[10..])
    ensures TakeField(bits[10..], 4) == Got(LsbValue(bits[10..14]), bits[14..])
  {
    assert bits[5..][..5] == bits[5..10] && bits[5..][5..] == bits[10..];
    assert bits[10..][..4] == bits[10..14] && bits[10..][4..] == bits[14..];
  }

  /** Everything of a dynamic header after its three counts. */
  method BuildFromLengths(br: BitReader, hlit: nat, hdist: nat, hclen: nat)
    returns (ok: bool, lit: HuffTree, dist: HuffTree, ghost t: Trees)
    requires br.Valid() && hclen <= 19 && END_OF_BLOCK < hlit
    modifies br
    ensures br.Valid()
    ensures ReadLengths(hlit, hdist, hclen, old(br.Rest())) == if ok then Got(t, br.Rest()) else NoParse
    ensures ok ==> TreesOk(t) && TableOf(lit, t.lit) && TableOf(dist, t.dist)
  {
    hide ReadFields, ReadOps, ClLengths, Acceptable, TableOf, LsbFirst, BytesToBits;
    lit, dist, t := HuffTree([], []), HuffTree([], []), Trees([], []);
    var cl, lengths, clTree;
    ok, cl := ReadClLengths(br, hclen);
    if !ok {
      return;
    }
    ok, clTree := HuffBuild(cl, true);
    if !ok {
      return;
    }
    ok, lengths := ReadCodeLengths(br, clTree, cl, hlit + hdist);
    if !ok {
      return;
    }
    if lengths[END_OF_BLOCK] == 0 {
      ok := false;
      return;
    }
    t := TreesOf(lengths, hlit);
    ok, lit := HuffBuild(lengths[..hlit], false);
    if !ok {
      return;
    }
    ok, dist := HuffBuild(lengths[hlit..], false);
  }

  method BuildDynamicTrees(br: BitReader) returns (ok: bool, lit: HuffTree, dist: HuffTree, ghost t: Trees)
    requires br.Valid()
    modifies br
    ensures br.Valid()
    ensures ReadTrees(old(br.Rest())) == if ok then Got(t, br.Rest()) else NoParse
    ensures ok ==> TreesOk(t) && TableOf(lit, t.lit) && TableOf(dist, t.dist)
  {
    hide ReadLengths, Acceptable, TableOf, LsbFirst, BytesToBits;
    ghost var bits := br.Rest();
    var hlitField := br.Bits(5);
    var hdistField := br.Bits(5);
    var hclenField := br.Bits(4);
    ok, lit, dist, t := false, HuffTree([], []), HuffTree([], []), Trees([], []);
    if hlitField < 0 || hdistField < 0 || hclenField < 0 {
      return;
    }
    CountFields(bits);
    var hlit, hdist, hclen := hlitField + 257, hdistField + 1, hclenField + 4;
    if hlit > 286 || hdist > 30 {
      return;
    }
    assert Pow2(4) == 16;
    ok, lit, dist, t := BuildFromLengths(br, hlit, hdist, hclen);
  }

  // ----- block bodies -----

  /** Copies byte by byte, so that a source overlapping the destination repeats. */
  method CopyFromBack(out: array<Byte>, outLen: nat, distance: nat, length: nat)
    requires 0 < distance <= outLen && outLen + length <= out.Length
    modifies out
    ensures out[..outLen + length] == CopyBack(old(out[..outLen]), distance, length)
  {
    hide CopyBack;
    ghost var goal := CopyBack(out[..outLen], distance, length);
    for i := 0 to length
      invariant goal == CopyBack(out[..outLen + i], distance, length - i)
    {
      var at := outLen + i;
      CopyStep(out[..at], distance, length - i);
      ghost var next := out[..at] + [out[at - distance]];
      out[at] := out[at - distance];
      assert out[..at + 1] == next;
    }
    NothingToCopy(out[..outLen + length], distance);
  }

  lemma NothingToCopy(done: seq<Byte>, distance: nat)
    requires 0 < distance <= |done|
    ensures CopyBack(done, distance, 0) == done
  {
  }

  lemma FieldFits(bits: seq<bool>, n: nat)
    ensures TakeField(bits, n).Got? ==> TakeField(bits, n).value < Pow2(n)
  {
  }

  /** The next item of a body, without acting on it; `kind` is -1 on an error, 0 at the end. */
  method ReadSymbol(br: BitReader, lit: HuffTree, dist: HuffTree, ghost t: Trees) returns (kind: int, item: Item)
    requires br.Valid() && TreesOk(t) && TableOf(lit, t.lit) && TableOf(dist, t.dist)
    modifies br
    ensures br.Valid() && -1 <= kind <= 1
    ensures kind == 1 ==> item.Ok()
    ensures NextSymbol(t, old(br.Rest()))
         == if kind < 0 then NoParse else Got(if kind == 0 then End else Next(item), br.Rest())
  {
    hide TakeField, Decode, Acceptable, TableOf, LsbFirst, BytesToBits, Pow2;
    item := Literal(0);
    var sym := HuffDecode(br, lit, t.lit, false);
    if sym < 0 {
      return -1, item;
    }
    if sym < 256 {
      return 1, Literal(sym);
    } else if sym == END_OF_BLOCK {
      return 0, item;
    }
    var lsym := sym - 257;
    if lsym >= LENGTH_CODES {
      return -1, item;
    }
    FieldFits(br.Rest(), LengthExtra(lsym));
    var extra := br.Bits(LENGTH_EXTRA[lsym]);
    if extra < 0 {
      return -1, item;
    }
    var dsym := HuffDecode(br, dist, t.dist, false);
    if dsym < 0 || dsym >= DIST_CODES {
      return -1, item;
    }
    FieldFits(br.Rest(), DistExtra(dsym));
    var dextra := br.Bits(DIST_EXTRA[dsym]);
    if dextra < 0 {
      return -1, item;
    }
    return 1, Copy(lsym, extra, dsym, dextra);
  }

  /** Acts on one item: the output grows by it, or there is nothing to copy from, or no room. */
  method PutItem(out: array<Byte>, outLen: nat, item: Item) returns (st: Status, next: nat)
    requires item.Ok() && outLen <= out.Length
    modifies out
    ensures outLen <= next <= out.Length
    ensures var done := old(out[..outLen]);
            if !item.Applies(done) then st == ErrInvalid && out[..next] == done
            else if outLen + item.Length() > out.Length then st == ErrNoMemory && out[..next] == done
            else st == Ok && out[..next] == item.Apply(done)
  {
    hide CopyBack, Pow2;
    match item {
      case Literal(b) =>
        if outLen >= out.Length {
          return ErrNoMemory, outLen;
        }
        out[outLen] := b;
        next := outLen + 1;
      case Copy(lsym, lextra, dsym, dextra) =>
        var length, distance := LENGTH_BASE[lsym] + lextra, DIST_BASE[dsym] + dextra;
        if distance == 0 || distance > outLen {
          return ErrInvalid, outLen;
        }
        if length > out.Length - outLen {
          return ErrNoMemory, outLen;
        }
        CopyFromBack(out, outLen, distance, length);
        next := outLen + length;
    }
    st := Ok;
  }

  /** Acting on an item and reading on. */
  ghost function ItemThen(t: Trees, item: Item, rest: seq<bool>, done: seq<Byte>, cap: nat): Outcome {
    if !item.Applies(done) then Failed(ErrInvalid, done)
    else if |done| + item.Length() > cap then Failed(ErrNoMemory, done)
    else ReadBody(t, rest, item.Apply(done), cap)
  }

  /** One symbol of a body. */
  lemma BodyStep(t: Trees, bits: seq<bool>, done: seq<Byte>, cap: nat)
    ensures var p := NextSymbol(t, bits);
            && (p.NoParse? ==> ReadBody(t, bits, done, cap) == Failed(ErrInvalid, done))
            && (p.Got? && p.value.End? ==> ReadBody(t, bits, done, cap) == Done(done, p.rest))
            && (p.Got? && p.value.Next? ==>
               |p.rest| < |bits| && ReadBody(t, bits, done, cap) == ItemThen(t, p.value.item, p.rest, done, cap))
  {
    hide NextSymbol, CopyBack;
  }

  method InflateBlockData(br: BitReader, lit: HuffTree, dist: HuffTree, ghost t: Trees, out: array<Byte>, outLen0: nat)
    returns (st: Status, outLen: nat)
    requires br.Valid() && TreesOk(t) && TableOf(lit, t.lit) && TableOf(dist, t.dist) && outLen0 <= out.Length
    modifies br, out
    ensures br.Valid() && outLen <= out.Length
    ensures ReadBody(t, old(br.Rest()), old(out[..outLen0]), out.Length)
         == if st == Ok then Done(out[..outLen], br.Rest()) else Failed(st, out[..outLen])
  {
    hide NextSymbol, Acceptable, TableOf, TreesOk, ReadBody, br.Valid, br.Rest, Item.Applies, Item.Apply, Item.Length,
         Item.Ok;
    outLen := outLen0;
    ghost var goal := ReadBody(t, br.Rest(), out[..outLen0], out.Length);
    while true
      invariant br.Valid() && outLen <= out.Length
      invariant goal == ReadBody(t, br.Rest(), out[..outLen], out.Length)
      decreases |br.Rest()|
    {
      BodyStep(t, br.Rest(), out[..outLen], out.Length);
      var kind, item := ReadSymbol(br, lit, dist, t);
      if kind < 0 {
        return ErrInvalid, outLen;
      } else if kind == 0 {
        return Ok, outLen;
      }
      st, outLen := PutItem(out, outLen, item);
      if st != Ok {
        return;
      }
    }
  }

  // ----- whole streams -----

  method CopyIn(out: array<Byte>, outLen: nat, data: seq<Byte>)
    requires outLen + |data| <= out.Length
    modifies out
    ensures out[..outLen + |data|] == old(out[..outLen]) + data
  {
    for i := 0 to |data|
      invariant out[..outLen + i] == old(out[..outLen]) + data[..i]
    {
      out[outLen + i] := data[i];
    }
  }

  /** A stored block: its length field, checked against the complement, then that many bytes. */
  method InflateStored(br: BitReader, out: array<Byte>, outLen0: nat) returns (st: Status, outLen: nat)
    requires br.Valid() && outLen0 <= out.Length
    modifies br, out
    ensures br.Valid() && outLen <= out.Length
    ensures ReadContents(0, old(br.Rest()), old(out[..outLen0]), out.Length)
         == if st == Ok then Done(out[..outLen], br.Rest()) else Failed(st, out[..outLen])
  {
    hide BytesToBits, BitsToBytes, LsbFirst;
    outLen := outLen0;
    br.Align();
    var bytes := br.data[br.bytePos..];
    PackUnpacked(bytes);
    if |bytes| < 4 {
      return ErrInvalid, outLen;
    }
    var len, nlen := LittleEndian16(bytes[0], bytes[1]), LittleEndian16(bytes[2], bytes[3]);
    if 65535 - len != nlen {
      return ErrInvalid, outLen;
    }
    if len > |bytes| - 4 {
      return ErrInvalid, outLen;
    }
    if len > out.Length - outLen {
      return ErrNoMemory, outLen;
    }
    CopyIn(out, outLen, bytes[4..4 + len]);
    outLen := outLen + len;
    br.bytePos := br.bytePos + 4 + len;
    assert br.data[br.bytePos..] == bytes[4 + len..];
    br.RestWhenAligned();
    st := Ok;
  }

  lemma ReservedType(btype: nat, bits: seq<bool>, out: seq<Byte>, cap: nat)
    requires btype > 2
    ensures ReadContents(btype, bits, out, cap) == Failed(ErrInvalid, out)
  {
  }

  /** A block under the fixed or a transmitted code. */
  method InflateCompressed(br: BitReader, btype: int, out: array<Byte>, outLen0: nat) returns (st: Status, outLen: nat)
    requires br.Valid() && outLen0 <= out.Length && (btype == 1 || btype == 2)
    modifies br, out
    ensures br.Valid() && outLen <= out.Length
    ensures ReadContents(btype, old(br.Rest()), old(out[..outLen0]), out.Length)
         == if st == Ok then Done(out[..outLen], br.Rest()) else Failed(st, out[..outLen])
  {
    hide ReadBody, ReadTrees, TableOf, TreesOk, LsbFirst, BytesToBits, FixedTrees;
    var lit, dist;
    ghost var t;
    if btype == 1 {
      FixedTreesOk();
      lit, dist := BuildFixedTrees();
      t := FixedTrees();
    } else {
      var ok;
      ok, lit, dist, t := BuildDynamicTrees(br);
      if !ok {
        return ErrInvalid, outLen0;
      }
    }
    st, outLen := InflateBlockData(br, lit, dist, t, out, outLen0);
  }

  method InflateRaw(data: seq<Byte>, out: array<Byte>) returns (st: Status, outLen: nat, inUsed: nat)
    modifies out
    ensures outLen <= out.Length
    ensures match ReadStream(BytesToBits(data), [], out.Length)
            case Done(o, rest) => st == Ok && out[..outLen] == o && inUsed == |data| - |rest| / 8
            case Failed(s, partial) => st == s && out[..outLen] == partial && inUsed == 0
  {
    hide ReadContents, BytesToBits, LsbFirst, TableOf, TreesOk;
    var br := new BitReader(data);
    ghost var goal := ReadStream(br.Rest(), [], out.Length);
    st, outLen, inUsed := Ok, 0, 0;
    assert out[..0] == [];
    while true
      invariant br.Valid() && fresh(br) && br.data == data && outLen <= out.Length && inUsed == 0
      invariant goal == ReadStream(br.Rest(), out[..outLen], out.Length)
      decreases |br.Rest()|
    {
      ghost var bits, done := br.Rest(), out[..outLen];
      var bfinal := br.Bit();
      var btype := br.Bits(2);
      if bfinal < 0 || btype < 0 {
        st := ErrInvalid;
        return;
      }
      assert bits[1..][..2] == bits[1..3] && bits[1..][2..] == bits[3..];
      if btype == 0 {
        st, outLen := InflateStored(br, out, outLen);
      } else if btype == 1 || btype == 2 {
        st, outLen := InflateCompressed(br, btype, out, outLen);
      } else {
        st := ErrInvalid;
        ReservedType(btype, br.Rest(), done, out.Length);
      }
      if st != Ok {
        return;
      }
      if bfinal != 0 {
        inUsed := br.bytePos;
        return;
      }
    }
  }
}
