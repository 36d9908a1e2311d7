/** The inflater as a parser of bit strings, and the proof that it reads exactly the grammar:
    every written stream is read back, and whatever is read was written. */
module InflateSpec {
  import opened Bits
  import opened Huffman
  import opened DeflateFormat
  import opened Statuses

  datatype Outcome = Done(out: seq<Byte>, rest: seq<bool>) | Failed(status: Status, partial: seq<Byte>)

  // ----- fields -----

  function TakeField(bits: seq<bool>, n: nat): (p: Parsed<nat>) {
    if |bits| < n then NoParse else Got(LsbValue(bits[..n]), bits[n..])
  }

  lemma TakeFieldSound(bits: seq<bool>, n: nat)
    requires TakeField(bits, n).Got?
    ensures var p := TakeField(bits, n); p.value < Pow2(n) && bits == LsbFirst(p.value, n) + p.rest
  {
    hide LsbFirst, LsbValue, Pow2;
    LsbFieldOfValue(bits[..n]);
    assert bits == bits[..n] + bits[n..];
  }

  lemma TakeFieldComplete(v: nat, n: nat, rest: seq<bool>)
    requires v < Pow2(n)
    ensures TakeField(LsbFirst(v, n) + rest, n) == Got(v, rest)
  {
    hide LsbFirst, LsbValue, Pow2;
    LsbValueOfField(v, n);
    var bits := LsbFirst(v, n) + rest;
    assert bits[..n] == LsbFirst(v, n);
    assert bits[n..] == rest;
  }

  lemma DecodeSound(lengths: seq<nat>, bits: seq<bool>)
    requires Decode(lengths, bits).Got?
    ensures var p := Decode(lengths, bits);
            Coded(lengths, p.value) && bits == Code(lengths, p.value) + p.rest && |p.rest| < |bits|
  {
  }

  // ----- block bodies -----

  datatype Symbol = End | Next(item: Item)

  /** The copy whose length symbol has just been read. */
  ghost function NextCopy(t: Trees, lsym: nat, bits: seq<bool>): (p: Parsed<Symbol>)
    requires lsym < LENGTH_CODES
    ensures p.Got? ==> |p.rest| <= |bits|
  {
    match TakeField(bits, LengthExtra(lsym))
    case NoParse => NoParse
    case Got(lextra, r1) =>
      match Decode(t.dist, r1)
      case NoParse => NoParse
      case Got(dsym, r2) =>
        if dsym >= DIST_CODES then NoParse
        else match TakeField(r2, DistExtra(dsym))
          case NoParse => NoParse
          case Got(dextra, r3) => Got(Next(Copy(lsym, lextra, dsym, dextra)), r3)
  }

  ghost function NextSymbol(t: Trees, bits: seq<bool>): (p: Parsed<Symbol>)
    ensures p.Got? ==> |p.rest| < |bits|
  {
    match Decode(t.lit, bits)
    case NoParse => NoParse
    case Got(sym, r) =>
      if sym < 256 then Got(Next(Literal(sym)), r)
      else if sym == END_OF_BLOCK then Got(End, r)
      else if sym - 257 >= LENGTH_CODES then NoParse
      else NextCopy(t, sym - 257, r)
  }

  /** Reads items until the end-of-block code, an error, or a full output. */
  ghost function ReadBody(t: Trees, bits: seq<bool>, out: seq<Byte>, cap: nat): (o: Outcome)
    ensures o.Done? ==> |o.rest| <= |bits|
    decreases |bits|
  {
    match NextSymbol(t, bits)
    case NoParse => Failed(ErrInvalid, out)
    case Got(End, r) => Done(out, r)
    case Got(Next(item), r) =>
      if !item.Applies(out) then Failed(ErrInvalid, out)
      else if |out| + item.Length() > cap then Failed(ErrNoMemory, out)
      else ReadBody(t, r, item.Apply(out), cap)
  }

  lemma NextCopySound(t: Trees, lsym: nat, bits: seq<bool>)
    requires lsym < LENGTH_CODES && NextCopy(t, lsym, bits).Got?
    ensures var p := NextCopy(t, lsym, bits);
            && p.value.Next? && p.value.item.Copy? && p.value.item.lsym == lsym && p.value.item.Ok()
            && Coded(t.dist, p.value.item.dsym)
            && var c := p.value.item;
               bits == (LsbFirst(c.lextra, LengthExtra(lsym))
                        + (Code(t.dist, c.dsym) + LsbFirst(c.dextra, DistExtra(c.dsym)))) + p.rest
  {
    hide LsbFirst, LsbValue, Code, Pow2;
    var p1 := TakeField(bits, LengthExtra(lsym));
    TakeFieldSound(bits, LengthExtra(lsym));
    var p2 := Decode(t.dist, p1.rest);
    DecodeSound(t.dist, p1.rest);
    TakeFieldSound(p2.rest, DistExtra(p2.value));
    var p3 := TakeField(p2.rest, DistExtra(p2.value));
    var a, b, c := LsbFirst(p1.value, LengthExtra(lsym)), Code(t.dist, p2.value),
      LsbFirst(p3.value, DistExtra(p2.value));
    ConcatAssoc(b, c, p3.rest);
    ConcatAssoc(a, b + c, p3.rest);
  }

  lemma NextSymbolSound(t: Trees, bits: seq<bool>)
    requires NextSymbol(t, bits).Got?
    ensures var p := NextSymbol(t, bits);
            match p.value
            case End => Coded(t.lit, END_OF_BLOCK) && bits == Code(t.lit, END_OF_BLOCK) + p.rest
            case Next(item) => ItemCoded(t, item) && bits == ItemBits(t, item) + p.rest
  {
    hide Code, LsbFirst, Acceptable, NextCopy, Pow2;
    DecodeSound(t.lit, bits);
    var sym := Decode(t.lit, bits).value;
    if sym > END_OF_BLOCK {
      NextCopySound(t, sym - 257, Decode(t.lit, bits).rest);
    }
  }

  lemma NextCopyComplete(t: Trees, item: Item, rest: seq<bool>)
    requires TreesOk(t) && item.Copy? && ItemCoded(t, item)
    ensures NextCopy(t, item.lsym, LsbFirst(item.lextra, LengthExtra(item.lsym))
                     + (Code(t.dist, item.dsym) + (LsbFirst(item.dextra, DistExtra(item.dsym)) + rest)))
         == Got(Next(item), rest)
  {
    var r2 := LsbFirst(item.dextra, DistExtra(item.dsym)) + rest;
    var r1 := Code(t.dist, item.dsym) + r2;
    TakeFieldComplete(item.lextra, LengthExtra(item.lsym), r1);
    DecodeCode(t.dist, false, item.dsym, r2);
    TakeFieldComplete(item.dextra, DistExtra(item.dsym), rest);
  }

  lemma ConcatAssoc4(a: seq<bool>, b: seq<bool>, c: seq<bool>, d: seq<bool>, e: seq<bool>)
    ensures (a + (b + (c + d))) + e == a + (b + (c + (d + e)))
  {
    ConcatAssoc(c, d, e);
    ConcatAssoc(b, c + d, e);
    ConcatAssoc(a, b + (c + d), e);
  }

  lemma NextItemComplete(t: Trees, item: Item, rest: seq<bool>)
    requires TreesOk(t) && ItemCoded(t, item)
    ensures NextSymbol(t, ItemBits(t, item) + rest) == Got(Next(item), rest)
  {
    hide Code, LsbFirst, Acceptable, NextCopy, Pow2;
    match item
    case Literal(b) => DecodeCode(t.lit, false, b, rest);
    case Copy(ls, le, ds, de) =>
      var tail := LsbFirst(le, LengthExtra(ls)) + (Code(t.dist, ds) + (LsbFirst(de, DistExtra(ds)) + rest));
      DecodeCode(t.lit, false, 257 + ls, tail);
      NextCopyComplete(t, item, rest);
      ConcatAssoc4(Code(t.lit, 257 + ls), LsbFirst(le, LengthExtra(ls)), Code(t.dist, ds), LsbFirst(de, DistExtra(ds)),
        rest);
  }

  lemma NextEndComplete(t: Trees, rest: seq<bool>)
    requires TreesOk(t) && Coded(t.lit, END_OF_BLOCK)
    ensures NextSymbol(t, Code(t.lit, END_OF_BLOCK) + rest) == Got(End, rest)
  {
    DecodeCode(t.lit, false, END_OF_BLOCK, rest);
  }

  lemma WriteBodyGrows(t: Trees, items: seq<Item>, out: seq<Byte>)
    requires WriteBody(t, items, out).Written?
    ensures |out| <= |WriteBody(t, items, out).out|
  {
  }

  /** Every written body is read back, or does not fit. */
  lemma {:induction false} BodyComplete(t: Trees, items: seq<Item>, out: seq<Byte>, rest: seq<bool>, cap: nat)
    requires TreesOk(t) && WriteBody(t, items, out).Written?
    ensures var w := WriteBody(t, items, out);
            && (|w.out| <= cap ==> ReadBody(t, w.bits + rest, out, cap) == Done(w.out, rest))
            && (|out| <= cap < |w.out| ==> var o := ReadBody(t, w.bits + rest, out, cap);
               o.Failed? && o.status == ErrNoMemory)
    decreases |items|
  {
    hide Code, Acceptable, ItemBits, NextSymbol, CopyBack;
    var w := WriteBody(t, items, out);
    WriteBodyGrows(t, items, out);
    if items == [] {
      NextEndComplete(t, rest);
    } else {
      var item, w' := items[0], WriteBody(t, items[1..], items[0].Apply(out));
      NextItemComplete(t, item, w'.bits + rest);
      assert w.bits + rest == ItemBits(t, item) + (w'.bits + rest);
      WriteBodyGrows(t, items[1..], item.Apply(out));
      BodyComplete(t, items[1..], item.Apply(out), rest, cap);
    }
  }

  /** Whatever is read as a body was written as one. */
  lemma {:induction false} BodySound(t: Trees, bits: seq<bool>, out: seq<Byte>, cap: nat) returns (items: seq<Item>)
    requires ReadBody(t, bits, out, cap).Done? && |out| <= cap
    ensures var o := ReadBody(t, bits, out, cap);
            var w := WriteBody(t, items, out);
            |o.out| <= cap && w.Written? && w.out == o.out && bits == w.bits + o.rest
    decreases |bits|
  {
    hide Code, Acceptable, ItemBits, NextSymbol, CopyBack;
    NextSymbolSound(t, bits);
    var p := NextSymbol(t, bits);
    if p.value.End? {
      items := [];
    } else {
      var tail := BodySound(t, p.rest, p.value.item.Apply(out), cap);
      items := [p.value.item] + tail;
      assert items[1..] == tail;
      ConcatAssoc(ItemBits(t, p.value.item), WriteBody(t, tail, p.value.item.Apply(out)).bits,
        ReadBody(t, bits, out, cap).rest);
    }
  }

  // ----- the dynamic header -----

  ghost function ReadFields(n: nat, width: nat, bits: seq<bool>): (p: Parsed<seq<nat>>)
    ensures p.Got? ==> |p.value| == n && |p.rest| <= |bits|
  {
    if n == 0 then Got([], bits)
    else match TakeField(bits, width)
      case NoParse => NoParse
      case Got(v, r) =>
        match ReadFields(n - 1, width, r)
        case NoParse => NoParse
        case Got(vs, r') => Got([v] + vs, r')
  }

  lemma {:induction false} FieldsSound(n: nat, width: nat, bits: seq<bool>)
    requires ReadFields(n, width, bits).Got?
    ensures var p := ReadFields(n, width, bits);
            bits == FieldsBits(p.value, width) + p.rest && forall i | 0 <= i < n :: p.value[i] < Pow2(width)
  {
    hide LsbFirst, LsbValue, Pow2;
    if n > 0 {
      TakeFieldSound(bits, width);
      FieldsSound(n - 1, width, TakeField(bits, width).rest);
      var p := ReadFields(n, width, bits);
      assert p.value[1..] == ReadFields(n - 1, width, TakeField(bits, width).rest).value;
    }
  }

  lemma {:induction false} FieldsComplete(fields: seq<nat>, width: nat, rest: seq<bool>)
    requires forall i | 0 <= i < |fields| :: fields[i] < Pow2(width)
    ensures ReadFields(|fields|, width, FieldsBits(fields, width) + rest) == Got(fields, rest)
  {
    hide LsbFirst, TakeField, Pow2;
    if fields == [] {
    } else {
      var tail := FieldsBits(fields[1..], width) + rest;
      TakeFieldComplete(fields[0], width, tail);
      assert FieldsBits(fields, width) + rest == LsbFirst(fields[0], width) + tail;
      FieldsComplete(fields[1..], width, rest);
      assert fields == [fields[0]] + fields[1..];
    }
  }

  function OpExtraWidth(sym: nat): nat {
    if sym == 16 then 2 else if sym == 17 then 3 else if sym == 18 then 7 else 0
  }

  function OpOf(sym: nat, extra: nat): LengthOp {
    if sym == 16 then RepeatLast(extra)
    else if sym == 17 then ZerosShort(extra)
    else if sym == 18 then ZerosLong(extra)
    else Single(sym)
  }

  ghost function NextOp(cl: seq<nat>, bits: seq<bool>): (p: Parsed<LengthOp>)
    ensures p.Got? ==> |p.rest| < |bits|
  {
    match Decode(cl, bits)
    case NoParse => NoParse
    case Got(sym, r) =>
      if sym > 18 then NoParse
      else match TakeField(r, OpExtraWidth(sym))
        case NoParse => NoParse
        case Got(extra, r') => Got(OpOf(sym, extra), r')
  }

  /** Reads code lengths until there are `total` of them; a run may not go past. */
  ghost function ReadOps(cl: seq<nat>, total: nat, bits: seq<bool>, lengths: seq<nat>): (p: Parsed<seq<nat>>)
    requires |lengths| <= total
    ensures p.Got? ==> |p.value| == total && |p.rest| <= |bits|
    decreases |bits|
  {
    if |lengths| == total then Got(lengths, bits)
    else match NextOp(cl, bits)
      case NoParse => NoParse
      case Got(op, r) =>
        if !op.Applies(lengths) || |lengths| + op.Span() > total then NoParse
        else ReadOps(cl, total, r, op.Apply(lengths))
  }

  lemma NextOpSound(cl: seq<nat>, bits: seq<bool>)
    requires NextOp(cl, bits).Got?
    ensures var p := NextOp(cl, bits);
            && p.value.Ok() && Coded(cl, p.value.Symbol())
            && bits == Code(cl, p.value.Symbol()) + (p.value.ExtraBits() + p.rest)
  {
    DecodeSound(cl, bits);
    var d := Decode(cl, bits);
    TakeFieldSound(d.rest, OpExtraWidth(d.value));
  }

  lemma NextOpComplete(cl: seq<nat>, op: LengthOp, rest: seq<bool>)
    requires Acceptable(cl, true) && op.Ok() && Coded(cl, op.Symbol())
    ensures NextOp(cl, Code(cl, op.Symbol()) + (op.ExtraBits() + rest)) == Got(op, rest)
  {
    var sym := op.Symbol();
    DecodeCode(cl, true, sym, op.ExtraBits() + rest);
    var extra := if op.Single? then 0 else op.extra;
    assert Pow2(0) == 1;
    assert op.ExtraBits() == LsbFirst(extra, OpExtraWidth(sym));
    TakeFieldComplete(extra, OpExtraWidth(sym), rest);
  }

  lemma {:induction false} OpsComplete(cl: seq<nat>, ops: seq<LengthOp>, lengths: seq<nat>, total: nat, rest: seq<bool>)
    requires |lengths| <= total && Acceptable(cl, true) && WriteOps(cl, ops, lengths, total).Written?
    ensures var w := WriteOps(cl, ops, lengths, total);
            ReadOps(cl, total, w.bits + rest, lengths) == Got(w.out, rest)
    decreases |ops|
  {
    hide Code, Acceptable, NextOp, LsbFirst;
    var w := WriteOps(cl, ops, lengths, total);
    if ops == [] {
      assert w.bits + rest == rest;
    } else {
      var op := ops[0];
      var w' := WriteOps(cl, ops[1..], op.Apply(lengths), total);
      NextOpComplete(cl, op, w'.bits + rest);
      assert w.bits + rest == Code(cl, op.Symbol()) + (op.ExtraBits() + (w'.bits + rest));
      WriteOpsBound(cl, ops[1..], op.Apply(lengths), total);
      OpsComplete(cl, ops[1..], op.Apply(lengths), total, rest);
    }
  }

  lemma WriteOpsBound(cl: seq<nat>, ops: seq<LengthOp>, lengths: seq<nat>, total: nat)
    requires WriteOps(cl, ops, lengths, total).Written?
    ensures |lengths| <= total
  {
  }

  lemma {:induction false} OpsSound(cl: seq<nat>, total: nat, bits: seq<bool>, lengths: seq<nat>)
    returns (ops: seq<LengthOp>)
    requires |lengths| <= total && ReadOps(cl, total, bits, lengths).Got?
    ensures var p := ReadOps(cl, total, bits, lengths);
            var w := WriteOps(cl, ops, lengths, total);
            w.Written? && w.out == p.value && bits == w.bits + p.rest
    decreases |bits|
  {
    hide Code, Acceptable, NextOp, LsbFirst;
    if |lengths| == total {
      ops := [];
    } else {
      NextOpSound(cl, bits);
      var p := NextOp(cl, bits);
      var tail := OpsSound(cl, total, p.rest, p.value.Apply(lengths));
      ops := [p.value] + tail;
      assert ops[1..] == tail;
      var w' := WriteOps(cl, tail, p.value.Apply(lengths), total);
      ConcatAssoc(p.value.ExtraBits(), w'.bits, ReadOps(cl, total, bits, lengths).rest);
      ConcatAssoc(Code(cl, p.value.Symbol()), p.value.ExtraBits() + w'.bits, ReadOps(cl, total, bits, lengths).rest);
    }
  }

  /** Everything of a dynamic header after its three counts. */
  ghost function ReadLengths(hlit: nat, hdist: nat, hclen: nat, bits: seq<bool>): (p: Parsed<Trees>)
    requires hclen <= 19
    ensures p.Got? ==> |p.rest| <= |bits|
  {
    match ReadFields(hclen, 3, bits)
    case NoParse => NoParse
    case Got(sent, r) =>
      if !Acceptable(ClLengths(sent), true) then NoParse
      else match ReadOps(ClLengths(sent), hlit + hdist, r, [])
        case NoParse => NoParse
        case Got(lengths, r') =>
          if UsableLengths(lengths, hlit) then Got(TreesOf(lengths, hlit), r') else NoParse
  }

  ghost function ReadTrees(bits: seq<bool>): (p: Parsed<Trees>)
    ensures p.Got? ==> |p.rest| <= |bits|
  {
    if |bits| < 14 then NoParse
    else
      var hlit, hdist, hclen := LsbValue(bits[..5]) + 257, LsbValue(bits[5..10]) + 1, LsbValue(bits[10..14]) + 4;
      assert Pow2(4) == 16;
      if hlit > 286 || hdist > 30 then NoParse else ReadLengths(hlit, hdist, hclen, bits[14..])
  }

  lemma CountsSound(bits: seq<bool>)
    requires |bits| >= 14
    ensures bits == LsbFirst(LsbValue(bits[..5]), 5) + (LsbFirst(LsbValue(bits[5..10]), 5)
                    + (LsbFirst(LsbValue(bits[10..14]), 4) + bits[14..]))
  {
    LsbFieldOfValue(bits[..5]);
    LsbFieldOfValue(bits[5..10]);
    LsbFieldOfValue(bits[10..14]);
    assert bits == bits[..5] + (bits[5..10] + (bits[10..14] + bits[14..]));
  }

  lemma CountsComplete(a: nat, b: nat, c: nat, rest: seq<bool>)
    requires a < 32 && b < 32 && c < 16
    ensures var bits := LsbFirst(a, 5) + (LsbFirst(b, 5) + (LsbFirst(c, 4) + rest));
            && |bits| >= 14 && bits[14..] == rest
            && LsbValue(bits[..5]) == a && LsbValue(bits[5..10]) == b && LsbValue(bits[10..14]) == c
  {
    assert Pow2(4) == 16;
    assert Pow2(5) == 32;
    hide LsbFirst, LsbValue, Pow2;
    LsbValueOfField(a, 5);
    LsbValueOfField(b, 5);
    LsbValueOfField(c, 4);
    FourParts(LsbFirst(a, 5), LsbFirst(b, 5), LsbFirst(c, 4), rest);
  }

  lemma FourParts(a: seq<bool>, b: seq<bool>, c: seq<bool>, rest: seq<bool>)
    requires |a| == 5 && |b| == 5 && |c| == 4
    ensures var bits := a + (b + (c + rest));
            |bits| >= 14 && bits[..5] == a && bits[5..10] == b && bits[10..14] == c && bits[14..] == rest
  {
  }

  lemma HeaderSound(bits: seq<bool>) returns (h: Header)
    requires ReadTrees(bits).Got?
    ensures var p := ReadTrees(bits);
            var w := WriteHeader(h);
            w.Written? && w.out == p.value && bits == w.bits + p.rest
  {
    hide LsbFirst, LsbValue, Acceptable, ReadOps, WriteOps, FieldsBits, ReadFields, ClLengths, Code;
    CountsSound(bits);
    var hlit, hdist, hclen := LsbValue(bits[..5]) + 257, LsbValue(bits[5..10]) + 1, LsbValue(bits[10..14]) + 4;
    assert Pow2(4) == 16;
    FieldsSound(hclen, 3, bits[14..]);
    var p := ReadFields(hclen, 3, bits[14..]);
    var ops := OpsSound(ClLengths(p.value), hlit + hdist, p.rest, []);
    h := Header(hlit, hdist, p.value, ops);
    var o := WriteOps(ClLengths(p.value), ops, [], hlit + hdist).bits;
    var rest := ReadTrees(bits).rest;
    ConcatAssoc4(LsbFirst(hlit - 257, 5), LsbFirst(hdist - 1, 5), LsbFirst(hclen - 4, 4), FieldsBits(p.value, 3) + o,
      rest);
    ConcatAssoc(FieldsBits(p.value, 3), o, rest);
  }

  lemma HeaderComplete(h: Header, rest: seq<bool>)
    requires WriteHeader(h).Written?
    ensures var w := WriteHeader(h); ReadTrees(w.bits + rest) == Got(w.out, rest)
  {
    hide LsbFirst, LsbValue, Acceptable, ReadOps, WriteOps, ReadFields, FieldsBits, ClLengths, Code, UsableLengths,
         Pow2;
    var cl := ClLengths(h.sent);
    var ops := WriteOps(cl, h.ops, [], h.hlit + h.hdist).bits;
    var tail := FieldsBits(h.sent, 3) + (ops + rest);
    CountsComplete(h.hlit - 257, h.hdist - 1, |h.sent| - 4, tail);
    FieldsComplete(h.sent, 3, ops + rest);
    OpsComplete(cl, h.ops, [], h.hlit + h.hdist, rest);
    ConcatAssoc4(LsbFirst(h.hlit - 257, 5), LsbFirst(h.hdist - 1, 5), LsbFirst(|h.sent| - 4, 4),
      FieldsBits(h.sent, 3) + ops, rest);
    ConcatAssoc(FieldsBits(h.sent, 3), ops, rest);
  }

  // ----- the fixed code -----

  function Times(n: nat, w: nat): nat {
    if n == 0 then 0 else Times(n - 1, w) + w
  }

  lemma TimesIsProduct(n: nat)
    ensures Times(n, 64) == 64 * n && Times(n, 128) == 128 * n && Times(n, 256) == 256 * n && Times(n, 1024) == 1024 * n
  {
  }

  lemma {:induction false} KraftRepeat(s: seq<nat>, n: nat, len: nat)
    ensures KraftSum(s + Repeat(n, len)) == KraftSum(s) + Times(n, Weight(len))
  {
    hide Weight;
    if n == 0 {
      assert s + Repeat(0, len) == s;
    } else {
      KraftRepeat(s, n - 1, len);
      var t := s + Repeat(n, len);
      assert t[..|t| - 1] == s + Repeat(n - 1, len);
    }
  }

  lemma SmallPowers()
    ensures Pow2(6) == 64 && Pow2(7) == 128 && Pow2(8) == 256 && Pow2(10) == 1024 && Pow2(15) == 32768
  {
    assert Pow2(4) == 16;
    assert Pow2(6) == 64;
    Pow2Eight();
    assert Pow2(10) == 1024;
    assert Pow2(12) == 4096;
    assert Pow2(14) == 16384;
  }

  lemma KraftOne(n: nat, len: nat)
    ensures KraftSum(Repeat(n, len)) == Times(n, Weight(len))
  {
    KraftRepeat([], n, len);
    assert [] + Repeat(n, len) == Repeat(n, len);
  }

  lemma KraftFixed()
    ensures KraftSum(FixedLit()) == Times(144, Weight(8)) + Times(112, Weight(9)) + Times(24, Weight(7))
            + Times(8, Weight(8))
  {
    hide KraftSum, Weight, Times;
    KraftOne(144, 8);
    KraftRepeat(Repeat(144, 8), 112, 9);
    KraftRepeat(Repeat(144, 8) + Repeat(112, 9), 24, 7);
    KraftRepeat(Repeat(144, 8) + Repeat(112, 9) + Repeat(24, 7), 8, 8);
  }

  lemma FixedTreesOk()
    ensures TreesOk(FixedTrees())
  {
    hide KraftSum, Times;
    SmallPowers();
    KraftFixed();
    KraftOne(32, 5);
    TimesIsProduct(144);
    TimesIsProduct(112);
    TimesIsProduct(24);
    TimesIsProduct(8);
    TimesIsProduct(32);
  }

  // ----- blocks and streams -----

  function LittleEndian16(lo: int, hi: int): int {
    lo + 256 * hi
  }

  /** A stored block, from its first whole byte on. */
  ghost function ReadStored(bytes: seq<Byte>, out: seq<Byte>, cap: nat): (o: Outcome)
    ensures o.Done? ==> |o.rest| <= 8 * |bytes|
  {
    if |bytes| < 4 then Failed(ErrInvalid, out)
    else
      var len, nlen := LittleEndian16(bytes[0], bytes[1]), LittleEndian16(bytes[2], bytes[3]);
      if 65535 - len != nlen || len > |bytes| - 4 then Failed(ErrInvalid, out)
      else if |out| + len > cap then Failed(ErrNoMemory, out)
      else Done(out + bytes[4..4 + len], BytesToBits(bytes[4 + len..]))
  }

  ghost function ReadContents(btype: nat, bits: seq<bool>, out: seq<Byte>, cap: nat): (o: Outcome)
    ensures o.Done? ==> |o.rest| <= |bits|
  {
    if btype == 0 then ReadStored(BitsToBytes(bits[|bits| % 8..]), out, cap)
    else if btype == 1 then ReadBody(FixedTrees(), bits, out, cap)
    else if btype == 2 then
      match ReadTrees(bits)
      case NoParse => Failed(ErrInvalid, out)
      case Got(t, r) => ReadBody(t, r, out, cap)
    else Failed(ErrInvalid, out)
  }

  /** Blocks up to and including the final one. */
  ghost function ReadStream(bits: seq<bool>, out: seq<Byte>, cap: nat): (o: Outcome)
    ensures o.Done? ==> |o.rest| <= |bits|
    decreases |bits|
  {
    if |bits| < 3 then Failed(ErrInvalid, out)
    else match ReadContents(LsbValue(bits[1..3]), bits[3..], out, cap)
      case Failed(st, partial) => Failed(st, partial)
      case Done(o, r) => if bits[0] then Done(o, r) else ReadStream(r, o, cap)
  }

  lemma {:induction false} PackAligned(bits: seq<bool>)
    requires |bits| % 8 == 0
    ensures BytesToBits(BitsToBytes(bits)) == bits
  {
    UnpackPacked(bits);
    assert bits + Zeros(0) == bits;
  }

  lemma StoredHeaderOf(bytes: seq<Byte>)
    requires |bytes| >= 4
    requires LittleEndian16(bytes[2], bytes[3]) == 65535 - LittleEndian16(bytes[0], bytes[1])
    ensures StoredHeader(LittleEndian16(bytes[0], bytes[1])) == bytes[..4]
  {
  }

  lemma StoredSound(bits: seq<bool>, pos: nat, out: seq<Byte>, cap: nat) returns (b: Block)
    requires (pos + |bits|) % 8 == 0 && |out| <= cap && ReadContents(0, bits, out, cap).Done?
    ensures var o := ReadContents(0, bits, out, cap);
            var w := WriteContents(b, pos, out);
            b.Stored? && |o.out| <= cap && w.Written? && w.out == o.out && bits == w.bits + o.rest
  {
    hide BitsToBytes, BytesToBits, StoredHeader;
    var pad, aligned := bits[..|bits| % 8], bits[|bits| % 8..];
    var bytes := BitsToBytes(aligned);
    PackAligned(aligned);
    var len := LittleEndian16(bytes[0], bytes[1]);
    b := Stored(pad, bytes[4..4 + len]);
    SplitStored(bytes, len);
    assert bits == pad + aligned;
    ConcatAssoc(pad, BytesToBits(StoredHeader(len) + bytes[4..4 + len]), BytesToBits(bytes[4 + len..]));
  }

  lemma SplitStored(bytes: seq<Byte>, len: int)
    requires |bytes| >= 4 && len == LittleEndian16(bytes[0], bytes[1]) <= |bytes| - 4
    requires LittleEndian16(bytes[2], bytes[3]) == 65535 - len
    ensures BytesToBits(bytes)
         == BytesToBits(StoredHeader(len) + bytes[4..4 + len]) + BytesToBits(bytes[4 + len..])
  {
    StoredHeaderOf(bytes);
    hide BytesToBits, StoredHeader, LittleEndian16;
    CutInThree(bytes, 4, 4 + len);
    BytesToBitsConcat(bytes[..4] + bytes[4..4 + len], bytes[4 + len..]);
  }

  lemma CutInThree(s: seq<Byte>, i: int, j: int)
    requires 0 <= i <= j <= |s|
    ensures s == (s[..i] + s[i..j]) + s[j..]
  {
  }

  lemma StoredHeaderFields(len: nat)
    requires len < 65536
    ensures var h := StoredHeader(len);
            LittleEndian16(h[0], h[1]) == len && LittleEndian16(h[2], h[3]) == 65535 - len
  {
  }

  lemma ReadStoredOf(data: seq<Byte>, tail: seq<Byte>, out: seq<Byte>, cap: nat)
    requires |data| < 65536
    ensures ReadStored(StoredHeader(|data|) + data + tail, out, cap)
         == if |out| + |data| <= cap then Done(out + data, BytesToBits(tail)) else Failed(ErrNoMemory, out)
  {
    hide BytesToBits, StoredHeader;
    StoredHeaderFields(|data|);
    var bytes := StoredHeader(|data|) + data + tail;
    assert bytes[..4] == StoredHeader(|data|);
    assert bytes[4..4 + |data|] == data;
    assert bytes[4 + |data|..] == tail;
  }

  /** Dropping to a byte boundary removes exactly the padding. */
  lemma DropPadding(pad: seq<bool>, body: seq<Byte>, rest: seq<bool>)
    requires |pad| < 8 && |rest| % 8 == 0
    ensures var bits := pad + BytesToBits(body) + rest;
            BitsToBytes(bits[|bits| % 8..]) == body + BitsToBytes(rest)
  {
    hide BytesToBits, BitsToBytes;
    var bits := pad + BytesToBits(body) + rest;
    assert |bits| == |pad| + 8 * (|body| + |rest| / 8);
    Mod8(|body| + |rest| / 8, |pad|);
    PackAligned(rest);
    BytesToBitsConcat(body, BitsToBytes(rest));
    assert bits[|pad|..] == BytesToBits(body) + rest;
    PackUnpacked(body + BitsToBytes(rest));
  }

  lemma StoredComplete(b: Block, pos: nat, out: seq<Byte>, rest: seq<bool>, cap: nat)
    requires b.Stored? && WriteContents(b, pos, out).Written? && |out| <= cap
    requires var w := WriteContents(b, pos, out); (pos + |w.bits + rest|) % 8 == 0
    ensures var w := WriteContents(b, pos, out);
            var o := ReadContents(0, w.bits + rest, out, cap);
            if |w.out| <= cap then o == Done(w.out, rest) else o.Failed? && o.status == ErrNoMemory
  {
    hide BytesToBits, BitsToBytes, StoredHeader, ReadStored;
    var body := StoredHeader(|b.data|) + b.data;
    DropPadding(b.pad, body, rest);
    PackAligned(rest);
    ReadStoredOf(b.data, BitsToBytes(rest), out, cap);
  }

  function TypeOf(b: Block): nat {
    match b
    case Stored(_, _) => 0
    case Fixed(_) => 1
    case Dynamic(_, _) => 2
  }

  lemma HeaderTreesOk(h: Header)
    requires WriteHeader(h).Written?
    ensures TreesOk(WriteHeader(h).out)
  {
  }

  lemma ContentsComplete(b: Block, pos: nat, out: seq<Byte>, rest: seq<bool>, cap: nat)
    requires WriteContents(b, pos, out).Written? && |out| <= cap
    requires var w := WriteContents(b, pos, out); (pos + |w.bits + rest|) % 8 == 0
    ensures var w := WriteContents(b, pos, out);
            var o := ReadContents(TypeOf(b), w.bits + rest, out, cap);
            if |w.out| <= cap then o == Done(w.out, rest) else o.Failed? && o.status == ErrNoMemory
  {
    hide ReadBody, WriteBody, WriteHeader, ReadTrees, TreesOk, FixedTrees, ReadStored, BytesToBits, BitsToBytes;
    match b
    case Stored(_, _) => StoredComplete(b, pos, out, rest, cap);
    case Fixed(items) =>
      FixedTreesOk();
      BodyComplete(FixedTrees(), items, out, rest, cap);
    case Dynamic(h, items) =>
      var t := WriteHeader(h).out;
      var body := WriteBody(t, items, out);
      HeaderComplete(h, body.bits + rest);
      HeaderTreesOk(h);
      BodyComplete(t, items, out, rest, cap);
      assert WriteContents(b, pos, out).bits + rest == WriteHeader(h).bits + (body.bits + rest);
  }

  lemma ContentsSound(btype: nat, bits: seq<bool>, pos: nat, out: seq<Byte>, cap: nat) returns (b: Block)
    requires (pos + |bits|) % 8 == 0 && |out| <= cap && ReadContents(btype, bits, out, cap).Done?
    ensures var o := ReadContents(btype, bits, out, cap);
            var w := WriteContents(b, pos, out);
            TypeOf(b) == btype && |o.out| <= cap && w.Written? && w.out == o.out && bits == w.bits + o.rest
  {
    hide ReadBody, WriteBody, WriteHeader, ReadTrees, FixedTrees, ReadStored, BytesToBits, BitsToBytes;
    if btype == 0 {
      b := StoredSound(bits, pos, out, cap);
    } else if btype == 1 {
      var items := BodySound(FixedTrees(), bits, out, cap);
      b := Fixed(items);
    } else {
      var h := HeaderSound(bits);
      var p := ReadTrees(bits);
      var items := BodySound(p.value, p.rest, out, cap);
      b := Dynamic(h, items);
      assert bits == WriteHeader(h).bits + WriteBody(p.value, items, out).bits
             + ReadContents(btype, bits, out, cap).rest;
    }
  }

  lemma TypeField(b: Block)
    ensures LsbValue(TypeBits(b)) == TypeOf(b) && |TypeBits(b)| == 2
  {
    var s := TypeBits(b);
    assert s[1..] == [s[1]];
    assert [s[1]][1..] == [];
  }

  lemma TypeFieldInverse(s: seq<bool>, b: Block)
    requires |s| == 2 && LsbValue(s) == TypeOf(b)
    ensures s == TypeBits(b)
  {
    assert s[1..] == [s[1]];
    assert [s[1]][1..] == [];
    assert s == [s[0], s[1]];
  }

  lemma WriteGrows(blocks: seq<Block>, pos: nat, out: seq<Byte>)
    requires WriteStream(blocks, pos, out).Written?
    ensures |out| <= |WriteStream(blocks, pos, out).out|
    decreases |blocks|
  {
    hide WriteContents;
    var first := WriteBlock(blocks[0], |blocks| == 1, pos, out);
    ContentsGrow(blocks[0], pos + 3, out);
    if |blocks| > 1 {
      WriteGrows(blocks[1..], pos + |first.bits|, first.out);
    }
  }

  lemma ContentsGrow(b: Block, pos: nat, out: seq<Byte>)
    requires WriteContents(b, pos, out).Written?
    ensures |out| <= |WriteContents(b, pos, out).out|
  {
    match b
    case Stored(_, _) =>
    case Fixed(items) => WriteBodyGrows(FixedTrees(), items, out);
    case Dynamic(h, items) => WriteBodyGrows(WriteHeader(h).out, items, out);
  }

  lemma WriteStreamStep(blocks: seq<Block>, pos: nat, out: seq<Byte>)
    requires WriteStream(blocks, pos, out).Written?
    ensures blocks != []
    ensures var first := WriteBlock(blocks[0], |blocks| == 1, pos, out);
            && first.Written?
            && (|blocks| == 1 ==> WriteStream(blocks, pos, out) == Written(first.bits + [], first.out))
            && (|blocks| > 1 ==> var w := WriteStream(blocks[1..], pos + |first.bits|, first.out);
                                 w.Written? && WriteStream(blocks, pos, out) == Written(first.bits + w.bits, w.out))
  {
    hide WriteBlock;
    var first := WriteBlock(blocks[0], |blocks| == 1, pos, out);
    assert first.Written? ==> first.bits + [] == first.bits;
  }

  lemma ReadStreamStep(bits: seq<bool>, out: seq<Byte>, cap: nat)
    requires |bits| >= 3
    ensures var c := ReadContents(LsbValue(bits[1..3]), bits[3..], out, cap);
            ReadStream(bits, out, cap) == if c.Failed? then c else if bits[0] then c else ReadStream(c.rest, c.out, cap)
  {
    hide ReadContents, LsbValue;
  }

  lemma BlockParts(final: bool, kind: seq<bool>, contents: seq<bool>, tail: seq<bool>)
    requires |kind| == 2
    ensures var bits := ([final] + kind) + contents + tail;
            |bits| >= 3 && bits[0] == final && bits[1..3] == kind && bits[3..] == contents + tail
  {
  }

  /** Every written stream is read back, with whatever follows it left alone; or it does not fit. */
  lemma {:induction false} StreamComplete(blocks: seq<Block>, pos: nat, out: seq<Byte>, rest: seq<bool>, cap: nat)
    requires WriteStream(blocks, pos, out).Written? && |out| <= cap
    requires var w := WriteStream(blocks, pos, out); (pos + |w.bits + rest|) % 8 == 0
    ensures var w := WriteStream(blocks, pos, out);
            var o := ReadStream(w.bits + rest, out, cap);
            if |w.out| <= cap then o == Done(w.out, rest) else o.Failed? && o.status == ErrNoMemory
    decreases |blocks|
  {
    hide WriteStream, ReadStream, WriteContents, ReadContents, LsbValue, TypeBits;
    WriteStreamStep(blocks, pos, out);
    var b, final := blocks[0], |blocks| == 1;
    var c := WriteContents(b, pos + 3, out);
    var first := WriteBlock(b, final, pos, out);
    var next := if final then [] else WriteStream(blocks[1..], pos + |first.bits|, first.out).bits;
    var tail := next + rest;
    ConcatAssoc(first.bits, next, rest);
    TypeField(b);
    BlockParts(final, TypeBits(b), c.bits, tail);
    ReadStreamStep(first.bits + tail, out, cap);
    ContentsComplete(b, pos + 3, out, tail, cap);
    if !final {
      WriteGrows(blocks[1..], pos + |first.bits|, first.out);
      if |c.out| <= cap {
        StreamComplete(blocks[1..], pos + |first.bits|, first.out, rest, cap);
      }
    }
  }

  /** Whatever is read as a stream was written as one. */
  lemma {:induction false} StreamSound(bits: seq<bool>, pos: nat, out: seq<Byte>, cap: nat) returns (blocks: seq<Block>)
    requires (pos + |bits|) % 8 == 0 && |out| <= cap && ReadStream(bits, out, cap).Done?
    ensures var o := ReadStream(bits, out, cap);
            var w := WriteStream(blocks, pos, out);
            |o.out| <= cap && w.Written? && w.out == o.out && bits == w.bits + o.rest
    decreases |bits|
  {
    hide WriteContents, ReadContents, LsbValue, TypeBits;
    var btype := LsbValue(bits[1..3]);
    var c := ReadContents(btype, bits[3..], out, cap);
    var b := ContentsSound(btype, bits[3..], pos + 3, out, cap);
    TypeFieldInverse(bits[1..3], b);
    var first := WriteBlock(b, bits[0], pos, out);
    assert bits == [bits[0]] + bits[1..3] + bits[3..];
    assert bits == first.bits + c.rest;
    if bits[0] {
      blocks := [b];
    } else {
      var tail := StreamSound(c.rest, pos + |first.bits|, c.out, cap);
      blocks := [b] + tail;
      assert blocks[1..] == tail;
      assert tail != [];
    }
  }

  /** `bits` is a written stream with the given output, followed by `rest`. */
  ghost predicate Describes(blocks: seq<Block>, bits: seq<bool>, out: seq<Byte>, rest: seq<bool>) {
    var w := WriteStream(blocks, 0, []);
    w.Written? && w.out == out && bits == w.bits + rest
  }

  /** The reader accepts exactly the streams of the grammar that fit, with their output and their end. */
  lemma ReadsExactly(bits: seq<bool>, out: seq<Byte>, rest: seq<bool>, cap: nat)
    requires |bits| % 8 == 0 && |out| <= cap
    ensures ReadStream(bits, [], cap) == Done(out, rest) <==> exists blocks :: Describes(blocks, bits, out, rest)
  {
    hide WriteStream, ReadStream;
    if ReadStream(bits, [], cap) == Done(out, rest) {
      var blocks := StreamSound(bits, 0, [], cap);
      assert Describes(blocks, bits, out, rest);
    }
    if blocks :| Describes(blocks, bits, out, rest) {
      StreamComplete(blocks, 0, [], rest, cap);
    }
  }

  /** No input is two different streams. */
  lemma Unambiguous(bits: seq<bool>, b1: seq<Block>, out1: seq<Byte>, rest1: seq<bool>,
                    b2: seq<Block>, out2: seq<Byte>, rest2: seq<bool>)
    requires |bits| % 8 == 0 && Describes(b1, bits, out1, rest1) && Describes(b2, bits, out2, rest2)
    ensures out1 == out2 && rest1 == rest2
  {
    var cap := |out1| + |out2|;
    ReadsExactly(bits, out1, rest1, cap);
    ReadsExactly(bits, out2, rest2, cap);
  }
}
