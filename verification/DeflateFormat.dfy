/** The DEFLATE stream as a grammar: what each stream means and how it is written in bits
    (sections 3.2.3 to 3.2.7 of RFC 1951). */
module DeflateFormat {
  import opened Bits
  import opened Huffman

  const LENGTH_BASE: seq<nat> := [
    3, 4, 5, 6, 7, 8, 9, 10, 11, 13, 15, 17, 19, 23, 27, 31, 35, 43, 51, 59, 67, 83, 99, 115, 131, 163, 195, 227, 258]
  const LENGTH_EXTRA: seq<nat> := [
    0, 0, 0, 0, 0, 0, 0, 0, 1, 1, 1, 1, 2, 2, 2, 2, 3, 3, 3, 3, 4, 4, 4, 4, 5, 5, 5, 5, 0]
  const DIST_BASE: seq<nat> := [
    1, 2, 3, 4, 5, 7, 9, 13, 17, 25, 33, 49, 65, 97, 129, 193, 257, 385, 513, 769, 1025, 1537, 2049, 3073, 4097,
    6145, 8193, 12289, 16385, 24577]
  const DIST_EXTRA: seq<nat> := [
    0, 0, 0, 0, 1, 1, 2, 2, 3, 3, 4, 4, 5, 5, 6, 6, 7, 7, 8, 8, 9, 9, 10, 10, 11, 11, 12, 12, 13, 13]

  const END_OF_BLOCK := 256
  const LENGTH_CODES := 29
  const DIST_CODES := 30

  function LengthBase(k: nat): (n: nat)
    requires k < LENGTH_CODES
    ensures n >= 3
  {
    LENGTH_BASE[k]
  }

  function LengthExtra(k: nat): nat
    requires k < LENGTH_CODES
  {
    LENGTH_EXTRA[k]
  }

  function DistBase(k: nat): (n: nat)
    requires k < DIST_CODES
    ensures n >= 1
  {
    DIST_BASE[k]
  }

  function DistExtra(k: nat): nat
    requires k < DIST_CODES
  {
    DIST_EXTRA[k]
  }

  // ----- what a block body says -----

  /** One compressed item: a byte, or a copy given by its length and distance fields. */
  datatype Item = Literal(value: Byte) | Copy(lsym: nat, lextra: nat, dsym: nat, dextra: nat) {
    predicate Ok() {
      match this
      case Literal(_) => true
      case Copy(ls, le, ds, de) =>
        ls < LENGTH_CODES && le < Pow2(LengthExtra(ls)) && ds < DIST_CODES && de < Pow2(DistExtra(ds))
    }

    function Length(): nat
      requires Ok()
    {
      match this
      case Literal(_) => 1
      case Copy(ls, le, _, _) => LengthBase(ls) + le
    }

    function Distance(): (d: nat)
      requires Ok() && Copy?
      ensures d > 0
    {
      DistBase(dsym) + dextra
    }

    predicate Applies(out: seq<Byte>) {
      Ok() && (Copy? ==> Distance() <= |out|)
    }

    function Apply(out: seq<Byte>): (r: seq<Byte>)
      requires Applies(out)
      ensures |r| == |out| + Length()
    {
      match this
      case Literal(b) => out + [b]
      case Copy(_, _, _, _) => CopyBack(out, Distance(), Length())
    }
  }

  /** Appends `length` bytes, each the byte `distance` before it; the source may overlap the result. */
  function CopyBack(out: seq<Byte>, distance: nat, length: nat): (r: seq<Byte>)
    requires 0 < distance <= |out|
    ensures |r| == |out| + length
    decreases length
  {
    if length == 0 then out else CopyBack(out + [out[|out| - distance]], distance, length - 1)
  }

  lemma CopyStep(done: seq<Byte>, distance: nat, length: nat)
    requires 0 < distance <= |done| && length > 0
    ensures CopyBack(done, distance, length) == CopyBack(done + [done[|done| - distance]], distance, length - 1)
  {
  }

  // ----- how a block body is written -----

  /** The code lengths in force in a block. */
  datatype Trees = Trees(lit: seq<nat>, dist: seq<nat>)

  predicate TreesOk(t: Trees) {
    Acceptable(t.lit, false) && Acceptable(t.dist, false)
  }

  /** What writing something yields: its bits, and what has been produced once they are read. */
  datatype Written<+T> = NotWritable | Written(bits: seq<bool>, out: T)

  predicate ItemCoded(t: Trees, item: Item) {
    && item.Ok()
    && match item
       case Literal(b) => Coded(t.lit, b)
       case Copy(ls, _, ds, _) => Coded(t.lit, 257 + ls) && Coded(t.dist, ds)
  }

  function ItemBits(t: Trees, item: Item): seq<bool>
    requires ItemCoded(t, item)
  {
    match item
    case Literal(b) => Code(t.lit, b)
    case Copy(ls, le, ds, de) =>
      Code(t.lit, 257 + ls) + (LsbFirst(le, LengthExtra(ls)) + (Code(t.dist, ds) + LsbFirst(de, DistExtra(ds))))
  }

  /** A block body: its items, then the end-of-block code. */
  function WriteBody(t: Trees, items: seq<Item>, out: seq<Byte>): (w: Written<seq<Byte>>) {
    if items == [] then
      if Coded(t.lit, END_OF_BLOCK) then Written(Code(t.lit, END_OF_BLOCK), out) else NotWritable
    else if !ItemCoded(t, items[0]) || !items[0].Applies(out) then NotWritable
    else match WriteBody(t, items[1..], items[0].Apply(out))
      case NotWritable => NotWritable
      case Written(bits, r) => Written(ItemBits(t, items[0]) + bits, r)
  }

  // ----- the fixed code -----

  function Repeat(n: nat, x: nat): (s: seq<nat>)
    ensures |s| == n && forall i | 0 <= i < n :: s[i] == x
  {
    seq(n, _ => x)
  }

  function FixedLit(): seq<nat> {
    Repeat(144, 8) + Repeat(112, 9) + Repeat(24, 7) + Repeat(8, 8)
  }

  function FixedDist(): seq<nat> {
    Repeat(32, 5)
  }

  function FixedTrees(): Trees {
    Trees(FixedLit(), FixedDist())
  }

  // ----- the dynamic header -----

  const CLC_ORDER: seq<nat> := [16, 17, 18, 0, 8, 7, 9, 6, 10, 5, 11, 4, 12, 3, 13, 2, 14, 1, 15]

  /** One symbol of the code-length alphabet with its extra bits. */
  datatype LengthOp = Single(len: nat) | RepeatLast(extra: nat) | ZerosShort(extra: nat) | ZerosLong(extra: nat) {
    predicate Ok() {
      match this
      case Single(len) => len < 16
      case RepeatLast(e) => e < Pow2(2)
      case ZerosShort(e) => e < Pow2(3)
      case ZerosLong(e) => e < Pow2(7)
    }

    function Symbol(): (s: nat) {
      match this
      case Single(len) => len
      case RepeatLast(_) => 16
      case ZerosShort(_) => 17
      case ZerosLong(_) => 18
    }

    function ExtraBits(): seq<bool> {
      match this
      case Single(_) => []
      case RepeatLast(e) => LsbFirst(e, 2)
      case ZerosShort(e) => LsbFirst(e, 3)
      case ZerosLong(e) => LsbFirst(e, 7)
    }

    function Span(): nat {
      match this
      case Single(_) => 1
      case RepeatLast(e) => e + 3
      case ZerosShort(e) => e + 3
      case ZerosLong(e) => e + 11
    }

    predicate Applies(lengths: seq<nat>) {
      Ok() && (RepeatLast? ==> lengths != [])
    }

    function Apply(lengths: seq<nat>): (r: seq<nat>)
      requires Applies(lengths)
      ensures |r| == |lengths| + Span()
    {
      match this
      case Single(len) => lengths + [len]
      case RepeatLast(_) => lengths + Repeat(Span(), lengths[|lengths| - 1])
      case ZerosShort(_) => lengths + Repeat(Span(), 0)
      case ZerosLong(_) => lengths + Repeat(Span(), 0)
    }
  }

  /** Code-length symbols until exactly `total` lengths are described. */
  function WriteOps(cl: seq<nat>, ops: seq<LengthOp>, lengths: seq<nat>, total: nat): (w: Written<seq<nat>>)
    ensures w.Written? ==> |w.out| == total
  {
    if ops == [] then
      if |lengths| == total then Written([], lengths) else NotWritable
    else if |lengths| >= total || !ops[0].Applies(lengths) || !Coded(cl, ops[0].Symbol()) then NotWritable
    else match WriteOps(cl, ops[1..], ops[0].Apply(lengths), total)
      case NotWritable => NotWritable
      case Written(bits, r) => Written(Code(cl, ops[0].Symbol()) + (ops[0].ExtraBits() + bits), r)
  }

  /** The code-length lengths, put in symbol order. */
  function ClLengths(sent: seq<nat>): (cl: seq<nat>)
    requires |sent| <= 19
    ensures |cl| == 19
  {
    if sent == [] then Repeat(19, 0)
    else ClLengths(sent[..|sent| - 1])[CLC_ORDER[|sent| - 1] := sent[|sent| - 1]]
  }

  function FieldsBits(fields: seq<nat>, width: nat): (bits: seq<bool>)
    ensures |bits| == |fields| * width
  {
    if fields == [] then [] else LsbFirst(fields[0], width) + FieldsBits(fields[1..], width)
  }

  datatype Header = Header(hlit: nat, hdist: nat, sent: seq<nat>, ops: seq<LengthOp>)

  predicate HeaderInRange(h: Header) {
    && 257 <= h.hlit <= 286
    && 1 <= h.hdist <= 30
    && 4 <= |h.sent| <= 19
    && forall i | 0 <= i < |h.sent| :: h.sent[i] < Pow2(3)
  }

  /** The trees a list of lit/len and distance lengths describes, if they can be used. */
  function TreesOf(lengths: seq<nat>, hlit: nat): Trees
    requires hlit <= |lengths|
  {
    Trees(lengths[..hlit], lengths[hlit..])
  }

  predicate UsableLengths(lengths: seq<nat>, hlit: nat) {
    && END_OF_BLOCK < hlit <= |lengths|
    && lengths[END_OF_BLOCK] != 0
    && Acceptable(lengths[..hlit], false)
    && Acceptable(lengths[hlit..], false)
  }

  function WriteHeader(h: Header): (w: Written<Trees>) {
    if !HeaderInRange(h) || !Acceptable(ClLengths(h.sent), true) then NotWritable
    else match WriteOps(ClLengths(h.sent), h.ops, [], h.hlit + h.hdist)
      case NotWritable => NotWritable
      case Written(bits, lengths) =>
        if !UsableLengths(lengths, h.hlit) then NotWritable
        else Written(
          LsbFirst(h.hlit - 257, 5) + (LsbFirst(h.hdist - 1, 5) + (LsbFirst(|h.sent| - 4, 4)
          + (FieldsBits(h.sent, 3) + bits))), TreesOf(lengths, h.hlit))
  }

  // ----- blocks and streams -----

  datatype Block =
    | Stored(pad: seq<bool>, data: seq<Byte>)
    | Fixed(items: seq<Item>)
    | Dynamic(header: Header, items: seq<Item>)

  /** LEN and its one's complement, low byte first. */
  function StoredHeader(len: nat): (h: seq<Byte>)
    requires len < 65536
    ensures |h| == 4
  {
    [len % 256, len / 256, (65535 - len) % 256, (65535 - len) / 256]
  }

  function Prepend<T>(bits: seq<bool>, w: Written<T>): Written<T> {
    match w
    case NotWritable => NotWritable
    case Written(b, out) => Written(bits + b, out)
  }

  /** A block's contents, starting at bit position `pos` with `out` already produced. */
  function WriteContents(block: Block, pos: nat, out: seq<Byte>): (w: Written<seq<Byte>>) {
    match block
    case Stored(pad, data) =>
      if |pad| < 8 && (pos + |pad|) % 8 == 0 && |data| < 65536
      then Written(pad + BytesToBits(StoredHeader(|data|) + data), out + data)
      else NotWritable
    case Fixed(items) => WriteBody(FixedTrees(), items, out)
    case Dynamic(h, items) =>
      match WriteHeader(h)
      case NotWritable => NotWritable
      case Written(bits, trees) => Prepend(bits, WriteBody(trees, items, out))
  }

  /** BTYPE, least significant bit first. */
  function TypeBits(block: Block): seq<bool> {
    match block
    case Stored(_, _) => [false, false]
    case Fixed(_) => [true, false]
    case Dynamic(_, _) => [false, true]
  }

  function WriteBlock(block: Block, final: bool, pos: nat, out: seq<Byte>): (w: Written<seq<Byte>>) {
    Prepend([final] + TypeBits(block), WriteContents(block, pos + 3, out))
  }

  /** A whole stream: blocks, the last one marked final. */
  function WriteStream(blocks: seq<Block>, pos: nat, out: seq<Byte>): (w: Written<seq<Byte>>)
    decreases |blocks|
  {
    if blocks == [] then NotWritable
    else match WriteBlock(blocks[0], |blocks| == 1, pos, out)
      case NotWritable => NotWritable
      case Written(bits, r) =>
        if |blocks| == 1 then Written(bits, r)
        else Prepend(bits, WriteStream(blocks[1..], pos + |bits|, r))
  }
}
