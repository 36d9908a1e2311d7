/** The symbol blob: header, block index, token directory and pool, and the entry stream. */
module KsymFormat {
  import opened Bits
  import opened Bpe
  import opened LittleEndian
  import opened Uleb
  import opened Words

  const MAGIC := 0x4D59534B
  const VERSION := 1
  const HEADER_SIZE := 64
  const BLOCK_SHIFT := 6
  const BLOCK := 64

  datatype Symbol = Symbol(addr: nat, name: seq<Byte>)

  /** The symbols with the names' compressed forms. */
  datatype Table = Table(syms: seq<Symbol>, base: nat, end: nat, tokens: seq<seq<Byte>>, enc: seq<seq<Byte>>)

  // ----- the stream -----

  /** Within a block each address is stored as its distance from the one before. */
  function Delta(t: Table, i: nat): nat
    requires i < |t.syms|
  {
    if i % BLOCK == 0 || t.syms[i].addr < t.syms[i - 1].addr then 0 else t.syms[i].addr - t.syms[i - 1].addr
  }

  ghost predicate Sized(t: Table) {
    |t.enc| == |t.syms| && forall i | 0 <= i < |t.enc| :: |t.enc[i]| <= 255
  }

  function Entry(t: Table, i: nat): seq<Byte>
    requires i < |t.syms| && Sized(t)
  {
    Encoded(Delta(t, i)) + ([|t.enc[i]|] + t.enc[i])
  }

  function Stream(t: Table, n: nat): seq<Byte>
    requires n <= |t.syms| && Sized(t)
  {
    if n == 0 then [] else Stream(t, n - 1) + Entry(t, n - 1)
  }

  lemma {:induction false} EntryAt(blob: seq<Byte>, off: nat, t: Table, n: nat, i: nat)
    requires i < n <= |t.syms| && Sized(t) && At(blob, off, Stream(t, n))
    ensures At(blob, off + |Stream(t, i)|, Entry(t, i)) && |Stream(t, i + 1)| == |Stream(t, i)| + |Entry(t, i)|
    ensures |Stream(t, i + 1)| <= |Stream(t, n)|
    decreases n
  {
    hide Entry;
    AtConcat(blob, off, Stream(t, n - 1), Entry(t, n - 1));
    if i < n - 1 {
      EntryAt(blob, off, t, n - 1, i);
    }
  }

  // ----- the block index -----

  function Blocks(count: nat): nat {
    (count + BLOCK - 1) / BLOCK
  }

  lemma BlockInRange(count: nat, k: nat)
    requires k < Blocks(count)
    ensures BLOCK * k < count
  {
  }

  function IndexEntry(t: Table, k: nat): (s: seq<Byte>)
    requires BLOCK * k < |t.syms| && Sized(t)
    ensures |s| == 16
  {
    U64(t.syms[BLOCK * k].addr) + (U32(|Stream(t, BLOCK * k)|) + U32(0))
  }

  function Index(t: Table, n: nat): (s: seq<Byte>)
    requires n <= Blocks(|t.syms|) && Sized(t)
    ensures |s| == 16 * n
  {
    if n == 0 then []
    else
      BlockInRange(|t.syms|, n - 1);
      Index(t, n - 1) + IndexEntry(t, n - 1)
  }

  lemma {:induction false} IndexAt(blob: seq<Byte>, off: nat, t: Table, n: nat, k: nat)
    requires k < n <= Blocks(|t.syms|) && Sized(t) && At(blob, off, Index(t, n))
    ensures BLOCK * k < |t.syms| && At(blob, off + 16 * k, IndexEntry(t, k))
    decreases n
  {
    hide IndexEntry;
    BlockInRange(|t.syms|, n - 1);
    BlockInRange(|t.syms|, k);
    AtConcat(blob, off, Index(t, n - 1), IndexEntry(t, n - 1));
    if k < n - 1 {
      IndexAt(blob, off, t, n - 1, k);
    }
  }

  // ----- tokens -----

  function Pool(tokens: seq<seq<Byte>>, n: nat): seq<Byte>
    requires n <= |tokens|
  {
    if n == 0 then [] else Pool(tokens, n - 1) + tokens[n - 1]
  }

  ghost predicate Small(tokens: seq<seq<Byte>>) {
    forall t | 0 <= t < |tokens| :: |tokens[t]| <= 255
  }

  function DirEntry(tokens: seq<seq<Byte>>, k: nat): (s: seq<Byte>)
    requires k < |tokens| && Small(tokens)
    ensures |s| == 4
  {
    U16(|Pool(tokens, k)|) + ([|tokens[k]|] + [0])
  }

  function Directory(tokens: seq<seq<Byte>>, n: nat): (s: seq<Byte>)
    requires n <= |tokens| && Small(tokens)
    ensures |s| == 4 * n
  {
    if n == 0 then [] else Directory(tokens, n - 1) + DirEntry(tokens, n - 1)
  }

  lemma {:induction false} DirectoryAt(blob: seq<Byte>, off: nat, tokens: seq<seq<Byte>>, n: nat, k: nat)
    requires k < n <= |tokens| && Small(tokens) && At(blob, off, Directory(tokens, n))
    ensures At(blob, off + 4 * k, DirEntry(tokens, k))
    decreases n
  {
    hide DirEntry;
    AtConcat(blob, off, Directory(tokens, n - 1), DirEntry(tokens, n - 1));
    if k < n - 1 {
      DirectoryAt(blob, off, tokens, n - 1, k);
    }
  }

  lemma {:induction false} PoolAt(blob: seq<Byte>, off: nat, tokens: seq<seq<Byte>>, n: nat, k: nat)
    requires k < n <= |tokens| && At(blob, off, Pool(tokens, n))
    ensures At(blob, off + |Pool(tokens, k)|, tokens[k])
    decreases n
  {
    AtConcat(blob, off, Pool(tokens, n - 1), tokens[n - 1]);
    if k < n - 1 {
      PoolAt(blob, off, tokens, n - 1, k);
    }
  }

  lemma {:induction false} PoolSize(tokens: seq<seq<Byte>>, n: nat)
    requires n <= |tokens| && TokensOk(tokens)
    ensures |Pool(tokens, n)| <= MAX_EXPANSION * n
  {
    if n > 0 {
      PoolSize(tokens, n - 1);
    }
  }

  // ----- the whole blob -----

  function TokenOffset(t: Table): nat {
    HEADER_SIZE + 16 * Blocks(|t.syms|)
  }

  function StreamOffset(t: Table): nat {
    TokenOffset(t) + 4 * |t.tokens| + |Pool(t.tokens, |t.tokens|)|
  }

  function HeaderFront(count: nat, base: nat, end: nat): (s: seq<Byte>)
    ensures |s| == 32
  {
    (U32(MAGIC) + U16(VERSION)) + (U16(HEADER_SIZE) + U32(count)) + (U32(BLOCK_SHIFT) + U64(base)) + U64(end)
  }

  function HeaderBack(indexCount: nat, tokenOffset: nat, tokenCount: nat, streamOffset: nat,
      streamSize: nat): (s: seq<Byte>)
    ensures |s| == 32
  {
    (U32(HEADER_SIZE) + U32(indexCount)) + (U32(tokenOffset) + U32(tokenCount)) + (U32(streamOffset) + U32(streamSize))
      + U64(0)
  }

  function Blob(t: Table): seq<Byte>
    requires Sized(t) && Small(t.tokens)
  {
    var n := |t.syms|;
    var stream := Stream(t, n);
    HeaderFront(n, t.base, t.end)
    + HeaderBack(Blocks(n), TokenOffset(t), |t.tokens|, StreamOffset(t), |stream|)
    + Index(t, Blocks(n)) + Directory(t.tokens, |t.tokens|) + Pool(t.tokens, |t.tokens|) + stream
  }

  /** A blob the encoder produces: sorted addresses inside the text, names recoverable, offsets that fit 32 bits. */
  ghost predicate TableOk(t: Table) {
    && |t.syms| > 0 && Sized(t) && TokensOk(t.tokens) && t.end < TWO64
    && (forall i | 0 <= i < |t.syms| :: t.base <= t.syms[i].addr < t.end)
    && (forall i, j | 0 <= i < j < |t.syms| :: t.syms[i].addr < t.syms[j].addr)
    && (forall i | 0 <= i < |t.syms| :: MeansOne(t.tokens, t.enc[i], t.syms[i].name))
    && Fits32(t)
  }

  /** What the header and the index say in 32 bits can be said in 32 bits. */
  ghost predicate Fits32(t: Table)
    requires Sized(t)
  {
    StreamOffset(t) < TWO32 && |Stream(t, |t.syms|)| < TWO32
  }

  lemma TokensSmall(tokens: seq<seq<Byte>>)
    requires TokensOk(tokens)
    ensures Small(tokens)
  {
  }

  /** Where each section stands. */
  lemma Sections(t: Table)
    requires Sized(t) && Small(t.tokens)
    ensures var blob := Blob(t);
            && At(blob, 0, HeaderFront(|t.syms|, t.base, t.end))
            && At(blob, 32, HeaderBack(Blocks(|t.syms|), TokenOffset(t), |t.tokens|, StreamOffset(t),
               |Stream(t, |t.syms|)|))
            && At(blob, HEADER_SIZE, Index(t, Blocks(|t.syms|)))
            && At(blob, TokenOffset(t), Directory(t.tokens, |t.tokens|))
            && At(blob, TokenOffset(t) + 4 * |t.tokens|, Pool(t.tokens, |t.tokens|))
            && At(blob, StreamOffset(t), Stream(t, |t.syms|))
            && |blob| == StreamOffset(t) + |Stream(t, |t.syms|)|
  {
    hide HeaderFront, HeaderBack, Index, Directory, Pool, Stream;
    var n := |t.syms|;
    var a, b := HeaderFront(n, t.base, t.end),
      HeaderBack(Blocks(n), TokenOffset(t), |t.tokens|, StreamOffset(t), |Stream(t, n)|);
    var c, d, e, f := Index(t, Blocks(n)), Directory(t.tokens, |t.tokens|), Pool(t.tokens, |t.tokens|), Stream(t, n);
    var blob := Blob(t);
    assert At(blob, 0, blob);
    AtConcat(blob, 0, a + b + c + d + e, f);
    AtConcat(blob, 0, a + b + c + d, e);
    AtConcat(blob, 0, a + b + c, d);
    AtConcat(blob, 0, a + b, c);
    AtConcat(blob, 0, a, b);
  }

  lemma FrontReads(blob: seq<Byte>, count: nat, base: nat, end: nat)
    requires At(blob, 0, HeaderFront(count, base, end)) && count < TWO32 && base < TWO64 && end < TWO64
    ensures ReadU32(blob, 0) == Value(MAGIC) && ReadU16(blob, 4) == Value(VERSION)
            && ReadU16(blob, 6) == Value(HEADER_SIZE)
    ensures ReadU32(blob, 8) == Value(count) && ReadU32(blob, 12) == Value(BLOCK_SHIFT)
    ensures ReadU64(blob, 16) == Value(base) && ReadU64(blob, 24) == Value(end)
  {
    hide U16, U32, U64, ReadU16, ReadU32, ReadU64, At;
    var a, b, c := U32(MAGIC) + U16(VERSION), U16(HEADER_SIZE) + U32(count), U32(BLOCK_SHIFT) + U64(base);
    AtConcat(blob, 0, a + b + c, U64(end));
    AtConcat(blob, 0, a + b, c);
    AtConcat(blob, 0, a, b);
    AtConcat(blob, 0, U32(MAGIC), U16(VERSION));
    AtConcat(blob, 6, U16(HEADER_SIZE), U32(count));
    AtConcat(blob, 12, U32(BLOCK_SHIFT), U64(base));
    ReadAt32(blob, 0, MAGIC);
    ReadAt16(blob, 4, VERSION);
    ReadAt16(blob, 6, HEADER_SIZE);
    ReadAt32(blob, 8, count);
    ReadAt32(blob, 12, BLOCK_SHIFT);
    ReadAt64(blob, 16, base);
    ReadAt64(blob, 24, end);
  }

  lemma BackReads(blob: seq<Byte>, indexCount: nat, tokenOffset: nat, tokenCount: nat, streamOffset: nat,
      streamSize: nat)
    requires At(blob, 32, HeaderBack(indexCount, tokenOffset, tokenCount, streamOffset, streamSize))
    requires indexCount < TWO32 && tokenOffset < TWO32 && tokenCount < TWO32 && streamOffset < TWO32
             && streamSize < TWO32
    ensures ReadU32(blob, 32) == Value(HEADER_SIZE) && ReadU32(blob, 36) == Value(indexCount)
    ensures ReadU32(blob, 40) == Value(tokenOffset) && ReadU32(blob, 44) == Value(tokenCount)
    ensures ReadU32(blob, 48) == Value(streamOffset) && ReadU32(blob, 52) == Value(streamSize)
  {
    hide U16, U32, U64, ReadU16, ReadU32, ReadU64, At;
    var a, b, c := U32(HEADER_SIZE) + U32(indexCount), U32(tokenOffset) + U32(tokenCount),
      U32(streamOffset) + U32(streamSize);
    AtConcat(blob, 32, a + b + c, U64(0));
    AtConcat(blob, 32, a + b, c);
    AtConcat(blob, 32, a, b);
    AtConcat(blob, 32, U32(HEADER_SIZE), U32(indexCount));
    AtConcat(blob, 40, U32(tokenOffset), U32(tokenCount));
    AtConcat(blob, 48, U32(streamOffset), U32(streamSize));
    ReadAt32(blob, 32, HEADER_SIZE);
    ReadAt32(blob, 36, indexCount);
    ReadAt32(blob, 40, tokenOffset);
    ReadAt32(blob, 44, tokenCount);
    ReadAt32(blob, 48, streamOffset);
    ReadAt32(blob, 52, streamSize);
  }
}
