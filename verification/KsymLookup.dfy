/** Looking an address up in a symbol blob: binary search over blocks, then a scan of one block. */
module KsymLookup {
  import opened Bits
  import opened Bpe
  import opened KsymFormat
  import opened LittleEndian
  import opened Statuses
  import opened Uleb
  import opened Words

  /** A C string buffer of `cap` bytes holds at most `cap - 1` of them. */
  function Cut(s: seq<Byte>, cap: nat): seq<Byte> {
    if cap == 0 then [] else if |s| <= cap - 1 then s else s[..cap - 1]
  }

  lemma CutSnoc(s: seq<Byte>, b: Byte, cap: nat)
    ensures Cut(s + [b], cap) == if |Cut(s, cap)| + 1 < cap then Cut(s, cap) + [b] else Cut(s, cap)
  {
  }

  /** The token tables stand in the blob. */
  ghost predicate TokensAt(blob: seq<Byte>, off: nat, tokens: seq<seq<Byte>>) {
    && TokensOk(tokens) && Small(tokens)
    && At(blob, off, Directory(tokens, |tokens|)) && At(blob, off + 4 * |tokens|, Pool(tokens, |tokens|))
  }

  lemma TokenReads(blob: seq<Byte>, off: nat, tokens: seq<seq<Byte>>, k: nat)
    requires TokensAt(blob, off, tokens) && k < |tokens|
    ensures ReadU16(blob, off + 4 * k) == Value(|Pool(tokens, k)|)
            && ReadU8(blob, off + 4 * k + 2) == Value(|tokens[k]|)
    ensures At(blob, off + 4 * |tokens| + |Pool(tokens, k)|, tokens[k])
  {
    hide U16, Pool, Directory, At, ReadU16, ReadU8;
    DirectoryAt(blob, off, tokens, |tokens|, k);
    PoolAt(blob, off + 4 * |tokens|, tokens, |tokens|, k);
    PoolSize(tokens, k);
    var at := off + 4 * k;
    AtConcat(blob, at, U16(|Pool(tokens, k)|), [|tokens[k]|] + [0]);
    AtConcat(blob, at + 2, [|tokens[k]|], [0]);
    ReadAt16(blob, at, |Pool(tokens, k)|);
    ReadAt8(blob, at + 2, |tokens[k]|);
  }

  /** Appends one token's expansion, as far as the buffer has room. */
  method ExpandToken(blob: seq<Byte>, off: nat, length: nat, cap: nat, name: seq<Byte>, ghost whole: seq<Byte>,
      ghost token: seq<Byte>)
    returns (ok: bool, out: seq<Byte>)
    ensures At(blob, off, token) && |token| == length && name == Cut(whole, cap) ==>
            ok && out == Cut(whole + token, cap)
  {
    ghost var known := At(blob, off, token) && |token| == length && name == Cut(whole, cap);
    out := name;
    var j := 0;
    assert whole + token[..0] == whole;
    while j < length
      invariant 0 <= j <= length
      invariant known ==> out == Cut(whole + token[..j], cap)
    {
      var b := ReadU8(blob, off + j);
      if known {
        AtIndex(blob, off, token, j);
        assert whole + token[..j + 1] == whole + token[..j] + [token[j]];
        CutSnoc(whole + token[..j], token[j], cap);
      }
      if b.Missing? {
        return false, out;
      }
      if |out| + 1 < cap {
        out := out + [blob[off + j]];
      }
      j := j + 1;
    }
    ok := true;
    assert known ==> token[..j] == token;
  }

  /** Expands a compressed name. It fails only on a token the blob does not have. */
  method ExpandName(blob: seq<Byte>, tokenOffset: nat, tokenCount: nat, nameOff: nat, nameLen: nat, cap: nat,
                    ghost tokens: seq<seq<Byte>>, ghost s: seq<Byte>) returns (ok: bool, name: seq<Byte>)
    ensures TokensAt(blob, tokenOffset, tokens) && |tokens| == tokenCount && At(blob, nameOff, s) && |s| == nameLen
            && Known(|tokens|, s)
        ==> ok && name == Cut(Expand(tokens, s), cap)
  {
    hide Expand, Pool, Directory, ReadU16, Known, ExpandByte, TokensOk, Small, TokensAt, At, Cut;
    ghost var known := TokensAt(blob, tokenOffset, tokens) && |tokens| == tokenCount && At(blob, nameOff, s)
      && |s| == nameLen && Known(|tokens|, s);
    name := [];
    var poolStart := tokenOffset + tokenCount * 4;
    var i := 0;
    ExpandNone(tokens, s, cap);
    while i < nameLen
      invariant 0 <= i <= nameLen
      invariant known ==> name == Cut(Expand(tokens, s[..i]), cap)
    {
      var b := ReadU8(blob, nameOff + i);
      if known {
        AtIndex(blob, nameOff, s, i);
        ExpandSnoc(tokens, s, i);
        KnownAt(|tokens|, s, i);
        ByteMeans(tokens, s[i]);
      }
      if b.Missing? {
        return false, name;
      }
      if b.value < 128 {
        if known {
          CutSnoc(Expand(tokens, s[..i]), blob[nameOff + i], cap);
        }
        if |name| + 1 < cap {
          name := name + [blob[nameOff + i]];
        }
      } else {
        var k := b.value - 128;
        if k >= tokenCount {
          return false, name;
        }
        if known {
          TokenReads(blob, tokenOffset, tokens, k);
        }
        var poolOff, length := ReadU16(blob, tokenOffset + k * 4), ReadU8(blob, tokenOffset + k * 4 + 2);
        if poolOff.Missing? || length.Missing? {
          return false, name;
        }
        ghost var token, sofar := if known then tokens[k] else [], if known then Expand(tokens, s[..i]) else [];
        ok, name := ExpandToken(blob, poolStart + poolOff.value, length.value, cap, name, sofar, token);
        if !ok {
          return false, name;
        }
      }
      i := i + 1;
    }
    ok := true;
    assert known ==> s[..i] == s;
  }

  lemma ExpandNone(tokens: seq<seq<Byte>>, s: seq<Byte>, cap: nat)
    ensures Cut(Expand(tokens, s[..0]), cap) == []
  {
  }

  lemma ByteMeans(tokens: seq<seq<Byte>>, b: Byte)
    requires b < 128 + |tokens|
    ensures ExpandByte(tokens, b) == if b < 128 then [b] else tokens[b - 128]
  {
  }

  lemma KnownAt(count: nat, s: seq<Byte>, i: nat)
    requires Known(count, s) && i < |s|
    ensures s[i] < 128 + count
  {
  }

  lemma {:induction false} ExpandConcat(tokens: seq<seq<Byte>>, s: seq<Byte>, b: Byte)
    ensures Expand(tokens, s + [b]) == Expand(tokens, s) + ExpandByte(tokens, b)
  {
    if s == [] {
      assert s + [b] == [b];
      assert [b][1..] == [];
      assert Expand(tokens, [b]) == ExpandByte(tokens, b) + [];
    } else {
      assert (s + [b])[1..] == s[1..] + [b];
      ExpandConcat(tokens, s[1..], b);
      ConcatAssoc(ExpandByte(tokens, s[0]), Expand(tokens, s[1..]), ExpandByte(tokens, b));
    }
  }

  lemma ExpandSnoc(tokens: seq<seq<Byte>>, s: seq<Byte>, i: nat)
    requires i < |s|
    ensures Expand(tokens, s[..i + 1]) == Expand(tokens, s[..i]) + ExpandByte(tokens, s[i])
  {
    assert s[..i + 1] == s[..i] + [s[i]];
    ExpandConcat(tokens, s[..i], s[i]);
  }

  // ----- the header -----

  datatype Header = NoHeader | Header(count: nat, blockShift: nat, base: nat, end: nat, indexOffset: nat,
    indexCount: nat,
                                      tokenOffset: nat, tokenCount: nat, streamOffset: nat, streamSize: nat)

  /** All fields lie inside a blob of at least the header's size. */
  function ParseHeader(blob: seq<Byte>): Header {
    if |blob| < HEADER_SIZE then NoHeader
    else if ReadU32(blob, 0).value != MAGIC || ReadU16(blob, 4).value != VERSION
      || ReadU16(blob, 6).value < HEADER_SIZE then NoHeader
    else Header(ReadU32(blob, 8).value, ReadU32(blob, 12).value, ReadU64(blob, 16).value, ReadU64(blob, 24).value,
                ReadU32(blob, 32).value, ReadU32(blob, 36).value, ReadU32(blob, 40).value, ReadU32(blob, 44).value,
                ReadU32(blob, 48).value, ReadU32(blob, 52).value)
  }

  /** The blob is the encoder's for this table. */
  ghost predicate IsBlob(blob: seq<Byte>, t: Table) {
    KsymFormat.TableOk(t) && Small(t.tokens) && blob == Blob(t)
  }

  /** The header says where the stream is and how long, exactly when both numbers fit its 32-bit fields. */
  lemma HeaderSays(t: Table)
    requires Sized(t) && Small(t.tokens)
    ensures ReadU32(Blob(t), 48) == Value(StreamOffset(t)) && ReadU32(Blob(t), 52) == Value(|Stream(t, |t.syms|)|) <==>
            Fits32(t)
  {
    hide At, HeaderFront, HeaderBack, Index, Directory, Pool, Stream, Blob, ReadU32;
    Sections(t);
    WordBound(Blob(t), 48);
    WordBound(Blob(t), 52);
    if Fits32(t) {
      BackReads(Blob(t), Blocks(|t.syms|), TokenOffset(t), |t.tokens|, StreamOffset(t), |Stream(t, |t.syms|)|);
    }
  }

  lemma WordBound(blob: seq<Byte>, off: nat)
    ensures ReadU32(blob, off).Value? ==> ReadU32(blob, off).value < TWO32
  {
  }

  lemma HeaderOf(blob: seq<Byte>, t: Table)
    requires IsBlob(blob, t)
    ensures ParseHeader(blob) == Header(|t.syms|, BLOCK_SHIFT, t.base, t.end, HEADER_SIZE, Blocks(|t.syms|),
                                        TokenOffset(t), |t.tokens|, StreamOffset(t), |Stream(t, |t.syms|)|)
    ensures |blob| == StreamOffset(t) + |Stream(t, |t.syms|)|
  {
    hide At, HeaderFront, HeaderBack, Index, Directory, Pool, Stream, Blob, ReadU16, ReadU32, ReadU64;
    Sections(t);
    EntryCount(t, |t.syms|);
    assert t.base <= t.syms[0].addr;
    FrontReads(blob, |t.syms|, t.base, t.end);
    BackReads(blob, Blocks(|t.syms|), TokenOffset(t), |t.tokens|, StreamOffset(t), |Stream(t, |t.syms|)|);
  }

  /** Every entry takes at least two bytes, so the counts fit their fields. */
  lemma {:induction false} EntryCount(t: Table, n: nat)
    requires n <= |t.syms| && Sized(t)
    ensures |Stream(t, n)| >= 2 * n
  {
    if n > 0 {
      EntryCount(t, n - 1);
    }
  }

  // ----- the block index -----

  ghost predicate BlockStarts(t: Table, k: nat, addr: nat) {
    BLOCK * k < |t.syms| && t.syms[BLOCK * k].addr <= addr
  }

  lemma IndexReads(blob: seq<Byte>, t: Table, k: nat)
    requires IsBlob(blob, t) && k < Blocks(|t.syms|)
    ensures BLOCK * k < |t.syms|
    ensures ReadU64(blob, HEADER_SIZE + 16 * k) == Value(t.syms[BLOCK * k].addr)
    ensures ReadU32(blob, HEADER_SIZE + 16 * k + 8) == Value(|Stream(t, BLOCK * k)|)
  {
    hide At, Index, Directory, Pool, Stream, Blob, U32, U64, ReadU32, ReadU64, HeaderFront, HeaderBack;
    Sections(t);
    IndexAt(blob, HEADER_SIZE, t, Blocks(|t.syms|), k);
    var at := HEADER_SIZE + 16 * k;
    var pos := |Stream(t, BLOCK * k)|;
    AtConcat(blob, at, U64(t.syms[BLOCK * k].addr), U32(pos) + U32(0));
    AtConcat(blob, at + 8, U32(pos), U32(0));
    assert pos < TWO32 by {
      EntryAt(blob, StreamOffset(t), t, |t.syms|, BLOCK * k);
    }
    assert t.syms[BLOCK * k].addr < TWO64;
    ReadAt64(blob, at, t.syms[BLOCK * k].addr);
    ReadAt32(blob, at + 8, pos);
  }

  /** The last block whose first symbol is at or below the address. */
  method FindBlock(blob: seq<Byte>, h: Header, addr: nat, ghost t: Table) returns (ok: bool, block: nat)
    requires h.Header?
    ensures IsBlob(blob, t) && h == ParseHeader(blob) ==>
              && (ok <==> t.syms[0].addr <= addr)
              && (ok ==> block < Blocks(|t.syms|) && BlockStarts(t, block, addr) && !BlockStarts(t, block + 1, addr))
  {
    hide Stream, Index, Pool, Directory, ParseHeader, Blob, ReadU64;
    ghost var known := IsBlob(blob, t) && h == ParseHeader(blob);
    if known {
      HeaderOf(blob, t);
    }
    var lo, hi := 0, h.indexCount;
    ok, block := false, 0;
    while lo < hi
      invariant 0 <= lo <= hi <= h.indexCount
      invariant ok ==> block + 1 == lo
      invariant !ok ==> lo == 0
      invariant known && ok ==> BlockStarts(t, block, addr)
      invariant known && hi < h.indexCount ==> !BlockStarts(t, hi, addr)
    {
      var mid := lo + (hi - lo) / 2;
      var first := ReadU64(blob, h.indexOffset + mid * 16);
      if known {
        IndexReads(blob, t, mid);
      }
      if first.Missing? {
        return false, block;
      }
      if first.value <= addr {
        ok, block := true, mid;
        lo := mid + 1;
      } else {
        hi := mid;
      }
    }
    if known {
      LastBlock(t, addr, hi, ok, block);
    }
  }

  lemma LastBlock(t: Table, addr: nat, hi: nat, ok: bool, block: nat)
    requires KsymFormat.TableOk(t) && hi <= Blocks(|t.syms|)
    requires hi < Blocks(|t.syms|) ==> !BlockStarts(t, hi, addr)
    requires ok ==> block + 1 == hi && BlockStarts(t, block, addr)
    requires !ok ==> hi == 0
    ensures ok <==> t.syms[0].addr <= addr
    ensures ok ==> block < Blocks(|t.syms|) && BlockStarts(t, block, addr) && !BlockStarts(t, block + 1, addr)
  {
    if ok && block > 0 {
      assert t.syms[0].addr < t.syms[BLOCK * block].addr;
    }
  }

  // ----- the scan -----

  /** The symbol is the last one at or below the address. */
  ghost predicate Covering(syms: seq<Symbol>, addr: nat, j: nat) {
    && j < |syms| && syms[j].addr <= addr
    && (j + 1 < |syms| ==> addr < syms[j + 1].addr)
  }

  /** It has this address, and its compressed name stands here. */
  ghost predicate Found(blob: seq<Byte>, t: Table, addr: nat, j: nat, symAddr: nat, nameOff: nat, nameLen: nat) {
    && Sized(t) && Covering(t.syms, addr, j) && symAddr == t.syms[j].addr
    && At(blob, nameOff, t.enc[j]) && nameLen == |t.enc[j]|
  }

  lemma EntryReads(blob: seq<Byte>, t: Table, j: nat)
    requires IsBlob(blob, t) && j < |t.syms|
    ensures var at := StreamOffset(t) + |Stream(t, j)|;
            var number := Encoded(Delta(t, j));
            && At(blob, at, number) && Delta(t, j) < TWO64
            && ReadU8(blob, at + |number|) == Value(|t.enc[j]|) && At(blob, at + |number| + 1, t.enc[j])
            && StreamOffset(t) + |Stream(t, j + 1)| == at + |number| + 1 + |t.enc[j]|
  {
    hide At, Index, Directory, Pool, Stream, Blob, Encoded, ReadU8, HeaderFront, HeaderBack;
    Sections(t);
    EntryAt(blob, StreamOffset(t), t, |t.syms|, j);
    var at := StreamOffset(t) + |Stream(t, j)|;
    var number := Encoded(Delta(t, j));
    AtConcat(blob, at, number, [|t.enc[j]|] + t.enc[j]);
    AtConcat(blob, at + |number|, [|t.enc[j]|], t.enc[j]);
    ReadAt8(blob, at + |number|, |t.enc[j]|);
  }

  /** One entry: the distance from the address before, and where the compressed name stands. */
  method ReadEntry(blob: seq<Byte>, off: nat, ghost t: Table, ghost j: nat)
      returns (ok: bool, delta: nat, nameOff: nat, nameLen: nat)
    ensures IsBlob(blob, t) && j < |t.syms| && off == StreamOffset(t) + |Stream(t, j)| ==>
              && ok && delta == Delta(t, j) && At(blob, nameOff, t.enc[j]) && nameLen == |t.enc[j]|
              && nameOff + nameLen == StreamOffset(t) + |Stream(t, j + 1)|
  {
    hide Stream, Index, Pool, Directory, Blob, Encoded, At;
    ghost var known := IsBlob(blob, t) && j < |t.syms| && off == StreamOffset(t) + |Stream(t, j)|;
    if known {
      EntryReads(blob, t, j);
      AtFits(blob, off + |Encoded(Delta(t, j))| + 1, t.enc[j]);
    }
    hide IsBlob, StreamOffset;
    nameOff, nameLen := 0, 0;
    ghost var number := if known then Delta(t, j) else 0;
    var at;
    ok, delta, at := ReadNumber(blob, off, number);
    if !ok {
      return;
    }
    var length := ReadU8(blob, at);
    if length.Missing? {
      return false, delta, nameOff, nameLen;
    }
    if at + 1 + length.value > |blob| {
      return false, delta, nameOff, nameLen;
    }
    nameOff, nameLen := at + 1, length.value;
  }

  /** The block of `count` symbols from `from` on stands at `start` and holds the address. */
  ghost predicate BlockAt(blob: seq<Byte>, t: Table, from: nat, count: nat, start: nat, firstAddr: nat, addr: nat) {
    && IsBlob(blob, t) && 0 < count <= BLOCK && from + count <= |t.syms| && from % BLOCK == 0
    && start == StreamOffset(t) + |Stream(t, from)| && firstAddr == t.syms[from].addr <= addr
    && (from + count < |t.syms| ==> addr < t.syms[from + count].addr)
  }

  lemma BlockFacts(blob: seq<Byte>, t: Table, from: nat, count: nat, start: nat, firstAddr: nat, addr: nat)
    requires BlockAt(blob, t, from, count, start, firstAddr, addr)
    ensures IsBlob(blob, t) && Sized(t) && |t.enc| == |t.syms|
    ensures 0 < count <= BLOCK && from + count <= |t.syms| && from % BLOCK == 0
    ensures start == StreamOffset(t) + |Stream(t, from)| && firstAddr == t.syms[from].addr <= addr
    ensures from + count < |t.syms| ==> addr < t.syms[from + count].addr
  {
    BlobSized(blob, t);
  }

  /** Walks one block; remembers the last symbol at or below the address. */
  method ScanBlock(blob: seq<Byte>, start: nat, count: nat, firstAddr: nat, addr: nat, ghost t: Table, ghost from: nat)
    returns (ok: bool, best: nat, nameOff: nat, nameLen: nat)
    ensures BlockAt(blob, t, from, count, start, firstAddr, addr) ==>
              ok && exists j: nat :: Found(blob, t, addr, j, best, nameOff, nameLen)
  {
    hide IsBlob, Stream, StreamOffset, Delta, Sized, At, Found, BlockAt;
    ghost var known := BlockAt(blob, t, from, count, start, firstAddr, addr);
    ok, best, nameOff, nameLen := false, 0, 0, 0;
    if known {
      BlockFacts(blob, t, from, count, start, firstAddr, addr);
    }
    var off: nat, cur, i := start, 0, 0;
    while i < count
      invariant 0 <= i <= count
      invariant known ==> off == StreamOffset(t) + |Stream(t, from + i)| && (ok <==> i > 0)
      invariant known && i > 0 ==> cur == best == t.syms[from + i - 1].addr <= addr
      invariant known && i > 0 ==> At(blob, nameOff, t.enc[from + i - 1]) && nameLen == |t.enc[from + i - 1]|
    {
      ghost var j := if known then from + i else 0;
      if known {
        DeltaIs(blob, t, from, i);
      }
      var fine, delta, entryName, entryLen := ReadEntry(blob, off, t, j);
      if !fine {
        return false, best, nameOff, nameLen;
      }
      cur := if i == 0 then firstAddr else (cur + delta) % TWO64;
      if cur > addr {
        if known {
          FoundAt(blob, t, addr, from + i - 1, best, nameOff, nameLen);
        }
        return;
      }
      best, nameOff, nameLen, ok := cur, entryName, entryLen, true;
      off := entryName + entryLen;
      i := i + 1;
    }
    if known {
      FoundAt(blob, t, addr, from + i - 1, best, nameOff, nameLen);
    }
  }

  lemma FoundAt(blob: seq<Byte>, t: Table, addr: nat, j: nat, symAddr: nat, nameOff: nat, nameLen: nat)
    requires IsBlob(blob, t) && j < |t.syms| && symAddr == t.syms[j].addr <= addr
    requires j + 1 < |t.syms| ==> addr < t.syms[j + 1].addr
    requires j < |t.enc| && At(blob, nameOff, t.enc[j]) && nameLen == |t.enc[j]|
    ensures Found(blob, t, addr, j, symAddr, nameOff, nameLen)
  {
    hide At, Blob;
  }

  lemma BlobSized(blob: seq<Byte>, t: Table)
    requires IsBlob(blob, t)
    ensures Sized(t) && |t.enc| == |t.syms|
  {
  }

  lemma AtFits(blob: seq<Byte>, off: nat, s: seq<Byte>)
    requires At(blob, off, s)
    ensures off + |s| <= |blob|
  {
  }

  lemma DeltaIs(blob: seq<Byte>, t: Table, from: nat, i: nat)
    requires IsBlob(blob, t) && from % BLOCK == 0 && i < BLOCK && from + i < |t.syms|
    ensures i > 0 ==> t.syms[from + i - 1].addr + Delta(t, from + i) == t.syms[from + i].addr < TWO64
  {
    hide IsBlob;
    if i > 0 {
      InBlock(from, i);
      NextAddress(blob, t, from + i);
    }
  }

  lemma InBlock(from: nat, i: nat)
    requires from % BLOCK == 0 && i < BLOCK
    ensures (from + i) % BLOCK == i
  {
  }

  lemma NextAddress(blob: seq<Byte>, t: Table, j: nat)
    requires IsBlob(blob, t) && 0 < j < |t.syms|
    ensures t.syms[j - 1].addr < t.syms[j].addr < TWO64
  {
  }

  /** Finds the symbol inside the block the index gave. */
  method SearchBlock(blob: seq<Byte>, h: Header, block: nat, addr: nat, ghost t: Table)
    returns (ok: bool, symAddr: nat, nameOff: nat, nameLen: nat)
    requires h.Header?
    ensures IsBlob(blob, t) && h == ParseHeader(blob) && block < Blocks(|t.syms|) && BlockStarts(t, block, addr)
            && !BlockStarts(t, block + 1, addr)
        ==> ok && exists j: nat :: Found(blob, t, addr, j, symAddr, nameOff, nameLen)
  {
    hide Stream, Index, Pool, Directory, Blob, Encoded, At, ReadU32, ReadU64, ParseHeader, Found, Pow2, Shl;
    ghost var known := IsBlob(blob, t) && h == ParseHeader(blob) && block < Blocks(|t.syms|)
      && BlockStarts(t, block, addr) && !BlockStarts(t, block + 1, addr);
    ok, symAddr, nameOff, nameLen := false, 0, 0, 0;
    if known {
      HeaderOf(blob, t);
      IndexReads(blob, t, block);
      EntryCount(t, |t.syms|);
      BlockExtent(t, block, addr);
    }
    hide IsBlob, StreamOffset, Blocks;
    var firstAddr, streamOff := ReadU64(blob, h.indexOffset + block * 16),
      ReadU32(blob, h.indexOffset + block * 16 + 8);
    if firstAddr.Missing? || streamOff.Missing? {
      return;
    }
    var blockSize := Pow2(h.blockShift);
    var startSym := Shl(block, h.blockShift) % TWO32;
    var left := (h.count + TWO32 - startSym) % TWO32;
    var count := if left < blockSize then left else blockSize;
    ok, symAddr, nameOff, nameLen :=
      ScanBlock(blob, h.streamOffset + streamOff.value, count, firstAddr.value, addr, t, startSym);
  }

  // ----- the lookup -----

  /** The nearest symbol at or below an address. On the encoder's blob of a table it finds the right symbol and its
      original name, cut to the buffer, and finds nothing exactly when the address is outside the text or before the
      first symbol. On any other bytes it still reads only inside the blob. */
  method Lookup(blob: seq<Byte>, addr: nat, cap: nat, ghost t: Table)
      returns (status: Status, symAddr: nat, name: seq<Byte>)
    ensures status == Ok || status == ErrNotFound
    ensures IsBlob(blob, t) ==> (status == Ok <==> t.base <= addr < t.end && t.syms[0].addr <= addr)
    ensures IsBlob(blob, t) && status == Ok ==>
              exists j: nat :: Covering(t.syms, addr, j) && symAddr == t.syms[j].addr
                && name == Cut(t.syms[j].name, cap)
    ensures blob == EmptyTable() ==> status == ErrNotFound
  {
    hide Stream, Index, Pool, Directory, Blob, Encoded, At, ReadU32, ReadU64, Cut, Expand;
    symAddr, name := 0, [];
    var h := ParseHeader(blob);
    ghost var known := IsBlob(blob, t);
    if known {
      HeaderOf(blob, t);
      TokensOf(blob, t);
    }
    if blob == EmptyTable() {
      EmptyHeader();
    }
    hide ParseHeader, IsBlob, TokensAt, EmptyTable, Known;
    if h.NoHeader? || h.count == 0 || h.indexCount == 0 || h.blockShift > 31 || addr < h.base || addr >= h.end {
      return ErrNotFound, symAddr, name;
    }
    if h.indexOffset + h.indexCount * 16 > |blob| || h.streamOffset + h.streamSize > |blob| {
      return ErrNotFound, symAddr, name;
    }
    var ok, block := FindBlock(blob, h, addr, t);
    if !ok {
      return ErrNotFound, symAddr, name;
    }
    var nameOff, nameLen;
    ok, symAddr, nameOff, nameLen := SearchBlock(blob, h, block, addr, t);
    if !ok {
      return ErrNotFound, symAddr, name;
    }
    ghost var j: nat := 0;
    ghost var s := [];
    if known {
      j :| Found(blob, t, addr, j, symAddr, nameOff, nameLen);
      s := t.enc[j];
      NameKnown(t, j);
    }
    ok, name := ExpandName(blob, h.tokenOffset, h.tokenCount, nameOff, nameLen, cap, t.tokens, s);
    if !ok {
      return ErrNotFound, symAddr, name;
    }
    status := Ok;
  }

  lemma NameKnown(t: Table, j: nat)
    requires KsymFormat.TableOk(t) && j < |t.syms|
    ensures Known(|t.tokens|, t.enc[j]) && Expand(t.tokens, t.enc[j]) == t.syms[j].name
  {
    assert MeansOne(t.tokens, t.enc[j], t.syms[j].name);
  }

  lemma TokensOf(blob: seq<Byte>, t: Table)
    requires IsBlob(blob, t)
    ensures TokensAt(blob, TokenOffset(t), t.tokens)
  {
    hide At, Stream, Index, Pool, Directory, Blob, HeaderFront, HeaderBack;
    Sections(t);
  }

  function EmptyTable(): seq<Byte> {
    HeaderFront(0, 0, 0) + HeaderBack(0, HEADER_SIZE, 0, HEADER_SIZE, 0)
  }

  lemma EmptyHeader()
    ensures ParseHeader(EmptyTable()).Header? && ParseHeader(EmptyTable()).count == 0
  {
    hide HeaderFront, HeaderBack, ReadU16, ReadU32, ReadU64;
    var blob := EmptyTable();
    assert At(blob, 0, blob);
    AtConcat(blob, 0, HeaderFront(0, 0, 0), HeaderBack(0, HEADER_SIZE, 0, HEADER_SIZE, 0));
    FrontReads(blob, 0, 0, 0);
  }

  /** The block's first symbol and how many it has. */
  lemma BlockExtent(t: Table, block: nat, addr: nat)
    requires KsymFormat.TableOk(t) && |t.syms| < TWO32 && BlockStarts(t, block, addr)
             && !BlockStarts(t, block + 1, addr)
    ensures Pow2(BLOCK_SHIFT) == BLOCK && Shl(block, BLOCK_SHIFT) % TWO32 == BLOCK * block
    ensures (|t.syms| + TWO32 - BLOCK * block) % TWO32 == |t.syms| - BLOCK * block
    ensures var left := |t.syms| - BLOCK * block;
            var count := if left < BLOCK then left else BLOCK;
            && 0 < count <= BLOCK && BLOCK * block + count <= |t.syms| && BLOCK * block % BLOCK == 0
            && (BLOCK * block + count < |t.syms| ==> addr < t.syms[BLOCK * block + count].addr)
  {
    hide KsymFormat.TableOk;
    assert Pow2(3) == 8;
    ShiftSix(block);
  }

  lemma ShiftSix(v: nat)
    ensures Shl(v, 6) == 64 * v
  {
    assert Shl(v, 1) == 2 * v;
    assert Shl(v, 2) == 4 * v;
    assert Shl(v, 3) == 8 * v;
    assert Shl(v, 4) == 16 * v;
    assert Shl(v, 5) == 32 * v;
  }
}
