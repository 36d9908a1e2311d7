/** Encoding a symbol table into a blob, and looking an address up in it. */
module Ksym {
  import opened Bits
  import opened Bpe
  import opened KsymFormat
  import opened KsymLookup
  import opened LittleEndian
  import opened Statuses
  import opened Uleb
  import opened Words

  // ----- encoding -----

  ghost predicate Placed(syms: seq<Symbol>, base: nat, end: nat) {
    && (forall i | 0 <= i < |syms| :: base <= syms[i].addr < end)
    && (forall i, j | 0 <= i < j < |syms| :: syms[i].addr < syms[j].addr)
  }

  method CheckPlaced(syms: seq<Symbol>, base: nat, end: nat) returns (ok: bool)
    ensures ok <==> Placed(syms, base, end)
  {
    var i := 0;
    while i < |syms|
      invariant 0 <= i <= |syms|
      invariant forall k | 0 <= k < i :: base <= syms[k].addr < end
      invariant forall j, k | 0 <= j < k < i :: syms[j].addr < syms[k].addr
    {
      if syms[i].addr < base || syms[i].addr >= end {
        return false;
      }
      if i > 0 && syms[i].addr <= syms[i - 1].addr {
        assert !(syms[i - 1].addr < syms[i].addr);
        return false;
      }
      i := i + 1;
    }
    return true;
  }

  /** The blob of the symbols. It is refused exactly when the addresses are out of range or order, or when a
      compressed name is longer than its length byte can say. */
  method Encode(syms: seq<Symbol>, base: nat, end: nat) returns (status: Status, blob: seq<Byte>, ghost t: Table)
    requires (forall i | 0 <= i < |syms| :: Ascii(syms[i].name)) && end < TWO64
    ensures t.syms == syms && t.base == base && t.end == end
    ensures status == Ok || status == ErrInvalid
    ensures syms == [] ==> status == Ok && blob == EmptyTable()
    ensures syms != [] ==> (status == Ok <==> Placed(syms, base, end) && Sized(t))
    ensures syms != [] && status == Ok ==> Small(t.tokens) && blob == Blob(t)
    ensures syms != [] && status == Ok && Fits32(t) ==> KsymFormat.TableOk(t)
  {
    hide Stream, Index, Directory, Pool, Expand, Encoded, U16, U32, U64;
    t := Table(syms, base, end, [], []);
    blob := [];
    if syms == [] {
      return Ok, EmptyTable(), t;
    }
    var placed := CheckPlaced(syms, base, end);
    if !placed {
      return ErrInvalid, blob, t;
    }
    var names := NamesOf(syms);
    var tokens, enc := Compress(names);
    var table := Table(syms, base, end, tokens, enc);
    t := table;
    var ok, stream, index := Streams(table);
    if !ok {
      return ErrInvalid, blob, t;
    }
    TokensSmall(tokens);
    var dir, pool := TokenSections(tokens);
    var tokenOffset := HEADER_SIZE + |index|;
    var streamOffset := tokenOffset + |dir| + |pool|;
    blob := HeaderFront(|syms|, base, end)
      + HeaderBack(Blocks(|syms|), tokenOffset, |tokens|, streamOffset, |stream|) + index + dir + pool + stream;
    assert blob == Blob(t);
    Sections(t);
    forall i | 0 <= i < |syms| ensures MeansOne(tokens, enc[i], syms[i].name) {
      assert MeansOne(tokens, enc[i], names[i]);
    }
    status := Ok;
  }

  method NamesOf(syms: seq<Symbol>) returns (names: seq<seq<Byte>>)
    requires forall i | 0 <= i < |syms| :: Ascii(syms[i].name)
    ensures |names| == |syms| && forall i | 0 <= i < |names| :: names[i] == syms[i].name && Ascii(names[i])
  {
    names := [];
    var i := 0;
    while i < |syms|
      invariant 0 <= i <= |syms| && |names| == i
      invariant forall k | 0 <= k < i :: names[k] == syms[k].name && Ascii(names[k])
    {
      names := names + [syms[i].name];
      i := i + 1;
    }
  }

  /** One pass over the symbols writes the stream and, every 64 symbols, an index entry. */
  method Streams(t: Table) returns (ok: bool, stream: seq<Byte>, index: seq<Byte>)
    requires |t.enc| == |t.syms| && Placed(t.syms, t.base, t.end)
    ensures ok <==> Sized(t)
    ensures ok ==> stream == Stream(t, |t.syms|) && index == Index(t, Blocks(|t.syms|))
  {
    hide Encoded, U32, U64, Blocks, Stream, Index, Delta, Sized;
    BlocksNone();
    if Sized(t) {
      NothingYet(t);
    }
    stream, index := [], [];
    var i, prev := 0, 0;
    while i < |t.syms|
      invariant 0 <= i <= |t.syms|
      invariant forall k | 0 <= k < i :: |t.enc[k]| <= 255
      invariant i > 0 ==> prev == t.syms[i - 1].addr
      invariant Blocks(i) <= Blocks(|t.syms|)
      invariant Sized(t) ==> stream == Stream(t, i) && index == Index(t, Blocks(i))
    {
      BlocksBound(i, |t.syms|);
      if Sized(t) {
        StreamStep(t, i);
        IndexStep(t, i);
      }
      DeltaStep(t, i);
      if i % BLOCK == 0 {
        index := index + (U64(t.syms[i].addr) + (U32(|stream|) + U32(0)));
      }
      var delta := if i % BLOCK == 0 then 0 else t.syms[i].addr - prev;
      var number := Write(delta);
      if |t.enc[i]| > 255 {
        TooLong(t, i);
        return false, stream, index;
      }
      stream := stream + (number + ([|t.enc[i]|] + t.enc[i]));
      prev := t.syms[i].addr;
      i := i + 1;
    }
    ok := true;
    AllShort(t);
  }

  lemma TooLong(t: Table, i: nat)
    requires i < |t.enc| && |t.enc[i]| > 255
    ensures !Sized(t)
  {
  }

  lemma AllShort(t: Table)
    requires |t.enc| == |t.syms| && forall k | 0 <= k < |t.enc| :: |t.enc[k]| <= 255
    ensures Sized(t)
  {
  }

  lemma NothingYet(t: Table)
    requires Sized(t)
    ensures Stream(t, 0) == [] && Index(t, 0) == []
  {
  }

  lemma StreamStep(t: Table, i: nat)
    requires Sized(t) && i < |t.syms|
    ensures |t.enc[i]| <= 255
    ensures Stream(t, i + 1) == Stream(t, i) + (Encoded(Delta(t, i)) + ([|t.enc[i]|] + t.enc[i]))
  {
  }

  lemma DeltaStep(t: Table, i: nat)
    requires Placed(t.syms, t.base, t.end) && i < |t.syms|
    ensures i % BLOCK == 0 ==> Delta(t, i) == 0
    ensures i % BLOCK != 0 ==>
            i > 0 && t.syms[i].addr >= t.syms[i - 1].addr && Delta(t, i) == t.syms[i].addr - t.syms[i - 1].addr
  {
  }

  lemma IndexStep(t: Table, i: nat)
    requires Sized(t) && i < |t.syms| && Blocks(i) <= Blocks(i + 1) <= Blocks(|t.syms|)
    ensures i % BLOCK == 0 ==>
            Index(t, Blocks(i + 1)) == Index(t, Blocks(i)) + (U64(t.syms[i].addr) + (U32(|Stream(t, i)|) + U32(0)))
    ensures i % BLOCK != 0 ==> Index(t, Blocks(i + 1)) == Index(t, Blocks(i))
  {
    hide Stream, U32, U64;
    BlockSteps(i);
  }

  lemma BlocksNone()
    ensures Blocks(0) == 0
  {
  }

  lemma BlocksBound(i: nat, n: nat)
    requires i < n
    ensures Blocks(i) <= Blocks(i + 1) <= Blocks(n)
  {
  }

  lemma BlockSteps(i: nat)
    ensures i % BLOCK == 0 ==> Blocks(i + 1) == Blocks(i) + 1 && BLOCK * Blocks(i) == i
    ensures i % BLOCK != 0 ==> Blocks(i + 1) == Blocks(i)
  {
  }

  method TokenSections(tokens: seq<seq<Byte>>) returns (dir: seq<Byte>, pool: seq<Byte>)
    requires Small(tokens)
    ensures dir == Directory(tokens, |tokens|) && pool == Pool(tokens, |tokens|)
  {
    hide U16;
    dir, pool := [], [];
    var k := 0;
    while k < |tokens|
      invariant 0 <= k <= |tokens| && dir == Directory(tokens, k) && pool == Pool(tokens, k)
    {
      dir := dir + (U16(|pool|) + ([|tokens[k]|] + [0]));
      pool := pool + tokens[k];
      k := k + 1;
    }
  }

  // ----- both together -----

  /** Encoding a table and looking an address up in the result is a linear search in the table, with names intact. */
  method EncodeThenLookup(syms: seq<Symbol>, base: nat, end: nat, addr: nat, cap: nat)
    returns (encoded: Status, blob: seq<Byte>, found: Status, symAddr: nat, name: seq<Byte>, ghost t: Table)
    requires (forall i | 0 <= i < |syms| :: Ascii(syms[i].name)) && end < TWO64
    ensures encoded == Ok && syms != [] ==> Sized(t) && Small(t.tokens) && blob == Blob(t)
    ensures encoded == Ok && (syms == [] || Fits32(t)) ==>
              (found == Ok <==> base <= addr < end && syms != [] && syms[0].addr <= addr)
    ensures encoded == Ok && (syms == [] || Fits32(t)) && found == Ok ==>
              exists j: nat :: Covering(syms, addr, j) && symAddr == syms[j].addr && name == Cut(syms[j].name, cap)
  {
    hide Blob, Cut, KsymFormat.TableOk, EmptyTable, HeaderFront, HeaderBack, Fits32;
    encoded, blob, t := Encode(syms, base, end);
    found, symAddr, name := Lookup(blob, addr, cap, t);
    if syms != [] && encoded == Ok && Fits32(t) {
      assert IsBlob(blob, t);
      if found == Ok {
        ghost var j: nat :| Covering(t.syms, addr, j) && symAddr == t.syms[j].addr && name == Cut(t.syms[j].name, cap);
        assert Covering(syms, addr, j);
      }
    }
  }

  /** The lookup for a relocated kernel: addresses are moved back before, and forward after. */
  method LookupSlid(blob: seq<Byte>, addr: nat, slide: nat, cap: nat, ghost t: Table)
      returns (status: Status, symAddr: nat, name: seq<Byte>)
    ensures status == Ok || status == ErrNotFound
    ensures addr < slide ==> status == ErrNotFound
    ensures IsBlob(blob, t) ==>
            (status == Ok <==> t.base + slide <= addr < t.end + slide && t.syms[0].addr + slide <= addr)
    ensures IsBlob(blob, t) && status == Ok ==>
              exists j: nat :: Covering(t.syms, addr - slide, j) && symAddr == t.syms[j].addr + slide
                && name == Cut(t.syms[j].name, cap)
  {
    hide Blob, Cut;
    symAddr, name := 0, [];
    if addr < slide {
      return ErrNotFound, symAddr, name;
    }
    status, symAddr, name := Lookup(blob, addr - slide, cap, t);
    if status != Ok {
      return;
    }
    symAddr := symAddr + slide;
  }
}
