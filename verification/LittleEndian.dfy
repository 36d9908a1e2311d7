/** Little-endian integers in a byte string, and bytes known to stand at an offset. */
module LittleEndian {
  import opened Bits
  import opened Words

  const TWO16 := 0x1_0000

  datatype Read = Missing | Value(value: nat)

  function U16(v: nat): (s: seq<Byte>)
    ensures |s| == 2
  {
    [v % 256, v / 256 % 256]
  }

  function U32(v: nat): (s: seq<Byte>)
    ensures |s| == 4
  {
    U16(v % TWO16) + U16(v / TWO16)
  }

  function U64(v: nat): (s: seq<Byte>)
    ensures |s| == 8
  {
    U32(v % TWO32) + U32(v / TWO32)
  }

  function Join(low: nat, high: nat, unit: nat): nat {
    low + high * unit
  }

  function ReadU8(blob: seq<Byte>, off: nat): Read {
    if off + 1 > |blob| then Missing else Value(blob[off])
  }

  function ReadU16(blob: seq<Byte>, off: nat): Read {
    if off + 2 > |blob| then Missing else Value(Join(blob[off], blob[off + 1], 256))
  }

  function ReadU32(blob: seq<Byte>, off: nat): Read {
    if off + 4 > |blob| then Missing
    else Value(Join(Join(blob[off], blob[off + 1], 256), Join(blob[off + 2], blob[off + 3], 256), 65536))
  }

  function ReadU64(blob: seq<Byte>, off: nat): Read {
    var lo, hi := ReadU32(blob, off), ReadU32(blob, off + 4);
    if lo.Missing? || hi.Missing? then Missing else Value(Join(lo.value, hi.value, TWO32))
  }

  /** `s` stands in `blob` at `off`. */
  predicate At(blob: seq<Byte>, off: nat, s: seq<Byte>) {
    off + |s| <= |blob| && blob[off..off + |s|] == s
  }

  lemma AtConcat(blob: seq<Byte>, off: nat, s: seq<Byte>, t: seq<Byte>)
    ensures At(blob, off, s + t) <==> At(blob, off, s) && At(blob, off + |s|, t)
  {
    var n := |s| + |t|;
    if off + n <= |blob| {
      var whole := blob[off..off + n];
      assert whole[..|s|] == blob[off..off + |s|] && whole[|s|..] == blob[off + |s|..off + n];
      if whole == s + t {
        assert whole[..|s|] == s && whole[|s|..] == t;
      }
      assert whole == whole[..|s|] + whole[|s|..];
    }
  }

  lemma AtIndex(blob: seq<Byte>, off: nat, s: seq<Byte>, i: nat)
    requires At(blob, off, s) && i < |s|
    ensures off + i < |blob| && blob[off + i] == s[i]
  {
    assert blob[off..off + |s|][i] == blob[off + i];
  }

  lemma ReadAt8(blob: seq<Byte>, off: nat, v: Byte)
    requires At(blob, off, [v])
    ensures ReadU8(blob, off) == Value(v)
  {
    AtIndex(blob, off, [v], 0);
  }

  lemma ReadAt16(blob: seq<Byte>, off: nat, v: nat)
    requires At(blob, off, U16(v)) && v < TWO16
    ensures ReadU16(blob, off) == Value(v)
  {
    AtIndex(blob, off, U16(v), 0);
    AtIndex(blob, off, U16(v), 1);
  }

  lemma ReadAt32(blob: seq<Byte>, off: nat, v: nat)
    requires At(blob, off, U32(v)) && v < TWO32
    ensures ReadU32(blob, off) == Value(v)
  {
    hide U16;
    var lo, hi := v % TWO16, v / TWO16;
    AtConcat(blob, off, U16(lo), U16(hi));
    ReadAt16(blob, off, lo);
    ReadAt16(blob, off + 2, hi);
  }

  lemma ReadAt64(blob: seq<Byte>, off: nat, v: nat)
    requires At(blob, off, U64(v)) && v < TWO64
    ensures ReadU64(blob, off) == Value(v)
  {
    hide U32, ReadU32;
    var lo, hi := v % TWO32, v / TWO32;
    AtConcat(blob, off, U32(lo), U32(hi));
    ReadAt32(blob, off, lo);
    ReadAt32(blob, off + 4, hi);
  }
}
