/** The code reader of the GIF decoder: variable-width codes over a chain of sub-blocks. */
module GifStream {
  import opened Bits

  /** The data bytes from `pos` on, with `remain` bytes left in the current sub-block. A zero length byte, or the
      end of the file, ends them. */
  ghost function Payload(d: seq<Byte>, pos: nat, remain: nat): seq<Byte>
    decreases |d| - pos
  {
    if pos >= |d| then []
    else if remain > 0 then [d[pos]] + Payload(d, pos + 1, remain - 1)
    else if d[pos] == 0 then []
    else Payload(d, pos + 1, d[pos])
  }

  class CodeReader {
    const d: seq<Byte>
    var pos: nat
    var remain: nat
    var buf: nat
    var bits: nat
    var done: bool
    ghost var held: seq<bool>

    ghost predicate Valid()
      reads this
    {
      bits == |held| && buf == LsbValue(held) && (done ==> remain == 0 || pos >= |d|)
    }

    /** The bits still to come. */
    ghost function Rest(): seq<bool>
      reads this
    {
      held + if done then [] else BytesToBits(Payload(d, pos, remain))
    }

    constructor (d: seq<Byte>, pos: nat)
      ensures Valid() && this.d == d && Rest() == BytesToBits(Payload(d, pos, 0))
    {
      this.d, this.pos := d, pos;
      remain, buf, bits, done := 0, 0, 0, false;
      held := [];
      new;
      assert [] + BytesToBits(Payload(d, pos, 0)) == BytesToBits(Payload(d, pos, 0));
    }

    /** Buffers bytes until there are `width` bits; fails exactly when there are fewer. */
    method Fill(width: nat) returns (ok: bool)
      requires Valid()
      modifies this
      ensures Valid() && Rest() == old(Rest()) && (ok <==> width <= |old(Rest())|) && (ok ==> width <= bits)
    {
      hide LsbValue, Payload, BytesToBits, LsbFirst;
      ghost var rest := Rest();
      while bits < width
        invariant Valid() && Rest() == rest
        decreases |d| - pos, if remain == 0 then 1 else 0
      {
        PayloadStep(d, pos, remain);
        if remain == 0 {
          if done || pos >= |d| {
            done := true;
            return false;
          }
          remain := d[pos];
          pos := pos + 1;
          if remain == 0 {
            done := true;
            assert Rest() == held;
            return false;
          }
          PayloadStep(d, pos, remain);
        }
        if pos >= |d| {
          done := true;
          return false;
        }
        TakeByte(held, d[pos], Payload(d, pos + 1, remain - 1));
        buf := buf + Shl(d[pos], bits);
        held := held + LsbFirst(d[pos], 8);
        pos := pos + 1;
        bits := bits + 8;
        remain := remain - 1;
      }
      ok := true;
    }

    /** Takes the next `width` bits, least significant first; fails exactly when fewer are left. */
    method ReadCode(width: nat) returns (ok: bool, code: nat)
      requires Valid()
      modifies this
      ensures Valid()
      ensures ok <==> width <= |old(Rest())|
      ensures ok ==> code == LsbValue(old(Rest())[..width]) && Rest() == old(Rest())[width..]
    {
      hide LsbValue, Payload, BytesToBits, LsbFirst;
      ghost var rest := Rest();
      code := 0;
      ok := Fill(width);
      if !ok {
        return;
      }
      assert held[..width] + held[width..] == held;
      assert rest[..width] == held[..width];
      LsbValueConcat(held[..width], held[width..]);
      LsbValueDrop(held, width);
      code := buf - Shl(Shr(buf, width), width);
      buf := Shr(buf, width);
      bits := bits - width;
      held := held[width..];
    }
  }

  lemma PayloadStep(d: seq<Byte>, pos: nat, remain: nat)
    ensures BytesToBits([]) == []
    ensures pos >= |d| ==> Payload(d, pos, remain) == []
    ensures pos < |d| && remain == 0 ==>
            Payload(d, pos, remain) == if d[pos] == 0 then [] else Payload(d, pos + 1, d[pos])
    ensures pos < |d| && remain > 0 ==> Payload(d, pos, remain) == [d[pos]] + Payload(d, pos + 1, remain - 1)
  {
  }

  lemma TakeByte(held: seq<bool>, b: Byte, tail: seq<Byte>)
    ensures held + BytesToBits([b] + tail) == held + LsbFirst(b, 8) + BytesToBits(tail)
    ensures LsbValue(held + LsbFirst(b, 8)) == LsbValue(held) + Shl(b, |held|)
  {
    OneByteBits(b, tail);
    hide LsbFirst, LsbValue, BytesToBits;
    ConcatAssoc(held, LsbFirst(b, 8), BytesToBits(tail));
    LsbValueConcat(held, LsbFirst(b, 8));
    Pow2Eight();
    LsbValueOfField(b, 8);
  }

  lemma OneByteBits(b: Byte, tail: seq<Byte>)
    ensures BytesToBits([b] + tail) == LsbFirst(b, 8) + BytesToBits(tail)
  {
    hide LsbFirst;
    assert ([b] + tail)[1..] == tail;
  }
}
