/** Unsigned LEB128 numbers. */
module Uleb {
  import opened Bits
  import opened LittleEndian
  import opened Words

  /** Seven bits a byte, low ones first; the top bit says that more follow. */
  function Encoded(v: nat): (s: seq<Byte>)
    ensures |s| > 0
  {
    if v < 128 then [v] else [v % 128 + 128] + Encoded(v / 128)
  }

  method Write(v: nat) returns (s: seq<Byte>)
    ensures s == Encoded(v)
  {
    s := [];
    var x := v;
    while true
      invariant s + Encoded(x) == Encoded(v)
      decreases x
    {
      var low := x % 128;
      var was := x;
      x := x / 128;
      if x == 0 {
        return s + [low];
      }
      assert Encoded(was) == [low + 128] + Encoded(x);
      ConcatAssoc(s, [low + 128], Encoded(x));
      s := s + [low + 128];
    }
  }

  lemma {:induction false} ShlSum(a: nat, b: nat, k: nat)
    ensures Shl(a + b, k) == Shl(a, k) + Shl(b, k)
  {
    if k > 0 {
      ShlSum(a, b, k - 1);
    }
  }

  lemma {:induction false} ShlShl(a: nat, j: nat, k: nat)
    ensures Shl(Shl(a, j), k) == Shl(a, j + k)
  {
    if k > 0 {
      ShlShl(a, j, k - 1);
    }
  }

  lemma Shl7(a: nat)
    ensures Shl(a, 7) == 128 * a
  {
    assert Shl(a, 1) == 2 * a;
    assert Shl(a, 2) == 4 * a;
    assert Shl(a, 3) == 8 * a;
    assert Shl(a, 4) == 16 * a;
    assert Shl(a, 5) == 32 * a;
    assert Shl(a, 6) == 64 * a;
  }

  lemma {:induction false} ShlBig(a: nat, k: nat)
    requires a >= 1
    ensures Shl(a, k) >= Pow2(k)
  {
    if k > 0 {
      ShlBig(a, k - 1);
    }
  }

  /** One byte's seven bits and the rest. */
  lemma ShlSplit(x: nat, k: nat)
    ensures Shl(x, k) == Shl(x % 128, k) + Shl(x / 128, k + 7)
  {
    ShlSum(x % 128, 128 * (x / 128), k);
    Shl7(x / 128);
    ShlShl(x / 128, 7, k);
  }

  /** What follows would be at least 2^70, so a number of 64 bits has ended by then. */
  lemma NoTenthMore(x: nat, shift: nat, v: nat)
    requires v < TWO64 && Shl(x, shift) <= v && shift >= 64
    ensures x == 0
  {
    if x >= 1 {
      ShlBig(x, shift);
      Pow2Monotone(64, shift);
      Pow64();
    }
  }

  lemma Pow64()
    ensures Pow2(64) == TWO64
  {
    Pow2Eight();
    Pow2Add(8, 8);
    Pow2Add(16, 16);
    Pow2Add(32, 32);
  }

  /** Reads a number at an offset; more than ten bytes, or the end of the blob, make it fail. */
  method ReadNumber(blob: seq<Byte>, off: nat, ghost number: nat) returns (ok: bool, v: nat, end: nat)
    ensures v < TWO64
    ensures At(blob, off, Encoded(number)) && number < TWO64 ==> ok && v == number && end == off + |Encoded(number)|
  {
    hide Encoded, Shl;
    v, end := 0, off;
    var shift := 0;
    ghost var known := At(blob, off, Encoded(number)) && number < TWO64;
    ghost var x := number;
    assert Shl(x, 0) == x by {
      ShlNone(x);
    }
    while true
      invariant shift < 64 && v < TWO64
      invariant known ==>
                  At(blob, end, Encoded(x)) && end + |Encoded(x)| == off + |Encoded(number)|
                  && v + Shl(x, shift) == number
      decreases 64 - shift
    {
      var byte := ReadU8(blob, end);
      if known {
        OneByte(blob, end, x);
        ShlSplit(x, shift);
      }
      if byte.Missing? {
        return false, v, end;
      }
      end := end + 1;
      v := (v + Shl(byte.value % 128, shift)) % TWO64;
      if byte.value < 128 {
        if known {
          ShlZero(shift + 7);
        }
        return true, v, end;
      }
      shift := shift + 7;
      if known {
        x := x / 128;
        if shift >= 64 {
          NoTenthMore(x, shift, number);
        }
      }
      if shift >= 64 {
        return false, v, end;
      }
    }
  }

  lemma ShlNone(a: nat)
    ensures Shl(a, 0) == a
  {
  }

  lemma ShlZero(k: nat)
    ensures Shl(0, k) == 0
  {
    if k > 0 {
      ShlZero(k - 1);
    }
  }

  lemma OneByte(blob: seq<Byte>, off: nat, x: nat)
    requires At(blob, off, Encoded(x))
    ensures ReadU8(blob, off) == Value(if x < 128 then x else x % 128 + 128)
    ensures x < 128 ==> |Encoded(x)| == 1
    ensures x >= 128 ==> At(blob, off + 1, Encoded(x / 128)) && |Encoded(x)| == 1 + |Encoded(x / 128)|
  {
    if x >= 128 {
      AtConcat(blob, off, [x % 128 + 128], Encoded(x / 128));
      ReadAt8(blob, off, x % 128 + 128);
    } else {
      ReadAt8(blob, off, x);
    }
  }
}
