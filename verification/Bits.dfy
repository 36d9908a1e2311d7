/** Bit strings: the two field orders of section 3.1.1 of RFC 1951 and the byte packing under them. */
module Bits {

  type Byte = b: int | 0 <= b < 256

  /** What a parser yields: a value and the unread bits, or nothing. */
  datatype Parsed<+T> = NoParse | Got(value: T, rest: seq<bool>)

  function Pow2(n: nat): (p: nat)
    ensures p > 0
  {
    if n == 0 then 1 else 2 * Pow2(n - 1)
  }

  lemma Pow2Add(m: nat, n: nat)
    ensures Pow2(m + n) == Pow2(m) * Pow2(n)
  {
    if m == 0 {
    } else {
      Pow2Add(m - 1, n);
      assert Pow2(m + n) == 2 * Pow2(m - 1 + n);
    }
  }

  lemma {:induction false} Pow2Monotone(a: nat, b: nat)
    requires a <= b
    ensures Pow2(a) <= Pow2(b)
  {
    if a < b {
      Pow2Monotone(a, b - 1);
    }
  }

  function BitOf(b: bool): (v: nat)
    ensures v <= 1
  {
    if b then 1 else 0
  }

  // ----- fields packed least significant bit first -----

  /** The `n` low bits of `v`, least significant first. */
  function LsbFirst(v: nat, n: nat): (s: seq<bool>)
    ensures |s| == n
  {
    if n == 0 then [] else [v % 2 == 1] + LsbFirst(v / 2, n - 1)
  }

  function LsbValue(s: seq<bool>): (v: nat)
    ensures v < Pow2(|s|)
  {
    if s == [] then 0 else BitOf(s[0]) + 2 * LsbValue(s[1..])
  }

  lemma {:induction false} LsbValueOfField(v: nat, n: nat)
    requires v < Pow2(n)
    ensures LsbValue(LsbFirst(v, n)) == v
  {
    if n == 0 {
    } else {
      LsbValueOfField(v / 2, n - 1);
      assert LsbFirst(v, n)[1..] == LsbFirst(v / 2, n - 1);
    }
  }

  lemma {:induction false} LsbFieldOfValue(s: seq<bool>)
    ensures LsbFirst(LsbValue(s), |s|) == s
  {
    if s == [] {
    } else {
      LsbFieldOfValue(s[1..]);
      assert s == [s[0]] + s[1..];
      assert LsbValue(s) / 2 == LsbValue(s[1..]);
    }
  }

  /** Appending a bit at the top adds its weight: the accumulation step of a field reader. */
  lemma {:induction false} LsbValueSnoc(s: seq<bool>, b: bool)
    ensures LsbValue(s + [b]) == LsbValue(s) + BitOf(b) * Pow2(|s|)
  {
    if s == [] {
      assert [b][1..] == [];
    } else {
      assert (s + [b])[1..] == s[1..] + [b];
      LsbValueSnoc(s[1..], b);
    }
  }

  /** `v` shifted right by `n`. */
  function Shr(v: nat, n: nat): nat {
    if n == 0 then v else Shr(v, n - 1) / 2
  }

  lemma {:induction false} ShrHalf(v: nat, n: nat)
    ensures Shr(v / 2, n) == Shr(v, n + 1)
  {
    if n > 0 {
      ShrHalf(v, n - 1);
    }
  }

  /** `v` shifted left by `n`. */
  function Shl(v: nat, n: nat): nat {
    if n == 0 then v else 2 * Shl(v, n - 1)
  }

  /** Two fields one after the other: the second is shifted past the first. */
  lemma {:induction false} LsbValueConcat(s: seq<bool>, t: seq<bool>)
    ensures LsbValue(s + t) == LsbValue(s) + Shl(LsbValue(t), |s|)
  {
    if s == [] {
      assert s + t == t;
    } else {
      assert (s + t)[1..] == s[1..] + t;
      LsbValueConcat(s[1..], t);
    }
  }

  /** Dropping low bits is shifting right. */
  lemma {:induction false} LsbValueDrop(s: seq<bool>, n: nat)
    requires n <= |s|
    ensures LsbValue(s[n..]) == Shr(LsbValue(s), n)
  {
    if n > 0 {
      assert s[1..][n - 1..] == s[n..];
      LsbValueDrop(s[1..], n - 1);
      assert LsbValue(s) / 2 == LsbValue(s[1..]);
      ShrHalf(LsbValue(s), n - 1);
    }
  }

  /** Bounds that are multiples of the shift carry over to the shifted value. */
  lemma {:induction false} ShrBounds(v: nat, n: nat, lo: nat, hi: nat)
    requires Pow2(n) * lo <= v < Pow2(n) * hi
    ensures lo <= Shr(v, n) < hi
  {
    if n == 0 {
    } else {
      var p := Pow2(n - 1);
      Doubled(p, lo);
      Doubled(p, hi);
      ShrBounds(v / 2, n - 1, lo, hi);
      ShrHalf(v, n - 1);
    }
  }

  lemma Doubled(p: nat, x: nat)
    ensures 2 * p * x == 2 * (p * x)
  {
  }

  // ----- single bits -----

  /** Bit `k` of `v`. */
  predicate Bit(v: nat, k: nat) {
    Shr(v, k) % 2 == 1
  }

  /** One number above another: the low bits are the low number's, the rest the high one's. */
  lemma {:induction false} BitGlued(high: nat, low: nat, n: nat, k: nat)
    requires low < Pow2(n)
    ensures Bit(high * Pow2(n) + low, k) <==> if k < n then Bit(low, k) else Bit(high, k - n)
    decreases n
  {
    if n > 0 {
      var v := high * Pow2(n) + low;
      Doubled(Pow2(n - 1), high);
      assert v == 2 * (high * Pow2(n - 1)) + low;
      assert v / 2 == high * Pow2(n - 1) + low / 2 && v % 2 == low % 2;
      if k > 0 {
        BitGlued(high, low / 2, n - 1, k - 1);
        ShrHalf(v, k - 1);
        ShrHalf(low, k - 1);
      }
    }
  }

  /** Setting a bit that was clear changes no other. */
  lemma BitSet(v: nat, n: nat, k: nat)
    requires !Bit(v, n)
    ensures Bit(v + Pow2(n), k) <==> k == n || Bit(v, k)
  {
    hide *;
    var q, low := Divided(v, Pow2(n));
    BitGlued(q, low, n, k);
    BitGlued(q, low, n, n);
    BitGlued(q + 1, low, n, k);
    NextEven(q, if k < n then 0 else k - n);
  }

  lemma Divided(v: nat, p: nat) returns (q: nat, low: nat)
    requires p > 0
    ensures v == q * p + low && low < p && v + p == (q + 1) * p + low
  {
    q, low := v / p, v % p;
  }

  lemma NextEven(q: nat, k: nat)
    requires !Bit(q, 0)
    ensures Bit(q + 1, k) <==> k == 0 || Bit(q, k)
  {
    if k > 0 {
      assert (q + 1) / 2 == q / 2;
      ShrHalf(q, k - 1);
      ShrHalf(q + 1, k - 1);
    }
  }

  // ----- codes packed most significant bit first -----

  /** The `n` low bits of `v`, most significant first. */
  function MsbFirst(v: nat, n: nat): (s: seq<bool>)
    ensures |s| == n
  {
    if n == 0 then [] else MsbFirst(v / 2, n - 1) + [v % 2 == 1]
  }

  function MsbValue(s: seq<bool>): (v: nat)
    ensures v < Pow2(|s|)
  {
    if s == [] then 0 else 2 * MsbValue(s[..|s| - 1]) + BitOf(s[|s| - 1])
  }

  lemma {:induction false} MsbValueOfCode(v: nat, n: nat)
    requires v < Pow2(n)
    ensures MsbValue(MsbFirst(v, n)) == v
  {
    if n == 0 {
    } else {
      MsbValueOfCode(v / 2, n - 1);
      assert MsbFirst(v, n)[..n - 1] == MsbFirst(v / 2, n - 1);
    }
  }

  lemma {:induction false} MsbCodeOfValue(s: seq<bool>)
    ensures MsbFirst(MsbValue(s), |s|) == s
  {
    if s == [] {
    } else {
      var front := s[..|s| - 1];
      MsbCodeOfValue(front);
      assert s == front + [s[|s| - 1]];
      assert MsbValue(s) / 2 == MsbValue(front);
    }
  }

  /** The leading bits of a code are the code shifted right. */
  lemma {:induction false} MsbFirstTake(v: nat, n: nat, m: nat)
    requires m <= n
    ensures MsbFirst(v, n)[..m] == MsbFirst(Shr(v, n - m), m)
  {
    if m == n {
      assert MsbFirst(v, n)[..n] == MsbFirst(v, n);
    } else {
      MsbFirstTake(v / 2, n - 1, m);
      ShrHalf(v, n - 1 - m);
      assert MsbFirst(v, n)[..m] == MsbFirst(v / 2, n - 1)[..m];
    }
  }

  lemma ConcatAssoc<T>(a: seq<T>, b: seq<T>, c: seq<T>)
    ensures (a + b) + c == a + (b + c)
  {
  }

  // ----- bytes -----

  function BytesToBits(s: seq<Byte>): (bits: seq<bool>)
    ensures |bits| == 8 * |s|
  {
    if s == [] then [] else LsbFirst(s[0], 8) + BytesToBits(s[1..])
  }

  /** Packs bits into bytes, the last byte padded with zero bits. */
  function BitsToBytes(bits: seq<bool>): (s: seq<Byte>)
    ensures |s| == (|bits| + 7) / 8
  {
    if bits == [] then []
    else if |bits| <= 8 then Pow2Eight(); [LsbValue(bits + Zeros(8 - |bits|))]
    else Pow2Eight(); [LsbValue(bits[..8])] + BitsToBytes(bits[8..])
  }

  function Zeros(n: nat): (s: seq<bool>)
    ensures |s| == n && forall i | 0 <= i < n :: !s[i]
  {
    seq(n, _ => false)
  }

  lemma Pow2Eight()
    ensures Pow2(8) == 256
  {
    assert Pow2(4) == 16;
    assert Pow2(6) == 64;
  }

  lemma {:induction false} BytesToBitsConcat(s: seq<Byte>, t: seq<Byte>)
    ensures BytesToBits(s + t) == BytesToBits(s) + BytesToBits(t)
  {
    if s == [] {
      assert s + t == t;
    } else {
      assert (s + t)[1..] == s[1..] + t;
      BytesToBitsConcat(s[1..], t);
    }
  }

  /** Unpacking a packed stream gives it back followed by its zero padding. */
  lemma {:induction false} UnpackPacked(bits: seq<bool>)
    ensures BytesToBits(BitsToBytes(bits)) == bits + Zeros(8 * |BitsToBytes(bits)| - |bits|)
    decreases |bits|
  {
    Pow2Eight();
    if bits == [] {
    } else if |bits| <= 8 {
      LsbFieldOfValue(bits + Zeros(8 - |bits|));
    } else {
      LsbFieldOfValue(bits[..8]);
      UnpackPacked(bits[8..]);
      assert bits == bits[..8] + bits[8..];
      assert BitsToBytes(bits)[1..] == BitsToBytes(bits[8..]);
    }
  }

  /** The padding completes the last byte. */
  lemma PadCount(n: nat)
    ensures 8 * ((n + 7) / 8) - n == (8 - n % 8) % 8
  {
    var q, r := n / 8, n % 8;
    assert n == 8 * q + r;
    if r == 0 {
      assert (n + 7) / 8 == q;
    } else {
      assert (n + 7) / 8 == q + 1;
    }
  }

  lemma Mod8(k: nat, r: nat)
    requires r < 8
    ensures (r + 8 * k) % 8 == r && (r + 8 * k) / 8 == k
  {
  }

  /** Packing an unpacked byte string gives it back. */
  lemma {:induction false} PackUnpacked(s: seq<Byte>)
    ensures BitsToBytes(BytesToBits(s)) == s
  {
    Pow2Eight();
    if s == [] {
    } else {
      var bits := BytesToBits(s);
      LsbValueOfField(s[0], 8);
      PackUnpacked(s[1..]);
      assert bits[..8] == LsbFirst(s[0], 8);
      assert bits[8..] == BytesToBits(s[1..]);
      if |bits| <= 8 {
        assert bits + Zeros(0) == bits[..8];
        assert s == [s[0]];
      } else {
        assert s == [s[0]] + s[1..];
      }
    }
  }
}
