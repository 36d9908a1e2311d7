/** Why the builder refuses incomplete codes: exactly the complete ones decode whatever they are given. */
module HuffmanComplete {
  import opened Bits
  import opened Huffman

  /** Every string that is long enough starts with a code. */
  ghost predicate DecodesAll(lengths: seq<nat>) {
    forall bits: seq<bool> | |bits| >= MAX_BITS :: HasCode(lengths, bits)
  }

  ghost predicate HasCode(lengths: seq<nat>, bits: seq<bool>) {
    exists s: nat :: CodeStarts(lengths, s, bits)
  }

  // ----- complete codes -----

  /** A string whose first bits, as a number, are in the range of a length starts with a code of that length. */
  lemma InRangeHasCode(lengths: seq<nat>, bits: seq<bool>, len: nat)
    requires 1 <= len <= |bits| && NextCode(lengths, len) <= MsbValue(bits[..len]) < Used(lengths, len)
    ensures HasCode(lengths, bits)
  {
    hide NextCode, Count, MsbValue;
    var s := SymbolOfRank(lengths, len, MsbValue(bits[..len]) - NextCode(lengths, len));
    MsbCodeOfValue(bits[..len]);
    assert Code(lengths, s) == bits[..len];
    assert CodeStarts(lengths, s, bits);
  }

  lemma NextBit(lengths: seq<nat>, bits: seq<bool>, len: nat)
    requires len < |bits|
    ensures MsbValue(bits[..len + 1]) >= 2 * MsbValue(bits[..len])
    ensures NextCode(lengths, len + 1) == 2 * Used(lengths, len)
  {
    hide Count;
    assert bits[..len + 1][..len] == bits[..len];
  }

  /** Past the codes of up to `len` bits, the number is in the range of a longer one, or past all of them. */
  lemma {:induction false} FindCode(lengths: seq<nat>, bits: seq<bool>, len: nat)
    requires len <= MAX_BITS <= |bits| && MsbValue(bits[..len]) >= Used(lengths, len)
    ensures HasCode(lengths, bits) || MsbValue(bits[..MAX_BITS]) >= Used(lengths, MAX_BITS)
    decreases MAX_BITS - len
  {
    hide MsbValue, NextCode, Count, HasCode, Used;
    if len < MAX_BITS {
      NextBit(lengths, bits, len);
      if MsbValue(bits[..len + 1]) < Used(lengths, len + 1) {
        InRangeHasCode(lengths, bits, len + 1);
      } else {
        FindCode(lengths, bits, len + 1);
      }
    }
  }

  lemma Complete(lengths: seq<nat>, bits: seq<bool>)
    requires KraftSum(lengths) >= Pow2(MAX_BITS) && |bits| >= MAX_BITS
    ensures HasCode(lengths, bits)
  {
    hide MsbValue, KraftSum, HasCode, Pow2, Used;
    NoneBefore(lengths, bits);
    FindCode(lengths, bits, 0);
    UsedIsKraft(lengths);
    assert MsbValue(bits[..MAX_BITS]) < Pow2(MAX_BITS);
  }

  lemma NoneBefore(lengths: seq<nat>, bits: seq<bool>)
    ensures MsbValue(bits[..0]) == 0 == Used(lengths, 0)
  {
  }

  // ----- incomplete codes -----

  function Ones(n: nat): (s: seq<bool>)
    ensures |s| == n && forall i | 0 <= i < n :: s[i]
  {
    seq(n, _ => true)
  }

  lemma {:induction false} OnesValue(n: nat)
    ensures MsbValue(Ones(n)) == Pow2(n) - 1
  {
    if n > 0 {
      OnesValue(n - 1);
      assert Ones(n)[..n - 1] == Ones(n - 1);
    }
  }

  /** Where codes are left over, the last number of each length is one. */
  lemma RoomLeft(lengths: seq<nat>, len: nat)
    requires KraftSum(lengths) < Pow2(MAX_BITS) && len <= MAX_BITS
    ensures Used(lengths, len) < Pow2(len)
  {
    hide NextCode, KraftSum, Pow2;
    UsedIsKraft(lengths);
    if len < MAX_BITS {
      UsedGrows(lengths, len, MAX_BITS);
      Pow2Add(MAX_BITS - len, len);
      if Used(lengths, len) >= Pow2(len) {
        TimesMonotone(Pow2(MAX_BITS - len), Pow2(len), Used(lengths, len));
      }
    }
  }

  lemma TimesMonotone(p: nat, a: nat, b: nat)
    requires a <= b
    ensures p * a <= p * b
  {
  }

  lemma Incomplete(lengths: seq<nat>)
    requires InRange(lengths) && KraftSum(lengths) < Pow2(MAX_BITS)
    ensures !HasCode(lengths, Ones(MAX_BITS))
  {
    hide NextCode, KraftSum, Pow2, MsbValue, Count, Used;
    forall s: nat ensures !CodeStarts(lengths, s, Ones(MAX_BITS)) {
      if CodeStarts(lengths, s, Ones(MAX_BITS)) {
        var len := lengths[s];
        assert Code(lengths, s) == Ones(len);
        OnesValue(len);
        CodeValueFits(lengths, s);
        RoomLeft(lengths, len);
        MsbValueOfCode(CodeValue(lengths, s), len);
      }
    }
  }

  /** Of lengths that are not over-subscribed, exactly those whose Kraft sum is full decode everything. */
  lemma CompleteExactly(lengths: seq<nat>)
    requires InRange(lengths) && KraftSum(lengths) <= Pow2(MAX_BITS)
    ensures DecodesAll(lengths) <==> KraftSum(lengths) == Pow2(MAX_BITS)
  {
    hide KraftSum, Pow2, HasCode;
    if KraftSum(lengths) == Pow2(MAX_BITS) {
      forall bits: seq<bool> | |bits| >= MAX_BITS ensures HasCode(lengths, bits) {
        Complete(lengths, bits);
      }
    } else {
      Incomplete(lengths);
    }
  }

  // ----- what is accepted -----

  lemma {:induction false} ShortKraft(lengths: seq<nat>)
    requires AtMost(lengths, 1)
    ensures KraftSum(lengths) == Count(lengths, 1) * Pow2(MAX_BITS - 1)
  {
    hide Pow2;
    if lengths != [] {
      ShortKraft(lengths[..|lengths| - 1]);
    }
  }

  lemma {:induction false} NoneCoded(lengths: seq<nat>)
    requires AtMost(lengths, 1)
    ensures Count(lengths, 1) == 0 <==> AtMost(lengths, 0)
  {
    if lengths != [] {
      var n := |lengths| - 1;
      NoneCoded(lengths[..n]);
      if AtMost(lengths[..n], 0) && lengths[n] == 0 {
        assert forall i | 0 <= i < n :: lengths[i] == lengths[..n][i];
      }
    }
  }

  /** A single symbol, of one bit. */
  predicate SingleBit(lengths: seq<nat>) {
    AtMost(lengths, 1) && Count(lengths, 1) == 1
  }

  lemma SingleBitKraft(lengths: seq<nat>)
    requires AtMost(lengths, 1) && !AtMost(lengths, 0)
    ensures KraftSum(lengths) < Pow2(MAX_BITS) <==> SingleBit(lengths)
  {
    hide KraftSum, Count, Pow2;
    ShortKraft(lengths);
    NoneCoded(lengths);
    HalfAndWhole();
    OneHalf(Count(lengths, 1), Pow2(MAX_BITS - 1));
  }

  lemma HalfAndWhole()
    ensures Pow2(MAX_BITS) == 2 * Pow2(MAX_BITS - 1)
  {
  }

  lemma OneHalf(n: nat, p: nat)
    requires p > 0
    ensures n * p < 2 * p <==> n < 2
  {
    if n >= 2 {
      assert n * p == 2 * p + (n - 2) * p;
    }
  }

  /** Accepted are: no code at all, a code that is not over-subscribed and decodes everything, and, except for the
      code lengths themselves, a single code of one bit. */
  lemma AcceptedExactly(lengths: seq<nat>, isCodeLengths: bool)
    requires InRange(lengths) && KraftSum(lengths) <= Pow2(MAX_BITS)
    ensures Acceptable(lengths, isCodeLengths) <==>
            AtMost(lengths, 0) || DecodesAll(lengths) || (!isCodeLengths && SingleBit(lengths))
  {
    hide KraftSum, Count, Pow2, DecodesAll, SingleBit;
    CompleteExactly(lengths);
    if AtMost(lengths, 1) && !AtMost(lengths, 0) {
      SingleBitKraft(lengths);
    } else if !AtMost(lengths, 0) {
      NotSingle(lengths);
    }
  }

  lemma NotSingle(lengths: seq<nat>)
    requires !AtMost(lengths, 1)
    ensures !SingleBit(lengths)
  {
  }
}
