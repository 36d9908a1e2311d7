/** What the tables of sections 3.2.5 and 3.2.7 of RFC 1951 are for: every length, distance and run has its code. */
module DeflateTables {
  import opened Bits
  import opened DeflateFormat

  lemma Powers()
    ensures Pow2(0) == 1 && Pow2(1) == 2 && Pow2(2) == 4 && Pow2(3) == 8 && Pow2(4) == 16 && Pow2(5) == 32
    ensures Pow2(6) == 64 && Pow2(7) == 128 && Pow2(8) == 256 && Pow2(9) == 512 && Pow2(10) == 1024
    ensures Pow2(11) == 2048 && Pow2(12) == 4096 && Pow2(13) == 8192
  {
    assert Pow2(2) == 2 * Pow2(1);
    assert Pow2(4) == 2 * Pow2(3);
    assert Pow2(6) == 2 * Pow2(5);
    assert Pow2(8) == 2 * Pow2(7);
    assert Pow2(10) == 2 * Pow2(9);
    assert Pow2(12) == 2 * Pow2(11);
  }

  // ----- lengths -----

  /** From the ninth code on, four codes share a number of extra bits; the last code has none. */
  lemma LengthWidth(k: nat)
    requires k < LENGTH_CODES
    ensures LengthExtra(k) == if k < 8 || k == 28 then 0 else (k - 4) / 4
  {
  }

  /** Where one code's lengths end the next one's start, up to 258, which also has a code of its own. */
  lemma LengthSteps(k: nat)
    requires k < LENGTH_CODES - 1
    ensures LengthBase(0) == 3 && LengthBase(28) == 258
    ensures LengthBase(k) + Pow2(LengthExtra(k)) == if k < 27 then LengthBase(k + 1) else 259
  {
    hide Pow2;
    Powers();
  }

  /** The lengths of an earlier code are the smaller ones. */
  lemma {:induction false} LengthsAscend(k: nat, l: nat)
    requires k < l < LENGTH_CODES - 1
    ensures LengthBase(k) + Pow2(LengthExtra(k)) <= LengthBase(l)
    decreases l
  {
    hide LengthBase, LengthExtra;
    LengthSteps(l - 1);
    if k < l - 1 {
      LengthsAscend(k, l - 1);
    }
  }

  predicate IsLength(k: nat, extra: nat, len: nat) {
    k < LENGTH_CODES && extra < Pow2(LengthExtra(k)) && len == LengthBase(k) + extra
  }

  /** Every length from 3 to 257 has exactly one code and extra value. */
  lemma LengthUnique(len: nat) returns (k: nat, extra: nat)
    requires 3 <= len <= 257
    ensures IsLength(k, extra, len)
    ensures forall l: nat, e: nat | IsLength(l, e, len) :: l == k && e == extra
  {
    hide LengthBase, LengthExtra, Pow2;
    LengthSteps(27);
    k := FindLength(len, 27);
    extra := len - LengthBase(k);
    forall l: nat, e: nat | IsLength(l, e, len) ensures l == k && e == extra {
      LengthSteps(k);
      if l < k {
        LengthsAscend(l, k);
      } else if k < l < 28 {
        LengthsAscend(k, l);
      }
    }
  }

  lemma {:induction false} FindLength(len: nat, top: nat) returns (k: nat)
    requires top < LENGTH_CODES - 1 && 3 <= len < LengthBase(top) + Pow2(LengthExtra(top))
    ensures k <= top && LengthBase(k) <= len < LengthBase(k) + Pow2(LengthExtra(k))
  {
    hide LengthBase, LengthExtra, Pow2;
    if LengthBase(top) <= len {
      k := top;
    } else {
      LengthSteps(0);
      LengthSteps(top - 1);
      k := FindLength(len, top - 1);
    }
  }

  /** The longest match has a code without extra bits, and can also be written with the code before it. */
  lemma LongestLength(k: nat, extra: nat)
    ensures IsLength(k, extra, 258) <==> (k == 28 && extra == 0) || (k == 27 && extra == 31)
  {
    hide Pow2;
    Powers();
    if IsLength(k, extra, 258) && k < 27 {
      LengthsAscend(k, 27);
    }
  }

  /** There are no others. */
  lemma LengthRange(k: nat, extra: nat, len: nat)
    requires IsLength(k, extra, len)
    ensures 3 <= len <= 258
  {
    hide Pow2;
    Powers();
    if k < 27 {
      LengthsAscend(k, 27);
    }
  }

  // ----- distances -----

  /** From the fifth code on, two codes share a number of extra bits. */
  lemma DistWidth(k: nat)
    requires k < DIST_CODES
    ensures DistExtra(k) == if k < 4 then 0 else k / 2 - 1
  {
  }

  lemma DistSteps(k: nat)
    requires k < DIST_CODES
    ensures DistBase(0) == 1
    ensures DistBase(k) + Pow2(DistExtra(k)) == if k < 29 then DistBase(k + 1) else 32769
  {
    hide Pow2;
    Powers();
  }

  lemma {:induction false} DistancesAscend(k: nat, l: nat)
    requires k < l < DIST_CODES
    ensures DistBase(k) + Pow2(DistExtra(k)) <= DistBase(l)
    decreases l
  {
    hide DistBase, DistExtra;
    DistSteps(l - 1);
    if k < l - 1 {
      DistancesAscend(k, l - 1);
    }
  }

  predicate IsDistance(k: nat, extra: nat, dist: nat) {
    k < DIST_CODES && extra < Pow2(DistExtra(k)) && dist == DistBase(k) + extra
  }

  /** Every distance from 1 to 32768 has exactly one code and extra value. */
  lemma DistanceUnique(dist: nat) returns (k: nat, extra: nat)
    requires 1 <= dist <= 32768
    ensures IsDistance(k, extra, dist)
    ensures forall l: nat, e: nat | IsDistance(l, e, dist) :: l == k && e == extra
  {
    hide DistBase, DistExtra, Pow2;
    DistSteps(29);
    k := FindDistance(dist, 29);
    extra := dist - DistBase(k);
    forall l: nat, e: nat | IsDistance(l, e, dist) ensures l == k && e == extra {
      if l < k {
        DistancesAscend(l, k);
      } else if k < l {
        DistancesAscend(k, l);
      }
    }
  }

  lemma {:induction false} FindDistance(dist: nat, top: nat) returns (k: nat)
    requires top < DIST_CODES && 1 <= dist < DistBase(top) + Pow2(DistExtra(top))
    ensures k <= top && DistBase(k) <= dist < DistBase(k) + Pow2(DistExtra(k))
  {
    hide DistBase, DistExtra, Pow2;
    if DistBase(top) <= dist {
      k := top;
    } else {
      DistSteps(0);
      DistSteps(top - 1);
      k := FindDistance(dist, top - 1);
    }
  }

  lemma DistanceRange(k: nat, extra: nat, dist: nat)
    requires IsDistance(k, extra, dist)
    ensures 1 <= dist <= 32768
  {
    hide DistBase, DistExtra, Pow2;
    DistSteps(29);
    if 0 < k {
      DistancesAscend(0, k);
    }
    DistSteps(0);
    if k < 29 {
      DistancesAscend(k, 29);
    }
  }

  // ----- the code-length alphabet -----

  /** The three run symbols first, then zero, then the lengths outwards from eight in both directions. */
  lemma ClcOrder(i: nat)
    requires i < 19
    ensures |CLC_ORDER| == 19
    ensures CLC_ORDER[i] == if i < 3 then 16 + i else if i == 3 then 0
                            else if i % 2 == 0 then 8 + (i - 4) / 2 else 7 - (i - 5) / 2
  {
  }

  lemma ClcDistinct(i: nat, j: nat)
    requires i < 19 && j < 19 && i != j
    ensures CLC_ORDER[i] != CLC_ORDER[j]
  {
    ClcOrder(i);
    ClcOrder(j);
  }

  /** Every symbol has its place. */
  lemma ClcPlace(sym: nat) returns (i: nat)
    requires sym < 19
    ensures i < 19 && CLC_ORDER[i] == sym
  {
    i := if sym >= 16 then sym - 16 else if sym == 0 then 3 else if sym >= 8 then 4 + 2 * (sym - 8)
         else 5 + 2 * (7 - sym);
    ClcOrder(i);
  }

  /** The lengths sent go to the symbols of that order, and the symbols not reached have none. */
  lemma {:induction false} ClLengthsAt(sent: seq<nat>, i: nat)
    requires |sent| <= 19 && i < 19
    ensures ClLengths(sent)[CLC_ORDER[i]] == if i < |sent| then sent[i] else 0
  {
    if sent != [] {
      var n := |sent| - 1;
      ClLengthsAt(sent[..n], i);
      if i != n {
        ClcDistinct(i, n);
      }
    }
  }

  /** Repeats are of three to six, zeros of three to 138, each in exactly one way. */
  lemma RunsUnique(n: nat, op: LengthOp)
    requires op.Ok() && !op.Single?
    ensures op.RepeatLast? ==> 3 <= op.Span() <= 6
    ensures !op.RepeatLast? ==> 3 <= op.Span() <= 138
    ensures op.RepeatLast? && op.Span() == n <==> 3 <= n <= 6 && op == RepeatLast(n - 3)
    ensures !op.RepeatLast? && op.Span() == n <==>
            3 <= n <= 138 && op == if n <= 10 then ZerosShort(n - 3) else ZerosLong(n - 11)
  {
    hide Pow2;
    Powers();
  }

  lemma RunsExist(n: nat)
    requires 3 <= n <= 138
    ensures (if n <= 10 then ZerosShort(n - 3) else ZerosLong(n - 11)).Ok()
    ensures n <= 6 ==> RepeatLast(n - 3).Ok()
  {
    hide Pow2;
    Powers();
  }
}
