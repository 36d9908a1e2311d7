/** What the normalized map says of an address, in terms of the regions handed in and of one list of kinds. */
module MapPrecedence {
  import opened MemoryMap
  import PmmMap
  import opened Words

  /** From the kind that gives way to every other to the one that prevails over all. */
  const PRECEDENCE := [
    USABLE, LOADER_RECLAIM, INITRD, KERNEL, ACPI_RECLAIM, ACPI_NVS, RESERVED, FRAMEBUFFER, BAD]

  predicate Known(kind: nat) {
    kind in PRECEDENCE
  }

  /** `t` gives way to `u`. */
  predicate Yields(t: nat, u: nat) {
    exists i, j | 0 <= i < j < |PRECEDENCE| :: PRECEDENCE[i] == t && PRECEDENCE[j] == u
  }

  lemma RankPlace(i: nat)
    requires i < |PRECEDENCE|
    ensures Rank(PRECEDENCE[i]) == i
  {
  }

  lemma KnownRanked(kind: nat)
    ensures Known(kind) <==> Rank(kind) >= 0
  {
    if Known(kind) {
      var i :| 0 <= i < |PRECEDENCE| && PRECEDENCE[i] == kind;
      RankPlace(i);
    }
    if Rank(kind) >= 0 {
      assert PRECEDENCE[Rank(kind)] == kind;
    }
  }

  /** The ranks compare as the list does. */
  lemma RankYields(t: nat, u: nat)
    requires Known(t) && Known(u)
    ensures Yields(t, u) <==> Rank(t) < Rank(u)
  {
    hide Rank;
    var i :| 0 <= i < |PRECEDENCE| && PRECEDENCE[i] == t;
    var j :| 0 <= j < |PRECEDENCE| && PRECEDENCE[j] == u;
    RankPlace(i);
    RankPlace(j);
    if Yields(t, u) {
      var k, l :| 0 <= k < l < |PRECEDENCE| && PRECEDENCE[k] == t && PRECEDENCE[l] == u;
      RankPlace(k);
      RankPlace(l);
    }
  }

  ghost predicate CoveredBy(input: seq<Region>, a: nat, kind: nat)
    requires InWords(input)
  {
    exists i | 0 <= i < |input| :: input[i].kind == kind && Covers(input[i], a)
  }

  lemma CoverIs(input: seq<Region>, i: nat, a: nat)
    requires InWords(input) && i < |input| && Covers(input[i], a)
    ensures CoveredBy(input, a, input[i].kind)
  {
  }

  /** An address has a kind if and only if that kind is known, covers it, and every other known kind that covers
      it gives way. */
  lemma PrevailsExactly(input: seq<Region>, out: seq<Region>, a: nat, t: nat)
    requires InWords(input) && NormalForm(input, out) && t != 0
    ensures KindIn(out, a) == t <==>
            && Known(t) && CoveredBy(input, a, t)
            && forall u: nat | Known(u) && u != t && CoveredBy(input, a, u) :: Yields(u, t)
  {
    hide KindAt, KindIn, Rank, Covers, Known, Yields;
    assert KindIn(out, a) == KindAt(input, a);
    KindAtWins(input, a, t);
    KnownRanked(t);
    if Wins(input, a, t) {
      forall u: nat | Known(u) && u != t && CoveredBy(input, a, u) ensures Yields(u, t) {
        var i :| 0 <= i < |input| && input[i].kind == u && Covers(input[i], a);
        if Rank(u) == Rank(t) {
          RankInjective(u, t);
        }
        RankYields(u, t);
      }
    } else if Known(t) && CoveredBy(input, a, t) {
      var i :| 0 <= i < |input| && Covers(input[i], a) && !(Rank(input[i].kind) <= Rank(t));
      var u := input[i].kind;
      KnownRanked(u);
      CoverIs(input, i, a);
      RankYields(u, t);
    }
  }

  /** The kind every other one gives way to. */
  lemma UsableYields(u: nat)
    requires Known(u) && u != USABLE
    ensures Yields(USABLE, u) && !Yields(u, USABLE)
  {
    RankYields(USABLE, u);
    RankYields(u, USABLE);
  }

  /** An address is usable if and only if a usable region covers it and no region of another known kind does. */
  lemma UsableExactly(input: seq<Region>, out: seq<Region>, a: nat)
    requires InWords(input) && NormalForm(input, out)
    ensures KindIn(out, a) == USABLE <==>
            CoveredBy(input, a, USABLE) && forall u: nat | Known(u) && u != USABLE :: !CoveredBy(input, a, u)
  {
    hide KindAt, KindIn, Rank, Covers, Yields, NormalForm, CoveredBy;
    PrevailsExactly(input, out, a, USABLE);
    forall u: nat | Known(u) && u != USABLE ensures !Yields(u, USABLE) {
      UsableYields(u);
    }
  }

  /** Memory is handed out by whole pages: the page around a usable address lies in one usable region as it was
      handed in, and no region of another known kind, unless it wraps, has a byte in common with that page. */
  lemma UsablePages(input: seq<Region>, out: seq<Region>, a: nat)
    requires InWords(input) && NormalForm(input, out) && KindIn(out, a) == USABLE
    ensures exists i | 0 <= i < |input| :: input[i].kind == USABLE
              && input[i].base <= AlignDown(a) && AlignDown(a) + PAGE <= input[i].base + input[i].length
    ensures forall j | 0 <= j < |input| && Known(input[j].kind) && input[j].kind != USABLE && input[j].length > 0
              && input[j].base + input[j].length <= TWO64 - PAGE ::
              input[j].base + input[j].length <= AlignDown(a) || AlignDown(a) + PAGE <= input[j].base
  {
    hide KindAt, KindIn, NormalForm, Round;
    UsableExactly(input, out, a);
    var i :| 0 <= i < |input| && input[i].kind == USABLE && Covers(input[i], a);
    PageInside(Round(input[i]).base, Round(input[i]).end, a);
    forall j | 0 <= j < |input| && Known(input[j].kind) && input[j].kind != USABLE && input[j].length > 0
        && input[j].base + input[j].length <= TWO64 - PAGE
      ensures input[j].base + input[j].length <= AlignDown(a) || AlignDown(a) + PAGE <= input[j].base {
      assert !CoveredBy(input, a, input[j].kind);
      assert !Covers(input[j], a);
      PageOutside(Round(input[j]).base, Round(input[j]).end, a);
    }
  }

  lemma PageInside(base: nat, end: nat, a: nat)
    requires base % PAGE == 0 == end % PAGE && base <= a < end
    ensures base <= AlignDown(a) && AlignDown(a) + PAGE <= end
  {
  }

  lemma PageOutside(base: nat, end: nat, a: nat)
    requires base % PAGE == 0 == end % PAGE && !(base <= a < end)
    ensures end <= AlignDown(a) || AlignDown(a) + PAGE <= base
  {
  }

  /** The kernel keeps pages for exactly the kinds that give way to the firmware's own. */
  lemma ManagedKinds(kind: nat)
    ensures PmmMap.IsManaged(kind) <==> Known(kind) && Yields(kind, ACPI_NVS)
  {
    KnownRanked(kind);
    if Known(kind) {
      RankYields(kind, ACPI_NVS);
    }
  }
}
