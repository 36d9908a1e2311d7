/** Turning raw, overlapping firmware regions into the one sorted memory map the kernel accepts. */
module MemoryMap {
  import opened Statuses
  import opened Words

  const PAGE := 4096

  const USABLE := 1
  const RESERVED := 2
  const ACPI_RECLAIM := 3
  const ACPI_NVS := 4
  const BAD := 5
  const LOADER_RECLAIM := 6
  const KERNEL := 7
  const INITRD := 8
  const FRAMEBUFFER := 9

  datatype Region = Region(base: nat, length: nat, kind: nat)

  ghost predicate InWords(regions: seq<Region>) {
    forall i | 0 <= i < |regions| :: regions[i].base < TWO64 && regions[i].length < TWO64
  }

  // ----- rounding and ranking one input -----

  datatype Interval = Dropped | Kept(base: nat, end: nat)

  function AlignDown(x: nat): (y: nat)
    ensures y % PAGE == 0 && y <= x < y + PAGE
  {
    x - x % PAGE
  }

  function AlignUp(x: nat): (y: nat)
    requires x < TWO64
    ensures y % PAGE == 0 && (if x <= TWO64 - PAGE then x <= y < x + PAGE else y == 0)
  {
    AlignDown(Wrap(x + PAGE - 1))
  }

  /** Usable memory is rounded inwards, anything else outwards; what wraps or vanishes is dropped. */
  function Round(r: Region): (v: Interval)
    requires r.base < TWO64 && r.length < TWO64
    ensures v.Kept? ==> v.base < v.end < TWO64 && v.base % PAGE == 0 == v.end % PAGE
    ensures v.Kept? && r.kind == USABLE ==>
            r.base <= v.base < r.base + PAGE && v.end <= r.base + r.length < v.end + PAGE
    ensures v.Kept? && r.kind != USABLE ==>
            v.base <= r.base < v.base + PAGE && r.base + r.length <= v.end < r.base + r.length + PAGE
    ensures v.Dropped? && r.kind == USABLE ==>
              r.base + r.length >= TWO64 || forall a: nat | a % PAGE == 0 && r.base <= a :: a + PAGE > r.base + r.length
    ensures v.Dropped? && r.kind != USABLE ==> r.length == 0 || r.base + r.length > TWO64 - PAGE
  {
    var end := Wrap(r.base + r.length);
    if r.length == 0 || end < r.base then Dropped
    else
      var base := if r.kind == USABLE then AlignUp(r.base) else AlignDown(r.base);
      var roundedEnd := if r.kind == USABLE then AlignDown(end) else AlignUp(end);
      if base < r.base && r.kind == USABLE then Dropped
      else if roundedEnd < end && r.kind != USABLE then Dropped
      else if roundedEnd <= base then Dropped
      else Kept(base, roundedEnd)
  }

  function Rank(kind: nat): int {
    if kind == USABLE then 0
    else if kind == LOADER_RECLAIM then 1
    else if kind == INITRD then 2
    else if kind == KERNEL then 3
    else if kind == ACPI_RECLAIM then 4
    else if kind == ACPI_NVS then 5
    else if kind == RESERVED then 6
    else if kind == FRAMEBUFFER then 7
    else if kind == BAD then 8
    else -1
  }

  ghost predicate Covers(r: Region, a: nat)
    requires r.base < TWO64 && r.length < TWO64
  {
    var v := Round(r);
    v.Kept? && v.base <= a < v.end
  }

  // ----- the map as a function from addresses to kinds -----

  /** The highest-ranked kind covering the address; 0 if there is none. */
  ghost function KindAt(input: seq<Region>, a: nat): (t: nat)
    requires InWords(input)
    ensures Rank(t) >= 0 || t == 0
  {
    if input == [] then 0
    else
      var last := input[|input| - 1];
      var t := KindAt(input[..|input| - 1], a);
      if Covers(last, a) && Rank(last.kind) > Rank(t) then last.kind else t
  }

  /** Said without an order: `t` covers the address and nothing ranked higher does. */
  ghost predicate Wins(input: seq<Region>, a: nat, t: nat)
    requires InWords(input)
  {
    && Rank(t) >= 0
    && (exists i | 0 <= i < |input| :: input[i].kind == t && Covers(input[i], a))
    && (forall i | 0 <= i < |input| && Covers(input[i], a) :: Rank(input[i].kind) <= Rank(t))
  }

  lemma {:induction false} KindAtTop(input: seq<Region>, a: nat)
    requires InWords(input)
    ensures forall i | 0 <= i < |input| && Covers(input[i], a) :: Rank(input[i].kind) <= Rank(KindAt(input, a))
    ensures KindAt(input, a) != 0 ==> exists i | 0 <= i < |input| ::
            input[i].kind == KindAt(input, a) && Covers(input[i], a)
  {
    hide Round, Covers;
    if input == [] {
    } else {
      var n := |input| - 1;
      KindAtTop(input[..n], a);
      if KindAt(input[..n], a) != 0 {
        var i :| 0 <= i < n && input[..n][i].kind == KindAt(input[..n], a) && Covers(input[..n][i], a);
        assert input[i].kind == KindAt(input[..n], a) && Covers(input[i], a);
      }
      forall i | 0 <= i < |input| && Covers(input[i], a) ensures Rank(input[i].kind) <= Rank(KindAt(input, a)) {
        if i < n {
          assert input[..n][i] == input[i];
        }
      }
    }
  }

  lemma RankInjective(t: nat, u: nat)
    requires Rank(t) == Rank(u) >= 0
    ensures t == u
  {
  }

  /** An address has kind `t` exactly when `t` wins there, and no kind exactly when nothing ranked covers it. */
  lemma KindAtWins(input: seq<Region>, a: nat, t: nat)
    requires InWords(input) && t != 0
    ensures KindAt(input, a) == t <==> Wins(input, a, t)
  {
    hide Round, Covers;
    KindAtTop(input, a);
    if Wins(input, a, t) {
      var i :| 0 <= i < |input| && input[i].kind == t && Covers(input[i], a);
      var u := KindAt(input, a);
      assert Rank(t) <= Rank(u);
      assert u != 0;
      RankInjective(t, u);
    }
  }

  /** The kind depends only on which regions were given, not on their order or number. */
  lemma KindIgnoresOrder(input: seq<Region>, other: seq<Region>, a: nat)
    requires InWords(input) && InWords(other) && forall r :: r in input <==> r in other
    ensures KindAt(input, a) == KindAt(other, a)
  {
    hide Round, Covers, KindAt;
    KindIgnoresOrderHalf(input, other, a);
    KindIgnoresOrderHalf(other, input, a);
  }

  lemma KindIgnoresOrderHalf(input: seq<Region>, other: seq<Region>, a: nat)
    requires InWords(input) && InWords(other) && forall r :: r in input <==> r in other
    ensures KindAt(input, a) != 0 ==> KindAt(other, a) == KindAt(input, a)
  {
    hide Round, Covers, KindAt;
    var t := KindAt(input, a);
    if t != 0 {
      KindAtWins(input, a, t);
      var i :| 0 <= i < |input| && input[i].kind == t && Covers(input[i], a);
      assert input[i] in other;
      forall j | 0 <= j < |other| && Covers(other[j], a) ensures Rank(other[j].kind) <= Rank(t) {
        assert other[j] in input;
      }
      KindAtWins(other, a, t);
    }
  }

  // ----- normal maps -----

  ghost predicate RegionOk(r: Region) {
    r.length > 0 && r.base % PAGE == 0 == r.length % PAGE && r.base + r.length < TWO64 && Rank(r.kind) >= 0
  }

  /** Sorted, disjoint, page-aligned, and with no two touching regions of one kind. */
  ghost predicate Normal(map0: seq<Region>) {
    && (forall i | 0 <= i < |map0| :: RegionOk(map0[i]))
    && (forall i | 0 <= i < |map0| - 1 :: Follows(map0[i], map0[i + 1]))
    && (forall i, j | 0 <= i < j < |map0| :: map0[i].base + map0[i].length <= map0[j].base)
  }

  ghost predicate Follows(r: Region, s: Region) {
    r.base + r.length <= s.base && (r.base + r.length == s.base ==> r.kind != s.kind)
  }

  /** The kind a map gives an address, 0 for none. */
  ghost function KindIn(map0: seq<Region>, a: nat): nat {
    if map0 == [] then 0
    else
      var last := map0[|map0| - 1];
      if last.base <= a < last.base + last.length then last.kind else KindIn(map0[..|map0| - 1], a)
  }

  /** A normal map with the same kinds as the input everywhere. */
  ghost predicate NormalForm(input: seq<Region>, map0: seq<Region>)
    requires InWords(input)
  {
    Normal(map0) && forall a: nat :: KindIn(map0, a) == KindAt(input, a)
  }

  lemma NormalInit(map0: seq<Region>)
    requires Normal(map0) && map0 != []
    ensures Normal(map0[..|map0| - 1])
  {
  }

  lemma {:induction false} KindBeyond(map0: seq<Region>, a: nat)
    requires Normal(map0) && forall i | 0 <= i < |map0| :: map0[i].base + map0[i].length <= a
    ensures KindIn(map0, a) == 0
  {
    if map0 != [] {
      NormalInit(map0);
      KindBeyond(map0[..|map0| - 1], a);
    }
  }

  /** Beyond the last region there is nothing, and before it the rest decides. */
  lemma LastRegion(map0: seq<Region>, a: nat)
    requires Normal(map0) && map0 != []
    ensures var last := map0[|map0| - 1];
            && (a >= last.base + last.length ==> KindIn(map0, a) == 0)
            && (last.base <= a < last.base + last.length ==>
               KindIn(map0, a) == last.kind != 0 && KindIn(map0[..|map0| - 1], a) == 0)
            && (a < last.base ==> KindIn(map0, a) == KindIn(map0[..|map0| - 1], a))
  {
    var last := map0[|map0| - 1];
    NormalInit(map0);
    if a >= last.base {
      KindBeyond(map0[..|map0| - 1], a);
    }
  }

  /** A normal map is determined by its kinds. */
  lemma {:induction false} NormalUnique(p: seq<Region>, q: seq<Region>)
    requires Normal(p) && Normal(q) && forall a: nat :: KindIn(p, a) == KindIn(q, a)
    ensures p == q
  {
    hide KindIn;
    if p == [] {
      if q != [] {
        LastRegion(q, q[|q| - 1].base);
        NothingIn(q[|q| - 1].base);
      }
    } else if q == [] {
      LastRegion(p, p[|p| - 1].base);
      NothingIn(p[|p| - 1].base);
    } else {
      SameEnd(p, q);
      SameEnd(q, p);
      SameStart(p, q);
      SameStart(q, p);
      var p', q' := p[..|p| - 1], q[..|q| - 1];
      forall a: nat ensures KindIn(p', a) == KindIn(q', a) {
        LastRegion(p, a);
        LastRegion(q, a);
        NormalInit(p);
        NormalInit(q);
        if a >= p[|p| - 1].base {
          KindBeyond(p', a);
          KindBeyond(q', a);
        }
      }
      NormalInit(p);
      NormalInit(q);
      NormalUnique(p', q');
      assert p == p' + [p[|p| - 1]] && q == q' + [q[|q| - 1]];
    }
  }

  lemma NothingIn(a: nat)
    ensures KindIn([], a) == 0
  {
  }

  lemma SameEnd(p: seq<Region>, q: seq<Region>)
    requires Normal(p) && Normal(q) && p != [] && q != [] && forall a: nat :: KindIn(p, a) == KindIn(q, a)
    ensures var x, y := p[|p| - 1], q[|q| - 1]; x.base + x.length <= y.base + y.length
    ensures var x, y := p[|p| - 1], q[|q| - 1]; x.base + x.length == y.base + y.length ==> x.kind == y.kind
  {
    hide KindIn;
    var x := p[|p| - 1];
    assert RegionOk(x);
    LastRegion(p, x.base + x.length - 1);
    LastRegion(q, x.base + x.length - 1);
    assert RegionOk(q[|q| - 1]);
  }

  lemma SameStart(p: seq<Region>, q: seq<Region>)
    requires Normal(p) && Normal(q) && p != [] && q != [] && forall a: nat :: KindIn(p, a) == KindIn(q, a)
    requires var x, y := p[|p| - 1], q[|q| - 1]; x.base + x.length == y.base + y.length && x.kind == y.kind
    ensures p[|p| - 1].base >= q[|q| - 1].base
  {
    hide KindIn;
    var x, y := p[|p| - 1], q[|q| - 1];
    if x.base < y.base {
      var a := y.base - 1;
      LastRegion(p, a);
      LastRegion(q, a);
      assert RegionOk(y);
      var q' := q[..|q| - 1];
      NormalInit(q);
      if q' == [] {
        NothingIn(a);
      } else {
        assert Follows(q'[|q'| - 1], y);
        LastRegion(q', a);
      }
    }
  }

  /** The part of a map below `x`. */
  ghost function Clip(map0: seq<Region>, x: nat): seq<Region> {
    if map0 == [] then []
    else
      var init, last := map0[..|map0| - 1], map0[|map0| - 1];
      if last.base >= x then Clip(init, x)
      else if last.base + last.length > x then init + [last.(length := x - last.base)]
      else map0
  }

  lemma {:induction false} ClipNormal(map0: seq<Region>, x: nat)
    requires Normal(map0) && x % PAGE == 0
    ensures Normal(Clip(map0, x)) && |Clip(map0, x)| <= |map0|
    ensures forall a: nat :: KindIn(Clip(map0, x), a) == if a < x then KindIn(map0, a) else 0
  {
    hide KindIn;
    if map0 == [] {
      forall a: nat ensures KindIn([], a) == 0 {
        NothingIn(a);
      }
    } else {
      var init, last := map0[..|map0| - 1], map0[|map0| - 1];
      assert RegionOk(last);
      NormalInit(map0);
      if last.base >= x {
        ClipNormal(init, x);
      } else if last.base + last.length > x {
        var cut := init + [last.(length := x - last.base)];
        CutNormal(map0, x);
        assert cut[..|cut| - 1] == init;
        forall a: nat ensures KindIn(cut, a) == if a < x then KindIn(map0, a) else 0 {
          LastRegion(cut, a);
          LastRegion(map0, a);
        }
      }
      forall a: nat ensures KindIn(Clip(map0, x), a) == if a < x then KindIn(map0, a) else 0 {
        LastRegion(map0, a);
      }
    }
  }

  lemma CutNormal(map0: seq<Region>, x: nat)
    requires Normal(map0) && x % PAGE == 0 && map0 != []
    requires map0[|map0| - 1].base < x < map0[|map0| - 1].base + map0[|map0| - 1].length
    ensures Normal(map0[..|map0| - 1] + [map0[|map0| - 1].(length := x - map0[|map0| - 1].base)])
  {
    var n := |map0| - 1;
    var last := map0[n];
    var cut := map0[..n] + [last.(length := x - last.base)];
    assert RegionOk(last);
    assert RegionOk(cut[n]);
    forall i | 0 <= i < |cut| - 1 ensures Follows(cut[i], cut[i + 1]) {
      assert Follows(map0[i], map0[i + 1]);
    }
  }

  /** A normal map that agrees with another below `x` and has nothing above is no longer than it. */
  lemma ShorterBelow(p: seq<Region>, q: seq<Region>, x: nat)
    requires Normal(p) && Normal(q) && x % PAGE == 0
    requires forall a: nat :: KindIn(p, a) == if a < x then KindIn(q, a) else 0
    ensures |p| <= |q|
  {
    hide KindIn, Normal, Clip;
    ClipNormal(q, x);
    NormalUnique(p, Clip(q, x));
  }

  /** There is at most one normal form, whatever order the regions are given in. */
  lemma NormalFormUnique(input: seq<Region>, other: seq<Region>, p: seq<Region>, q: seq<Region>)
    requires InWords(input) && InWords(other) && forall r :: r in input <==> r in other
    requires NormalForm(input, p) && NormalForm(other, q)
    ensures p == q
  {
    hide KindIn, KindAt, Normal;
    forall a: nat ensures KindIn(p, a) == KindIn(q, a) {
      KindIgnoresOrder(input, other, a);
    }
    NormalUnique(p, q);
  }

  /** Normalizing a normal map changes nothing. */
  lemma NormalFixed(map0: seq<Region>)
    requires Normal(map0)
    ensures InWords(map0) && NormalForm(map0, map0)
  {
    hide KindIn, KindAt, Round;
    forall i | 0 <= i < |map0| ensures map0[i].base < TWO64 && map0[i].length < TWO64 {
      assert RegionOk(map0[i]);
    }
    forall a: nat ensures KindIn(map0, a) == KindAt(map0, a) {
      KindInAt(map0, a);
    }
  }

  lemma {:induction false} KindInAt(map0: seq<Region>, a: nat)
    requires Normal(map0) && InWords(map0)
    ensures KindIn(map0, a) == KindAt(map0, a)
  {
    hide Round;
    if map0 == [] {
    } else {
      var init, last := map0[..|map0| - 1], map0[|map0| - 1];
      NormalInit(map0);
      KindInAt(init, a);
      RoundExact(last);
      LastRegion(map0, a);
    }
  }

  lemma RoundExact(r: Region)
    requires RegionOk(r)
    ensures Round(r) == Kept(r.base, r.base + r.length)
  {
    AlignedStays(r.base);
    AlignedStays(r.base + r.length);
    hide AlignUp, AlignDown, Rank;
  }

  lemma AlignedStays(x: nat)
    requires x < TWO64 && x % PAGE == 0
    ensures AlignDown(x) == x == AlignUp(x)
  {
  }

  // ----- the kernel's check -----

  ghost predicate Acceptable(r: Region) {
    && r.length > 0 && r.base % PAGE == 0 == r.length % PAGE
    && r.base + r.length < TWO64 && USABLE <= r.kind <= FRAMEBUFFER
  }

  /** What the kernel demands of a memory map. */
  ghost predicate Accepted(map0: seq<Region>) {
    && (forall i | 0 <= i < |map0| :: Acceptable(map0[i]))
    && (forall i, j | 0 <= i < j < |map0| :: map0[i].base + map0[i].length <= map0[j].base)
  }

  /** A region as the loader hands it over, with its spare field. */
  datatype BootRegion = BootRegion(region: Region, reserved: nat)

  function Regions(regions: seq<BootRegion>): (r: seq<Region>)
    ensures |r| == |regions|
  {
    seq(|regions|, i requires 0 <= i < |regions| => regions[i].region)
  }

  ghost predicate NoReserved(regions: seq<BootRegion>) {
    forall i | 0 <= i < |regions| :: regions[i].reserved == 0
  }

  method CheckMap(regions: seq<BootRegion>) returns (status: Status)
    requires InWords(Regions(regions))
    ensures status == Ok <==> Accepted(Regions(regions)) && NoReserved(regions)
    ensures status == Ok || status == ErrInvalid
  {
    ghost var map0 := Regions(regions);
    var i := 0;
    while i < |regions|
      invariant 0 <= i <= |regions| && Accepted(map0[..i]) && NoReserved(regions[..i])
    {
      var r := regions[i].region;
      assert r == map0[i];
      if r.length == 0 || r.base % PAGE != 0 || r.length % PAGE != 0 {
        return ErrInvalid;
      }
      if Wrap(r.base + r.length) < r.base {
        return ErrInvalid;
      }
      if r.kind < USABLE || r.kind > FRAMEBUFFER {
        return ErrInvalid;
      }
      if regions[i].reserved != 0 {
        return ErrInvalid;
      }
      if i > 0 && r.base < Wrap(regions[i - 1].region.base + regions[i - 1].region.length) {
        assert !(map0[i - 1].base + map0[i - 1].length <= map0[i].base);
        return ErrInvalid;
      }
      CheckOneMore(map0, i);
      i := i + 1;
    }
    assert map0[..i] == map0 && regions[..i] == regions;
    return Ok;
  }

  lemma CheckOneMore(map0: seq<Region>, i: nat)
    requires i < |map0| && Accepted(map0[..i]) && Acceptable(map0[i])
    requires i > 0 ==> map0[i - 1].base + map0[i - 1].length <= map0[i].base
    ensures Accepted(map0[..i + 1])
  {
    var m, n := map0[..i], map0[..i + 1];
    forall k | 0 <= k < i ensures n[k].base + n[k].length <= n[i].base {
      assert m[k] == n[k] && Acceptable(m[k]);
      if k < i - 1 {
        assert m[k].base + m[k].length <= m[i - 1].base;
      }
    }
    forall j, k | 0 <= j < k < |n| ensures n[j].base + n[j].length <= n[k].base {
      if k < i {
        assert m[j].base + m[j].length <= m[k].base;
      }
    }
    forall k | 0 <= k < |n| ensures Acceptable(n[k]) {
      assert k < i ==> n[k] == m[k];
    }
  }

  /** The normalizer clears the spare field. */
  function Stored(map0: seq<Region>): seq<BootRegion> {
    seq(|map0|, i requires 0 <= i < |map0| => BootRegion(map0[i], 0))
  }

  /** The normalizer's output always passes the kernel's check. */
  lemma NormalAccepted(map0: seq<Region>)
    requires Normal(map0)
    ensures Accepted(map0)
    ensures var out := Stored(map0); Regions(out) == map0 && NoReserved(out)
  {
    forall i | 0 <= i < |map0| ensures Acceptable(map0[i]) {
      assert RegionOk(map0[i]);
    }
  }
}
